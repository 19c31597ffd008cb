/** The number that a composite location makes: the pieces as numbers, put side by side. In a
    little-endian object the first piece is the lowest part, in a big-endian one the highest. */
module CompositeNumber {
  import opened Words
  import opened Quotients
  import opened CompositeRead

  function Pow2(n: nat): (p: nat)
    ensures p > 0
  {
    if n == 0 then 1 else 2 * Pow2(n - 1)
  }

  function LittleNumber(bytes: seq<bv8>): nat
    decreases |bytes|
  {
    if bytes == [] then 0 else bytes[0] as int + 0x100 * LittleNumber(bytes[1..])
  }

  function BigNumber(bytes: seq<bv8>): nat
    decreases |bytes|
  {
    if bytes == [] then 0 else 0x100 * BigNumber(bytes[..|bytes| - 1]) + bytes[|bytes| - 1] as int
  }

  // ------------------------------------------------------- bits as numbers

  function Bool(b: bool): nat {
    if b then 1 else 0
  }

  /** The number of some bits, the first one being the lowest, ... */
  function LowFirst(bits: seq<bool>): nat
    decreases |bits|
  {
    if bits == [] then 0 else Bool(bits[0]) + 2 * LowFirst(bits[1..])
  }

  /** ... or the highest. */
  function HighFirst(bits: seq<bool>): nat
    decreases |bits|
  {
    if bits == [] then 0 else 2 * HighFirst(bits[..|bits| - 1]) + Bool(bits[|bits| - 1])
  }

  function Zeros(n: nat): seq<bool> {
    seq(n, i requires 0 <= i < n => false)
  }

  lemma Double(x: int, y: int)
    ensures (2 * x) * y == 2 * (x * y) && x * (2 * y) == 2 * (x * y)
  {
  }

  lemma {:induction false} PowAdds(a: nat, b: nat)
    ensures Pow2(a + b) == Pow2(a) * Pow2(b)
    decreases a
  {
    if a > 0 {
      PowAdds(a - 1, b);
      Double(Pow2(a - 1), Pow2(b));
    }
  }

  lemma {:induction false} LowJoin(a: seq<bool>, b: seq<bool>)
    ensures LowFirst(a + b) == LowFirst(a) + Pow2(|a|) * LowFirst(b)
    ensures LowFirst(a) < Pow2(|a|)
    decreases |a|
  {
    if a == [] {
      assert a + b == b;
    } else {
      var s := a + b;
      assert s[1..] == a[1..] + b && s[0] == a[0];
      LowJoin(a[1..], b);
      Double(Pow2(|a| - 1), LowFirst(b));
    }
  }

  lemma {:induction false} HighJoin(a: seq<bool>, b: seq<bool>)
    ensures HighFirst(a + b) == HighFirst(a) * Pow2(|b|) + HighFirst(b)
    ensures HighFirst(b) < Pow2(|b|)
    decreases |b|
  {
    if b == [] {
      assert a + b == a;
    } else {
      var n := |b| - 1;
      assert (a + b)[..|a| + n] == a + b[..n];
      HighJoin(a, b[..n]);
      Double(HighFirst(a), Pow2(n));
    }
  }

  lemma {:induction false} ZerosAreZero(n: nat)
    ensures LowFirst(Zeros(n)) == 0 && HighFirst(Zeros(n)) == 0
  {
    if n > 0 {
      ZerosAreZero(n - 1);
      assert Zeros(n)[1..] == Zeros(n - 1) == Zeros(n)[..n - 1];
    }
  }

  // ------------------------------------------------------ bytes as numbers

  function BitsOf(bytes: seq<bv8>, little: bool): (r: seq<bool>)
    ensures |r| == 8 * |bytes|
  {
    seq(8 * |bytes|, j requires 0 <= j < 8 * |bytes| => Bit(bytes, j, little))
  }

  /** The bit of weight 2^p. */
  function ByteBit(b: bv8, p: nat): nat {
    Bool(b & Mask(p) != 0)
  }

  lemma ByteIs(b: bv8)
    ensures b as int == ByteBit(b, 0) + 2 * ByteBit(b, 1) + 4 * ByteBit(b, 2) + 8 * ByteBit(b, 3)
                        + 16 * ByteBit(b, 4) + 32 * ByteBit(b, 5) + 64 * ByteBit(b, 6) + 128 * ByteBit(b, 7)
  {
  }

  /** The bits from k on, and the first k. */
  function LowTail(s: seq<bool>, k: nat): nat
    requires k <= |s|
  {
    LowFirst(s[k..])
  }

  function HighHead(s: seq<bool>, k: nat): nat
    requires k <= |s|
  {
    HighFirst(s[..k])
  }

  lemma Whole(s: seq<bool>)
    ensures LowTail(s, 0) == LowFirst(s) && LowTail(s, |s|) == 0
    ensures HighHead(s, |s|) == HighFirst(s) && HighHead(s, 0) == 0
  {
    assert s[0..] == s[..|s|] == s;
  }

  lemma NextBit(s: seq<bool>, k: nat)
    requires k < |s|
    ensures LowTail(s, k) == Bool(s[k]) + 2 * LowTail(s, k + 1)
    ensures HighHead(s, k + 1) == 2 * HighHead(s, k) + Bool(s[k])
  {
    assert s[k..][1..] == s[k + 1..];
    assert s[..k + 1][..k] == s[..k];
  }

  lemma FourBits(s: seq<bool>)
    requires |s| == 4
    ensures LowFirst(s) == Bool(s[0]) + 2 * Bool(s[1]) + 4 * Bool(s[2]) + 8 * Bool(s[3])
    ensures HighFirst(s) == Bool(s[3]) + 2 * Bool(s[2]) + 4 * Bool(s[1]) + 8 * Bool(s[0])
  {
    hide LowFirst, HighFirst, LowTail, HighHead, Bool;
    Whole(s);
    NextBit(s, 0);
    NextBit(s, 1);
    NextBit(s, 2);
    NextBit(s, 3);
  }

  lemma EightBits(s: seq<bool>)
    requires |s| == 8
    ensures LowFirst(s) == Bool(s[0]) + 2 * Bool(s[1]) + 4 * Bool(s[2]) + 8 * Bool(s[3])
                           + 16 * Bool(s[4]) + 32 * Bool(s[5]) + 64 * Bool(s[6]) + 128 * Bool(s[7])
    ensures HighFirst(s) == Bool(s[7]) + 2 * Bool(s[6]) + 4 * Bool(s[5]) + 8 * Bool(s[4])
                            + 16 * Bool(s[3]) + 32 * Bool(s[2]) + 64 * Bool(s[1]) + 128 * Bool(s[0])
  {
    hide LowFirst, HighFirst, Bool, Pow2;
    FourBits(s[..4]);
    FourBits(s[4..]);
    LowJoin(s[..4], s[4..]);
    HighJoin(s[..4], s[4..]);
    SmallPowers();
    assert s == s[..4] + s[4..];
  }

  lemma SmallPowers()
    ensures Pow2(0) == 1 && Pow2(4) == 0x10 && Pow2(8) == 0x100
  {
  }

  lemma BitOfByte(b: bv8, i: nat)
    requires i < 8
    ensures Bool(BitsOf([b], true)[i]) == ByteBit(b, i) && Bool(BitsOf([b], false)[i]) == ByteBit(b, 7 - i)
  {
    hide Mask;
  }

  lemma OneByte(b: bv8)
    ensures LowFirst(BitsOf([b], true)) == b as int == HighFirst(BitsOf([b], false))
  {
    hide LowFirst, HighFirst, Bool, BitsOf, ByteBit, Bit;
    ByteIs(b);
    var low, high := BitsOf([b], true), BitsOf([b], false);
    EightBits(low);
    EightBits(high);
    forall i: nat | i < 8
      ensures Bool(low[i]) == ByteBit(b, i) && Bool(high[i]) == ByteBit(b, 7 - i)
    {
      BitOfByte(b, i);
    }
  }

  lemma BitsAppend(a: seq<bv8>, b: seq<bv8>, little: bool)
    ensures BitsOf(a + b, little) == BitsOf(a, little) + BitsOf(b, little)
  {
    hide Mask;
    forall j: nat | j < 8 * |a + b|
      ensures Bit(a + b, j, little) <==> if j < 8 * |a| then Bit(a, j, little) else Bit(b, j - 8 * |a|, little)
    {
      assert (a + b)[j / 8] == if j < 8 * |a| then a[j / 8] else b[(j - 8 * |a|) / 8];
      assert Place(j, little) == if j < 8 * |a| then Place(j, little) else Place(j - 8 * |a|, little);
    }
  }

  lemma NoBytes(little: bool)
    ensures LowFirst(BitsOf([], little)) == 0 == HighFirst(BitsOf([], little))
  {
  }

  lemma {:induction false} LittleBits(bytes: seq<bv8>)
    ensures LowFirst(BitsOf(bytes, true)) == LittleNumber(bytes)
    decreases |bytes|
  {
    hide LowFirst, BitsOf, Pow2;
    if bytes == [] {
      NoBytes(true);
    } else {
      var first, rest := [bytes[0]], bytes[1..];
      BitsAppend(first, rest, true);
      LowJoin(BitsOf(first, true), BitsOf(rest, true));
      OneByte(bytes[0]);
      LittleBits(rest);
      SmallPowers();
      assert bytes == first + rest;
    }
  }

  lemma {:induction false} BigBits(bytes: seq<bv8>)
    ensures HighFirst(BitsOf(bytes, false)) == BigNumber(bytes)
    decreases |bytes|
  {
    hide HighFirst, BitsOf, Pow2;
    if bytes == [] {
      NoBytes(false);
    } else {
      var rest, last := bytes[..|bytes| - 1], [bytes[|bytes| - 1]];
      BitsAppend(rest, last, false);
      HighJoin(BitsOf(rest, false), BitsOf(last, false));
      OneByte(last[0]);
      BigBits(rest);
      SmallPowers();
      assert bytes == rest + last;
    }
  }

  // ------------------------------------------------------------------ pieces

  /** Bits of a source from an offset on, with zeros behind its end. */
  function Slice(src: seq<bv8>, offset: nat, n: nat, little: bool): (r: seq<bool>)
    ensures |r| == n
  {
    seq(n, i requires 0 <= i < n => Bit(src, offset + i, little))
  }

  /** What a piece contributes: its source as a number, without what is below the piece and above
      it. A big-endian source counts from its highest bit; bits behind its end are zero. */
  function LittlePiece(piece: Piece, taken: nat, reader: Option<MemoryReader>): nat {
    match Source(piece, taken, reader)
    case None => 0
    case Some(src) => LittleNumber(src) / Pow2(piece.offsetBits) % Pow2(taken)
  }

  function BigPiece(piece: Piece, taken: nat, reader: Option<MemoryReader>): nat {
    match Source(piece, taken, reader)
    case None => 0
    case Some(src) =>
      var end, size := piece.offsetBits + taken, 8 * |src|;
      if end <= size then BigNumber(src) / Pow2(size - end) % Pow2(taken)
      else BigNumber(src) * Pow2(end - size) % Pow2(taken)
  }

  lemma {:induction false} LittleSlice(src: seq<bv8>, offset: nat, n: nat)
    ensures LowFirst(Slice(src, offset, n, true)) == LittleNumber(src) / Pow2(offset) % Pow2(n)
  {
    hide LowFirst, Bit, LittleNumber, Pow2;
    var bits := BitsOf(src, true) + Zeros(offset + n);
    var low, mid, high := bits[..offset], bits[offset..offset + n], bits[offset + n..];
    assert bits == low + (mid + high);
    assert mid == Slice(src, offset, n, true) by { BitsBeyond(src, true); }
    PaddedLow(src, offset + n);
    hide Slice, BitsOf, Zeros;
    LowJoin(low, mid + high);
    LowJoin(mid, high);
    Turned(LowFirst(low), Pow2(offset), LowFirst(mid), Pow2(n), LowFirst(high));
    Middle(LowFirst(bits), LowFirst(low), Pow2(offset), LowFirst(mid), Pow2(n), LowFirst(high));
  }

  lemma PaddedLow(src: seq<bv8>, pad: nat)
    ensures LowFirst(BitsOf(src, true) + Zeros(pad)) == LittleNumber(src)
  {
    LowJoin(BitsOf(src, true), Zeros(pad));
    ZerosAreZero(pad);
    LittleBits(src);
  }

  lemma BitsBeyond(bytes: seq<bv8>, little: bool)
    ensures forall j: nat | j >= 8 * |bytes| :: !Bit(bytes, j, little)
  {
  }

  lemma Turned(low: nat, a: nat, mid: nat, b: nat, high: nat)
    ensures low + a * (mid + b * high) == (high * b + mid) * a + low
  {
    assert b * high == high * b;
  }

  lemma Middle(x: nat, low: nat, a: nat, mid: nat, b: nat, high: nat)
    requires low < a && mid < b && x == (high * b + mid) * a + low
    ensures x / a % b == mid
  {
    QuotientIs(x, a, high * b + mid, low);
    QuotientIs(high * b + mid, b, high, mid);
  }

  lemma {:induction false} BigSlice(src: seq<bv8>, offset: nat, n: nat)
    ensures var end, size := offset + n, 8 * |src|;
            HighFirst(Slice(src, offset, n, false))
            == if end <= size then BigNumber(src) / Pow2(size - end) % Pow2(n)
               else BigNumber(src) * Pow2(end - size) % Pow2(n)
  {
    hide HighFirst, Bit, BigNumber, Pow2;
    var end, size := offset + n, 8 * |src|;
    var pad := if end <= size then 0 else end - size;
    var bits := BitsOf(src, false) + Zeros(pad);
    var high, mid, low := bits[..offset], bits[offset..end], bits[end..];
    assert bits == (high + mid) + low;
    assert mid == Slice(src, offset, n, false) by { BitsBeyond(src, false); }
    HighJoin(high + mid, low);
    HighJoin(high, mid);
    Padded(src, pad);
    hide Slice, BitsOf, Zeros;
    Middle(HighFirst(bits), HighFirst(low), Pow2(|low|), HighFirst(mid), Pow2(n), HighFirst(high));
    Unshifted(HighFirst(bits));
  }

  lemma Unshifted(x: nat)
    ensures x / Pow2(0) == x
  {
  }

  lemma Padded(src: seq<bv8>, pad: nat)
    ensures HighFirst(BitsOf(src, false) + Zeros(pad)) == BigNumber(src) * Pow2(pad)
    ensures pad == 0 ==> BigNumber(src) * Pow2(pad) == BigNumber(src)
  {
    HighJoin(BitsOf(src, false), Zeros(pad));
    ZerosAreZero(pad);
    BigBits(src);
  }

  /** The first `n` pieces as one number of `total` bits, the first piece lowest, ... */
  function LittleSum(pieces: seq<Piece>, n: nat, total: nat, reader: Option<MemoryReader>): nat
    requires n <= |pieces|
  {
    if n == 0 then 0
    else
      var start := StartBit(pieces, n - 1);
      LittleSum(pieces, n - 1, total, reader)
      + if start >= total then 0
        else LittlePiece(pieces[n - 1], BitsTaken(pieces, n - 1, total), reader) * Pow2(start)
  }

  /** ... or highest. */
  function BigSum(pieces: seq<Piece>, n: nat, total: nat, reader: Option<MemoryReader>): nat
    requires n <= |pieces|
  {
    if n == 0 then 0
    else
      var start := StartBit(pieces, n - 1);
      BigSum(pieces, n - 1, total, reader)
      + if start >= total then 0
        else
          var taken := BitsTaken(pieces, n - 1, total);
          BigPiece(pieces[n - 1], taken, reader) * Pow2(total - start - taken)
  }

  /** The bits of the value that the first `n` pieces provide. */
  ghost function ValueBits(pieces: seq<Piece>, n: nat, total: nat, reader: Option<MemoryReader>, little: bool): seq<bool>
    requires n <= |pieces|
  {
    var size := Min(StartBit(pieces, n), total);
    seq(size, j requires 0 <= j < size => ValueBit(pieces, |pieces|, j, total, reader, little))
  }

  ghost function PieceBits(pieces: seq<Piece>, n: nat, total: nat, reader: Option<MemoryReader>, little: bool): seq<bool>
    requires n < |pieces| && StartBit(pieces, n) < total
  {
    var taken := BitsTaken(pieces, n, total);
    match Source(pieces[n], taken, reader)
    case None => Zeros(taken)
    case Some(src) => Slice(src, pieces[n].offsetBits, taken, little)
  }

  lemma {:induction false} CoveredBit(
      pieces: seq<Piece>, n: nat, j: nat, total: nat, reader: Option<MemoryReader>, little: bool)
    requires n < |pieces| && Covers(pieces, n, j) && j < total
    ensures ValueBit(pieces, |pieces|, j, total, reader, little)
       <==> SourceBit(pieces[n], BitsTaken(pieces, n, total), j - StartBit(pieces, n), reader, little)
  {
    hide SourceBit;
    forall k: nat | Covers(pieces, k, j)
      ensures k == n
    {
      CoveredOnce(pieces, k, n, j);
    }
  }

  lemma {:induction false} PieceAppends(
      pieces: seq<Piece>, n: nat, total: nat, reader: Option<MemoryReader>, little: bool)
    requires n < |pieces|
    ensures ValueBits(pieces, n + 1, total, reader, little)
         == ValueBits(pieces, n, total, reader, little)
            + if StartBit(pieces, n) < total then PieceBits(pieces, n, total, reader, little) else []
  {
    hide ValueBit, Source, Bit;
    if StartBit(pieces, n) < total {
      var start, taken := StartBit(pieces, n), BitsTaken(pieces, n, total);
      assert StartBit(pieces, n + 1) == start + pieces[n].sizeBits;
      forall i: nat | i < taken
        ensures ValueBit(pieces, |pieces|, start + i, total, reader, little)
           <==> PieceBits(pieces, n, total, reader, little)[i]
      {
        CoveredBit(pieces, n, start + i, total, reader, little);
      }
    }
  }

  lemma {:induction false} PieceNumbers(pieces: seq<Piece>, n: nat, total: nat, reader: Option<MemoryReader>)
    requires n < |pieces| && StartBit(pieces, n) < total
    ensures var taken := BitsTaken(pieces, n, total);
            && LowFirst(PieceBits(pieces, n, total, reader, true)) == LittlePiece(pieces[n], taken, reader)
            && HighFirst(PieceBits(pieces, n, total, reader, false)) == BigPiece(pieces[n], taken, reader)
  {
    hide LowFirst, HighFirst, Slice;
    var taken := BitsTaken(pieces, n, total);
    ZerosAreZero(taken);
    var source := Source(pieces[n], taken, reader);
    if source.Some? {
      LittleSlice(source.value, pieces[n].offsetBits, taken);
      BigSlice(source.value, pieces[n].offsetBits, taken);
    }
  }

  lemma {:induction false} LittleSumOfPieces(pieces: seq<Piece>, n: nat, total: nat, reader: Option<MemoryReader>)
    requires n <= |pieces|
    ensures LowFirst(ValueBits(pieces, n, total, reader, true)) == LittleSum(pieces, n, total, reader)
  {
    hide LowFirst, PieceBits, LittlePiece, ValueBit, Pow2;
    if n == 0 {
      assert ValueBits(pieces, 0, total, reader, true) == Zeros(0);
      ZerosAreZero(0);
    } else {
      LittleSumOfPieces(pieces, n - 1, total, reader);
      PieceAppends(pieces, n - 1, total, reader, true);
      var low := ValueBits(pieces, n - 1, total, reader, true);
      if StartBit(pieces, n - 1) < total {
        PieceNumbers(pieces, n - 1, total, reader);
        LowJoin(low, PieceBits(pieces, n - 1, total, reader, true));
      } else {
        assert low + [] == low;
      }
    }
  }

  lemma {:induction false} BigSumOfPieces(pieces: seq<Piece>, n: nat, total: nat, reader: Option<MemoryReader>)
    requires n <= |pieces|
    ensures HighFirst(ValueBits(pieces, n, total, reader, false)) * Pow2(total - Min(StartBit(pieces, n), total))
         == BigSum(pieces, n, total, reader)
  {
    hide HighFirst, PieceBits, BigPiece, ValueBit, Pow2;
    if n == 0 {
      assert ValueBits(pieces, 0, total, reader, false) == Zeros(0);
      ZerosAreZero(0);
    } else {
      BigSumOfPieces(pieces, n - 1, total, reader);
      PieceAppends(pieces, n - 1, total, reader, false);
      var start, high := StartBit(pieces, n - 1), ValueBits(pieces, n - 1, total, reader, false);
      if start < total {
        var taken := BitsTaken(pieces, n - 1, total);
        PieceNumbers(pieces, n - 1, total, reader);
        HighJoin(high, PieceBits(pieces, n - 1, total, reader, false));
        PowAdds(taken, total - start - taken);
        Raised(HighFirst(high), Pow2(taken), BigPiece(pieces[n - 1], taken, reader), Pow2(total - start - taken));
      } else {
        assert high + [] == high;
      }
    }
  }

  lemma Raised(x: nat, a: nat, y: nat, b: nat)
    ensures (x * a + y) * b == x * (a * b) + y * b
  {
  }

  /** A value with the bits that `ReadComposite` promises is, read in the object's byte order, the
      sum of its pieces shifted to where they start. */
  lemma {:induction false} ValueIsSumOfPieces(pieces: seq<Piece>, value: seq<bv8>, reader: Option<MemoryReader>, little: bool)
    requires forall j: nat :: Bit(value, j, little) <==> ValueBit(pieces, |pieces|, j, 8 * |value|, reader, little)
    ensures if little then LittleNumber(value) == LittleSum(pieces, |pieces|, 8 * |value|, reader)
            else BigNumber(value) == BigSum(pieces, |pieces|, 8 * |value|, reader)
  {
    hide Bit, LowFirst, HighFirst;
    var total := 8 * |value|;
    var bits := ValueBits(pieces, |pieces|, total, reader, little);
    var rest := total - |bits|;
    forall j: nat | |bits| <= j < total
      ensures !ValueBit(pieces, |pieces|, j, total, reader, little)
    {
      BitsStayBelow(pieces, |pieces|, j, total, reader, little);
    }
    hide ValueBit;
    assert BitsOf(value, little) == bits + Zeros(rest);
    ZerosAreZero(rest);
    if little {
      LittleSumOfPieces(pieces, |pieces|, total, reader);
      LowJoin(bits, Zeros(rest));
      LittleBits(value);
    } else {
      BigSumOfPieces(pieces, |pieces|, total, reader);
      HighJoin(bits, Zeros(rest));
      BigBits(value);
    }
  }
}
