/** The two unchecked LEB128 readers of src/dwarf_utils.cpp that the line-number program uses. The
    unsigned one shifts in 32-bit arithmetic. */
module LineReaders {
  import opened Words
  import opened Leb128

  /** Bytes an unchecked reader consumes: one encoding, or everything up to the end. */
  function Consumed(bytes: seq<u8>, off: nat): (n: nat)
    ensures off <= |bytes| ==> off + n <= |bytes|
    ensures off < |bytes| ==> n > 0
  {
    match Length(bytes, off)
    case Some(n) => n
    case None => if off < |bytes| then |bytes| - off else 0
  }

  /** `(byte & 0x7F) << shift` with an int on the left, added to a uint64_t. At shift 28 the
      result is sign-extended; larger shifts, for which C++ defines no result, count as nothing,
      and no property below depends on them. */
  function IntShift(bits: u8, group: nat): int {
    if group <= 3 then Shl7(bits, group)
    else if group > 4 then 0
    else if bits % 0x10 < 8 then 0x1000_0000 * (bits % 0x10)
    else TWO_64 - 0x1000_0000 * (0x10 - bits % 0x10)
  }

  /** What `DwarfUtils::readULEB128` returns. */
  function IntDigits(bytes: seq<u8>, off: nat, n: nat): int
    requires off + n <= |bytes|
    decreases n
  {
    if n == 0 then 0 else IntDigits(bytes, off, n - 1) + IntShift(bytes[off + n - 1] % 0x80, n - 1)
  }

  function LineUnsigned(bytes: seq<u8>, off: nat): Decoded<u64> {
    if off > |bytes| then Decoded(0, off)
    else Decoded(Wrap64(IntDigits(bytes, off, Consumed(bytes, off))), off + Consumed(bytes, off))
  }

  method ReadLineUnsigned(bytes: seq<u8>, start: nat) returns (r: Decoded<u64>)
    ensures r == LineUnsigned(bytes, start)
  {
    hide IntShift;
    if start >= |bytes| {
      NothingConsumed(bytes, start);
      return Decoded(0, start);
    }
    var off, result, group := start, 0, 0;
    while off < |bytes|
      invariant off == start + group <= |bytes|
      invariant Continued(bytes, start, group)
      invariant result == IntDigits(bytes, start, group)
    {
      var byte := bytes[off];
      off := off + 1;
      result := result + IntShift(byte % 0x80, group);
      if byte < 0x80 {
        return Decoded(Wrap64(result), off);
      }
      group := group + 1;
    }
    return Decoded(Wrap64(result), off);
  }

  lemma NothingConsumed(bytes: seq<u8>, off: nat)
    requires off >= |bytes|
    ensures LineUnsigned(bytes, off) == Decoded(0, off)
  {
  }

  lemma {:induction false} ShortIntDigits(bytes: seq<u8>, off: nat, n: nat)
    requires n <= 4 && off + n <= |bytes|
    ensures IntDigits(bytes, off, n) == Digits(bytes, off, n) < 0x1000_0000
    decreases n
  {
    hide Shl7;
    if n > 0 {
      ShortIntDigits(bytes, off, n - 1);
      DigitsSnoc(bytes, off, n - 1);
    }
    DigitsBound(bytes, off, n);
    ShlMonotone(n, 4);
    FourGroups(1);
  }

  lemma FourGroups(x: nat)
    ensures Shl7(x, 4) == 0x1000_0000 * x
  {
    assert Shl7(x, 1) == 0x80 * x;
    assert Shl7(x, 2) == 0x4000 * x;
    assert Shl7(x, 3) == 0x20_0000 * x;
  }

  /** An encoding of n bytes is read as its first n digits. */
  lemma ReadAs(bytes: seq<u8>, off: nat, n: nat)
    requires Length(bytes, off) == Some(n)
    ensures off + n <= |bytes| && LineUnsigned(bytes, off) == Decoded(Wrap64(IntDigits(bytes, off, n)), off + n)
  {
    hide IntDigits, Wrap64, IntShift;
  }

  lemma SmallWraps(x: nat)
    requires x < 0x1000_0000
    ensures Wrap64(x) == Wrap32(x) == x
  {
  }

  lemma FiveDigits(bytes: seq<u8>, off: nat)
    requires off + 5 <= |bytes|
    ensures var low: nat, bits: int := Digits(bytes, off, 4), bytes[off + 4] % 0x80;
            && low < 0x1000_0000 && Digits(bytes, off, 5) == low + 0x1000_0000 * bits
            && IntDigits(bytes, off, 5) == low + IntShift(bits, 4)
  {
    hide Shl7, Digits, IntShift;
    ShortIntDigits(bytes, off, 4);
    DigitsSnoc(bytes, off, 4);
    FourGroups(bytes[off + 4] % 0x80);
  }

  /** For encodings of up to five bytes: the reader is exact if and only if the value is below
      2^31; and its low 32 bits are right for every value below 2^32. */
  lemma LineUnsignedExact(bytes: seq<u8>, off: nat, n: nat)
    requires Length(bytes, off) == Some(n) && n <= 5
    ensures LineUnsigned(bytes, off).next == off + n
    ensures LineUnsigned(bytes, off).value == Digits(bytes, off, n) <==> Digits(bytes, off, n) < 0x8000_0000
    ensures Digits(bytes, off, n) < TWO_32 ==> Wrap32(LineUnsigned(bytes, off).value) == Digits(bytes, off, n)
  {
    hide Digits, IntDigits, IntShift, LineUnsigned, Wrap64, Wrap32, Length;
    ReadAs(bytes, off, n);
    if n <= 4 {
      ShortIntDigits(bytes, off, n);
      SmallWraps(Digits(bytes, off, n));
    } else {
      FiveDigits(bytes, off);
      FifthByte(Digits(bytes, off, 4), bytes[off + 4] % 0x80);
    }
  }

  lemma FifthByte(low: nat, bits: u8)
    requires low < 0x1000_0000 && bits < 0x80
    ensures var exact, read := low + 0x1000_0000 * bits, Wrap64(low + IntShift(bits, 4));
            && (read == exact <==> exact < 0x8000_0000)
            && (exact < TWO_32 ==> Wrap32(read) == exact)
  {
    if bits < 0x10 && bits >= 8 {
      var t: int := low + 0x1000_0000 * bits;
      assert low + IntShift(bits, 4) == t + (TWO_64 - TWO_32);
      assert (t + (TWO_64 - TWO_32)) % 0x1_0000_0000 == t;
    }
  }

  /** What `DwarfUtils::readSLEB128` returns; digits behind the tenth byte, for which C++ defines
      no shift, count as nothing. */
  function LineSigned(bytes: seq<u8>, off: nat): Decoded<int> {
    var n := Consumed(bytes, off);
    if off > |bytes| || n == 0 then Decoded(0, off)
    else if n <= 9 then Decoded(SignedDigits(bytes, off, n), off + n)
    else Decoded(Digits(bytes, off, 9) + ShiftedIn(bytes[off + 9] % 0x80, 9), off + n)
  }

  method ReadLineSigned(bytes: seq<u8>, start: nat) returns (r: Decoded<int>)
    ensures r == LineSigned(bytes, start)
  {
    hide ShiftedIn, Digits, SignedDigits, Shl7;
    if start >= |bytes| {
      return Decoded(0, start);
    }
    var off, result, group := start, 0, 0;
    DigitsNone(bytes, start);
    while true
      invariant off == start + group < |bytes|
      invariant Continued(bytes, start, group)
      invariant result == if group <= 9 then Digits(bytes, start, group)
                          else Digits(bytes, start, 9) + ShiftedIn(bytes[start + 9] % 0x80, 9)
      decreases |bytes| - off
    {
      var bits := bytes[off] % 0x80;
      if group < 9 {
        CompletedShort(bytes, start, group);
      }
      result := if group <= 9 then result + ShiftedIn(bits, group) else result;
      off := off + 1;
      group := group + 1;
      if bytes[off - 1] < 0x80 || off == |bytes| {
        assert Consumed(bytes, start) == group by { LengthHere(bytes, off); }
        return Decoded(SignExtended(result, bits, group), off);
      }
    }
  }

  lemma LengthHere(bytes: seq<u8>, off: nat)
    requires 0 < off <= |bytes|
    ensures off == |bytes| ==> Length(bytes, off) == None
    ensures Length(bytes, off - 1) == if bytes[off - 1] < 0x80 then Some(1)
                                      else match Length(bytes, off) case None => None case Some(n) => Some(n + 1)
  {
  }

  /** An encoded line delta reads back exactly. */
  lemma {:induction false} LineSignedRoundTrip(bytes: seq<u8>, off: nat, v: int)
    requires HasAt(bytes, off, EncodeSigned(v)) && -TWO_32 < v < TWO_32
    ensures LineSigned(bytes, off) == Decoded(v, off + |EncodeSigned(v)|)
  {
    ShlWords(1);
    EncodedSignedDigits(bytes, off, v);
    EncodedSignedSize(v, 8);
  }

  /** So does an encoded unsigned operand below 2^31; below 2^32 its low 32 bits do. */
  lemma {:induction false} LineUnsignedRoundTrip(bytes: seq<u8>, off: nat, v: u32)
    requires HasAt(bytes, off, EncodeUnsigned(v))
    ensures LineUnsigned(bytes, off).next == off + |EncodeUnsigned(v)|
    ensures Wrap32(LineUnsigned(bytes, off).value) == v
    ensures v < 0x8000_0000 ==> LineUnsigned(bytes, off).value == v
  {
    EncodedUnsignedDigits(bytes, off, v);
    FourGroups(0x80);
    assert Shl7(0x80, 4) == Shl7(1, 5) by { FiveGroups(); }
    EncodedUnsignedSize(v, 5);
    LineUnsignedExact(bytes, off, |EncodeUnsigned(v)|);
  }

  /** What the reader makes of a number of up to 35 bits, that is, of up to five groups: its low 32
      bits, sign-extended. */
  function ReadBack(v: nat): u64 {
    var low := v % 0x1_0000_0000;
    if low < 0x8000_0000 then low else low + (TWO_64 - TWO_32)
  }

  lemma FifthByteRead(low: nat, bits: u8)
    requires low < 0x1000_0000 && bits < 0x80
    ensures Wrap64(low + IntShift(bits, 4)) == ReadBack(low + 0x1000_0000 * bits)
  {
    var t, u := bits % 0x10, bits / 0x10;
    var x: int := low + 0x1000_0000 * t;
    assert low + 0x1000_0000 * bits == x + 0x1_0000_0000 * u && x < 0x1_0000_0000;
    assert (x + 0x1_0000_0000 * u) % 0x1_0000_0000 == x;
  }

  lemma SmallReadBack(v: nat)
    requires v < 0x8000_0000
    ensures ReadBack(v) == v
  {
  }

  lemma LineUnsignedReadBack(bytes: seq<u8>, off: nat, v: nat)
    requires v < 0x8_0000_0000 && HasAt(bytes, off, EncodeUnsigned(v))
    ensures LineUnsigned(bytes, off) == Decoded(ReadBack(v), off + |EncodeUnsigned(v)|)
  {
    hide Digits, IntDigits, IntShift, LineUnsigned, Wrap64, Wrap32, Length, EncodeUnsigned, Shl7, HasAt, ReadBack;
    var n := |EncodeUnsigned(v)|;
    FiveGroups();
    EncodedUnsignedDigits(bytes, off, v);
    EncodedUnsignedSize(v, 5);
    ReadAs(bytes, off, n);
    if n <= 4 {
      ShortIntDigits(bytes, off, n);
      SmallWraps(v);
      SmallReadBack(v);
    } else {
      FiveDigits(bytes, off);
      FifthByteRead(Digits(bytes, off, 4), bytes[off + 4] % 0x80);
    }
  }

  lemma FiveGroups()
    ensures Shl7(1, 5) == 0x8_0000_0000 && Shl7(0x80, 4) == 0x8_0000_0000
  {
    FourGroups(1);
    FourGroups(0x80);
  }
}
