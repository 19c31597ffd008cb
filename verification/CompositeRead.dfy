/** Assembling a value from the pieces of a composite location: the COMPOSITE case of `readValue`
    in src/variable_location.cpp. */
module CompositeRead {
  import opened Words

  datatype PieceKind = MemoryPiece | ImplicitPiece | OtherPiece

  datatype Piece = Piece(kind: PieceKind, location: u64, sizeBits: u64, offsetBits: u64, value: seq<bv8>)

  /** Address and length to bytes, or a failure. */
  type MemoryReader = (u64, nat) -> Option<seq<bv8>>

  // -------------------------------------------------------------------- bits

  /** The bit of weight 2^p. */
  function Mask(p: nat): bv8 {
    match p
    case 0 => 1
    case 1 => 2
    case 2 => 4
    case 3 => 8
    case 4 => 16
    case 5 => 32
    case 6 => 64
    case _ => 128
  }

  /** Bit 0 of a byte is its lowest bit in a little-endian object and its highest in a big-endian
      one. */
  function Place(index: nat, little: bool): (p: nat)
    ensures p < 8
  {
    if little then index % 8 else 7 - index % 8
  }

  /** `getBit`: bits outside the buffer are zero. */
  predicate Bit(bytes: seq<bv8>, index: nat, little: bool) {
    index / 8 < |bytes| && bytes[index / 8] & Mask(Place(index, little)) != 0
  }

  function WithBit(b: bv8, mask: bv8, v: bool): bv8 {
    if v then (b & !mask) | mask else b & !mask
  }

  lemma OtherBitsStay(b: bv8, p: nat, q: nat, v: bool)
    requires p < 8 && q < 8
    ensures WithBit(b, Mask(p), v) & Mask(q) != 0 <==> if p == q then v else b & Mask(q) != 0
  {
  }

  lemma SamePlace(i: nat, j: nat, little: bool)
    requires i / 8 == j / 8
    ensures Place(i, little) == Place(j, little) <==> i == j
  {
  }

  lemma ByteUpdated(bytes: seq<bv8>, index: nat, v: bool, little: bool, j: nat)
    requires index / 8 < |bytes|
    ensures Bit(bytes[index / 8 := WithBit(bytes[index / 8], Mask(Place(index, little)), v)], j, little)
       <==> if j == index then v else Bit(bytes, j, little)
  {
    hide Mask, WithBit, Place;
    if j / 8 == index / 8 {
      OtherBitsStay(bytes[index / 8], Place(index, little), Place(j, little), v);
      SamePlace(index, j, little);
    }
  }

  /** `setBit` */
  method SetBit(buffer: array<bv8>, index: nat, v: bool, little: bool)
    modifies buffer
    ensures forall j: nat :: Bit(buffer[..], j, little) <==>
              if j == index && index / 8 < buffer.Length then v else Bit(old(buffer[..]), j, little)
  {
    hide Mask, WithBit, Place, Bit;
    if index / 8 >= buffer.Length {
      return;
    }
    ghost var before := buffer[..];
    buffer[index / 8] := WithBit(buffer[index / 8], Mask(Place(index, little)), v);
    assert buffer[..] == before[index / 8 := WithBit(before[index / 8], Mask(Place(index, little)), v)];
    forall j: nat
      ensures Bit(buffer[..], j, little) <==> if j == index then v else Bit(before, j, little)
    {
      ByteUpdated(before, index, v, little, j);
    }
  }

  // ----------------------------------------------------------- specification

  /** Where piece k starts in the value: the sizes of the pieces before it. */
  function StartBit(pieces: seq<Piece>, k: nat): nat
    requires k <= |pieces|
    decreases k
  {
    if k == 0 then 0 else StartBit(pieces, k - 1) + pieces[k - 1].sizeBits
  }

  /** Bits of piece k that still fit into a value of `total` bits. */
  function BitsTaken(pieces: seq<Piece>, k: nat, total: nat): int
    requires k < |pieces|
  {
    Min(pieces[k].sizeBits, total - StartBit(pieces, k))
  }

  /** The bytes a piece can deliver; None for registers, for optimized-out pieces, and when memory
      cannot be read. A short answer of the memory reader leaves the zeros of the buffer. */
  function Source(piece: Piece, bits: nat, reader: Option<MemoryReader>): Option<seq<bv8>> {
    match piece.kind
    case OtherPiece => None
    case ImplicitPiece => Some(piece.value)
    case MemoryPiece =>
      if reader == None then None
      else
        var n := (piece.offsetBits + bits + 7) / 8;
        match reader.value(piece.location, n)
        case None => None
        case Some(bytes) => Some(seq(n, i requires 0 <= i < n => if i < |bytes| then bytes[i] else 0))
  }

  /** Bit `i` of a piece. */
  predicate SourceBit(piece: Piece, bits: nat, i: nat, reader: Option<MemoryReader>, little: bool) {
    match Source(piece, bits, reader)
    case None => false
    case Some(bytes) => Bit(bytes, piece.offsetBits + i, little)
  }

  /** A reader that delivers the bytes of a memory. */
  function ReaderOf(memory: nat -> bv8): MemoryReader {
    (address: u64, n: nat) => Some(seq(n, k requires 0 <= k < n => memory(address + k)))
  }

  /** The bits of a piece: those of the memory at its location or of its value, from its bit offset
      on, as many as are taken; a piece of another kind has none. */
  lemma PieceDelivers(piece: Piece, bits: nat, i: nat, memory: nat -> bv8, little: bool)
    requires i < bits
    ensures var at := piece.offsetBits + i;
            SourceBit(piece, bits, i, Some(ReaderOf(memory)), little)
            <==> match piece.kind
                 case MemoryPiece => memory(piece.location + at / 8) & Mask(Place(at, little)) != 0
                 case ImplicitPiece => at / 8 < |piece.value| && piece.value[at / 8] & Mask(Place(at, little)) != 0
                 case OtherPiece => false
    ensures piece.kind == MemoryPiece ==> !SourceBit(piece, bits, i, None, little)
  {
    hide Mask, Place;
    if piece.kind == MemoryPiece {
      var n := (piece.offsetBits + bits + 7) / 8;
      assert (piece.offsetBits + i) / 8 < n;
    }
  }

  predicate Covers(pieces: seq<Piece>, k: nat, j: nat) {
    k < |pieces| && StartBit(pieces, k) <= j < StartBit(pieces, k + 1)
  }

  /** Bit j of the value, as far as the first `n` pieces provide it: the bit of the piece that
      covers j. */
  ghost predicate ValueBit(
      pieces: seq<Piece>, n: nat, j: nat, total: nat, reader: Option<MemoryReader>, little: bool)
  {
    exists k: nat :: k < n && Covers(pieces, k, j) && j < total
                     && SourceBit(pieces[k], BitsTaken(pieces, k, total), j - StartBit(pieces, k), reader, little)
  }

  lemma {:induction false} StartBitMonotone(pieces: seq<Piece>, k: nat, l: nat)
    requires k <= l <= |pieces|
    ensures StartBit(pieces, k) <= StartBit(pieces, l)
    decreases l
  {
    if k < l {
      StartBitMonotone(pieces, k, l - 1);
    }
  }

  /** At most one piece covers a bit. */
  lemma {:induction false} CoveredOnce(pieces: seq<Piece>, k: nat, l: nat, j: nat)
    requires Covers(pieces, k, j) && Covers(pieces, l, j)
    ensures k == l
  {
    if k < l {
      StartBitMonotone(pieces, k + 1, l);
    } else if l < k {
      StartBitMonotone(pieces, l + 1, k);
    }
  }

  /** The sums of the bit cursor stay in 64 bits for every piece the loop looks at. */
  predicate SizesFit(pieces: seq<Piece>, total: nat) {
    total < TWO_64
    && forall k | 0 <= k < |pieces| && StartBit(pieces, k) < total ::
         && StartBit(pieces, k) + pieces[k].sizeBits < TWO_64
         && pieces[k].offsetBits + BitsTaken(pieces, k, total) + 7 < TWO_64
  }

  // ---------------------------------------------------------- implementation

  /** Copies the bits of one piece to the cursor. */
  method CopyBits(
      buffer: array<bv8>, cursor: nat, bits: nat, src: seq<bv8>, base: nat, little: bool)
    modifies buffer
    requires cursor + bits <= 8 * buffer.Length
    ensures forall j: nat :: Bit(buffer[..], j, little) <==>
              if cursor <= j < cursor + bits then Bit(src, base + (j - cursor), little)
              else Bit(old(buffer[..]), j, little)
  {
    hide Bit;
    for i := 0 to bits
      invariant forall j: nat :: Bit(buffer[..], j, little) <==>
                  if cursor <= j < cursor + i then Bit(src, base + (j - cursor), little)
                  else Bit(old(buffer[..]), j, little)
    {
      SetBit(buffer, cursor + i, Bit(src, base + i, little), little);
    }
  }

  /** Bit j of a buffer after the piece at the cursor is added. */
  predicate AfterPiece(before: seq<bv8>, piece: Piece, cursor: nat, bits: nat,
                       reader: Option<MemoryReader>, little: bool, j: nat)
  {
    match Source(piece, bits, reader)
    case None => Bit(before, j, little)
    case Some(bytes) =>
      if cursor <= j < cursor + bits then Bit(bytes, piece.offsetBits + (j - cursor), little)
      else Bit(before, j, little)
  }

  /** One round of the loop: the bits by which the cursor moves. */
  method AddPiece(result: array<bv8>, piece: Piece, cursor: nat, reader: Option<MemoryReader>, little: bool)
    returns (bits: nat)
    requires cursor < 8 * result.Length
    modifies result
    ensures bits == Min(piece.sizeBits, 8 * result.Length - cursor)
    ensures forall j: nat :: Bit(result[..], j, little)
                        <==> AfterPiece(old(result[..]), piece, cursor, bits, reader, little, j)
  {
    hide Bit, Source;
    bits := piece.sizeBits;
    if bits == 0 {
      return;
    }
    if cursor + bits > 8 * result.Length {
      bits := 8 * result.Length - cursor;
    }
    var src := Source(piece, bits, reader);
    if src.Some? {
      CopyBits(result, cursor, bits, src.value, piece.offsetBits, little);
    }
  }

  lemma {:induction false} PieceAdds(
      pieces: seq<Piece>, n: nat, before: seq<bv8>, cursor: nat, bits: nat, total: nat,
      reader: Option<MemoryReader>, little: bool, j: nat)
    requires n < |pieces| && cursor == StartBit(pieces, n) < total && bits == BitsTaken(pieces, n, total)
    requires Bit(before, j, little) <==> ValueBit(pieces, n, j, total, reader, little)
    ensures AfterPiece(before, pieces[n], cursor, bits, reader, little, j)
       <==> ValueBit(pieces, n + 1, j, total, reader, little)
  {
    hide Bit, Source, ValueBit;
    NextPiece(pieces, n, j, total, reader, little);
    BitsStayBelow(pieces, n, j, total, reader, little);
  }

  /** The composite case. Bit j of the result is bit offset_bits + (j - start) of the one piece that
      covers j, and zero where that piece is unavailable or no piece covers j; in both bit
      orders, for every list of pieces. */
  method ReadComposite(pieces: seq<Piece>, size: nat, reader: Option<MemoryReader>, little: bool) returns (value: seq<bv8>)
    requires SizesFit(pieces, 8 * size)
    ensures |value| == size
    ensures forall j: nat :: Bit(value, j, little) <==> ValueBit(pieces, |pieces|, j, 8 * size, reader, little)
  {
    hide Bit, ValueBit, AfterPiece;
    var total := 8 * size;
    var result := new bv8[size](_ => 0);
    var cursor := 0;
    NoBits(result[..], pieces, total, reader, little);
    var n := 0;
    while n < |pieces|
      invariant n <= |pieces| && result.Length == size && cursor == Min(StartBit(pieces, n), total)
      invariant forall j: nat :: Bit(result[..], j, little) <==> ValueBit(pieces, n, j, total, reader, little)
    {
      if cursor >= total {
        break;
      }
      ghost var before := result[..];
      var bits := AddPiece(result, pieces[n], cursor, reader, little);
      forall j: nat
        ensures Bit(result[..], j, little) <==> ValueBit(pieces, n + 1, j, total, reader, little)
      {
        PieceAdds(pieces, n, before, cursor, bits, total, reader, little, j);
      }
      cursor := cursor + bits;
      n := n + 1;
    }
    forall j: nat
      ensures ValueBit(pieces, n, j, total, reader, little) <==> ValueBit(pieces, |pieces|, j, total, reader, little)
    {
      RestAddsNothing(pieces, n, j, total, reader, little);
    }
    return result[..];
  }

  lemma NoBits(bytes: seq<bv8>, pieces: seq<Piece>, total: nat, reader: Option<MemoryReader>, little: bool)
    requires forall i | 0 <= i < |bytes| :: bytes[i] == 0
    ensures forall j: nat :: !Bit(bytes, j, little) && !ValueBit(pieces, 0, j, total, reader, little)
  {
  }

  lemma {:induction false} NextPiece(
      pieces: seq<Piece>, n: nat, j: nat, total: nat, reader: Option<MemoryReader>, little: bool)
    requires n < |pieces|
    ensures ValueBit(pieces, n + 1, j, total, reader, little)
       <==> if Covers(pieces, n, j) && j < total
            then SourceBit(pieces[n], BitsTaken(pieces, n, total), j - StartBit(pieces, n), reader, little)
            else ValueBit(pieces, n, j, total, reader, little)
  {
    hide SourceBit;
    forall k: nat | Covers(pieces, n, j) && Covers(pieces, k, j)
      ensures k == n
    {
      CoveredOnce(pieces, k, n, j);
    }
  }

  /** Earlier pieces say nothing about bits at or behind their end. */
  lemma {:induction false} BitsStayBelow(
      pieces: seq<Piece>, n: nat, j: nat, total: nat, reader: Option<MemoryReader>, little: bool)
    requires n <= |pieces|
    ensures j >= StartBit(pieces, n) || j >= total ==> !ValueBit(pieces, n, j, total, reader, little)
  {
    hide SourceBit;
    forall k: nat | k < n && Covers(pieces, k, j)
      ensures j < StartBit(pieces, n)
    {
      StartBitMonotone(pieces, k + 1, n);
    }
  }

  lemma {:induction false} RestAddsNothing(
      pieces: seq<Piece>, n: nat, j: nat, total: nat, reader: Option<MemoryReader>, little: bool)
    requires n <= |pieces| && (n < |pieces| ==> StartBit(pieces, n) >= total)
    ensures ValueBit(pieces, n, j, total, reader, little) <==> ValueBit(pieces, |pieces|, j, total, reader, little)
  {
    hide SourceBit;
    forall k: nat | n <= k < |pieces|
      ensures StartBit(pieces, k) >= total
    {
      StartBitMonotone(pieces, n, k);
    }
  }
}
