/** The second decoder of the same bytecode, `collectRelativeCutPoints` of src/cfi_symbolic.cpp,
    and its simulation of the interpreter. */
module CutPoints {
  import opened Words
  import opened Leb128
  import opened ByteOrder
  import opened OffsetRuns
  import opened CfiModel
  import opened CfiInterpreter

  /** The layout the collector assumes. It differs from the interpreter's in two opcodes: the
      second operand of 0x2f is read as signed, and the length of the 0x0f escape of old CIEs
      as a LEB128 number instead of a byte. */
  function CollectorLayout(opcode: u8, cie: Cie): Option<Layout> {
    if opcode == 0x2f then Some(UnsignedSigned)
    else if opcode == 0x0f then Some(Block)
    else LayoutOf(opcode, cie)
  }

  /** The collector's cursor: where it is in the stream and in the program. */
  datatype Cursor = Cursor(offset: nat, location: u64)

  /** `skipBlock` behind a length: the end of the block is computed in 64 bits. */
  ghost function SkipBlock(bytes: seq<u8>, off: nat): Option<nat> {
    match Unsigned(bytes, off)
    case None => None
    case Some(len) =>
      var end := Wrap64(len.next + len.value);
      if end <= |bytes| then Some(end) else None
  }

  /** Skips operands and yields the first fixed-width one (0 if there is none), always
      little-endian. */
  ghost function CollectorOperands(layout: Layout, bytes: seq<u8>, off: nat): Option<Decoded<u64>> {
    match layout
    case NoOperand => Some(Decoded(0, off))
    case FixedOperand(width) =>
      if off + width <= |bytes| then Some(Decoded(Wrap64(BytesLE(bytes, off, width)), off + width)) else None
    case OneUnsigned =>
      (match Unsigned(bytes, off)
       case None => None
       case Some(a) => Some(Decoded(0, a.next)))
    case TwoUnsigned =>
      (match Unsigned(bytes, off)
       case None => None
       case Some(a) =>
         match Unsigned(bytes, a.next)
         case None => None
         case Some(b) => Some(Decoded(0, b.next)))
    case UnsignedSigned =>
      (match Unsigned(bytes, off)
       case None => None
       case Some(a) =>
         match SignedWrapping(bytes, a.next)
         case None => None
         case Some(b) => Some(Decoded(0, b.next)))
    case OneSigned =>
      (match SignedWrapping(bytes, off)
       case None => None
       case Some(a) => Some(Decoded(0, a.next)))
    case Block =>
      (match SkipBlock(bytes, off)
       case None => None
       case Some(end) => Some(Decoded(0, end)))
    case UnsignedBlock =>
      (match Unsigned(bytes, off)
       case None => None
       case Some(a) =>
         match SkipBlock(bytes, a.next)
         case None => None
         case Some(end) => Some(Decoded(0, end)))
    case ByteCountedBytes => None
  }

  predicate MovesLocation(opcode: u8) {
    IsAdvanceLoc(opcode) || opcode in {0x01, 0x02, 0x03, 0x04, 0x1d}
  }

  function Moved(opcode: u8, operand: u64, cie: Cie, location: u64): u64 {
    if IsAdvanceLoc(opcode) then Wrap64(location + (opcode % 0x40) * cie.codeAlignmentFactor)
    else if opcode == 0x01 then operand
    else if MovesLocation(opcode) then Wrap64(location + operand * cie.codeAlignmentFactor)
    else location
  }

  /** One round of the collector's loop; anything it cannot read ends the stream. */
  ghost function CollectorStep(cie: Cie, ins: seq<u8>, c: Cursor): (r: Cursor)
    requires c.offset < |ins|
  {
    var opcode := ins[c.offset];
    match CollectorLayout(opcode, cie)
    case None => Cursor(|ins|, c.location)
    case Some(layout) =>
      match CollectorOperands(layout, ins, c.offset + 1)
      case None => Cursor(|ins|, c.location)
      case Some(o) => Cursor(o.next, Moved(opcode, o.value, cie, c.location))
  }

  /** The collector after k rounds; a finished one stays where it is. */
  ghost function CollectorAfter(cie: Cie, ins: seq<u8>, c: Cursor, k: nat): Cursor
    decreases k
  {
    if k == 0 || c.offset >= |ins| then c else CollectorAfter(cie, ins, CollectorStep(cie, ins, c), k - 1)
  }

  /** The collector's loop ends. */
  ghost predicate Terminates(cie: Cie, ins: seq<u8>, c: Cursor) {
    exists k :: CollectorAfter(cie, ins, c, k).offset >= |ins|
  }

  /** The locations the collector goes through in its next k rounds. */
  ghost function Locations(cie: Cie, ins: seq<u8>, c: Cursor, k: nat): seq<u64>
    decreases k
  {
    if k == 0 || c.offset >= |ins| then []
    else
      var next := CollectorStep(cie, ins, c);
      [next.location] + Locations(cie, ins, next, k - 1)
  }

  function Absolute(fde: Fde, d: u64): int {
    fde.initialLocation + d
  }

  ghost function RelativePoints(fde: Fde, locations: seq<u64>): set<u64> {
    set d: u64 | 0 <= d < fde.addressRange && Absolute(fde, d) in locations
  }

  function StartOf(fde: Fde): Cursor {
    Cursor(0, fde.initialLocation)
  }

  /** `collectRelativeCutPoints` returns. */
  ghost predicate Collectable(fde: Fde) {
    fde.cie.Some? ==> Terminates(fde.cie.value, fde.instructions, StartOf(fde))
  }

  /** The relative program counters `collectRelativeCutPoints` returns, if it does. Whenever its
      loop ends it takes no more rounds than there are instruction bytes. */
  ghost function CutPointsOf(fde: Fde): set<u64> {
    match fde.cie
    case None => {0}
    case Some(cie) =>
      {0} + RelativePoints(fde, Locations(cie, fde.instructions, StartOf(fde), |fde.instructions|))
      + (if fde.addressRange != 0 then {fde.addressRange - 1} else {})
  }

  // -------------------------------------------------------------- termination

  /** The collector's next offset; where it is in the program has no influence on it. */
  ghost function NextOffset(cie: Cie, ins: seq<u8>): nat -> nat {
    (off: nat) => if off < |ins| then CollectorStep(cie, ins, Cursor(off, 0)).offset else off
  }

  lemma {:induction false} OffsetsAlone(cie: Cie, ins: seq<u8>, c: Cursor, k: nat)
    ensures CollectorAfter(cie, ins, c, k).offset == OffsetAfter(NextOffset(cie, ins), |ins|, c.offset, k)
    decreases k
  {
    hide CollectorOperands, CollectorLayout;
    if k > 0 && c.offset < |ins| {
      OffsetsAlone(cie, ins, CollectorStep(cie, ins, c), k - 1);
    }
  }

  /** No offset inside the stream is visited in two different rounds. */
  ghost predicate NoOffsetTwiceIn(cie: Cie, ins: seq<u8>, c: Cursor) {
    forall i: nat, j: nat | i < j && CollectorAfter(cie, ins, c, j).offset < |ins| ::
      CollectorAfter(cie, ins, c, i).offset != CollectorAfter(cie, ins, c, j).offset
  }

  /** The loop ends exactly when no offset is visited twice, which shows within as many rounds as
      there are instruction bytes. */
  lemma TerminatesExactly(cie: Cie, ins: seq<u8>, c: Cursor)
    ensures Terminates(cie, ins, c) <==> NoOffsetTwiceIn(cie, ins, c)
    ensures Terminates(cie, ins, c) <==> CollectorAfter(cie, ins, c, |ins|).offset >= |ins|
  {
    hide CollectorAfter, OffsetAfter;
    var next := NextOffset(cie, ins);
    forall k: nat
      ensures CollectorAfter(cie, ins, c, k).offset == OffsetAfter(next, |ins|, c.offset, k)
    {
      OffsetsAlone(cie, ins, c, k);
    }
    EndsExactly(next, |ins|, c.offset);
    if Terminates(cie, ins, c) {
      var k :| CollectorAfter(cie, ins, c, k).offset >= |ins|;
      assert OffsetAfter(next, |ins|, c.offset, k) >= |ins|;
    }
    if Ends(next, |ins|, c.offset) {
      var k :| OffsetAfter(next, |ins|, c.offset, k) >= |ins|;
      assert CollectorAfter(cie, ins, c, k).offset >= |ins|;
    }
  }

  /** The instruction at `off` has a block whose end, computed in 64 bits, is not behind `off`. */
  ghost predicate WrapsBack(cie: Cie, ins: seq<u8>, off: nat)
    requires off < |ins|
  {
    match CollectorLayout(ins[off], cie)
    case Some(Block) => BlockWrapsBack(ins, off + 1, off)
    case Some(UnsignedBlock) => Unsigned(ins, off + 1).Some? && BlockWrapsBack(ins, Unsigned(ins, off + 1).value.next, off)
    case _ => false
  }

  ghost predicate BlockWrapsBack(ins: seq<u8>, at: nat, off: nat) {
    match Unsigned(ins, at)
    case None => false
    case Some(len) => Wrap64(len.next + len.value) <= off
  }

  lemma SkippedBlock(ins: seq<u8>, at: nat, off: nat)
    requires off < |ins|
    ensures BlockWrapsBack(ins, at, off) <==> SkipBlock(ins, at).Some? && SkipBlock(ins, at).value <= off
  {
    hide Unsigned, Wrap64;
  }

  lemma PlainOperandsAdvance(layout: Layout, ins: seq<u8>, off: nat)
    requires !layout.Block? && !layout.UnsignedBlock?
    ensures CollectorOperands(layout, ins, off).Some? ==> CollectorOperands(layout, ins, off).value.next >= off
  {
    hide Unsigned, SignedWrapping, SkipBlock, Wrap64;
    ReadExtent(ins, off);
    WrappingExtent(ins, off);
    if Unsigned(ins, off).Some? {
      ReadExtent(ins, Unsigned(ins, off).value.next);
      WrappingExtent(ins, Unsigned(ins, off).value.next);
    }
  }

  /** The guard: one round moves forward exactly when no block end wraps back. */
  lemma AdvancesExactly(cie: Cie, ins: seq<u8>, c: Cursor)
    requires c.offset < |ins|
    ensures c.offset < CollectorStep(cie, ins, c).offset <==> !WrapsBack(cie, ins, c.offset)
  {
    hide Unsigned, SignedWrapping, Wrap64, SkipBlock, BlockWrapsBack, CollectorLayout, Moved;
    match CollectorLayout(ins[c.offset], cie)
    case None =>
    case Some(Block) => SkippedBlock(ins, c.offset + 1, c.offset);
    case Some(UnsignedBlock) =>
      if Unsigned(ins, c.offset + 1).Some? {
        SkippedBlock(ins, Unsigned(ins, c.offset + 1).value.next, c.offset);
      }
    case Some(layout) => PlainOperandsAdvance(layout, ins, c.offset + 1);
  }

  lemma WrappingExtent(ins: seq<u8>, off: nat)
    ensures SignedWrapping(ins, off).Some? ==> SignedWrapping(ins, off).value.next > off
  {
  }

  /** So a collector that meets no block end that wraps back ends. */
  lemma NoWrapTerminates(cie: Cie, ins: seq<u8>, c: Cursor)
    requires forall k: nat | CollectorAfter(cie, ins, c, k).offset < |ins| ::
               !WrapsBack(cie, ins, CollectorAfter(cie, ins, c, k).offset)
    ensures Terminates(cie, ins, c)
  {
    hide CollectorAfter, OffsetAfter, CollectorStep, WrapsBack;
    var next := NextOffset(cie, ins);
    forall k: nat | OffsetAfter(next, |ins|, c.offset, k) < |ins|
      ensures OffsetAfter(next, |ins|, c.offset, k) < next(OffsetAfter(next, |ins|, c.offset, k))
    {
      OffsetsAlone(cie, ins, c, k);
      AdvancesExactly(cie, ins, Cursor(OffsetAfter(next, |ins|, c.offset, k), 0));
    }
    AdvancingEnds(next, |ins|, c.offset);
    EndsExactly(next, |ins|, c.offset);
    OffsetsAlone(cie, ins, c, |ins|);
  }

  // ---------------------------------------------------------- implementation

  method SkipBlockAt(bytes: seq<u8>, off: nat) returns (r: Option<nat>)
    ensures r == SkipBlock(bytes, off)
  {
    var len := ReadUnsigned(bytes, off);
    if len == None {
      return None;
    }
    var end := Wrap64(len.value.next + len.value.value);
    return if end <= |bytes| then Some(end) else None;
  }

  method ReadCollectorOperands(layout: Layout, bytes: seq<u8>, off: nat) returns (r: Option<Decoded<u64>>)
    ensures r == CollectorOperands(layout, bytes, off)
  {
    hide Unsigned, SignedWrapping, SkipBlock;
    var end: Option<nat> := None;
    match layout
    case NoOperand =>
      return Some(Decoded(0, off));
    case FixedOperand(width) =>
      if off + width > |bytes| {
        return None;
      }
      return Some(Decoded(Wrap64(BytesLE(bytes, off, width)), off + width));
    case ByteCountedBytes =>
      return None;
    case OneUnsigned =>
      var a := ReadUnsigned(bytes, off);
      return if a == None then None else Some(Decoded(0, a.value.next));
    case OneSigned =>
      var a := ReadSignedWrapping(bytes, off);
      return if a == None then None else Some(Decoded(0, a.value.next));
    case Block =>
      end := SkipBlockAt(bytes, off);
      return if end == None then None else Some(Decoded(0, end.value));
    case TwoUnsigned =>
      var a := ReadUnsigned(bytes, off);
      if a == None {
        return None;
      }
      var b := ReadUnsigned(bytes, a.value.next);
      return if b == None then None else Some(Decoded(0, b.value.next));
    case UnsignedSigned =>
      var a := ReadUnsigned(bytes, off);
      if a == None {
        return None;
      }
      var b := ReadSignedWrapping(bytes, a.value.next);
      return if b == None then None else Some(Decoded(0, b.value.next));
    case UnsignedBlock =>
      var a := ReadUnsigned(bytes, off);
      if a == None {
        return None;
      }
      end := SkipBlockAt(bytes, a.value.next);
      return if end == None then None else Some(Decoded(0, end.value));
  }

  /** One round of the loop; `moved` tells whether `add_loc` is called. */
  method CollectorRound(cie: Cie, ins: seq<u8>, off: nat, loc: u64) returns (off': nat, loc': u64, moved: bool)
    requires off < |ins|
    ensures Cursor(off', loc') == CollectorStep(cie, ins, Cursor(off, loc))
    ensures !moved ==> loc' == loc
  {
    hide CollectorOperands, CollectorLayout;
    var opcode := ins[off];
    var layout := CollectorLayout(opcode, cie);
    if layout == None {
      return |ins|, loc, false;
    }
    var operands := ReadCollectorOperands(layout.value, ins, off + 1);
    if operands == None {
      return |ins|, loc, false;
    }
    return operands.value.next, Moved(opcode, operands.value.value, cie, loc), MovesLocation(opcode);
  }

  method CollectRelativeCutPoints(fde: Fde) returns (rel: set<u64>)
    requires Collectable(fde)
    ensures rel == CutPointsOf(fde)
  {
    hide CollectorStep, Terminates;
    rel := {0};
    if fde.cie == None {
      return;
    }
    var cie, ins := fde.cie.value, fde.instructions;
    var off: nat := 0;
    var loc: u64 := fde.initialLocation;
    TerminatesExactly(cie, ins, StartOf(fde));
    ghost var rounds: nat := |ins|;
    while off < |ins|
      invariant CollectorAfter(cie, ins, Cursor(off, loc), rounds).offset >= |ins|
      invariant RelativePoints(fde, [loc]) <= rel
      invariant rel + RelativePoints(fde, Locations(cie, ins, Cursor(off, loc), rounds))
             == {0} + RelativePoints(fde, Locations(cie, ins, StartOf(fde), |ins|))
      decreases rounds
    {
      ghost var next := CollectorStep(cie, ins, Cursor(off, loc));
      rounds := rounds - 1;
      RelativePointsSplit(fde, next.location, Locations(cie, ins, next, rounds));
      RelativePointOf(fde, next.location);
      var moved;
      off, loc, moved := CollectorRound(cie, ins, off, loc);
      if moved && loc >= fde.initialLocation && loc - fde.initialLocation < fde.addressRange {
        rel := rel + {loc - fde.initialLocation};
      }
    }
    if fde.addressRange != 0 {
      rel := rel + {fde.addressRange - 1};
    }
  }

  lemma RelativePointOf(fde: Fde, l: u64)
    ensures RelativePoints(fde, [l])
         == if 0 <= l - fde.initialLocation < fde.addressRange then {l - fde.initialLocation} else {}
  {
  }

  lemma RelativePointsSplit(fde: Fde, l: u64, ls: seq<u64>)
    ensures RelativePoints(fde, [l] + ls) == RelativePoints(fde, [l]) + RelativePoints(fde, ls)
  {
    var all := [l] + ls;
    assert forall x :: x in all <==> x == l || x in ls;
  }

  // -------------------------------------------------------------- simulation

  /** The DWARF 2 escape, whose length the interpreter reads as a byte. */
  predicate IsEscape(cie: Cie, opcode: u8) {
    cie.version < 3 && opcode == 0x0f
  }

  predicate EscapeIsShort(cie: Cie, ins: seq<u8>, off: nat)
    requires off + 1 < |ins|
  {
    IsEscape(cie, ins[off]) ==> ins[off + 1] < 0x80
  }

  /** Both readings of a fixed-width operand move the location alike. */
  predicate MoveAlike(opcode: u8, cie: Cie, a: u64, b: u64) {
    if opcode == 0x01 then a == b
    else Wrap64(a * cie.codeAlignmentFactor) == Wrap64(b * cie.codeAlignmentFactor)
  }

  /** The fixed-width operand of the instruction at `off`, read in the object's byte order and
      read little-endian. */
  predicate OperandsAlike(cie: Cie, littleEndian: bool, ins: seq<u8>, off: nat)
    requires off < |ins|
  {
    match LayoutOf(ins[off], cie)
    case Some(FixedOperand(width)) =>
      off + 1 + width <= |ins| ==>
        MoveAlike(ins[off], cie, Wrap64(FixedWidth(ins, off + 1, width, littleEndian)), Wrap64(BytesLE(ins, off + 1, width)))
    case _ => true
  }

  /** In little-endian objects they always do, and in others unless the operand has several
      bytes. */
  lemma AlikeUnlessWide(cie: Cie, littleEndian: bool, ins: seq<u8>, off: nat)
    requires off < |ins|
    ensures littleEndian || ins[off] !in {0x01, 0x03, 0x04, 0x1d} ==> OperandsAlike(cie, littleEndian, ins, off)
  {
    if ins[off] == 0x02 && off + 2 <= |ins| {
      assert BytesLE(ins, off + 2, 0) == 0 && BytesBE(ins, off + 1, 0) == 0;
      assert BytesLE(ins, off + 1, 1) == BytesBE(ins, off + 1, 1);
    }
  }

  /** All decoded instructions have operands that move alike, and escapes are short wherever
      another instruction follows. */
  ghost predicate DecodersInStep(cie: Cie, littleEndian: bool, ins: seq<u8>, off: nat)
    decreases |ins| - off
  {
    off < |ins| ==>
      match Fetch(cie, littleEndian, ins, off)
      case None => true
      case Some(f) =>
        && (off + 1 < |ins| && f.next < |ins| ==> EscapeIsShort(cie, ins, off))
        && OperandsAlike(cie, littleEndian, ins, off)
        && DecodersInStep(cie, littleEndian, ins, f.next)
  }

  /** One step of the simulation, exactly: where the interpreter decodes an instruction that is
      not a long escape, the collector moves to the same offset, and to the same location if and
      only if the operand moves it alike in both byte orders. */
  lemma {:induction false} StepsAgree(cie: Cie, littleEndian: bool, ins: seq<u8>, off: nat, location: u64)
    requires off < |ins| < TWO_64 && Fetch(cie, littleEndian, ins, off).Some?
    requires off + 1 < |ins| ==> EscapeIsShort(cie, ins, off)
    ensures var f := Fetch(cie, littleEndian, ins, off).value;
            var c := CollectorStep(cie, ins, Cursor(off, location));
            && c.offset == f.next
            && (c.location == LocationAfter(f.instr, location) <==> OperandsAlike(cie, littleEndian, ins, off))
  {
    hide Unsigned, Signed, SignedWrapping, Meaning, LocationAfter, FixedWidth, BytesLE, MoveAlike;
    var layout := LayoutOf(ins[off], cie).value;
    if layout == ByteCountedBytes {
      ShortEscape(ins, off + 1);
    } else {
      OperandsAgree(layout, littleEndian, ins, off + 1);
      if ins[off] == 0x2f {
        CheckerReadsWhatParserReads(ins, Unsigned(ins, off + 1).value.next);
      }
    }
    MovesAlike(ins[off], ReadOperands(layout, ins, off + 1, littleEndian).value, cie, location);
    if layout.FixedOperand? {
      var width := layout.width;
      MovedExactly(ins[off], Wrap64(FixedWidth(ins, off + 1, width, littleEndian)),
                   Wrap64(BytesLE(ins, off + 1, width)), cie, location);
    }
  }

  lemma MovedExactly(opcode: u8, a: u64, b: u64, cie: Cie, location: u64)
    requires LayoutOf(opcode, cie).Some? && LayoutOf(opcode, cie).value.FixedOperand?
    ensures Moved(opcode, a, cie, location) == Moved(opcode, b, cie, location) <==> MoveAlike(opcode, cie, a, b)
  {
    if opcode != 0x01 {
      hide Wrap64;
      SumsAlike(location, a * cie.codeAlignmentFactor, b * cie.codeAlignmentFactor);
    }
  }

  lemma SumsAlike(l: int, a: int, b: int)
    ensures Wrap64(l + a) == Wrap64(l + b) <==> Wrap64(a) == Wrap64(b)
  {
    hide Wrap64;
    WrapSum(a, l);
    WrapSum(b, l);
    if Wrap64(l + a) == Wrap64(l + b) {
      var j := WrapIs(l + a);
      var k := WrapIs(l + b);
      SameWrap(a, b, j - k);
    }
  }

  lemma SameWrap(a: int, b: int, k: int)
    requires a == b + k * 0x1_0000_0000_0000_0000
    ensures Wrap64(a) == Wrap64(b)
  {
  }

  lemma {:induction false} OperandsAgree(layout: Layout, littleEndian: bool, bytes: seq<u8>, off: nat)
    requires layout != ByteCountedBytes && |bytes| < TWO_64
    requires ReadOperands(layout, bytes, off, littleEndian).Some?
    ensures var o := ReadOperands(layout, bytes, off, littleEndian).value;
            CollectorOperands(layout, bytes, off)
            == Some(Decoded(if layout.FixedOperand? then Wrap64(BytesLE(bytes, off, layout.width)) else 0, o.next))
  {
    hide Unsigned, Signed, SignedWrapping, BytesLE, BytesBE;
    CheckerReadsWhatParserReads(bytes, off);
    if Unsigned(bytes, off).Some? {
      CheckerReadsWhatParserReads(bytes, Unsigned(bytes, off).value.next);
    }
  }

  lemma {:induction false} ShortEscape(bytes: seq<u8>, off: nat)
    requires off < |bytes| < TWO_64 && bytes[off] < 0x80 && off + 1 + bytes[off] <= |bytes|
    ensures SkipBlock(bytes, off) == Some(off + 1 + bytes[off])
  {
    assert Digits(bytes, off + 1, 0) == 0;
  }

  lemma {:induction false} MovesAlike(opcode: u8, o: Operands, cie: Cie, location: u64)
    ensures var operand := match LayoutOf(opcode, cie)
                           case Some(FixedOperand(_)) => o.first
                           case _ => 0;
            LayoutOf(opcode, cie).Some? ==>
              LocationAfter(Meaning(opcode, o, cie), location) == Moved(opcode, operand, cie, location)
  {
    WrapSum((opcode % 0x40) * cie.codeAlignmentFactor, location);
    WrapSum(o.first * cie.codeAlignmentFactor, location);
  }

  /** The condition on escapes is exact: behind an escape with a longer length byte that
      does not end the stream, the two decoders are at different offsets. */
  lemma {:induction false} LongEscapeDesynchronises(cie: Cie, littleEndian: bool, ins: seq<u8>, off: nat, location: u64)
    requires off + 1 < |ins| < TWO_64 && cie.version < 3 && ins[off] == 0x0f
    requires Fetch(cie, littleEndian, ins, off).Some? && Fetch(cie, littleEndian, ins, off).value.next < |ins|
    ensures CollectorStep(cie, ins, Cursor(off, location)).offset == Fetch(cie, littleEndian, ins, off).value.next
       <==> ins[off + 1] < 0x80
  {
    hide Unsigned, Meaning;
    if ins[off + 1] < 0x80 {
      ShortEscape(ins, off + 1);
    } else {
      LongLength(ins, off + 1);
      ReadExtent(ins, off + 1);
    }
  }

  lemma {:induction false} LongLength(bytes: seq<u8>, off: nat)
    requires off < |bytes| && bytes[off] >= 0x80
    ensures match Unsigned(bytes, off)
            case None => true
            case Some(len) => len.next >= off + 2 && exists rest: nat :: len.value == bytes[off] - 0x80 + 0x80 * rest
  {
    match Length(bytes, off)
    case None =>
    case Some(n) => assert Digits(bytes, off, n) == bytes[off] - 0x80 + 0x80 * Digits(bytes, off + 1, n - 1);
  }

  /** The interpreter after k instructions. */
  ghost function InterpreterAfter(cie: Cie, littleEndian: bool, ins: seq<u8>, p: Place, k: nat): Place
    decreases k
  {
    if k == 0 || p.offset >= |ins| then p
    else InterpreterAfter(cie, littleEndian, ins, Step(cie, littleEndian, ins, p.offset, p.machine), k - 1)
  }

  /** The interpreter decodes its first k instructions (or as many as there are). */
  ghost predicate Decodes(cie: Cie, littleEndian: bool, ins: seq<u8>, off: nat, k: nat)
    decreases k
  {
    k > 0 && off < |ins| ==>
      match Fetch(cie, littleEndian, ins, off)
      case None => false
      case Some(f) => Decodes(cie, littleEndian, ins, f.next, k - 1)
  }

  /** Every escape the interpreter meets is short, the last instruction included. */
  ghost predicate EscapesAreShort(cie: Cie, littleEndian: bool, ins: seq<u8>, off: nat)
    decreases |ins| - off
  {
    off < |ins| ==>
      match Fetch(cie, littleEndian, ins, off)
      case None => true
      case Some(f) =>
        && (off + 1 < |ins| ==> EscapeIsShort(cie, ins, off))
        && EscapesAreShort(cie, littleEndian, ins, f.next)
  }

  /** Lock-step simulation: as long as the interpreter has not aborted, both decoders are at the
      same byte and at the same location. Only behind a long escape that ends the stream they may
      not be. */
  lemma {:induction false} CollectorSimulatesInterpreter(cie: Cie, littleEndian: bool, ins: seq<u8>, p: Place, k: nat)
    requires |ins| < TWO_64 && DecodersInStep(cie, littleEndian, ins, p.offset)
    requires Decodes(cie, littleEndian, ins, p.offset, k)
    ensures var q := InterpreterAfter(cie, littleEndian, ins, p, k);
            q.offset < |ins| || EscapesAreShort(cie, littleEndian, ins, p.offset) ==>
              CollectorAfter(cie, ins, Cursor(p.offset, p.machine.row.location), k)
              == Cursor(q.offset, q.machine.row.location)
    decreases k
  {
    hide Fetch, Apply, CollectorStep, EscapeIsShort, OperandsAlike;
    if k > 0 && p.offset < |ins| {
      var f := Fetch(cie, littleEndian, ins, p.offset).value;
      var next := Step(cie, littleEndian, ins, p.offset, p.machine);
      ApplyMovesLocation(f.instr, cie, p.machine);
      if f.next < |ins| || EscapesAreShort(cie, littleEndian, ins, p.offset) {
        StepsAgree(cie, littleEndian, ins, p.offset, p.machine.row.location);
        CollectorSimulatesInterpreter(cie, littleEndian, ins, next, k - 1);
      } else {
        assert InterpreterAfter(cie, littleEndian, ins, next, k - 1) == next;
      }
    }
  }

  lemma FetchedEscapeStays(cie: Cie, littleEndian: bool, ins: seq<u8>, off: nat, location: u64)
    requires off < |ins| && Fetch(cie, littleEndian, ins, off).Some?
    ensures off + 1 < |ins| && !EscapeIsShort(cie, ins, off) ==>
              LocationAfter(Fetch(cie, littleEndian, ins, off).value.instr, location) == location
  {
    hide Unsigned, Signed;
  }

  /** Every row location is one the collector goes through, also after an abort and also when
      locations move backwards. */
  lemma {:induction false} RowsFollowCollector(cie: Cie, littleEndian: bool, ins: seq<u8>, off: nat, m: Machine, k: nat)
    requires |ins| < TWO_64 && DecodersInStep(cie, littleEndian, ins, off)
    requires CollectorAfter(cie, ins, Cursor(off, m.row.location), k).offset >= |ins|
    ensures forall row | row in Trace(cie, littleEndian, ins, off, m) ::
              row.location in [m.row.location] + Locations(cie, ins, Cursor(off, m.row.location), k)
    decreases |ins| - off
  {
    hide Fetch, Apply, CollectorStep, EscapeIsShort, OperandsAlike;
    if off < |ins| {
      var p := Step(cie, littleEndian, ins, off, m);
      match Fetch(cie, littleEndian, ins, off)
      case None =>
        assert Trace(cie, littleEndian, ins, p.offset, p.machine) == [];
      case Some(f) =>
        ApplyMovesLocation(f.instr, cie, m);
        if off + 1 < |ins| && !EscapeIsShort(cie, ins, off) {
          FetchedEscapeStays(cie, littleEndian, ins, off, m.row.location);
          assert Trace(cie, littleEndian, ins, p.offset, p.machine) == [];
        } else {
          StepsAgree(cie, littleEndian, ins, off, m.row.location);
          RowsFollowCollector(cie, littleEndian, ins, p.offset, p.machine, k - 1);
        }
    }
  }

  /** What the checks of one FDE take for granted: decoders in step, a collector that ends and a
      range that does not overflow. */
  ghost predicate Checkable(fde: Fde, littleEndian: bool) {
    && |fde.instructions| < TWO_64
    && Collectable(fde)
    && fde.initialLocation + fde.addressRange < TWO_64
    && (fde.cie.Some? ==> DecodersInStep(fde.cie.value, littleEndian, fde.instructions, 0))
  }

  lemma {:induction false} RecordedRows(table: seq<UnwindRow>, rows: seq<UnwindRow>, begin: u64, end: u64)
    ensures forall row | row in RecordAll(table, rows, begin, end) ::
              row in table || (row in rows && begin <= row.location < end)
    decreases |rows|
  {
    if rows != [] {
      RecordedRows(Record(table, rows[0], begin, end), rows[1..], begin, end);
    }
  }

  /** Every row of the unwind table starts at a collected cut point. */
  lemma {:induction false} TableRowsAreCutPoints(fde: Fde, littleEndian: bool)
    requires Checkable(fde, littleEndian) && fde.cie.Some? && fde.addressRange > 0
    ensures forall row | row in RowTable(fde, fde.cie.value, littleEndian) ::
              0 <= row.location - fde.initialLocation < fde.addressRange
              && row.location - fde.initialLocation in CutPointsOf(fde)
  {
    hide Trace, Locations, CollectorAfter, DecodersInStep, Terminates;
    var cie := fde.cie.value;
    var m := InitialMachine(fde, cie);
    var rows := Trace(cie, littleEndian, fde.instructions, 0, m);
    TerminatesExactly(cie, fde.instructions, StartOf(fde));
    RowsFollowCollector(cie, littleEndian, fde.instructions, 0, m, |fde.instructions|);
    RecordedRows([m.row], rows, fde.initialLocation, EndOf(fde));
    forall row | row in RowTable(fde, cie, littleEndian)
      ensures 0 <= row.location - fde.initialLocation < fde.addressRange
              && row.location - fde.initialLocation in CutPointsOf(fde)
    {
      assert row.location == fde.initialLocation
          || row.location in Locations(cie, fde.instructions, StartOf(fde), |fde.instructions|);
    }
  }

  // -------------------------------------------------- the conditions matter

  /** A block end that wraps back can make the collector stand still for ever: the length of this
      block takes the offset back to the instruction itself. */
  lemma {:induction false} WrappingBlockLoops(cie: Cie, location: u64)
    ensures var ins := [0x16, 0x00] + EncodeUnsigned(TWO_64 - 12);
            && CollectorStep(cie, ins, Cursor(0, location)) == Cursor(0, location)
            && !Terminates(cie, ins, Cursor(0, location))
  {
    var all: seq<u8> := [0x16, 0x00] + EncodeUnsigned(TWO_64 - 12);
    WrappingBlockStands(cie, location);
    TerminatesExactly(cie, all, Cursor(0, location));
    hide CollectorStep, EncodeUnsigned;
    assert CollectorAfter(cie, all, Cursor(0, location), 0).offset == 0;
    assert CollectorAfter(cie, all, Cursor(0, location), 1).offset == 0;
  }

  lemma {:induction false} WrappingBlockStands(cie: Cie, location: u64)
    ensures var ins := [0x16, 0x00] + EncodeUnsigned(TWO_64 - 12);
            CollectorStep(cie, ins, Cursor(0, location)) == Cursor(0, location)
  {
    hide Unsigned, EncodeUnsigned, CollectorOperands;
    var len := TWO_64 - 12;
    var ins: seq<u8> := [0x16, 0x00] + EncodeUnsigned(len);
    TenByteLength();
    UnsignedRoundTrip([0x16, 0x00], len, []);
    assert [0x16, 0x00] + EncodeUnsigned(len) + [] == ins;
    UnsignedRoundTrip([0x16], 0, EncodeUnsigned(len));
    assert EncodeUnsigned(0) == [0x00] by { EncodeZero(); }
    assert [0x16] + [0x00] + EncodeUnsigned(len) == ins;
    assert CollectorOperands(UnsignedBlock, ins, 1) == Some(Decoded(0, 0)) by {
      WrappedBlock(ins, len);
    }
  }

  lemma WrappedBlock(ins: seq<u8>, len: u64)
    requires Unsigned(ins, 1) == Some(Decoded(0, 2)) && Unsigned(ins, 2) == Some(Decoded(len, 12)) && len == TWO_64 - 12
    ensures CollectorOperands(UnsignedBlock, ins, 1) == Some(Decoded(0, 0))
  {
    hide Unsigned;
  }

  lemma EncodeZero()
    ensures EncodeUnsigned(0) == [0x00]
  {
  }

  lemma TenByteLength()
    ensures |EncodeUnsigned(TWO_64 - 12)| == 10
  {
    assert |EncodeUnsigned(0xff)| == 2;
    assert |EncodeUnsigned(0x7fff)| == 3;
    assert |EncodeUnsigned(0x3f_ffff)| == 4;
    assert |EncodeUnsigned(0x1fff_ffff)| == 5;
    assert |EncodeUnsigned(0xf_ffff_ffff)| == 6;
    assert |EncodeUnsigned(0x7ff_ffff_ffff)| == 7;
    assert |EncodeUnsigned(0x3_ffff_ffff_ffff)| == 8;
    assert |EncodeUnsigned(0x1ff_ffff_ffff_ffff)| == 9;
  }

  /** Stepping back need not be fatal: here the block end takes the collector from offset 2 to
      offset 1, from where it reads other instructions and ends. */
  lemma {:induction false} SteppingBackCanEnd(cie: Cie, location: u64)
    ensures var ins := [0x0e, 0x03, 0x16, 0x00] + EncodeUnsigned(TWO_64 - 13);
            && CollectorStep(cie, ins, Cursor(2, location)).offset == 1
            && Terminates(cie, ins, Cursor(0, location))
  {
    var ins: seq<u8> := [0x0e, 0x03, 0x16, 0x00] + EncodeUnsigned(TWO_64 - 13);
    LengthBytes();
    assert ins == [0x0e, 0x03, 0x16, 0x00, 0xf3, 0xff, 0xff, 0xff, 0xff, 0xff, 0xff, 0xff, 0xff, 0x01];
    StepBack(cie, ins, location);
    hide EncodeUnsigned, CollectorStep, CollectorAfter;
    var c := Cursor(0, location);
    var next := NextOffset(cie, ins);
    forall off: nat | 4 <= off < 13
      ensures next(off) == off + 1
    {
      RestoreSteps(cie, ins, off);
    }
    assert next(0) == 2 && next(2) == 1 && next(1) == 4 && next(13) >= 14;
    SixRounds(next, ins);
    OffsetsAlone(cie, ins, c, 13);
  }

  lemma SixRounds(next: nat -> nat, ins: seq<u8>)
    requires |ins| == 14 && next(0) == 2 && next(2) == 1 && next(1) == 4 && next(13) >= 14
    requires forall x | 4 <= x < 13 :: next(x) == x + 1
    ensures OffsetAfter(next, |ins|, 0, 13) >= |ins|
  {
    assert OffsetAfter(next, 14, 13, 1) == OffsetAfter(next, 14, next(13), 0);
    assert OffsetAfter(next, 14, 10, 4) == OffsetAfter(next, 14, 13, 1);
    assert OffsetAfter(next, 14, 7, 7) == OffsetAfter(next, 14, 10, 4);
    assert OffsetAfter(next, 14, 4, 10) == OffsetAfter(next, 14, 7, 7);
    assert OffsetAfter(next, 14, 0, 13) == OffsetAfter(next, 14, 4, 10);
  }

  lemma RestoreSteps(cie: Cie, ins: seq<u8>, off: nat)
    requires off < |ins| && IsRestore(ins[off])
    ensures forall l: u64 :: CollectorStep(cie, ins, Cursor(off, l)).offset == off + 1
  {
  }

  lemma ShortLengthBytes()
    ensures EncodeUnsigned(0xf_ffff_ffff) == [0xff, 0xff, 0xff, 0xff, 0xff, 0x01]
  {
    assert EncodeUnsigned(0xff) == [0xff, 0x01];
    assert EncodeUnsigned(0x7fff) == [0xff, 0xff, 0x01];
    assert EncodeUnsigned(0x3f_ffff) == [0xff, 0xff, 0xff, 0x01];
    assert EncodeUnsigned(0x1fff_ffff) == [0xff, 0xff, 0xff, 0xff, 0x01];
  }

  lemma NextByte(v: nat, rest: seq<u8>)
    requires v >= 0x80 && EncodeUnsigned(v / 0x80) == rest
    ensures EncodeUnsigned(v) == [v % 0x80 + 0x80] + rest
  {
  }

  lemma LengthBytes()
    ensures EncodeUnsigned(TWO_64 - 13) == [0xf3, 0xff, 0xff, 0xff, 0xff, 0xff, 0xff, 0xff, 0xff, 0x01]
  {
    ShortLengthBytes();
    hide EncodeUnsigned;
    NextByte(0x7ff_ffff_ffff, [0xff, 0xff, 0xff, 0xff, 0xff, 0x01]);
    NextByte(0x3_ffff_ffff_ffff, [0xff, 0xff, 0xff, 0xff, 0xff, 0xff, 0x01]);
    NextByte(0x1ff_ffff_ffff_ffff, [0xff, 0xff, 0xff, 0xff, 0xff, 0xff, 0xff, 0x01]);
    NextByte(TWO_64 - 13, [0xff, 0xff, 0xff, 0xff, 0xff, 0xff, 0xff, 0xff, 0x01]);
  }

  lemma StepBack(cie: Cie, ins: seq<u8>, location: u64)
    requires ins == [0x0e, 0x03, 0x16, 0x00] + EncodeUnsigned(TWO_64 - 13) && |ins| == 14 && ins[13] == 0x01
    ensures forall l: u64 :: CollectorStep(cie, ins, Cursor(0, l)).offset == 2
    ensures forall l: u64 :: CollectorStep(cie, ins, Cursor(2, l)).offset == 1
    ensures forall l: u64 :: CollectorStep(cie, ins, Cursor(1, l)).offset == 4
    ensures forall l: u64 :: CollectorStep(cie, ins, Cursor(13, l)).offset == 14
  {
    hide Unsigned, EncodeUnsigned;
    UnsignedRoundTrip([0x0e, 0x03, 0x16, 0x00], TWO_64 - 13, []);
    assert [0x0e, 0x03, 0x16, 0x00] + EncodeUnsigned(TWO_64 - 13) + [] == ins;
    UnsignedRoundTrip([0x0e], 0x03, ins[2..]);
    UnsignedRoundTrip([0x0e, 0x03, 0x16], 0, ins[4..]);
    assert EncodeUnsigned(3) == [0x03] && EncodeUnsigned(0) == [0x00] by { EncodeSmall(); }
    assert [0x0e] + [0x03] + ins[2..] == ins == [0x0e, 0x03, 0x16] + [0x00] + ins[4..];
    assert ins[0] == 0x0e && ins[1] == 0x03 && ins[2] == 0x16;
  }

  lemma EncodeSmall()
    ensures EncodeUnsigned(3) == [0x03] && EncodeUnsigned(0) == [0x00]
  {
  }

  /** In a big-endian object the two decoders disagree on a two-byte advance. */
  lemma BigEndianDisagrees(cie: Cie, m: Machine)
    requires cie.codeAlignmentFactor == 1 && m.row.location == 0
    ensures var ins := [0x03, 0x00, 0x01];
            && Step(cie, false, ins, 0, m).machine.row.location == 1
            && CollectorStep(cie, ins, Cursor(0, 0)).location == 0x100
  {
    var ins: seq<u8> := [0x03, 0x00, 0x01];
    assert BytesBE(ins, 1, 0) == 0 && BytesBE(ins, 1, 1) == 0 && BytesBE(ins, 1, 2) == 1;
    assert BytesLE(ins, 3, 0) == 0 && BytesLE(ins, 2, 1) == 1 && BytesLE(ins, 1, 2) == 0x100;
  }
}
