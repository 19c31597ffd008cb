/** Encoding line tables: opcodes to bytes, rows to opcodes by section 6.2.5.1 of DWARF 5, and the
    round trip through the opcode loop. */
module LineEncoding {
  import opened Words
  import opened Quotients
  import opened Leb128
  import opened ByteOrder
  import opened LineReaders
  import opened OffsetRuns
  import opened LineProgram

  // ------------------------------------------------------------ opcodes to bytes

  function AddressWidth(h: Header): nat {
    if h.addressSize == 8 then 8 else 4
  }

  /** What can be written down; unsigned operands in up to five bytes. */
  predicate Encodable(h: Header, op: Op) {
    match op
    case Special(adjusted) => adjusted + h.opcodeBase <= 255
    case AdvancePc(operand) => operand < 0x8_0000_0000
    case AdvanceLine(delta) => -TWO_32 < delta < TWO_32
    case SetAddress(target) => target < Pow256(AddressWidth(h))
    case Nothing => false
    case _ => true
  }

  function Assemble(h: Header, op: Op): (e: seq<u8>)
    requires Encodable(h, op)
    ensures |e| > 0
  {
    match op
    case Special(adjusted) => [adjusted + h.opcodeBase]
    case Copy => [1]
    case AdvancePc(operand) => [2] + EncodeUnsigned(operand)
    case AdvanceLine(delta) => [3] + EncodeSigned(delta)
    case SetFile(file) => [4] + EncodeUnsigned(file)
    case SetColumn(column) => [5] + EncodeUnsigned(column)
    case NegateStmt => [6]
    case SetBasicBlock => [7]
    case ConstAddPc => [8]
    case FixedAdvancePc(distance) => [9] + EncodeFixed(distance, 2, h.littleEndian)
    case SetPrologueEnd => [10]
    case SetEpilogueBegin => [11]
    case SetIsa(isa) => [12] + EncodeUnsigned(isa)
    case EndSequence => [0, 1, 1]
    case SetAddress(target) => [0, 1 + AddressWidth(h), 2] + EncodeFixed(target, AddressWidth(h), h.littleEndian)
    case SetDiscriminator(value) =>
      DiscriminatorSize(value);
      [0, 1 + |EncodeUnsigned(value)|, 4] + EncodeUnsigned(value)
  }

  /** What the loop's own readers make of it: all but large operands of `advance_pc` are read as
      they were written. */
  function AsRead(op: Op): Op {
    match op
    case AdvancePc(operand) => AdvancePc(ReadBack(operand))
    case _ => op
  }

  lemma ReadExactly(h: Header, op: Op)
    requires Encodable(h, op)
    ensures AsRead(op) == op <==> (op.AdvancePc? ==> op.operand < 0x8000_0000)
  {
  }

  lemma DiscriminatorSize(v: u32)
    ensures |EncodeUnsigned(v)| <= 5
  {
    FiveGroups();
    EncodedUnsignedSize(v, 5);
  }

  /** A one-byte length. */
  lemma ShortLength(ins: seq<u8>, off: nat, v: u8)
    requires off < |ins| && ins[off] == v && v < 0x80
    ensures LineUnsigned(ins, off) == Decoded(v, off + 1)
  {
    assert ins[off..off + 1] == [v] == EncodeUnsigned(v);
    LineUnsignedRoundTrip(ins, off, v);
  }

  lemma FitsTwoBytes(v: u16)
    ensures v < Pow256(2)
  {
    assert Pow256(1) == 0x100;
  }

  lemma FixedReadsBack(h: Header, ins: seq<u8>, off: nat, v: u64, n: nat)
    requires v < Pow256(n) && HasAt(ins, off, EncodeFixed(v, n, h.littleEndian))
    ensures LineFixed(h, ins, off, n) == Decoded(v, off + n)
  {
    FixedRoundTrip(ins, off, v, n, h.littleEndian);
  }

  /** Behind a standard opcode: an unsigned operand, ... */
  lemma UnsignedOperand(ins: seq<u8>, off: nat, opcode: u8, v: u32)
    requires HasAt(ins, off, [opcode] + EncodeUnsigned(v))
    ensures off < |ins| && ins[off] == opcode
    ensures LineUnsigned(ins, off + 1).next == off + 1 + |EncodeUnsigned(v)|
    ensures Wrap32(LineUnsigned(ins, off + 1).value) == v
    ensures v < 0x8000_0000 ==> LineUnsigned(ins, off + 1).value == v
  {
    hide LineUnsigned, EncodeUnsigned, Wrap32;
    HasAtTail(ins, off, opcode, EncodeUnsigned(v));
    LineUnsignedRoundTrip(ins, off + 1, v);
  }

  /** ... a signed one, ... */
  lemma SignedOperand(ins: seq<u8>, off: nat, opcode: u8, v: int)
    requires HasAt(ins, off, [opcode] + EncodeSigned(v)) && -TWO_32 < v < TWO_32
    ensures off < |ins| && ins[off] == opcode && LineSigned(ins, off + 1) == Decoded(v, off + 1 + |EncodeSigned(v)|)
  {
    hide LineSigned, EncodeSigned;
    HasAtTail(ins, off, opcode, EncodeSigned(v));
    LineSignedRoundTrip(ins, off + 1, v);
  }

  /** ... or two bytes. */
  lemma FixedOperand(h: Header, ins: seq<u8>, off: nat, opcode: u8, v: u16)
    requires HasAt(ins, off, [opcode] + EncodeFixed(v, 2, h.littleEndian))
    ensures off < |ins| && ins[off] == opcode && LineFixed(h, ins, off + 1, 2) == Decoded(v, off + 3)
  {
    hide LineFixed, EncodeFixed, Pow256;
    HasAtTail(ins, off, opcode, EncodeFixed(v, 2, h.littleEndian));
    FitsTwoBytes(v);
    FixedReadsBack(h, ins, off + 1, v, 2);
  }

  /** Standard opcodes with an operand. */
  lemma FetchAssembledOperand(h: Header, ins: seq<u8>, off: nat, op: Op)
    requires h.opcodeBase >= 13 && |ins| < TWO_64 && Encodable(h, op) && HasAt(ins, off, Assemble(h, op))
    requires op.AdvancePc? || op.AdvanceLine? || op.SetFile? || op.SetColumn? || op.SetIsa? || op.FixedAdvancePc?
    ensures Fetch(h, ins, off) == Some(Fetched(AsRead(op), off + |Assemble(h, op)|))
  {
    hide LineUnsigned, LineSigned, LineFixed, EncodeUnsigned, EncodeSigned, EncodeFixed, FetchExtended, Pow256, HasAt, Wrap32, ReadBack;
    match op
    case AdvancePc(operand) =>
      HasAtTail(ins, off, 2, EncodeUnsigned(operand));
      LineUnsignedReadBack(ins, off + 1, operand);
    case AdvanceLine(delta) => SignedOperand(ins, off, 3, delta);
    case SetFile(file) => UnsignedOperand(ins, off, 4, file);
    case SetColumn(column) => UnsignedOperand(ins, off, 5, column);
    case SetIsa(isa) => UnsignedOperand(ins, off, 12, isa);
    case FixedAdvancePc(distance) => FixedOperand(h, ins, off, 9, distance);
  }

  /** Every encodable opcode is fetched back, up to what the readers do to large operands, and
      exactly its bytes are consumed. */
  lemma FetchAssembled(h: Header, ins: seq<u8>, off: nat, op: Op)
    requires h.opcodeBase >= 13 && |ins| < TWO_64 && Encodable(h, op) && HasAt(ins, off, Assemble(h, op))
    ensures Fetch(h, ins, off) == Some(Fetched(AsRead(op), off + |Assemble(h, op)|))
  {
    hide LineUnsigned, LineSigned, LineFixed, EncodeUnsigned, EncodeSigned, EncodeFixed, FetchExtended, Pow256;
    assert ins[off] == ins[off..off + |Assemble(h, op)|][0];
    match op
    case SetAddress(_) | SetDiscriminator(_) | EndSequence =>
      FetchAssembledExtended(h, ins, off, op);
    case AdvancePc(_) | AdvanceLine(_) | SetFile(_) | SetColumn(_) | SetIsa(_) | FixedAdvancePc(_) =>
      FetchAssembledOperand(h, ins, off, op);
    case _ =>
  }

  lemma {:induction false} FetchAssembledExtended(h: Header, ins: seq<u8>, off: nat, op: Op)
    requires |ins| < TWO_64 && Encodable(h, op) && HasAt(ins, off, Assemble(h, op))
    requires op.SetAddress? || op.SetDiscriminator? || op.EndSequence?
    ensures ins[off] == 0 && FetchExtended(h, ins, off + 1) == Some(Fetched(op, off + |Assemble(h, op)|))
  {
    hide LineUnsigned, LineFixed, EncodeUnsigned, EncodeFixed, Pow256, FetchExtended;
    match op
    case EndSequence =>
      assert ins[off..off + 3] == [0, 1, 1];
      assert ins[off] == ins[off..off + 3][0] && ins[off + 1] == ins[off..off + 3][1] && ins[off + 2] == ins[off..off + 3][2];
      ExtendedHead(h, ins, off, 1, 1);
    case SetAddress(target) =>
      var w := AddressWidth(h);
      HasAtSplit(ins, off, [0, 1 + w, 2], EncodeFixed(target, w, h.littleEndian));
      assert ins[off] == ins[off..off + 3][0] && ins[off + 1] == ins[off..off + 3][1] && ins[off + 2] == ins[off..off + 3][2];
      FixedReadsBack(h, ins, off + 3, target, w);
      ExtendedHead(h, ins, off, 1 + w, 2);
    case SetDiscriminator(value) =>
      var operand := EncodeUnsigned(value);
      DiscriminatorSize(value);
      HasAtSplit(ins, off, [0, 1 + |operand|, 4], operand);
      assert ins[off] == ins[off..off + 3][0] && ins[off + 1] == ins[off..off + 3][1] && ins[off + 2] == ins[off..off + 3][2];
      var end := off + 3 + |operand|;
      assert ins[..end][off + 3..end] == ins[off + 3..end];
      LineUnsignedRoundTrip(ins[..end], off + 3, value);
      ExtendedHead(h, ins, off, 1 + |operand|, 4);
  }

  /** An extended opcode with a one-byte length that stays inside the unit. */
  lemma {:induction false} ExtendedHead(h: Header, ins: seq<u8>, off: nat, len: u8, sub: u8)
    requires off + 2 < |ins| < TWO_64 && ins[off + 1] == len && ins[off + 2] == sub
    requires 0 < len < 0x80 && off + 2 + len <= |ins|
    ensures var end := off + 2 + len;
            FetchExtended(h, ins, off + 1)
            == match sub
               case 1 => Some(Fetched(EndSequence, end))
               case 2 => (var a := LineFixed(h, ins, off + 3, if h.addressSize == 8 then 8 else 4);
                          Some(Fetched(SetAddress(a.value), Max(a.next, end))))
               case 3 => Some(Fetched(Nothing, end))
               case 4 => (var a := LineUnsigned(ins[..end], off + 3);
                          Some(Fetched(SetDiscriminator(Wrap32(a.value)), Max(a.next, end))))
               case _ => Some(Fetched(Nothing, end))
  {
    hide LineUnsigned, LineFixed, Wrap32;
    ShortLength(ins, off + 1, len);
  }

  // -------------------------------------------------------- unknown opcodes

  function Operands(values: seq<u32>): seq<u8>
    decreases |values|
  {
    if values == [] then [] else EncodeUnsigned(values[0]) + Operands(values[1..])
  }

  lemma {:induction false} OperandsSkipped(ins: seq<u8>, off: nat, values: seq<u32>)
    requires off <= |ins| && HasAt(ins, off, Operands(values))
    ensures SkipUnsigned(ins, off, |values|) == off + |Operands(values)|
    decreases |values|
  {
    hide LineUnsigned, EncodeUnsigned;
    if values != [] {
      HasAtSplit(ins, off, EncodeUnsigned(values[0]), Operands(values[1..]));
      LineUnsignedRoundTrip(ins, off, values[0]);
      OperandsSkipped(ins, off + |EncodeUnsigned(values[0])|, values[1..]);
    }
  }

  /** A standard opcode that the program does not know is passed over with as many operands as the
      header announces for it. */
  lemma {:induction false} UnknownStandardSkipped(h: Header, ins: seq<u8>, off: nat, opcode: u8, values: seq<u32>)
    requires 12 < opcode < h.opcodeBase && opcode <= |h.opcodeLengths| && h.opcodeLengths[opcode - 1] == |values|
    requires HasAt(ins, off, [opcode] + Operands(values))
    ensures off < |ins| && Fetch(h, ins, off) == Some(Fetched(Nothing, off + 1 + |Operands(values)|))
  {
    hide SkipUnsigned;
    HasAtTail(ins, off, opcode, Operands(values));
    OperandsSkipped(ins, off + 1, values);
  }

  /** An extended opcode that it does not know, or that only names a file, with its whole length. */
  lemma {:induction false} UnknownExtendedSkipped(h: Header, ins: seq<u8>, off: nat, sub: u8, payload: seq<u8>)
    requires sub !in {1, 2, 4} && |payload| < 0x7f && |ins| < TWO_64
    requires HasAt(ins, off, [0, 1 + |payload|, sub] + payload)
    ensures off < |ins| && Fetch(h, ins, off) == Some(Fetched(Nothing, off + 3 + |payload|))
  {
    hide FetchExtended;
    HasAtSplit(ins, off, [0, 1 + |payload|, sub], payload);
    assert ins[off] == ins[off..off + 3][0] && ins[off + 1] == ins[off..off + 3][1] && ins[off + 2] == ins[off..off + 3][2];
    ExtendedHead(h, ins, off, 1 + |payload|, sub);
  }

  /** One whose length leads out of the unit ends the loop. */
  lemma {:induction false} OverlongEndsLoop(h: Header, ins: seq<u8>, off: nat, len: u8, s: LineState, k: nat)
    requires off + 1 < |ins| < TWO_64 - 0x80 && ins[off] == 0 && ins[off + 1] == len < 0x80
    requires off + 2 + len > |ins| || off + 2 == |ins|
    ensures RowsIn(h, ins, off, s, k) == []
  {
    hide LineUnsigned, LineFixed;
    ShortLength(ins, off + 1, len);
    InRange(off + 2 + len);
    assert Fetch(h, ins, off) == None;
  }

  // ------------------------------------------------------------- whole programs

  predicate AllEncodable(h: Header, ops: seq<Op>) {
    forall k | 0 <= k < |ops| :: Encodable(h, ops[k])
  }

  function AssembleAll(h: Header, ops: seq<Op>): seq<u8>
    requires AllEncodable(h, ops)
    decreases |ops|
  {
    if ops == [] then [] else Assemble(h, ops[0]) + AssembleAll(h, ops[1..])
  }

  /** The rows the loop makes of a list of written opcodes, and the state behind them. */
  function OpRows(h: Header, ops: seq<Op>, s: LineState): seq<Row>
    decreases |ops|
  {
    if ops == [] then [] else RowsOf(h, AsRead(ops[0]), s) + OpRows(h, ops[1..], Next(h, AsRead(ops[0]), s))
  }

  function StateAfter(h: Header, ops: seq<Op>, s: LineState): LineState
    decreases |ops|
  {
    if ops == [] then s else StateAfter(h, ops[1..], Next(h, AsRead(ops[0]), s))
  }

  /** The loop over the bytes of a unit that ends with assembled opcodes ends and yields their
      rows. */
  lemma {:induction false} LoopRunsOpcodes(h: Header, ins: seq<u8>, off: nat, ops: seq<Op>, s: LineState, k: nat)
    requires h.opcodeBase >= 13 && |ins| < TWO_64 && AllEncodable(h, ops)
    requires HasAt(ins, off, AssembleAll(h, ops)) && off + |AssembleAll(h, ops)| == |ins| <= off + k
    ensures OffsetAfter(NextOpcode(h, ins), |ins|, off, k) >= |ins| && RowsIn(h, ins, off, s, k) == OpRows(h, ops, s)
    decreases |ops|
  {
    hide Fetch, Assemble, AsRead, Next, RowsOf;
    if ops != [] {
      HasAtSplit(ins, off, Assemble(h, ops[0]), AssembleAll(h, ops[1..]));
      FetchAssembled(h, ins, off, ops[0]);
      LoopRunsOpcodes(h, ins, off + |Assemble(h, ops[0])|, ops[1..], Next(h, AsRead(ops[0]), s), k - 1);
    }
  }

  // ------------------------------------------------------------ rows to opcodes

  function OperationsBetween(h: Header, from: u64, to: u64): int
    requires Divisible(h) && h.minInstructionLength > 0
  {
    (to - from) / h.minInstructionLength * h.maxOperations
  }

  function AdjustedOpcode(h: Header, address: u64, line: u32, row: Row): int
    requires Divisible(h) && h.minInstructionLength > 0
  {
    row.line - line - h.lineBase + h.lineRange * OperationsBetween(h, address, row.address)
  }

  /** The special opcode of section 6.2.5.1 exists. */
  predicate SpecialFits(h: Header, address: u64, line: u32, row: Row)
    requires Divisible(h) && h.minInstructionLength > 0
  {
    && 0 <= row.line - line - h.lineBase < h.lineRange
    && 0 <= AdjustedOpcode(h, address, line, row) <= 255 - h.opcodeBase
  }

  /** A row's address is not below and a whole number of instructions away. */
  predicate Ahead(h: Header, address: u64, row: Row)
    requires h.minInstructionLength > 0
  {
    address <= row.address && (row.address - address) % h.minInstructionLength == 0
  }

  /** The limit on `advance_pc`: with one operation per instruction the operand has to be read
      exactly, with more only its low 32 bits count, and the distance may not overflow them. */
  predicate AdvanceReaches(h: Header, address: u64, row: Row)
    requires Divisible(h) && h.minInstructionLength > 0
  {
    if h.maxOperations == 1 then OperationsBetween(h, address, row.address) < 0x8000_0000
    else OperationsBetween(h, address, row.address) < TWO_32 && row.address - address < TWO_32
  }

  /** A row can follow one at `address` and `line`: it is ahead, and where no special opcode fits,
      `advance_pc` reaches it. */
  predicate CanFollow(h: Header, address: u64, line: u32, row: Row)
    requires Divisible(h) && h.minInstructionLength > 0
  {
    Ahead(h, address, row) && (!SpecialFits(h, address, line, row) ==> AdvanceReaches(h, address, row))
  }

  /** The operand of `advance_pc`, where it is needed, has at most five bytes. */
  predicate FiveBytes(h: Header, address: u64, line: u32, row: Row)
    requires Divisible(h) && h.minInstructionLength > 0
  {
    !SpecialFits(h, address, line, row) ==> OperationsBetween(h, address, row.address) < 0x8_0000_0000
  }

  function MoveAndAppend(h: Header, address: u64, line: u32, row: Row): seq<Op>
    requires Divisible(h) && h.minInstructionLength > 0 && Ahead(h, address, row) && FiveBytes(h, address, line, row)
  {
    var operations := OperationsBetween(h, address, row.address);
    if SpecialFits(h, address, line, row) then [Special(AdjustedOpcode(h, address, line, row))]
    else
      NonNegative(h, address, row.address);
      (if operations != 0 then [AdvancePc(operations)] else [])
      + (if row.line != line then [AdvanceLine(row.line - line)] else [])
      + [Copy]
  }

  lemma NonNegative(h: Header, from: u64, to: u64)
    requires Divisible(h) && h.minInstructionLength > 0 && from <= to
    ensures OperationsBetween(h, from, to) >= 0
  {
    SmallQuotient(to - from, h.minInstructionLength);
    MulMonotone(0, (to - from) / h.minInstructionLength, h.maxOperations);
  }

  /** The flags a row clears are not set, except where the row wants them. */
  predicate Ready(s: LineState, row: Row) {
    && s.opIndex == 0 && !s.endSequence && !row.endSequence
    && (s.basicBlock ==> row.basicBlock) && (s.prologueEnd ==> row.prologueEnd) && (s.epilogueBegin ==> row.epilogueBegin)
  }

  /** The opcode for the first register that does not have the row's value; Nothing if all have. */
  function RegisterOpcode(s: LineState, row: Row): Op {
    if s.file != row.file then SetFile(row.file)
    else if s.column != row.column then SetColumn(row.column)
    else if s.isStmt != row.isStmt then NegateStmt
    else if s.basicBlock != row.basicBlock then SetBasicBlock
    else if s.prologueEnd != row.prologueEnd then SetPrologueEnd
    else if s.epilogueBegin != row.epilogueBegin then SetEpilogueBegin
    else if s.isa != row.isa then SetIsa(row.isa)
    else if s.discriminator != row.discriminator then SetDiscriminator(row.discriminator)
    else Nothing
  }

  function Differences(s: LineState, row: Row): nat {
    (if s.file != row.file then 1 else 0) + (if s.column != row.column then 1 else 0)
    + (if s.isStmt != row.isStmt then 1 else 0) + (if s.basicBlock != row.basicBlock then 1 else 0)
    + (if s.prologueEnd != row.prologueEnd then 1 else 0) + (if s.epilogueBegin != row.epilogueBegin then 1 else 0)
    + (if s.isa != row.isa then 1 else 0) + (if s.discriminator != row.discriminator then 1 else 0)
  }

  lemma RegisterSet(h: Header, s: LineState, row: Row)
    requires Ready(s, row) && RegisterOpcode(s, row) != Nothing
    ensures var op := RegisterOpcode(s, row);
            var t := Apply(h, op, s);
            && Encodable(h, op) && !AppendsRow(op) && !op.AdvancePc?
            && t.address == s.address && t.line == s.line && Ready(t, row)
            && Differences(t, row) < Differences(s, row)
  {
    hide Advance;
  }

  /** Opcodes that bring one register after the other to the row's value, then move and append. */
  function EncodeRow(h: Header, s: LineState, row: Row): seq<Op>
    requires Divisible(h) && h.minInstructionLength > 0 && Ready(s, row)
    requires Ahead(h, s.address, row) && FiveBytes(h, s.address, s.line, row)
    decreases Differences(s, row)
  {
    var op := RegisterOpcode(s, row);
    if op == Nothing then MoveAndAppend(h, s.address, s.line, row)
    else
      RegisterSet(h, s, row);
      [op] + EncodeRow(h, Apply(h, op, s), row)
  }

  /** The state behind a row. */
  function StateBehind(row: Row): LineState {
    LineState(row.address, 0, row.file, row.line, row.column, row.isStmt, false, false, false, false, row.isa, 0)
  }

  lemma {:induction false} OpRowsAppend(h: Header, a: seq<Op>, b: seq<Op>, s: LineState)
    ensures OpRows(h, a + b, s) == OpRows(h, a, s) + OpRows(h, b, StateAfter(h, a, s))
    ensures StateAfter(h, a + b, s) == StateAfter(h, b, StateAfter(h, a, s))
    decreases |a|
  {
    hide Next, RowsOf, AsRead;
    if a == [] {
      assert a + b == b;
    } else {
      assert (a + b)[1..] == a[1..] + b;
      OpRowsAppend(h, a[1..], b, Next(h, AsRead(a[0]), s));
    }
  }

  lemma OneOp(h: Header, op: Op, s: LineState)
    ensures OpRows(h, [op], s) == RowsOf(h, AsRead(op), s) && StateAfter(h, [op], s) == Next(h, AsRead(op), s)
  {
    hide Next, RowsOf, AsRead;
    assert [op][1..] == [];
  }

  /** What counts of an operand as read: all of it, or its low 32 bits. */
  lemma AdvanceAsRead(h: Header, s: LineState, n: u64)
    requires if h.maxOperations == 1 then n < 0x8000_0000 else n < TWO_32
    ensures Advance(h, s, ReadBack(n)) == Advance(h, s, n)
  {
    hide Wrap64, Wrap32, ReadBack;
    if h.maxOperations == 1 {
      SmallReadBack(n);
    } else {
      LowWord(n);
    }
  }

  lemma LowWord(n: nat)
    ensures Wrap32(ReadBack(n)) == Wrap32(n) == n % 0x1_0000_0000
  {
  }

  /** Advancing by the computed operations lands on the row's address, with op_index zero. */
  lemma {:induction false} LandsOnRow(h: Header, s: LineState, row: Row)
    requires Divisible(h) && h.minInstructionLength > 0 && s.opIndex == 0 && Ahead(h, s.address, row)
    requires OperationsBetween(h, s.address, row.address) < 0x100 || AdvanceReaches(h, s.address, row)
    ensures 0 <= OperationsBetween(h, s.address, row.address)
    ensures Advance(h, s, OperationsBetween(h, s.address, row.address)) == s.(address := row.address)
  {
    hide Wrap64, Wrap32;
    var n := OperationsBetween(h, s.address, row.address);
    NonNegative(h, s.address, row.address);
    var k := (row.address - s.address) / h.minInstructionLength;
    Recompose(row.address - s.address, h.minInstructionLength);
    QuotientIs(n, h.maxOperations, k, 0);
    AdvanceIsMove(h, s, n);
    InRange(row.address);
  }

  /** Beyond the limit the operand as read leads somewhere else. */
  lemma {:induction false} MissesRow(h: Header, s: LineState, row: Row)
    requires Divisible(h) && h.minInstructionLength > 0 && s.opIndex == 0 && Ahead(h, s.address, row)
    requires !AdvanceReaches(h, s.address, row) && OperationsBetween(h, s.address, row.address) < 0x8_0000_0000
    ensures 0 < OperationsBetween(h, s.address, row.address)
    ensures Advance(h, s, ReadBack(OperationsBetween(h, s.address, row.address))).address != row.address
  {
    hide Wrap64, Wrap32, ReadBack;
    var n, max, min := OperationsBetween(h, s.address, row.address), h.maxOperations, h.minInstructionLength;
    NonNegative(h, s.address, row.address);
    if n == 0 {
      ZeroDistance(h, s.address, row.address);
    }
    var k := (row.address - s.address) / min;
    Recompose(row.address - s.address, min);
    SmallQuotient(row.address - s.address, min);
    assert n == k * max && row.address == s.address + k * min;
    hide OperationsBetween;
    if max == 1 {
      assert k * max == k;
      MisreadMisses(s.address, n, min);
    } else {
      TruncatedMisses(s.address, k, max, min);
    }
  }

  /** With several operations per instruction: the low 32 bits of the operand give a smaller
      increment, or the increment loses its upper bits. */
  lemma TruncatedMisses(address: u64, k: nat, max: u8, min: u8)
    requires max > 0 && min > 0 && address + k * min < TWO_64 && k * max < 0x8_0000_0000
    requires k * max >= TWO_32 || k * min >= TWO_32
    ensures var index := Wrap32(0 + Wrap32(ReadBack(k * max)));
            Wrap64(address + Wrap32(index / max * min)) != address + k * min
  {
    hide Wrap64, Wrap32, ReadBack;
    var n := k * max;
    QuotientIs(n, max, k, 0);
    MulMonotone(0, k, max);
    MulMonotone(0, k, min);
    LowWord(n);
    Truncated(n);
    var index := Wrap32(0 + Wrap32(ReadBack(n)));
    IncrementFallsShort(index, n, max, min);
    DifferentIncrements(address, Wrap32(index / max * min), k * min);
    InRange(address + k * min);
  }

  lemma Truncated(n: nat)
    ensures var index := Wrap32(0 + n % 0x1_0000_0000);
            index == n % 0x1_0000_0000 && (n >= TWO_32 ==> index + TWO_32 <= n) && (n < TWO_32 ==> index == n)
  {
  }

  /** With one operation per instruction: the operand as read is off by a few times 2^32. */
  lemma MisreadMisses(address: u64, n: nat, min: u8)
    requires 0x8000_0000 <= n < 0x8_0000_0000 && min > 0 && address + n * min < TWO_64
    ensures Wrap64(address + ReadBack(n) * min) != address + n * min
  {
    hide ReadBack, Wrap64;
    var d, carry := MisreadProduct(n, min);
    WrapsShort(address + n * min, d, carry);
  }

  lemma MisreadProduct(n: nat, min: u8) returns (d: nat, carry: int)
    requires 0x8000_0000 <= n < 0x8_0000_0000 && min > 0
    ensures 0 < d < TWO_64 && ReadBack(n) * min == n * min - d + carry * TWO_64
  {
    hide ReadBack;
    var m, c := ReadBackForm(n);
    MulMonotone(1, m, min);
    MulMonotone(m, 8, min);
    Expand(n, m, c, min);
    d, carry := 0x1_0000_0000 * (m * min), c * min;
  }

  lemma ReadBackForm(n: nat) returns (m: nat, carry: nat)
    requires 0x8000_0000 <= n < 0x8_0000_0000
    ensures 1 <= m <= 8 && ReadBack(n) == n - 0x1_0000_0000 * m + carry * TWO_64
  {
    m, carry := n / 0x1_0000_0000, 0;
    if n % 0x1_0000_0000 >= 0x8000_0000 {
      m, carry := m + 1, 1;
    }
  }

  lemma Expand(n: int, m: int, carry: int, min: int)
    ensures (n - 0x1_0000_0000 * m + carry * TWO_64) * min
         == n * min - 0x1_0000_0000 * (m * min) + carry * min * TWO_64
  {
  }

  lemma WrapsShort(x: u64, d: nat, carry: int)
    requires 0 < d < TWO_64
    ensures Wrap64(x - d + carry * TWO_64) != x
  {
  }

  /** `ops` written from state s append exactly `row` and leave the state behind it. */
  ghost predicate Writes(h: Header, ops: seq<Op>, s: LineState, row: Row) {
    AllEncodable(h, ops) && OpRows(h, ops, s) == [row] && StateAfter(h, ops, s) == StateBehind(row)
  }

  /** All registers but address and line have the row's values. */
  predicate Prepared(s: LineState, row: Row) {
    s == LineState(s.address, 0, row.file, s.line, row.column, row.isStmt, row.basicBlock, false, row.prologueEnd,
                   row.epilogueBegin, row.isa, row.discriminator)
    && !row.endSequence
  }

  lemma {:induction false} SpecialWritesRow(h: Header, s: LineState, row: Row)
    requires Divisible(h) && h.minInstructionLength > 0 && Prepared(s, row) && CanFollow(h, s.address, s.line, row)
    requires SpecialFits(h, s.address, s.line, row)
    ensures Writes(h, [Special(AdjustedOpcode(h, s.address, s.line, row))], s, row)
  {
    hide Advance, Wrap64, OperationsBetween;
    var adjusted := AdjustedOpcode(h, s.address, s.line, row);
    var n := OperationsBetween(h, s.address, row.address);
    NonNegative(h, s.address, row.address);
    var step := row.line - s.line - h.lineBase;
    assert h.lineRange * n == n * h.lineRange;
    QuotientIs(adjusted, h.lineRange, n, step);
    SmallQuotient(adjusted, h.lineRange);
    LandsOnRow(h, s, row);
    OneOp(h, Special(adjusted), s);
    assert OperationsOf(h, adjusted) == n && LineStepOf(h, adjusted) == step;
    assert Wrap32(s.line + h.lineBase + step) == row.line by { Small32(row.line); }
  }

  /** The opcodes behind `advance_pc`. */
  function LineAndCopy(line: u32, row: Row): seq<Op> {
    (if row.line != line then [AdvanceLine(row.line - line)] else []) + [Copy]
  }

  lemma {:induction false} LineAndCopyAppend(h: Header, s: LineState, row: Row)
    ensures OpRows(h, LineAndCopy(s.line, row), s) == [RowOf(s.(line := row.line))]
    ensures StateAfter(h, LineAndCopy(s.line, row), s) == AfterRow(s.(line := row.line))
  {
    hide OpRows, StateAfter;
    var line := if row.line != s.line then [AdvanceLine(row.line - s.line)] else [];
    if row.line != s.line {
      OneOp(h, AdvanceLine(row.line - s.line), s);
      Small32(row.line);
    } else {
      NoOps(h, s);
    }
    OneOp(h, Copy, s.(line := row.line));
    OpRowsAppend(h, line, [Copy], s);
  }

  /** The opcodes for a row no special opcode fits: the address is what `advance_pc` makes of its
      operand, everything else is as wanted. */
  lemma {:induction false} StandardAppends(h: Header, s: LineState, row: Row)
    requires Divisible(h) && h.minInstructionLength > 0 && Ahead(h, s.address, row) && FiveBytes(h, s.address, s.line, row)
    requires !SpecialFits(h, s.address, s.line, row)
    ensures var n := OperationsBetween(h, s.address, row.address);
            var ops := MoveAndAppend(h, s.address, s.line, row);
            && 0 <= n < 0x8_0000_0000 && AllEncodable(h, ops)
            && var t := (if n == 0 then s else Advance(h, s, ReadBack(n))).(line := row.line);
               OpRows(h, ops, s) == [RowOf(t)] && StateAfter(h, ops, s) == AfterRow(t)
  {
    hide Wrap64, Wrap32, OperationsBetween, SpecialFits, OpRows, StateAfter, ReadBack;
    var n := OperationsBetween(h, s.address, row.address);
    NonNegative(h, s.address, row.address);
    var pc := if n != 0 then [AdvancePc(n)] else [];
    var s1 := if n == 0 then s else Advance(h, s, ReadBack(n));
    if n != 0 {
      OneOp(h, AdvancePc(n), s);
    } else {
      NoOps(h, s);
    }
    LineAndCopyAppend(h, s1, row);
    OpRowsAppend(h, pc, LineAndCopy(s.line, row), s);
    assert MoveAndAppend(h, s.address, s.line, row) == pc + LineAndCopy(s.line, row);
  }

  /** They write the row exactly when `advance_pc` reaches it. */
  lemma {:induction false} StandardWritesExactly(h: Header, s: LineState, row: Row)
    requires Divisible(h) && h.minInstructionLength > 0 && Prepared(s, row)
    requires Ahead(h, s.address, row) && FiveBytes(h, s.address, s.line, row) && !SpecialFits(h, s.address, s.line, row)
    ensures Writes(h, MoveAndAppend(h, s.address, s.line, row), s, row) <==> AdvanceReaches(h, s.address, row)
  {
    hide Advance, OperationsBetween, SpecialFits, OpRows, StateAfter, ReadBack, AdvanceReaches, MoveAndAppend, AllEncodable;
    var n := OperationsBetween(h, s.address, row.address);
    StandardAppends(h, s, row);
    if AdvanceReaches(h, s.address, row) {
      if n == 0 {
        ZeroDistance(h, s.address, row.address);
      } else {
        LandsOnRow(h, s, row);
        AdvanceReached(h, s, row);
      }
    } else {
      MissesRow(h, s, row);
    }
  }

  /** `fixed_advance_pc` adds its operand as it is: with it a row less than 2^16 bytes ahead can be
      written for every header, whole instructions or not. */
  lemma {:induction false} FixedAdvanceWritesRow(h: Header, s: LineState, row: Row)
    requires Prepared(s.(opIndex := 0), row) && s.address <= row.address < s.address + 0x1_0000
    ensures Writes(h, [FixedAdvancePc(row.address - s.address)] + LineAndCopy(s.line, row), s, row)
  {
    hide Wrap64, OpRows, StateAfter;
    var op := FixedAdvancePc(row.address - s.address);
    InRange(row.address);
    OneOp(h, op, s);
    LineAndCopyAppend(h, s.(address := row.address, opIndex := 0), row);
    OpRowsAppend(h, [op], LineAndCopy(s.line, row), s);
  }

  lemma AdvanceReached(h: Header, s: LineState, row: Row)
    requires Divisible(h) && h.minInstructionLength > 0 && Ahead(h, s.address, row) && AdvanceReaches(h, s.address, row)
    ensures var n := OperationsBetween(h, s.address, row.address);
            n >= 0 && Advance(h, s, ReadBack(n)) == Advance(h, s, n)
  {
    hide Advance, OperationsBetween, ReadBack;
    NonNegative(h, s.address, row.address);
    AdvanceAsRead(h, s, OperationsBetween(h, s.address, row.address));
  }

  lemma NoOps(h: Header, s: LineState)
    ensures OpRows(h, [], s) == [] && StateAfter(h, [], s) == s
  {
  }

  lemma ZeroDistance(h: Header, from: u64, to: u64)
    requires Divisible(h) && h.minInstructionLength > 0 && from <= to && (to - from) % h.minInstructionLength == 0
    requires OperationsBetween(h, from, to) == 0
    ensures from == to
  {
    var k := (to - from) / h.minInstructionLength;
    Recompose(to - from, h.minInstructionLength);
    SmallQuotient(to - from, h.minInstructionLength);
    if k != 0 {
      MulGrows(k, h.maxOperations);
      assert false;
    }
  }

  /** One register opcode in front. */
  lemma {:induction false} WritesAfter(h: Header, op: Op, ops: seq<Op>, s: LineState, row: Row)
    requires Encodable(h, op) && !AppendsRow(op) && !op.AdvancePc?
    ensures Writes(h, [op] + ops, s, row) <==> Writes(h, ops, Apply(h, op, s), row)
  {
    hide Apply, Encodable;
    assert ([op] + ops)[1..] == ops;
    assert AllEncodable(h, [op] + ops) <==> AllEncodable(h, ops) by {
      if AllEncodable(h, [op] + ops) {
        assert forall k | 0 <= k < |ops| :: ops[k] == ([op] + ops)[k + 1];
      }
    }
  }

  /** The opcodes for one row append that row and nothing else, exactly when a special opcode fits
      or `advance_pc` reaches the row. */
  lemma {:induction false} EncodeRowWritesRow(h: Header, s: LineState, row: Row)
    requires Divisible(h) && h.minInstructionLength > 0 && Ready(s, row)
    requires Ahead(h, s.address, row) && FiveBytes(h, s.address, s.line, row)
    ensures Writes(h, EncodeRow(h, s, row), s, row) <==> CanFollow(h, s.address, s.line, row)
    decreases Differences(s, row)
  {
    hide Writes, MoveAndAppend, CanFollow, Ahead, FiveBytes, Apply, Differences, Encodable;
    var op := RegisterOpcode(s, row);
    if op == Nothing {
      MoveWritesRow(h, s, row);
    } else {
      RegisterSet(h, s, row);
      var t := Apply(h, op, s);
      EncodeRowWritesRow(h, t, row);
      WritesAfter(h, op, EncodeRow(h, t, row), s, row);
    }
  }

  lemma MoveWritesRow(h: Header, s: LineState, row: Row)
    requires Divisible(h) && h.minInstructionLength > 0 && Prepared(s, row)
    requires Ahead(h, s.address, row) && FiveBytes(h, s.address, s.line, row)
    ensures Writes(h, MoveAndAppend(h, s.address, s.line, row), s, row) <==> CanFollow(h, s.address, s.line, row)
  {
    hide Writes, OperationsBetween, SpecialFits, AdjustedOpcode, FiveBytes, AdvanceReaches;
    if SpecialFits(h, s.address, s.line, row) {
      SpecialWritesRow(h, s, row);
    } else {
      StandardWritesExactly(h, s, row);
    }
  }

  // -------------------------------------------------------------- the sequence

  /** The rows can be written one after the other from state s. */
  predicate Writable(h: Header, s: LineState, rows: seq<Row>)
    requires Divisible(h) && h.minInstructionLength > 0
    decreases |rows|
  {
    rows != [] ==>
      !rows[0].endSequence && CanFollow(h, s.address, s.line, rows[0]) && Writable(h, StateBehind(rows[0]), rows[1..])
  }

  predicate Clean(s: LineState) {
    s.opIndex == 0 && !s.endSequence && !s.basicBlock && !s.prologueEnd && !s.epilogueBegin
  }

  function EncodeRows(h: Header, s: LineState, rows: seq<Row>): seq<Op>
    requires Divisible(h) && h.minInstructionLength > 0 && Writable(h, s, rows) && Clean(s)
    decreases |rows|
  {
    if rows == [] then [] else EncodeRow(h, s, rows[0]) + EncodeRows(h, StateBehind(rows[0]), rows[1..])
  }

  lemma {:induction false} EncodeRowsWritesRows(h: Header, s: LineState, rows: seq<Row>)
    requires Divisible(h) && h.minInstructionLength > 0 && Writable(h, s, rows) && Clean(s)
    ensures var ops := EncodeRows(h, s, rows);
            && AllEncodable(h, ops) && OpRows(h, ops, s) == rows
            && StateAfter(h, ops, s) == if rows == [] then s else StateBehind(rows[|rows| - 1])
    decreases |rows|
  {
    hide EncodeRow, Encodable, OpRows, StateAfter, SpecialFits, OperationsBetween;
    if rows == [] {
      NoOps(h, s);
    } else {
      EncodeRowWritesRow(h, s, rows[0]);
      EncodeRowsWritesRows(h, StateBehind(rows[0]), rows[1..]);
      OpRowsAppend(h, EncodeRow(h, s, rows[0]), EncodeRows(h, StateBehind(rows[0]), rows[1..]), s);
    }
  }

  /** The registers at the start of a sequence, by section 6.2.2 of DWARF 5. */
  function StartRegisters(h: Header): LineState {
    LineState(address := 0, opIndex := 0, file := 1, line := 1, column := 0, isStmt := h.defaultIsStmt,
              basicBlock := false, endSequence := false, prologueEnd := false, epilogueBegin := false,
              isa := 0, discriminator := 0)
  }

  /** A sequence starts at its first address. */
  function StartState(h: Header, rows: seq<Row>): LineState {
    if rows == [] then StartRegisters(h) else StartRegisters(h).(address := rows[0].address)
  }

  predicate WritableSequence(h: Header, rows: seq<Row>)
    requires Divisible(h) && h.minInstructionLength > 0
  {
    && Writable(h, StartState(h, rows), rows)
    && (rows != [] ==> rows[0].address < Pow256(AddressWidth(h)))
  }

  function EncodeSequence(h: Header, rows: seq<Row>): seq<Op>
    requires Divisible(h) && h.minInstructionLength > 0 && WritableSequence(h, rows)
  {
    (if rows == [] then [] else [SetAddress(rows[0].address)]) + EncodeRows(h, StartState(h, rows), rows) + [EndSequence]
  }

  /** The end-of-sequence row: that of the last row without what a row clears, or of the start
      registers. */
  function EndRow(h: Header, rows: seq<Row>): Row {
    if rows == [] then
      Row(address := 0, file := 1, line := 1, column := 0, isStmt := h.defaultIsStmt, basicBlock := false,
          endSequence := true, prologueEnd := false, epilogueBegin := false, isa := 0, discriminator := 0)
    else
      var last := rows[|rows| - 1];
      Row(address := last.address, file := last.file, line := last.line, column := last.column, isStmt := last.isStmt,
          basicBlock := false, endSequence := true, prologueEnd := false, epilogueBegin := false, isa := last.isa,
          discriminator := 0)
  }

  lemma {:induction false} SequenceWritesRows(h: Header, rows: seq<Row>)
    requires Divisible(h) && h.minInstructionLength > 0 && WritableSequence(h, rows)
    ensures var ops := EncodeSequence(h, rows);
            && AllEncodable(h, ops) && OpRows(h, ops, StartRegisters(h)) == rows + [EndRow(h, rows)]
            && StateAfter(h, ops, StartRegisters(h)) == StartRegisters(h)
  {
    hide OpRows, StateAfter, EncodeRows, Writable;
    var s := StartRegisters(h);
    var start := if rows == [] then [] else [SetAddress(rows[0].address)];
    if rows == [] {
      NoOps(h, s);
    } else {
      OneOp(h, SetAddress(rows[0].address), s);
    }
    var t := StartState(h, rows);
    var body := EncodeRows(h, t, rows);
    EncodeRowsWritesRows(h, t, rows);
    var last := StateAfter(h, body, t);
    OneOp(h, EndSequence, last);
    OpRowsAppend(h, start, body, s);
    OpRowsAppend(h, start + body, [EndSequence], s);
  }

  // ----------------------------------------------------------- the whole table

  predicate WritableTable(h: Header, sequences: seq<seq<Row>>)
    requires Divisible(h) && h.minInstructionLength > 0
  {
    forall k | 0 <= k < |sequences| :: WritableSequence(h, sequences[k])
  }

  function EncodeTable(h: Header, sequences: seq<seq<Row>>): seq<Op>
    requires Divisible(h) && h.minInstructionLength > 0 && WritableTable(h, sequences)
    decreases |sequences|
  {
    if sequences == [] then [] else EncodeSequence(h, sequences[0]) + EncodeTable(h, sequences[1..])
  }

  /** The rows of every sequence, each followed by its end-of-sequence row. */
  function TableRows(h: Header, sequences: seq<seq<Row>>): seq<Row>
    decreases |sequences|
  {
    if sequences == [] then [] else sequences[0] + [EndRow(h, sequences[0])] + TableRows(h, sequences[1..])
  }

  lemma {:induction false} TableWritesRows(h: Header, sequences: seq<seq<Row>>)
    requires Divisible(h) && h.minInstructionLength > 0 && WritableTable(h, sequences)
    ensures AllEncodable(h, EncodeTable(h, sequences))
    ensures OpRows(h, EncodeTable(h, sequences), StartRegisters(h)) == TableRows(h, sequences)
    decreases |sequences|
  {
    hide OpRows, StateAfter, EncodeSequence, WritableSequence, EndRow, StartRegisters, Encodable;
    if sequences == [] {
      NoOps(h, StartRegisters(h));
    } else {
      SequenceWritesRows(h, sequences[0]);
      TableWritesRows(h, sequences[1..]);
      OpRowsAppend(h, EncodeSequence(h, sequences[0]), EncodeTable(h, sequences[1..]), StartRegisters(h));
    }
  }

  /** Round trip: for any list of sequences, each of rows with non-decreasing addresses within the
      limits above, the bytes of the encoding, behind any header bytes, make the opcode loop emit
      exactly the rows of every sequence and its end-of-sequence row. */
  lemma {:induction false} LineTableRoundTrip(h: Header, sequences: seq<seq<Row>>, before: seq<u8>)
    requires Divisible(h) && h.minInstructionLength > 0 && h.opcodeBase >= 13 && WritableTable(h, sequences)
    ensures AllEncodable(h, EncodeTable(h, sequences))
    ensures var ins := before + AssembleAll(h, EncodeTable(h, sequences));
            |ins| < TWO_64 ==>
            && Terminates(h, ins, |before|) && DefinedIn(h, ins, |before|, |ins|)
            && Rows(h, ins, |before|, Initial(h)) == TableRows(h, sequences)
  {
    hide EncodeTable, OpRows, RowsIn, NextOpcode, OffsetAfter, DefinedIn;
    TableWritesRows(h, sequences);
    var ops := EncodeTable(h, sequences);
    var code := AssembleAll(h, ops);
    var ins := before + code;
    assert ins[|before|..|before| + |code|] == code;
    DivisorsSuffice(h, ins, |before|, |ins|);
    if |ins| < TWO_64 {
      LoopRunsOpcodes(h, ins, |before|, ops, Initial(h), |ins|);
    }
  }

  /** The limit on operands is not the encoder's: an `advance_pc` of 2^31, correctly encoded, is
      read as a number of which the upper half is set. */
  lemma {:induction false} LargeAdvanceIsMisread(h: Header)
    requires h.opcodeBase >= 13
    ensures [2] + EncodeUnsigned(0x8000_0000) == [2, 0x80, 0x80, 0x80, 0x80, 0x08]
    ensures Fetch(h, [2, 0x80, 0x80, 0x80, 0x80, 0x08], 0) == Some(Fetched(AdvancePc(0xffff_ffff_8000_0000), 6))
  {
    hide IntDigits, Digits;
    assert EncodeUnsigned(8) == [8] && EncodeUnsigned(0x400) == [0x80, 8] && EncodeUnsigned(0x2_0000) == [0x80, 0x80, 8];
    assert EncodeUnsigned(0x100_0000) == [0x80, 0x80, 0x80, 8];
    LineUnsignedFailsAfter(2);
  }

  lemma {:induction false} LineUnsignedFailsAfter(first: u8)
    ensures LineUnsigned([first, 0x80, 0x80, 0x80, 0x80, 0x08], 1) == Decoded(0xffff_ffff_8000_0000, 6)
  {
    var bytes: seq<u8> := [first, 0x80, 0x80, 0x80, 0x80, 0x08];
    assert Length(bytes, 5) == Some(1);
    assert Length(bytes, 4) == Some(2);
    assert Length(bytes, 3) == Some(3);
    assert Length(bytes, 2) == Some(4);
    assert Length(bytes, 1) == Some(5);
    assert IntDigits(bytes, 1, 0) == 0;
    assert IntDigits(bytes, 1, 1) == 0 by { FourGroups(0); }
    assert IntDigits(bytes, 1, 2) == 0 by { FourGroups(0); }
    assert IntDigits(bytes, 1, 3) == 0 by { FourGroups(0); }
    assert IntDigits(bytes, 1, 4) == 0 by { FourGroups(0); }
  }
}
