/** The opcode loop of `parseLineNumberProgram` (src/attribute_parser.cpp): the line-number state
    machine of section 6.2 of DWARF 5. */
module LineProgram {
  import opened Words
  import opened Quotients
  import opened Leb128
  import opened ByteOrder
  import opened LineReaders
  import opened OffsetRuns

  datatype Header = Header(
    minInstructionLength: u8, maxOperations: u8, defaultIsStmt: bool, lineBase: int, lineRange: u8, opcodeBase: u8,
    opcodeLengths: seq<u8>, addressSize: u8, littleEndian: bool)

  /** The divisors of the state machine are not zero. */
  predicate Divisible(h: Header) {
    h.maxOperations > 0 && h.lineRange > 0
  }

  datatype LineState = LineState(
    address: u64, opIndex: u32, file: u32, line: u32, column: u32, isStmt: bool, basicBlock: bool, endSequence: bool,
    prologueEnd: bool, epilogueBegin: bool, isa: u32, discriminator: u32)

  datatype Row = Row(
    address: u64, file: u32, line: u32, column: u32, isStmt: bool, basicBlock: bool, endSequence: bool,
    prologueEnd: bool, epilogueBegin: bool, isa: u32, discriminator: u32)

  function Initial(h: Header): LineState {
    LineState(0, 0, 1, 1, 0, h.defaultIsStmt, false, false, false, false, 0, 0)
  }

  function RowOf(s: LineState): Row {
    Row(s.address, s.file, s.line, s.column, s.isStmt, s.basicBlock, s.endSequence, s.prologueEnd, s.epilogueBegin,
        s.isa, s.discriminator)
  }

  function AfterRow(s: LineState): LineState {
    s.(basicBlock := false, prologueEnd := false, epilogueBegin := false, discriminator := 0)
  }

  datatype Op =
    | Special(adjusted: u8)
    | Copy
    | AdvancePc(operand: u64)
    | AdvanceLine(delta: int)
    | SetFile(file: u32)
    | SetColumn(column: u32)
    | NegateStmt
    | SetBasicBlock
    | ConstAddPc
    | FixedAdvancePc(distance: u16)
    | SetPrologueEnd
    | SetEpilogueBegin
    | SetIsa(isa: u32)
    | EndSequence
    | SetAddress(target: u64)
    | SetDiscriminator(value: u32)
    | Nothing

  /** `adjusted_opcode / line_range` and `adjusted_opcode % line_range`. */
  function OperationsOf(h: Header, adjusted: u8): (q: u8) {
    if h.lineRange == 0 then 0
    else
      SmallQuotient(adjusted, h.lineRange);
      adjusted / h.lineRange
  }

  function LineStepOf(h: Header, adjusted: u8): (r: u8) {
    if h.lineRange == 0 then 0 else adjusted % h.lineRange
  }

  /** Advancing by a number of operations. With more than one operation per instruction the
      arithmetic is carried out in 32 bits. Where the program would divide by zero nothing changes
      here, and its methods below do not get there. */
  function Advance(h: Header, s: LineState, operations: u64): LineState {
    if h.maxOperations == 1 then
      s.(address := Wrap64(s.address + operations * h.minInstructionLength))
    else if h.maxOperations == 0 then s
    else
      var index := Wrap32(s.opIndex + Wrap32(operations));
      s.(address := Wrap64(s.address + Wrap32(index / h.maxOperations * h.minInstructionLength)),
         opIndex := index % h.maxOperations)
  }

  /** The divisions of an opcode have nonzero divisors. */
  predicate Defined(h: Header, op: Op) {
    match op
    case Special(_) => Divisible(h)
    case ConstAddPc => Divisible(h)
    case AdvancePc(_) => h.maxOperations > 0
    case _ => true
  }

  /** The state after an opcode, before a row is appended. */
  function Apply(h: Header, op: Op, s: LineState): LineState {
    match op
    case Special(adjusted) =>
      Advance(h, s, OperationsOf(h, adjusted)).(line := Wrap32(s.line + h.lineBase + LineStepOf(h, adjusted)))
    case AdvancePc(operand) => Advance(h, s, operand)
    case ConstAddPc => Advance(h, s, OperationsOf(h, 255 - h.opcodeBase))
    case AdvanceLine(delta) => s.(line := Wrap32(s.line + delta))
    case SetFile(file) => s.(file := file)
    case SetColumn(column) => s.(column := column)
    case NegateStmt => s.(isStmt := !s.isStmt)
    case SetBasicBlock => s.(basicBlock := true)
    case FixedAdvancePc(delta) => s.(address := Wrap64(s.address + delta), opIndex := 0)
    case SetPrologueEnd => s.(prologueEnd := true)
    case SetEpilogueBegin => s.(epilogueBegin := true)
    case SetIsa(isa) => s.(isa := isa)
    case EndSequence => s.(endSequence := true)
    case SetAddress(target) => s.(address := target, opIndex := 0)
    case SetDiscriminator(value) => s.(discriminator := value)
    case Copy | Nothing => s
  }

  predicate AppendsRow(op: Op) {
    op.Special? || op.Copy? || op.EndSequence?
  }

  /** The state the next opcode starts from. */
  function Next(h: Header, op: Op, s: LineState): LineState {
    if op.EndSequence? then Initial(h)
    else if AppendsRow(op) then AfterRow(Apply(h, op, s))
    else Apply(h, op, s)
  }

  function RowsOf(h: Header, op: Op, s: LineState): seq<Row> {
    if AppendsRow(op) then [RowOf(Apply(h, op, s))] else []
  }

  // ------------------------------------------------------------------ decoding

  datatype Fetched = Fetched(op: Op, next: nat)

  /** `readU16` and its companions: zero, without moving, when the bytes are not all there. */
  function LineFixed(h: Header, ins: seq<u8>, off: nat, n: nat): Decoded<u64> {
    if off + n <= |ins| then Decoded(Wrap64(FixedWidth(ins, off, n, h.littleEndian)), off + n) else Decoded(0, off)
  }

  /** Operands of an unknown standard opcode. */
  function SkipUnsigned(ins: seq<u8>, off: nat, count: nat): nat
    decreases count
  {
    if count == 0 then off else SkipUnsigned(ins, LineUnsigned(ins, off).next, count - 1)
  }

  function FetchStandard(h: Header, ins: seq<u8>, opcode: u8, off: nat): Fetched
    requires opcode > 0
  {
    match opcode
    case 1 => Fetched(Copy, off)
    case 2 => var a := LineUnsigned(ins, off); Fetched(AdvancePc(a.value), a.next)
    case 3 => var a := LineSigned(ins, off); Fetched(AdvanceLine(a.value), a.next)
    case 4 => var a := LineUnsigned(ins, off); Fetched(SetFile(Wrap32(a.value)), a.next)
    case 5 => var a := LineUnsigned(ins, off); Fetched(SetColumn(Wrap32(a.value)), a.next)
    case 6 => Fetched(NegateStmt, off)
    case 7 => Fetched(SetBasicBlock, off)
    case 8 => Fetched(ConstAddPc, off)
    case 9 => var a := LineFixed(h, ins, off, 2); Fetched(FixedAdvancePc(a.value % 0x1_0000), a.next)
    case 10 => Fetched(SetPrologueEnd, off)
    case 11 => Fetched(SetEpilogueBegin, off)
    case 12 => var a := LineUnsigned(ins, off); Fetched(SetIsa(Wrap32(a.value)), a.next)
    case _ =>
      Fetched(Nothing, if opcode - 1 < |h.opcodeLengths| then SkipUnsigned(ins, off, h.opcodeLengths[opcode - 1]) else off)
  }

  /** Behind the zero byte: a length, a sub-opcode, operands. The end is computed in 64 bits. None
      leaves the loop. */
  function FetchExtended(h: Header, ins: seq<u8>, off: nat): Option<Fetched> {
    var len := LineUnsigned(ins, off);
    var end := Wrap64(len.next + len.value);
    if end > |ins| || len.next >= |ins| then None
    else
      var at := len.next + 1;
      match ins[len.next]
      case 1 => Some(Fetched(EndSequence, Max(at, end)))
      case 2 =>
        var a := LineFixed(h, ins, at, if h.addressSize == 8 then 8 else 4);
        Some(Fetched(SetAddress(a.value), Max(a.next, end)))
      case 3 => Some(Fetched(Nothing, Max(at, end)))
      case 4 =>
        var a := LineUnsigned(ins[..end], at);
        Some(Fetched(SetDiscriminator(Wrap32(a.value)), Max(a.next, end)))
      case _ => Some(Fetched(Nothing, end))
  }

  function Fetch(h: Header, ins: seq<u8>, off: nat): Option<Fetched>
    requires off < |ins|
  {
    var opcode := ins[off];
    if opcode == 0 then FetchExtended(h, ins, off + 1)
    else if opcode < h.opcodeBase then Some(FetchStandard(h, ins, opcode, off + 1))
    else Some(Fetched(Special(opcode - h.opcodeBase), off + 1))
  }

  /** Where the loop reads its next opcode; leaving the loop counts as reaching the end. The state
      registers have no influence on it. */
  function NextOpcode(h: Header, ins: seq<u8>): nat -> nat {
    (off: nat) =>
      if off >= |ins| then off
      else
        match Fetch(h, ins, off)
        case None => |ins|
        case Some(f) => f.next
  }

  /** The rows of the next k rounds. */
  function RowsIn(h: Header, ins: seq<u8>, off: nat, s: LineState, k: nat): seq<Row>
    decreases k
  {
    if k == 0 || off >= |ins| then []
    else
      match Fetch(h, ins, off)
      case None => []
      case Some(f) => RowsOf(h, f.op, s) + RowsIn(h, ins, f.next, Next(h, f.op, s), k - 1)
  }

  /** All opcodes executed in the next k rounds are defined. */
  predicate DefinedIn(h: Header, ins: seq<u8>, off: nat, k: nat)
    decreases k
  {
    k > 0 && off < |ins| ==>
      match Fetch(h, ins, off)
      case None => true
      case Some(f) => Defined(h, f.op) && DefinedIn(h, ins, f.next, k - 1)
  }

  lemma {:induction false} DivisorsSuffice(h: Header, ins: seq<u8>, off: nat, k: nat)
    requires Divisible(h)
    ensures DefinedIn(h, ins, off, k)
    decreases k
  {
    hide Fetch;
    if k > 0 && off < |ins| && Fetch(h, ins, off).Some? {
      DivisorsSuffice(h, ins, Fetch(h, ins, off).value.next, k - 1);
    }
  }

  /** The opcode loop ends. */
  ghost predicate Terminates(h: Header, ins: seq<u8>, off: nat) {
    Ends(NextOpcode(h, ins), |ins|, off)
  }

  /** The rows of the program from `off` on. A loop that ends takes no more rounds than the unit
      has bytes. */
  function Rows(h: Header, ins: seq<u8>, off: nat, s: LineState): seq<Row> {
    RowsIn(h, ins, off, s, |ins|)
  }

  // -------------------------------------------------------------- termination

  /** The opcode at `off` is an extended one that the loop does not know, and the end its length
      gives, computed in 64 bits, is not behind `off`. */
  predicate WrapsBack(h: Header, ins: seq<u8>, off: nat)
    requires off < |ins|
  {
    var len := LineUnsigned(ins, off + 1);
    ins[off] == 0 && len.next < |ins| && ins[len.next] !in {1, 2, 3, 4} && Wrap64(len.next + len.value) <= off
  }

  lemma ReadersAdvance(ins: seq<u8>, off: nat)
    ensures LineUnsigned(ins, off).next >= off && LineSigned(ins, off).next >= off
  {
  }

  lemma {:induction false} SkipAdvances(ins: seq<u8>, off: nat, count: nat)
    ensures SkipUnsigned(ins, off, count) >= off
    decreases count
  {
    hide LineUnsigned;
    if count > 0 {
      ReadersAdvance(ins, off);
      SkipAdvances(ins, LineUnsigned(ins, off).next, count - 1);
    }
  }

  lemma StandardAdvances(h: Header, ins: seq<u8>, opcode: u8, off: nat)
    requires opcode > 0
    ensures FetchStandard(h, ins, opcode, off).next >= off
  {
    hide LineUnsigned, LineSigned;
    ReadersAdvance(ins, off);
    if opcode > 12 && opcode - 1 < |h.opcodeLengths| {
      SkipAdvances(ins, off, h.opcodeLengths[opcode - 1]);
    }
  }

  /** The guard: one round moves forward exactly when no such end wraps back. */
  lemma AdvancesExactly(h: Header, ins: seq<u8>, off: nat)
    requires off < |ins| < TWO_64
    ensures off < NextOpcode(h, ins)(off) <==> !WrapsBack(h, ins, off)
  {
    hide LineUnsigned, LineSigned, LineFixed, FetchStandard, Wrap64;
    ReadersAdvance(ins, off + 1);
    if ins[off] == 0 {
      ExtendedAdvances(h, ins, off);
    } else if ins[off] < h.opcodeBase {
      StandardAdvances(h, ins, ins[off], off + 1);
    }
  }

  lemma ExtendedAdvances(h: Header, ins: seq<u8>, off: nat)
    requires off < |ins| < TWO_64 && ins[off] == 0
    ensures match FetchExtended(h, ins, off + 1)
            case None => !WrapsBack(h, ins, off)
            case Some(f) => off < f.next <==> !WrapsBack(h, ins, off)
  {
    hide LineUnsigned, Wrap64, FixedWidth;
    ReadersAdvance(ins, off + 1);
    var len := LineUnsigned(ins, off + 1);
    var end := Wrap64(len.next + len.value);
    if end <= |ins| {
      ReadersAdvance(ins[..end], len.next + 1);
    }
  }

  /** The loop ends exactly when it reads no opcode twice ... */
  lemma TerminatesExactly(h: Header, ins: seq<u8>, off: nat)
    ensures Terminates(h, ins, off) <==> NoOffsetTwice(NextOpcode(h, ins), |ins|, off)
    ensures Terminates(h, ins, off) <==> OffsetAfter(NextOpcode(h, ins), |ins|, off, |ins|) >= |ins|
  {
    EndsExactly(NextOpcode(h, ins), |ins|, off);
  }

  /** ... and in particular when no length it meets wraps back. */
  lemma NoWrapTerminates(h: Header, ins: seq<u8>, off: nat)
    requires |ins| < TWO_64
    requires forall k: nat | OffsetAfter(NextOpcode(h, ins), |ins|, off, k) < |ins| ::
               !WrapsBack(h, ins, OffsetAfter(NextOpcode(h, ins), |ins|, off, k))
    ensures Terminates(h, ins, off)
  {
    hide OffsetAfter, WrapsBack, NextOpcode;
    var next := NextOpcode(h, ins);
    forall k: nat | OffsetAfter(next, |ins|, off, k) < |ins|
      ensures OffsetAfter(next, |ins|, off, k) < next(OffsetAfter(next, |ins|, off, k))
    {
      AdvancesExactly(h, ins, OffsetAfter(next, |ins|, off, k));
    }
    AdvancingEnds(next, |ins|, off);
  }

  /** With every header the loop stands still on this unit: the int shift turns the five-byte
      length into 2^64 - 6, and the unknown extended opcode goes to where that ends. */
  lemma WrappingLengthLoops(h: Header)
    ensures var ins := [0x00, 0xfa, 0xff, 0xff, 0xff, 0x0f, 0x80];
            NextOpcode(h, ins)(0) == 0 && !Terminates(h, ins, 0)
  {
    var ins: seq<u8> := [0x00, 0xfa, 0xff, 0xff, 0xff, 0x0f, 0x80];
    MisreadLength(ins);
    hide LineUnsigned;
    var next := NextOpcode(h, ins);
    assert next(0) == 0;
    assert OffsetAfter(next, 7, 0, 0) == OffsetAfter(next, 7, 0, 1) == 0;
    EndsExactly(next, 7, 0);
  }

  lemma MisreadLength(ins: seq<u8>)
    requires ins == [0x00, 0xfa, 0xff, 0xff, 0xff, 0x0f, 0x80]
    ensures LineUnsigned(ins, 1) == Decoded(TWO_64 - 6, 6)
  {
    assert Length(ins, 5) == Some(1) && Length(ins, 4) == Some(2) && Length(ins, 3) == Some(3);
    assert Length(ins, 2) == Some(4) && Length(ins, 1) == Some(5);
    assert IntDigits(ins, 1, 0) == 0;
    assert Shl7(0x7f, 1) == 0x3f80;
    assert Shl7(0x7f, 2) == 0x1f_c000;
    assert Shl7(0x7f, 3) == 0xfe0_0000;
    assert IntDigits(ins, 1, 1) == 0x7a;
    assert IntDigits(ins, 1, 2) == 0x3ffa;
    assert IntDigits(ins, 1, 3) == 0x1f_fffa;
    assert IntDigits(ins, 1, 4) == 0xfff_fffa;
    assert IntDigits(ins, 1, 5) == TWO_64 - 6;
  }

  // ------------------------------------------------------------ implementation

  /** The state registers and the line table, updated in place. */
  class LineMachine {
    const header: Header
    var state: LineState
    var lines: seq<Row>

    constructor (h: Header)
      ensures header == h && state == Initial(h) && lines == []
    {
      header, state, lines := h, Initial(h), [];
    }

    method AppendRow()
      modifies this
      ensures lines == old(lines) + [RowOf(old(state))] && state == AfterRow(old(state))
    {
      lines := lines + [RowOf(state)];
      state := state.(basicBlock := false);
      state := state.(prologueEnd := false);
      state := state.(epilogueBegin := false);
      state := state.(discriminator := 0);
    }

    method AdvanceOperations(operations: u64)
      requires header.maxOperations > 0
      modifies this`state
      ensures state == Advance(header, old(state), operations)
    {
      if header.maxOperations == 1 {
        state := state.(address := Wrap64(state.address + operations * header.minInstructionLength));
      } else {
        var index := Wrap32(state.opIndex + Wrap32(operations));
        state := state.(address := Wrap64(state.address + Wrap32(index / header.maxOperations * header.minInstructionLength)));
        state := state.(opIndex := index % header.maxOperations);
      }
    }

    method Execute(op: Op)
      requires Defined(header, op)
      modifies this
      ensures state == Next(header, op, old(state)) && lines == old(lines) + RowsOf(header, op, old(state))
    {
      hide Advance, OperationsOf, LineStepOf, Wrap64, Wrap32;
      match op
      case Special(adjusted) =>
        var line := state.line;
        AdvanceOperations(OperationsOf(header, adjusted));
        state := state.(line := Wrap32(line + header.lineBase + LineStepOf(header, adjusted)));
        AppendRow();
      case Copy =>
        AppendRow();
      case AdvancePc(operand) =>
        AdvanceOperations(operand);
      case ConstAddPc =>
        AdvanceOperations(OperationsOf(header, 255 - header.opcodeBase));
      case AdvanceLine(delta) =>
        state := state.(line := Wrap32(state.line + delta));
      case SetFile(file) =>
        state := state.(file := file);
      case SetColumn(column) =>
        state := state.(column := column);
      case NegateStmt =>
        state := state.(isStmt := !state.isStmt);
      case SetBasicBlock =>
        state := state.(basicBlock := true);
      case FixedAdvancePc(delta) =>
        state := state.(address := Wrap64(state.address + delta), opIndex := 0);
      case SetPrologueEnd =>
        state := state.(prologueEnd := true);
      case SetEpilogueBegin =>
        state := state.(epilogueBegin := true);
      case SetIsa(isa) =>
        state := state.(isa := isa);
      case EndSequence =>
        state := state.(endSequence := true);
        AppendRow();
        state := Initial(header);
      case SetAddress(target) =>
        state := state.(address := target, opIndex := 0);
      case SetDiscriminator(value) =>
        state := state.(discriminator := value);
      case Nothing =>
    }

    /** The opcode loop over the unit whose bytes end with `ins`. */
    method Process(ins: seq<u8>, headerEnd: nat)
      requires Terminates(header, ins, headerEnd) && DefinedIn(header, ins, headerEnd, |ins|)
      modifies this
      ensures lines == old(lines) + Rows(header, ins, headerEnd, old(state))
    {
      hide Fetch, RowsOf, Next, Terminates, Defined;
      var offset: nat := headerEnd;
      TerminatesExactly(header, ins, headerEnd);
      ghost var rounds: nat := |ins|;
      while offset < |ins|
        invariant OffsetAfter(NextOpcode(header, ins), |ins|, offset, rounds) >= |ins|
        invariant DefinedIn(header, ins, offset, rounds)
        invariant lines + RowsIn(header, ins, offset, state, rounds) == old(lines) + Rows(header, ins, headerEnd, old(state))
        decreases rounds
      {
        rounds := rounds - 1;
        var fetched := FetchAt(ins, offset);
        if fetched == None {
          break;
        }
        Execute(fetched.value.op);
        offset := fetched.value.next;
      }
    }

    /** The opcode at `offset` with its operands. */
    method FetchAt(ins: seq<u8>, offset: nat) returns (r: Option<Fetched>)
      requires offset < |ins|
      ensures r == Fetch(header, ins, offset)
    {
      hide FetchStandard, FetchExtended;
      var opcode := ins[offset];
      if opcode == 0 {
        r := FetchExtendedAt(ins, offset + 1);
      } else if opcode < header.opcodeBase {
        var f := FetchStandardAt(ins, opcode, offset + 1);
        r := Some(f);
      } else {
        r := Some(Fetched(Special(opcode - header.opcodeBase), offset + 1));
      }
    }

    method FetchExtendedAt(ins: seq<u8>, offset: nat) returns (r: Option<Fetched>)
      ensures r == FetchExtended(header, ins, offset)
    {
      hide LineUnsigned, Wrap64;
      var len := ReadLineUnsigned(ins, offset);
      var end := Wrap64(len.next + len.value);
      if end > |ins| || len.next >= |ins| {
        return None;
      }
      var opcode, at := ins[len.next], len.next + 1;
      var op := Nothing;
      match opcode {
        case 1 =>
          op := EndSequence;
        case 2 =>
          var width := if header.addressSize == 8 then 8 else 4;
          var a := ReadFixed(ins, at, width);
          op, at := SetAddress(a.value), a.next;
        case 3 =>
        case 4 =>
          var a := ReadLineUnsigned(ins[..end], at);
          op, at := SetDiscriminator(Wrap32(a.value)), a.next;
        case _ =>
          at := end;
      }
      if at < end {
        at := end;
      }
      return Some(Fetched(op, at));
    }

    method ReadFixed(ins: seq<u8>, offset: nat, width: nat) returns (r: Decoded<u64>)
      ensures r == LineFixed(header, ins, offset, width)
    {
      if offset + width > |ins| {
        return Decoded(0, offset);
      }
      return Decoded(Wrap64(FixedWidth(ins, offset, width, header.littleEndian)), offset + width);
    }

    method FetchStandardAt(ins: seq<u8>, opcode: u8, offset: nat) returns (r: Fetched)
      requires opcode > 0
      ensures r == FetchStandard(header, ins, opcode, offset)
    {
      hide LineUnsigned, LineSigned, LineFixed;
      match opcode
      case 1 =>
        return Fetched(Copy, offset);
      case 2 =>
        var a := ReadLineUnsigned(ins, offset);
        return Fetched(AdvancePc(a.value), a.next);
      case 3 =>
        var a := ReadLineSigned(ins, offset);
        return Fetched(AdvanceLine(a.value), a.next);
      case 4 =>
        var a := ReadLineUnsigned(ins, offset);
        return Fetched(SetFile(Wrap32(a.value)), a.next);
      case 5 =>
        var a := ReadLineUnsigned(ins, offset);
        return Fetched(SetColumn(Wrap32(a.value)), a.next);
      case 6 =>
        return Fetched(NegateStmt, offset);
      case 7 =>
        return Fetched(SetBasicBlock, offset);
      case 8 =>
        return Fetched(ConstAddPc, offset);
      case 9 =>
        var a := ReadFixed(ins, offset, 2);
        return Fetched(FixedAdvancePc(a.value % 0x1_0000), a.next);
      case 10 =>
        return Fetched(SetPrologueEnd, offset);
      case 11 =>
        return Fetched(SetEpilogueBegin, offset);
      case 12 =>
        var a := ReadLineUnsigned(ins, offset);
        return Fetched(SetIsa(Wrap32(a.value)), a.next);
      case _ =>
        var at := offset;
        if opcode - 1 < |header.opcodeLengths| {
          at := SkipOperands(ins, offset, header.opcodeLengths[opcode - 1]);
        }
        return Fetched(Nothing, at);
    }

    /** Skips the operands of an unknown standard opcode. */
    method SkipOperands(ins: seq<u8>, offset: nat, count: nat) returns (at: nat)
      ensures at == SkipUnsigned(ins, offset, count)
    {
      hide LineUnsigned;
      at := offset;
      for i := 0 to count
        invariant SkipUnsigned(ins, at, count - i) == SkipUnsigned(ins, offset, count)
      {
        var a := ReadLineUnsigned(ins, at);
        at := a.next;
      }
    }
  }

  /** The line table of a unit: a machine in its initial state runs over the opcodes. */
  method ReadLineTable(h: Header, ins: seq<u8>, headerEnd: nat) returns (lines: seq<Row>)
    requires Terminates(h, ins, headerEnd) && DefinedIn(h, ins, headerEnd, |ins|)
    ensures lines == Rows(h, ins, headerEnd, Initial(h))
  {
    var machine := new LineMachine(h);
    machine.Process(ins, headerEnd);
    lines := machine.lines;
  }

  // ------------------------------------------------- the op_index invariant

  /** The state after a list of opcodes. */
  function After(h: Header, ops: seq<Op>, s: LineState): LineState
    decreases |ops|
  {
    if ops == [] then s else After(h, ops[1..], Next(h, ops[0], s))
  }

  /** op_index stays below max_operations, whatever the program does. */
  lemma {:induction false} OpIndexBounded(h: Header, ops: seq<Op>, s: LineState)
    requires Divisible(h) && s.opIndex < h.maxOperations
    ensures After(h, ops, s).opIndex < h.maxOperations
    decreases |ops|
  {
    hide Next;
    if ops != [] {
      NextKeepsOpIndex(h, ops[0], s);
      OpIndexBounded(h, ops[1..], Next(h, ops[0], s));
    }
  }

  lemma NextKeepsOpIndex(h: Header, op: Op, s: LineState)
    requires Divisible(h) && s.opIndex < h.maxOperations
    ensures Next(h, op, s).opIndex < h.maxOperations
  {
    hide Advance, Wrap64, Wrap32, OperationsOf, LineStepOf;
    AdvanceKeepsOpIndex(h, s, OperationAdvance(h, op));
  }

  lemma AdvanceKeepsOpIndex(h: Header, s: LineState, n: u64)
    requires Divisible(h) && s.opIndex < h.maxOperations
    ensures Advance(h, s, n).opIndex < h.maxOperations
  {
    hide Wrap64, Wrap32;
  }

  // ---------------------------------------------- conservation of operations

  /** Operations an opcode advances by. */
  function OperationAdvance(h: Header, op: Op): u64 {
    match op
    case Special(adjusted) => OperationsOf(h, adjusted)
    case AdvancePc(operand) => operand
    case ConstAddPc => OperationsOf(h, 255 - h.opcodeBase)
    case _ => 0
  }

  predicate Resets(op: Op) {
    op.SetAddress? || op.FixedAdvancePc? || op.EndSequence?
  }

  /** The 32-bit arithmetic of `advance_pc` does not overflow: a test on the operand and on the
      state before the opcode. With one operation per instruction there is nothing to test. */
  predicate Fits(h: Header, s: LineState, op: Op)
    requires h.maxOperations > 0
  {
    op.AdvancePc? && h.maxOperations != 1 ==>
      && s.opIndex + op.operand < TWO_32
      && (s.opIndex + op.operand) / h.maxOperations * h.minInstructionLength < TWO_32
  }

  /** The state `n` operations further on, by the formulas of section 6.2.5.1 of DWARF 5. */
  function Moved(h: Header, s: LineState, n: nat): (u64, int)
    requires h.maxOperations > 0
  {
    (Wrap64(s.address + (s.opIndex + n) / h.maxOperations * h.minInstructionLength), (s.opIndex + n) % h.maxOperations)
  }

  lemma {:induction false} AdvanceIsMove(h: Header, s: LineState, n: u64)
    requires Divisible(h) && s.opIndex < h.maxOperations
    requires n < 0x100 || Fits(h, s, AdvancePc(n))
    ensures (Advance(h, s, n).address, Advance(h, s, n).opIndex) == Moved(h, s, n)
  {
    hide Wrap64;
    if h.maxOperations == 1 {
      QuotientIs(n, 1, n, 0);
    } else if n < 0x100 {
      var q := (s.opIndex + n) / h.maxOperations;
      SmallQuotient(s.opIndex + n, h.maxOperations);
      MulMonotone(q, 0x200, h.minInstructionLength);
      Small32(q * h.minInstructionLength);
      Small32(s.opIndex + n);
      Small32(n);
    } else {
      SmallQuotient(s.opIndex + n, h.maxOperations);
      MulMonotone(0, (s.opIndex + n) / h.maxOperations, h.minInstructionLength);
      Small32((s.opIndex + n) / h.maxOperations * h.minInstructionLength);
      Small32(s.opIndex + n);
      Small32(n);
    }
  }

  lemma {:induction false} OpMoves(h: Header, s: LineState, op: Op)
    requires Divisible(h) && s.opIndex < h.maxOperations && !Resets(op) && Fits(h, s, op)
    ensures (Next(h, op, s).address, Next(h, op, s).opIndex) == Moved(h, s, OperationAdvance(h, op))
  {
    hide Advance, Wrap64, Wrap32, OperationsOf, LineStepOf, Moved, Fits;
    AdvanceIsMove(h, s, OperationAdvance(h, op)) by {
      if !op.AdvancePc? {
        SmallAdvance(h, op);
      }
    }
    if OperationAdvance(h, op) == 0 {
      NoMove(h, s);
    }
  }

  lemma SmallAdvance(h: Header, op: Op)
    requires Divisible(h) && !op.AdvancePc?
    ensures OperationAdvance(h, op) < 0x100
  {
    hide OperationsOf;
  }

  lemma NoMove(h: Header, s: LineState)
    requires Divisible(h) && s.opIndex < h.maxOperations
    ensures Moved(h, s, 0) == (s.address, s.opIndex)
  {
    QuotientIs(s.opIndex, h.maxOperations, 0, s.opIndex);
  }

  function TotalAdvance(h: Header, ops: seq<Op>): nat
    decreases |ops|
  {
    if ops == [] then 0 else OperationAdvance(h, ops[0]) + TotalAdvance(h, ops[1..])
  }

  /** A run between resets on which no `advance_pc` overflows. */
  predicate RunFits(h: Header, ops: seq<Op>, s: LineState)
    requires h.maxOperations > 0
    decreases |ops|
  {
    ops != [] ==> !Resets(ops[0]) && Fits(h, s, ops[0]) && RunFits(h, ops[1..], Next(h, ops[0], s))
  }

  lemma {:induction false} MovesCompose(h: Header, s: LineState, t: LineState, n: nat, m: nat)
    requires Divisible(h) && s.opIndex < h.maxOperations && (t.address, t.opIndex) == Moved(h, s, n)
    ensures Moved(h, t, m) == Moved(h, s, n + m)
  {
    hide Wrap64;
    var max, min := h.maxOperations, h.minInstructionLength;
    var q := (s.opIndex + n) / max;
    Recompose(s.opIndex + n, max);
    QuotientOfSum(q, max, t.opIndex + m);
    Distribute(q, (t.opIndex + m) / max, min);
    WrapSum(s.address + q * min, (t.opIndex + m) / max * min);
  }

  /** Conservation: over any run of opcodes between resets, address and op_index end where the sum
      of the operation advances takes them in one step. */
  lemma {:induction false} OperationsConserved(h: Header, ops: seq<Op>, s: LineState)
    requires Divisible(h) && s.opIndex < h.maxOperations && RunFits(h, ops, s)
    ensures (After(h, ops, s).address, After(h, ops, s).opIndex) == Moved(h, s, TotalAdvance(h, ops))
    decreases |ops|
  {
    hide Next, Moved, Fits, OperationAdvance;
    if ops == [] {
      NoMove(h, s);
    } else {
      var t := Next(h, ops[0], s);
      OpMoves(h, s, ops[0]);
      OpIndexBounded(h, [ops[0]], s);
      assert After(h, [ops[0]], s) == t by { AfterOne(h, ops[0], s); }
      OperationsConserved(h, ops[1..], t);
      MovesCompose(h, s, t, OperationAdvance(h, ops[0]), TotalAdvance(h, ops[1..]));
    }
  }

  lemma AfterOne(h: Header, op: Op, s: LineState)
    requires Divisible(h)
    ensures After(h, [op], s) == Next(h, op, s)
  {
    hide Next;
    assert After(h, [op][1..], Next(h, op, s)) == Next(h, op, s);
  }

  /** The same as an equation: while the address does not wrap around, instructions advanced times
      operations per instruction, plus the change of op_index, is the sum of the advances. */
  lemma {:induction false} OperationsBalance(h: Header, ops: seq<Op>, s: LineState)
    requires Divisible(h) && s.opIndex < h.maxOperations && RunFits(h, ops, s) && h.minInstructionLength > 0
    requires s.address + (s.opIndex + TotalAdvance(h, ops)) / h.maxOperations * h.minInstructionLength < TWO_64
    ensures var t := After(h, ops, s);
            (t.address - s.address) / h.minInstructionLength * h.maxOperations + t.opIndex - s.opIndex
            == TotalAdvance(h, ops)
  {
    hide After, RunFits, TotalAdvance;
    OperationsConserved(h, ops, s);
    var n := s.opIndex + TotalAdvance(h, ops);
    var q := n / h.maxOperations;
    Recompose(n, h.maxOperations);
    SmallQuotient(n, h.maxOperations);
    MulMonotone(0, q, h.minInstructionLength);
    QuotientIs(q * h.minInstructionLength, h.minInstructionLength, q, 0);
  }

  /** The operand test is exact: with more than one operation per instruction and an increment
      that fits 64 bits, `advance_pc` moves by its operand if and only if nothing overflows 32
      bits. */
  lemma {:induction false} AdvancePcExact(h: Header, s: LineState, n: u64)
    requires Divisible(h) && s.opIndex < h.maxOperations != 1 && h.minInstructionLength > 0
    requires (s.opIndex + n) / h.maxOperations * h.minInstructionLength < TWO_64
    ensures (Advance(h, s, n).address, Advance(h, s, n).opIndex) == Moved(h, s, n) <==> Fits(h, s, AdvancePc(n))
  {
    hide Advance, Moved, Fits;
    if Fits(h, s, AdvancePc(n)) {
      AdvanceIsMove(h, s, n);
    } else {
      AdvanceMisses(h, s, n);
    }
  }

  lemma {:induction false} AdvanceMisses(h: Header, s: LineState, n: u64)
    requires Divisible(h) && s.opIndex < h.maxOperations != 1 && h.minInstructionLength > 0
    requires (s.opIndex + n) / h.maxOperations * h.minInstructionLength < TWO_64
    requires !Fits(h, s, AdvancePc(n))
    ensures Advance(h, s, n).address != Moved(h, s, n).0
  {
    hide Wrap64, Wrap32;
    var total, max, min := s.opIndex + n, h.maxOperations, h.minInstructionLength;
    var index := Wrap32(s.opIndex + Wrap32(n));
    TruncatedIndex(s.opIndex, n);
    var increment := Wrap32(index / max * min);
    assert increment < total / max * min by {
      IncrementFallsShort(index, total, max, min);
    }
    DifferentIncrements(s.address, increment, total / max * min);
  }

  lemma {:induction false} IncrementFallsShort(index: u32, total: nat, max: u8, min: u8)
    requires max > 0 && min > 0 && (total >= TWO_32 ==> index + TWO_32 <= total) && (total < TWO_32 ==> index == total)
    requires !(total < TWO_32 && total / max * min < TWO_32)
    ensures Wrap32(index / max * min) < total / max * min
  {
    var q, q' := total / max, index / max;
    SmallQuotient(index, max);
    MulMonotone(0, q', min);
    if total >= TWO_32 {
      QuotientMonotone(index, total - max, max);
      QuotientOfSum(1, max, total - max);
      Distribute(q, q', min);
      MulMonotone(1, q - q', min);
    }
    WrapIsBelow(q' * min);
  }

  lemma WrapIsBelow(x: nat)
    ensures Wrap32(x) <= x && Wrap32(x) < TWO_32
  {
  }

  lemma TruncatedIndex(a: nat, n: u64)
    requires a < 0x100
    ensures Wrap32(a + Wrap32(n)) == Wrap32(a + n) && Wrap32(a + n) <= a + n
    ensures if a + n >= TWO_32 then Wrap32(a + n) <= a + n - TWO_32 else Wrap32(a + n) == a + n
  {
    var q := n / 0x1_0000_0000;
    assert a + n == a + Wrap32(n) + q * 0x1_0000_0000;
  }

  lemma DifferentIncrements(a: u64, x: nat, y: nat)
    requires x < y < TWO_64
    ensures Wrap64(a + x) != Wrap64(a + y)
  {
  }
}
