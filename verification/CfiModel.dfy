/** Call frame information as the parser holds it (include/cfi_parser.hpp), the instruction
    stream's operand layouts, and the effect of one decoded instruction on a row. */
module CfiModel {
  import opened Words
  import opened Leb128
  import opened ByteOrder

  datatype RuleKind = Undefined | SameValue | Offset | ValOffset | Register | Expression | ValExpression | Architectural

  datatype RegisterRule = RegisterRule(kind: RuleKind, offset: i64, regNum: u64, expression: seq<u8>)

  function Rule(kind: RuleKind): RegisterRule {
    RegisterRule(kind, 0, 0, [])
  }

  datatype CfaKind = RegisterOffset | CfaExpression

  datatype CfaDefinition = CfaDefinition(kind: CfaKind, regNum: u64, offset: i64, expression: seq<u8>)

  datatype UnwindRow = UnwindRow(location: u64, cfa: CfaDefinition, registers: map<u64, RegisterRule>, raSignState: u8)

  datatype Cie = Cie(
    version: u8, addressSize: u8, codeAlignmentFactor: u64, dataAlignmentFactor: i64,
    returnAddressRegister: u64, initialRow: UnwindRow)

  datatype Fde = Fde(initialLocation: u64, addressRange: u64, instructions: seq<u8>, cie: Option<Cie>)

  /** A parsed section: its FDEs in section order, and the byte order of the object. */
  datatype CfiSection = CfiSection(fdes: seq<Fde>, littleEndian: bool)

  // ---------------------------------------------------------------- operands

  /** Operand layouts of the call frame instructions (table 7.29 of DWARF 5). */
  datatype Layout =
    | NoOperand
    | FixedOperand(width: nat)
    | OneUnsigned
    | TwoUnsigned
    | UnsignedSigned
    | OneSigned
    | Block
    | UnsignedBlock
    | ByteCountedBytes

  /** Operands as read: up to two unsigned numbers, a signed one, the bytes of a block, and the
      offset behind them. */
  datatype Operands = Operands(first: u64, second: u64, signed: i64, block: seq<u8>, next: nat)

  predicate IsAdvanceLoc(opcode: u8) {
    opcode / 0x40 == 1
  }

  predicate IsOffset(opcode: u8) {
    opcode / 0x40 == 2
  }

  predicate IsRestore(opcode: u8) {
    opcode / 0x40 == 3
  }

  /** The layout `executeInstruction` assumes; None where it gives up. */
  function LayoutOf(opcode: u8, cie: Cie): Option<Layout> {
    if IsAdvanceLoc(opcode) || IsRestore(opcode) then Some(NoOperand)
    else if IsOffset(opcode) then Some(OneUnsigned)
    else
      match opcode
      case 0x00 | 0x0a | 0x0b | 0x2d => Some(NoOperand)
      case 0x01 =>
        if cie.addressSize == 8 then Some(FixedOperand(8))
        else if cie.addressSize == 4 then Some(FixedOperand(4))
        else None
      case 0x02 => Some(FixedOperand(1))
      case 0x03 => Some(FixedOperand(2))
      case 0x04 => Some(FixedOperand(4))
      case 0x1d => Some(FixedOperand(8))
      case 0x06 | 0x07 | 0x08 | 0x0d | 0x0e | 0x2e => Some(OneUnsigned)
      case 0x05 | 0x09 | 0x0c | 0x14 | 0x2f => Some(TwoUnsigned)
      case 0x11 | 0x12 | 0x15 => Some(UnsignedSigned)
      case 0x13 => Some(OneSigned)
      case 0x0f => if cie.version < 3 then Some(ByteCountedBytes) else Some(Block)
      case 0x10 | 0x16 => Some(UnsignedBlock)
      case _ => None
  }

  /** The bytes of a block of `count` bytes. */
  ghost function BlockAt(bytes: seq<u8>, off: nat, count: u64, first: u64): Option<Operands> {
    if off <= |bytes| && count <= |bytes| - off
    then Some(Operands(first, 0, 0, bytes[off..off + count], off + count))
    else None
  }

  /** Fixed-width operands have at most eight bytes, so their wrap-around never happens. */
  ghost function ReadOperands(layout: Layout, bytes: seq<u8>, off: nat, littleEndian: bool): Option<Operands> {
    match layout
    case NoOperand => Some(Operands(0, 0, 0, [], off))
    case FixedOperand(width) =>
      if off + width <= |bytes| then Some(Operands(Wrap64(FixedWidth(bytes, off, width, littleEndian)), 0, 0, [], off + width))
      else None
    case OneUnsigned =>
      (match Unsigned(bytes, off)
       case None => None
       case Some(a) => Some(Operands(a.value, 0, 0, [], a.next)))
    case TwoUnsigned =>
      (match Unsigned(bytes, off)
       case None => None
       case Some(a) =>
         match Unsigned(bytes, a.next)
         case None => None
         case Some(b) => Some(Operands(a.value, b.value, 0, [], b.next)))
    case UnsignedSigned =>
      (match Unsigned(bytes, off)
       case None => None
       case Some(a) =>
         match Signed(bytes, a.next)
         case None => None
         case Some(b) => Some(Operands(a.value, 0, b.value, [], b.next)))
    case OneSigned =>
      (match Signed(bytes, off)
       case None => None
       case Some(a) => Some(Operands(0, 0, a.value, [], a.next)))
    case Block =>
      (match Unsigned(bytes, off)
       case None => None
       case Some(a) => BlockAt(bytes, a.next, a.value, 0))
    case UnsignedBlock =>
      (match Unsigned(bytes, off)
       case None => None
       case Some(a) =>
         match Unsigned(bytes, a.next)
         case None => None
         case Some(b) => BlockAt(bytes, b.next, b.value, a.value))
    case ByteCountedBytes =>
      if off < |bytes| then BlockAt(bytes, off + 1, bytes[off], 0) else None
  }

  // ------------------------------------------------------------ instructions

  /** Call frame instructions by what they do to the machine; factored operands are already
      multiplied out. */
  datatype Instr =
    | Skip
    | Advance(delta: u64)
    | SetLoc(address: u64)
    | SetRule(reg: u64, rule: RegisterRule)
    | RestoreRule(reg: u64)
    | Remember
    | Restore
    | DefCfa(reg: u64, offset: i64)
    | DefCfaRegister(reg: u64)
    | DefCfaOffset(offset: i64)
    | DefCfaExpression(expression: seq<u8>)
    | NegateRaState

  function OffsetRule(kind: RuleKind, offset: int): RegisterRule {
    Rule(kind).(offset := WrapI64(offset))
  }

  function ExpressionRule(kind: RuleKind, expression: seq<u8>): RegisterRule {
    Rule(kind).(expression := expression)
  }

  /** What opcode and operands mean (section 6.4.2 of DWARF 5 and the GNU, MIPS and AArch64
      extensions the parser knows). */
  function Meaning(opcode: u8, o: Operands, cie: Cie): Instr {
    var caf, daf := cie.codeAlignmentFactor, cie.dataAlignmentFactor;
    var first, second, signed := o.first, o.second, o.signed;
    if IsAdvanceLoc(opcode) then Advance(Wrap64((opcode % 0x40) * caf))
    else if IsOffset(opcode) then SetRule(opcode % 0x40, OffsetRule(Offset, AsI64(first) * daf))
    else if IsRestore(opcode) then RestoreRule(opcode % 0x40)
    else
      match opcode
      case 0x01 => SetLoc(first)
      case 0x02 | 0x03 | 0x04 | 0x1d => Advance(Wrap64(first * caf))
      case 0x05 => SetRule(first, OffsetRule(Offset, AsI64(second) * daf))
      case 0x06 => RestoreRule(first)
      case 0x07 => SetRule(first, Rule(Undefined))
      case 0x08 => SetRule(first, Rule(SameValue))
      case 0x09 => SetRule(first, Rule(Register).(regNum := second))
      case 0x0a => Remember
      case 0x0b => Restore
      case 0x0c => DefCfa(first, AsI64(second))
      case 0x0d => DefCfaRegister(first)
      case 0x0e => DefCfaOffset(AsI64(first))
      case 0x0f => if cie.version < 3 then Skip else DefCfaExpression(o.block)
      case 0x10 => SetRule(first, ExpressionRule(Expression, o.block))
      case 0x11 => SetRule(first, OffsetRule(Offset, signed * daf))
      case 0x12 => DefCfa(first, WrapI64(signed * daf))
      case 0x13 => DefCfaOffset(WrapI64(signed * daf))
      case 0x14 => SetRule(first, OffsetRule(ValOffset, AsI64(second) * daf))
      case 0x15 => SetRule(first, OffsetRule(ValOffset, signed * daf))
      case 0x16 => SetRule(first, ExpressionRule(ValExpression, o.block))
      case 0x2d => NegateRaState
      case 0x2f => SetRule(first, OffsetRule(Offset, (0 - AsI64(second)) * daf))
      case _ => Skip
  }

  datatype Fetched = Fetched(instr: Instr, next: nat)

  /** The instruction at `off`, or None where the stream cannot be decoded any further. */
  ghost function Fetch(cie: Cie, littleEndian: bool, ins: seq<u8>, off: nat): (r: Option<Fetched>)
    requires off < |ins|
    ensures r.Some? ==> off < r.value.next <= |ins|
  {
    match LayoutOf(ins[off], cie)
    case None => None
    case Some(layout) =>
      OperandsExtent(layout, ins, off + 1, littleEndian);
      match ReadOperands(layout, ins, off + 1, littleEndian)
      case None => None
      case Some(o) => Some(Fetched(Meaning(ins[off], o, cie), o.next))
  }

  lemma OperandsExtent(layout: Layout, bytes: seq<u8>, off: nat, littleEndian: bool)
    requires off <= |bytes|
    ensures match ReadOperands(layout, bytes, off, littleEndian)
            case None => true
            case Some(o) => off <= o.next <= |bytes|
  {
    hide Unsigned, Signed;
    ReadExtent(bytes, off);
    if Unsigned(bytes, off).Some? {
      ReadExtent(bytes, Unsigned(bytes, off).value.next);
    }
  }

  // ----------------------------------------------------------------- machine

  /** The interpreter's mutable state besides its place in the stream. */
  datatype Machine = Machine(row: UnwindRow, stack: seq<UnwindRow>)

  function Apply(i: Instr, cie: Cie, m: Machine): Machine {
    var row := m.row;
    match i
    case Skip => m
    case Advance(delta) => m.(row := row.(location := Wrap64(row.location + delta)))
    case SetLoc(address) => m.(row := row.(location := address))
    case SetRule(reg, rule) => m.(row := row.(registers := row.registers[reg := rule]))
    case RestoreRule(reg) =>
      var initial := cie.initialRow.registers;
      m.(row := row.(registers := if reg in initial then row.registers[reg := initial[reg]] else row.registers - {reg}))
    case Remember => m.(stack := m.stack + [row])
    case Restore =>
      if m.stack == [] then m
      else Machine(m.stack[|m.stack| - 1].(location := row.location), m.stack[..|m.stack| - 1])
    case DefCfa(reg, offset) => m.(row := row.(cfa := row.cfa.(kind := RegisterOffset, regNum := reg, offset := offset)))
    case DefCfaRegister(reg) => m.(row := row.(cfa := row.cfa.(kind := RegisterOffset, regNum := reg)))
    case DefCfaOffset(offset) => m.(row := row.(cfa := row.cfa.(kind := RegisterOffset, offset := offset)))
    case DefCfaExpression(e) => m.(row := row.(cfa := row.cfa.(kind := CfaExpression, expression := e)))
    case NegateRaState =>
      if cie.returnAddressRegister == 30 && cie.addressSize == 8
      then m.(row := row.(raSignState := if row.raSignState % 2 == 0 then row.raSignState + 1 else row.raSignState - 1))
      else m
  }

  /** Where an instruction moves the location: the only part the cut-point collector follows. */
  function LocationAfter(i: Instr, location: u64): u64 {
    match i
    case Advance(delta) => Wrap64(location + delta)
    case SetLoc(address) => address
    case _ => location
  }

  lemma ApplyMovesLocation(i: Instr, cie: Cie, m: Machine)
    ensures Apply(i, cie, m).row.location == LocationAfter(i, m.row.location)
  {
  }
}
