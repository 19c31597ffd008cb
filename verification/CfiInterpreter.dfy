/** The call frame interpreter of src/cfi_parser.cpp: `executeInstruction`,
    `executeInstructions`, `findFDE` and `getUnwindInfo`. */
module CfiInterpreter {
  import opened Words
  import opened Leb128
  import opened ByteOrder
  import opened CfiModel

  // ----------------------------------------------------------- specification

  datatype Place = Place(offset: nat, machine: Machine)

  /** One round of the loop in `executeInstructions`: an undecodable instruction ends the stream
      and leaves the row alone. */
  ghost function Step(cie: Cie, littleEndian: bool, ins: seq<u8>, off: nat, m: Machine): (p: Place)
    requires off < |ins|
    ensures off < p.offset <= |ins|
  {
    match Fetch(cie, littleEndian, ins, off)
    case None => Place(|ins|, m)
    case Some(f) => Place(f.next, Apply(f.instr, cie, m))
  }

  /** The rows the interpreter holds after each instruction, from `off` to the end. */
  ghost function Trace(cie: Cie, littleEndian: bool, ins: seq<u8>, off: nat, m: Machine): seq<UnwindRow>
    decreases |ins| - off
  {
    if off >= |ins| then []
    else
      var p := Step(cie, littleEndian, ins, off, m);
      [p.machine.row] + Trace(cie, littleEndian, ins, p.offset, p.machine)
  }

  /** Recording a row: rows outside [begin, end) are dropped, and a row replaces its predecessor
      when both start at the same location. */
  function Record(table: seq<UnwindRow>, row: UnwindRow, begin: u64, end: u64): (t: seq<UnwindRow>)
    ensures table != [] ==> t != []
  {
    if !(begin <= row.location < end) then table
    else if table != [] && table[|table| - 1].location == row.location then table[|table| - 1 := row]
    else table + [row]
  }

  function RecordAll(table: seq<UnwindRow>, rows: seq<UnwindRow>, begin: u64, end: u64): (t: seq<UnwindRow>)
    ensures table != [] ==> t != []
    decreases |rows|
  {
    if rows == [] then table else RecordAll(Record(table, rows[0], begin, end), rows[1..], begin, end)
  }

  /** The row the lookup loop ends with. */
  function BestRow(rows: seq<UnwindRow>, pc: u64, best: UnwindRow): UnwindRow
    decreases |rows|
  {
    if rows == [] then best
    else BestRow(rows[1..], pc, if best.location <= rows[0].location <= pc then rows[0] else best)
  }

  function InitialMachine(fde: Fde, cie: Cie): Machine {
    Machine(cie.initialRow.(location := fde.initialLocation), [])
  }

  function EndOf(fde: Fde): u64 {
    Wrap64(fde.initialLocation + fde.addressRange)
  }

  ghost function RowTable(fde: Fde, cie: Cie, littleEndian: bool): (t: seq<UnwindRow>)
    ensures t != []
  {
    var m := InitialMachine(fde, cie);
    RecordAll([m.row], Trace(cie, littleEndian, fde.instructions, 0, m), fde.initialLocation, EndOf(fde))
  }

  ghost function RowFor(fde: Fde, cie: Cie, littleEndian: bool, pc: u64): UnwindRow {
    var table := RowTable(fde, cie, littleEndian);
    BestRow(table, pc, table[0])
  }

  predicate Contains(fde: Fde, pc: u64) {
    fde.initialLocation <= pc < EndOf(fde)
  }

  /** The first FDE from index `i` on that contains `pc`. */
  function FindFrom(fdes: seq<Fde>, pc: u64, i: nat): Option<Fde>
    decreases |fdes| - i
  {
    if i >= |fdes| then None
    else if Contains(fdes[i], pc) then Some(fdes[i])
    else FindFrom(fdes, pc, i + 1)
  }

  lemma {:induction false} FoundAt(section: CfiSection, i: nat, pc: u64, k: nat)
    requires k <= i < |section.fdes| && Contains(section.fdes[i], pc)
    requires forall n | k <= n < i :: !Contains(section.fdes[n], pc)
    ensures FindFrom(section.fdes, pc, k) == Some(section.fdes[i])
    decreases i - k
  {
    if k < i {
      FoundAt(section, i, pc, k + 1);
    }
  }

  datatype UnwindInfo = UnwindInfo(
    valid: bool, pc: u64, addressSize: u8, cfa: CfaDefinition, registers: map<u64, RegisterRule>,
    returnAddressRegister: u64, raSignState: u8)

  function NoUnwindInfo(pc: u64): UnwindInfo {
    UnwindInfo(false, pc, 8, CfaDefinition(RegisterOffset, 0, 0, []), map[], 0, 0)
  }

  function InfoOf(row: UnwindRow, cie: Cie, pc: u64): UnwindInfo {
    UnwindInfo(true, pc, cie.addressSize, row.cfa, row.registers, cie.returnAddressRegister, row.raSignState)
  }

  ghost function UnwindInfoAt(section: CfiSection, pc: u64): UnwindInfo {
    match FindFrom(section.fdes, pc, 0)
    case None => NoUnwindInfo(pc)
    case Some(fde) =>
      match fde.cie
      case None => NoUnwindInfo(pc)
      case Some(cie) => InfoOf(RowFor(fde, cie, section.littleEndian, pc), cie, pc)
  }

  // ---------------------------------------------------------- implementation

  /** What `executeInstructions` works on: the row and the table passed by reference, and the
      stack of remembered rows. */
  class Interpreter {
    var row: UnwindRow
    var stateStack: seq<UnwindRow>
    var table: seq<UnwindRow>

    constructor (initial: UnwindRow)
      ensures row == initial && stateStack == [] && table == [initial]
    {
      row, stateStack, table := initial, [], [initial];
    }

    ghost function State(): Machine
      reads this
    {
      Machine(row, stateStack)
    }

    /** Reads the operands of `opcode` at `offset`. */
    method ReadOperandsAt(layout: Layout, ins: seq<u8>, offset: nat, littleEndian: bool) returns (r: Option<Operands>)
      ensures r == ReadOperands(layout, ins, offset, littleEndian)
    {
      match layout
      case NoOperand =>
        return Some(Operands(0, 0, 0, [], offset));
      case FixedOperand(width) =>
        if offset + width > |ins| {
          return None;
        }
        return Some(Operands(Wrap64(FixedWidth(ins, offset, width, littleEndian)), 0, 0, [], offset + width));
      case OneUnsigned =>
        var a := ReadUnsigned(ins, offset);
        if a == None {
          return None;
        }
        return Some(Operands(a.value.value, 0, 0, [], a.value.next));
      case TwoUnsigned =>
        var a := ReadUnsigned(ins, offset);
        if a == None {
          return None;
        }
        var b := ReadUnsigned(ins, a.value.next);
        if b == None {
          return None;
        }
        return Some(Operands(a.value.value, b.value.value, 0, [], b.value.next));
      case UnsignedSigned =>
        var a := ReadUnsigned(ins, offset);
        if a == None {
          return None;
        }
        var b := ReadSigned(ins, a.value.next);
        if b == None {
          return None;
        }
        return Some(Operands(a.value.value, 0, b.value.value, [], b.value.next));
      case OneSigned =>
        var a := ReadSigned(ins, offset);
        if a == None {
          return None;
        }
        return Some(Operands(0, 0, a.value.value, [], a.value.next));
      case Block =>
        var len := ReadUnsigned(ins, offset);
        if len == None {
          return None;
        }
        r := TakeBlock(ins, len.value.next, len.value.value, 0);
      case UnsignedBlock =>
        var a := ReadUnsigned(ins, offset);
        if a == None {
          return None;
        }
        var len := ReadUnsigned(ins, a.value.next);
        if len == None {
          return None;
        }
        r := TakeBlock(ins, len.value.next, len.value.value, a.value.value);
      case ByteCountedBytes =>
        if offset >= |ins| {
          return None;
        }
        r := TakeBlock(ins, offset + 1, ins[offset], 0);
    }

    /** The bounds test written `len > avail` with `avail` the bytes that are left. */
    method TakeBlock(ins: seq<u8>, offset: nat, len: u64, reg: u64) returns (r: Option<Operands>)
      ensures r == BlockAt(ins, offset, len, reg)
    {
      var avail := if offset <= |ins| then |ins| - offset else 0;
      if offset > |ins| || len > avail {
        return None;
      }
      return Some(Operands(reg, 0, 0, ins[offset..offset + len], offset + len));
    }

    method ExecuteInstruction(offset: nat, ins: seq<u8>, cie: Cie, littleEndian: bool) returns (next: nat)
      requires offset < |ins|
      modifies this`row, this`stateStack
      ensures Place(next, State()) == Step(cie, littleEndian, ins, offset, old(State()))
    {
      var opcode := ins[offset];
      var layout := LayoutOf(opcode, cie);
      if layout == None {
        return |ins|;
      }
      OperandsExtent(layout.value, ins, offset + 1, littleEndian);
      var operands := ReadOperandsAt(layout.value, ins, offset + 1, littleEndian);
      if operands == None {
        return |ins|;
      }
      Perform(Meaning(opcode, operands.value, cie), cie);
      return operands.value.next;
    }

    /** The assignments of the opcode switch. */
    method Perform(i: Instr, cie: Cie)
      modifies this`row, this`stateStack
      ensures State() == Apply(i, cie, old(State()))
    {
      match i
      case Skip =>
      case Advance(delta) =>
        row := row.(location := Wrap64(row.location + delta));
      case SetLoc(address) =>
        row := row.(location := address);
      case SetRule(reg, rule) =>
        row := row.(registers := row.registers[reg := rule]);
      case RestoreRule(reg) =>
        if reg in cie.initialRow.registers {
          row := row.(registers := row.registers[reg := cie.initialRow.registers[reg]]);
        } else {
          row := row.(registers := row.registers - {reg});
        }
      case Remember =>
        stateStack := stateStack + [row];
      case Restore =>
        if stateStack != [] {
          var savedLocation := row.location;
          row := stateStack[|stateStack| - 1];
          row := row.(location := savedLocation);
          stateStack := stateStack[..|stateStack| - 1];
        }
      case DefCfa(reg, offset) =>
        row := row.(cfa := row.cfa.(kind := RegisterOffset, regNum := reg, offset := offset));
      case DefCfaRegister(reg) =>
        row := row.(cfa := row.cfa.(kind := RegisterOffset, regNum := reg));
      case DefCfaOffset(offset) =>
        row := row.(cfa := row.cfa.(kind := RegisterOffset, offset := offset));
      case DefCfaExpression(e) =>
        row := row.(cfa := row.cfa.(kind := CfaExpression, expression := e));
      case NegateRaState =>
        if cie.returnAddressRegister == 30 && cie.addressSize == 8 {
          row := row.(raSignState := if row.raSignState % 2 == 0 then row.raSignState + 1 else row.raSignState - 1);
        }
    }

    method ExecuteInstructions(ins: seq<u8>, cie: Cie, littleEndian: bool, pcBegin: u64, pcEnd: u64)
      modifies this
      ensures table == RecordAll(old(table), Trace(cie, littleEndian, ins, 0, old(Machine(row, []))), pcBegin, pcEnd)
    {
      stateStack := [];
      var offset := 0;
      while offset < |ins|
        invariant RecordAll(table, Trace(cie, littleEndian, ins, offset, State()), pcBegin, pcEnd)
               == RecordAll(old(table), Trace(cie, littleEndian, ins, 0, old(Machine(row, []))), pcBegin, pcEnd)
      {
        ghost var before := Trace(cie, littleEndian, ins, offset, State());
        offset := ExecuteInstruction(offset, ins, cie, littleEndian);
        assert before[1..] == Trace(cie, littleEndian, ins, offset, State());
        if pcBegin <= row.location < pcEnd {
          if table != [] && table[|table| - 1].location == row.location {
            table := table[|table| - 1 := row];
          } else {
            table := table + [row];
          }
        }
      }
    }
  }

  method FindFde(section: CfiSection, pc: u64) returns (r: Option<Fde>)
    ensures r == FindFrom(section.fdes, pc, 0)
  {
    for i := 0 to |section.fdes|
      invariant FindFrom(section.fdes, pc, i) == FindFrom(section.fdes, pc, 0)
    {
      if Contains(section.fdes[i], pc) {
        return Some(section.fdes[i]);
      }
    }
    return None;
  }

  method GetUnwindInfo(section: CfiSection, pc: u64) returns (info: UnwindInfo)
    ensures info == UnwindInfoAt(section, pc)
  {
    var found := FindFde(section, pc);
    if found == None || found.value.cie == None {
      return NoUnwindInfo(pc);
    }
    var fde, cie := found.value, found.value.cie.value;
    var interpreter := new Interpreter(cie.initialRow.(location := fde.initialLocation));
    interpreter.ExecuteInstructions(fde.instructions, cie, section.littleEndian, fde.initialLocation, EndOf(fde));
    var table := interpreter.table;
    var best := table[0];
    for i := 0 to |table|
      invariant BestRow(table[i..], pc, best) == BestRow(table, pc, table[0])
    {
      if table[i].location <= pc && table[i].location >= best.location {
        best := table[i];
      }
      assert table[i..][1..] == table[i + 1..];
    }
    return InfoOf(best, cie, pc);
  }
}
