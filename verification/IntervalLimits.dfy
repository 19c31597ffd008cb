/** Why the comparison of intervals needs decoders in step: a big-endian pair that it calls
    equivalent and that is not. */
module IntervalLimits {
  import opened Words
  import opened Leb128
  import opened ByteOrder
  import opened OrderedSets
  import opened CfiModel
  import opened CfiInterpreter
  import opened CfiEncoding
  import opened CutPoints
  import opened UnwindCompare
  import opened IntervalCompare

  const CIE := Cie(4, 8, 1, 1, 30, UnwindRow(0, CfaDefinition(RegisterOffset, 7, 8, []), map[], 0))

  /** The CFA offset changes at the second byte and changes back at the third. */
  function Ops(): (ops: seq<CallFrame>)
    ensures AllEncodable(ops, CIE)
  {
    [AdvanceLoc2(1), DefineCfaOffset(16), AdvanceLoc2(1), DefineCfaOffset(8)]
  }

  function Bumpy(): Fde {
    Fde(0, 3, [0x03, 0x00, 0x01, 0x0e, 0x10, 0x03, 0x00, 0x01, 0x0e, 0x08], Some(CIE))
  }

  function Flat(): Fde {
    Fde(0, 3, [], Some(CIE))
  }

  lemma AdvanceBytes()
    ensures Assemble(AdvanceLoc2(1), CIE, false) == [0x03, 0x00, 0x01]
  {
    assert EncodeFixed(0, 1, false) == [0];
    assert EncodeFixed(1, 2, false) == [0x00, 0x01];
  }

  lemma OffsetBytes(offset: u8)
    requires offset < 0x80
    ensures Assemble(DefineCfaOffset(offset), CIE, false) == [0x0e, offset]
  {
  }

  lemma AssembledBytes()
    ensures AssembleAll(Ops(), CIE, false) == Bumpy().instructions
  {
    AdvanceBytes();
    OffsetBytes(16);
    OffsetBytes(8);
    var ops := Ops();
    hide Assemble, Encodable;
    assert AssembleAll(ops[4..], CIE, false) == [];
    assert AssembleAll(ops[3..], CIE, false) == [0x0e, 0x08] by { assert ops[3..][1..] == ops[4..]; }
    assert AssembleAll(ops[2..], CIE, false) == [0x03, 0x00, 0x01, 0x0e, 0x08] by { assert ops[2..][1..] == ops[3..]; }
    assert AssembleAll(ops[1..], CIE, false) == [0x0e, 0x10, 0x03, 0x00, 0x01, 0x0e, 0x08] by {
      assert ops[1..][1..] == ops[2..];
    }
  }

  /** Where the interpreter is at each program counter of the range. */
  lemma BumpyOffsets(pc: u64)
    requires pc < 3
    ensures RowFor(Bumpy(), CIE, false, pc).cfa == CfaDefinition(RegisterOffset, 7, if pc == 1 then 16 else 8, [])
    ensures RowFor(Bumpy(), CIE, false, pc).(cfa := CIE.initialRow.cfa, location := 0) == CIE.initialRow
  {
    AssembledBytes();
    var ops := Ops();
    var m := InitialMachine(Bumpy(), CIE);
    assert Forward(ops[3..], CIE, 2) && Forward(ops[2..], CIE, 1) && Forward(ops[1..], CIE, 1) && Forward(ops, CIE, 0);
    hide RowFor, AssembleAll;
    AssembledProgramUnwinds(Bumpy(), CIE, false, ops, pc);
    BumpyInForce(m, pc);
  }

  /** One instruction of the search for the rules in force. */
  lemma InForceStep(ops: seq<CallFrame>, i: Instr, m: CfiModel.Machine, pc: u64)
    requires ops != [] && AllEncodable(ops, CIE) && Effect(ops[0], CIE) == i
    ensures InForce(ops, CIE, m, pc)
         == if LocationAfter(i, m.row.location) > pc then m.row else InForce(ops[1..], CIE, Apply(i, CIE, m), pc)
  {
    hide Effect, Encodable, Apply, LocationAfter;
  }

  lemma BumpyInForce(m: CfiModel.Machine, pc: u64)
    requires pc < 3 && m == InitialMachine(Bumpy(), CIE)
    ensures var row := InForce(Ops(), CIE, m, pc);
            && row.cfa == CfaDefinition(RegisterOffset, 7, if pc == 1 then 16 else 8, [])
            && row.(cfa := CIE.initialRow.cfa, location := 0) == CIE.initialRow
  {
    var ops := Ops();
    var m1 := Apply(Advance(1), CIE, m);
    var m2 := Apply(DefCfaOffset(16), CIE, m1);
    var m3 := Apply(Advance(1), CIE, m2);
    var m4 := Apply(DefCfaOffset(8), CIE, m3);
    InForceStep(ops, Advance(1), m, pc);
    InForceStep(ops[1..], DefCfaOffset(16), m1, pc);
    InForceStep(ops[1..][1..], Advance(1), m2, pc);
    InForceStep(ops[1..][1..][1..], DefCfaOffset(8), m3, pc);
    assert InForce([], CIE, m4, pc) == m4.row;
    hide InForce;
    assert ops[1..][1..][1..][1..] == [];
  }

  lemma FlatRow(pc: u64)
    requires pc < 3
    ensures RowFor(Flat(), CIE, false, pc) == CIE.initialRow
  {
  }

  /** The collector reads the advances as 256. */
  lemma BumpyCutPoints()
    ensures CutPointsOf(Bumpy()) == {0, 2} && Collectable(Bumpy())
    ensures CutPointsOf(Flat()) == {0, 2} && Collectable(Flat())
  {
    hide CollectorStep, CutPointsOf, Collectable, Unsigned, EncodeUnsigned, LayoutOf, CollectorOperands;
    var ins := Bumpy().instructions;
    SmallEncodings();
    AdvanceStep(ins, 0, 0);
    AdvanceStep(ins, 5, 0x100);
    OperandAt(ins, 4, 16);
    OperandAt(ins, 9, 8);
    OffsetStep(ins, 3, 0x100);
    OffsetStep(ins, 8, 0x200);
    FourRounds(ins);
  }

  lemma SmallEncodings()
    ensures EncodeUnsigned(16) == [0x10] && EncodeUnsigned(8) == [0x08]
  {
  }

  lemma OperandAt(ins: seq<u8>, off: nat, v: u8)
    requires off < |ins| && ins[off] == v && EncodeUnsigned(v) == [v]
    ensures Unsigned(ins, off) == Some(Decoded(v, off + 1))
  {
    hide EncodeUnsigned, Unsigned;
    UnsignedRoundTrip(ins[..off], v, ins[off + 1..]);
    assert ins[..off] + [v] + ins[off + 1..] == ins;
  }

  lemma AdvanceStep(ins: seq<u8>, off: nat, location: u64)
    requires off + 3 <= |ins| && ins[off] == 0x03 && ins[off + 1] == 0x00 && ins[off + 2] == 0x01 && location < 0x1000
    ensures CollectorStep(CIE, ins, Cursor(off, location)) == Cursor(off + 3, location + 0x100)
  {
    assert BytesLE(ins, off + 3, 0) == 0 && BytesLE(ins, off + 2, 1) == 1 && BytesLE(ins, off + 1, 2) == 0x100;
  }

  lemma OffsetStep(ins: seq<u8>, off: nat, location: u64)
    requires off + 1 < |ins| && ins[off] == 0x0e
    requires Unsigned(ins, off + 1).Some? && Unsigned(ins, off + 1).value.next == off + 2
    ensures CollectorStep(CIE, ins, Cursor(off, location)) == Cursor(off + 2, location)
  {
    hide Unsigned;
  }

  lemma FourRounds(ins: seq<u8>)
    requires |ins| == 10 && ins == Bumpy().instructions
    requires CollectorStep(CIE, ins, Cursor(0, 0)) == Cursor(3, 0x100)
    requires CollectorStep(CIE, ins, Cursor(3, 0x100)) == Cursor(5, 0x100)
    requires CollectorStep(CIE, ins, Cursor(5, 0x100)) == Cursor(8, 0x200)
    requires CollectorStep(CIE, ins, Cursor(8, 0x200)) == Cursor(10, 0x200)
    ensures CutPointsOf(Bumpy()) == {0, 2} && Collectable(Bumpy())
    ensures CutPointsOf(Flat()) == {0, 2} && Collectable(Flat())
  {
    hide CollectorStep;
    assert Locations(CIE, ins, Cursor(8, 0x200), 7) == [0x200];
    assert Locations(CIE, ins, Cursor(5, 0x100), 8) == [0x200, 0x200];
    assert Locations(CIE, ins, Cursor(3, 0x100), 9) == [0x100, 0x200, 0x200];
    assert Locations(CIE, ins, Cursor(0, 0), 10) == [0x100, 0x100, 0x200, 0x200];
    assert CollectorAfter(CIE, ins, Cursor(8, 0x200), 1).offset == 10;
    assert CollectorAfter(CIE, ins, Cursor(5, 0x100), 2).offset == 10;
    assert CollectorAfter(CIE, ins, Cursor(3, 0x100), 3).offset == 10;
    assert CollectorAfter(CIE, ins, Cursor(0, 0), 4).offset == 10;
    assert CollectorAfter(CIE, [], Cursor(0, 0), 0).offset >= 0;
  }

  /** The comparison answers EQUIVALENT, and the states one byte behind the starts are not. */
  lemma EquivalentButNot(options: Options)
    ensures var lhs, rhs := CfiSection([Bumpy()], false), CfiSection([Flat()], false);
            && Comparison(lhs, 0, rhs, 0, options) == IntervalResult(Equivalent, 2, None)
            && PointVerdict(lhs, Bumpy(), rhs, Flat(), 1, options) != Equivalent
  {
    var lhs, rhs := CfiSection([Bumpy()], false), CfiSection([Flat()], false);
    BumpyCutPoints();
    Verdicts(options, 0);
    Verdicts(options, 1);
    Verdicts(options, 2);
    hide CutPointsOf, PointVerdict, Bumpy, Flat;
    assert PointsToCheck(Bumpy(), Flat()) == {0, 2};
    assert Least({0, 2}) == 0 && Least({2}) == 2;
    assert {0, 2} - {0} == {2} && {2} - {2} == {};
  }

  /** Two states without register rules are told apart by their CFA. */
  lemma CfaDecides(l: UnwindInfo, r: UnwindInfo, options: Options)
    requires l.valid && r.valid && l.registers == r.registers == map[]
    requires l.cfa.kind == r.cfa.kind == RegisterOffset
    requires l.returnAddressRegister == r.returnAddressRegister && l.raSignState == r.raSignState
    ensures StateVerdict(l, r, options)
         == if l.cfa.regNum == r.cfa.regNum && l.cfa.offset == r.cfa.offset then Equivalent else Different
  {
    assert l.registers.Keys + r.registers.Keys == {};
  }

  lemma OnlyInfo(fde: Fde, d: u64)
    requires d < 3 && fde.cie == Some(CIE) && fde.initialLocation == 0 && fde.addressRange == 3
    ensures UnwindInfoAt(CfiSection([fde], false), Wrap64(fde.initialLocation + d)) == InfoOf(RowFor(fde, CIE, false, d), CIE, d)
  {
    hide RowFor;
    assert FindFrom([fde], d, 0) == Some(fde);
  }

  lemma Verdicts(options: Options, d: u64)
    requires d < 3
    ensures PointVerdict(CfiSection([Bumpy()], false), Bumpy(), CfiSection([Flat()], false), Flat(), d, options)
         == if d == 1 then Different else Equivalent
  {
    BumpyOffsets(d);
    FlatRow(d);
    OnlyInfo(Bumpy(), d);
    OnlyInfo(Flat(), d);
    hide RowFor, UnwindInfoAt, StateVerdict;
    CfaDecides(InfoOf(RowFor(Bumpy(), CIE, false, d), CIE, d), InfoOf(RowFor(Flat(), CIE, false, d), CIE, d), options);
  }
}
