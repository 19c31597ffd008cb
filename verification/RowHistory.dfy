/** The row that call frame instructions leave, told from their text alone: each part of it is as
    the last instruction that writes this part has left it, and what stands between a remember
    and its restore counts for the location only. */
module RowHistory {
  import opened Words
  import opened CfiModel
  import opened CfiInterpreter
  import opened UnwindTable

  // ------------------------------------------------------------- last writers

  function Last(instrs: seq<Instr>, kind: Instr -> bool): Option<Instr>
    decreases |instrs|
  {
    if instrs == [] then None
    else
      var i := instrs[|instrs| - 1];
      if kind(i) then Some(i) else Last(instrs[..|instrs| - 1], kind)
  }

  function Count(instrs: seq<Instr>, kind: Instr -> bool): nat
    decreases |instrs|
  {
    if instrs == [] then 0
    else Count(instrs[..|instrs| - 1], kind) + if kind(instrs[|instrs| - 1]) then 1 else 0
  }

  predicate SetsLocation(i: Instr) {
    i.SetLoc?
  }

  predicate SetsCfaOffset(i: Instr) {
    i.DefCfa? || i.DefCfaOffset?
  }

  predicate SetsCfaRegister(i: Instr) {
    i.DefCfa? || i.DefCfaRegister?
  }

  predicate SetsCfaExpression(i: Instr) {
    i.DefCfaExpression?
  }

  predicate DefinesCfa(i: Instr) {
    i.DefCfa? || i.DefCfaRegister? || i.DefCfaOffset? || i.DefCfaExpression?
  }

  function NamesRegister(reg: u64): Instr -> bool {
    (i: Instr) => (i.SetRule? || i.RestoreRule?) && i.reg == reg
  }

  predicate Negates(i: Instr) {
    i.NegateRaState?
  }

  /** The sum of the advances behind the last `set_loc`. */
  function Travelled(instrs: seq<Instr>): nat
    decreases |instrs|
  {
    if instrs == [] then 0
    else
      var rest := instrs[..|instrs| - 1];
      match instrs[|instrs| - 1]
      case SetLoc(_) => 0
      case Advance(delta) => Travelled(rest) + delta
      case _ => Travelled(rest)
  }

  /** Where the last `set_loc` went. */
  function OriginOf(instrs: seq<Instr>, start: u64): u64 {
    match Last(instrs, SetsLocation)
    case Some(SetLoc(address)) => address
    case _ => start
  }

  function LocationOf(instrs: seq<Instr>, start: u64): u64 {
    (OriginOf(instrs, start) + Travelled(instrs)) % 0x1_0000_0000_0000_0000
  }

  function CfaOffsetOf(instrs: seq<Instr>, start: i64): i64 {
    match Last(instrs, SetsCfaOffset)
    case Some(DefCfa(_, offset)) => offset
    case Some(DefCfaOffset(offset)) => offset
    case _ => start
  }

  function CfaRegisterOf(instrs: seq<Instr>, start: u64): u64 {
    match Last(instrs, SetsCfaRegister)
    case Some(DefCfa(reg, _)) => reg
    case Some(DefCfaRegister(reg)) => reg
    case _ => start
  }

  function CfaExpressionOf(instrs: seq<Instr>, start: seq<u8>): seq<u8> {
    match Last(instrs, SetsCfaExpression)
    case Some(DefCfaExpression(expression)) => expression
    case _ => start
  }

  function CfaKindOf(instrs: seq<Instr>, start: CfaKind): CfaKind {
    match Last(instrs, DefinesCfa)
    case None => start
    case Some(DefCfaExpression(_)) => CfaExpression
    case _ => RegisterOffset
  }

  /** The rule of a register; None where it has none. */
  function RuleOf(registers: map<u64, RegisterRule>, reg: u64): Option<RegisterRule> {
    if reg in registers then Some(registers[reg]) else None
  }

  /** A restored register has the rule it has in the CIE, if any. */
  function LastRule(instrs: seq<Instr>, reg: u64, cie: Cie, start: Option<RegisterRule>): Option<RegisterRule> {
    match Last(instrs, NamesRegister(reg))
    case Some(SetRule(_, rule)) => Some(rule)
    case Some(RestoreRule(_)) => RuleOf(cie.initialRow.registers, reg)
    case _ => start
  }

  /** The lowest bit flips with every negation, on AArch64 only. */
  predicate SignStateOf(state: u8, instrs: seq<Instr>, cie: Cie, start: u8) {
    if cie.returnAddressRegister == 30 && cie.addressSize == 8 && Count(instrs, Negates) % 2 == 1
    then state / 2 == start / 2 && state % 2 != start % 2
    else state == start
  }

  /** `row` is what `instrs` make of the row `start`. */
  ghost predicate Written(row: UnwindRow, instrs: seq<Instr>, cie: Cie, start: UnwindRow) {
    && row.location == LocationOf(instrs, start.location)
    && row.cfa.kind == CfaKindOf(instrs, start.cfa.kind)
    && row.cfa.regNum == CfaRegisterOf(instrs, start.cfa.regNum)
    && row.cfa.offset == CfaOffsetOf(instrs, start.cfa.offset)
    && row.cfa.expression == CfaExpressionOf(instrs, start.cfa.expression)
    && (forall reg: u64 :: RuleOf(row.registers, reg) == LastRule(instrs, reg, cie, RuleOf(start.registers, reg)))
    && SignStateOf(row.raSignState, instrs, cie, start.raSignState)
  }

  predicate Bracket(i: Instr) {
    i.Remember? || i.Restore?
  }

  predicate Plain(instrs: seq<Instr>) {
    forall i | i in instrs :: !Bracket(i)
  }

  lemma RunLast(instrs: seq<Instr>, i: Instr, cie: Cie, m: Machine)
    ensures Run(instrs + [i], cie, m) == Apply(i, cie, Run(instrs, cie, m))
  {
    hide Apply;
    RunAppend(instrs, [i], cie, m);
    var n := Run(instrs, cie, m);
    assert [i][1..] == [];
    assert Run([i], cie, n) == Run([i][1..], cie, Apply(i, cie, n));
  }

  lemma LastOfSnoc(instrs: seq<Instr>, i: Instr, kind: Instr -> bool)
    ensures Last(instrs + [i], kind) == if kind(i) then Some(i) else Last(instrs, kind)
    ensures Count(instrs + [i], kind) == Count(instrs, kind) + if kind(i) then 1 else 0
  {
    assert (instrs + [i])[..|instrs|] == instrs;
  }

  lemma LocationWritten(instrs: seq<Instr>, i: Instr, start: u64)
    ensures LocationOf(instrs + [i], start) == LocationAfter(i, LocationOf(instrs, start))
  {
    hide OriginOf, Wrap64, Travelled;
    var from, way := OriginOf(instrs, start), Travelled(instrs);
    WayWritten(instrs, i, start);
    match i
    case Advance(delta) => AdvanceWraps(from + way, delta);
    case SetLoc(address) =>
      InRange(address);
      Wraps(address);
    case _ =>
  }

  lemma WayWritten(instrs: seq<Instr>, i: Instr, start: u64)
    ensures OriginOf(instrs + [i], start) == if i.SetLoc? then i.address else OriginOf(instrs, start)
    ensures Travelled(instrs + [i])
         == if i.SetLoc? then 0 else Travelled(instrs) + if i.Advance? then i.delta else 0
  {
    hide Last;
    LastOfSnoc(instrs, i, SetsLocation);
    assert (instrs + [i])[..|instrs|] == instrs;
  }

  lemma Wraps(a: nat)
    ensures Wrap64(a) == a % 0x1_0000_0000_0000_0000
  {
  }

  lemma AdvanceWraps(a: nat, delta: nat)
    ensures Wrap64(a % 0x1_0000_0000_0000_0000 + delta) == (a + delta) % 0x1_0000_0000_0000_0000
  {
    WrapSum(a, delta);
  }

  lemma CfaWritten(instrs: seq<Instr>, i: Instr, cie: Cie, m: Machine, start: UnwindRow)
    requires Written(m.row, instrs, cie, start) && !Bracket(i)
    ensures var cfa := Apply(i, cie, m).row.cfa;
            && cfa.kind == CfaKindOf(instrs + [i], start.cfa.kind)
            && cfa.regNum == CfaRegisterOf(instrs + [i], start.cfa.regNum)
            && cfa.offset == CfaOffsetOf(instrs + [i], start.cfa.offset)
            && cfa.expression == CfaExpressionOf(instrs + [i], start.cfa.expression)
  {
    hide Last;
    LastOfSnoc(instrs, i, DefinesCfa);
    LastOfSnoc(instrs, i, SetsCfaRegister);
    LastOfSnoc(instrs, i, SetsCfaOffset);
    LastOfSnoc(instrs, i, SetsCfaExpression);
  }

  lemma RuleWritten(instrs: seq<Instr>, i: Instr, cie: Cie, m: Machine, start: UnwindRow, reg: u64)
    requires Written(m.row, instrs, cie, start) && !Bracket(i)
    ensures RuleOf(Apply(i, cie, m).row.registers, reg) == LastRule(instrs + [i], reg, cie, RuleOf(start.registers, reg))
  {
    hide Last;
    LastOfSnoc(instrs, i, NamesRegister(reg));
    assert RuleOf(m.row.registers, reg) == LastRule(instrs, reg, cie, RuleOf(start.registers, reg));
  }

  lemma InstructionWrites(instrs: seq<Instr>, i: Instr, cie: Cie, m: Machine, start: UnwindRow)
    requires Written(m.row, instrs, cie, start) && !Bracket(i)
    ensures Written(Apply(i, cie, m).row, instrs + [i], cie, start)
  {
    CfaWritten(instrs, i, cie, m, start);
    LocationWritten(instrs, i, start.location);
    ApplyMovesLocation(i, cie, m);
    forall reg: u64
      ensures RuleOf(Apply(i, cie, m).row.registers, reg)
           == LastRule(instrs + [i], reg, cie, RuleOf(start.registers, reg))
    {
      RuleWritten(instrs, i, cie, m, start, reg);
    }
    hide Last, Travelled, LocationOf, CfaKindOf, CfaRegisterOf, CfaOffsetOf, CfaExpressionOf, LastRule;
    LastOfSnoc(instrs, i, Negates);
  }

  /** Without remember and restore, every part of the row is as its last writer left it, and the
      stack stays. */
  lemma {:induction false} LastWriters(instrs: seq<Instr>, cie: Cie, m: Machine)
    requires Plain(instrs)
    ensures Written(Run(instrs, cie, m).row, instrs, cie, m.row)
    ensures Run(instrs, cie, m).stack == m.stack
    decreases |instrs|
  {
    hide Apply;
    if instrs != [] {
      var n := |instrs| - 1;
      LastWriters(instrs[..n], cie, m);
      assert instrs == instrs[..n] + [instrs[n]];
      RunLast(instrs[..n], instrs[n], cie, m);
      InstructionWrites(instrs[..n], instrs[n], cie, Run(instrs[..n], cie, m), m.row);
      PlainKeepsStack(instrs[n], cie, Run(instrs[..n], cie, m));
    }
  }

  lemma PlainKeepsStack(i: Instr, cie: Cie, m: Machine)
    requires !Bracket(i)
    ensures Apply(i, cie, m).stack == m.stack
  {
  }

  // ------------------------------------------------------ remember and restore

  /** The instructions that count so far, and for each open remember how many counted then. */
  datatype History = History(counted: seq<Instr>, open: seq<nat>)

  /** The location instructions of a list. */
  function Moves(instrs: seq<Instr>): (r: seq<Instr>)
    ensures forall i | i in r :: i in instrs
    decreases |instrs|
  {
    if instrs == [] then []
    else
      var rest, i := instrs[..|instrs| - 1], instrs[|instrs| - 1];
      if i.Advance? || i.SetLoc? then Moves(rest) + [i] else Moves(rest)
  }

  predicate Nested(h: History) {
    && Plain(h.counted)
    && (forall k | 0 <= k < |h.open| :: h.open[k] <= |h.counted|)
    && forall k, l | 0 <= k <= l < |h.open| :: h.open[k] <= h.open[l]
  }

  /** A restore takes back everything since its remember but the location instructions; one
      without a remember does nothing. */
  function Extended(h: History, i: Instr): (r: History)
    requires Nested(h)
    ensures Nested(r)
  {
    match i
    case Remember => h.(open := h.open + [|h.counted|])
    case Restore =>
      if h.open == [] then h
      else
        var depth := |h.open| - 1;
        var kept := h.open[depth];
        History(h.counted[..kept] + Moves(h.counted[kept..]), h.open[..depth])
    case _ => h.(counted := h.counted + [i])
  }

  function HistoryOf(instrs: seq<Instr>): (h: History)
    ensures Nested(h)
    decreases |instrs|
  {
    if instrs == [] then History([], [])
    else Extended(HistoryOf(instrs[..|instrs| - 1]), instrs[|instrs| - 1])
  }

  /** What counts of a list of instructions. */
  function Counted(instrs: seq<Instr>): seq<Instr> {
    HistoryOf(instrs).counted
  }

  lemma {:induction false} MovesMove(instrs: seq<Instr>, cie: Cie, m: Machine)
    requires Plain(instrs)
    ensures Run(Moves(instrs), cie, m) == m.(row := m.row.(location := Run(instrs, cie, m).row.location))
    decreases |instrs|
  {
    if instrs != [] {
      var rest, i := instrs[..|instrs| - 1], instrs[|instrs| - 1];
      assert instrs == rest + [i];
      MovesMove(rest, cie, m);
      RunLast(rest, i, cie, m);
      RunLast(Moves(rest), i, cie, m);
      ApplyMovesLocation(i, cie, Run(rest, cie, m));
    }
  }

  /** The machine behind `instrs`: the row of what counts, and on the stack the rows of what counted
      at each open remember. */
  ghost predicate Reflects(m: Machine, h: History, cie: Cie, start: UnwindRow) {
    && m.row == Run(h.counted, cie, Machine(start, [])).row
    && |m.stack| == |h.open|
    && forall k | 0 <= k < |h.open| ::
         && h.open[k] <= |h.counted|
         && m.stack[k] == Run(h.counted[..h.open[k]], cie, Machine(start, [])).row
  }

  lemma RowIgnoresStack(i: Instr, cie: Cie, m: Machine, n: Machine)
    requires !Bracket(i) && m.row == n.row
    ensures Apply(i, cie, m).row == Apply(i, cie, n).row
  {
  }

  lemma InstructionReflected(i: Instr, m: Machine, h: History, cie: Cie, start: UnwindRow)
    requires Reflects(m, h, cie, start) && !Bracket(i)
    ensures Reflects(Apply(i, cie, m), h.(counted := h.counted + [i]), cie, start)
  {
    hide Apply, Run;
    RunLast(h.counted, i, cie, Machine(start, []));
    RowIgnoresStack(i, cie, m, Run(h.counted, cie, Machine(start, [])));
    PlainKeepsStack(i, cie, m);
    assert forall k | 0 <= k < |h.open| :: (h.counted + [i])[..h.open[k]] == h.counted[..h.open[k]];
  }

  lemma RestoreReflected(m: Machine, h: History, cie: Cie, start: UnwindRow)
    requires Nested(h) && Reflects(m, h, cie, start) && h.open != []
    ensures var depth := |h.open| - 1;
            var kept := h.open[depth];
            Reflects(Apply(Restore, cie, m),
                     History(h.counted[..kept] + Moves(h.counted[kept..]), h.open[..depth]), cie, start)
  {
    hide Run;
    var depth := |h.open| - 1;
    var kept, m0 := h.open[depth], Machine(start, []);
    var top, rest := h.counted[..kept], h.counted[kept..];
    assert h.counted == top + rest;
    RunAppend(top, rest, cie, m0);
    RunAppend(top, Moves(rest), cie, m0);
    MovesMove(rest, cie, Run(top, cie, m0));
    assert forall k | 0 <= k < depth :: (top + Moves(rest))[..h.open[k]] == h.counted[..h.open[k]];
  }

  lemma StepReflected(i: Instr, m: Machine, h: History, cie: Cie, start: UnwindRow)
    requires Nested(h) && Reflects(m, h, cie, start)
    ensures Reflects(Apply(i, cie, m), Extended(h, i), cie, start)
  {
    hide Reflects;
    match i
    case Remember => RememberReflected(m, h, cie, start);
    case Restore =>
      if h.open == [] {
        NothingToRestore(m, h, cie, start);
      } else {
        RestoreReflected(m, h, cie, start);
      }
    case _ => InstructionReflected(i, m, h, cie, start);
  }

  lemma {:induction false} HistoryReflected(instrs: seq<Instr>, cie: Cie, start: UnwindRow)
    ensures Reflects(Run(instrs, cie, Machine(start, [])), HistoryOf(instrs), cie, start)
    decreases |instrs|
  {
    hide Reflects, Apply, Extended;
    if instrs == [] {
      Untouched(cie, start);
    } else {
      var rest, i := instrs[..|instrs| - 1], instrs[|instrs| - 1];
      assert instrs == rest + [i];
      HistoryReflected(rest, cie, start);
      RunLast(rest, i, cie, Machine(start, []));
      StepReflected(i, Run(rest, cie, Machine(start, [])), HistoryOf(rest), cie, start);
    }
  }

  lemma Untouched(cie: Cie, start: UnwindRow)
    ensures Reflects(Machine(start, []), History([], []), cie, start)
  {
  }

  lemma NothingToRestore(m: Machine, h: History, cie: Cie, start: UnwindRow)
    requires Reflects(m, h, cie, start) && h.open == []
    ensures Apply(Restore, cie, m) == m
  {
  }

  lemma RememberReflected(m: Machine, h: History, cie: Cie, start: UnwindRow)
    requires Reflects(m, h, cie, start)
    ensures Reflects(Apply(Remember, cie, m), h.(open := h.open + [|h.counted|]), cie, start)
  {
    hide Run;
    assert h.counted[..|h.counted|] == h.counted;
  }

  /** For every program, brackets nested and unmatched as they may be: the row it leaves is written
      by the last writers among the instructions that count. */
  lemma {:induction false} ProgramWritten(instrs: seq<Instr>, cie: Cie, start: UnwindRow)
    ensures Written(Run(instrs, cie, Machine(start, [])).row, Counted(instrs), cie, start)
  {
    hide Run, Written;
    HistoryReflected(instrs, cie, start);
    LastWriters(Counted(instrs), cie, Machine(start, []));
  }
}
