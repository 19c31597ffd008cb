/** What the coalesced row table of `getUnwindInfo` means: the search of section 6.4.3 of
    DWARF 5, piecewise constancy, and the remember/restore bracket. */
module UnwindTable {
  import opened Words
  import opened CfiModel
  import opened CfiInterpreter

  // ------------------------------------------------------ the lookup by itself

  ghost predicate IsLastOfMaximal(table: seq<UnwindRow>, pc: u64, k: nat) {
    && k < |table| && table[k].location <= pc
    && (forall j | 0 <= j < k :: table[j].location <= pc ==> table[j].location <= table[k].location)
    && (forall j | k < j < |table| :: table[j].location <= pc ==> table[j].location < table[k].location)
  }

  /** For any table, sorted or not, whose first row is not past `pc`: the lookup finds the last
      of the rows with the greatest location not past `pc`. */
  lemma {:induction false} LookupFindsLastMaximal(table: seq<UnwindRow>, pc: u64) returns (k: nat)
    requires table != [] && table[0].location <= pc
    ensures IsLastOfMaximal(table, pc, k) && BestRow(table, pc, table[0]) == table[k]
  {
    k := 0;
    var i := 0;
    while i < |table|
      invariant 0 <= i <= |table| && (i == 0 ==> k == 0) && (i > 0 ==> IsLastOfMaximal(table[..i], pc, k))
      invariant BestRow(table, pc, table[0]) == BestRow(table[i..], pc, table[k])
    {
      assert table[i..][1..] == table[i + 1..];
      if table[k].location <= table[i].location <= pc {
        k := i;
      }
      i := i + 1;
    }
    assert table[..i] == table;
  }

  /** Piecewise constancy: two program counters with no row location in between get the same
      row, in any table. */
  lemma {:induction false} SameRowBetweenLocations(rows: seq<UnwindRow>, p: u64, q: u64, best: UnwindRow)
    requires p <= q && forall row | row in rows :: !(p < row.location <= q)
    ensures BestRow(rows, p, best) == BestRow(rows, q, best)
    decreases |rows|
  {
    if rows != [] {
      assert rows[0] in rows;
      SameRowBetweenLocations(rows[1..], p, q, if best.location <= rows[0].location <= p then rows[0] else best);
    }
  }

  // --------------------------------------------------- section 6.4.3 of DWARF 5

  /** The procedure of the standard: process instructions until one would move the location past
      `pc`, or the stream ends; the rules in force then apply. */
  ghost function RulesInForce(cie: Cie, littleEndian: bool, ins: seq<u8>, off: nat, m: Machine, pc: u64): UnwindRow
    decreases |ins| - off
  {
    if off >= |ins| then m.row
    else
      match Fetch(cie, littleEndian, ins, off)
      case None => m.row
      case Some(f) =>
        if LocationAfter(f.instr, m.row.location) > pc then m.row
        else RulesInForce(cie, littleEndian, ins, f.next, Apply(f.instr, cie, m), pc)
  }

  ghost predicate NonDecreasing(first: UnwindRow, rows: seq<UnwindRow>)
    decreases |rows|
  {
    rows != [] ==> first.location <= rows[0].location && NonDecreasing(rows[0], rows[1..])
  }

  /** The same search on the rows the program goes through. */
  function LastNotPast(current: UnwindRow, rows: seq<UnwindRow>, pc: u64): UnwindRow
    decreases |rows|
  {
    if rows == [] || rows[0].location > pc then current else LastNotPast(rows[0], rows[1..], pc)
  }

  lemma {:induction false} RulesInForceOnTrace(cie: Cie, littleEndian: bool, ins: seq<u8>, off: nat, m: Machine, pc: u64)
    requires m.row.location <= pc
    ensures RulesInForce(cie, littleEndian, ins, off, m, pc)
         == LastNotPast(m.row, Trace(cie, littleEndian, ins, off, m), pc)
    decreases |ins| - off
  {
    hide Fetch, Apply;
    if off < |ins| {
      var p := Step(cie, littleEndian, ins, off, m);
      var rows := Trace(cie, littleEndian, ins, off, m);
      assert rows[1..] == Trace(cie, littleEndian, ins, p.offset, p.machine);
      match Fetch(cie, littleEndian, ins, off)
      case None =>
        assert rows[1..] == [];
      case Some(f) =>
        ApplyMovesLocation(f.instr, cie, m);
        if p.machine.row.location <= pc {
          RulesInForceOnTrace(cie, littleEndian, ins, p.offset, p.machine, pc);
        }
    }
  }

  ghost predicate Sorted(table: seq<UnwindRow>) {
    forall i, j | 0 <= i < j < |table| :: table[i].location < table[j].location
  }

  lemma {:induction false} LookupPrefers(table: seq<UnwindRow>, pc: u64, best: UnwindRow, k: nat)
    requires Sorted(table) && k < |table| && best.location <= table[0].location && table[k].location <= pc
    requires k + 1 < |table| ==> table[k + 1].location > pc
    ensures BestRow(table, pc, best) == table[k]
    decreases k
  {
    assert table[0].location <= pc;
    if k == 0 {
      if |table| > 1 {
        NothingBetter(table[1..], pc, table[0]);
      }
    } else {
      LookupPrefers(table[1..], pc, table[0], k - 1);
    }
  }

  lemma {:induction false} NothingBetter(rows: seq<UnwindRow>, pc: u64, best: UnwindRow)
    requires forall row | row in rows :: row.location > pc
    ensures BestRow(rows, pc, best) == best
    decreases |rows|
  {
    if rows != [] {
      assert rows[0] in rows;
      NothingBetter(rows[1..], pc, best);
    }
  }

  /** While the rows come in order the table stays sorted and its first `k + 1` rows, all not
      past `pc`, end up as the rows that matter. */
  lemma {:induction false} RecordingInOrder(
      table: seq<UnwindRow>, rows: seq<UnwindRow>, begin: u64, end: u64, pc: u64)
    requires table != [] && Sorted(table) && begin <= table[0].location
    requires begin <= pc < end && NonDecreasing(table[|table| - 1], rows)
    requires table[|table| - 1].location <= pc
    ensures var t := RecordAll(table, rows, begin, end);
            BestRow(t, pc, t[0]) == LastNotPast(table[|table| - 1], rows, pc)
    decreases |rows|
  {
    if rows == [] || rows[0].location > pc {
      LaterRowsIgnored(table, rows, begin, end, pc);
    } else {
      RecordKeepsOrder(table, rows[0], begin, end);
      hide Record, BestRow, Sorted;
      RecordingInOrder(Record(table, rows[0], begin, end), rows[1..], begin, end, pc);
    }
  }

  lemma LaterRowsIgnored(table: seq<UnwindRow>, rows: seq<UnwindRow>, begin: u64, end: u64, pc: u64)
    requires table != [] && Sorted(table) && begin <= table[0].location
    requires NonDecreasing(table[|table| - 1], rows) && table[|table| - 1].location <= pc
    requires rows == [] || rows[0].location > pc
    ensures var t := RecordAll(table, rows, begin, end);
            BestRow(t, pc, t[0]) == table[|table| - 1]
  {
    var t := RecordAll(table, rows, begin, end);
    LaterRowsKeepPrefix(table, [], table[|table| - 1], rows, begin, end, pc);
    assert table + [] == table;
    hide RecordAll, BestRow;
    LookupPrefers(t, pc, t[0], |table| - 1);
  }

  lemma RecordKeepsOrder(table: seq<UnwindRow>, row: UnwindRow, begin: u64, end: u64)
    requires table != [] && Sorted(table) && begin <= table[0].location
    requires table[|table| - 1].location <= row.location < end
    ensures var t := Record(table, row, begin, end);
            t != [] && Sorted(t) && begin <= t[0].location && t[|t| - 1] == row
  {
  }

  lemma {:induction false} LaterRowKeepsPrefix(
      table: seq<UnwindRow>, extra: seq<UnwindRow>, current: UnwindRow, row: UnwindRow, begin: u64, end: u64, pc: u64)
    returns (extra': seq<UnwindRow>)
    requires table != [] && Sorted(table + extra) && table[|table| - 1].location <= pc
    requires forall r | r in extra :: r.location > pc
    requires current.location <= row.location && row.location > pc
    requires forall r | r in table + extra :: r.location <= current.location
    ensures Record(table + extra, row, begin, end) == table + extra'
    ensures Sorted(table + extra') && forall r | r in extra' :: r.location > pc
    ensures forall r | r in table + extra' :: r.location <= row.location
  {
    var all := table + extra;
    if !(begin <= row.location < end) {
      extra' := extra;
    } else if extra != [] && extra[|extra| - 1].location == row.location {
      extra' := extra[|extra| - 1 := row];
      assert all[|all| - 1 := row] == table + extra';
    } else {
      extra' := extra + [row];
      assert all + [row] == table + extra';
      assert all[|all| - 1] in all;
    }
  }

  lemma {:induction false} LaterRowsKeepPrefix(
      table: seq<UnwindRow>, extra: seq<UnwindRow>, current: UnwindRow, rows: seq<UnwindRow>, begin: u64, end: u64, pc: u64)
    requires table != [] && Sorted(table + extra) && table[|table| - 1].location <= pc
    requires forall row | row in extra :: row.location > pc
    requires NonDecreasing(current, rows) && (rows != [] ==> rows[0].location > pc)
    requires forall row | row in table + extra :: row.location <= current.location
    ensures var t := RecordAll(table + extra, rows, begin, end);
            table <= t && Sorted(t) && (|t| > |table| ==> t[|table|].location > pc)
    decreases |rows|
  {
    if rows != [] {
      var extra' := LaterRowKeepsPrefix(table, extra, current, rows[0], begin, end, pc);
      LaterRowsKeepPrefix(table, extra', rows[0], rows[1..], begin, end, pc);
    } else if extra != [] {
      assert extra[0] in extra;
    }
  }

  /** For programs whose locations never decrease the table lookup answers every program counter
      of the FDE exactly as the standard's procedure does. */
  lemma {:induction false} LookupMeetsStandard(fde: Fde, cie: Cie, littleEndian: bool, pc: u64)
    requires fde.initialLocation + fde.addressRange < TWO_64
    requires fde.initialLocation <= pc < fde.initialLocation + fde.addressRange
    requires var m := InitialMachine(fde, cie);
             NonDecreasing(m.row, Trace(cie, littleEndian, fde.instructions, 0, m))
    ensures RowFor(fde, cie, littleEndian, pc)
         == RulesInForce(cie, littleEndian, fde.instructions, 0, InitialMachine(fde, cie), pc)
  {
    hide Trace, RulesInForce;
    var m := InitialMachine(fde, cie);
    RulesInForceOnTrace(cie, littleEndian, fde.instructions, 0, m, pc);
    RecordingInOrder([m.row], Trace(cie, littleEndian, fde.instructions, 0, m), fde.initialLocation, EndOf(fde), pc);
  }

  // --------------------------------------------------- remember and restore

  /** Running decoded instructions. */
  function Run(instrs: seq<Instr>, cie: Cie, m: Machine): Machine
    decreases |instrs|
  {
    if instrs == [] then m else Run(instrs[1..], cie, Apply(instrs[0], cie, m))
  }

  function FinalLocation(instrs: seq<Instr>, location: u64): u64
    decreases |instrs|
  {
    if instrs == [] then location else FinalLocation(instrs[1..], LocationAfter(instrs[0], location))
  }

  /** With `depth` rows remembered inside the block so far, the block never restores more than it
      remembered and ends with nothing remembered. */
  predicate Balanced(instrs: seq<Instr>, depth: nat)
    decreases |instrs|
  {
    if instrs == [] then depth == 0
    else
      match instrs[0]
      case Remember => Balanced(instrs[1..], depth + 1)
      case Restore => depth > 0 && Balanced(instrs[1..], depth - 1)
      case _ => Balanced(instrs[1..], depth)
  }

  lemma {:induction false} BalancedKeepsOuterStack(instrs: seq<Instr>, cie: Cie, m: Machine, outer: seq<UnwindRow>, depth: nat)
    requires Balanced(instrs, depth) && |m.stack| == |outer| + depth && m.stack[..|outer|] == outer
    ensures Run(instrs, cie, m).stack == outer
    ensures Run(instrs, cie, m).row.location == FinalLocation(instrs, m.row.location)
    decreases |instrs|
  {
    if instrs == [] {
      assert m.stack[..|outer|] == m.stack;
    } else {
      ApplyMovesLocation(instrs[0], cie, m);
      var depth' := if instrs[0] == Remember then depth + 1 else if instrs[0] == Restore then depth - 1 else depth;
      BalancedKeepsOuterStack(instrs[1..], cie, Apply(instrs[0], cie, m), outer, depth');
    }
  }

  lemma {:induction false} RunAppend(a: seq<Instr>, b: seq<Instr>, cie: Cie, m: Machine)
    ensures Run(a + b, cie, m) == Run(b, cie, Run(a, cie, m))
    decreases |a|
  {
    if a == [] {
      assert a + b == b;
    } else {
      assert (a + b)[1..] == a[1..] + b;
      RunAppend(a[1..], b, cie, Apply(a[0], cie, m));
    }
  }

  /** A balanced block between remember and restore leaves the CFA, the register rules, the
      return-address sign state and the stack as they were and moves only the location, by what
      the block's own location instructions do. */
  lemma {:induction false} BracketRestores(body: seq<Instr>, cie: Cie, m: Machine)
    requires Balanced(body, 0)
    ensures Run([Remember] + body + [Restore], cie, m)
         == Machine(m.row.(location := FinalLocation(body, m.row.location)), m.stack)
  {
    var inner := Machine(m.row, m.stack + [m.row]);
    BalancedKeepsOuterStack(body, cie, inner, inner.stack, 0);
    var after := Run(body, cie, inner);
    assert [Remember] + body + [Restore] == [Remember] + (body + [Restore]);
    RunAppend([Remember], body + [Restore], cie, m);
    RunAppend(body, [Restore], cie, inner);
    assert Run([Restore], cie, after) == Apply(Restore, cie, after);
    assert after.stack[|after.stack| - 1] == m.row && after.stack[..|after.stack| - 1] == m.stack;
  }

  /** `instrs` are the instructions in the bytes from `off` to `end`, all well decoded. */
  ghost predicate BlockDecodes(cie: Cie, littleEndian: bool, ins: seq<u8>, off: nat, end: nat, instrs: seq<Instr>)
    decreases |instrs|
  {
    if instrs == [] then off == end
    else
      && off < end <= |ins|
      && match Fetch(cie, littleEndian, ins, off)
         case None => false
         case Some(f) => f.instr == instrs[0] && BlockDecodes(cie, littleEndian, ins, f.next, end, instrs[1..])
  }

  /** On the bytes: the interpreter's trace from the start of a block is the trace of its
      instructions followed by the trace from its end. */
  lemma {:induction false} BlockRuns(
      cie: Cie, littleEndian: bool, ins: seq<u8>, off: nat, end: nat, instrs: seq<Instr>, m: Machine)
    requires BlockDecodes(cie, littleEndian, ins, off, end, instrs)
    ensures var t := Trace(cie, littleEndian, ins, off, m);
            |t| >= |instrs| && t[|instrs|..] == Trace(cie, littleEndian, ins, end, Run(instrs, cie, m))
    decreases |instrs|
  {
    hide Fetch, Apply;
    if instrs != [] {
      var p := Step(cie, littleEndian, ins, off, m);
      BlockRuns(cie, littleEndian, ins, p.offset, end, instrs[1..], p.machine);
      var t := Trace(cie, littleEndian, ins, off, m);
      assert t[1..][|instrs| - 1..] == t[|instrs|..];
    }
  }

  /** So behind a bracketed balanced block, nested to any depth, the interpreter goes on as if
      only the location had moved. */
  lemma {:induction false} BracketRestoresInStream(
      cie: Cie, littleEndian: bool, ins: seq<u8>, off: nat, end: nat, body: seq<Instr>, m: Machine)
    requires Balanced(body, 0)
    requires BlockDecodes(cie, littleEndian, ins, off, end, [Remember] + body + [Restore])
    ensures var t, n := Trace(cie, littleEndian, ins, off, m), |body| + 2;
            && |t| >= n
            && t[n..] == Trace(cie, littleEndian, ins, end,
                               Machine(m.row.(location := FinalLocation(body, m.row.location)), m.stack))
  {
    hide Trace;
    BracketRestores(body, cie, m);
    BlockRuns(cie, littleEndian, ins, off, end, [Remember] + body + [Restore], m);
  }
}
