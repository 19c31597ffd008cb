/** Following the imports between macro units: `gatherMacroUnitEntries` of
    src/debug_macro_parser.cpp. The import graph may have cycles. */
module MacroImports {
  import opened Words

  datatype MacroEntry =
    | Import(offset: u64)
    | Other(kind: u8, line: u64, name: string, value: string)

  /** The entries of the unit at an offset, up to its end or the first one that does not decode;
      none if there is no unit header. */
  type Units = u64 -> seq<MacroEntry>

  /** Entry k of the unit at an offset. */
  type Origin = (u64, nat)

  /** The offsets seen, and where the entries put out came from. */
  datatype Walk = Walk(seen: set<u64>, log: seq<Origin>)

  predicate Inside(x: u64, size: nat) {
    x < size
  }

  function Section(size: nat): set<u64> {
    set x: u64 | x < size && Inside(x, size)
  }

  /** A unit, with imported units in the place of their first import. */
  function WalkUnit(units: Units, size: nat, offset: u64, seen: set<u64>): (w: Walk)
    ensures seen <= w.seen
    decreases Section(size) - seen, 0
  {
    if offset >= size || offset in seen then Walk(seen, [])
    else
      assert offset in Section(size) - seen && offset !in Section(size) - (seen + {offset});
      WalkEntries(units, size, offset, 0, seen + {offset})
  }

  function WalkEntries(units: Units, size: nat, unit: u64, i: nat, seen: set<u64>): (w: Walk)
    ensures seen <= w.seen
    decreases Section(size) - seen, |units(unit)| - i
  {
    if i >= |units(unit)| then Walk(seen, [])
    else
      var entry := units(unit)[i];
      var inner := if entry.Import? then WalkUnit(units, size, entry.offset, seen) else Walk(seen, []);
      assert inner.seen == seen || Section(size) - inner.seen <= Section(size) - seen;
      var rest := WalkEntries(units, size, unit, i + 1, inner.seen);
      Walk(rest.seen, [(unit, i)] + inner.log + rest.log)
  }

  predicate Exists(units: Units, o: Origin) {
    o.1 < |units(o.0)|
  }

  function EntriesOf(units: Units, log: seq<Origin>): seq<MacroEntry>
    requires forall k :: 0 <= k < |log| ==> Exists(units, log[k])
  {
    seq(|log|, k requires 0 <= k < |log| && Exists(units, log[k]) => units(log[k].0)[log[k].1])
  }

  // ----------------------------------------------------- once, and in order

  /** The log has the entries of the new units, and those of `unit` from i on. */
  ghost predicate LogMeans(units: Units, unit: u64, i: nat, seen: set<u64>, w: Walk) {
    forall o: Origin :: o in w.log <==> Exists(units, o) && (o.0 in w.seen - seen || (o.0 == unit && o.1 >= i))
  }

  /** Entries of the same unit stand in their order, and therefore only once. */
  ghost predicate InOrder(log: seq<Origin>) {
    forall a, b :: 0 <= a < b < |log| && log[a].0 == log[b].0 ==> log[a].1 < log[b].1
  }

  lemma {:induction false} UnitLog(units: Units, size: nat, offset: u64, seen: set<u64>)
    ensures var w := WalkUnit(units, size, offset, seen);
            LogMeans(units, offset, |units(offset)|, seen, w) && InOrder(w.log)
    decreases Section(size) - seen, 0
  {
    if offset < size && offset !in seen {
      assert offset in Section(size) - seen && offset !in Section(size) - (seen + {offset});
      EntriesLog(units, size, offset, 0, seen + {offset});
    }
  }

  lemma {:induction false} EntriesLog(units: Units, size: nat, unit: u64, i: nat, seen: set<u64>)
    requires unit in seen
    ensures var w := WalkEntries(units, size, unit, i, seen);
            LogMeans(units, unit, i, seen, w) && InOrder(w.log)
    decreases Section(size) - seen, |units(unit)| - i
  {
    if i < |units(unit)| {
      var entry := units(unit)[i];
      var inner := if entry.Import? then WalkUnit(units, size, entry.offset, seen) else Walk(seen, []);
      assert inner.seen == seen || Section(size) - inner.seen <= Section(size) - seen;
      if entry.Import? {
        UnitLog(units, size, entry.offset, seen);
      }
      EntriesLog(units, size, unit, i + 1, inner.seen);
      JoinLogs(units, unit, i, seen, entry, inner, WalkEntries(units, size, unit, i + 1, inner.seen));
    }
  }

  lemma JoinLogs(units: Units, unit: u64, i: nat, seen: set<u64>, entry: MacroEntry, inner: Walk, rest: Walk)
    requires unit in seen && i < |units(unit)|
    requires seen <= inner.seen <= rest.seen
    requires if entry.Import? then LogMeans(units, entry.offset, |units(entry.offset)|, seen, inner)
             else inner == Walk(seen, [])
    requires InOrder(inner.log) && InOrder(rest.log) && LogMeans(units, unit, i + 1, inner.seen, rest)
    ensures LogMeans(units, unit, i, seen, Walk(rest.seen, [(unit, i)] + inner.log + rest.log))
    ensures InOrder([(unit, i)] + inner.log + rest.log)
  {
    var log := [(unit, i)] + inner.log + rest.log;
    forall o: Origin
      ensures o in log <==> o == (unit, i) || o in inner.log || o in rest.log
    {
    }
    forall o | o in inner.log
      ensures o.0 in inner.seen - seen
    {
    }
    OrderJoined([(unit, i)], inner.log);
    OrderJoined([(unit, i)] + inner.log, rest.log);
  }

  lemma OrderJoined(l: seq<Origin>, r: seq<Origin>)
    requires InOrder(l) && InOrder(r)
    requires forall o, p | o in l && p in r && o.0 == p.0 :: o.1 < p.1
    ensures InOrder(l + r)
  {
    forall a, b | 0 <= a < b < |l + r| && (l + r)[a].0 == (l + r)[b].0
      ensures (l + r)[a].1 < (l + r)[b].1
    {
      if a < |l| <= b {
        assert l[a] in l && r[b - |l|] in r;
      }
    }
  }

  // ------------------------------------------------------------- reachability

  ghost predicate Imports(units: Units, size: nat, from: u64, to: u64) {
    to < size && Import(to) in units(from)
  }

  /** A path of imports inside the section that touches none of the offsets to avoid. */
  ghost predicate Path(units: Units, size: nat, avoid: set<u64>, p: seq<u64>) {
    && (forall x | x in p :: x < size && x !in avoid)
    && forall k :: 0 <= k < |p| - 1 ==> Imports(units, size, p[k], p[k + 1])
  }

  ghost predicate Reaches(units: Units, size: nat, avoid: set<u64>, from: u64, to: u64) {
    exists p :: p != [] && p[0] == from && p[|p| - 1] == to && Path(units, size, avoid, p)
  }

  ghost predicate ReachesOn(units: Units, size: nat, avoid: set<u64>, unit: u64, to: u64) {
    exists t :: Imports(units, size, unit, t) && Reaches(units, size, avoid, t, to)
  }

  lemma AvoidLess(units: Units, size: nat, avoid: set<u64>, less: set<u64>, from: u64, to: u64)
    requires less <= avoid && Reaches(units, size, avoid, from, to)
    ensures Reaches(units, size, less, from, to)
  {
    var p :| p != [] && p[0] == from && p[|p| - 1] == to && Path(units, size, avoid, p);
    assert Path(units, size, less, p);
  }

  lemma Prepend(units: Units, size: nat, avoid: set<u64>, unit: u64, to: u64)
    requires unit < size && unit !in avoid
    requires to == unit || ReachesOn(units, size, avoid + {unit}, unit, to)
    ensures Reaches(units, size, avoid, unit, to)
  {
    if to == unit {
      assert Path(units, size, avoid, [unit]);
      assert [unit][0] == unit;
    } else {
      var t :| Imports(units, size, unit, t) && Reaches(units, size, avoid + {unit}, t, to);
      var p :| p != [] && p[0] == t && p[|p| - 1] == to && Path(units, size, avoid + {unit}, p);
      var q := [unit] + p;
      forall k | 0 <= k < |q| - 1
        ensures Imports(units, size, q[k], q[k + 1])
      {
        if k > 0 {
          assert Imports(units, size, p[k - 1], p[k - 1 + 1]);
        }
      }
      assert Path(units, size, avoid, q);
    }
  }

  /** Everything newly seen is reached, without passing through what was seen before. */
  lemma {:induction false} UnitReaches(units: Units, size: nat, offset: u64, seen: set<u64>, x: u64)
    requires x in WalkUnit(units, size, offset, seen).seen - seen
    ensures Reaches(units, size, seen, offset, x)
    decreases Section(size) - seen, 0
  {
    assert offset in Section(size) - seen && offset !in Section(size) - (seen + {offset});
    if x != offset {
      EntriesReach(units, size, offset, 0, seen + {offset}, x);
    }
    Prepend(units, size, seen, offset, x);
  }

  lemma {:induction false} EntriesReach(units: Units, size: nat, unit: u64, i: nat, seen: set<u64>, x: u64)
    requires x in WalkEntries(units, size, unit, i, seen).seen - seen
    ensures ReachesOn(units, size, seen, unit, x)
    decreases Section(size) - seen, |units(unit)| - i
  {
    var entry := units(unit)[i];
    var inner := if entry.Import? then WalkUnit(units, size, entry.offset, seen) else Walk(seen, []);
    assert inner.seen == seen || Section(size) - inner.seen <= Section(size) - seen;
    if x in inner.seen {
      UnitReaches(units, size, entry.offset, seen, x);
      assert Imports(units, size, unit, entry.offset);
    } else {
      EntriesReach(units, size, unit, i + 1, inner.seen, x);
      var t :| Imports(units, size, unit, t) && Reaches(units, size, inner.seen, t, x);
      AvoidLess(units, size, inner.seen, seen, t, x);
    }
  }

  /** What newly seen units import is seen, and what `unit` imports from its entry i on. */
  ghost predicate Closed(units: Units, size: nat, unit: u64, i: nat, seen: set<u64>, after: set<u64>) {
    && (forall u, t :: u in after - seen && Imports(units, size, u, t) ==> t in after)
    && forall k :: i <= k < |units(unit)| && units(unit)[k].Import? && units(unit)[k].offset < size ==>
                     units(unit)[k].offset in after
  }

  lemma {:induction false} UnitClosed(units: Units, size: nat, offset: u64, seen: set<u64>)
    ensures var w := WalkUnit(units, size, offset, seen);
            && Closed(units, size, offset, |units(offset)|, seen, w.seen)
            && (offset < size ==> offset in w.seen)
    decreases Section(size) - seen, 0
  {
    if offset < size && offset !in seen {
      assert offset in Section(size) - seen && offset !in Section(size) - (seen + {offset});
      EntriesClosed(units, size, offset, 0, seen + {offset});
      var w := WalkUnit(units, size, offset, seen);
      forall u, t | u in w.seen - seen && Imports(units, size, u, t)
        ensures t in w.seen
      {
        if u == offset {
          var k :| 0 <= k < |units(offset)| && units(offset)[k] == Import(t);
        }
      }
    }
  }

  lemma {:induction false} EntriesClosed(units: Units, size: nat, unit: u64, i: nat, seen: set<u64>)
    ensures Closed(units, size, unit, i, seen, WalkEntries(units, size, unit, i, seen).seen)
    decreases Section(size) - seen, |units(unit)| - i
  {
    if i < |units(unit)| {
      var entry := units(unit)[i];
      var inner := if entry.Import? then WalkUnit(units, size, entry.offset, seen) else Walk(seen, []);
      assert inner.seen == seen || Section(size) - inner.seen <= Section(size) - seen;
      if entry.Import? {
        UnitClosed(units, size, entry.offset, seen);
      }
      EntriesClosed(units, size, unit, i + 1, inner.seen);
    }
  }

  lemma {:induction false} PathSeen(units: Units, size: nat, offset: u64, seen: set<u64>, p: seq<u64>, k: nat)
    requires k < |p| && p[0] == offset && Path(units, size, seen, p)
    ensures p[k] in WalkUnit(units, size, offset, seen).seen
  {
    hide WalkUnit;
    UnitClosed(units, size, offset, seen);
    if k > 0 {
      PathSeen(units, size, offset, seen, p, k - 1);
      assert p[k - 1] in p && Imports(units, size, p[k - 1], p[k - 1 + 1]);
    }
  }

  /** On any import graph, cycles included, and whatever was seen before: the walk newly sees
      exactly the offsets it can reach inside the section without passing through seen ones. */
  lemma WalkSeesReachable(units: Units, size: nat, offset: u64, seen: set<u64>, x: u64)
    ensures x in WalkUnit(units, size, offset, seen).seen <==> x in seen || Reaches(units, size, seen, offset, x)
  {
    hide WalkUnit;
    if x in WalkUnit(units, size, offset, seen).seen - seen {
      UnitReaches(units, size, offset, seen, x);
    }
    if Reaches(units, size, seen, offset, x) {
      var p :| p != [] && p[0] == offset && p[|p| - 1] == x && Path(units, size, seen, p);
      PathSeen(units, size, offset, seen, p, |p| - 1);
    }
  }

  /** And it puts out each entry of each newly seen unit once, those of a unit in their order. */
  lemma EntriesOnce(units: Units, size: nat, offset: u64, seen: set<u64>, unit: u64, i: nat)
    ensures var log := WalkUnit(units, size, offset, seen).log;
            && ((unit, i) in log <==> i < |units(unit)| && unit !in seen && Reaches(units, size, seen, offset, unit))
            && forall a, b :: 0 <= a < b < |log| && log[a].0 == log[b].0 == unit ==> log[a].1 < log[b].1
  {
    hide WalkUnit;
    UnitLog(units, size, offset, seen);
    WalkSeesReachable(units, size, offset, seen, unit);
    var w := WalkUnit(units, size, offset, seen);
    assert (unit, i) in w.log <==> Exists(units, (unit, i)) && unit in w.seen - seen;
  }

  /** A unit begins right behind the import that brings it in, and the first unit of all begins the
      log. */
  ghost predicate InPlace(units: Units, log: seq<Origin>, first: Origin) {
    && (log != [] ==> log[0] == first)
    && forall b :: 0 < b < |log| && log[b].1 == 0 ==>
                     Exists(units, log[b - 1]) && units(log[b - 1].0)[log[b - 1].1] == Import(log[b].0)
  }

  lemma {:induction false} UnitsInPlace(units: Units, size: nat, offset: u64, seen: set<u64>)
    ensures InPlace(units, WalkUnit(units, size, offset, seen).log, (offset, 0))
    decreases Section(size) - seen, 0
  {
    if offset < size && offset !in seen {
      assert offset in Section(size) - seen && offset !in Section(size) - (seen + {offset});
      EntriesInPlace(units, size, offset, 0, seen + {offset});
    }
  }

  lemma {:induction false} EntriesInPlace(units: Units, size: nat, unit: u64, i: nat, seen: set<u64>)
    ensures InPlace(units, WalkEntries(units, size, unit, i, seen).log, (unit, i))
    decreases Section(size) - seen, |units(unit)| - i
  {
    if i < |units(unit)| {
      var entry := units(unit)[i];
      var inner := if entry.Import? then WalkUnit(units, size, entry.offset, seen) else Walk(seen, []);
      assert inner.seen == seen || Section(size) - inner.seen <= Section(size) - seen;
      if entry.Import? {
        UnitsInPlace(units, size, entry.offset, seen);
      }
      EntriesInPlace(units, size, unit, i + 1, inner.seen);
      PlaceJoined(units, (unit, i), inner.log, WalkEntries(units, size, unit, i + 1, inner.seen).log);
    }
  }

  lemma PlaceJoined(units: Units, o: Origin, inner: seq<Origin>, rest: seq<Origin>)
    requires Exists(units, o)
    requires inner != [] ==> units(o.0)[o.1].Import? && InPlace(units, inner, (units(o.0)[o.1].offset, 0))
    requires InPlace(units, rest, (o.0, o.1 + 1))
    ensures InPlace(units, [o] + inner + rest, o)
  {
    var log := [o] + inner + rest;
    forall b | 0 < b < |log| && log[b].1 == 0
      ensures Exists(units, log[b - 1]) && units(log[b - 1].0)[log[b - 1].1] == Import(log[b].0)
    {
      if b <= |inner| {
        assert log[b] == inner[b - 1];
        assert b > 1 ==> log[b - 1] == inner[b - 2];
      } else {
        var k := b - 1 - |inner|;
        assert log[b] == rest[k];
        assert k > 0 ==> log[b - 1] == rest[k - 1];
      }
    }
  }

  // ---------------------------------------------------------- implementation

  class MacroGatherer {
    const units: Units
    const size: nat
    var visited: set<u64>
    var out: seq<MacroEntry>

    constructor (units: Units, size: nat)
      ensures this.units == units && this.size == size && visited == {} && out == []
    {
      this.units, this.size, visited, out := units, size, {}, [];
    }

    /** `gatherMacroUnitEntries` */
    method GatherUnit(offset: u64)
      modifies this
      ensures visited == WalkUnit(units, size, offset, old(visited)).seen
      ensures Appended(units, old(out), out, WalkUnit(units, size, offset, old(visited)).log)
      decreases Section(size) - visited
    {
      hide WalkEntries;
      if offset >= size || offset in visited {
        return;
      }
      assert offset in Section(size) - visited && offset !in Section(size) - (visited + {offset});
      visited := visited + {offset};
      ghost var all := WalkEntries(units, size, offset, 0, visited);
      ghost var done: seq<Origin> := [];
      var entries := units(offset);
      var i := 0;
      while i < |entries|
        invariant i <= |entries| && old(visited) + {offset} <= visited
        invariant all.seen == WalkEntries(units, size, offset, i, visited).seen
        invariant all.log == done + WalkEntries(units, size, offset, i, visited).log
        invariant Appended(units, old(out), out, done)
      {
        WalkStep(units, size, offset, i, visited);
        ghost var inner := if entries[i].Import? then WalkUnit(units, size, entries[i].offset, visited) else Walk(visited, []);
        ghost var rest := WalkEntries(units, size, offset, i + 1, inner.seen);
        assert all.log == done + ([(offset, i)] + inner.log + rest.log) == (done + [(offset, i)] + inner.log) + rest.log;
        AppendOne(units, old(out), out, done, (offset, i));
        out := out + [entries[i]];
        ghost var before := out;
        if entries[i].Import? {
          assert Section(size) - visited <= Section(size) - (old(visited) + {offset});
          GatherUnit(entries[i].offset);
        }
        AppendMore(units, old(out), before, out, done + [(offset, i)], inner.log);
        done := done + [(offset, i)] + inner.log;
        i := i + 1;
      }
      WalkEnd(units, size, offset, i, visited);
    }
  }

  /** The output grew by the entries of a log. */
  ghost predicate Appended(units: Units, before: seq<MacroEntry>, after: seq<MacroEntry>, log: seq<Origin>) {
    && (forall k :: 0 <= k < |log| ==> Exists(units, log[k]))
    && after == before + EntriesOf(units, log)
  }

  lemma WalkStep(units: Units, size: nat, unit: u64, i: nat, seen: set<u64>)
    requires i < |units(unit)|
    ensures var entry := units(unit)[i];
            var inner := if entry.Import? then WalkUnit(units, size, entry.offset, seen) else Walk(seen, []);
            var rest := WalkEntries(units, size, unit, i + 1, inner.seen);
            WalkEntries(units, size, unit, i, seen) == Walk(rest.seen, [(unit, i)] + inner.log + rest.log)
  {
    hide WalkUnit;
  }

  lemma WalkEnd(units: Units, size: nat, unit: u64, i: nat, seen: set<u64>)
    requires i >= |units(unit)|
    ensures WalkEntries(units, size, unit, i, seen) == Walk(seen, [])
  {
  }

  lemma AppendOne(units: Units, before: seq<MacroEntry>, after: seq<MacroEntry>, log: seq<Origin>, o: Origin)
    requires Appended(units, before, after, log) && Exists(units, o)
    ensures Appended(units, before, after + [units(o.0)[o.1]], log + [o])
  {
  }

  lemma AppendMore(
      units: Units, first: seq<MacroEntry>, before: seq<MacroEntry>, after: seq<MacroEntry>, l: seq<Origin>, r: seq<Origin>)
    requires Appended(units, first, before, l) && Appended(units, before, after, r)
    ensures Appended(units, first, after, l + r)
  {
  }
}
