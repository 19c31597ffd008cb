/** The four ways in which src/dwarf_compare.cpp pairs the frame descriptions of two binaries. */
module FdePairing {
  import opened Words
  import opened FdeQueues
  import opened KeyedPairing

  /** A frame description with the name of the function at its start ("" if there is none). */
  datatype Fde = Fde(start: u64, range: u64, func: string)

  /** The address map between the binaries; addresses it does not cover stay where they are. */
  type Remap = u64 -> Option<u64>

  datatype Mode = ByIndex | ByStart | ByRemappedStart | ByRange

  function StartKeys(fdes: seq<Fde>): (keys: Keys)
    ensures |keys| == |fdes| && Complete(keys)
  {
    seq(|fdes|, i requires 0 <= i < |fdes| => Some(Key(fdes[i].start, 0)))
  }

  function RangeKeys(fdes: seq<Fde>): (keys: Keys)
    ensures |keys| == |fdes| && Complete(keys)
  {
    seq(|fdes|, i requires 0 <= i < |fdes| => Some(Key(fdes[i].start, fdes[i].range)))
  }

  // ------------------------------------------------ the mode "remapped-pc"

  function Target(remap: Remap, fde: Fde): u64 {
    match remap(fde.start)
    case None => fde.start
    case Some(pc) => pc
  }

  function StartQueueKeys(fdes: seq<Fde>): (keys: seq<Option<u64>>)
    ensures |keys| == |fdes|
  {
    seq(|fdes|, i requires 0 <= i < |fdes| => Some(fdes[i].start))
  }

  function NameQueueKeys(fdes: seq<Fde>): (keys: seq<Option<string>>)
    ensures |keys| == |fdes|
  {
    seq(|fdes|, i requires 0 <= i < |fdes| => if fdes[i].func == "" then None else Some(fdes[i].func))
  }

  /** The right description starts where the map takes the start of the left one; a start that the
      map does not cover stays. */
  predicate StartsMatch(remap: Remap, l: Fde, r: Fde) {
    remap(l.start) == Some(r.start) || (remap(l.start) == None && l.start == r.start)
  }

  predicate NamesMatch(l: Fde, r: Fde) {
    l.func != "" && l.func == r.func
  }

  /** The right descriptions at an address, and those named like a function. */
  function AtStart(rhs: seq<Fde>, pc: u64): seq<nat> {
    Positions(StartQueueKeys(rhs), |rhs|, pc)
  }

  function Named(rhs: seq<Fde>, func: string): seq<nat> {
    if func == "" then [] else Positions(NameQueueKeys(rhs), |rhs|, func)
  }

  lemma AtStartMeans(rhs: seq<Fde>, pc: u64)
    ensures Ascending(AtStart(rhs, pc))
    ensures forall j: nat :: j in AtStart(rhs, pc) <==> j < |rhs| && rhs[j].start == pc
  {
    hide Positions;
    PositionsMeans(StartQueueKeys(rhs), |rhs|, pc);
  }

  lemma NamedMeans(rhs: seq<Fde>, func: string)
    ensures Ascending(Named(rhs, func))
    ensures forall j: nat :: j in Named(rhs, func) <==> func != "" && j < |rhs| && rhs[j].func == func
  {
    hide Positions;
    if func != "" {
      PositionsMeans(NameQueueKeys(rhs), |rhs|, func);
    }
  }

  /** The first unused description at the remapped start, else the first unused one of that
      function name. */
  function Partner(l: Fde, rhs: seq<Fde>, remap: Remap, used: set<nat>): Option<nat> {
    var byStart := FirstUnused(AtStart(rhs, Target(remap, l)), used);
    if byStart.Some? then byStart else FirstUnused(Named(rhs, l.func), used)
  }

  function Used(partners: seq<Option<nat>>): set<nat> {
    set p | p in partners && p.Some? :: p.value
  }

  /** The partners of the first n left descriptions: each takes from what the earlier ones left. */
  function Partners(lhs: seq<Fde>, rhs: seq<Fde>, remap: Remap, n: nat): (r: seq<Option<nat>>)
    requires n <= |lhs|
    ensures |r| == n
  {
    if n == 0 then []
    else
      var before := Partners(lhs, rhs, remap, n - 1);
      before + [Partner(lhs[n - 1], rhs, remap, Used(before))]
  }

  /** The pairs of a list of partners. */
  function PairsOf(partners: seq<Option<nat>>): seq<Pair> {
    if partners == [] then []
    else
      var n := |partners| - 1;
      PairsOf(partners[..n]) + if partners[n].Some? then [(n, partners[n].value)] else []
  }

  /** Whatever was popped from the queues is used. */
  ghost predicate StartQueues(queues: Queues<u64>, rhs: seq<Fde>, used: set<nat>) {
    forall pc: u64 :: Remains(Queue(queues, pc), AtStart(rhs, pc), used)
  }

  ghost predicate NameQueues(queues: Queues<string>, rhs: seq<Fde>, used: set<nat>) {
    forall func: string :: func != "" ==> Remains(Queue(queues, func), Named(rhs, func), used)
  }

  ghost predicate Flags(flags: seq<bool>, used: set<nat>) {
    forall j: nat :: j in used <==> j < |flags| && flags[j]
  }

  function Unset(flags: seq<bool>, n: nat): nat
    requires n <= |flags|
  {
    if n == 0 then 0 else Unset(flags, n - 1) + if flags[n - 1] then 0 else 1
  }

  /** One left description: first the queue of its target, then that of its function name. */
  method TakePartner(l: Fde, rhs: seq<Fde>, remap: Remap, starts: Queues<u64>, names: Queues<string>,
                     flags: seq<bool>, ghost used: set<nat>)
    returns (byStart: Queues<u64>, byName: Queues<string>, partner: Option<nat>)
    requires |flags| == |rhs| && Flags(flags, used)
    requires StartQueues(starts, rhs, used) && NameQueues(names, rhs, used)
    ensures partner == Partner(l, rhs, remap, used)
    ensures StartQueues(byStart, rhs, AlsoUsed(used, partner)) && NameQueues(byName, rhs, AlsoUsed(used, partner))
  {
    hide FirstUnused, Remains, AtStart, Named, StartQueues, NameQueues, Flags, Target;
    var pc, func := Target(remap, l), l.func;
    byStart, byName, partner := starts, names, None;
    FlagsCover(rhs, pc, func, flags, used);
    NothingQueued(byStart, byName, rhs, used, pc, func);
    if pc in byStart {
      var rest, taken := TakeFirstUnused(byStart[pc], flags, AtStart(rhs, pc), used);
      StartQueueSet(byStart, rhs, used, pc, rest, AlsoUsed(used, taken));
      byStart, partner := byStart[pc := rest], taken;
    }
    if partner.None? && func != "" && func in byName {
      var rest, taken := TakeFirstUnused(byName[func], flags, Named(rhs, func), used);
      NameQueueSet(byName, rhs, used, func, rest, AlsoUsed(used, taken));
      byName, partner := byName[func := rest], taken;
    }
    QueuesGrow(byStart, byName, rhs, used, AlsoUsed(used, partner));
  }

  /** The mode "remapped-pc". */
  method PairRemapped(lhs: seq<Fde>, rhs: seq<Fde>, remap: Remap)
    returns (pairs: seq<Pair>, missingRhs: nat, missingLhs: nat)
    ensures pairs == PairsOf(Partners(lhs, rhs, remap, |lhs|))
    ensures Conserved(pairs, missingRhs, missingLhs, |lhs|, |rhs|)
  {
    hide Positions, PairsOf, Partner, Partners, Used, StartQueues, NameQueues, Flags, QueuesOf;
    var byStart := BuildQueues(StartQueueKeys(rhs));
    var byName := BuildQueues(NameQueueKeys(rhs));
    var flags := seq(|rhs|, _ => false);
    ghost var used: set<nat> := {};
    FullQueues(rhs, byStart, byName);
    NoPartners(lhs, rhs, remap, flags);
    pairs, missingRhs := [], 0;
    for i := 0 to |lhs|
      invariant |flags| == |rhs| && used == Used(Partners(lhs, rhs, remap, i))
      invariant pairs == PairsOf(Partners(lhs, rhs, remap, i))
      invariant |pairs| == |used| && |pairs| + missingRhs == i
      invariant Flags(flags, used) && StartQueues(byStart, rhs, used) && NameQueues(byName, rhs, used)
    {
      PartnersStep(lhs, rhs, remap, i, flags);
      var partner;
      byStart, byName, partner := TakePartner(lhs[i], rhs, remap, byStart, byName, flags, used);
      if partner.Some? {
        flags := flags[partner.value := true];
        pairs := pairs + [(i, partner.value)];
      } else {
        missingRhs := missingRhs + 1;
      }
      used := AlsoUsed(used, partner);
    }
    missingLhs := 0;
    CountFlags(flags, used, |rhs|);
    for j := 0 to |rhs|
      invariant missingLhs == Unset(flags, j)
    {
      if !flags[j] {
        missingLhs := missingLhs + 1;
      }
    }
  }

  ghost function AlsoUsed(used: set<nat>, taken: Option<nat>): set<nat> {
    if taken.Some? then used + {taken.value} else used
  }

  lemma FullQueues(rhs: seq<Fde>, byStart: Queues<u64>, byName: Queues<string>)
    requires QueuesOf(byStart, StartQueueKeys(rhs), |rhs|) && QueuesOf(byName, NameQueueKeys(rhs), |rhs|)
    ensures StartQueues(byStart, rhs, {}) && NameQueues(byName, rhs, {})
  {
    hide Positions;
  }

  lemma NoPartners(lhs: seq<Fde>, rhs: seq<Fde>, remap: Remap, flags: seq<bool>)
    requires forall j :: 0 <= j < |flags| ==> !flags[j]
    ensures Used(Partners(lhs, rhs, remap, 0)) == {} && PairsOf(Partners(lhs, rhs, remap, 0)) == []
    ensures Flags(flags, {})
  {
  }

  lemma FlagsCover(rhs: seq<Fde>, pc: u64, func: string, flags: seq<bool>, used: set<nat>)
    requires Flags(flags, used) && |flags| == |rhs|
    ensures forall j | j in AtStart(rhs, pc) :: j < |flags| && (flags[j] <==> j in used)
    ensures forall j | j in Named(rhs, func) :: j < |flags| && (flags[j] <==> j in used)
  {
    hide AtStart, Named;
    AtStartMeans(rhs, pc);
    NamedMeans(rhs, func);
  }

  /** Absent queues have nothing to offer, present ones still hold all that is unused. */
  lemma NothingQueued(
      byStart: Queues<u64>, byName: Queues<string>, rhs: seq<Fde>, used: set<nat>, pc: u64, func: string)
    requires StartQueues(byStart, rhs, used) && NameQueues(byName, rhs, used)
    ensures if pc in byStart then Remains(byStart[pc], AtStart(rhs, pc), used)
            else FirstUnused(AtStart(rhs, pc), used) == None
    ensures if func != "" && func in byName then Remains(byName[func], Named(rhs, func), used)
            else FirstUnused(Named(rhs, func), used) == None
  {
    hide AtStart, Remains;
    if pc !in byStart {
      assert Remains(Queue(byStart, pc), AtStart(rhs, pc), used);
      RemainsFirst([], AtStart(rhs, pc), used);
    }
    if func != "" {
      assert Remains(Queue(byName, func), Named(rhs, func), used);
      if func !in byName {
        RemainsFirst([], Named(rhs, func), used);
      }
    }
  }

  lemma StartQueueSet(
      queues: Queues<u64>, rhs: seq<Fde>, used: set<nat>, pc: u64, rest: seq<nat>, after: set<nat>)
    requires StartQueues(queues, rhs, used) && used <= after && Remains(rest, AtStart(rhs, pc), after)
    ensures StartQueues(queues[pc := rest], rhs, after)
  {
    hide AtStart;
    forall x: u64
      ensures Remains(Queue(queues[pc := rest], x), AtStart(rhs, x), after)
    {
      assert Remains(Queue(queues, x), AtStart(rhs, x), used);
    }
  }

  lemma NameQueueSet(
      queues: Queues<string>, rhs: seq<Fde>, used: set<nat>, func: string, rest: seq<nat>, after: set<nat>)
    requires NameQueues(queues, rhs, used) && used <= after && Remains(rest, Named(rhs, func), after)
    ensures NameQueues(queues[func := rest], rhs, after)
  {
    hide Named;
    forall x: string | x != ""
      ensures Remains(Queue(queues[func := rest], x), Named(rhs, x), after)
    {
      assert Remains(Queue(queues, x), Named(rhs, x), used);
    }
  }

  lemma QueuesGrow(
      byStart: Queues<u64>, byName: Queues<string>, rhs: seq<Fde>, used: set<nat>, after: set<nat>)
    requires used <= after
    ensures StartQueues(byStart, rhs, used) ==> StartQueues(byStart, rhs, after)
    ensures NameQueues(byName, rhs, used) ==> NameQueues(byName, rhs, after)
  {
    hide AtStart, Named;
  }

  lemma UsedExtends(partners: seq<Option<nat>>, p: Option<nat>)
    ensures Used(partners + [p]) == AlsoUsed(Used(partners), p)
  {
  }

  lemma PartnerIsNew(l: Fde, rhs: seq<Fde>, remap: Remap, used: set<nat>)
    ensures var p := Partner(l, rhs, remap, used); p.Some? ==> p.value !in used && p.value < |rhs|
  {
    hide AtStart, Named;
    AtStartMeans(rhs, Target(remap, l));
    NamedMeans(rhs, l.func);
  }

  lemma PartnersStep(lhs: seq<Fde>, rhs: seq<Fde>, remap: Remap, i: nat, flags: seq<bool>)
    requires i < |lhs| && |flags| == |rhs|
    requires Flags(flags, Used(Partners(lhs, rhs, remap, i)))
    ensures var before := Partners(lhs, rhs, remap, i);
            var used := Used(before);
            var p := Partner(lhs[i], rhs, remap, used);
            && Used(Partners(lhs, rhs, remap, i + 1)) == AlsoUsed(used, p)
            && PairsOf(Partners(lhs, rhs, remap, i + 1))
            == PairsOf(before) + (if p.Some? then [(i, p.value)] else [])
            && (p.Some? ==> p.value !in used && p.value < |rhs|
                            && Flags(flags[p.value := true], AlsoUsed(used, p)))
  {
    hide Partner, Used;
    var before := Partners(lhs, rhs, remap, i);
    var p := Partner(lhs[i], rhs, remap, Used(before));
    UsedExtends(before, p);
    PartnerIsNew(lhs[i], rhs, remap, Used(before));
    assert (before + [p])[..i] == before;
  }

  lemma {:induction false} CountFlags(flags: seq<bool>, used: set<nat>, n: nat)
    requires n <= |flags| && Flags(flags, used)
    ensures Unset(flags, n) + |Below(used, n)| == n
    ensures n == |flags| ==> Below(used, n) == used
  {
    if n > 0 {
      CountFlags(flags, used, n - 1);
      if flags[n - 1] {
        assert Below(used, n) == Below(used, n - 1) + {n - 1};
      } else {
        assert Below(used, n) == Below(used, n - 1);
      }
    }
  }

  ghost function Below(used: set<nat>, n: nat): set<nat> {
    set j | j in used && j < n
  }

  // -------------------------------------------------------------- properties

  /** `Partner` without queues: the least unused description at the remapped start if there is an
      unused one, else the least unused one with the same name, else none. */
  lemma PartnerMeans(l: Fde, rhs: seq<Fde>, remap: Remap, used: set<nat>)
    ensures match Partner(l, rhs, remap, used)
            case None =>
              forall j: nat | j < |rhs| && (StartsMatch(remap, l, rhs[j]) || NamesMatch(l, rhs[j])) :: j in used
            case Some(p) =>
              p < |rhs| && p !in used
              && ((StartsMatch(remap, l, rhs[p])
                   && forall j: nat | j < p && StartsMatch(remap, l, rhs[j]) :: j in used)
                  || (NamesMatch(l, rhs[p])
                      && (forall j: nat | j < |rhs| && StartsMatch(remap, l, rhs[j]) :: j in used)
                      && forall j: nat | j < p && NamesMatch(l, rhs[j]) :: j in used))
  {
    var byStart, byName := AtStart(rhs, Target(remap, l)), Named(rhs, l.func);
    AtStartMeans(rhs, Target(remap, l));
    NamedMeans(rhs, l.func);
    FirstIsLeast(byStart, used);
    FirstIsLeast(byName, used);
    hide AtStart, Named, FirstUnused, Ascending;
  }

  lemma {:induction false} FirstIsLeast(list: seq<nat>, used: set<nat>)
    requires Ascending(list)
    ensures match FirstUnused(list, used)
            case None => forall j | j in list :: j in used
            case Some(p) => p in list && p !in used && forall j | j in list && j < p :: j in used
  {
    if list != [] && list[0] in used {
      assert Ascending(list[1..]);
      FirstIsLeast(list[1..], used);
      assert forall j | j in list :: j == list[0] || j in list[1..];
    }
  }

  lemma {:induction false} PartnersPrefix(lhs: seq<Fde>, rhs: seq<Fde>, remap: Remap, i: nat, n: nat)
    requires i < n <= |lhs|
    ensures Partners(lhs, rhs, remap, n)[..i] == Partners(lhs, rhs, remap, i)
    ensures Partners(lhs, rhs, remap, n)[i] == Partner(lhs[i], rhs, remap, Used(Partners(lhs, rhs, remap, i)))
    decreases n
  {
    hide Partner, Used;
    if i < n - 1 {
      PartnersPrefix(lhs, rhs, remap, i, n - 1);
    }
  }

  ghost predicate IsPartner(partners: seq<Option<nat>>, p: Pair) {
    p.0 < |partners| && partners[p.0].Some? && partners[p.0].value == p.1
  }

  lemma {:induction false} PairsOfMeans(partners: seq<Option<nat>>, p: Pair)
    ensures p in PairsOf(partners) <==> IsPartner(partners, p)
  {
    if partners != [] {
      PairsOfMeans(partners[..|partners| - 1], p);
    }
  }

  ghost predicate LeftAscends(pairs: seq<Pair>) {
    forall a, b :: 0 <= a < b < |pairs| ==> pairs[a].0 < pairs[b].0
  }

  lemma {:induction false} PairsOfAscend(partners: seq<Option<nat>>)
    ensures LeftAscends(PairsOf(partners))
  {
    if partners != [] {
      var n := |partners| - 1;
      var before := PairsOf(partners[..n]);
      PairsOfAscend(partners[..n]);
      forall a: nat | a < |before|
        ensures before[a].0 < n
      {
        assert before[a] in before;
        PairsOfMeans(partners[..n], before[a]);
      }
      var last: seq<Pair> := if partners[n].Some? then [(n, partners[n].value)] else [];
      assert PairsOf(partners) == before + last;
      assert LeftAscends(before + last);
    }
  }

  /** Partners exist, and no two left descriptions have the same. */
  ghost predicate Distinct(partners: seq<Option<nat>>, rhs: nat) {
    && (forall i :: 0 <= i < |partners| && partners[i].Some? ==> partners[i].value < rhs)
    && forall h, i :: 0 <= h < i < |partners| && partners[i].Some? ==> partners[h] != partners[i]
  }

  lemma {:induction false} PartnersDistinct(lhs: seq<Fde>, rhs: seq<Fde>, remap: Remap, n: nat)
    requires n <= |lhs|
    ensures Distinct(Partners(lhs, rhs, remap, n), |rhs|)
  {
    hide Partner;
    if n > 0 {
      var before := Partners(lhs, rhs, remap, n - 1);
      PartnersDistinct(lhs, rhs, remap, n - 1);
      PartnerIsNew(lhs[n - 1], rhs, remap, Used(before));
      AddDistinct(before, Partner(lhs[n - 1], rhs, remap, Used(before)), |rhs|);
    }
  }

  lemma AddDistinct(partners: seq<Option<nat>>, p: Option<nat>, rhs: nat)
    requires Distinct(partners, rhs) && (p.Some? ==> p.value < rhs && p.value !in Used(partners))
    ensures Distinct(partners + [p], rhs)
  {
  }

  lemma DistinctUsedOnce(partners: seq<Option<nat>>, rhs: nat)
    requires Distinct(partners, rhs)
    ensures UsedOnce(PairsOf(partners), |partners|, rhs)
  {
    var pairs := PairsOf(partners);
    PairsOfAscend(partners);
    hide PairsOf;
    forall p | p in pairs
      ensures IsPartner(partners, p)
    {
      PairsOfMeans(partners, p);
    }
    forall a, b | 0 <= a < b < |pairs|
      ensures pairs[a].0 != pairs[b].0 && pairs[a].1 != pairs[b].1
    {
      assert pairs[a] in pairs && pairs[b] in pairs;
    }
  }

  lemma RemappedUsedOnce(lhs: seq<Fde>, rhs: seq<Fde>, remap: Remap)
    ensures UsedOnce(PairsOf(Partners(lhs, rhs, remap, |lhs|)), |lhs|, |rhs|)
  {
    hide *;
    PartnersDistinct(lhs, rhs, remap, |lhs|);
    DistinctUsedOnce(Partners(lhs, rhs, remap, |lhs|), |rhs|);
  }

  /** Paired descriptions start at the same place or belong to functions of the same name, and no
      two such descriptions are both left over. */
  lemma RemappedIsMaximal(lhs: seq<Fde>, rhs: seq<Fde>, remap: Remap, p: Pair)
    requires p.0 < |lhs| && p.1 < |rhs|
    ensures var pairs := PairsOf(Partners(lhs, rhs, remap, |lhs|));
            var matching := StartsMatch(remap, lhs[p.0], rhs[p.1]) || NamesMatch(lhs[p.0], rhs[p.1]);
            && (p in pairs ==> matching)
            && (matching ==> exists q :: q in pairs && (q.0 == p.0 || q.1 == p.1))
  {
    var all := Partners(lhs, rhs, remap, |lhs|);
    var used := Used(Partners(lhs, rhs, remap, p.0));
    PartnersPrefix(lhs, rhs, remap, p.0, |lhs|);
    PartnerMeans(lhs[p.0], rhs, remap, used);
    hide Partners, Partner, PairsOf;
    PairsOfMeans(all, p);
    if all[p.0].Some? {
      PairsOfMeans(all, (p.0, all[p.0].value));
    } else if p.1 in used {
      var i: nat :| i < p.0 && all[..p.0][i] == Some(p.1);
      PairsOfMeans(all, (i, p.1));
    }
  }

  /** No earlier left description was paired with right description j. */
  ghost predicate Free(pairs: seq<Pair>, i: nat, j: nat) {
    forall h: nat | h < i :: (h, j) !in pairs
  }

  /** Right description j is the first choice of left description i: the least free one at the
      mapped start, and only where none is free there the least free one of that name. */
  ghost predicate FirstChoice(lhs: seq<Fde>, rhs: seq<Fde>, remap: Remap, pairs: seq<Pair>, i: nat, j: nat)
    requires i < |lhs|
  {
    && j < |rhs| && Free(pairs, i, j)
    && if StartsMatch(remap, lhs[i], rhs[j])
       then forall k: nat | k < j && StartsMatch(remap, lhs[i], rhs[k]) :: !Free(pairs, i, k)
       else
         && NamesMatch(lhs[i], rhs[j])
         && (forall k: nat | k < |rhs| && StartsMatch(remap, lhs[i], rhs[k]) :: !Free(pairs, i, k))
         && forall k: nat | k < j && NamesMatch(lhs[i], rhs[k]) :: !Free(pairs, i, k)
  }

  lemma {:induction false} FreeIsUnused(lhs: seq<Fde>, rhs: seq<Fde>, remap: Remap, i: nat, j: nat)
    requires i <= |lhs|
    ensures Free(PairsOf(Partners(lhs, rhs, remap, |lhs|)), i, j) <==> j !in Used(Partners(lhs, rhs, remap, i))
  {
    hide Partners, PairsOf;
    var all, earlier := Partners(lhs, rhs, remap, |lhs|), Partners(lhs, rhs, remap, i);
    if i < |lhs| {
      PartnersPrefix(lhs, rhs, remap, i, |lhs|);
    }
    assert earlier == all[..i];
    forall h: nat | h < i
      ensures (h, j) in PairsOf(all) <==> earlier[h].Some? && earlier[h].value == j
    {
      PairsOfMeans(all, (h, j));
    }
    if j in Used(earlier) {
      var h: nat :| h < i && earlier[h].Some? && earlier[h].value == j;
    }
  }

  /** The pairs of this mode are exactly the first choices, in the order of the left side. */
  lemma {:induction false} RemappedPairsExactly(lhs: seq<Fde>, rhs: seq<Fde>, remap: Remap, i: nat, j: nat)
    requires i < |lhs|
    ensures var pairs := PairsOf(Partners(lhs, rhs, remap, |lhs|));
            && LeftAscends(pairs)
            && ((i, j) in pairs <==> FirstChoice(lhs, rhs, remap, pairs, i, j))
  {
    var all, used := Partners(lhs, rhs, remap, |lhs|), Used(Partners(lhs, rhs, remap, i));
    PairsOfAscend(all);
    PairsOfMeans(all, (i, j));
    PartnersPrefix(lhs, rhs, remap, i, |lhs|);
    hide Partners, PairsOf, StartsMatch, NamesMatch, Free, Partner;
    PartnerMeans(lhs[i], rhs, remap, used);
    forall k: nat
      ensures Free(PairsOf(all), i, k) <==> k !in used
    {
      FreeIsUnused(lhs, rhs, remap, i, k);
    }
  }

  // -------------------------------------------------------------- all modes

  ghost predicate Eligible(mode: Mode, lhs: seq<Fde>, rhs: seq<Fde>, remap: Remap, p: Pair)
    requires p.0 < |lhs| && p.1 < |rhs|
  {
    match mode
    case ByIndex => p.0 == p.1
    case ByStart => lhs[p.0].start == rhs[p.1].start
    case ByRange => lhs[p.0].start == rhs[p.1].start && lhs[p.0].range == rhs[p.1].range
    case ByRemappedStart => StartsMatch(remap, lhs[p.0], rhs[p.1]) || NamesMatch(lhs[p.0], rhs[p.1])
  }

  ghost predicate AllEligible(mode: Mode, lhs: seq<Fde>, rhs: seq<Fde>, remap: Remap, pairs: seq<Pair>) {
    forall p | p in pairs :: p.0 < |lhs| && p.1 < |rhs| && Eligible(mode, lhs, rhs, remap, p)
  }

  /** In every mode: no description is used twice, none is lost, and paired ones correspond. */
  method PairFdes(lhs: seq<Fde>, rhs: seq<Fde>, mode: Mode, remap: Remap)
    returns (pairs: seq<Pair>, missingRhs: nat, missingLhs: nat)
    ensures UsedOnce(pairs, |lhs|, |rhs|)
    ensures Conserved(pairs, missingRhs, missingLhs, |lhs|, |rhs|)
    ensures AllEligible(mode, lhs, rhs, remap, pairs)
    ensures mode == ByStart ==> pairs == Pairs(StartKeys(lhs), StartKeys(rhs))
    ensures mode == ByRange ==> pairs == Pairs(RangeKeys(lhs), RangeKeys(rhs))
    ensures mode == ByRemappedStart ==> pairs == PairsOf(Partners(lhs, rhs, remap, |lhs|))
  {
    hide KeyedPairing.Pairs, PairsOf, Partners, SameTurn;
    match mode {
      case ByIndex =>
        pairs, missingRhs, missingLhs := PairByIndex(|lhs|, |rhs|);
      case ByStart =>
        pairs, missingRhs, missingLhs := PairByKey(StartKeys(lhs), StartKeys(rhs));
        PairsUsedOnce(StartKeys(lhs), StartKeys(rhs));
        KeysAgree(StartKeys(lhs), StartKeys(rhs));
      case ByRange =>
        pairs, missingRhs, missingLhs := PairByKey(RangeKeys(lhs), RangeKeys(rhs));
        PairsUsedOnce(RangeKeys(lhs), RangeKeys(rhs));
        KeysAgree(RangeKeys(lhs), RangeKeys(rhs));
      case ByRemappedStart =>
        pairs, missingRhs, missingLhs := PairRemapped(lhs, rhs, remap);
        RemappedUsedOnce(lhs, rhs, remap);
        forall p | p in pairs
          ensures p.0 < |lhs| && p.1 < |rhs| && Eligible(mode, lhs, rhs, remap, p)
        {
          RemappedIsMaximal(lhs, rhs, remap, p);
        }
    }
  }

  lemma KeysAgree(lhs: Keys, rhs: Keys)
    ensures SameKeys(lhs, rhs, Pairs(lhs, rhs))
  {
    hide KeyedPairing.Pairs, Turn;
    forall p | p in Pairs(lhs, rhs)
      ensures SameTurn(lhs, rhs, p)
    {
      PairsAreTurns(lhs, rhs, p);
    }
  }

  /** In the two keyed modes no choice of corresponding descriptions, each used at most once, has
      more pairs. */
  lemma KeyedModesAreMost(mode: Mode, lhs: seq<Fde>, rhs: seq<Fde>, remap: Remap, theirs: seq<Pair>)
    requires mode == ByStart || mode == ByRange
    requires UsedOnce(theirs, |lhs|, |rhs|) && AllEligible(mode, lhs, rhs, remap, theirs)
    ensures |theirs| <= |if mode == ByStart then Pairs(StartKeys(lhs), StartKeys(rhs))
                         else Pairs(RangeKeys(lhs), RangeKeys(rhs))|
  {
    hide KeyedPairing.Pairs;
    if mode == ByStart {
      PairsAreMost(StartKeys(lhs), StartKeys(rhs), theirs);
    } else {
      PairsAreMost(RangeKeys(lhs), RangeKeys(rhs), theirs);
    }
  }
}
