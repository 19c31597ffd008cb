/** Reaching definitions: `DFGBuilder::buildAArch64RegisterDFG` of src/cfg_reconstruction.cpp. What
    an instruction defines and uses is a parameter. */
module ReachingDefinitions {
  import opened Words
  import opened BasicBlocks

  datatype Node = Node(address: u64, blockStart: u64, defs: seq<u16>, uses: seq<u16>)

  datatype Edge = Edge(from: nat, to: nat, reg: u16, crossBlock: bool)

  /** Nodes, the nodes of each block in address order, and the successor blocks of each block. */
  datatype Flow = Flow(nodes: seq<Node>, blockNodes: seq<seq<nat>>, successors: seq<set<nat>>)

  ghost predicate WellFormed(f: Flow) {
    && |f.successors| == |f.blockNodes|
    && (forall b, k | 0 <= b < |f.blockNodes| && 0 <= k < |f.blockNodes[b]| :: f.blockNodes[b][k] < |f.nodes|)
    && (forall b, c | 0 <= b < |f.successors| && c in f.successors[b] :: c < |f.blockNodes|)
  }

  // ----------------------------------------------- paths and def-use pairs

  /** A program point: before node `pos` of a block, or behind its last node. */
  datatype Point = Point(block: nat, pos: nat)

  ghost predicate IsPoint(f: Flow, p: Point) {
    p.block < |f.blockNodes| && p.pos <= |f.blockNodes[p.block]|
  }

  predicate Defines(f: Flow, n: nat, r: u16) {
    n < |f.nodes| && r in f.nodes[n].defs
  }

  /** Control moves from p to q without a definition of r: over one node of a block, or along an
      edge of the graph. */
  ghost predicate Moves(f: Flow, p: Point, q: Point, r: u16)
    requires WellFormed(f)
  {
    && IsPoint(f, p) && IsPoint(f, q)
    && (|| (&& q == Point(p.block, p.pos + 1)
            && !Defines(f, f.blockNodes[p.block][p.pos], r))
        || (p.pos == |f.blockNodes[p.block]| && q.pos == 0 && q.block in f.successors[p.block]))
  }

  ghost predicate IsClearPath(f: Flow, path: seq<Point>, r: u16)
    requires WellFormed(f)
  {
    && path != [] && (forall k | 0 <= k < |path| :: IsPoint(f, path[k]))
    && forall k | 0 <= k < |path| - 1 :: Moves(f, path[k], path[k + 1], r)
  }

  ghost predicate IsAt(f: Flow, n: nat, b: nat, k: nat) {
    b < |f.blockNodes| && k < |f.blockNodes[b]| && f.blockNodes[b][k] == n
  }

  /** `path` leads from behind the definition of r in node d to the point q, and nothing on it
      defines r. */
  ghost predicate CarriesTo(f: Flow, path: seq<Point>, d: nat, r: u16, q: Point)
    requires WellFormed(f)
  {
    && IsClearPath(f, path, r) && path[|path| - 1] == q && path[0].pos > 0
    && Defines(f, d, r) && IsAt(f, d, path[0].block, path[0].pos - 1)
  }

  ghost predicate Reaches(f: Flow, d: nat, r: u16, q: Point)
    requires WellFormed(f)
  {
    exists path :: CarriesTo(f, path, d, r, q)
  }

  /** Node u uses r and the definition of r in node d reaches it. */
  ghost predicate DefUse(f: Flow, d: nat, u: nat, r: u16)
    requires WellFormed(f)
  {
    u < |f.nodes| && r in f.nodes[u].uses && exists b, k :: IsAt(f, u, b, k) && Reaches(f, d, r, Point(b, k))
  }

  lemma {:induction false} ReachesFurther(f: Flow, d: nat, r: u16, p: Point, q: Point)
    requires WellFormed(f) && Reaches(f, d, r, p) && Moves(f, p, q, r)
    ensures Reaches(f, d, r, q)
  {
    hide IsPoint, Defines;
    var path :| CarriesTo(f, path, d, r, p);
    var longer := path + [q];
    assert IsPoint(f, q);
    assert forall k | 0 <= k < |longer| - 1 :: Moves(f, longer[k], longer[k + 1], r) by {
      assert forall k | 0 <= k < |path| :: longer[k] == path[k];
    }
    assert CarriesTo(f, longer, d, r, q);
  }

  // ------------------------------------------------------------ inside a block

  /** The definitions of r in force before node k of block b, when those in `entry` are in force
      at its start. */
  function InForce(f: Flow, entry: set<nat>, b: nat, k: nat, r: u16): set<nat>
    requires b < |f.blockNodes| && k <= |f.blockNodes[b]|
    decreases k
  {
    if k == 0 then entry
    else if Defines(f, f.blockNodes[b][k - 1], r) then {f.blockNodes[b][k - 1]}
    else InForce(f, entry, b, k - 1, r)
  }

  lemma {:induction false} InForceReaches(f: Flow, entry: set<nat>, b: nat, k: nat, r: u16, d: nat)
    requires WellFormed(f) && b < |f.blockNodes| && k <= |f.blockNodes[b]|
    requires forall e: nat | e in entry :: Reaches(f, e, r, Point(b, 0))
    requires d in InForce(f, entry, b, k, r)
    ensures Reaches(f, d, r, Point(b, k))
    decreases k
  {
    hide Reaches;
    if k > 0 {
      var n := f.blockNodes[b][k - 1];
      if Defines(f, n, r) {
        assert CarriesTo(f, [Point(b, k)], n, r, Point(b, k));
        ReachesBy(f, [Point(b, k)], n, r, Point(b, k));
      } else {
        InForceReaches(f, entry, b, k - 1, r, d);
        ReachesFurther(f, d, r, Point(b, k - 1), Point(b, k));
      }
    }
  }

  lemma ReachesBy(f: Flow, path: seq<Point>, d: nat, r: u16, q: Point)
    requires WellFormed(f) && CarriesTo(f, path, d, r, q)
    ensures Reaches(f, d, r, q)
  {
  }

  // ------------------------------------------------------------ the equations

  type DefSets = map<u16, set<nat>>

  function DefsOf(m: DefSets, r: u16): set<nat> {
    if r in m then m[r] else {}
  }

  /** `gen` maps each register a block defines to its last definition there. */
  ghost predicate IsGen(f: Flow, b: nat, k: nat, gen: map<u16, nat>)
    requires b < |f.blockNodes| && k <= |f.blockNodes[b]|
  {
    forall r: u16, entry :: InForce(f, entry, b, k, r) == if r in gen then {gen[r]} else entry
  }

  /** The two set-valued arrays solve the dataflow equations. */
  ghost predicate Solves(f: Flow, ins: seq<DefSets>, outs: seq<DefSets>)
    requires WellFormed(f) && |ins| == |outs| == |f.blockNodes|
  {
    && (forall b, r: u16 | 0 <= b < |ins| ::
          DefsOf(outs[b], r) == InForce(f, DefsOf(ins[b], r), b, |f.blockNodes[b]|, r))
    && (forall p, b, r: u16 | 0 <= p < |outs| && b in f.successors[p] :: DefsOf(outs[p], r) <= DefsOf(ins[b], r))
  }

  /** Every fact in the arrays has a path. */
  ghost predicate Justified(f: Flow, ins: seq<DefSets>, outs: seq<DefSets>)
    requires WellFormed(f) && |ins| == |outs| == |f.blockNodes|
  {
    && (forall b: nat, r: u16, d: nat | b < |ins| && d in DefsOf(ins[b], r) :: Reaches(f, d, r, Point(b, 0)))
    && (forall b: nat, r: u16, d: nat | b < |ins| && d in DefsOf(outs[b], r) ::
          Reaches(f, d, r, Point(b, |f.blockNodes[b]|)))
  }

  /** A path is never ahead of a solution. */
  lemma {:induction false} SolutionCoversPaths(
      f: Flow, ins: seq<DefSets>, outs: seq<DefSets>, path: seq<Point>, d: nat, r: u16, q: Point)
    requires WellFormed(f) && |ins| == |outs| == |f.blockNodes| && Solves(f, ins, outs)
    requires CarriesTo(f, path, d, r, q)
    ensures IsPoint(f, q) && d in InForce(f, DefsOf(ins[q.block], r), q.block, q.pos, r)
    decreases |path|
  {
    var n := |path| - 1;
    assert IsPoint(f, path[n]);
    if n > 0 {
      var p := path[n - 1];
      assert Moves(f, path[n - 1], path[n - 1 + 1], r);
      SolutionCoversPaths(f, ins, outs, path[..n], d, r, p);
      if p.pos == |f.blockNodes[p.block]| {
        assert d in DefsOf(outs[p.block], r);
      }
    }
  }

  /** A justified solution is exact at every program point. */
  lemma {:induction false} SolutionIsExact(
      f: Flow, ins: seq<DefSets>, outs: seq<DefSets>, b: nat, k: nat, r: u16, d: nat)
    requires WellFormed(f) && |ins| == |outs| == |f.blockNodes| && Solves(f, ins, outs) && Justified(f, ins, outs)
    requires b < |f.blockNodes| && k <= |f.blockNodes[b]|
    ensures d in InForce(f, DefsOf(ins[b], r), b, k, r) <==> Reaches(f, d, r, Point(b, k))
  {
    hide InForce;
    if d in InForce(f, DefsOf(ins[b], r), b, k, r) {
      InForceReaches(f, DefsOf(ins[b], r), b, k, r, d);
    }
    if Reaches(f, d, r, Point(b, k)) {
      var path :| CarriesTo(f, path, d, r, Point(b, k));
      SolutionCoversPaths(f, ins, outs, path, d, r, Point(b, k));
    }
  }

  // ---------------------------------------------------------- implementation

  /** `block_gen` of one block: later definitions overwrite earlier ones. */
  method BuildGen(f: Flow, b: nat) returns (gen: map<u16, nat>)
    requires WellFormed(f) && b < |f.blockNodes|
    ensures IsGen(f, b, |f.blockNodes[b]|, gen)
  {
    gen := map[];
    for k := 0 to |f.blockNodes[b]|
      invariant IsGen(f, b, k, gen)
    {
      var n := f.blockNodes[b][k];
      var defs := f.nodes[n].defs;
      ghost var before := gen;
      for i := 0 to |defs|
        invariant forall r: u16 :: r in gen <==> r in before || r in defs[..i]
        invariant forall r: u16 | r in gen :: gen[r] == if r in defs[..i] then n else before[r]
      {
        gen := gen[defs[i] := n];
        assert defs[..i + 1] == defs[..i] + [defs[i]];
      }
      assert defs[..|defs|] == defs;
    }
  }

  function Merge(a: DefSets, b: DefSets): DefSets {
    map r | r in a.Keys + b.Keys :: DefsOf(a, r) + DefsOf(b, r)
  }

  /** d is a definition of r at the end of some predecessor. */
  ghost predicate Arrives(preds: seq<nat>, outs: seq<DefSets>, r: u16, d: nat) {
    exists p :: p in preds && p < |outs| && d in DefsOf(outs[p], r)
  }

  /** No register is mapped to the empty set. */
  ghost predicate Proper(m: DefSets) {
    forall r | r in m :: m[r] != {}
  }

  method Join(preds: seq<nat>, outs: array<DefSets>) returns (m: DefSets)
    requires forall p: nat | p in preds :: p < outs.Length
    requires forall p: nat | p < outs.Length :: Proper(outs[p])
    ensures Proper(m) && forall r: u16, d: nat :: d in DefsOf(m, r) <==> Arrives(preds, outs[..], r, d)
  {
    m := map[];
    for k := 0 to |preds|
      invariant Proper(m)
      invariant forall r: u16, d: nat :: d in DefsOf(m, r) <==> Arrives(preds[..k], outs[..], r, d)
    {
      var p := preds[k];
      assert p in preds;
      ghost var before := m;
      m := Merge(m, outs[p]);
      assert preds[..k + 1] == preds[..k] + [p];
      forall r: u16, d: nat
        ensures d in DefsOf(m, r) <==> Arrives(preds[..k + 1], outs[..], r, d)
      {
        assert d in DefsOf(m, r) <==> d in DefsOf(before, r) || d in DefsOf(outs[p], r);
        assert outs[..][p] == outs[p];
      }
    }
    assert preds[..|preds|] == preds;
  }

  function Transfer(entry: DefSets, gen: map<u16, nat>): DefSets {
    entry + map r | r in gen :: {gen[r]}
  }

  lemma TransferDefs(entry: DefSets, gen: map<u16, nat>, r: u16)
    ensures DefsOf(Transfer(entry, gen), r) == if r in gen then {gen[r]} else DefsOf(entry, r)
    ensures Proper(entry) ==> Proper(Transfer(entry, gen))
  {
  }

  /** All facts that can ever enter the arrays, and those that are in them. */
  ghost function Facts(ms: seq<DefSets>, side: bool): set<(bool, nat, u16, nat)> {
    set b, r, d | 0 <= b < |ms| && r in ms[b] && d in ms[b][r] :: (side, b, r, d)
  }

  ghost function AllFacts(f: Flow): set<(bool, nat, u16, nat)> {
    set side, b, d, r | side in {false, true} && 0 <= b < |f.blockNodes| && 0 <= d < |f.nodes| && r in f.nodes[d].defs
      :: (side, b, r, d)
  }

  ghost function State(ins: seq<DefSets>, outs: seq<DefSets>): set<(bool, nat, u16, nat)> {
    Facts(ins, false) + Facts(outs, true)
  }

  ghost predicate ArePredecessors(f: Flow, preds: seq<seq<nat>>)
    requires WellFormed(f)
  {
    && |preds| == |f.blockNodes|
    && forall c: nat | c < |preds| :: forall p: nat :: p in preds[c] <==> p < |f.successors| && c in f.successors[p]
  }

  ghost predicate AreGens(f: Flow, gens: seq<map<u16, nat>>) {
    && |gens| == |f.blockNodes|
    && forall b | 0 <= b < |gens| :: IsGen(f, b, |f.blockNodes[b]|, gens[b])
  }

  lemma PredecessorsInRange(f: Flow, preds: seq<seq<nat>>, b: nat)
    requires WellFormed(f) && ArePredecessors(f, preds) && b < |preds|
    ensures forall p: nat | p in preds[b] :: p < |f.blockNodes|
  {
  }

  /** The arrays are below the right-hand sides of the equations, so one more evaluation of a
      right-hand side can only add facts. */
  ghost predicate Below(preds: seq<seq<nat>>, gens: seq<map<u16, nat>>, ins: seq<DefSets>, outs: seq<DefSets>) {
    && |ins| == |outs| == |preds| == |gens|
    && (forall b | 0 <= b < |ins| :: Proper(ins[b]) && Proper(outs[b]))
    && (forall b: nat, r: u16, d: nat | b < |ins| && d in DefsOf(ins[b], r) :: Arrives(preds[b], outs, r, d))
    && (forall b: nat, r: u16, d: nat | b < |ins| && d in DefsOf(outs[b], r) ::
          d in DefsOf(Transfer(ins[b], gens[b]), r))
  }

  /** The equations hold at block b. */
  ghost predicate Settled(preds: seq<seq<nat>>, gens: seq<map<u16, nat>>, ins: seq<DefSets>, outs: seq<DefSets>, b: nat)
    requires b < |ins| == |outs| == |preds| == |gens|
  {
    && (forall r: u16, d: nat :: d in DefsOf(ins[b], r) <==> Arrives(preds[b], outs, r, d))
    && outs[b] == Transfer(ins[b], gens[b])
  }

  ghost predicate Within(a: DefSets, b: DefSets) {
    forall r: u16, d: nat :: d in DefsOf(a, r) ==> d in DefsOf(b, r)
  }

  /** Re-evaluating block b never removes facts ... */
  lemma {:induction false} UpdateGrows(
      preds: seq<seq<nat>>, gens: seq<map<u16, nat>>, ins: seq<DefSets>, outs: seq<DefSets>, b: nat, newIn: DefSets)
    requires b < |ins| && Below(preds, gens, ins, outs) && Proper(newIn)
    requires forall r: u16, d: nat :: d in DefsOf(newIn, r) <==> Arrives(preds[b], outs, r, d)
    ensures var newOut := Transfer(newIn, gens[b]);
            && Within(ins[b], newIn) && Within(outs[b], newOut)
            && Below(preds, gens, ins[b := newIn], outs[b := newOut])
  {
    hide Transfer, Arrives, DefsOf;
    var newOut := Transfer(newIn, gens[b]);
    var ins', outs' := ins[b := newIn], outs[b := newOut];
    TransferDefs(newIn, gens[b], 0);
    forall r: u16, d: nat | d in DefsOf(outs[b], r)
      ensures d in DefsOf(newOut, r)
    {
      TransferDefs(newIn, gens[b], r);
      TransferDefs(ins[b], gens[b], r);
    }
    forall c: nat, r: u16, d: nat | c < |ins| && Arrives(preds[c], outs, r, d)
      ensures Arrives(preds[c], outs', r, d)
    {
      ArrivesStill(preds[c], outs, outs', b, r, d);
    }
  }

  lemma ArrivesStill(preds: seq<nat>, outs: seq<DefSets>, outs': seq<DefSets>, b: nat, r: u16, d: nat)
    requires b < |outs| == |outs'| && outs' == outs[b := outs'[b]] && Within(outs[b], outs'[b])
    requires Arrives(preds, outs, r, d)
    ensures Arrives(preds, outs', r, d)
  {
    var p :| p in preds && p < |outs| && d in DefsOf(outs[p], r);
    assert d in DefsOf(outs'[p], r);
  }

  /** ... and adds one when it changes anything, ... */
  lemma {:induction false} StateGrows(ins: seq<DefSets>, outs: seq<DefSets>, b: nat, newIn: DefSets, newOut: DefSets)
    requires b < |ins| == |outs| && Within(ins[b], newIn) && Within(outs[b], newOut)
    requires Proper(ins[b]) && Proper(outs[b]) && Proper(newIn) && Proper(newOut)
    ensures State(ins, outs) <= State(ins[b := newIn], outs[b := newOut])
    ensures newIn != ins[b] || newOut != outs[b] ==> State(ins, outs) != State(ins[b := newIn], outs[b := newOut])
  {
    hide State;
    FactsGrow(ins, b, newIn, false);
    FactsGrow(outs, b, newOut, true);
    StateOfFacts(ins, outs);
    StateOfFacts(ins[b := newIn], outs[b := newOut]);
  }

  lemma StateOfFacts(ins: seq<DefSets>, outs: seq<DefSets>)
    ensures State(ins, outs) == Facts(ins, false) + Facts(outs, true)
    ensures forall x :: x in Facts(ins, false) <==> x in State(ins, outs) && !x.0
    ensures forall x :: x in Facts(outs, true) <==> x in State(ins, outs) && x.0
  {
  }

  lemma {:induction false} FactsGrow(ms: seq<DefSets>, b: nat, m: DefSets, side: bool)
    requires b < |ms| && Within(ms[b], m) && Proper(ms[b]) && Proper(m)
    ensures Facts(ms, side) <= Facts(ms[b := m], side)
    ensures m != ms[b] ==> Facts(ms, side) != Facts(ms[b := m], side)
  {
    var ms' := ms[b := m];
    forall x | x in Facts(ms, side)
      ensures x in Facts(ms', side)
    {
      assert x.3 in DefsOf(ms[x.1], x.2);
      assert x.3 in DefsOf(ms'[x.1], x.2);
    }
    if m != ms[b] {
      var r, d := NewFact(ms[b], m);
      assert (side, b, r, d) in Facts(ms', side);
      assert (side, b, r, d) !in Facts(ms, side);
    }
  }

  lemma {:induction false} NewFact(a: DefSets, b: DefSets) returns (r: u16, d: nat)
    requires Within(a, b) && a != b && Proper(a) && Proper(b)
    ensures r in b && d in b[r] && d !in DefsOf(a, r)
  {
    if r' :| r' in b && exists d' :: d' in b[r'] && d' !in DefsOf(a, r') {
      r := r';
      d :| d in b[r] && d !in DefsOf(a, r);
    } else {
      SameFacts(a, b);
      assert false;
    }
  }

  lemma {:induction false} SameFacts(a: DefSets, b: DefSets)
    requires Proper(a) && Proper(b) && Within(a, b)
    requires forall r, d | r in b && d in b[r] :: d in DefsOf(a, r)
    ensures a == b
  {
    forall r: u16
      ensures DefsOf(a, r) == DefsOf(b, r)
    {
      assert forall d: nat :: d in DefsOf(b, r) ==> d in DefsOf(a, r);
      assert forall d: nat :: d in DefsOf(a, r) ==> d in DefsOf(b, r);
    }
    forall r: u16
      ensures r in a <==> r in b
    {
      assert r in a ==> DefsOf(a, r) != {};
      assert r in b ==> DefsOf(b, r) != {};
    }
    assert forall r: u16 | r in a :: a[r] == DefsOf(a, r) == DefsOf(b, r) == b[r];
  }

  /** ... and only adds facts that have a path. */
  lemma {:induction false} UpdateJustified(
      f: Flow, preds: seq<seq<nat>>, gens: seq<map<u16, nat>>, ins: seq<DefSets>, outs: seq<DefSets>, b: nat, newIn: DefSets)
    requires WellFormed(f) && ArePredecessors(f, preds) && AreGens(f, gens)
    requires |ins| == |outs| == |f.blockNodes| && Justified(f, ins, outs) && b < |ins|
    requires forall r: u16, d: nat :: d in DefsOf(newIn, r) <==> Arrives(preds[b], outs, r, d)
    ensures Justified(f, ins[b := newIn], outs[b := Transfer(newIn, gens[b])])
  {
    hide Reaches, DefsOf, Transfer;
    forall r: u16, d: nat | d in DefsOf(newIn, r)
      ensures Reaches(f, d, r, Point(b, 0))
    {
      var p :| p in preds[b] && p < |outs| && d in DefsOf(outs[p], r);
      ReachesFurther(f, d, r, Point(p, |f.blockNodes[p]|), Point(b, 0));
    }
    forall r: u16, d: nat | d in DefsOf(Transfer(newIn, gens[b]), r)
      ensures Reaches(f, d, r, Point(b, |f.blockNodes[b]|))
    {
      TransferDefs(newIn, gens[b], r);
      assert InForce(f, DefsOf(newIn, r), b, |f.blockNodes[b]|, r)
          == if r in gens[b] then {gens[b][r]} else DefsOf(newIn, r);
      InForceReaches(f, DefsOf(newIn, r), b, |f.blockNodes[b]|, r, d);
    }
  }

  lemma {:induction false} JustifiedFactsAreBounded(f: Flow, ins: seq<DefSets>, outs: seq<DefSets>)
    requires WellFormed(f) && |ins| == |outs| == |f.blockNodes| && Justified(f, ins, outs)
    ensures State(ins, outs) <= AllFacts(f)
  {
    forall x | x in State(ins, outs)
      ensures x in AllFacts(f)
    {
      var (side, b, r, d) := x;
      assert d in DefsOf(if side then outs[b] else ins[b], r);
      var q := Point(b, if side then |f.blockNodes[b]| else 0);
      assert Reaches(f, d, r, q);
      var path :| CarriesTo(f, path, d, r, q);
      assert Defines(f, d, r);
    }
  }

  lemma {:induction false} SettledSolves(
      f: Flow, preds: seq<seq<nat>>, gens: seq<map<u16, nat>>, ins: seq<DefSets>, outs: seq<DefSets>)
    requires WellFormed(f) && ArePredecessors(f, preds) && AreGens(f, gens)
    requires |ins| == |outs| == |f.blockNodes|
    requires forall b | 0 <= b < |ins| :: Settled(preds, gens, ins, outs, b)
    ensures Solves(f, ins, outs)
  {
    hide Transfer, DefsOf, InForce;
    forall b, r: u16 | 0 <= b < |ins|
      ensures DefsOf(outs[b], r) == InForce(f, DefsOf(ins[b], r), b, |f.blockNodes[b]|, r)
    {
      assert Settled(preds, gens, ins, outs, b);
      TransferDefs(ins[b], gens[b], r);
    }
    forall p, b, r: u16, d: nat | 0 <= p < |outs| && b in f.successors[p] && d in DefsOf(outs[p], r)
      ensures d in DefsOf(ins[b], r)
    {
      assert Settled(preds, gens, ins, outs, b);
      assert p in preds[b];
      assert Arrives(preds[b], outs, r, d);
    }
  }

  /** The round-robin iteration. Every round but the last adds a (block, register, node) fact, of
      which there are finitely many, so it ends; the result is a justified solution. */
  method Iterate(f: Flow, preds: seq<seq<nat>>, gens: seq<map<u16, nat>>) returns (ins: array<DefSets>, outs: array<DefSets>)
    requires WellFormed(f) && ArePredecessors(f, preds) && AreGens(f, gens)
    ensures fresh(ins) && fresh(outs) && ins.Length == outs.Length == |f.blockNodes|
    ensures Solves(f, ins[..], outs[..]) && Justified(f, ins[..], outs[..])
  {
    hide Reaches, Below, Settled, Solves, Justified, State, AllFacts, IsGen;
    var count := |f.blockNodes|;
    ins := new DefSets[count](_ => map[]);
    outs := new DefSets[count](_ => map[]);
    EmptyStart(f, preds, gens, ins[..], outs[..]);
    var changed := true;
    while changed
      invariant fresh(ins) && fresh(outs) && ins != outs && ins.Length == outs.Length == count
      invariant Below(preds, gens, ins[..], outs[..]) && Justified(f, ins[..], outs[..])
      invariant !changed ==> forall b | 0 <= b < count :: Settled(preds, gens, ins[..], outs[..], b)
      decreases AllFacts(f) - State(ins[..], outs[..]), changed
    {
      changed := false;
      ghost var start := State(ins[..], outs[..]);
      for b := 0 to count
        invariant ins != outs && ins.Length == outs.Length == count
        invariant Below(preds, gens, ins[..], outs[..]) && Justified(f, ins[..], outs[..])
        invariant start <= State(ins[..], outs[..])
        invariant if changed then start != State(ins[..], outs[..])
                  else start == State(ins[..], outs[..])
                       && forall c | 0 <= c < b :: Settled(preds, gens, ins[..], outs[..], c)
      {
        var grown := UpdateBlock(f, preds, gens, ins, outs, b);
        changed := changed || grown;
      }
      JustifiedFactsAreBounded(f, ins[..], outs[..]);
    }
    SettledSolves(f, preds, gens, ins[..], outs[..]);
  }

  lemma EmptyStart(f: Flow, preds: seq<seq<nat>>, gens: seq<map<u16, nat>>, ins: seq<DefSets>, outs: seq<DefSets>)
    requires WellFormed(f) && |preds| == |gens| == |ins| == |outs| == |f.blockNodes|
    requires forall b | 0 <= b < |ins| :: ins[b] == map[] && outs[b] == map[]
    ensures Below(preds, gens, ins, outs) && Justified(f, ins, outs)
  {
  }

  /** One block of one round. */
  method UpdateBlock(
      f: Flow, preds: seq<seq<nat>>, gens: seq<map<u16, nat>>, ins: array<DefSets>, outs: array<DefSets>, b: nat)
    returns (changed: bool)
    requires WellFormed(f) && ArePredecessors(f, preds) && AreGens(f, gens)
    requires ins != outs && ins.Length == outs.Length == |f.blockNodes| && b < ins.Length
    requires Below(preds, gens, ins[..], outs[..]) && Justified(f, ins[..], outs[..])
    modifies ins, outs
    ensures Below(preds, gens, ins[..], outs[..]) && Justified(f, ins[..], outs[..])
    ensures old(State(ins[..], outs[..])) <= State(ins[..], outs[..])
    ensures if changed then State(ins[..], outs[..]) != old(State(ins[..], outs[..]))
            else ins[..] == old(ins[..]) && outs[..] == old(outs[..]) && Settled(preds, gens, ins[..], outs[..], b)
  {
    hide Reaches, State, Transfer, Arrives, Proper, IsGen;
    ghost var ins0, outs0 := ins[..], outs[..];
    PredecessorsInRange(f, preds, b);
    assert forall p: nat | p < outs.Length :: outs0[p] == outs[p];
    var newIn := Join(preds[b], outs);
    var newOut := Transfer(newIn, gens[b]);
    UpdateGrows(preds, gens, ins0, outs0, b, newIn);
    UpdateJustified(f, preds, gens, ins0, outs0, b, newIn);
    TransferDefs(newIn, gens[b], 0);
    StateGrows(ins0, outs0, b, newIn, newOut);
    changed := ins[b] != newIn || outs[b] != newOut;
    if changed {
      ins[b] := newIn;
      outs[b] := newOut;
      assert ins[..] == ins0[b := newIn] && outs[..] == outs0[b := newOut];
    }
  }

  // ------------------------------------------------------------------- edges

  type Key = (nat, nat, u16)

  function EdgeFor(nodes: seq<Node>, t: Key): Edge
    requires t.0 < |nodes| && t.1 < |nodes|
  {
    Edge(t.0, t.1, t.2, nodes[t.0].blockStart != nodes[t.1].blockStart)
  }

  predicate InRange(nodes: seq<Node>, t: Key) {
    t.0 < |nodes| && t.1 < |nodes|
  }

  /** `edges` has one edge for each key in `seen` and no other. */
  ghost predicate Tracks(nodes: seq<Node>, edges: seq<Edge>, seen: set<Key>) {
    && (forall t | t in seen :: InRange(nodes, t))
    && (forall e :: e in edges <==> (e.from, e.to, e.reg) in seen && e == EdgeFor(nodes, (e.from, e.to, e.reg)))
    && (forall i, j | 0 <= i < j < |edges| :: edges[i] != edges[j])
  }

  lemma TracksMore(nodes: seq<Node>, edges: seq<Edge>, seen: set<Key>, t: Key)
    requires Tracks(nodes, edges, seen) && InRange(nodes, t) && t !in seen
    ensures Tracks(nodes, edges + [EdgeFor(nodes, t)], seen + {t})
  {
  }

  /** The uses of one node: an edge from every definition in force, unless already there. */
  method EmitUses(nodes: seq<Node>, edges: seq<Edge>, seen: set<Key>, current: DefSets, to: nat, uses: seq<u16>)
    returns (edges': seq<Edge>, seen': set<Key>)
    requires Tracks(nodes, edges, seen) && to < |nodes|
    requires forall r: u16, d: nat | d in DefsOf(current, r) :: d < |nodes|
    ensures Tracks(nodes, edges', seen')
    ensures forall t: Key :: t in seen' <==> t in seen || (t.1 == to && t.2 in uses && t.0 in DefsOf(current, t.2))
  {
    hide Tracks, EdgeFor;
    edges', seen' := edges, seen;
    for k := 0 to |uses|
      invariant Tracks(nodes, edges', seen')
      invariant forall t: Key :: t in seen' <==>
                  t in seen || (t.1 == to && t.2 in uses[..k] && t.0 in DefsOf(current, t.2))
    {
      var reg := uses[k];
      assert uses[..k + 1] == uses[..k] + [reg];
      var todo := DefsOf(current, reg);
      while todo != {}
        invariant todo <= DefsOf(current, reg) && Tracks(nodes, edges', seen')
        invariant forall t: Key :: t in seen' <==>
                    || t in seen || (t.1 == to && t.2 in uses[..k] && t.0 in DefsOf(current, t.2))
                    || (t.1 == to && t.2 == reg && t.0 in DefsOf(current, reg) && t.0 !in todo)
      {
        var from: nat :| from in todo;
        todo := todo - {from};
        var t := (from, to, reg);
        assert InRange(nodes, t);
        if t !in seen' {
          TracksMore(nodes, edges', seen', t);
          edges' := edges' + [EdgeFor(nodes, t)];
          seen' := seen' + {t};
        }
      }
    }
    assert uses[..|uses|] == uses;
  }

  /** Key t belongs to node k of block b. */
  ghost predicate EmittedAt(f: Flow, ins: seq<DefSets>, b: nat, k: nat, t: Key)
    requires |ins| == |f.blockNodes|
  {
    && IsAt(f, t.1, b, k) && t.1 < |f.nodes| && t.2 in f.nodes[t.1].uses
    && t.0 in InForce(f, DefsOf(ins[b], t.2), b, k, t.2)
  }

  /** After a node its definitions replace the earlier ones of the same registers. */
  method Redefine(current: DefSets, n: nat, defs: seq<u16>) returns (after: DefSets)
    ensures forall r: u16 :: DefsOf(after, r) == if r in defs then {n} else DefsOf(current, r)
  {
    after := current;
    for k := 0 to |defs|
      invariant forall r: u16 :: DefsOf(after, r) == if r in defs[..k] then {n} else DefsOf(current, r)
    {
      assert defs[..k + 1] == defs[..k] + [defs[k]];
      after := after[defs[k] := {n}];
    }
    assert defs[..|defs|] == defs;
  }

  method EmitBlock(f: Flow, ins: seq<DefSets>, b: nat, edges: seq<Edge>, seen: set<Key>)
    returns (edges': seq<Edge>, seen': set<Key>)
    requires WellFormed(f) && |ins| == |f.blockNodes| && b < |ins| && Tracks(f.nodes, edges, seen)
    requires forall r: u16, d: nat | d in DefsOf(ins[b], r) :: d < |f.nodes|
    ensures Tracks(f.nodes, edges', seen')
    ensures forall t: Key :: t in seen' <==> t in seen || exists k: nat :: EmittedAt(f, ins, b, k, t)
  {
    hide Tracks, InForce, DefsOf;
    edges', seen' := edges, seen;
    var current := ins[b];
    forall r: u16 {
      InForceStart(f, DefsOf(ins[b], r), b, r);
    }
    for k := 0 to |f.blockNodes[b]|
      invariant Tracks(f.nodes, edges', seen')
      invariant forall r: u16 :: DefsOf(current, r) == InForce(f, DefsOf(ins[b], r), b, k, r)
      invariant forall r: u16, d: nat | d in DefsOf(current, r) :: d < |f.nodes|
      invariant forall t: Key :: t in seen' <==> t in seen || exists n: nat :: n < k && EmittedAt(f, ins, b, n, t)
    {
      var n := f.blockNodes[b][k];
      ghost var before := seen';
      edges', seen' := EmitUses(f.nodes, edges', seen', current, n, f.nodes[n].uses);
      forall t: Key
        ensures t in seen' <==> t in seen || exists m: nat :: m < k + 1 && EmittedAt(f, ins, b, m, t)
      {
        assert t in seen' <==> t in before || EmittedAt(f, ins, b, k, t);
        assert (exists m: nat :: m < k + 1 && EmittedAt(f, ins, b, m, t))
          <==> (exists m: nat :: m < k && EmittedAt(f, ins, b, m, t)) || EmittedAt(f, ins, b, k, t);
      }
      current := Redefine(current, n, f.nodes[n].defs);
      forall r: u16 {
        InForceNext(f, DefsOf(ins[b], r), b, k, r);
      }
    }
  }

  lemma InForceStart(f: Flow, entry: set<nat>, b: nat, r: u16)
    requires b < |f.blockNodes|
    ensures InForce(f, entry, b, 0, r) == entry
  {
  }

  lemma InForceNext(f: Flow, entry: set<nat>, b: nat, k: nat, r: u16)
    requires WellFormed(f) && b < |f.blockNodes| && k < |f.blockNodes[b]|
    ensures var n := f.blockNodes[b][k];
            InForce(f, entry, b, k + 1, r) == if r in f.nodes[n].defs then {n} else InForce(f, entry, b, k, r)
  {
  }

  predicate Before(a: Edge, b: Edge) {
    if a.from != b.from then a.from < b.from else if a.to != b.to then a.to < b.to else a.reg < b.reg
  }

  ghost predicate Ascending(edges: seq<Edge>) {
    forall i, j | 0 <= i < j < |edges| :: Before(edges[i], edges[j])
  }

  /** The final sort; the keys are distinct, so the order is strict. */
  method SortEdges(nodes: seq<Node>, edges: seq<Edge>, ghost seen: set<Key>) returns (sorted: seq<Edge>)
    requires Tracks(nodes, edges, seen)
    ensures Ascending(sorted) && forall e :: e in sorted <==> e in edges
  {
    sorted := [];
    for n := 0 to |edges|
      invariant Ascending(sorted) && forall e :: e in sorted <==> e in edges[..n]
    {
      var e := edges[n];
      assert edges[..n + 1] == edges[..n] + [e];
      forall x | x in sorted
        ensures (x.from, x.to, x.reg) != (e.from, e.to, e.reg)
      {
        assert x in edges && e in edges;
      }
      sorted := InsertEdge(sorted, e);
    }
    assert edges[..|edges|] == edges;
  }

  method InsertEdge(sorted: seq<Edge>, e: Edge) returns (r: seq<Edge>)
    requires Ascending(sorted) && forall x | x in sorted :: (x.from, x.to, x.reg) != (e.from, e.to, e.reg)
    ensures Ascending(r) && forall x :: x in r <==> x == e || x in sorted
  {
    var k := 0;
    while k < |sorted| && Before(sorted[k], e)
      invariant 0 <= k <= |sorted| && forall n | 0 <= n < k :: Before(sorted[n], e)
    {
      k := k + 1;
    }
    if k < |sorted| {
      assert sorted[k] in sorted;
    }
    FitsAt(sorted, e, k);
    r := sorted[..k] + [e] + sorted[k..];
    assert sorted == sorted[..k] + sorted[k..];
  }

  lemma FitsAt(sorted: seq<Edge>, e: Edge, k: nat)
    requires Ascending(sorted) && k <= |sorted| && forall n | 0 <= n < k :: Before(sorted[n], e)
    requires k < |sorted| ==> Before(e, sorted[k])
    ensures Ascending(sorted[..k] + [e] + sorted[k..])
  {
    assert forall n | k < n < |sorted| :: Before(sorted[k], sorted[n]) && Before(e, sorted[n]);
  }

  /** From the graph of nodes to the def-use edges. */
  method FindEdges(f: Flow, preds: seq<seq<nat>>) returns (edges: seq<Edge>)
    requires WellFormed(f) && ArePredecessors(f, preds)
    ensures Ascending(edges)
    ensures forall e :: e in edges <==> DefUse(f, e.from, e.to, e.reg) && e.from < |f.nodes|
                                        && e == EdgeFor(f.nodes, (e.from, e.to, e.reg))
  {
    hide Tracks, Solves, Justified, InForce, Reaches, IsGen, ArePredecessors;
    var gens: seq<map<u16, nat>> := [];
    for b := 0 to |f.blockNodes|
      invariant |gens| == b && forall c: nat | c < b :: IsGen(f, c, |f.blockNodes[c]|, gens[c])
    {
      var gen := BuildGen(f, b);
      gens := gens + [gen];
    }
    var ins, outs := Iterate(f, preds, gens);
    var entry := ins[..];
    ghost var exit := outs[..];
    JustifiedNodes(f, entry, exit);
    var found: seq<Edge>, seen: set<Key> := [], {};
    assert Tracks(f.nodes, found, seen) by { TracksNothing(f.nodes); }
    for b := 0 to |f.blockNodes|
      invariant Tracks(f.nodes, found, seen)
      invariant forall t: Key :: t in seen <==> exists c: nat, k: nat :: c < b && EmittedAt(f, entry, c, k, t)
    {
      ghost var before := seen;
      found, seen := EmitBlock(f, entry, b, found, seen);
      forall t: Key
        ensures t in seen <==> exists c: nat, k: nat :: c < b + 1 && EmittedAt(f, entry, c, k, t)
      {
        assert (exists c: nat, k: nat :: c < b + 1 && EmittedAt(f, entry, c, k, t))
          <==> (exists c: nat, k: nat :: c < b && EmittedAt(f, entry, c, k, t)) || exists k: nat :: EmittedAt(f, entry, b, k, t);
      }
    }
    edges := SortEdges(f.nodes, found, seen);
    forall e
      ensures e in edges <==> DefUse(f, e.from, e.to, e.reg) && e.from < |f.nodes|
                              && e == EdgeFor(f.nodes, (e.from, e.to, e.reg))
    {
      TracksMeans(f.nodes, found, seen, e);
      EmittedMeansDefUse(f, entry, exit, (e.from, e.to, e.reg));
    }
  }

  lemma TracksNothing(nodes: seq<Node>)
    ensures Tracks(nodes, [], {})
  {
  }

  lemma TracksMeans(nodes: seq<Node>, edges: seq<Edge>, seen: set<Key>, e: Edge)
    requires Tracks(nodes, edges, seen)
    ensures e in edges <==> && (e.from, e.to, e.reg) in seen && InRange(nodes, (e.from, e.to, e.reg))
                            && e == EdgeFor(nodes, (e.from, e.to, e.reg))
  {
  }

  lemma {:induction false} JustifiedNodes(f: Flow, ins: seq<DefSets>, outs: seq<DefSets>)
    requires WellFormed(f) && |ins| == |outs| == |f.blockNodes| && Justified(f, ins, outs)
    ensures forall b: nat, r: u16, d: nat | b < |ins| && d in DefsOf(ins[b], r) :: d < |f.nodes|
  {
    forall b: nat, r: u16, d: nat | b < |ins| && d in DefsOf(ins[b], r)
      ensures d < |f.nodes|
    {
      assert Reaches(f, d, r, Point(b, 0));
      var path :| CarriesTo(f, path, d, r, Point(b, 0));
      assert Defines(f, d, r);
    }
  }

  lemma {:induction false} EmittedMeansDefUse(f: Flow, ins: seq<DefSets>, outs: seq<DefSets>, t: Key)
    requires WellFormed(f) && |ins| == |outs| == |f.blockNodes| && Solves(f, ins, outs) && Justified(f, ins, outs)
    ensures (exists c: nat, k: nat :: c < |ins| && EmittedAt(f, ins, c, k, t)) <==> DefUse(f, t.0, t.1, t.2)
  {
    hide Solves, Justified, InForce, Reaches;
    forall c: nat, k: nat | IsAt(f, t.1, c, k)
      ensures t.0 in InForce(f, DefsOf(ins[c], t.2), c, k, t.2) <==> Reaches(f, t.0, t.2, Point(c, k))
    {
      SolutionIsExact(f, ins, outs, c, k, t.2, t.0);
    }
    if DefUse(f, t.0, t.1, t.2) {
      var b, k :| IsAt(f, t.1, b, k) && Reaches(f, t.0, t.2, Point(b, k));
      assert EmittedAt(f, ins, b, k, t);
    }
  }

  // ------------------------------------------------------- nodes of a function

  type Decoder = u32 -> (seq<u16>, seq<u16>)

  /** `findBlockStartForAddress`: the first block that contains the address. */
  function FindBlock(blocks: seq<BasicBlock>, address: u64, i: nat): Option<nat>
    decreases |blocks| - i
  {
    if i >= |blocks| then None
    else if blocks[i].start <= address < blocks[i].end then Some(i)
    else FindBlock(blocks, address, i + 1)
  }

  /** The offsets below `limit` of the instructions that become nodes: inside some block, and with
      something defined or used. */
  function NodeOffsets(bytes: seq<u8>, start: u64, size: nat, blocks: seq<BasicBlock>, decode: Decoder, limit: nat): seq<nat>
    requires size <= |bytes|
    decreases limit
  {
    if limit == 0 then []
    else
      NodeOffsets(bytes, start, size, blocks, decode, limit - 1)
      + (if IsNode(bytes, start, size, blocks, decode, limit - 1) then [limit - 1] else [])
  }

  predicate IsNode(bytes: seq<u8>, start: u64, size: nat, blocks: seq<BasicBlock>, decode: Decoder, off: nat)
    requires size <= |bytes|
  {
    && IsInstruction(off, size)
    && FindBlock(blocks, Wrap64(start + off), 0).Some?
    && decode(InsnAt(bytes, off)) != ([], [])
  }

  /** A whole instruction inside a block that defines or uses a register. */
  ghost predicate TouchesRegister(
      bytes: seq<u8>, start: u64, size: nat, blocks: seq<BasicBlock>, decode: Decoder, off: nat)
    requires size <= |bytes|
  {
    && off % 4 == 0 && off + 4 <= size
    && (exists k :: 0 <= k < |blocks|
                    && blocks[k].start <= (start + off) % 0x1_0000_0000_0000_0000 < blocks[k].end)
    && (decode(InsnAt(bytes, off)).0 != [] || decode(InsnAt(bytes, off)).1 != [])
  }

  lemma NodeTouchesRegister(
      bytes: seq<u8>, start: u64, size: nat, blocks: seq<BasicBlock>, decode: Decoder, off: nat)
    requires size <= |bytes|
    ensures IsNode(bytes, start, size, blocks, decode, off) <==> TouchesRegister(bytes, start, size, blocks, decode, off)
  {
    hide FindBlock, InsnAt;
    FoundBlock(blocks, Wrap64(start + off), 0);
  }

  /** The nodes are exactly these instructions, in address order. */
  lemma {:induction false} NodesExactly(
      bytes: seq<u8>, start: u64, size: nat, blocks: seq<BasicBlock>, decode: Decoder, limit: nat)
    requires size <= |bytes|
    ensures var offs := NodeOffsets(bytes, start, size, blocks, decode, limit);
            && (forall i, j | 0 <= i < j < |offs| :: offs[i] < offs[j])
            && forall off: nat :: off in offs <==> off < limit && TouchesRegister(bytes, start, size, blocks, decode, off)
    decreases limit
  {
    hide IsNode, TouchesRegister;
    if limit > 0 {
      NodesExactly(bytes, start, size, blocks, decode, limit - 1);
      NodeTouchesRegister(bytes, start, size, blocks, decode, limit - 1);
      var before := NodeOffsets(bytes, start, size, blocks, decode, limit - 1);
      assert forall i | 0 <= i < |before| :: before[i] in before;
    }
  }

  lemma {:induction false} FoundBlock(blocks: seq<BasicBlock>, address: u64, i: nat)
    ensures match FindBlock(blocks, address, i)
            case None => forall k | i <= k < |blocks| :: !(blocks[k].start <= address < blocks[k].end)
            case Some(b) => && i <= b < |blocks| && blocks[b].start <= address < blocks[b].end
                            && forall k | i <= k < b :: !(blocks[k].start <= address < blocks[k].end)
    decreases |blocks| - i
  {
    if i < |blocks| {
      FoundBlock(blocks, address, i + 1);
    }
  }

  predicate InBlock(nodes: seq<Node>, blocks: seq<BasicBlock>, n: nat, b: nat) {
    n < |nodes| && FindBlock(blocks, nodes[n].address, 0) == Some(b)
  }

  /** Nodes n of `nodes` are the instructions at the offsets `offs[n]`, and `blockNodes` sorts them
      by block. */
  ghost predicate NodesOf(
      nodes: seq<Node>, blockNodes: seq<seq<nat>>, offs: seq<nat>, bytes: seq<u8>, start: u64, blocks: seq<BasicBlock>, decode: Decoder)
  {
    && |nodes| == |offs| && |blockNodes| == |blocks|
    && (forall n | 0 <= n < |nodes| ::
          && offs[n] + 4 <= |bytes|
          && var address := Wrap64(start + offs[n]);
             var (defs, uses) := decode(InsnAt(bytes, offs[n]));
             && nodes[n].address == address && nodes[n].defs == defs && nodes[n].uses == uses
             && match FindBlock(blocks, address, 0)
                case None => false
                case Some(b) => b < |blocks| && nodes[n].blockStart == blocks[b].start)
    && (forall b: nat, n: nat | b < |blocks| :: n in blockNodes[b] <==> InBlock(nodes, blocks, n, b))
    && (forall b: nat, i: nat, j: nat | b < |blocks| && i < j < |blockNodes[b]| :: blockNodes[b][i] < blockNodes[b][j])
  }

  /** The node-collecting loop. */
  method CollectNodes(bytes: seq<u8>, start: u64, size: nat, blocks: seq<BasicBlock>, decode: Decoder)
    returns (nodes: seq<Node>, blockNodes: seq<seq<nat>>)
    requires size <= |bytes|
    ensures NodesOf(nodes, blockNodes, NodeOffsets(bytes, start, size, blocks, decode, size), bytes, start, blocks, decode)
  {
    hide InsnAt, FindBlock, Wrap64, NodesOf, IsNode;
    nodes := [];
    blockNodes := seq(|blocks|, _ => []);
    var off := 0;
    assert NodesOf(nodes, blockNodes, [], bytes, start, blocks, decode) by { NoNodes(bytes, start, blocks, decode); }
    while off + 4 <= size
      invariant off % 4 == 0 && off <= size
      invariant NodesOf(nodes, blockNodes, NodeOffsets(bytes, start, size, blocks, decode, off), bytes, start, blocks, decode)
    {
      OnlyAligned(bytes, start, size, blocks, decode, off);
      nodes, blockNodes := CollectNode(bytes, start, size, blocks, decode, off, nodes, blockNodes,
                                       NodeOffsets(bytes, start, size, blocks, decode, off));
      off := off + 4;
    }
    NoTail(bytes, start, size, blocks, decode, off, size);
  }

  lemma NoNodes(bytes: seq<u8>, start: u64, blocks: seq<BasicBlock>, decode: Decoder)
    ensures NodesOf([], seq(|blocks|, _ => []), [], bytes, start, blocks, decode)
  {
  }

  lemma OnlyAligned(bytes: seq<u8>, start: u64, size: nat, blocks: seq<BasicBlock>, decode: Decoder, off: nat)
    requires size <= |bytes| && off % 4 == 0
    ensures NodeOffsets(bytes, start, size, blocks, decode, off + 4)
         == NodeOffsets(bytes, start, size, blocks, decode, off)
            + (if IsNode(bytes, start, size, blocks, decode, off) then [off] else [])
  {
    hide InsnAt, FindBlock, Wrap64;
    assert !IsInstruction(off + 1, size) && !IsInstruction(off + 2, size) && !IsInstruction(off + 3, size);
    assert NodeOffsets(bytes, start, size, blocks, decode, off + 2)
        == NodeOffsets(bytes, start, size, blocks, decode, off + 1);
    assert NodeOffsets(bytes, start, size, blocks, decode, off + 4)
        == NodeOffsets(bytes, start, size, blocks, decode, off + 3);
  }

  lemma {:induction false} NoTail(
      bytes: seq<u8>, start: u64, size: nat, blocks: seq<BasicBlock>, decode: Decoder, off: nat, limit: nat)
    requires size <= |bytes| && off % 4 == 0 && off <= limit <= size < off + 4
    ensures NodeOffsets(bytes, start, size, blocks, decode, limit) == NodeOffsets(bytes, start, size, blocks, decode, off)
    decreases limit
  {
    if off < limit {
      NoTail(bytes, start, size, blocks, decode, off, limit - 1);
    }
  }

  method CollectNode(
      bytes: seq<u8>, start: u64, size: nat, blocks: seq<BasicBlock>, decode: Decoder, off: nat,
      nodes: seq<Node>, blockNodes: seq<seq<nat>>, ghost offs: seq<nat>)
    returns (nodes': seq<Node>, blockNodes': seq<seq<nat>>)
    requires size <= |bytes| && IsInstruction(off, size) && NodesOf(nodes, blockNodes, offs, bytes, start, blocks, decode)
    ensures NodesOf(nodes', blockNodes', offs + (if IsNode(bytes, start, size, blocks, decode, off) then [off] else []),
                    bytes, start, blocks, decode)
  {
    hide InsnAt, FindBlock, Wrap64;
    var address := Wrap64(start + off);
    var block := FindBlock(blocks, address, 0);
    var (defs, uses) := decode(InsnAt(bytes, off));
    if block == None || (defs == [] && uses == []) {
      assert offs + [] == offs;
      return nodes, blockNodes;
    }
    FoundBlock(blocks, address, 0);
    var b := block.value;
    nodes' := nodes + [Node(address, blocks[b].start, defs, uses)];
    blockNodes' := blockNodes[b := blockNodes[b] + [|nodes|]];
    ghost var offs' := offs + [off];
    assert IsNode(bytes, start, size, blocks, decode, off);
    forall c: nat, n: nat | c < |blocks|
      ensures n in blockNodes'[c] <==> InBlock(nodes', blocks, n, c)
    {
      assert n in blockNodes[c] <==> InBlock(nodes, blocks, n, c);
    }
    forall c: nat, i: nat, j: nat | c < |blocks| && i < j < |blockNodes'[c]|
      ensures blockNodes'[c][i] < blockNodes'[c][j]
    {
      assert i < |blockNodes[c]| ==> blockNodes[c][i] in blockNodes[c];
    }
    assert NodesOf(nodes', blockNodes', offs', bytes, start, blocks, decode);
  }

  function IndexByStart(blocks: seq<BasicBlock>): map<u64, nat>
    decreases |blocks|
  {
    if blocks == [] then map[]
    else IndexByStart(blocks[..|blocks| - 1])[blocks[|blocks| - 1].start := |blocks| - 1]
  }

  /** The successor blocks of block b; addresses that start no block are ignored. */
  function SuccessorBlocks(blocks: seq<BasicBlock>, b: nat): set<nat>
    requires b < |blocks|
  {
    set s | s in blocks[b].successors && s in IndexByStart(blocks) :: IndexByStart(blocks)[s]
  }

  lemma {:induction false} IndexInRange(blocks: seq<BasicBlock>)
    ensures forall s | s in IndexByStart(blocks) ::
              IndexByStart(blocks)[s] < |blocks| && blocks[IndexByStart(blocks)[s]].start == s
    decreases |blocks|
  {
    if blocks != [] {
      IndexInRange(blocks[..|blocks| - 1]);
    }
  }

  /** Block c starts at a successor of block b, and no later block starts there. */
  ghost predicate IsSuccessor(blocks: seq<BasicBlock>, b: nat, c: nat)
    requires b < |blocks|
  {
    && c < |blocks| && blocks[c].start in blocks[b].successors
    && forall l | c < l < |blocks| :: blocks[l].start != blocks[c].start
  }

  lemma {:induction false} IndexIsLast(blocks: seq<BasicBlock>, c: nat)
    requires c < |blocks|
    ensures blocks[c].start in IndexByStart(blocks)
    ensures IndexByStart(blocks)[blocks[c].start] == c <==> forall l | c < l < |blocks| :: blocks[l].start != blocks[c].start
    decreases |blocks|
  {
    var n := |blocks| - 1;
    if c < n {
      IndexIsLast(blocks[..n], c);
      assert forall l | c < l < n :: blocks[..n][l] == blocks[l];
    }
    if blocks[n].start == blocks[c].start {
      assert IndexByStart(blocks)[blocks[c].start] == n;
    }
  }

  lemma SuccessorBlocksMean(blocks: seq<BasicBlock>, b: nat, c: nat)
    requires b < |blocks|
    ensures c in SuccessorBlocks(blocks, b) <==> IsSuccessor(blocks, b, c)
  {
    hide IndexByStart;
    IndexInRange(blocks);
    if c < |blocks| {
      IndexIsLast(blocks, c);
    }
  }

  method BuildIndex(blocks: seq<BasicBlock>) returns (index: map<u64, nat>)
    ensures index == IndexByStart(blocks)
  {
    index := map[];
    for i := 0 to |blocks|
      invariant index == IndexByStart(blocks[..i])
    {
      assert blocks[..i + 1][..i] == blocks[..i];
      index := index[blocks[i].start := i];
    }
    assert blocks[..|blocks|] == blocks;
  }

  ghost predicate EdgeBetween(blocks: seq<BasicBlock>, p: nat, c: nat) {
    p < |blocks| && c in SuccessorBlocks(blocks, p)
  }

  /** The predecessor lists. */
  method BuildPredecessors(blocks: seq<BasicBlock>) returns (preds: seq<seq<nat>>)
    ensures |preds| == |blocks|
    ensures forall c: nat, p: nat | c < |preds| :: p in preds[c] <==> EdgeBetween(blocks, p, c)
  {
    var index := BuildIndex(blocks);
    IndexInRange(blocks);
    preds := seq(|blocks|, _ => []);
    for b := 0 to |blocks|
      invariant |preds| == |blocks|
      invariant forall c: nat, p: nat | c < |preds| :: p in preds[c] <==> p < b && EdgeBetween(blocks, p, c)
    {
      ghost var before := preds;
      var successors := blocks[b].successors;
      for k := 0 to |successors|
        invariant |preds| == |blocks|
        invariant forall c: nat, p: nat | c < |preds| :: p in preds[c] <==>
                    p in before[c] || (p == b && LeadsTo(successors[..k], index, c))
      {
        var s := successors[k];
        assert successors[..k + 1] == successors[..k] + [s];
        if s in index {
          preds := preds[index[s] := preds[index[s]] + [b]];
        }
      }
      assert successors[..|successors|] == successors;
    }
  }

  ghost predicate LeadsTo(successors: seq<u64>, index: map<u64, nat>, c: nat) {
    exists s :: s in successors && s in index && index[s] == c
  }

  /** The flow of a function whose blocks are given. */
  function FlowOf(blocks: seq<BasicBlock>, nodes: seq<Node>, blockNodes: seq<seq<nat>>): Flow {
    Flow(nodes, blockNodes, seq(|blocks|, b requires 0 <= b < |blocks| => SuccessorBlocks(blocks, b)))
  }

  /** `buildAArch64RegisterDFG`: the nodes of the function, and the def-use edges, which are exact:
      d to u for register r exactly when some path of nodes and graph edges leads from behind d to u
      with no definition of r on it. Edges come sorted, each once, with the cross-block flag. */
  method BuildRegisterDfg(bytes: seq<u8>, start: u64, size: nat, blocks: seq<BasicBlock>, decode: Decoder)
    returns (ok: bool, nodes: seq<Node>, edges: seq<Edge>, ghost flow: Flow)
    ensures ok <==> size <= |bytes|
    ensures ok ==>
              && flow.nodes == nodes && WellFormed(flow)
              && NodesOf(nodes, flow.blockNodes, NodeOffsets(bytes, start, size, blocks, decode, size), bytes, start, blocks, decode)
              && |flow.successors| == |blocks|
              && forall b: nat, c: nat | b < |blocks| :: c in flow.successors[b] <==> IsSuccessor(blocks, b, c)
    ensures ok ==>
              && (forall i, j | 0 <= i < j < |edges| ::
                    || edges[i].from < edges[j].from
                    || (edges[i].from == edges[j].from
                        && (edges[i].to < edges[j].to || (edges[i].to == edges[j].to && edges[i].reg < edges[j].reg))))
              && forall e :: e in edges <==>
                               && e.from < |nodes| && e.to < |nodes| && DefUse(flow, e.from, e.to, e.reg)
                               && (e.crossBlock <==> nodes[e.from].blockStart != nodes[e.to].blockStart)
  {
    hide NodeOffsets, DefUse, Ascending;
    if size > |bytes| {
      flow := Flow([], [], []);
      return false, [], [], flow;
    }
    var blockNodes;
    nodes, blockNodes := CollectNodes(bytes, start, size, blocks, decode);
    var f := FlowOf(blocks, nodes, blockNodes);
    flow := f;
    var preds := BuildPredecessors(blocks);
    IndexInRange(blocks);
    FlowIsWellFormed(blocks, nodes, blockNodes, NodeOffsets(bytes, start, size, blocks, decode, size), bytes, start, decode);
    assert ArePredecessors(f, preds) by {
      forall c: nat, p: nat | c < |preds|
        ensures p in preds[c] <==> p < |f.successors| && c in f.successors[p]
      {
        assert p in preds[c] <==> EdgeBetween(blocks, p, c);
      }
    }
    edges := FindEdges(f, preds);
    forall b: nat, c: nat | b < |blocks|
      ensures c in flow.successors[b] <==> IsSuccessor(blocks, b, c)
    {
      SuccessorBlocksMean(blocks, b, c);
    }
    hide SuccessorBlocks, IsSuccessor, NodesOf;
    OrderIsLexicographic(edges);
    forall e: Edge
      ensures DefUse(f, e.from, e.to, e.reg) ==> e.to < |nodes|
    {
      UsesAreNodes(f, e.from, e.to, e.reg);
    }
    return true, nodes, edges, flow;
  }

  lemma OrderIsLexicographic(edges: seq<Edge>)
    requires Ascending(edges)
    ensures forall i, j | 0 <= i < j < |edges| ::
              || edges[i].from < edges[j].from
              || (edges[i].from == edges[j].from
                  && (edges[i].to < edges[j].to || (edges[i].to == edges[j].to && edges[i].reg < edges[j].reg)))
  {
  }

  lemma UsesAreNodes(f: Flow, d: nat, u: nat, r: u16)
    requires WellFormed(f)
    ensures DefUse(f, d, u, r) ==> u < |f.nodes|
  {
  }

  lemma FlowIsWellFormed(
      blocks: seq<BasicBlock>, nodes: seq<Node>, blockNodes: seq<seq<nat>>, offs: seq<nat>,
      bytes: seq<u8>, start: u64, decode: Decoder)
    requires NodesOf(nodes, blockNodes, offs, bytes, start, blocks, decode)
    ensures WellFormed(FlowOf(blocks, nodes, blockNodes))
  {
    hide InsnAt, FindBlock, Wrap64, IndexByStart;
    IndexInRange(blocks);
    forall b: nat, k: nat | b < |blockNodes| && k < |blockNodes[b]|
      ensures blockNodes[b][k] < |nodes|
    {
      assert blockNodes[b][k] in blockNodes[b];
    }
  }
}
