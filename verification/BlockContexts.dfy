/** The context of a block told from the edges of its graph: what the context keys of
    src/cfg_reconstruction.cpp compare. */
module BlockContexts {
  import opened Words
  import opened BasicBlocks
  import opened BlockMatcher

  /** An edge: block and place in its list of successors. */
  type Edge = (nat, nat)

  /** The edges to an address from blocks with hash h. */
  ghost function EdgesInto(blocks: seq<BasicBlock>, start: u64, h: u64): set<Edge> {
    set p: nat, n: nat | p < |blocks| && n < |blocks[p].successors| && blocks[p].hash == h
                         && blocks[p].successors[n] == start :: (p, n)
  }

  /** Of the blocks at an address the last one has hash h. */
  ghost predicate StartsWithHash(blocks: seq<BasicBlock>, start: u64, h: u64) {
    exists k: nat :: k < |blocks| && blocks[k].start == start && blocks[k].hash == h
                     && forall l: nat | k < l < |blocks| :: blocks[l].start != start
  }

  /** The edges of a list of successors to blocks with hash h. */
  ghost function EdgesOut(blocks: seq<BasicBlock>, successors: seq<u64>, h: u64): set<nat> {
    set n: nat | n < |successors| && StartsWithHash(blocks, successors[n], h)
  }

  lemma {:induction false} HashOfStart(blocks: seq<BasicBlock>, start: u64, h: u64)
    ensures StartsWithHash(blocks, start, h) <==> start in HashByStart(blocks) && HashByStart(blocks)[start] == h
    decreases |blocks|
  {
    if blocks != [] {
      var n := |blocks| - 1;
      HashOfStart(blocks[..n], start, h);
      if blocks[n].start == start {
        assert blocks[n].hash == h ==> StartsWithHash(blocks, start, h);
      } else if StartsWithHash(blocks[..n], start, h) {
        var k: nat :| k < n && blocks[..n][k].start == start && blocks[..n][k].hash == h
                      && forall l: nat | k < l < n :: blocks[..n][l].start != start;
        assert forall l: nat | k < l < n :: blocks[l] == blocks[..n][l];
      }
    }
  }

  ghost function PlacesOf(p: nat, successors: seq<u64>, start: u64): set<Edge> {
    set n: nat | n < |successors| && successors[n] == start :: (p, n)
  }

  lemma {:induction false} PlacesCounted(p: nat, successors: seq<u64>, start: u64, hash: u64, h: u64)
    ensures EdgesTo(successors, start, hash)[h] == if h == hash then |PlacesOf(p, successors, start)| else 0
    decreases |successors|
  {
    if successors != [] {
      var n := |successors| - 1;
      PlacesCounted(p, successors[..n], start, hash, h);
      assert PlacesOf(p, successors, start)
          == PlacesOf(p, successors[..n], start) + (if successors[n] == start then {(p, n)} else {});
    }
  }

  /** The edges from the last block and the others. */
  lemma EdgesSplit(blocks: seq<BasicBlock>, last: BasicBlock, start: u64, h: u64)
    ensures var from := if last.hash == h then PlacesOf(|blocks|, last.successors, start) else {};
            && EdgesInto(blocks + [last], start, h) == EdgesInto(blocks, start, h) + from
            && EdgesInto(blocks, start, h) !! from
  {
    var from := if last.hash == h then PlacesOf(|blocks|, last.successors, start) else {};
    var all := blocks + [last];
    forall e | e in EdgesInto(all, start, h)
      ensures e in EdgesInto(blocks, start, h) + from
    {
      assert all[e.0] == if e.0 < |blocks| then blocks[e.0] else last;
    }
    forall e | e in EdgesInto(blocks, start, h) + from
      ensures e in EdgesInto(all, start, h)
    {
      assert all[e.0] == if e.0 < |blocks| then blocks[e.0] else last;
    }
  }

  lemma {:induction false} EdgesInCounted(blocks: seq<BasicBlock>, start: u64, h: u64)
    ensures PredecessorHashes(blocks, start)[h] == |EdgesInto(blocks, start, h)|
    decreases |blocks|
  {
    hide EdgesTo;
    if blocks == [] {
      assert EdgesInto(blocks, start, h) == {};
    } else {
      hide EdgesInto, PlacesOf;
      var p := |blocks| - 1;
      EdgesInCounted(blocks[..p], start, h);
      PlacesCounted(p, blocks[p].successors, start, blocks[p].hash, h);
      EdgesSplit(blocks[..p], blocks[p], start, h);
      assert blocks == blocks[..p] + [blocks[p]];
    }
  }

  lemma {:induction false} EdgesOutCounted(blocks: seq<BasicBlock>, successors: seq<u64>, h: u64)
    ensures SuccessorHashes(successors, HashByStart(blocks))[h] == |EdgesOut(blocks, successors, h)|
    decreases |successors|
  {
    hide HashByStart, StartsWithHash;
    if successors != [] {
      var n := |successors| - 1;
      EdgesOutCounted(blocks, successors[..n], h);
      HashOfStart(blocks, successors[n], h);
      assert EdgesOut(blocks, successors, h)
          == EdgesOut(blocks, successors[..n], h) + (if StartsWithHash(blocks, successors[n], h) then {n} else {});
    }
  }

  /** Two blocks have equal contexts if and only if they are equally long and, for every hash, as
      many edges come from blocks with this hash and as many edges lead to such blocks. */
  lemma {:induction false} EqualContexts(was: seq<BasicBlock>, now: seq<BasicBlock>, i: nat, j: nat)
    requires i < |was| && j < |now|
    ensures Context(was, i) == Context(now, j) <==>
              && Max(was[i].end - was[i].start, 0) == Max(now[j].end - now[j].start, 0)
              && (forall h: u64 :: |EdgesInto(was, was[i].start, h)| == |EdgesInto(now, now[j].start, h)|)
              && (forall h: u64 :: |EdgesOut(was, was[i].successors, h)| == |EdgesOut(now, now[j].successors, h)|)
  {
    hide PredecessorHashes, SuccessorHashes, HashByStart, EdgesInto, EdgesOut;
    forall h: u64
      ensures PredecessorHashes(was, was[i].start)[h] == |EdgesInto(was, was[i].start, h)|
      ensures PredecessorHashes(now, now[j].start)[h] == |EdgesInto(now, now[j].start, h)|
      ensures SuccessorHashes(was[i].successors, HashByStart(was))[h] == |EdgesOut(was, was[i].successors, h)|
      ensures SuccessorHashes(now[j].successors, HashByStart(now))[h] == |EdgesOut(now, now[j].successors, h)|
    {
      EdgesInCounted(was, was[i].start, h);
      EdgesInCounted(now, now[j].start, h);
      EdgesOutCounted(was, was[i].successors, h);
      EdgesOutCounted(now, now[j].successors, h);
    }
    var a, b := Context(was, i), Context(now, j);
    assert a.predecessors == b.predecessors <==> forall h: u64 :: a.predecessors[h] == b.predecessors[h];
    assert a.successors == b.successors <==> forall h: u64 :: a.successors[h] == b.successors[h];
  }

  /** Equal hashes, and equal surroundings by size and edges. */
  ghost predicate Alike(was: seq<BasicBlock>, now: seq<BasicBlock>, i: nat, j: nat)
    requires i < |was| && j < |now|
  {
    && was[i].hash == now[j].hash
    && Max(was[i].end - was[i].start, 0) == Max(now[j].end - now[j].start, 0)
    && (forall h: u64 :: |EdgesInto(was, was[i].start, h)| == |EdgesInto(now, now[j].start, h)|)
    && (forall h: u64 :: |EdgesOut(was, was[i].successors, h)| == |EdgesOut(now, now[j].successors, h)|)
  }

  /** No other block of the graph has this block's hash. */
  ghost predicate AloneByHash(blocks: seq<BasicBlock>, i: nat)
    requires i < |blocks|
  {
    forall k | 0 <= k < |blocks| && k != i :: blocks[k].hash != blocks[i].hash
  }

  ghost predicate AloneByEdges(blocks: seq<BasicBlock>, i: nat)
    requires i < |blocks|
  {
    forall k | 0 <= k < |blocks| && k != i :: !Alike(blocks, blocks, k, i)
  }

  lemma {:induction false} AlikeIs(was: seq<BasicBlock>, now: seq<BasicBlock>, i: nat, j: nat)
    requires i < |was| && j < |now|
    ensures Alike(was, now, i, j) <==> was[i].hash == now[j].hash && Context(was, i) == Context(now, j)
  {
    hide Context, EdgesInto, EdgesOut;
    EqualContexts(was, now, i, j);
  }

  lemma {:induction false} AloneIs(blocks: seq<BasicBlock>, i: nat)
    requires i < |blocks|
    ensures UniqueHash(blocks, i) <==> AloneByHash(blocks, i)
    ensures UniqueContext(blocks, i) <==> AloneByEdges(blocks, i)
  {
    hide Context, Alike;
    forall k: nat | k < |blocks|
      ensures Alike(blocks, blocks, k, i) <==> blocks[k].hash == blocks[i].hash && Context(blocks, k) == Context(blocks, i)
    {
      AlikeIs(blocks, blocks, k, i);
    }
  }

  /** Two blocks are matched if and only if they have the same hash and either both are alone with it
      in their graphs, or they have the same surroundings and both are alone with these. */
  lemma {:induction false} MatchedByEdges(was: seq<BasicBlock>, now: seq<BasicBlock>, i: nat, j: nat)
    requires i < |was| && j < |now|
    ensures Matched(was, now, i, j) <==>
              || (was[i].hash == now[j].hash && AloneByHash(was, i) && AloneByHash(now, j))
              || (Alike(was, now, i, j) && AloneByEdges(was, i) && AloneByEdges(now, j))
  {
    hide Context, Alike, AloneByHash, AloneByEdges, UniqueHash, UniqueContext;
    AlikeIs(was, now, i, j);
    AloneIs(was, i);
    AloneIs(now, j);
  }
}
