/** `CFGMatcher::matchBlocks` of src/cfg_reconstruction.cpp: blocks are paired by unique hashes,
    and repeated hashes by the hashes around them. */
module BlockMatcher {
  import opened Words
  import opened BasicBlocks
  import opened BlockProperties

  datatype BlockMapping = BlockMapping(oldBlock: u64, newBlock: u64, oldSize: u64, newSize: u64, hash: u64)

  /** What `blockContextKey` writes into its string: the block size and the sorted hashes of
      predecessors and of successors, that is, two multisets. */
  datatype ContextKey = ContextKey(size: u64, predecessors: multiset<u64>, successors: multiset<u64>)

  function SizeOf(b: BasicBlock): u64 {
    if b.end > b.start then b.end - b.start else 0
  }

  /** `buildHashByStart`: of blocks with the same start the last one counts. */
  function HashByStart(blocks: seq<BasicBlock>): map<u64, u64>
    decreases |blocks|
  {
    if blocks == [] then map[]
    else
      var last := blocks[|blocks| - 1];
      HashByStart(blocks[..|blocks| - 1])[last.start := last.hash]
  }

  /** `hash` once for every edge to `start` in a successor list. */
  function EdgesTo(successors: seq<u64>, start: u64, hash: u64): multiset<u64>
    decreases |successors|
  {
    if successors == [] then multiset{}
    else
      EdgesTo(successors[..|successors| - 1], start, hash)
      + (if successors[|successors| - 1] == start then multiset{hash} else multiset{})
  }

  /** Hashes of the predecessors of the block at `start`, once per edge. */
  function PredecessorHashes(blocks: seq<BasicBlock>, start: u64): multiset<u64>
    decreases |blocks|
  {
    if blocks == [] then multiset{}
    else
      var last := blocks[|blocks| - 1];
      PredecessorHashes(blocks[..|blocks| - 1], start) + EdgesTo(last.successors, start, last.hash)
  }

  function SuccessorHashes(successors: seq<u64>, hashes: map<u64, u64>): multiset<u64>
    decreases |successors|
  {
    if successors == [] then multiset{}
    else
      var s := successors[|successors| - 1];
      SuccessorHashes(successors[..|successors| - 1], hashes) + (if s in hashes then multiset{hashes[s]} else multiset{})
  }

  function Context(blocks: seq<BasicBlock>, i: nat): ContextKey
    requires i < |blocks|
  {
    var b := blocks[i];
    ContextKey(SizeOf(b), PredecessorHashes(blocks, b.start), SuccessorHashes(b.successors, HashByStart(blocks)))
  }

  function Hashes(blocks: seq<BasicBlock>): (r: seq<u64>)
    ensures |r| == |blocks|
  {
    seq(|blocks|, i requires 0 <= i < |blocks| => blocks[i].hash)
  }

  // ------------------------------------------------------- what is matched

  ghost predicate UniqueHash(blocks: seq<BasicBlock>, i: nat) {
    i < |blocks| && forall k | 0 <= k < |blocks| && blocks[k].hash == blocks[i].hash :: k == i
  }

  ghost predicate UniqueContext(blocks: seq<BasicBlock>, i: nat) {
    i < |blocks| && forall k | 0 <= k < |blocks| && blocks[k].hash == blocks[i].hash
                              && Context(blocks, k) == Context(blocks, i) :: k == i
  }

  /** Old block i is paired with new block j. */
  ghost predicate Matched(was: seq<BasicBlock>, now: seq<BasicBlock>, i: nat, j: nat) {
    && i < |was| && j < |now| && was[i].hash == now[j].hash
    && (|| (UniqueHash(was, i) && UniqueHash(now, j))
        || (UniqueContext(was, i) && UniqueContext(now, j) && Context(was, i) == Context(now, j)))
  }

  /** The matching is a partial bijection ... */
  lemma {:induction false} MatchingIsBijection(was: seq<BasicBlock>, now: seq<BasicBlock>, i: nat, j: nat, i': nat, j': nat)
    requires Matched(was, now, i, j) && Matched(was, now, i', j')
    ensures i == i' <==> j == j'
  {
    hide Context;
  }

  /** ... and symmetric: swapping the graphs swaps the pairs. */
  lemma MatchingIsSymmetric(was: seq<BasicBlock>, now: seq<BasicBlock>, i: nat, j: nat)
    ensures Matched(was, now, i, j) <==> Matched(now, was, j, i)
  {
    hide Context;
  }

  // ---------------------------------------------------------- implementation

  predicate Within(members: seq<nat>, n: nat) {
    forall k | 0 <= k < |members| :: members[k] < n
  }

  /** The members of `from` whose key is `k`, in order. */
  function WithKey<K(==)>(keys: seq<K>, from: seq<nat>, k: K): seq<nat>
    requires Within(from, |keys|)
    decreases |from|
  {
    if from == [] then []
    else
      var x := from[|from| - 1];
      WithKey(keys, from[..|from| - 1], k) + (if keys[x] == k then [x] else [])
  }

  lemma {:induction false} WithKeyMembers<K>(keys: seq<K>, from: seq<nat>, k: K)
    requires Within(from, |keys|)
    ensures Within(WithKey(keys, from, k), |keys|)
    ensures forall x :: x in WithKey(keys, from, k) <==> x in from && x < |keys| && keys[x] == k
    decreases |from|
  {
    if from != [] {
      var n := |from| - 1;
      WithKeyMembers(keys, from[..n], k);
      assert from == from[..n] + [from[n]];
    }
  }

  lemma {:induction false} WithKeyDistinct<K>(keys: seq<K>, from: seq<nat>, k: K)
    requires Within(from, |keys|)
    requires Distinct(from)
    ensures Distinct(WithKey(keys, from, k))
    decreases |from|
  {
    if from != [] {
      var n := |from| - 1;
      WithKeyDistinct(keys, from[..n], k);
      WithKeyMembers(keys, from[..n], k);
    }
  }

  predicate Distinct(s: seq<nat>) {
    forall i, j | 0 <= i < j < |s| :: s[i] != s[j]
  }

  /** The loops that fill a map from keys to lists. */
  method GroupBy<K(==)>(keys: seq<K>, from: seq<nat>) returns (groups: map<K, seq<nat>>)
    requires Within(from, |keys|)
    ensures forall k :: (if k in groups then groups[k] else []) == WithKey(keys, from, k)
    ensures forall k | k in groups :: groups[k] != []
  {
    groups := map[];
    for n := 0 to |from|
      invariant forall k :: (if k in groups then groups[k] else []) == WithKey(keys, from[..n], k)
      invariant forall k | k in groups :: groups[k] != []
    {
      var x := from[n];
      assert from[..n + 1][..n] == from[..n];
      groups := groups[keys[x] := (if keys[x] in groups then groups[keys[x]] else []) + [x]];
    }
    assert from[..|from|] == from;
  }

  /** `buildHashByStart` */
  method BuildHashByStart(blocks: seq<BasicBlock>) returns (hashes: map<u64, u64>)
    ensures hashes == HashByStart(blocks)
  {
    hashes := map[];
    for n := 0 to |blocks|
      invariant hashes == HashByStart(blocks[..n])
    {
      assert blocks[..n + 1][..n] == blocks[..n];
      hashes := hashes[blocks[n].start := blocks[n].hash];
    }
    assert blocks[..|blocks|] == blocks;
  }

  function Get(m: map<u64, multiset<u64>>, k: u64): multiset<u64> {
    if k in m then m[k] else multiset{}
  }

  /** The inner loop: one more predecessor for every successor of `b` that starts a block. */
  method AddPredecessor(before: map<u64, multiset<u64>>, b: BasicBlock, hashes: map<u64, u64>)
    returns (predecessors: map<u64, multiset<u64>>)
    ensures forall s: u64 | s in hashes ::
              Get(predecessors, s) == Get(before, s) + EdgesTo(b.successors, s, b.hash)
  {
    hide EdgesTo, Get;
    predecessors := before;
    forall s: u64 {
      NoEdges(Get(before, s), s, b.hash);
    }
    for k := 0 to |b.successors|
      invariant forall s: u64 | s in hashes ::
                  Get(predecessors, s) == Get(before, s) + EdgesTo(b.successors[..k], s, b.hash)
    {
      var t := b.successors[k];
      ghost var was := predecessors;
      if t in hashes {
        predecessors := predecessors[t := Get(predecessors, t) + multiset{b.hash}];
        assert forall s: u64 :: Get(predecessors, s) == if s == t then Get(was, t) + multiset{b.hash} else Get(was, s) by {
          GetUpdated(was, t, Get(was, t) + multiset{b.hash});
        }
      }
      forall s: u64 | s in hashes
        ensures Get(predecessors, s) == Get(before, s) + EdgesTo(b.successors[..k + 1], s, b.hash)
      {
        NextEdge(Get(before, s), b.successors, k, s, b.hash);
      }
    }
    assert b.successors[..|b.successors|] == b.successors;
  }

  lemma GetUpdated(m: map<u64, multiset<u64>>, t: u64, v: multiset<u64>)
    ensures forall s: u64 :: Get(m[t := v], s) == if s == t then v else Get(m, s)
  {
  }

  lemma NoEdges(m: multiset<u64>, s: u64, hash: u64)
    ensures m + EdgesTo([], s, hash) == m
  {
  }

  lemma NextEdge(m: multiset<u64>, successors: seq<u64>, k: nat, s: u64, hash: u64)
    requires k < |successors|
    ensures m + EdgesTo(successors[..k + 1], s, hash)
         == if successors[k] == s then m + EdgesTo(successors[..k], s, hash) + multiset{hash}
            else m + EdgesTo(successors[..k], s, hash)
  {
    assert successors[..k + 1][..k] == successors[..k];
  }

  /** `buildPredecessorHashes`; successors that start no block are skipped. */
  method BuildPredecessorHashes(blocks: seq<BasicBlock>, hashes: map<u64, u64>) returns (predecessors: map<u64, multiset<u64>>)
    ensures forall s: u64 | s in hashes :: Get(predecessors, s) == PredecessorHashes(blocks, s)
  {
    hide Get;
    predecessors := map[];
    assert forall s: u64 :: Get(predecessors, s) == multiset{} by { GetEmpty(); }
    for n := 0 to |blocks|
      invariant forall s: u64 | s in hashes :: Get(predecessors, s) == PredecessorHashes(blocks[..n], s)
    {
      predecessors := AddPredecessor(predecessors, blocks[n], hashes);
      assert blocks[..n + 1][..n] == blocks[..n];
    }
    assert blocks[..|blocks|] == blocks;
  }

  lemma GetEmpty()
    ensures forall s: u64 :: Get(map[], s) == multiset{}
  {
  }

  method SuccessorHashesOf(successors: seq<u64>, hashes: map<u64, u64>) returns (r: multiset<u64>)
    ensures r == SuccessorHashes(successors, hashes)
  {
    r := multiset{};
    for n := 0 to |successors|
      invariant r == SuccessorHashes(successors[..n], hashes)
    {
      assert successors[..n + 1][..n] == successors[..n];
      if successors[n] in hashes {
        r := r + multiset{hashes[successors[n]]};
      }
    }
    assert successors[..|successors|] == successors;
  }

  lemma {:induction false} StartsAreKeys(blocks: seq<BasicBlock>)
    ensures forall i | 0 <= i < |blocks| :: blocks[i].start in HashByStart(blocks)
    decreases |blocks|
  {
    if blocks != [] {
      StartsAreKeys(blocks[..|blocks| - 1]);
    }
  }

  /** The context key of every block. */
  method ContextKeys(blocks: seq<BasicBlock>) returns (keys: seq<ContextKey>)
    ensures |keys| == |blocks| && forall i | 0 <= i < |blocks| :: keys[i] == Context(blocks, i)
  {
    hide PredecessorHashes, SuccessorHashes, HashByStart;
    var hashes := BuildHashByStart(blocks);
    var predecessors := BuildPredecessorHashes(blocks, hashes);
    StartsAreKeys(blocks);
    keys := [];
    for i := 0 to |blocks|
      invariant |keys| == i && forall k | 0 <= k < i :: keys[k] == Context(blocks, k)
    {
      var successors := SuccessorHashesOf(blocks[i].successors, hashes);
      keys := keys + [ContextKey(SizeOf(blocks[i]), Get(predecessors, blocks[i].start), successors)];
    }
  }

  lemma SingletonMeans(group: seq<nat>, i: nat)
    requires Distinct(group) && i in group
    ensures |group| == 1 <==> forall k | k in group :: k == i
  {
    if |group| > 1 {
      assert group[0] in group && group[1] in group;
    }
  }

  /** The blocks of one hash, in index order. */
  ghost function Class(blocks: seq<BasicBlock>, h: u64): seq<nat> {
    WithKey(Hashes(blocks), seq(|blocks|, n requires 0 <= n < |blocks| => n), h)
  }

  lemma {:induction false} ClassMembers(blocks: seq<BasicBlock>, h: u64)
    ensures Distinct(Class(blocks, h)) && Within(Class(blocks, h), |blocks|)
    ensures forall i: nat :: i in Class(blocks, h) <==> i < |blocks| && blocks[i].hash == h
  {
    var all: seq<nat> := seq(|blocks|, n requires 0 <= n < |blocks| => n);
    WithKeyMembers(Hashes(blocks), all, h);
    WithKeyDistinct(Hashes(blocks), all, h);
    assert forall i: nat | i < |blocks| :: all[i] == i;
    forall i: nat
      ensures i in all <==> i < |blocks|
    {
      if i < |blocks| {
        assert all[i] in all;
      }
    }
  }

  lemma {:induction false} SingletonClass(blocks: seq<BasicBlock>, i: nat)
    requires i < |blocks|
    ensures |Class(blocks, blocks[i].hash)| == 1 <==> UniqueHash(blocks, i)
  {
    hide Class;
    ClassMembers(blocks, blocks[i].hash);
    SingletonMeans(Class(blocks, blocks[i].hash), i);
  }

  ghost predicate KeysOf(keys: seq<ContextKey>, blocks: seq<BasicBlock>) {
    |keys| == |blocks| && forall i | 0 <= i < |blocks| :: keys[i] == Context(blocks, i)
  }

  lemma {:induction false} SingletonContext(blocks: seq<BasicBlock>, keys: seq<ContextKey>, i: nat)
    requires i < |blocks| && KeysOf(keys, blocks)
    requires Within(Class(blocks, blocks[i].hash), |blocks|)
    ensures |WithKey(keys, Class(blocks, blocks[i].hash), keys[i])| == 1 <==> UniqueContext(blocks, i)
    ensures i in WithKey(keys, Class(blocks, blocks[i].hash), keys[i])
  {
    hide Class, Context;
    ClassMembers(blocks, blocks[i].hash);
    WithKeyMembers(keys, Class(blocks, blocks[i].hash), keys[i]);
    WithKeyDistinct(keys, Class(blocks, blocks[i].hash), keys[i]);
    SingletonMeans(WithKey(keys, Class(blocks, blocks[i].hash), keys[i]), i);
  }

  /** Index pairs with pairwise distinct old indices. */
  ghost predicate DistinctOld(pairs: seq<(nat, nat)>) {
    forall k, l | 0 <= k < l < |pairs| :: pairs[k].0 != pairs[l].0
  }

  /** The groups of context key `c` on both sides consist of i and of j. */
  ghost predicate OnlyPair(
      oldKeys: seq<ContextKey>, newKeys: seq<ContextKey>, olds: seq<nat>, news: seq<nat>, c: ContextKey, i: nat, j: nat)
    requires Within(olds, |oldKeys|) && Within(news, |newKeys|)
  {
    WithKey(oldKeys, olds, c) == [i] && WithKey(newKeys, news, c) == [j]
  }

  /** Second stage for one hash: groups by context key, and groups of one are paired. */
  method MatchByContext(oldKeys: seq<ContextKey>, newKeys: seq<ContextKey>, olds: seq<nat>, news: seq<nat>)
    returns (pairs: seq<(nat, nat)>)
    requires Within(olds, |oldKeys|) && Within(news, |newKeys|)
    ensures DistinctOld(pairs)
    ensures forall i: nat, j: nat :: (i, j) in pairs <==>
              i < |oldKeys| && OnlyPair(oldKeys, newKeys, olds, news, oldKeys[i], i, j)
  {
    hide WithKey;
    var oldByContext := GroupBy(oldKeys, olds);
    var newByContext := GroupBy(newKeys, news);
    pairs := [];
    var todo := oldByContext.Keys;
    forall i: nat | i < |oldKeys| && oldKeys[i] !in todo
      ensures WithKey(oldKeys, olds, oldKeys[i]) == []
    {
    }
    while todo != {}
      invariant todo <= oldByContext.Keys && DistinctOld(pairs)
      invariant forall i: nat, j: nat :: (i, j) in pairs <==>
                  && i < |oldKeys| && oldKeys[i] !in todo
                  && OnlyPair(oldKeys, newKeys, olds, news, oldKeys[i], i, j)
    {
      var c :| c in todo;
      todo := todo - {c};
      WithKeyMembers(oldKeys, olds, c);
      if c in newByContext && |oldByContext[c]| == 1 && |newByContext[c]| == 1 {
        var p := (oldByContext[c][0], newByContext[c][0]);
        assert p.0 in WithKey(oldKeys, olds, c);
        pairs := pairs + [p];
      }
    }
  }

  lemma {:induction false} OnlyPairMeans(
      was: seq<BasicBlock>, now: seq<BasicBlock>, oldKeys: seq<ContextKey>, newKeys: seq<ContextKey>, h: u64, i: nat, j: nat)
    requires KeysOf(oldKeys, was) && KeysOf(newKeys, now) && i < |was|
    requires Within(Class(was, h), |was|) && Within(Class(now, h), |now|)
    ensures OnlyPair(oldKeys, newKeys, Class(was, h), Class(now, h), oldKeys[i], i, j)
       <==> && j < |now| && was[i].hash == h && now[j].hash == h
            && UniqueContext(was, i) && UniqueContext(now, j) && Context(was, i) == Context(now, j)
  {
    hide Class, Context, WithKey, UniqueContext;
    ClassMembers(was, h);
    ClassMembers(now, h);
    WithKeyMembers(oldKeys, Class(was, h), oldKeys[i]);
    WithKeyMembers(newKeys, Class(now, h), oldKeys[i]);
    if j < |now| && was[i].hash == h && now[j].hash == h {
      SingletonContext(was, oldKeys, i);
      SingletonContext(now, newKeys, j);
    }
    if OnlyPair(oldKeys, newKeys, Class(was, h), Class(now, h), oldKeys[i], i, j) {
      assert i in WithKey(oldKeys, Class(was, h), oldKeys[i]);
      assert j in WithKey(newKeys, Class(now, h), oldKeys[i]);
    }
  }

  /** `pairs` are the matched pairs whose hash is `h`. */
  ghost predicate ClassMatched(pairs: seq<(nat, nat)>, was: seq<BasicBlock>, now: seq<BasicBlock>, h: u64) {
    && DistinctOld(pairs)
    && forall i: nat, j: nat :: (i, j) in pairs <==> Matched(was, now, i, j) && was[i].hash == h
  }

  method MatchClass(
      was: seq<BasicBlock>, now: seq<BasicBlock>, oldKeys: seq<ContextKey>, newKeys: seq<ContextKey>,
      olds: seq<nat>, news: seq<nat>, ghost h: u64) returns (pairs: seq<(nat, nat)>)
    requires KeysOf(oldKeys, was) && KeysOf(newKeys, now)
    requires olds == Class(was, h) && news == Class(now, h)
    ensures ClassMatched(pairs, was, now, h)
  {
    hide Class, Context, UniqueContext, OnlyPair, WithKey, KeysOf;
    ClassMembers(was, h);
    ClassMembers(now, h);
    if |olds| == 1 && |news| == 1 {
      assert olds[0] in olds && news[0] in news;
      SingletonClass(was, olds[0]);
      SingletonClass(now, news[0]);
      return [(olds[0], news[0])];
    }
    KeysLength(oldKeys, was);
    KeysLength(newKeys, now);
    pairs := MatchByContext(oldKeys, newKeys, olds, news);
    forall i: nat, j: nat
      ensures (i, j) in pairs <==> Matched(was, now, i, j) && was[i].hash == h
    {
      if i < |was| {
        OnlyPairMeans(was, now, oldKeys, newKeys, h, i, j);
        SingletonClass(was, i);
        if j < |now| {
          SingletonClass(now, j);
        }
      }
    }
  }

  lemma KeysLength(keys: seq<ContextKey>, blocks: seq<BasicBlock>)
    requires KeysOf(keys, blocks)
    ensures |keys| == |blocks|
  {
  }

  /** Both stages over all hashes. */
  method MatchIndices(was: seq<BasicBlock>, now: seq<BasicBlock>) returns (pairs: seq<(nat, nat)>)
    ensures DistinctOld(pairs)
    ensures forall i: nat, j: nat :: (i, j) in pairs <==> Matched(was, now, i, j)
  {
    hide Context, WithKey, UniqueContext, UniqueHash;
    var oldKeys := ContextKeys(was);
    var newKeys := ContextKeys(now);
    var oldByHash := GroupBy(Hashes(was), seq(|was|, n requires 0 <= n < |was| => n));
    var newByHash := GroupBy(Hashes(now), seq(|now|, n requires 0 <= n < |now| => n));
    pairs := [];
    var todo := oldByHash.Keys;
    forall i: nat, j: nat
      ensures Matched(was, now, i, j) ==> was[i].hash in todo
    {
      if i < |was| {
        ClassMembers(was, was[i].hash);
      }
    }
    while todo != {}
      invariant todo <= oldByHash.Keys && DistinctOld(pairs)
      invariant forall i: nat, j: nat :: (i, j) in pairs <==> Matched(was, now, i, j) && was[i].hash !in todo
    {
      var h :| h in todo;
      todo := todo - {h};
      ClassMembers(now, h);
      if h in newByHash {
        var more := MatchClass(was, now, oldKeys, newKeys, oldByHash[h], newByHash[h], h);
        ghost var before := pairs;
        DistinctOldAppend(was, now, before, more, h);
        pairs := pairs + more;
      }
    }
  }

  lemma DistinctOldAppend(
      was: seq<BasicBlock>, now: seq<BasicBlock>, before: seq<(nat, nat)>, more: seq<(nat, nat)>, h: u64)
    requires DistinctOld(before) && ClassMatched(more, was, now, h)
    requires forall i: nat, j: nat | (i, j) in before :: i < |was| && was[i].hash != h
    ensures DistinctOld(before + more)
  {
    var all := before + more;
    forall k, l | 0 <= k < l < |all|
      ensures all[k].0 != all[l].0
    {
      if k < |before| <= l {
        assert (before[k].0, before[k].1) in before;
        assert (more[l - |before|].0, more[l - |before|].1) in more;
      }
    }
  }

  function MappingOf(ob: BasicBlock, nb: BasicBlock): BlockMapping {
    BlockMapping(ob.start, nb.start, Wrap64(ob.end - ob.start), Wrap64(nb.end - nb.start), ob.hash)
  }

  predicate Precedes(a: BlockMapping, b: BlockMapping) {
    if a.oldBlock != b.oldBlock then a.oldBlock < b.oldBlock else a.newBlock <= b.newBlock
  }

  ghost predicate InOrder(ms: seq<BlockMapping>) {
    forall k, l | 0 <= k < l < |ms| :: Precedes(ms[k], ms[l])
  }

  /** One step of the final sort. */
  method Insert(sorted: seq<BlockMapping>, m: BlockMapping) returns (r: seq<BlockMapping>)
    requires InOrder(sorted)
    ensures InOrder(r) && multiset(r) == multiset(sorted) + multiset{m}
  {
    var k := 0;
    while k < |sorted| && Precedes(sorted[k], m)
      invariant 0 <= k <= |sorted| && forall n | 0 <= n < k :: Precedes(sorted[n], m)
    {
      k := k + 1;
    }
    r := sorted[..k] + [m] + sorted[k..];
    assert sorted == sorted[..k] + sorted[k..];
    assert forall n | k <= n < |sorted| :: Precedes(m, sorted[n]);
  }

  /** The mappings of some index pairs. */
  ghost function Mappings(was: seq<BasicBlock>, now: seq<BasicBlock>, pairs: seq<(nat, nat)>): seq<BlockMapping>
    requires forall p | p in pairs :: p.0 < |was| && p.1 < |now|
  {
    seq(|pairs|, k requires 0 <= k < |pairs| => assert pairs[k] in pairs; MappingOf(was[pairs[k].0], now[pairs[k].1]))
  }

  /** The matcher's result is sorted and consists, with their multiplicities, of the mappings of
      exactly the matched index pairs, each pair once. */
  ghost predicate ResultOf(was: seq<BasicBlock>, now: seq<BasicBlock>, pairs: seq<(nat, nat)>, out: seq<BlockMapping>) {
    && DistinctOld(pairs)
    && (forall i: nat, j: nat :: (i, j) in pairs <==> Matched(was, now, i, j))
    && (forall p | p in pairs :: p.0 < |was| && p.1 < |now|)
    && InOrder(out) && multiset(out) == multiset(Mappings(was, now, pairs))
  }

  /** `matchBlocks` */
  method MatchBlocks(was: seq<BasicBlock>, now: seq<BasicBlock>) returns (out: seq<BlockMapping>, ghost pairs: seq<(nat, nat)>)
    ensures ResultOf(was, now, pairs, out)
    ensures forall m :: m in out <==> exists i: nat, j: nat :: Matched(was, now, i, j) && Maps(m, was[i], now[j])
  {
    hide Matched, Precedes, Maps;
    var found := MatchIndices(was, now);
    pairs := found;
    forall p | p in found
      ensures p.0 < |was| && p.1 < |now|
    {
      MatchedInRange(was, now, p.0, p.1);
    }
    out := [];
    for k := 0 to |found|
      invariant InOrder(out) && multiset(out) == multiset(Mappings(was, now, found)[..k])
    {
      assert found[k] in found;
      ghost var all := Mappings(was, now, found);
      assert all[..k + 1] == all[..k] + [all[k]];
      out := Insert(out, MappingOf(was[found[k].0], now[found[k].1]));
    }
    assert Mappings(was, now, found)[..|found|] == Mappings(was, now, found);
    ResultMeans(was, now, pairs, out);
  }

  /** The mapping of two blocks: both starts, both sizes and their hash. */
  ghost predicate Maps(m: BlockMapping, ob: BasicBlock, nb: BasicBlock) {
    && m.oldBlock == ob.start && m.newBlock == nb.start && m.hash == ob.hash
    && m.oldSize == (ob.end - ob.start) % 0x1_0000_0000_0000_0000
    && m.newSize == (nb.end - nb.start) % 0x1_0000_0000_0000_0000
  }

  lemma {:induction false} MappingMeans(was: seq<BasicBlock>, now: seq<BasicBlock>, pairs: seq<(nat, nat)>, m: BlockMapping)
    requires forall i: nat, j: nat :: (i, j) in pairs <==> Matched(was, now, i, j)
    requires forall p | p in pairs :: p.0 < |was| && p.1 < |now|
    ensures m in Mappings(was, now, pairs)
       <==> exists i: nat, j: nat :: Matched(was, now, i, j) && Maps(m, was[i], now[j])
  {
    hide Matched;
    var all := Mappings(was, now, pairs);
    if m in all {
      var k: nat :| k < |all| && all[k] == m;
      assert (pairs[k].0, pairs[k].1) in pairs;
      assert Maps(m, was[pairs[k].0], now[pairs[k].1]);
    }
    if i: nat, j: nat :| (i, j) in pairs && Maps(m, was[i], now[j]) {
      var k: nat :| k < |pairs| && pairs[k] == (i, j);
      assert all[k] == m;
    }
  }

  /** So the result has a mapping for every matched pair of blocks and no other, and is sorted by old
      and then by new start. */
  lemma {:induction false} ResultMeans(
      was: seq<BasicBlock>, now: seq<BasicBlock>, pairs: seq<(nat, nat)>, out: seq<BlockMapping>)
    requires ResultOf(was, now, pairs, out)
    ensures |out| == |pairs|
    ensures forall m :: m in out <==> exists i: nat, j: nat :: Matched(was, now, i, j) && Maps(m, was[i], now[j])
    ensures forall k, l | 0 <= k < l < |out| ::
              out[k].oldBlock < out[l].oldBlock
              || (out[k].oldBlock == out[l].oldBlock && out[k].newBlock <= out[l].newBlock)
  {
    hide Matched, Maps;
    var all := Mappings(was, now, pairs);
    assert |multiset(out)| == |multiset(all)|;
    forall m
      ensures m in out <==> exists i: nat, j: nat :: Matched(was, now, i, j) && Maps(m, was[i], now[j])
    {
      assert m in out <==> m in multiset(all);
      MappingMeans(was, now, pairs, m);
    }
  }

  lemma MatchedInRange(was: seq<BasicBlock>, now: seq<BasicBlock>, i: nat, j: nat)
    ensures Matched(was, now, i, j) ==> i < |was| && j < |now|
  {
  }

  // --------------------------------------------------- each block only once

  ghost predicate DistinctBy<T(!new)>(s: seq<T>, key: T -> u64) {
    forall k, l | 0 <= k < l < |s| :: key(s[k]) != key(s[l])
  }

  function Without<T>(s: seq<T>, k: nat): seq<T>
    requires k < |s|
  {
    s[..k] + s[k + 1..]
  }

  lemma WithoutCounts<T>(s: seq<T>, k: nat)
    requires k < |s|
    ensures multiset(Without(s, k)) == multiset(s) - multiset{s[k]}
  {
    assert s == s[..k] + [s[k]] + s[k + 1..];
  }

  lemma WithAgain<T>(s: seq<T>, k: nat)
    requires k < |s|
    ensures multiset(s) == multiset(Without(s, k)) + multiset{s[k]}
  {
    assert s == s[..k] + [s[k]] + s[k + 1..];
  }

  /** Two places of one list have two places with the same elements in any permutation of it. */
  lemma {:induction false} TwoPlaces<T>(a: seq<T>, b: seq<T>, k: nat, l: nat) returns (p: nat, q: nat)
    requires multiset(a) == multiset(b) && k < l < |a|
    ensures p < |b| && q < |b| && p != q && b[p] == a[k] && b[q] == a[l]
  {
    assert a[k] in multiset(b);
    p :| p < |b| && b[p] == a[k];
    WithoutCounts(a, k);
    WithoutCounts(b, p);
    assert a[l] == Without(a, k)[l - 1];
    assert a[l] in multiset(Without(a, k));
    assert a[l] in multiset(Without(b, p));
    var r: nat :| r < |Without(b, p)| && Without(b, p)[r] == a[l];
    q := if r < p then r else r + 1;
  }

  lemma {:induction false} PermutationKeepsDistinct<T(!new)>(a: seq<T>, b: seq<T>, key: T -> u64)
    requires multiset(a) == multiset(b) && DistinctBy(b, key)
    ensures DistinctBy(a, key)
  {
    forall k: nat, l: nat | k < l < |a|
      ensures key(a[k]) != key(a[l])
    {
      var p, q := TwoPlaces(a, b, k, l);
      assert key(b[p]) != key(b[q]) by {
        if q < p {
          assert key(b[q]) != key(b[p]);
        }
      }
    }
  }

  ghost predicate DistinctStarts(blocks: seq<BasicBlock>) {
    forall i, j | 0 <= i < j < |blocks| :: blocks[i].start != blocks[j].start
  }

  /** With distinct block starts, no old and no new block occurs twice in the result. */
  lemma {:induction false} EachBlockOnce(
      was: seq<BasicBlock>, now: seq<BasicBlock>, pairs: seq<(nat, nat)>, out: seq<BlockMapping>)
    requires DistinctStarts(was) && DistinctStarts(now) && ResultOf(was, now, pairs, out)
    ensures DistinctBy(out, (m: BlockMapping) => m.oldBlock) && DistinctBy(out, (m: BlockMapping) => m.newBlock)
  {
    hide Matched;
    var all := Mappings(was, now, pairs);
    forall k, l | 0 <= k < l < |all|
      ensures all[k].oldBlock != all[l].oldBlock && all[k].newBlock != all[l].newBlock
    {
      assert (pairs[k].0, pairs[k].1) in pairs && (pairs[l].0, pairs[l].1) in pairs;
      MatchingIsBijection(was, now, pairs[k].0, pairs[k].1, pairs[l].0, pairs[l].1);
    }
    PermutationKeepsDistinct(out, all, (m: BlockMapping) => m.oldBlock);
    PermutationKeepsDistinct(out, all, (m: BlockMapping) => m.newBlock);
  }

  // ------------------------------------------------------- swapping the graphs

  function MapAll<T, U>(f: T -> U, s: seq<T>): (r: seq<U>)
    ensures |r| == |s|
  {
    seq(|s|, k requires 0 <= k < |s| => f(s[k]))
  }

  lemma {:induction false} MapKeepsPermutation<T, U>(f: T -> U, a: seq<T>, b: seq<T>)
    requires multiset(a) == multiset(b)
    ensures multiset(MapAll(f, a)) == multiset(MapAll(f, b))
    decreases |a|
  {
    if a == [] {
      assert |multiset(b)| == 0;
    } else {
      assert a[0] in multiset(b);
      var p: nat :| p < |b| && b[p] == a[0];
      WithoutCounts(a, 0);
      WithoutCounts(b, p);
      MapKeepsPermutation(f, Without(a, 0), Without(b, p));
      assert MapAll(f, Without(a, 0)) == Without(MapAll(f, a), 0);
      assert MapAll(f, Without(b, p)) == Without(MapAll(f, b), p);
      WithAgain(MapAll(f, a), 0);
      WithAgain(MapAll(f, b), p);
      assert MapAll(f, a)[0] == MapAll(f, b)[p];
    }
  }

  ghost predicate NoTwice<T(!new)>(s: seq<T>) {
    forall k, l | 0 <= k < l < |s| :: s[k] != s[l]
  }

  lemma {:induction false} SameMembersPermute<T(!new)>(a: seq<T>, b: seq<T>)
    requires NoTwice(a) && NoTwice(b) && forall x: T :: x in a <==> x in b
    ensures multiset(a) == multiset(b)
    decreases |a|
  {
    hide Without, NoTwice;
    if a != [] {
      assert a[0] in b;
      var p: nat :| p < |b| && b[p] == a[0];
      var c, d := Without(a, 0), Without(b, p);
      forall x: T
        ensures x in c <==> x in d
      {
        MembersWithout(a, 0, x);
        MembersWithout(b, p, x);
      }
      NoTwiceWithout(a, 0);
      NoTwiceWithout(b, p);
      SameMembersPermute(c, d);
      WithAgain(a, 0);
      WithAgain(b, p);
    } else {
      forall x: T
        ensures x !in multiset(b)
      {
        assert x in b <==> x in a;
      }
    }
  }

  lemma NoTwiceWithout<T(!new)>(s: seq<T>, p: nat)
    requires NoTwice(s) && p < |s|
    ensures NoTwice(Without(s, p)) && |Without(s, p)| == |s| - 1
  {
    var c := Without(s, p);
    forall k, l | 0 <= k < l < |c|
      ensures c[k] != c[l]
    {
      assert c[k] == s[if k < p then k else k + 1] && c[l] == s[if l < p then l else l + 1];
    }
  }

  lemma MembersWithout<T(!new)>(s: seq<T>, p: nat, x: T)
    requires NoTwice(s) && p < |s|
    ensures x in Without(s, p) <==> x in s && x != s[p]
  {
    if x in s && x != s[p] {
      var k: nat :| k < |s| && s[k] == x;
      assert if k < p then Without(s, p)[k] == x else Without(s, p)[k - 1] == x;
    }
  }

  function Swap(m: BlockMapping): BlockMapping {
    BlockMapping(m.newBlock, m.oldBlock, m.newSize, m.oldSize, m.hash)
  }

  function SwapPair(p: (nat, nat)): (nat, nat) {
    (p.1, p.0)
  }

  /** The mapping of an index pair, as a function. */
  ghost function Mapper(was: seq<BasicBlock>, now: seq<BasicBlock>): ((nat, nat)) -> BlockMapping {
    (p: (nat, nat)) => if p.0 < |was| && p.1 < |now| then MappingOf(was[p.0], now[p.1]) else BlockMapping(0, 0, 0, 0, 0)
  }

  lemma SwappedPairs(was: seq<BasicBlock>, now: seq<BasicBlock>, pairs: seq<(nat, nat)>, pairs': seq<(nat, nat)>)
    requires DistinctOld(pairs) && DistinctOld(pairs')
    requires forall i: nat, j: nat :: (i, j) in pairs <==> Matched(was, now, i, j)
    requires forall i: nat, j: nat :: (i, j) in pairs' <==> Matched(now, was, i, j)
    ensures multiset(MapAll(SwapPair, pairs)) == multiset(pairs')
  {
    hide Matched;
    var swapped := MapAll(SwapPair, pairs);
    forall p: (nat, nat)
      ensures p in swapped <==> p in pairs'
    {
      MatchingIsSymmetric(was, now, p.1, p.0);
      if p in swapped {
        var k: nat :| k < |swapped| && swapped[k] == p;
        assert SwapPair(pairs[k]) == p && pairs[k] in pairs;
        assert pairs[k] == (p.1, p.0);
      }
      if p in pairs' {
        assert (p.0, p.1) in pairs';
        assert (p.1, p.0) in pairs;
        var k: nat :| k < |pairs| && pairs[k] == (p.1, p.0);
        assert swapped[k] == SwapPair(pairs[k]) == (p.0, p.1);
      }
    }
    forall k, l | 0 <= k < l < |swapped|
      ensures swapped[k] != swapped[l]
    {
      assert pairs[k].0 != pairs[l].0;
      assert swapped[k] == SwapPair(pairs[k]) && swapped[l] == SwapPair(pairs[l]);
    }
    SameMembersPermute(swapped, pairs');
  }

  lemma MappingsAreMapped(was: seq<BasicBlock>, now: seq<BasicBlock>, pairs: seq<(nat, nat)>)
    requires forall p | p in pairs :: p.0 < |was| && p.1 < |now|
    ensures Mappings(was, now, pairs) == MapAll(Mapper(was, now), pairs)
  {
    hide MappingOf;
    assert forall k | 0 <= k < |pairs| :: pairs[k] in pairs;
  }

  lemma PairSwaps(was: seq<BasicBlock>, now: seq<BasicBlock>, p: (nat, nat))
    requires Matched(was, now, p.0, p.1)
    ensures Swap(Mapper(was, now)(p)) == Mapper(now, was)(SwapPair(p))
  {
    hide UniqueHash, UniqueContext;
  }

  lemma MappedPairsSwap(was: seq<BasicBlock>, now: seq<BasicBlock>, pairs: seq<(nat, nat)>)
    requires forall i: nat, j: nat :: (i, j) in pairs <==> Matched(was, now, i, j)
    ensures MapAll(Swap, MapAll(Mapper(was, now), pairs)) == MapAll(Mapper(now, was), MapAll(SwapPair, pairs))
  {
    hide Matched, Mapper, Swap, SwapPair;
    var l, r := MapAll(Swap, MapAll(Mapper(was, now), pairs)), MapAll(Mapper(now, was), MapAll(SwapPair, pairs));
    forall k | 0 <= k < |pairs|
      ensures l[k] == r[k]
    {
      var p := pairs[k];
      assert p in pairs && (p.0, p.1) == p;
      PairSwaps(was, now, p);
    }
  }

  /** Matching the other way round gives the same mappings with old and new exchanged. */
  lemma SwappedResults(
      was: seq<BasicBlock>, now: seq<BasicBlock>, pairs: seq<(nat, nat)>, out: seq<BlockMapping>,
      pairs': seq<(nat, nat)>, out': seq<BlockMapping>)
    requires ResultOf(was, now, pairs, out) && ResultOf(now, was, pairs', out')
    ensures multiset(out') == multiset(MapAll(Swap, out))
  {
    hide Matched, DistinctOld, InOrder, MappingOf, Mappings, MapAll, Mapper;
    SwappedPairs(was, now, pairs, pairs');
    MappingsAreMapped(was, now, pairs);
    MappingsAreMapped(now, was, pairs');
    MapKeepsPermutation(Mapper(now, was), MapAll(SwapPair, pairs), pairs');
    MapKeepsPermutation(Swap, out, Mappings(was, now, pairs));
    MappedPairsSwap(was, now, pairs);
  }

  /** A mapping is in the result exactly if it is that of a matched pair. */
  lemma ResultMembers(was: seq<BasicBlock>, now: seq<BasicBlock>, pairs: seq<(nat, nat)>, out: seq<BlockMapping>, m: BlockMapping)
    requires ResultOf(was, now, pairs, out)
    ensures m in out <==> exists p :: p in pairs && m == Mapper(was, now)(p)
  {
    hide Matched, DistinctOld, InOrder, MappingOf;
    var all := Mappings(was, now, pairs);
    assert m in out <==> m in multiset(all);
    if m in all {
      var k: nat :| k < |all| && all[k] == m;
      assert pairs[k] in pairs;
    }
    if p :| p in pairs && m == Mapper(was, now)(p) {
      var k: nat :| k < |pairs| && pairs[k] == p;
      assert all[k] == m;
    }
  }

  // ------------------------------------------------ matching a moved function

  /** `moved` are the same blocks `delta` further on. */
  ghost predicate Moved(blocks: seq<BasicBlock>, moved: seq<BasicBlock>, delta: int) {
    && |moved| == |blocks|
    && forall i | 0 <= i < |blocks| ::
         moved[i] == ShiftBlock(blocks[i], delta) && SizeOf(moved[i]) == SizeOf(blocks[i])
  }

  lemma ShiftIsInjective(a: u64, b: u64, delta: int)
    ensures Wrap64(a + delta) == Wrap64(b + delta) <==> a == b
  {
    WrapSum(a + delta, -delta);
    WrapSum(b + delta, -delta);
    InRange(a);
    InRange(b);
  }

  lemma {:induction false} HashByStartMoves(blocks: seq<BasicBlock>, moved: seq<BasicBlock>, delta: int, s: u64)
    requires Moved(blocks, moved, delta)
    ensures var from, to, s' := HashByStart(blocks), HashByStart(moved), Wrap64(s + delta);
            (s in from <==> s' in to) && (s in from ==> to[s'] == from[s])
    decreases |blocks|
  {
    hide Wrap64;
    if blocks != [] {
      var n := |blocks| - 1;
      HashByStartMoves(blocks[..n], moved[..n], delta, s);
      ShiftIsInjective(s, blocks[n].start, delta);
    }
  }

  lemma {:induction false} EdgesToMove(from: seq<u64>, to: seq<u64>, delta: int, s: u64, hash: u64)
    requires |to| == |from| && forall k | 0 <= k < |from| :: to[k] == Wrap64(from[k] + delta)
    ensures EdgesTo(to, Wrap64(s + delta), hash) == EdgesTo(from, s, hash)
    decreases |from|
  {
    hide Wrap64;
    if from != [] {
      var n := |from| - 1;
      EdgesToMove(from[..n], to[..n], delta, s, hash);
      ShiftIsInjective(from[n], s, delta);
    }
  }

  lemma {:induction false} PredecessorHashesMove(blocks: seq<BasicBlock>, moved: seq<BasicBlock>, delta: int, s: u64)
    requires Moved(blocks, moved, delta)
    ensures PredecessorHashes(moved, Wrap64(s + delta)) == PredecessorHashes(blocks, s)
    decreases |blocks|
  {
    hide Wrap64, EdgesTo;
    if blocks != [] {
      var n := |blocks| - 1;
      PredecessorHashesMove(blocks[..n], moved[..n], delta, s);
      EdgesToMove(blocks[n].successors, moved[n].successors, delta, s, blocks[n].hash);
    }
  }

  lemma {:induction false} SuccessorHashesMove(
      from: seq<u64>, to: seq<u64>, blocks: seq<BasicBlock>, moved: seq<BasicBlock>, delta: int)
    requires Moved(blocks, moved, delta)
    requires |to| == |from| && forall k | 0 <= k < |from| :: to[k] == Wrap64(from[k] + delta)
    ensures SuccessorHashes(to, HashByStart(moved)) == SuccessorHashes(from, HashByStart(blocks))
    decreases |from|
  {
    hide Wrap64, HashByStart;
    if from != [] {
      var n := |from| - 1;
      SuccessorHashesMove(from[..n], to[..n], blocks, moved, delta);
      HashByStartMoves(blocks, moved, delta, from[n]);
    }
  }

  lemma {:induction false} ContextMoves(blocks: seq<BasicBlock>, moved: seq<BasicBlock>, delta: int, i: nat)
    requires Moved(blocks, moved, delta) && i < |blocks|
    ensures Context(moved, i) == Context(blocks, i)
  {
    hide HashByStart, PredecessorHashes, SuccessorHashes;
    PredecessorHashesMove(blocks, moved, delta, blocks[i].start);
    SuccessorHashesMove(blocks[i].successors, moved[i].successors, blocks, moved, delta);
  }

  /** Matching a graph against itself moved by `delta` pairs every block only with its own copy,
      and pairs exactly the blocks that are unique by hash or by context. */
  lemma {:induction false} MovedGraphMatchesItself(blocks: seq<BasicBlock>, moved: seq<BasicBlock>, delta: int, i: nat, j: nat)
    requires Moved(blocks, moved, delta)
    ensures Matched(blocks, moved, i, j) <==> i == j && (UniqueHash(blocks, i) || UniqueContext(blocks, i))
  {
    hide Context, ShiftBlock;
    forall k | 0 <= k < |blocks|
      ensures Context(moved, k) == Context(blocks, k) && moved[k].hash == blocks[k].hash
    {
      ContextMoves(blocks, moved, delta, k);
      ShiftKeepsHash(blocks[k], delta);
    }
  }

  lemma ShiftKeepsHash(b: BasicBlock, delta: int)
    ensures ShiftBlock(b, delta).hash == b.hash
  {
  }

  lemma ShiftedExtent(b: BasicBlock, delta: int)
    requires 0 <= b.start + delta < TWO_64 && 0 <= b.end + delta < TWO_64
    ensures SizeOf(ShiftBlock(b, delta)) == SizeOf(b) && ShiftBlock(b, delta).start == b.start + delta
  {
  }

  lemma {:induction false} ReconstructionMoves(
      bytes: seq<u8>, start: u64, size: nat, options: BlockOptions, options': BlockOptions, hash: ByteHash, delta: int)
    requires size <= |bytes| && start + size < TWO_64
    requires 0 <= start + delta && start + delta + size < TWO_64
    requires options' == options.(relocations := options'.relocations)
    requires RangesShifted(options.relocations, options'.relocations, delta)
    ensures var blocks := BlocksOf(bytes, start, size, options, hash);
            var moved := BlocksOf(bytes, start + delta, size, options', hash);
            && Moved(blocks, moved, delta)
            && forall k | 0 <= k < |blocks| :: moved[k].start == blocks[k].start + delta
  {
    hide BlocksOf, ShiftBlock, SizeOf, RangesShifted;
    var blocks := BlocksOf(bytes, start, size, options, hash);
    ReconstructionIsTranslationInvariant(bytes, start, size, options, options', hash, delta);
    BlocksPartitionFunction(bytes, start, size, options, hash);
    BlocksPartitionFunction(bytes, start + delta, size, options', hash);
    forall k | 0 <= k < |blocks|
      ensures SizeOf(ShiftBlock(blocks[k], delta)) == SizeOf(blocks[k])
           && ShiftBlock(blocks[k], delta).start == blocks[k].start + delta
    {
      ShiftedExtent(blocks[k], delta);
    }
  }

  /** In particular for a function reconstructed at two load addresses. */
  lemma RelocatedFunctionMatchesItself(
      bytes: seq<u8>, start: u64, size: nat, options: BlockOptions, options': BlockOptions, hash: ByteHash, delta: int,
      i: nat, j: nat)
    requires size <= |bytes| && start + size < TWO_64
    requires 0 <= start + delta && start + delta + size < TWO_64
    requires options' == options.(relocations := options'.relocations)
    requires RangesShifted(options.relocations, options'.relocations, delta)
    ensures var blocks := BlocksOf(bytes, start, size, options, hash);
            var moved := BlocksOf(bytes, start + delta, size, options', hash);
            && (Matched(blocks, moved, i, j) <==> i == j && (UniqueHash(blocks, i) || UniqueContext(blocks, i)))
            && (Matched(blocks, moved, i, j) ==> moved[j].start == blocks[i].start + delta)
  {
    hide BlocksOf, Matched, UniqueHash, UniqueContext, RangesShifted, Moved;
    var blocks := BlocksOf(bytes, start, size, options, hash);
    var moved := BlocksOf(bytes, start + delta, size, options', hash);
    ReconstructionMoves(bytes, start, size, options, options', hash, delta);
    MovedGraphMatchesItself(blocks, moved, delta, i, j);
    MatchedInRange(blocks, moved, i, j);
  }

  lemma MovedMapping(b: BasicBlock, delta: int)
    requires 0 <= b.start + delta < TWO_64 && 0 <= b.end + delta < TWO_64
    ensures var m := MappingOf(b, ShiftBlock(b, delta));
            m.oldBlock == b.start && m.newBlock == b.start + delta && m.oldSize == m.newSize
  {
  }

  /** The same for the matcher's output: all mappings lead the distance further on, to blocks of the
      same size, and the old blocks mapped are exactly those unique by hash or by context. */
  lemma RelocatedResult(
      bytes: seq<u8>, start: u64, size: nat, options: BlockOptions, options': BlockOptions, hash: ByteHash, delta: int,
      pairs: seq<(nat, nat)>, out: seq<BlockMapping>)
    requires size <= |bytes| && start + size < TWO_64
    requires 0 <= start + delta && start + delta + size < TWO_64
    requires options' == options.(relocations := options'.relocations)
    requires RangesShifted(options.relocations, options'.relocations, delta)
    requires ResultOf(BlocksOf(bytes, start, size, options, hash), BlocksOf(bytes, start + delta, size, options', hash), pairs, out)
    ensures forall m | m in out :: m.newBlock == m.oldBlock + delta && m.newSize == m.oldSize
    ensures var blocks := BlocksOf(bytes, start, size, options, hash);
            forall i: nat | i < |blocks| ::
              (exists m :: m in out && m.oldBlock == blocks[i].start) <==> UniqueHash(blocks, i) || UniqueContext(blocks, i)
  {
    hide BlocksOf, Matched, UniqueHash, UniqueContext, RangesShifted, ShiftBlock, MappingOf, InOrder, DistinctOld, SizeOf;
    var blocks := BlocksOf(bytes, start, size, options, hash);
    var moved := BlocksOf(bytes, start + delta, size, options', hash);
    ReconstructionMoves(bytes, start, size, options, options', hash, delta);
    BlocksPartitionFunction(bytes, start, size, options, hash);
    forall i: nat | i < |blocks|
      ensures var m := Mapper(blocks, moved)((i, i));
              m.oldBlock == blocks[i].start && m.newBlock == blocks[i].start + delta && m.oldSize == m.newSize
    {
      MovedMapping(blocks[i], delta);
    }
    forall m | m in out
      ensures m.newBlock == m.oldBlock + delta && m.newSize == m.oldSize
    {
      var i := RelocatedFrom(bytes, start, size, options, options', hash, delta, pairs, out, m);
    }
    forall i: nat | i < |blocks|
      ensures (exists m :: m in out && m.oldBlock == blocks[i].start) <==> UniqueHash(blocks, i) || UniqueContext(blocks, i)
    {
      RelocatedFunctionMatchesItself(bytes, start, size, options, options', hash, delta, i, i);
      if UniqueHash(blocks, i) || UniqueContext(blocks, i) {
        assert (i, i) in pairs;
        ResultMembers(blocks, moved, pairs, out, Mapper(blocks, moved)((i, i)));
      }
      if m :| m in out && m.oldBlock == blocks[i].start {
        var k := RelocatedFrom(bytes, start, size, options, options', hash, delta, pairs, out, m);
        assert blocks[k].start == blocks[i].start;
        assert k == i;
      }
    }
  }

  lemma RelocatedFrom(
      bytes: seq<u8>, start: u64, size: nat, options: BlockOptions, options': BlockOptions, hash: ByteHash, delta: int,
      pairs: seq<(nat, nat)>, out: seq<BlockMapping>, m: BlockMapping) returns (i: nat)
    requires size <= |bytes| && start + size < TWO_64
    requires 0 <= start + delta && start + delta + size < TWO_64
    requires options' == options.(relocations := options'.relocations)
    requires RangesShifted(options.relocations, options'.relocations, delta)
    requires ResultOf(BlocksOf(bytes, start, size, options, hash), BlocksOf(bytes, start + delta, size, options', hash), pairs, out)
    requires m in out
    ensures var blocks := BlocksOf(bytes, start, size, options, hash);
            && i < |blocks| && m == Mapper(blocks, BlocksOf(bytes, start + delta, size, options', hash))((i, i))
            && Matched(blocks, BlocksOf(bytes, start + delta, size, options', hash), i, i)
  {
    hide BlocksOf, Matched, UniqueHash, UniqueContext, RangesShifted, Mapper, InOrder, DistinctOld, Mappings;
    var blocks := BlocksOf(bytes, start, size, options, hash);
    var moved := BlocksOf(bytes, start + delta, size, options', hash);
    ResultMembers(blocks, moved, pairs, out, m);
    var p :| p in pairs && m == Mapper(blocks, moved)(p);
    assert (p.0, p.1) in pairs;
    RelocatedFunctionMatchesItself(bytes, start, size, options, options', hash, delta, p.0, p.1);
    i := p.0;
  }
}
