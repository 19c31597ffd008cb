/** The queues from which src/dwarf_compare.cpp pairs the frame descriptions of two binaries, and
    what every pairing has to satisfy. */
module FdeQueues {
  import opened Words

  /** Indices of a left and a right frame description. */
  type Pair = (nat, nat)

  /** No frame description is used twice. */
  ghost predicate UsedOnce(pairs: seq<Pair>, lhs: nat, rhs: nat) {
    && (forall p | p in pairs :: p.0 < lhs && p.1 < rhs)
    && forall a, b :: 0 <= a < b < |pairs| ==> pairs[a].0 != pairs[b].0 && pairs[a].1 != pairs[b].1
  }

  /** Every frame description is in a pair or counted as lacking its counterpart. */
  predicate Conserved(pairs: seq<Pair>, missingRhs: nat, missingLhs: nat, lhs: nat, rhs: nat) {
    |pairs| + missingRhs == lhs && |pairs| + missingLhs == rhs
  }

  predicate Has<K(==)>(keys: seq<Option<K>>, j: nat, k: K) {
    j < |keys| && keys[j] == Some(k)
  }

  /** The indices below n at which a key stands. */
  function Positions<K(==)>(keys: seq<Option<K>>, n: nat, k: K): seq<nat>
    requires n <= |keys|
  {
    if n == 0 then [] else Positions(keys, n - 1, k) + if Has(keys, n - 1, k) then [n - 1] else []
  }

  predicate Ascending(s: seq<nat>) {
    forall a, b :: 0 <= a < b < |s| ==> s[a] < s[b]
  }

  lemma {:induction false} PositionsMeans<K>(keys: seq<Option<K>>, n: nat, k: K)
    requires n <= |keys|
    ensures forall j: nat :: j in Positions(keys, n, k) <==> j < n && Has(keys, j, k)
    ensures Ascending(Positions(keys, n, k))
  {
    if n > 0 {
      PositionsMeans(keys, n - 1, k);
      var before := Positions(keys, n - 1, k);
      assert forall a | 0 <= a < |before| :: before[a] in before;
    }
  }

  type Queues<K> = map<K, seq<nat>>

  function Queue<K(==)>(queues: Queues<K>, k: K): seq<nat> {
    if k in queues then queues[k] else []
  }

  ghost predicate QueuesOf<K(!new)>(queues: Queues<K>, keys: seq<Option<K>>, n: nat)
    requires n <= |keys|
  {
    forall k: K :: Queue(queues, k) == Positions(keys, n, k) && (k in queues <==> Positions(keys, n, k) != [])
  }

  /** Sorting the indices into queues by key; indices without a key are skipped. */
  method BuildQueues<K(==, !new)>(keys: seq<Option<K>>) returns (queues: Queues<K>)
    ensures QueuesOf(queues, keys, |keys|)
  {
    hide Positions;
    queues := map[];
    NoPositions(keys);
    for i := 0 to |keys|
      invariant QueuesOf(queues, keys, i)
    {
      NextPosition(keys, i);
      if keys[i].Some? {
        queues := queues[keys[i].value := Queue(queues, keys[i].value) + [i]];
      }
    }
  }

  lemma NoPositions<K(!new)>(keys: seq<Option<K>>)
    ensures forall k: K :: Positions(keys, 0, k) == []
  {
  }

  lemma NextPosition<K(!new)>(keys: seq<Option<K>>, i: nat)
    requires i < |keys|
    ensures forall k: K :: Positions(keys, i + 1, k)
                        == if keys[i] == Some(k) then Positions(keys, i, k) + [i] else Positions(keys, i, k)
  {
  }

  /** `takeFirstUnused`, as a function of the whole list. */
  function FirstUnused(list: seq<nat>, used: set<nat>): (r: Option<nat>)
    ensures r.Some? ==> r.value in list && r.value !in used
    ensures r.None? ==> forall j | j in list :: j in used
  {
    if list == [] then None else if list[0] !in used then Some(list[0]) else FirstUnused(list[1..], used)
  }

  /** What is left of a queue: everything popped from it is used. */
  ghost predicate Remains(queue: seq<nat>, list: seq<nat>, used: set<nat>) {
    |queue| <= |list| && queue == list[|list| - |queue|..]
    && forall a | 0 <= a < |list| - |queue| :: list[a] in used
  }

  lemma {:induction false} RemainsFirst(queue: seq<nat>, list: seq<nat>, used: set<nat>)
    requires Remains(queue, list, used)
    ensures FirstUnused(queue, used) == FirstUnused(list, used)
    decreases |list|
  {
    if |queue| < |list| {
      assert list[0] in used;
      assert queue == list[1..][|list| - 1 - |queue|..];
      RemainsFirst(queue, list[1..], used);
    } else {
      assert queue == list;
    }
  }

  /** `takeFirstUnused`: pops until it finds an unused index. */
  method TakeFirstUnused(queue: seq<nat>, flags: seq<bool>, ghost list: seq<nat>, ghost used: set<nat>)
    returns (rest: seq<nat>, taken: Option<nat>)
    requires Remains(queue, list, used)
    requires forall j | j in list :: j < |flags| && (flags[j] <==> j in used)
    ensures taken == FirstUnused(list, used)
    ensures Remains(rest, list, if taken.Some? then used + {taken.value} else used)
  {
    rest := queue;
    while rest != []
      invariant Remains(rest, list, used)
    {
      var index := rest[0];
      assert index == list[|list| - |rest|];
      RemainsFirst(rest, list, used);
      rest := rest[1..];
      if !flags[index] {
        return rest, Some(index);
      }
    }
    RemainsFirst(rest, list, used);
    return rest, None;
  }

  /** Pairing by position: the mode "index". */
  method PairByIndex(lhs: nat, rhs: nat) returns (pairs: seq<Pair>, missingRhs: nat, missingLhs: nat)
    ensures UsedOnce(pairs, lhs, rhs) && Conserved(pairs, missingRhs, missingLhs, lhs, rhs)
    ensures forall i :: 0 <= i < |pairs| ==> pairs[i] == (i, i)
    ensures missingRhs == 0 || missingLhs == 0
  {
    var n := if lhs < rhs then lhs else rhs;
    missingRhs, missingLhs := 0, 0;
    if lhs > rhs {
      missingRhs := lhs - rhs;
    } else if rhs > lhs {
      missingLhs := rhs - lhs;
    }
    pairs := [];
    for i := 0 to n
      invariant |pairs| == i && forall k :: 0 <= k < i ==> pairs[k] == (k, k)
    {
      pairs := pairs + [(i, i)];
    }
  }
}
