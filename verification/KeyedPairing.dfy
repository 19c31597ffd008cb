/** Pairing frame descriptions that have the same key: the modes "start-pc" and "range" of
    src/dwarf_compare.cpp. Keys are visited in ascending order; within a key the queues are
    emptied front against front. */
module KeyedPairing {
  import opened Words
  import opened FdeQueues
  import opened OrderedSets

  /** The key of the mode "range"; the mode "start-pc" leaves the range at 0. */
  datatype Key = Key(start: u64, range: u64)

  type Keys = seq<Option<Key>>

  predicate Before(a: Key, b: Key) {
    a.start < b.start || (a.start == b.start && a.range < b.range)
  }

  function Least(keys: set<Key>): (k: Key)
    requires keys != {}
    ensures IsLeast(Before, keys, k)
  {
    LeastBy(Before, keys)
  }

  // ----------------------------------------------------------- specification

  /** The places of a key. */
  function Places(keys: Keys, k: Key): seq<nat> {
    Positions(keys, |keys|, k)
  }

  /** Front against front, until one queue is empty. */
  function Zip(l: seq<nat>, r: seq<nat>): (z: seq<Pair>)
    ensures |z| == Min(|l|, |r|)
    ensures forall a :: 0 <= a < |z| ==> z[a] == (l[a], r[a])
  {
    if l == [] || r == [] then [] else [(l[0], r[0])] + Zip(l[1..], r[1..])
  }

  function KeyedPairs(lhs: Keys, rhs: Keys, keys: set<Key>): seq<Pair>
    decreases |keys|
  {
    if keys == {} then []
    else
      var k := Least(keys);
      Zip(Places(lhs, k), Places(rhs, k)) + KeyedPairs(lhs, rhs, keys - {k})
  }

  /** How many indices have one of the keys, below n. */
  function Total(s: Keys, n: nat, keys: set<Key>): nat
    requires n <= |s|
    decreases |keys|
  {
    if keys == {} then 0
    else
      var k := Least(keys);
      |Positions(s, n, k)| + Total(s, n, keys - {k})
  }

  lemma {:induction false} TotalStep(s: Keys, n: nat, keys: set<Key>)
    requires n < |s| && s[n].Some?
    ensures Total(s, n + 1, keys) == Total(s, n, keys) + if s[n].value in keys then 1 else 0
    decreases |keys|
  {
    hide Least;
    if keys != {} {
      TotalStep(s, n, keys - {Least(keys)});
    }
  }

  lemma {:induction false} TotalAll(s: Keys, n: nat, keys: set<Key>)
    requires n <= |s|
    requires forall i :: 0 <= i < n ==> s[i].Some? && s[i].value in keys
    ensures Total(s, n, keys) == n
  {
    if n == 0 {
      TotalNone(s, keys);
    } else {
      TotalAll(s, n - 1, keys);
      TotalStep(s, n - 1, keys);
    }
  }

  lemma {:induction false} TotalNone(s: Keys, keys: set<Key>)
    ensures Total(s, 0, keys) == 0
    decreases |keys|
  {
    if keys != {} {
      TotalNone(s, keys - {Least(keys)});
    }
  }

  // ---------------------------------------------------------- implementation

  ghost predicate Complete(s: Keys) {
    forall i :: 0 <= i < |s| ==> s[i].Some?
  }

  /** The keys that occur. */
  function KeySet(s: Keys): set<Key> {
    set i: nat | i < |s| && s[i].Some? :: s[i].value
  }

  /** The pairs of a keyed mode. */
  function Pairs(lhs: Keys, rhs: Keys): seq<Pair> {
    KeyedPairs(lhs, rhs, KeySet(lhs) + KeySet(rhs))
  }

  lemma KeyOccurs(s: Keys)
    ensures forall k: Key :: k in KeySet(s) <==> Places(s, k) != []
  {
    hide Positions;
    forall k: Key
      ensures k in KeySet(s) <==> Places(s, k) != []
    {
      PositionsMeans(s, |s|, k);
      if k in KeySet(s) {
        var i: nat :| i < |s| && s[i] == Some(k);
        assert Has(s, i, k);
      }
      if Places(s, k) != [] {
        assert Places(s, k)[0] in Places(s, k);
        assert Has(s, Places(s, k)[0], k);
      }
    }
  }

  /** One key: pops both queues until one is empty. */
  method PopPairs(l: seq<nat>, r: seq<nat>, pairs: seq<Pair>)
    returns (after: seq<Pair>, restL: seq<nat>, restR: seq<nat>)
    ensures after == pairs + Zip(l, r)
    ensures |restL| == |l| - |Zip(l, r)| && |restR| == |r| - |Zip(l, r)|
  {
    hide Zip;
    after, restL, restR := pairs, l, r;
    var n := Min(|l|, |r|);
    for i := 0 to n
      invariant |restL| == |l| - i && |restR| == |r| - i
      invariant after + Zip(restL, restR) == pairs + Zip(l, r)
    {
      ZipStep(restL, restR);
      after := after + [(restL[0], restR[0])];
      restL, restR := restL[1..], restR[1..];
    }
    ZipEnd(restL, restR);
  }

  /** The two keyed modes. */
  method PairByKey(lhs: Keys, rhs: Keys) returns (pairs: seq<Pair>, missingRhs: nat, missingLhs: nat)
    requires Complete(lhs) && Complete(rhs)
    ensures pairs == Pairs(lhs, rhs)
    ensures Conserved(pairs, missingRhs, missingLhs, |lhs|, |rhs|)
  {
    hide Positions, Least, KeyedPairs, Total, Zip, KeySet;
    var lhsQueues := BuildQueues(lhs);
    var rhsQueues := BuildQueues(rhs);
    var keys := lhsQueues.Keys + rhsQueues.Keys;
    KeyOccurs(lhs);
    KeyOccurs(rhs);
    assert keys == KeySet(lhs) + KeySet(rhs);
    EveryKeyIn(lhs, keys);
    EveryKeyIn(rhs, keys);
    pairs, missingRhs, missingLhs := [], 0, 0;
    while keys != {}
      invariant pairs + KeyedPairs(lhs, rhs, keys) == Pairs(lhs, rhs)
      invariant |pairs| + missingRhs + Total(lhs, |lhs|, keys) == |lhs|
      invariant |pairs| + missingLhs + Total(rhs, |rhs|, keys) == |rhs|
      decreases keys
    {
      var k := Least(keys);
      KeyStep(lhs, rhs, keys, k);
      ghost var before, zip := pairs, Zip(Places(lhs, k), Places(rhs, k));
      var l, r;
      pairs, l, r := PopPairs(Queue(lhsQueues, k), Queue(rhsQueues, k), pairs);
      assert pairs + KeyedPairs(lhs, rhs, keys - {k}) == before + (zip + KeyedPairs(lhs, rhs, keys - {k}));
      missingRhs := missingRhs + |l|;
      missingLhs := missingLhs + |r|;
      keys := keys - {k};
    }
    NoKeys(lhs, rhs);
  }

  lemma EveryKeyIn(s: Keys, keys: set<Key>)
    requires Complete(s) && forall k: Key :: Places(s, k) != [] ==> k in keys
    ensures Total(s, |s|, keys) == |s|
  {
    forall i: nat | i < |s|
      ensures s[i].value in keys
    {
      PositionsMeans(s, |s|, s[i].value);
      assert Has(s, i, s[i].value);
    }
    TotalAll(s, |s|, keys);
  }

  lemma KeyStep(lhs: Keys, rhs: Keys, keys: set<Key>, k: Key)
    requires keys != {} && k == Least(keys)
    ensures k in keys
    ensures KeyedPairs(lhs, rhs, keys) == Zip(Places(lhs, k), Places(rhs, k)) + KeyedPairs(lhs, rhs, keys - {k})
    ensures Total(lhs, |lhs|, keys) == |Places(lhs, k)| + Total(lhs, |lhs|, keys - {k})
    ensures Total(rhs, |rhs|, keys) == |Places(rhs, k)| + Total(rhs, |rhs|, keys - {k})
  {
  }

  lemma NoKeys(lhs: Keys, rhs: Keys)
    ensures KeyedPairs(lhs, rhs, {}) == [] && Total(lhs, |lhs|, {}) == Total(rhs, |rhs|, {}) == 0
  {
  }

  lemma ZipStep(l: seq<nat>, r: seq<nat>)
    requires l != [] && r != []
    ensures Zip(l, r) == [(l[0], r[0])] + Zip(l[1..], r[1..])
  {
  }

  lemma ZipEnd(l: seq<nat>, r: seq<nat>)
    requires l == [] || r == []
    ensures Zip(l, r) == []
  {
  }

  // -------------------------------------------------------------- properties

  /** The turn of index i among the places of its key. */
  function Turn(s: Keys, i: nat, k: Key): nat
    requires i <= |s|
  {
    |Positions(s, i, k)|
  }

  lemma {:induction false} TurnIsPlace(s: Keys, n: nat, i: nat, k: Key)
    requires n <= |s| && i < n && Has(s, i, k)
    ensures Turn(s, i, k) < |Positions(s, n, k)| && Positions(s, n, k)[Turn(s, i, k)] == i
  {
    if i < n - 1 {
      TurnIsPlace(s, n - 1, i, k);
    }
  }

  lemma {:induction false} PlaceIsTurn(s: Keys, n: nat, t: nat, k: Key)
    requires n <= |s| && t < |Positions(s, n, k)|
    ensures var i := Positions(s, n, k)[t]; i < n && Has(s, i, k) && Turn(s, i, k) == t
  {
    if t < |Positions(s, n - 1, k)| {
      PlaceIsTurn(s, n - 1, t, k);
    }
  }

  /** Both indices have the same key, and the same number of indices with that key before them. */
  ghost predicate SameTurn(lhs: Keys, rhs: Keys, p: Pair) {
    && p.0 < |lhs| && p.1 < |rhs| && lhs[p.0].Some? && lhs[p.0] == rhs[p.1]
    && Turn(lhs, p.0, lhs[p.0].value) == Turn(rhs, p.1, lhs[p.0].value)
  }

  lemma ZipMeans(lhs: Keys, rhs: Keys, k: Key, p: Pair)
    ensures p in Zip(Places(lhs, k), Places(rhs, k)) <==> SameTurn(lhs, rhs, p) && lhs[p.0] == Some(k)
  {
    var l, r := Places(lhs, k), Places(rhs, k);
    var z := Zip(l, r);
    hide Positions, Zip;
    if p in z {
      var t: nat :| t < |z| && z[t] == p;
      PlaceIsTurn(lhs, |lhs|, t, k);
      PlaceIsTurn(rhs, |rhs|, t, k);
    }
    if SameTurn(lhs, rhs, p) && lhs[p.0] == Some(k) {
      TurnIsPlace(lhs, |lhs|, p.0, k);
      TurnIsPlace(rhs, |rhs|, p.1, k);
      assert z[Turn(lhs, p.0, k)] == p;
    }
  }

  lemma {:induction false} PairsMean(lhs: Keys, rhs: Keys, keys: set<Key>, p: Pair)
    ensures p in KeyedPairs(lhs, rhs, keys) <==> SameTurn(lhs, rhs, p) && lhs[p.0].value in keys
    decreases |keys|
  {
    hide SameTurn, Least, Zip, Places;
    if keys != {} {
      var k := Least(keys);
      ZipMeans(lhs, rhs, k, p);
      PairsMean(lhs, rhs, keys - {k}, p);
      SameTurnHasKey(lhs, rhs, p);
    }
  }

  lemma SameTurnHasKey(lhs: Keys, rhs: Keys, p: Pair)
    ensures SameTurn(lhs, rhs, p) ==> p.0 < |lhs| && lhs[p.0].Some?
  {
  }

  /** The n-th description with a key on one side goes with the n-th on the other, and there are
      no other pairs. */
  lemma PairsAreTurns(lhs: Keys, rhs: Keys, p: Pair)
    ensures p in Pairs(lhs, rhs) <==> SameTurn(lhs, rhs, p)
  {
    hide KeyedPairs;
    PairsMean(lhs, rhs, KeySet(lhs) + KeySet(rhs), p);
  }

  /** One pair stands before another: the smaller key first, then in the order of both sides. */
  ghost predicate InOrder(lhs: Keys, p: Pair, q: Pair) {
    && p.0 < |lhs| && q.0 < |lhs| && lhs[p.0].Some? && lhs[q.0].Some?
    && (Before(lhs[p.0].value, lhs[q.0].value) || (lhs[p.0] == lhs[q.0] && p.0 < q.0 && p.1 < q.1))
  }

  ghost predicate Ordered(lhs: Keys, pairs: seq<Pair>) {
    forall a, b :: 0 <= a < b < |pairs| ==> InOrder(lhs, pairs[a], pairs[b])
  }

  lemma {:induction false} PairsOrdered(lhs: Keys, rhs: Keys, keys: set<Key>)
    ensures Ordered(lhs, KeyedPairs(lhs, rhs, keys))
    decreases |keys|
  {
    hide Least, Zip, Places, SameTurn;
    if keys != {} {
      var k := Least(keys);
      var z, rest := Zip(Places(lhs, k), Places(rhs, k)), KeyedPairs(lhs, rhs, keys - {k});
      PairsOrdered(lhs, rhs, keys - {k});
      ZipOrdered(lhs, rhs, k);
      forall p, q | p in z && q in rest
        ensures InOrder(lhs, p, q)
      {
        ZipMeans(lhs, rhs, k, p);
        PairsMean(lhs, rhs, keys - {k}, q);
        SameTurnHasKey(lhs, rhs, p);
        SameTurnHasKey(lhs, rhs, q);
      }
      forall a, b | 0 <= a < b < |z + rest|
        ensures InOrder(lhs, (z + rest)[a], (z + rest)[b])
      {
      }
    }
  }

  lemma ZipOrdered(lhs: Keys, rhs: Keys, k: Key)
    ensures Ordered(lhs, Zip(Places(lhs, k), Places(rhs, k)))
  {
    hide Zip, Positions;
    PositionsMeans(lhs, |lhs|, k);
    PositionsMeans(rhs, |rhs|, k);
    var z := Zip(Places(lhs, k), Places(rhs, k));
    forall a: nat | a < |z|
      ensures Has(lhs, z[a].0, k)
    {
      assert z[a].0 in Places(lhs, k);
    }
  }

  /** No description is used twice. */
  lemma PairsUsedOnce(lhs: Keys, rhs: Keys)
    ensures UsedOnce(Pairs(lhs, rhs), |lhs|, |rhs|)
  {
    hide KeyedPairs, KeySet, Turn;
    var pairs := Pairs(lhs, rhs);
    PairsOrdered(lhs, rhs, KeySet(lhs) + KeySet(rhs));
    forall p | p in pairs
      ensures SameTurn(lhs, rhs, p)
    {
      PairsAreTurns(lhs, rhs, p);
    }
    forall a, b | 0 <= a < b < |pairs|
      ensures pairs[a].0 != pairs[b].0 && pairs[a].1 != pairs[b].1
    {
      assert InOrder(lhs, pairs[a], pairs[b]);
      assert SameTurn(lhs, rhs, pairs[a]) && SameTurn(lhs, rhs, pairs[b]);
    }
  }

  // ------------------------------------------------------------- most pairs

  ghost predicate SameKeys(lhs: Keys, rhs: Keys, pairs: seq<Pair>) {
    forall p | p in pairs :: p.0 < |lhs| && p.1 < |rhs| && lhs[p.0].Some? && lhs[p.0] == rhs[p.1]
  }

  /** A pair of ours in the place of one of theirs: with the same description on the side that has
      fewer of the key. */
  ghost function Substitute(lhs: Keys, rhs: Keys, p: Pair): (q: Pair)
    requires p.0 < |lhs| && p.1 < |rhs| && lhs[p.0].Some? && lhs[p.0] == rhs[p.1]
    ensures var k := lhs[p.0].value;
            && SameTurn(lhs, rhs, q) && lhs[q.0] == lhs[p.0]
            && (if |Places(lhs, k)| <= |Places(rhs, k)| then q.0 == p.0 else q.1 == p.1)
  {
    var k := lhs[p.0].value;
    TurnIsPlace(lhs, |lhs|, p.0, k);
    TurnIsPlace(rhs, |rhs|, p.1, k);
    if |Places(lhs, k)| <= |Places(rhs, k)| then
      PlaceIsTurn(rhs, |rhs|, Turn(lhs, p.0, k), k);
      (p.0, Places(rhs, k)[Turn(lhs, p.0, k)])
    else
      PlaceIsTurn(lhs, |lhs|, Turn(rhs, p.1, k), k);
      (Places(lhs, k)[Turn(rhs, p.1, k)], p.1)
  }

  lemma {:induction false} DistinctFit(a: seq<Pair>, b: seq<Pair>)
    requires forall x | x in a :: x in b
    requires forall i, j :: 0 <= i < j < |a| ==> a[i] != a[j]
    ensures |a| <= |b|
  {
    if a != [] {
      var n := |a| - 1;
      assert a[n] in a;
      var i: nat :| i < |b| && b[i] == a[n];
      var rest := b[..i] + b[i + 1..];
      forall x | x in a[..n]
        ensures x in rest
      {
        assert x in a;
        var j: nat :| j < |b| && b[j] == x;
        assert x != a[n];
        assert if j < i then rest[j] == x else rest[j - 1] == x;
      }
      DistinctFit(a[..n], rest);
    }
  }

  /** No pairing of descriptions with equal keys, each used at most once, has more pairs. */
  lemma PairsAreMost(lhs: Keys, rhs: Keys, theirs: seq<Pair>)
    requires SameKeys(lhs, rhs, theirs) && UsedOnce(theirs, |lhs|, |rhs|)
    ensures |theirs| <= |Pairs(lhs, rhs)|
  {
    hide Pairs, SameTurn, Substitute, Places;
    var image := seq(|theirs|, i requires 0 <= i < |theirs| => Substitute(lhs, rhs, theirs[i]));
    forall q | q in image
      ensures q in Pairs(lhs, rhs)
    {
      PairsAreTurns(lhs, rhs, q);
    }
    forall i, j | 0 <= i < j < |image|
      ensures image[i] != image[j]
    {
      assert theirs[i] in theirs && theirs[j] in theirs;
    }
    DistinctFit(image, Pairs(lhs, rhs));
  }
}
