/** Least and greatest elements of sets of words: walking a std::set in its order. */
module OrderedSets {
  import opened Words

  ghost predicate StrictOrder<K(!new)>(less: (K, K) -> bool) {
    && (forall a, b :: less(a, b) ==> a != b && !less(b, a))
    && (forall a, b :: a != b ==> less(a, b) || less(b, a))
    && forall a, b, c :: less(a, b) && less(b, c) ==> less(a, c)
  }

  ghost predicate IsLeast<K(!new)>(less: (K, K) -> bool, s: set<K>, m: K) {
    m in s && forall x | x in s :: x == m || less(m, x)
  }

  lemma {:induction false} LeastExists<K(!new)>(less: (K, K) -> bool, s: set<K>)
    requires StrictOrder(less) && s != {}
    ensures exists m :: IsLeast(less, s, m)
  {
    var x: K :| x in s;
    var rest := s - {x};
    if rest == {} {
      assert s == {x};
      assert IsLeast(less, s, x);
    } else {
      LeastExists(less, rest);
      var y: K :| IsLeast(less, rest, y);
      assert forall z | z in s :: z == x || z in rest;
      assert IsLeast(less, s, if less(x, y) then x else y);
    }
  }

  function LeastBy<K(==, !new)>(less: (K, K) -> bool, s: set<K>): (m: K)
    requires StrictOrder(less) && s != {}
    ensures IsLeast(less, s, m)
  {
    LeastExists(less, s);
    var m :| m in s && forall x | x in s :: x == m || less(m, x);
    m
  }

  predicate Smaller(a: u64, b: u64) {
    a < b
  }

  function Least(s: set<u64>): (m: u64)
    requires s != {}
    ensures m in s && forall x | x in s :: m <= x
  {
    LeastBy(Smaller, s)
  }

  /** The greatest element not above a bound. */
  lemma GreatestBelow(s: set<u64>, w: u64, bound: u64) returns (m: u64)
    requires w in s && w <= bound
    ensures m in s && m <= bound && forall x | x in s && x <= bound :: x <= m
  {
    var gaps: set<u64> := set x | x in s && x <= bound :: bound - x;
    assert bound - w in gaps;
    m := bound - Least(gaps);
    forall x | x in s && x <= bound
      ensures x <= m
    {
      assert bound - x in gaps;
    }
  }
}
