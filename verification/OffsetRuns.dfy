/** Loops that move an offset through a stream until it is at or behind the end. The next offset
    depends on the offset alone. */
module OffsetRuns {

  /** The offset after k rounds; a finished loop stays where it is. */
  ghost function OffsetAfter(next: nat -> nat, end: nat, off: nat, k: nat): nat
    decreases k
  {
    if k == 0 || off >= end then off else OffsetAfter(next, end, next(off), k - 1)
  }

  ghost predicate Ends(next: nat -> nat, end: nat, off: nat) {
    exists k :: OffsetAfter(next, end, off, k) >= end
  }

  /** No offset inside the stream is met in two different rounds. */
  ghost predicate NoOffsetTwice(next: nat -> nat, end: nat, off: nat) {
    forall i: nat, j: nat ::
      i < j && OffsetAfter(next, end, off, j) < end ==> OffsetAfter(next, end, off, i) != OffsetAfter(next, end, off, j)
  }

  lemma {:induction false} AfterSum(next: nat -> nat, end: nat, off: nat, i: nat, j: nat)
    ensures OffsetAfter(next, end, off, i + j) == OffsetAfter(next, end, OffsetAfter(next, end, off, i), j)
    decreases i
  {
    if i > 0 && off < end {
      AfterSum(next, end, next(off), i - 1, j);
    } else if off >= end {
      assert OffsetAfter(next, end, off, i + j) == off == OffsetAfter(next, end, off, j);
    }
  }

  /** A loop that comes back to an offset would end earlier and earlier. */
  lemma {:induction false} RepeatNeverEnds(next: nat -> nat, end: nat, off: nat, i: nat, j: nat, k: nat)
    requires i < j && OffsetAfter(next, end, off, i) == OffsetAfter(next, end, off, j) < end
    ensures OffsetAfter(next, end, off, k) < end
    decreases k
  {
    if k < j {
      AfterSum(next, end, off, k, j - k);
    } else {
      AfterSum(next, end, off, i, k - j);
      AfterSum(next, end, off, j, k - j);
      RepeatNeverEnds(next, end, off, i, j, i + (k - j));
    }
  }

  /** The offsets of the first k rounds. */
  ghost function Met(next: nat -> nat, end: nat, off: nat, k: nat): set<nat> {
    if k == 0 then {} else Met(next, end, off, k - 1) + {OffsetAfter(next, end, off, k - 1)}
  }

  lemma {:induction false} MetInRound(next: nat -> nat, end: nat, off: nat, k: nat, x: nat) returns (i: nat)
    requires x in Met(next, end, off, k)
    ensures i < k && OffsetAfter(next, end, off, i) == x
  {
    hide OffsetAfter;
    if x == OffsetAfter(next, end, off, k - 1) {
      i := k - 1;
    } else {
      i := MetInRound(next, end, off, k - 1, x);
    }
  }

  lemma {:induction false} MetCount(next: nat -> nat, end: nat, off: nat, k: nat)
    requires NoOffsetTwice(next, end, off) && forall i: nat :: i < k ==> OffsetAfter(next, end, off, i) < end
    ensures |Met(next, end, off, k)| == k
  {
    hide OffsetAfter;
    if k > 0 {
      MetCount(next, end, off, k - 1);
      var x := OffsetAfter(next, end, off, k - 1);
      if x in Met(next, end, off, k - 1) {
        var i := MetInRound(next, end, off, k - 1, x);
        assert false;
      }
    }
  }

  lemma {:induction false} SmallSet(s: set<nat>, end: nat)
    requires forall x :: x in s ==> x < end
    ensures |s| <= end
    decreases end
  {
    if end == 0 {
      assert s == {};
    } else {
      SmallSet(s - {end - 1}, end - 1);
    }
  }

  /** The loop ends exactly when it meets no offset twice, and then within as many rounds as the
      stream has offsets. */
  lemma EndsExactly(next: nat -> nat, end: nat, off: nat)
    ensures Ends(next, end, off) <==> NoOffsetTwice(next, end, off)
    ensures Ends(next, end, off) <==> OffsetAfter(next, end, off, end) >= end
  {
    if Ends(next, end, off) {
      var k :| OffsetAfter(next, end, off, k) >= end;
      forall i: nat, j: nat | i < j && OffsetAfter(next, end, off, j) < end
        ensures OffsetAfter(next, end, off, i) != OffsetAfter(next, end, off, j)
      {
        if OffsetAfter(next, end, off, i) == OffsetAfter(next, end, off, j) {
          RepeatNeverEnds(next, end, off, i, j, k);
        }
      }
    }
    if NoOffsetTwice(next, end, off) && OffsetAfter(next, end, off, end) < end {
      forall i: nat | i < end + 1
        ensures OffsetAfter(next, end, off, i) < end
      {
        AfterSum(next, end, off, i, end - i);
      }
      var rounds := end + 1;
      var met := Met(next, end, off, rounds);
      MetCount(next, end, off, rounds);
      forall x | x in met
        ensures x < end
      {
        var i := MetInRound(next, end, off, rounds, x);
      }
      SmallSet(met, end);
    }
  }

  /** A loop that moves on in every round it gets to ends. */
  lemma {:induction false} AdvancingEnds(next: nat -> nat, end: nat, off: nat)
    requires forall k: nat :: OffsetAfter(next, end, off, k) < end ==> OffsetAfter(next, end, off, k) < next(OffsetAfter(next, end, off, k))
    ensures Ends(next, end, off)
  {
    Progress(next, end, off, end);
    assert OffsetAfter(next, end, off, end) >= end;
  }

  lemma {:induction false} Progress(next: nat -> nat, end: nat, off: nat, k: nat)
    requires forall i: nat :: OffsetAfter(next, end, off, i) < end ==> OffsetAfter(next, end, off, i) < next(OffsetAfter(next, end, off, i))
    ensures OffsetAfter(next, end, off, k) >= end || OffsetAfter(next, end, off, k) >= k
  {
    if k > 0 {
      Progress(next, end, off, k - 1);
      AfterSum(next, end, off, k - 1, 1);
      var x := OffsetAfter(next, end, off, k - 1);
      assert OffsetAfter(next, end, x, 1) == if x >= end then x else OffsetAfter(next, end, next(x), 0);
    }
  }
}
