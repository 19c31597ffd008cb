/** `compareFDEByIndex` of src/cfi_symbolic.cpp: finitely many points are compared, a whole range
    is claimed. */
module IntervalCompare {
  import opened Words
  import opened OrderedSets
  import opened CfiModel
  import opened CfiInterpreter
  import opened CutPoints
  import opened UnwindTable
  import opened Unwinding
  import opened UnwindCompare

  datatype IntervalResult = IntervalResult(verdict: Verdict, pointsChecked: nat, mismatch: Option<u64>)

  /** `compareParsersAtPC` at the program counters `d` behind the two FDE starts. */
  ghost function PointVerdict(lhs: CfiSection, lf: Fde, rhs: CfiSection, rf: Fde, d: u64, options: Options): Verdict {
    StateVerdict(UnwindInfoAt(lhs, Wrap64(lf.initialLocation + d)),
                 UnwindInfoAt(rhs, Wrap64(rf.initialLocation + d)), options)
  }

  /** The comparison loop over `points` in ascending order, after `checked` points. */
  ghost function Scan(
      lhs: CfiSection, lf: Fde, rhs: CfiSection, rf: Fde, points: set<u64>, checked: nat, options: Options): IntervalResult
    decreases |points|
  {
    if points == {} then IntervalResult(Equivalent, checked, None)
    else
      var d := Least(points);
      var v := PointVerdict(lhs, lf, rhs, rf, d, options);
      if v != Equivalent then IntervalResult(v, checked + 1, Some(d))
      else Scan(lhs, lf, rhs, rf, points - {d}, checked + 1, options)
  }

  function CommonRange(lf: Fde, rf: Fde): u64 {
    Min(lf.addressRange, rf.addressRange)
  }

  ghost function PointsToCheck(lf: Fde, rf: Fde): set<u64>
    requires CommonRange(lf, rf) > 0
  {
    var common := CommonRange(lf, rf);
    (set d | d in CutPointsOf(lf) + CutPointsOf(rf) && d < common) + {0, common - 1}
  }

  /** No early exit: cut points are collected from the two FDEs compared. */
  ghost predicate Collects(lhs: CfiSection, i: nat, rhs: CfiSection, j: nat, options: Options) {
    && i < |lhs.fdes| && j < |rhs.fdes|
    && lhs.fdes[i].cie.Some? && rhs.fdes[j].cie.Some?
    && (options.requireSameRange ==> lhs.fdes[i].addressRange == rhs.fdes[j].addressRange)
    && CommonRange(lhs.fdes[i], rhs.fdes[j]) > 0
  }

  /** Early exits, then the scan. */
  ghost function Comparison(lhs: CfiSection, i: nat, rhs: CfiSection, j: nat, options: Options): IntervalResult {
    if i >= |lhs.fdes| || j >= |rhs.fdes| then IntervalResult(Unknown, 0, None)
    else
      var lf, rf := lhs.fdes[i], rhs.fdes[j];
      if lf.cie == None || rf.cie == None then IntervalResult(Unknown, 0, None)
      else if options.requireSameRange && lf.addressRange != rf.addressRange then IntervalResult(Different, 0, None)
      else if CommonRange(lf, rf) == 0 then IntervalResult(Equivalent, 0, None)
      else Scan(lhs, lf, rhs, rf, PointsToCheck(lf, rf), 0, options)
  }

  method ScanPoints(lhs: CfiSection, lf: Fde, rhs: CfiSection, rf: Fde, cutpoints: set<u64>, options: Options)
    returns (out: IntervalResult)
    ensures out == Scan(lhs, lf, rhs, rf, cutpoints, 0, options)
  {
    hide UnwindInfoAt, StateVerdict;
    var points, checked := cutpoints, 0;
    while points != {}
      invariant Scan(lhs, lf, rhs, rf, points, checked, options) == Scan(lhs, lf, rhs, rf, cutpoints, 0, options)
      decreases |points|
    {
      var d := Least(points);
      points := points - {d};
      var l := GetUnwindInfo(lhs, Wrap64(lf.initialLocation + d));
      var r := GetUnwindInfo(rhs, Wrap64(rf.initialLocation + d));
      var v := CompareUnwindInfo(l, r, options);
      checked := checked + 1;
      if v != Equivalent {
        return IntervalResult(v, checked, Some(d));
      }
    }
    return IntervalResult(Equivalent, checked, None);
  }

  method CompareFdeByIndex(lhs: CfiSection, i: nat, rhs: CfiSection, j: nat, options: Options)
    returns (out: IntervalResult)
    requires Collects(lhs, i, rhs, j, options) ==> Collectable(lhs.fdes[i]) && Collectable(rhs.fdes[j])
    ensures out == Comparison(lhs, i, rhs, j, options)
  {
    hide Scan, CutPointsOf, Collectable;
    if i >= |lhs.fdes| || j >= |rhs.fdes| {
      return IntervalResult(Unknown, 0, None);
    }
    var lf, rf := lhs.fdes[i], rhs.fdes[j];
    if lf.cie == None || rf.cie == None {
      return IntervalResult(Unknown, 0, None);
    }
    if options.requireSameRange && lf.addressRange != rf.addressRange {
      return IntervalResult(Different, 0, None);
    }
    var common := CommonRange(lf, rf);
    if common == 0 {
      return IntervalResult(Equivalent, 0, None);
    }
    var ofLhs := CollectRelativeCutPoints(lf);
    var ofRhs := CollectRelativeCutPoints(rf);
    var cutpoints: set<u64> := set d | d in ofLhs + ofRhs && d < common;
    assert cutpoints + {0, common - 1} == PointsToCheck(lf, rf);
    out := ScanPoints(lhs, lf, rhs, rf, cutpoints + {0, common - 1}, options);
  }

  // -------------------------------------------------- from points to the range

  /** No earlier FDE of the section contains an address of this one; `findFDE` takes the first. */
  ghost predicate Unshadowed(section: CfiSection, i: nat)
    requires i < |section.fdes|
  {
    forall k, pc: u64 | 0 <= k < i && Contains(section.fdes[k], pc) :: !Contains(section.fdes[i], pc)
  }

  ghost predicate ComparableFde(section: CfiSection, i: nat) {
    && i < |section.fdes|
    && section.fdes[i].cie.Some?
    && Checkable(section.fdes[i], section.littleEndian)
    && Unshadowed(section, i)
  }

  lemma {:induction false} InfoInsideFde(section: CfiSection, i: nat, d: u64)
    requires ComparableFde(section, i) && d < section.fdes[i].addressRange
    ensures var fde := section.fdes[i];
            && fde.initialLocation + d < TWO_64
            && UnwindInfoAt(section, fde.initialLocation + d)
            == InfoOf(RowFor(fde, fde.cie.value, section.littleEndian, fde.initialLocation + d),
                      fde.cie.value, fde.initialLocation + d)
  {
    hide RowFor, Checkable;
    CheckableFacts(section.fdes[i], section.littleEndian);
    var pc := section.fdes[i].initialLocation + d;
    forall k | 0 <= k < i
      ensures !Contains(section.fdes[k], pc)
    {
      assert Contains(section.fdes[i], pc);
    }
    FoundAt(section, i, section.fdes[i].initialLocation + d, 0);
  }

  lemma CheckableFacts(fde: Fde, littleEndian: bool)
    requires Checkable(fde, littleEndian)
    ensures Collectable(fde) && EndOf(fde) == fde.initialLocation + fde.addressRange
  {
  }

  /** Between two cut points the row does not change. */
  lemma {:induction false} RowConstantBetweenCutPoints(fde: Fde, littleEndian: bool, p: u64, q: u64)
    requires Checkable(fde, littleEndian) && fde.cie.Some? && p <= q < fde.addressRange
    requires forall d | d in CutPointsOf(fde) :: !(p < d <= q)
    ensures RowFor(fde, fde.cie.value, littleEndian, fde.initialLocation + p)
         == RowFor(fde, fde.cie.value, littleEndian, fde.initialLocation + q)
  {
    hide RowTable, CutPointsOf, BestRow;
    var table := RowTable(fde, fde.cie.value, littleEndian);
    TableRowsAreCutPoints(fde, littleEndian);
    forall row | row in table
      ensures !(fde.initialLocation + p < row.location <= fde.initialLocation + q)
    {
      assert row.location - fde.initialLocation in CutPointsOf(fde);
    }
    SameRowBetweenLocations(table, fde.initialLocation + p, fde.initialLocation + q, table[0]);
  }

  /** The program counter stored in a state takes no part in the comparison. */
  lemma {:induction false} VerdictIgnoresPc(l: UnwindInfo, r: UnwindInfo, lpc: u64, rpc: u64, options: Options)
    ensures StateVerdict(l.(pc := lpc), r.(pc := rpc), options) == StateVerdict(l, r, options)
  {
    var l', r' := l.(pc := lpc), r.(pc := rpc);
    var regs := l.registers.Keys + r.registers.Keys;
    RegistersIgnorePc(l, r, lpc, rpc, regs, options);
  }

  lemma {:induction false} RegistersIgnorePc(l: UnwindInfo, r: UnwindInfo, lpc: u64, rpc: u64, regs: set<u64>, options: Options)
    ensures RegistersVerdict(l.(pc := lpc), r.(pc := rpc), regs, options) == RegistersVerdict(l, r, regs, options)
    decreases |regs|
  {
    hide RuleVerdict;
    if regs != {} {
      RegistersIgnorePc(l, r, lpc, rpc, regs - {Least(regs)}, options);
    }
  }

  lemma {:induction false} NoCutPointBetween(lf: Fde, rf: Fde, c: u64, d: u64)
    requires c <= d < CommonRange(lf, rf)
    requires forall x | x in PointsToCheck(lf, rf) && x <= d :: x <= c
    ensures forall p | p in CutPointsOf(lf) :: !(c < p <= d)
    ensures forall p | p in CutPointsOf(rf) :: !(c < p <= d)
  {
    hide CutPointsOf;
    forall p | p in CutPointsOf(lf) || p in CutPointsOf(rf)
      ensures !(c < p <= d)
    {
      if p <= d {
        assert p in PointsToCheck(lf, rf);
      }
    }
  }

  lemma {:induction false} InfoConstantBetweenCutPoints(section: CfiSection, i: nat, c: u64, d: u64)
    requires ComparableFde(section, i) && c <= d < section.fdes[i].addressRange
    requires forall p | p in CutPointsOf(section.fdes[i]) :: !(c < p <= d)
    ensures var start := section.fdes[i].initialLocation;
            && start + d < TWO_64 && Wrap64(start + c) == start + c && Wrap64(start + d) == start + d
            && UnwindInfoAt(section, start + d) == UnwindInfoAt(section, start + c).(pc := start + d)
  {
    hide CutPointsOf, UnwindInfoAt, RowFor, Checkable, Unshadowed;
    RowConstantBetweenCutPoints(section.fdes[i], section.littleEndian, c, d);
    InfoInsideFde(section, i, c);
    InfoInsideFde(section, i, d);
  }

  /** Every relative program counter gets the verdict of some point that is checked and not
      above it. */
  lemma {:induction false} VerdictOfCheckedPoint(
      lhs: CfiSection, i: nat, rhs: CfiSection, j: nat, d: u64, options: Options) returns (c: u64)
    requires ComparableFde(lhs, i) && ComparableFde(rhs, j)
    requires d < CommonRange(lhs.fdes[i], rhs.fdes[j])
    ensures c in PointsToCheck(lhs.fdes[i], rhs.fdes[j]) && c <= d
    ensures PointVerdict(lhs, lhs.fdes[i], rhs, rhs.fdes[j], d, options)
         == PointVerdict(lhs, lhs.fdes[i], rhs, rhs.fdes[j], c, options)
  {
    hide CutPointsOf, StateVerdict, UnwindInfoAt, Checkable, Unshadowed, Collectable, Wrap64;
    var lf, rf := lhs.fdes[i], rhs.fdes[j];
    CheckableFacts(lf, lhs.littleEndian);
    CheckableFacts(rf, rhs.littleEndian);
    var points := PointsToCheck(lf, rf);
    c := GreatestBelow(points, 0, d);
    NoCutPointBetween(lf, rf, c, d);
    InfoConstantBetweenCutPoints(lhs, i, c, d);
    InfoConstantBetweenCutPoints(rhs, j, c, d);
    VerdictIgnoresPc(UnwindInfoAt(lhs, lf.initialLocation + c), UnwindInfoAt(rhs, rf.initialLocation + c),
                     lf.initialLocation + d, rf.initialLocation + d, options);
  }

  lemma {:induction false} ScanMeans(
      lhs: CfiSection, lf: Fde, rhs: CfiSection, rf: Fde, points: set<u64>, checked: nat, options: Options)
    ensures var out := Scan(lhs, lf, rhs, rf, points, checked, options);
            match out.mismatch
            case None =>
              && out.verdict == Equivalent && out.pointsChecked == checked + |points|
              && forall d | d in points :: PointVerdict(lhs, lf, rhs, rf, d, options) == Equivalent
            case Some(c) =>
              && c in points && out.verdict == PointVerdict(lhs, lf, rhs, rf, c, options) != Equivalent
              && forall d | d in points && d < c :: PointVerdict(lhs, lf, rhs, rf, d, options) == Equivalent
    decreases |points|
  {
    hide PointVerdict;
    if points != {} {
      var d := Least(points);
      ScanMeans(lhs, lf, rhs, rf, points - {d}, checked + 1, options);
      assert forall x | x in points :: x == d || x in points - {d};
    }
  }

  /** The verdicts without looking at a state: UNKNOWN for an index out of range or a missing CIE,
      DIFFERENT for ranges that have to be the same and are not, EQUIVALENT where one range is
      empty. In all other cases points are compared. */
  lemma {:induction false} EarlyExits(lhs: CfiSection, i: nat, rhs: CfiSection, j: nat, options: Options)
    ensures var out := Comparison(lhs, i, rhs, j, options);
            if i < |lhs.fdes| && j < |rhs.fdes| && lhs.fdes[i].cie.Some? && rhs.fdes[j].cie.Some? then
              var l, r := lhs.fdes[i].addressRange, rhs.fdes[j].addressRange;
              if options.requireSameRange && l != r then out == IntervalResult(Different, 0, None)
              else if l == 0 || r == 0 then out == IntervalResult(Equivalent, 0, None)
              else out.pointsChecked > 0
            else out == IntervalResult(Unknown, 0, None)
  {
    hide PointVerdict, PointsToCheck;
    if Collects(lhs, i, rhs, j, options) {
      var points := PointsToCheck(lhs.fdes[i], rhs.fdes[j]);
      SomePoint(lhs.fdes[i], rhs.fdes[j]);
      ScanCounts(lhs, lhs.fdes[i], rhs, rhs.fdes[j], points, 0, options);
    }
  }

  lemma SomePoint(lf: Fde, rf: Fde)
    requires CommonRange(lf, rf) > 0
    ensures 0 in PointsToCheck(lf, rf)
  {
  }

  lemma {:induction false} ScanCounts(
      lhs: CfiSection, lf: Fde, rhs: CfiSection, rf: Fde, points: set<u64>, checked: nat, options: Options)
    ensures var n := Scan(lhs, lf, rhs, rf, points, checked, options).pointsChecked;
            checked <= n && (points != {} ==> checked < n)
    decreases |points|
  {
    hide PointVerdict;
    if points != {} {
      ScanCounts(lhs, lf, rhs, rf, points - {Least(points)}, checked + 1, options);
    }
  }

  /** The verdict on the states `d` behind the starts of two frame descriptions. */
  ghost function VerdictAt(lhs: CfiSection, i: nat, rhs: CfiSection, j: nat, d: u64, options: Options): Verdict
    requires i < |lhs.fdes| && j < |rhs.fdes|
  {
    var l := UnwindInfoAt(lhs, (lhs.fdes[i].initialLocation + d) % 0x1_0000_0000_0000_0000);
    var r := UnwindInfoAt(rhs, (rhs.fdes[j].initialLocation + d) % 0x1_0000_0000_0000_0000);
    StateVerdict(l, r, options)
  }

  lemma VerdictOfPoint(lhs: CfiSection, i: nat, rhs: CfiSection, j: nat, d: u64, options: Options)
    requires i < |lhs.fdes| && j < |rhs.fdes|
    ensures VerdictAt(lhs, i, rhs, j, d, options) == PointVerdict(lhs, lhs.fdes[i], rhs, rhs.fdes[j], d, options)
  {
    hide UnwindInfoAt, StateVerdict;
  }

  /** The claim about the whole range is sound and complete: EQUIVALENT is reported exactly when
      the states agree at every relative program counter inside both ranges, and otherwise the
      reported mismatch is the least one of these, with its verdict. */
  lemma {:induction false} IntervalVerdictCoversRange(lhs: CfiSection, i: nat, rhs: CfiSection, j: nat, options: Options)
    requires ComparableFde(lhs, i) && ComparableFde(rhs, j)
    requires options.requireSameRange ==> lhs.fdes[i].addressRange == rhs.fdes[j].addressRange
    ensures var out := Comparison(lhs, i, rhs, j, options);
            && (out.verdict == Equivalent <==>
                  forall d: u64 | d < lhs.fdes[i].addressRange && d < rhs.fdes[j].addressRange ::
                    VerdictAt(lhs, i, rhs, j, d, options) == Equivalent)
            && (out.verdict != Equivalent ==>
                  && out.mismatch.Some?
                  && out.mismatch.value < lhs.fdes[i].addressRange && out.mismatch.value < rhs.fdes[j].addressRange
                  && VerdictAt(lhs, i, rhs, j, out.mismatch.value, options) == out.verdict
                  && forall d: u64 | d < out.mismatch.value :: VerdictAt(lhs, i, rhs, j, d, options) == Equivalent)
  {
    hide PointVerdict, Scan, CutPointsOf, Checkable, Unshadowed, VerdictAt;
    var lf, rf := lhs.fdes[i], rhs.fdes[j];
    var common := CommonRange(lf, rf);
    forall d: u64
      ensures VerdictAt(lhs, i, rhs, j, d, options) == PointVerdict(lhs, lf, rhs, rf, d, options)
    {
      VerdictOfPoint(lhs, i, rhs, j, d, options);
    }
    if common > 0 {
      var points := PointsToCheck(lf, rf);
      var out := Comparison(lhs, i, rhs, j, options);
      ScanMeans(lhs, lf, rhs, rf, points, 0, options);
      forall d: u64 | 0 <= d < common && (out.mismatch.Some? ==> d < out.mismatch.value)
        ensures PointVerdict(lhs, lf, rhs, rf, d, options) == Equivalent
      {
        var c := VerdictOfCheckedPoint(lhs, i, rhs, j, d, options);
      }
    }
  }

  /** Therefore: when the checker says EQUIVALENT, unwinding any frame at the same distance behind
      the two FDE starts, with any registers and any memory, has the same outcome. */
  lemma {:induction false} EquivalentFdesUnwindAlike(
      lhs: CfiSection, i: nat, rhs: CfiSection, j: nat, options: Options,
      d: u64, regs: seq<u64>, mem: Memory, eval: Evaluator)
    requires ComparableFde(lhs, i) && ComparableFde(rhs, j)
    requires Sound(options, eval, lhs.fdes[i].cie.value.addressSize, rhs.fdes[j].cie.value.addressSize)
    requires Comparison(lhs, i, rhs, j, options).verdict == Equivalent
    requires d < lhs.fdes[i].addressRange && d < rhs.fdes[j].addressRange
    ensures Unwind(UnwindInfoAt(lhs, Wrap64(lhs.fdes[i].initialLocation + d)), regs, mem, eval)
         == Unwind(UnwindInfoAt(rhs, Wrap64(rhs.fdes[j].initialLocation + d)), regs, mem, eval)
  {
    hide UnwindInfoAt, StateVerdict, Scan, CutPointsOf, Unwind, Sound, RowFor, Checkable, Unshadowed;
    assert options.requireSameRange ==> lhs.fdes[i].addressRange == rhs.fdes[j].addressRange;
    IntervalVerdictCoversRange(lhs, i, rhs, j, options);
    assert VerdictAt(lhs, i, rhs, j, d, options) == Equivalent;
    InfoInsideFde(lhs, i, d);
    InfoInsideFde(rhs, j, d);
    EquivalentStatesUnwindAlike(
      UnwindInfoAt(lhs, Wrap64(lhs.fdes[i].initialLocation + d)),
      UnwindInfoAt(rhs, Wrap64(rhs.fdes[j].initialLocation + d)), options, regs, mem, eval);
  }
}
