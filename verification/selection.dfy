/** The criteria of `GSw_PRM_StressThreshold` and the choice of new stress
    periods for a failed criterion (ReEDS_Augur/stress_periods.py 459-504). */
module Selection {
  import opened Wrappers
  import opened Seqs
  import opened Text
  import opened StressMetric

  /** One criterion, e.g. 'transgrp_10_EUE_sum': hierarchy level, threshold
      in ppm, stress metric and aggregation over the period's hours. */
  datatype Criterion = Criterion(level: string, ppm: string, metric: string, agg: string)

  /** The criterion as it is written in the switch. */
  function Render(c: Criterion): string
  {
    Join([c.level, c.ppm, c.metric, c.agg], "_")
  }

  /** The criteria of the switch, separated by '/'. */
  function Criteria(setting: string): (r: seq<string>)
    ensures |r| >= 1
    ensures Join(r, "/") == setting
  {
    JoinSplit(setting, "/");
    Split(setting, "/")
  }

  /** `criterion.split('_')` unpacked into four names; any other number of
      pieces is a ValueError. */
  function ParseCriterion(text: string): (r: Result<Criterion>)
    ensures r.Ok? <==> |Split(text, "_")| == 4
    ensures r.Ok? ==> Render(r.value) == text
    ensures r.Ok? ==> '_' !in r.value.level && '_' !in r.value.ppm
                      && '_' !in r.value.metric && '_' !in r.value.agg
    ensures r.Err? ==> r.error.ValueError?
  {
    var parts := Split(text, "_");
    if |parts| == 4 then
      JoinSplit(text, "_");
      assert [parts[0], parts[1], parts[2], parts[3]] == parts;
      SplitPiecesLackChar(text, '_');
      Ok(Criterion(parts[0], parts[1], parts[2], parts[3]))
    else if |parts| < 4 then Err(ValueError("not enough values to unpack"))
    else Err(ValueError("too many values to unpack"))
  }

  /** Writing a criterion out and parsing it back gives the criterion. */
  lemma ParseRender(c: Criterion)
    requires '_' !in c.level && '_' !in c.ppm && '_' !in c.metric && '_' !in c.agg
    ensures ParseCriterion(Render(c)) == Ok(c)
  {
    SplitJoin([c.level, c.ppm, c.metric, c.agg], '_');
  }

  // ---------------------------------------------------------------------------
  // New stress periods of a failed criterion
  // ---------------------------------------------------------------------------

  /** A candidate day is kept only for a region that failed and only when
      its period is not a stress period already. */
  predicate Eligible(failed: set<string>, existing: set<string>, x: StressDay)
  {
    x.region in failed && x.period !in existing
  }

  function EligibleTest(failed: set<string>, existing: set<string>): StressDay -> bool
  {
    x => Eligible(failed, existing, x)
  }

  function RegionOf(x: StressDay): string { x.region }

  /** Candidate `x` is covered by the selection `r`: a selected entry of the
      same date is at least as bad, or some region's quota is filled with
      entries at least as bad. */
  ghost predicate Covered(r: seq<StressDay>, increment: nat, x: StressDay)
  {
    || (exists i :: 0 <= i < |r| && r[i].day == x.day && r[i].value >= x.value)
    || (exists g :: |OfGroup(r, RegionOf, g)| == increment
          && forall i :: 0 <= i < |r| && r[i].region == g ==> r[i].value >= x.value)
  }

  /** Lines 476-504: the daily table sorted by the metric, the eligible days,
      each calendar day once, and the `increment` worst days per region.
      Every eligible day is covered: selected itself or on its date, or lost
      to a region whose quota it could not beat. */
  function SelectNew(periods: seq<StressDay>, failed: set<string>, existing: set<string>,
                     increment: nat): (r: seq<StressDay>)
    ensures forall i :: 0 <= i < |r| ==> r[i] in periods && Eligible(failed, existing, r[i])
    ensures KeysUnique(r, DayOf)
    ensures SortedDesc(r, ValueOf)
    ensures forall g :: |OfGroup(r, RegionOf, g)| <= increment
    ensures forall x :: x in periods && Eligible(failed, existing, x) ==> Covered(r, increment, x)
  {
    var ranked := SortDesc(periods, ValueOf);
    var candidates := Filter(ranked, EligibleTest(failed, existing));
    var days := DedupBy(candidates, DayOf);
    var r := HeadPerGroup(days, RegionOf, increment);
    SelectFacts(periods, failed, existing, increment, ranked, candidates, days, r);
    SelectCoversAll(periods, failed, existing, increment, ranked, candidates, days, r);
    r
  }

  lemma SelectCoversAll(periods: seq<StressDay>, failed: set<string>, existing: set<string>, increment: nat,
                        ranked: seq<StressDay>, candidates: seq<StressDay>, days: seq<StressDay>,
                        r: seq<StressDay>)
    requires multiset(ranked) == multiset(periods)
    requires forall i :: 0 <= i < |ranked| && EligibleTest(failed, existing)(ranked[i]) ==> ranked[i] in candidates
    requires days == DedupBy(candidates, DayOf)
    requires r == HeadPerGroup(days, RegionOf, increment)
    requires SortedDesc(candidates, ValueOf) && SortedDesc(days, ValueOf)
    ensures forall x :: x in periods && Eligible(failed, existing, x) ==> Covered(r, increment, x)
  {
    forall x | x in periods && Eligible(failed, existing, x)
      ensures Covered(r, increment, x)
    {
      assert x in multiset(ranked);
      var j :| 0 <= j < |ranked| && ranked[j] == x;
      assert EligibleTest(failed, existing)(ranked[j]);
      SelectCovers(x, candidates, days, r, increment);
    }
  }

  /** The worst eligible entry of `x`'s date is either selected, or dropped
      by a region whose quota is full of entries at least as bad. */
  lemma SelectCovers(x: StressDay, candidates: seq<StressDay>, days: seq<StressDay>,
                     r: seq<StressDay>, increment: nat)
    requires x in candidates
    requires days == DedupBy(candidates, DayOf)
    requires r == HeadPerGroup(days, RegionOf, increment)
    requires SortedDesc(candidates, ValueOf) && SortedDesc(days, ValueOf)
    ensures Covered(r, increment, x)
  {
    FirstIsLargest(candidates, DayOf, ValueOf, x);
    DedupKeepsFirst(candidates, DayOf, x);
    var y := First(candidates, DayOf, x.day);
    if y in r {
      var i :| 0 <= i < |r| && r[i] == y;
      assert r[i].day == x.day && r[i].value >= x.value;
    } else {
      HeadPerGroupDropped(days, RegionOf, increment, ValueOf, y);
      forall i | 0 <= i < |r| && r[i].region == y.region
        ensures r[i].value >= x.value
      {
        assert r[i] in r;
      }
      assert |OfGroup(r, RegionOf, y.region)| == increment;
    }
  }

  lemma SelectFacts(periods: seq<StressDay>, failed: set<string>, existing: set<string>, increment: nat,
                    ranked: seq<StressDay>, candidates: seq<StressDay>, days: seq<StressDay>,
                    r: seq<StressDay>)
    requires ranked == SortDesc(periods, ValueOf)
    requires candidates == Filter(ranked, EligibleTest(failed, existing))
    requires days == DedupBy(candidates, DayOf)
    requires r == HeadPerGroup(days, RegionOf, increment)
    ensures forall i :: 0 <= i < |r| ==> r[i] in periods && Eligible(failed, existing, r[i])
    ensures KeysUnique(r, DayOf)
    ensures SortedDesc(candidates, ValueOf) && SortedDesc(days, ValueOf) && SortedDesc(r, ValueOf)
    ensures forall g :: |OfGroup(r, RegionOf, g)| <= increment
  {
    SubseqSorted(candidates, ranked, ValueOf);
    SubseqSorted(days, candidates, ValueOf);
    SubseqSorted(r, days, ValueOf);
    SubseqMembers(r, days);
    SubseqMembers(days, candidates);
    SubseqMembers(candidates, ranked);
    SelectedMembers(periods, failed, existing, ranked, candidates, r);
    SubseqUnique(r, days, DayOf);
    forall g ensures |OfGroup(r, RegionOf, g)| <= increment {
      HeadPerGroupQuota(days, RegionOf, increment, g);
    }
  }

  lemma SelectedMembers(periods: seq<StressDay>, failed: set<string>, existing: set<string>,
                        ranked: seq<StressDay>, candidates: seq<StressDay>, r: seq<StressDay>)
    requires multiset(ranked) == multiset(periods)
    requires forall i :: 0 <= i < |candidates| ==> Eligible(failed, existing, candidates[i])
    requires forall x :: x in candidates ==> x in ranked
    requires forall x :: x in r ==> x in candidates
    ensures forall i :: 0 <= i < |r| ==> r[i] in periods && Eligible(failed, existing, r[i])
  {
    forall i | 0 <= i < |r|
      ensures r[i] in periods && Eligible(failed, existing, r[i])
    {
      assert r[i] in r;
      var j :| 0 <= j < |candidates| && candidates[j] == r[i];
      assert r[i] in multiset(ranked);
    }
  }
}
