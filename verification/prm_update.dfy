/** The energy reserve margin update of ReEDS_Augur/stress_periods.py
    (`update_prm`, 229-409): the model regions whose criterion failed, the
    margin increment each of them needs, and the new margins written for the
    next solve.

    The increment is either a fixed switch value or, from the PRAS shortfall
    samples, the surplus that brings the region's expected unserved energy
    down to its target, as a fraction of the region's load in the stress
    hours. */
module PrmUpdate {
  import opened Wrappers
  import opened Seqs
  import opened Text
  import opened Order
  import opened Frames
  import opened Rounding
  import opened Floats
  import opened StressMetric
  import opened Selection
  import opened StressIteration
  import Plf

  // ---------------------------------------------------------------------------
  // Regions that failed a criterion (lines 259-277)
  // ---------------------------------------------------------------------------

  /** One entry of the `failed` dictionary: a criterion as written in the
      switch and the aggregate regions over its threshold. */
  datatype FailedEntry = FailedEntry(criterion: string, regions: set<string>)

  /** One row of `failed_regions`: a model region `r`, its aggregate region
      at the criterion's level, the level, and the threshold in ppm. */
  datatype FailedRegion = FailedRegion(r: string, region: string, level: string, ppm: real)

  function RegionOfRow(x: FailedRegion): string { x.r }

  /** The dictionary the stress-period loop hands over: only the criterion
      that failed, since the loop stops there (lines 485-486). */
  function FailedOf(f: Failure): (r: seq<FailedEntry>)
    ensures |r| == 1 && r[0].criterion == Render(f.criterion)
    ensures forall g :: g in r[0].regions <==> exists i :: 0 <= i < |f.over| && f.over[i].region == g
  {
    [FailedEntry(Render(f.criterion), FailedRegions(f.over))]
  }

  /** `failed[criterion]`: the regions of the entry for the criterion, or a
      KeyError when there is none. */
  function Lookup(failed: seq<FailedEntry>, criterion: string): (r: Result<set<string>>)
    ensures r.Ok? <==> exists i :: 0 <= i < |failed| && failed[i].criterion == criterion
    ensures r.Ok? ==> exists i :: 0 <= i < |failed| && failed[i] == FailedEntry(criterion, r.value)
    ensures r.Err? ==> r.error == KeyError(criterion)
    decreases |failed|
  {
    if |failed| == 0 then Err(KeyError(criterion))
    else if failed[0].criterion == criterion then Ok(failed[0].regions)
    else
      assert forall i :: 0 < i < |failed| ==> failed[1..][i - 1] == failed[i];
      Lookup(failed[1..], criterion)
  }

  /** Lines 266-267: the hierarchy's regions whose aggregate is among `over`,
      in hierarchy order. */
  function Members(regions: seq<string>, rmap: map<string, string>, over: set<string>,
                   level: string, ppm: real): (r: seq<FailedRegion>)
    ensures forall x :: x in r <==>
              x.r in regions && x.r in rmap && x.region == rmap[x.r] && x.region in over
              && x.level == level && x.ppm == ppm
    decreases |regions|
  {
    if |regions| == 0 then []
    else
      var q := regions[|regions| - 1];
      assert regions == regions[..|regions| - 1] + [q];
      Members(regions[..|regions| - 1], rmap, over, level, ppm)
      + (if q in rmap && rmap[q] in over then [FailedRegion(q, rmap[q], level, ppm)] else [])
  }

  /** Line 266 at level 'r': the identity map is a series named like its
      index, 'r', so `reset_index` cannot insert the index as a column. */
  const ResetIndexClash := "cannot insert r, already exists"

  /** A criterion that unpacks, names a level of the hierarchy other than
      'r' and has a numeric threshold. */
  predicate Usable(h: Hierarchy, text: string)
  {
    && ParseCriterion(text).Ok?
    && RegionMap(h, ParseCriterion(text).value.level).Ok?
    && ParseCriterion(text).value.level != "r"
    && ToFloat(ParseCriterion(text).value.ppm).Ok?
  }

  /** Lines 262-272 for one criterion: unpack it, map the regions to its
      level, look its failed regions up, and read its threshold, in that
      order. At level 'r' the `reset_index` of line 266 fails before the
      lookup. */
  function CriterionRegions(h: Hierarchy, failed: seq<FailedEntry>, text: string): (r: Result<seq<FailedRegion>>)
    ensures |Split(text, "_")| != 4 ==> r.Err? && r.error.ValueError?
    ensures ParseCriterion(text).Ok? && RegionMap(h, ParseCriterion(text).value.level).Err? ==>
              r == Err(KeyError(ParseCriterion(text).value.level))
    ensures ParseCriterion(text).Ok? && ParseCriterion(text).value.level == "r" ==>
              r == Err(ValueError(ResetIndexClash))
    ensures (ParseCriterion(text).Ok? && RegionMap(h, ParseCriterion(text).value.level).Ok?
             && ParseCriterion(text).value.level != "r" && Lookup(failed, text).Err?) ==> r == Err(KeyError(text))
    ensures Usable(h, text) ==> (r.Ok? <==> Lookup(failed, text).Ok?)
    ensures r.Ok? ==> Usable(h, text)
    ensures r.Ok? ==> forall x :: x in r.value ==>
              && x.r in h.regions && x.region in Lookup(failed, text).value
              && x.level == ParseCriterion(text).value.level
              && x.ppm == ParseDecimal(ParseCriterion(text).value.ppm).value
  {
    var c :- ParseCriterion(text);
    var rmap :- RegionMap(h, c.level);
    if c.level == "r" then Err(ValueError(ResetIndexClash)) else
    var over :- Lookup(failed, text);
    var ppm :- ToFloat(c.ppm);
    Ok(Members(h.regions, rmap, over, c.level, ppm))
  }

  function NegPpm(x: FailedRegion): real { -x.ppm }

  /** Lines 276-277: for a region that failed several criteria, the row of
      the most stringent one (lowest ppm). */
  function Stringent(rows: seq<FailedRegion>): (r: seq<FailedRegion>)
    ensures KeysUnique(r, RegionOfRow)
    ensures KeySet(r, RegionOfRow) == KeySet(rows, RegionOfRow)
    ensures forall x :: x in r ==> x in rows
    ensures forall x, y :: x in r && y in rows && y.r == x.r ==> x.ppm <= y.ppm
  {
    var sorted := SortDesc(rows, NegPpm);
    var r := DedupBy(sorted, RegionOfRow);
    StringentFacts(rows, sorted, r);
    r
  }

  lemma StringentFacts(rows: seq<FailedRegion>, sorted: seq<FailedRegion>, r: seq<FailedRegion>)
    requires sorted == SortDesc(rows, NegPpm) && r == DedupBy(sorted, RegionOfRow)
    ensures KeySet(r, RegionOfRow) == KeySet(rows, RegionOfRow)
    ensures forall x :: x in r ==> x in rows
    ensures forall x, y :: x in r && y in rows && y.r == x.r ==> x.ppm <= y.ppm
  {
    KeySetPermutation(sorted, rows, RegionOfRow);
    forall x | x in r ensures x in rows {
      DedupMembers(sorted, RegionOfRow, x);
      assert x in multiset(sorted);
    }
    forall x, y | x in r && y in rows && y.r == x.r ensures x.ppm <= y.ppm {
      assert y in multiset(sorted);
      StringentKeepsLowest(sorted, r, x, y);
    }
  }

  lemma StringentKeepsLowest(sorted: seq<FailedRegion>, r: seq<FailedRegion>, x: FailedRegion, y: FailedRegion)
    requires SortedDesc(sorted, NegPpm) && r == DedupBy(sorted, RegionOfRow)
    requires x in r && y in sorted && y.r == x.r
    ensures x.ppm <= y.ppm
  {
    FirstIsLargest(sorted, RegionOfRow, NegPpm, y);
    var i :| 0 <= i < |r| && r[i] == x;
    assert x == First(sorted, RegionOfRow, RegionOfRow(y));
  }

  /** Row `x` comes from the rows of one of the criteria. */
  ghost predicate FromCriterion(h: Hierarchy, failed: seq<FailedEntry>, texts: seq<string>, x: FailedRegion)
  {
    exists i :: 0 <= i < |texts| && CriterionRegions(h, failed, texts[i]).Ok?
                && x in CriterionRegions(h, failed, texts[i]).value
  }

  /** The rows of every criterion, most stringent per region. */
  function Collect(h: Hierarchy, failed: seq<FailedEntry>, texts: seq<string>): (r: Result<seq<FailedRegion>>)
    ensures r.Ok? <==> forall i :: 0 <= i < |texts| ==> CriterionRegions(h, failed, texts[i]).Ok?
    ensures r.Err? ==> exists i :: 0 <= i < |texts| && CriterionRegions(h, failed, texts[i]) == Err(r.error)
    ensures r.Ok? ==> KeysUnique(r.value, RegionOfRow)
    ensures r.Ok? ==> forall x :: x in r.value ==> FromCriterion(h, failed, texts, x)
  {
    var parts :- MapAll(texts, text => CriterionRegions(h, failed, text));
    var r := Stringent(Flatten(parts));
    CollectFrom(h, failed, texts, parts, r);
    Ok(r)
  }

  lemma CollectFrom(h: Hierarchy, failed: seq<FailedEntry>, texts: seq<string>,
                    parts: seq<seq<FailedRegion>>, r: seq<FailedRegion>)
    requires |parts| == |texts|
    requires forall i :: 0 <= i < |texts| ==> CriterionRegions(h, failed, texts[i]) == Ok(parts[i])
    requires r == Stringent(Flatten(parts))
    ensures forall x :: x in r ==> FromCriterion(h, failed, texts, x)
  {
    forall x | x in r ensures FromCriterion(h, failed, texts, x) {
      assert x in Flatten(parts);
      FromFlatten(h, failed, texts, parts, x);
    }
  }

  lemma FromFlatten(h: Hierarchy, failed: seq<FailedEntry>, texts: seq<string>,
                    parts: seq<seq<FailedRegion>>, x: FailedRegion)
    requires |parts| == |texts|
    requires forall i :: 0 <= i < |texts| ==> CriterionRegions(h, failed, texts[i]) == Ok(parts[i])
    requires x in Flatten(parts)
    ensures FromCriterion(h, failed, texts, x)
  {
    var rows := Flatten(parts);
    var j :| 0 <= j < |rows| && rows[j] == x;
    var i :| 0 <= i < |parts| && rows[j] in parts[i];
    FromPart(h, failed, texts, parts[i], i, x);
  }

  lemma FromPart(h: Hierarchy, failed: seq<FailedEntry>, texts: seq<string>, part: seq<FailedRegion>, i: nat, x: FailedRegion)
    requires i < |texts| && CriterionRegions(h, failed, texts[i]) == Ok(part) && x in part
    ensures FromCriterion(h, failed, texts, x)
  {
  }

  /** Lines 259-277 as written: every criterion of the switch is looked up
      in `failed`. */
  function FailedRegionsAsWritten(h: Hierarchy, failed: seq<FailedEntry>, setting: string): (r: Result<seq<FailedRegion>>)
    ensures r.Ok? <==> forall i :: 0 <= i < |Criteria(setting)| ==> CriterionRegions(h, failed, Criteria(setting)[i]).Ok?
  {
    Collect(h, failed, Criteria(setting))
  }

  /** With the dictionary the loop hands over, the update as written fails
      with a KeyError as soon as the switch lists a criterion other than the
      one that failed, even when every criterion is well formed. */
  lemma AsWrittenNeedsEveryCriterion(h: Hierarchy, f: Failure, setting: string, other: string)
    requires forall i :: 0 <= i < |Criteria(setting)| ==> Usable(h, Criteria(setting)[i])
    requires other in Criteria(setting) && other != Render(f.criterion)
    ensures FailedRegionsAsWritten(h, FailedOf(f), setting).Err?
    ensures FailedRegionsAsWritten(h, FailedOf(f), setting).error.KeyError?
  {
    var texts := Criteria(setting);
    var failed := FailedOf(f);
    var j :| 0 <= j < |texts| && texts[j] == other;
    assert Lookup(failed, other).Err?;
    var r := FailedRegionsAsWritten(h, failed, setting);
    var i :| 0 <= i < |texts| && CriterionRegions(h, failed, texts[i]) == Err(r.error);
    assert Usable(h, texts[i]);
  }

  /** The corrected loop: only the criteria that failed are looked up. */
  function FailedRegionsCorrected(h: Hierarchy, failed: seq<FailedEntry>): (r: Result<seq<FailedRegion>>)
    ensures (forall i :: 0 <= i < |failed| ==> Usable(h, failed[i].criterion)) ==> r.Ok?
    ensures r.Ok? ==> KeysUnique(r.value, RegionOfRow)
    ensures r.Ok? ==> forall x :: x in r.value ==>
              exists i :: 0 <= i < |failed| && x.r in h.regions && x.region in failed[i].regions
  {
    var texts := Texts(failed);
    var r := Collect(h, failed, texts);
    CorrectedFacts(h, failed, r);
    r
  }

  /** The criteria of the dictionary, in order. */
  function Texts(failed: seq<FailedEntry>): (r: seq<string>)
    ensures |r| == |failed| && forall i :: 0 <= i < |failed| ==> r[i] == failed[i].criterion
  {
    seq(|failed|, i requires 0 <= i < |failed| => failed[i].criterion)
  }

  lemma CorrectedFacts(h: Hierarchy, failed: seq<FailedEntry>, r: Result<seq<FailedRegion>>)
    requires r == Collect(h, failed, Texts(failed))
    ensures (forall i :: 0 <= i < |failed| ==> Usable(h, failed[i].criterion)) ==> r.Ok?
    ensures r.Ok? ==> forall x :: x in r.value ==>
              exists i :: 0 <= i < |failed| && x.r in h.regions && x.region in failed[i].regions
  {
    var texts := Texts(failed);
    if forall i :: 0 <= i < |failed| ==> Usable(h, failed[i].criterion) {
      forall i | 0 <= i < |texts| ensures CriterionRegions(h, failed, texts[i]).Ok? {
        LookupOwnKey(failed, i);
      }
    }
    if r.Ok? {
      forall x | x in r.value
        ensures exists i :: 0 <= i < |failed| && x.r in h.regions && x.region in failed[i].regions
      {
        CorrectedRow(h, failed, x);
      }
    }
  }

  /** Every criterion of the dictionary is found in it. */
  lemma LookupOwnKey(failed: seq<FailedEntry>, i: nat)
    requires i < |failed|
    ensures Lookup(failed, failed[i].criterion).Ok?
  {
  }

  lemma CorrectedRow(h: Hierarchy, failed: seq<FailedEntry>, x: FailedRegion)
    requires FromCriterion(h, failed, Texts(failed), x)
    ensures exists i :: 0 <= i < |failed| && x.r in h.regions && x.region in failed[i].regions
  {
    var texts := Texts(failed);
    var i :| 0 <= i < |texts| && CriterionRegions(h, failed, texts[i]).Ok?
             && x in CriterionRegions(h, failed, texts[i]).value;
    var k :| 0 <= k < |failed| && failed[k] == FailedEntry(texts[i], Lookup(failed, texts[i]).value);
  }

  /** When the switch holds the failed criterion alone, the two loops agree. */
  lemma CorrectedAgreesOnSingleCriterion(h: Hierarchy, f: Failure, setting: string)
    requires Criteria(setting) == [Render(f.criterion)]
    ensures FailedRegionsCorrected(h, FailedOf(f)) == FailedRegionsAsWritten(h, FailedOf(f), setting)
  {
    assert Texts(FailedOf(f)) == Criteria(setting);
  }

  // ---------------------------------------------------------------------------
  // Margin increments (lines 280-396)
  // ---------------------------------------------------------------------------

  /** `prm_increment` of one region; numpy arithmetic can make it infinite. */
  datatype Increment = Increment(r: string, value: Float)

  /** Lines 280-284: the switch's increment for every failed region. */
  function FixedIncrements(regions: seq<FailedRegion>, text: string): (r: Result<seq<Increment>>)
    ensures r.Ok? <==> ParseDecimal(text).Some?
    ensures r.Err? ==> r.error == ValueError(text)
    ensures r.Ok? ==> |r.value| == |regions|
    ensures r.Ok? ==> forall i :: 0 <= i < |regions| ==>
              r.value[i].r == regions[i].r && r.value[i].value == Num(ParseDecimal(text).value)
  {
    var v :- ToFloat(text);
    Ok(seq(|regions|, i requires 0 <= i < |regions| => Increment(regions[i].r, Num(v))))
  }

  /** The inputs of the sampled update: the PRAS net shortfall samples (one
      hourly table per sample, a column per region), the hourly load table,
      its number of hours, and the hour indices of the stress periods. */
  datatype Pras = Pras(samples: seq<Frame>, load: Frame, hours: nat, stress: set<nat>)

  /** Line 309: a column's hours with net surplus count as zero. */
  function ClippedSum(s: seq<real>): (t: real)
    ensures t >= 0.0
    ensures t > 0.0 <==> exists h :: 0 <= h < |s| && s[h] > 0.0
    decreases |s|
  {
    if |s| == 0 then 0.0
    else
      var s' := s[..|s| - 1];
      assert forall h :: 0 <= h < |s'| ==> s'[h] == s[h];
      ClippedSum(s') + (if s[|s| - 1] > 0.0 then s[|s| - 1] else 0.0)
  }

  /** Lines 302-311: one sample's total shortfall in region `r`, over every
      column of that name. */
  function SampleTotal(f: Frame, r: string): (t: real)
    ensures t >= 0.0
    ensures t > 0.0 <==> exists k :: 0 <= k < |f| && f[k].name == r && ClippedSum(f[k].values) > 0.0
    decreases |f|
  {
    if |f| == 0 then 0.0
    else
      var f' := f[..|f| - 1];
      assert forall k :: 0 <= k < |f'| ==> f'[k] == f[k];
      SampleTotal(f', r) + (if f[|f| - 1].name == r then ClippedSum(f[|f| - 1].values) else 0.0)
  }

  /** Region `r`'s shortfall total in every sample. */
  function Totals(samples: seq<Frame>, r: string): (t: seq<real>)
    ensures |t| == |samples|
    ensures forall k :: 0 <= k < |samples| ==> t[k] == SampleTotal(samples[k], r)
  {
    seq(|samples|, k requires 0 <= k < |samples| => SampleTotal(samples[k], r))
  }

  /** Lines 350 and 361-363: region `r`'s positive totals in ascending
      order, one segment of the curve each. */
  function Shortfalls(samples: seq<Frame>, r: string): (a: seq<real>)
    ensures Plf.Ascending(a) && Plf.AllPositive(a)
    ensures multiset(a) == multiset(Filter(Totals(samples, r), Plf.IsShort))
  {
    var pos := Filter(Totals(samples, r), Plf.IsShort);
    var a := SortDesc(pos, Plf.Neg);
    Plf.SortedAscending(a);
    forall i | 0 <= i < |a| ensures a[i] > 0.0 {
      assert a[i] in multiset(pos);
      var j :| 0 <= j < |pos| && pos[j] == a[i];
    }
    Plf.PositiveAll(a);
    a
  }

  /** Not a single positive hour in any sample: the curve table is empty. */
  predicate NoShortfall(samples: seq<Frame>)
  {
    forall k, j, h :: 0 <= k < |samples| && 0 <= j < |samples[k]| && 0 <= h < |samples[k][j].values|
                      ==> samples[k][j].values[h] <= 0.0
  }

  /** Line 336: the total of the values at the stress hours. */
  function StressSum(s: seq<real>, stress: set<nat>): real
    decreases |s|
  {
    if |s| == 0 then 0.0
    else StressSum(s[..|s| - 1], stress) + (if |s| - 1 in stress then s[|s| - 1] else 0.0)
  }

  /** Line 331: region `r`'s load over all hours. */
  function LoadTotal(load: Frame, r: string): real
    decreases |load|
  {
    if |load| == 0 then 0.0
    else LoadTotal(load[..|load| - 1], r) + (if load[|load| - 1].name == r then Sum(load[|load| - 1].values) else 0.0)
  }

  /** Lines 335-337: region `r`'s load over the stress hours. */
  function StressLoad(load: Frame, r: string, stress: set<nat>): real
    decreases |load|
  {
    if |load| == 0 then 0.0
    else
      StressLoad(load[..|load| - 1], r, stress)
      + (if load[|load| - 1].name == r then StressSum(load[|load| - 1].values, stress) else 0.0)
  }

  /** Some hour of the load table is a stress hour; without one the merge of
      line 340 leaves no region at all. */
  predicate HasStressHour(hours: nat, stress: set<nat>)
  {
    exists h :: 0 <= h < hours && h in stress
  }

  /** Lines 344-346: the target unserved energy of the region, in MWh. */
  function Target(p: Pras, fr: FailedRegion): real
  {
    fr.ppm / Million * LoadTotal(p.load, fr.r)
  }

  /** The expected unserved energy of region `r` once `x` MWh of surplus is
      added in every sample: each sample keeps what its total exceeds `x` by,
      averaged over all samples. */
  ghost function ExpectedShortfall(samples: seq<Frame>, r: string, x: real): real
    requires |samples| > 0
  {
    Plf.Excess(Totals(samples, r), x) / (|samples| as real)
  }

  /** Lines 353-396 for one failed region: one increment per segment of the
      region's curve that brackets the target, the surplus where the segment
      reaches the target divided by the stress-period load. */
  function RegionIncrements(p: Pras, fr: FailedRegion): (r: seq<Increment>)
    requires |p.samples| > 0
    ensures forall i :: 0 <= i < |r| ==> r[i].r == fr.r
  {
    if fr.r !in Names(p.load) || !HasStressHour(p.hours, p.stress) then []
    else
      var n := |p.samples| as real;
      var a := Shortfalls(p.samples, fr.r);
      Plf.CurveFalls(a, n);
      var xs := Plf.Inversions(Plf.Curve(a, Plf.Slopes(|a|, n), n), Target(p, fr));
      var load := StressLoad(p.load, fr.r, p.stress);
      seq(|xs|, i requires 0 <= i < |xs| => Increment(fr.r, Div(xs[i], load)))
  }

  /** The surplus an increment stands for: the increment times the
      region's stress-period load. */
  function SurplusOf(p: Pras, inc: Increment): real
    requires inc.value.Num?
  {
    inc.value.x * StressLoad(p.load, inc.r, p.stress)
  }

  /** An increment is the surplus that brings the region's expected unserved
      energy to exactly its target, per MWh of stress-period load. */
  lemma IncrementMeetsTarget(p: Pras, fr: FailedRegion, inc: Increment)
    requires |p.samples| > 0 && inc in RegionIncrements(p, fr) && inc.value.Num?
    ensures StressLoad(p.load, fr.r, p.stress) != 0.0
    ensures SurplusOf(p, inc) >= 0.0
    ensures ExpectedShortfall(p.samples, fr.r, SurplusOf(p, inc)) == Target(p, fr)
  {
    var n := |p.samples| as real;
    var a := Shortfalls(p.samples, fr.r);
    var x := IncrementSurplus(p, fr, inc);
    assert x >= 0.0 && ExpectedShortfall(p.samples, fr.r, x) == Target(p, fr) by {
      Plf.InversionHitsTarget(a, n, Target(p, fr), x);
      ShortfallsExcess(p.samples, fr.r, x);
      assert ExpectedShortfall(p.samples, fr.r, x) == Plf.Excess(a, x) / n;
    }
    assert inc.r == fr.r;
    DivBack(p, inc, x);
  }

  lemma DivBack(p: Pras, inc: Increment, a: real)
    requires inc.value == Div(a, StressLoad(p.load, inc.r, p.stress)) && inc.value.Num?
    ensures StressLoad(p.load, inc.r, p.stress) != 0.0 && SurplusOf(p, inc) == a
  {
  }

  /** The surplus behind an increment: an inversion of the curve. */
  lemma IncrementSurplus(p: Pras, fr: FailedRegion, inc: Increment) returns (x: real)
    requires |p.samples| > 0 && inc in RegionIncrements(p, fr)
    ensures Plf.NonZeroSlopes(Plf.Curve(Shortfalls(p.samples, fr.r), Plf.Slopes(|Shortfalls(p.samples, fr.r)|, |p.samples| as real), |p.samples| as real))
    ensures x in Plf.Inversions(Plf.Curve(Shortfalls(p.samples, fr.r), Plf.Slopes(|Shortfalls(p.samples, fr.r)|, |p.samples| as real), |p.samples| as real), Target(p, fr))
    ensures inc.value == Div(x, StressLoad(p.load, fr.r, p.stress))
  {
    var n := |p.samples| as real;
    var a := Shortfalls(p.samples, fr.r);
    Plf.CurveFalls(a, n);
    var xs := Plf.Inversions(Plf.Curve(a, Plf.Slopes(|a|, n), n), Target(p, fr));
    var rs := RegionIncrements(p, fr);
    var i :| 0 <= i < |rs| && rs[i] == inc;
    x := xs[i];
  }

  /** At a non-negative surplus the curve's totals give the same excess as
      all of the region's sample totals. */
  lemma ShortfallsExcess(samples: seq<Frame>, r: string, x: real)
    requires x >= 0.0
    ensures Plf.Excess(Shortfalls(samples, r), x) == Plf.Excess(Totals(samples, r), x)
  {
    Plf.ExcessPermutation(Shortfalls(samples, r), Filter(Totals(samples, r), Plf.IsShort), x);
    Plf.ExcessOfShort(Totals(samples, r), x);
  }

  /** A region whose target lies between zero and its current expected
      unserved energy gets at least one increment. */
  lemma IncrementExists(p: Pras, fr: FailedRegion)
    requires |p.samples| > 0 && fr.r in Names(p.load) && HasStressHour(p.hours, p.stress)
    requires 0.0 <= Target(p, fr) <= ExpectedShortfall(p.samples, fr.r, 0.0)
    requires exists k :: 0 <= k < |p.samples| && SampleTotal(p.samples[k], fr.r) > 0.0
    ensures |RegionIncrements(p, fr)| > 0
  {
    var n := |p.samples| as real;
    var totals := Totals(p.samples, fr.r);
    var a := Shortfalls(p.samples, fr.r);
    var k :| 0 <= k < |p.samples| && SampleTotal(p.samples[k], fr.r) > 0.0;
    assert totals[k] in multiset(a) by {
      FilterMembers(totals, Plf.IsShort, totals[k]);
    }
    Plf.ExcessPermutation(a, Filter(totals, Plf.IsShort), 0.0);
    Plf.ExcessOfShort(totals, 0.0);
    Plf.ExcessAtZero(a);
    Plf.InversionExists(a, Plf.Slopes(|a|, n), n, Target(p, fr));
  }

  /** Lines 297-392: the sampled update. No sample at all makes the
      concatenation fail; no shortfall anywhere leaves the curve table empty
      and its `Dy` check fails. */
  function SampledIncrements(p: Pras, regions: seq<FailedRegion>): (r: Result<seq<Increment>>)
    ensures |p.samples| == 0 ==> r.Err? && r.error.ValueError?
    ensures |p.samples| > 0 ==> (r.Err? <==> NoShortfall(p.samples))
    ensures |p.samples| > 0 && r.Err? ==> r.error.AssertionError?
    ensures r.Ok? ==> forall j :: 0 <= j < |r.value| ==>
              exists i :: 0 <= i < |regions| && r.value[j] in RegionIncrements(p, regions[i])
    ensures r.Ok? ==> forall i, x :: 0 <= i < |regions| && x in RegionIncrements(p, regions[i]) ==> x in r.value
  {
    if |p.samples| == 0 then Err(ValueError("No objects to concatenate"))
    else if NoShortfall(p.samples) then Err(AssertionError("Error in Dy calculation"))
    else
      var parts := seq(|regions|, i requires 0 <= i < |regions| => RegionIncrements(p, regions[i]));
      forall i, x | 0 <= i < |regions| && x in RegionIncrements(p, regions[i])
        ensures x in Flatten(parts)
      {
        InFlatten(parts, i, x);
      }
      Ok(Flatten(parts))
  }

  lemma InFlatten<T>(parts: seq<seq<T>>, i: nat, x: T)
    requires i < |parts| && x in parts[i]
    ensures x in Flatten(parts)
  {
    var k :| 0 <= k < |parts[i]| && parts[i][k] == x;
  }

  /** Line 280: mode 1 adds the fixed increment, any other mode the sampled
      one. */
  function Increments(update: int, text: string, p: Pras, regions: seq<FailedRegion>): (r: Result<seq<Increment>>)
    ensures update == 1 ==> r == FixedIncrements(regions, text)
    ensures update != 1 ==> r == SampledIncrements(p, regions)
  {
    if update == 1 then FixedIncrements(regions, text) else SampledIncrements(p, regions)
  }

  // ---------------------------------------------------------------------------
  // Previous margins (lines 247-257)
  // ---------------------------------------------------------------------------

  /** A margin by model region and year (`prm_stress.csv`). */
  datatype PrmRow = PrmRow(r: string, t: int, prm: real)

  /** A margin by NERC region and year (`prm_annual.csv`). */
  datatype AnnualPrm = AnnualPrm(nercr: string, t: int, prm: real)

  function RegionYear(p: PrmRow): (string, int) { (p.r, p.t) }

  /** Lines 249-252: the annual margins of year `t` spread to the model
      regions of each NERC region. */
  function AnnualByRegion(regions: seq<string>, nercr: map<string, string>, annual: seq<AnnualPrm>, t: int): (r: seq<PrmRow>)
    ensures forall p :: p in r <==>
              p.t == t && p.r in regions && p.r in nercr && AnnualPrm(nercr[p.r], t, p.prm) in annual
    decreases |annual|
  {
    if |annual| == 0 then []
    else
      var a := annual[|annual| - 1];
      assert annual == annual[..|annual| - 1] + [a];
      AnnualByRegion(regions, nercr, annual[..|annual| - 1], t)
      + (if a.t == t then Spread(regions, nercr, a) else [])
  }

  function Spread(regions: seq<string>, nercr: map<string, string>, a: AnnualPrm): (r: seq<PrmRow>)
    ensures forall p :: p in r <==> p == PrmRow(p.r, a.t, a.prm) && p.r in regions && p.r in nercr && nercr[p.r] == a.nercr
    decreases |regions|
  {
    if |regions| == 0 then []
    else
      var q := regions[|regions| - 1];
      assert regions == regions[..|regions| - 1] + [q];
      Spread(regions[..|regions| - 1], nercr, a) + (if q in nercr && nercr[q] == a.nercr then [PrmRow(q, a.t, a.prm)] else [])
  }

  /** Lines 247-257: the last stress iteration's margins, then the annual
      ones, first row per (region, year). A margin the last iteration wrote
      overrides the annual margin. */
  function Previous(h: Hierarchy, last: seq<PrmRow>, annual: seq<AnnualPrm>, t: int): (r: Result<seq<PrmRow>>)
    ensures r.Ok? <==> "nercr" in h.columns
    ensures r.Err? ==> r.error == KeyError("nercr")
    ensures r.Ok? ==> KeysUnique(r.value, RegionYear)
    ensures r.Ok? ==> forall p :: p in r.value && RegionYear(p) in KeySet(last, RegionYear) ==> p in last
    ensures r.Ok? ==> forall p :: p in r.value ==>
              p in last || (p.t == t && p.r in h.regions && p.r in h.columns["nercr"]
                            && AnnualPrm(h.columns["nercr"][p.r], t, p.prm) in annual)
  {
    var m :- RegionMap(h, "nercr");
    var spread := AnnualByRegion(h.regions, m, annual, t);
    var r := DedupBy(last + spread, RegionYear);
    forall p | p in r
      ensures RegionYear(p) in KeySet(last, RegionYear) ==> p in last
      ensures p in last || p in spread
    {
      PreviousRow(last, spread, r, p);
    }
    Ok(r)
  }

  lemma PreviousRow(last: seq<PrmRow>, spread: seq<PrmRow>, r: seq<PrmRow>, p: PrmRow)
    requires r == DedupBy(last + spread, RegionYear) && p in r
    ensures RegionYear(p) in KeySet(last, RegionYear) ==> p in last
    ensures p in last || p in spread
  {
    var s := last + spread;
    DedupMembers(s, RegionYear, p);
    if RegionYear(p) in KeySet(last, RegionYear) {
      FirstFromPrefix(last, spread, p);
    }
  }

  /** A key the last iteration wrote is first found among its rows. */
  lemma FirstFromPrefix(last: seq<PrmRow>, spread: seq<PrmRow>, p: PrmRow)
    requires p in DedupBy(last + spread, RegionYear)
    requires RegionYear(p) in KeySet(last, RegionYear)
    ensures p in last
  {
    var s := last + spread;
    var r := DedupBy(s, RegionYear);
    var i :| 0 <= i < |r| && r[i] == p;
    assert p == First(s, RegionYear, RegionYear(p));
    var j :| 0 <= j < |s| && s[j] == p && forall l :: 0 <= l < j ==> RegionYear(s[l]) != RegionYear(p);
    var l :| 0 <= l < |last| && RegionYear(last[l]) == RegionYear(p);
    assert s[l] == last[l];
    assert s[j] == last[j];
  }

  // ---------------------------------------------------------------------------
  // New margins (lines 398-409)
  // ---------------------------------------------------------------------------

  /** A region's previous margin, increment and rounded new margin after the
      right merge of line 398. */
  datatype Raise = Raise(r: string, t: int, prev: real, next: Float)

  /** Lines 399-402: previous plus increment, rounded to three decimals. */
  function NewMargin(p: PrmRow, inc: Increment): Raise
  {
    Raise(p.r, p.t, p.prm, Round3F(Plus(p.prm, inc.value)))
  }

  /** Line 403: the new margin is positive and more than 0.001 above the
      previous one; a NaN margin passes neither test. */
  predicate Raises(c: Raise)
  {
    Above(c.next, 0.0) && Above(Minus(c.next, c.prev), 0.001)
  }

  /** The previous margins the increment of one region merges with. */
  function Matches(prev: seq<PrmRow>, inc: Increment): (r: seq<Raise>)
    ensures forall c :: c in r <==> exists p :: p in prev && p.r == inc.r && c == NewMargin(p, inc)
    decreases |prev|
  {
    if |prev| == 0 then []
    else
      var p := prev[|prev| - 1];
      assert prev == prev[..|prev| - 1] + [p];
      Matches(prev[..|prev| - 1], inc) + (if p.r == inc.r then [NewMargin(p, inc)] else [])
  }

  /** `c` pairs a previous margin with an increment of the same region. */
  ghost predicate Paired(prev: seq<PrmRow>, incs: seq<Increment>, c: Raise)
  {
    exists p, inc :: p in prev && inc in incs && p.r == inc.r && c == NewMargin(p, inc)
  }

  /** Line 398: one row per increment and previous margin of its region. */
  function Joined(prev: seq<PrmRow>, incs: seq<Increment>): (r: seq<Raise>)
    ensures forall c :: c in r <==> Paired(prev, incs, c)
  {
    var parts := seq(|incs|, i requires 0 <= i < |incs| => Matches(prev, incs[i]));
    var r := Flatten(parts);
    forall c ensures c in r <==> Paired(prev, incs, c) {
      JoinedAt(prev, incs, parts, c);
    }
    r
  }

  lemma JoinedAt(prev: seq<PrmRow>, incs: seq<Increment>, parts: seq<seq<Raise>>, c: Raise)
    requires |parts| == |incs| && forall i :: 0 <= i < |incs| ==> parts[i] == Matches(prev, incs[i])
    ensures c in Flatten(parts) <==> Paired(prev, incs, c)
  {
    var r := Flatten(parts);
    if Paired(prev, incs, c) {
      var p, inc :| p in prev && inc in incs && p.r == inc.r && c == NewMargin(p, inc);
      var i :| 0 <= i < |incs| && incs[i] == inc;
      assert c in parts[i];
      var k :| 0 <= k < |parts[i]| && parts[i][k] == c;
    }
    if c in r {
      var j :| 0 <= j < |r| && r[j] == c;
      var i :| 0 <= i < |parts| && c in parts[i];
      assert c in Matches(prev, incs[i]);
      assert incs[i] in incs;
    }
  }

  /** One row of `prm_stress.csv`. */
  datatype StressPrm = StressPrm(r: string, t: int, prm: Float)

  function Written(c: Raise): StressPrm { StressPrm(c.r, c.t, c.next) }

  function StressRegion(o: StressPrm): string { o.r }

  /** `o` is the rounded sum of a previous margin and an increment of the
      same region, and it raises that margin. */
  ghost predicate RaisedFrom(prev: seq<PrmRow>, incs: seq<Increment>, o: StressPrm)
  {
    exists p, inc :: p in prev && inc in incs && p.r == inc.r
                     && Raises(NewMargin(p, inc)) && o == Written(NewMargin(p, inc))
  }

  /** Lines 398-409: the raised margins, sorted by region. */
  function NewMargins(prev: seq<PrmRow>, incs: seq<Increment>): (r: seq<StressPrm>)
    ensures SortedBy(r, StressRegion)
    ensures forall o :: o in r <==> RaisedFrom(prev, incs, o)
  {
    var joined := Joined(prev, incs);
    var kept := Filter(joined, Raises);
    var rows := seq(|kept|, k requires 0 <= k < |kept| => Written(kept[k]));
    var r := SortBy(rows, StressRegion);
    forall o ensures o in r <==> RaisedFrom(prev, incs, o) {
      assert o in r <==> o in multiset(rows);
      KeptAt(prev, incs, joined, kept, rows, o);
    }
    r
  }

  lemma KeptAt(prev: seq<PrmRow>, incs: seq<Increment>, joined: seq<Raise>, kept: seq<Raise>,
               rows: seq<StressPrm>, o: StressPrm)
    requires joined == Joined(prev, incs) && kept == Filter(joined, Raises)
    requires |rows| == |kept| && forall k :: 0 <= k < |kept| ==> rows[k] == Written(kept[k])
    ensures o in rows <==> RaisedFrom(prev, incs, o)
  {
    if o in rows {
      var k :| 0 <= k < |kept| && rows[k] == o;
      FilterMembers(joined, Raises, kept[k]);
      assert Paired(prev, incs, kept[k]);
      var p, inc :| p in prev && inc in incs && p.r == inc.r && kept[k] == NewMargin(p, inc);
    }
    if RaisedFrom(prev, incs, o) {
      var p, inc :| p in prev && inc in incs && p.r == inc.r
                    && Raises(NewMargin(p, inc)) && o == Written(NewMargin(p, inc));
      assert Paired(prev, incs, NewMargin(p, inc));
      FilterMembers(joined, Raises, NewMargin(p, inc));
      var k :| 0 <= k < |kept| && kept[k] == NewMargin(p, inc);
      assert rows[k] == o;
    }
  }

  /** Each written margin is positive and, when the previous margin is on
      the 0.001 grid, at least 0.002 above it: rounding to three decimals
      turns "more than 0.001" into "two steps or more". */
  lemma RaisedByTwoSteps(p: PrmRow, inc: Increment)
    requires Raises(NewMargin(p, inc)) && NewMargin(p, inc).next.Num?
    requires (p.prm * 1000.0).Floor as real == p.prm * 1000.0
    ensures NewMargin(p, inc).next.x > 0.0
    ensures NewMargin(p, inc).next.x >= p.prm + 0.002
  {
    var y := NewMargin(p, inc).next.x;
    assert y == Round3(p.prm + inc.value.x);
    var k := (y * 1000.0).Floor;
    var m := (p.prm * 1000.0).Floor;
    assert (y - p.prm) * 1000.0 == (k - m) as real;
    assert k - m >= 2;
  }

  /** An increment below half a step never changes a margin on the 0.001
      grid, so its region is not written. */
  lemma SmallIncrementDropped(p: PrmRow, v: real)
    requires (p.prm * 1000.0).Floor as real == p.prm * 1000.0
    requires 0.0 <= v < 0.0005
    ensures NewMargin(p, Increment(p.r, Num(v))).next == Num(p.prm)
    ensures !Raises(NewMargin(p, Increment(p.r, Num(v))))
  {
    var m := (p.prm * 1000.0).Floor;
    RoundHalfEvenUnique((p.prm + v) * 1000.0, m);
    assert Round3(p.prm + v) == m as real / 1000.0;
  }

  /** An infinite increment (zero stress-period load) is written as an
      infinite margin; a NaN one is never written. */
  lemma NonFiniteIncrements(p: PrmRow)
    ensures Raises(NewMargin(p, Increment(p.r, PosInf)))
    ensures Written(NewMargin(p, Increment(p.r, PosInf))).prm == PosInf
    ensures !Raises(NewMargin(p, Increment(p.r, NaN)))
    ensures !Raises(NewMargin(p, Increment(p.r, NegInf)))
  {
  }

  // ---------------------------------------------------------------------------
  // The whole update
  // ---------------------------------------------------------------------------

  /** The margins raised for the given failed regions: previous margins,
      increments and the raised margins, failing at the first step that
      fails. */
  function RaisedMargins(h: Hierarchy, failedRegions: Result<seq<FailedRegion>>, last: seq<PrmRow>,
                         annual: seq<AnnualPrm>, t: int, update: int, text: string, p: Pras): (r: Result<seq<StressPrm>>)
    ensures "nercr" !in h.columns ==> r == Err(KeyError("nercr"))
    ensures r.Ok? <==> "nercr" in h.columns && failedRegions.Ok? && Increments(update, text, p, failedRegions.value).Ok?
    ensures r.Ok? ==> SortedBy(r.value, StressRegion)
    ensures r.Ok? ==> forall o :: o in r.value <==>
              RaisedFrom(Previous(h, last, annual, t).value, Increments(update, text, p, failedRegions.value).value, o)
    ensures r.Ok? ==> forall o :: o in r.value ==> o.r in KeySet(failedRegions.value, RegionOfRow)
  {
    var prev :- Previous(h, last, annual, t);
    var regions :- failedRegions;
    var incs :- Increments(update, text, p, regions);
    var r := NewMargins(prev, incs);
    forall o | o in r ensures o.r in KeySet(regions, RegionOfRow) {
      WrittenRegion(update, text, p, regions, prev, incs, o);
    }
    Ok(r)
  }

  /** `update_prm` with only the criteria that failed looked up: a margin
      is written exactly when a previous margin and an increment of the same
      failed region raise it, and only regions that failed are written. */
  function Update(h: Hierarchy, failed: seq<FailedEntry>, last: seq<PrmRow>, annual: seq<AnnualPrm>,
                  t: int, update: int, text: string, p: Pras): (r: Result<seq<StressPrm>>)
    ensures "nercr" !in h.columns ==> r == Err(KeyError("nercr"))
    ensures r.Ok? <==> "nercr" in h.columns && FailedRegionsCorrected(h, failed).Ok?
                       && Increments(update, text, p, FailedRegionsCorrected(h, failed).value).Ok?
    ensures r.Ok? ==> SortedBy(r.value, StressRegion)
    ensures r.Ok? ==> forall o :: o in r.value <==>
              RaisedFrom(Previous(h, last, annual, t).value,
                         Increments(update, text, p, FailedRegionsCorrected(h, failed).value).value, o)
    ensures r.Ok? ==> forall o :: o in r.value ==> o.r in KeySet(FailedRegionsCorrected(h, failed).value, RegionOfRow)
  {
    RaisedMargins(h, FailedRegionsCorrected(h, failed), last, annual, t, update, text, p)
  }

  /** `update_prm` as written: the failed regions are looked up for every
      criterion of the switch, so the update fails with a KeyError as soon
      as the switch lists a criterion that did not fail. */
  function UpdateAsWritten(h: Hierarchy, failed: seq<FailedEntry>, setting: string, last: seq<PrmRow>,
                           annual: seq<AnnualPrm>, t: int, update: int, text: string, p: Pras): (r: Result<seq<StressPrm>>)
    ensures "nercr" !in h.columns ==> r == Err(KeyError("nercr"))
    ensures r.Ok? <==> "nercr" in h.columns && FailedRegionsAsWritten(h, failed, setting).Ok?
                       && Increments(update, text, p, FailedRegionsAsWritten(h, failed, setting).value).Ok?
    ensures r.Ok? ==> SortedBy(r.value, StressRegion)
    ensures r.Ok? ==> forall o :: o in r.value <==>
              RaisedFrom(Previous(h, last, annual, t).value,
                         Increments(update, text, p, FailedRegionsAsWritten(h, failed, setting).value).value, o)
    ensures r.Ok? ==> forall o :: o in r.value ==> o.r in KeySet(FailedRegionsAsWritten(h, failed, setting).value, RegionOfRow)
  {
    RaisedMargins(h, FailedRegionsAsWritten(h, failed, setting), last, annual, t, update, text, p)
  }

  /** With a switch of one criterion, the update as written is the update. */
  lemma UpdateAgreesOnSingleCriterion(h: Hierarchy, f: Failure, setting: string, last: seq<PrmRow>,
                                      annual: seq<AnnualPrm>, t: int, update: int, text: string, p: Pras)
    requires Criteria(setting) == [Render(f.criterion)]
    ensures UpdateAsWritten(h, FailedOf(f), setting, last, annual, t, update, text, p)
         == Update(h, FailedOf(f), last, annual, t, update, text, p)
  {
    CorrectedAgreesOnSingleCriterion(h, f, setting);
  }

  /** With a second well-formed criterion in the switch, the update as
      written never gets past the failed regions. */
  lemma UpdateAsWrittenFails(h: Hierarchy, f: Failure, setting: string, other: string, last: seq<PrmRow>,
                             annual: seq<AnnualPrm>, t: int, update: int, text: string, p: Pras)
    requires "nercr" in h.columns
    requires forall i :: 0 <= i < |Criteria(setting)| ==> Usable(h, Criteria(setting)[i])
    requires other in Criteria(setting) && other != Render(f.criterion)
    ensures UpdateAsWritten(h, FailedOf(f), setting, last, annual, t, update, text, p).Err?
    ensures UpdateAsWritten(h, FailedOf(f), setting, last, annual, t, update, text, p).error.KeyError?
  {
    AsWrittenNeedsEveryCriterion(h, f, setting, other);
  }

  lemma WrittenRegion(update: int, text: string, p: Pras, regions: seq<FailedRegion>,
                      prev: seq<PrmRow>, incs: seq<Increment>, o: StressPrm)
    requires Increments(update, text, p, regions) == Ok(incs)
    requires RaisedFrom(prev, incs, o)
    ensures o.r in KeySet(regions, RegionOfRow)
  {
    var q, inc :| q in prev && inc in incs && q.r == inc.r
                  && Raises(NewMargin(q, inc)) && o == Written(NewMargin(q, inc));
    var j :| 0 <= j < |incs| && incs[j] == inc;
    if update == 1 {
      assert RegionOfRow(regions[j]) == o.r;
    } else {
      var i :| 0 <= i < |regions| && incs[j] in RegionIncrements(p, regions[i]);
      var rs := RegionIncrements(p, regions[i]);
      var k :| 0 <= k < |rs| && rs[k] == inc;
      assert RegionOfRow(regions[i]) == o.r;
    }
  }
}
