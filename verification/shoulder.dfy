/** The shoulder stress periods of ReEDS_Augur/stress_periods.py 445-579:
    after a criterion fails, the day before and the day after each new
    stress day are added too when storage was low at the start or the end
    of that day. */
module Shoulder {
  import opened Wrappers
  import opened Seqs
  import opened Text
  import opened Frames
  import opened Calendar
  import opened StressMetric
  import opened Floats

  // ---------------------------------------------------------------------------
  // Settings
  // ---------------------------------------------------------------------------

  /** `GSw_PRM_StressStorageCutoff.lower() in ['off','0','false']`. */
  predicate IsOff(setting: string)
  {
    Lower(setting) in ["off", "0", "false"]
  }

  /** The storage cutoff, e.g. 'eue_1' or 'cap_0.5': a type and a number. */
  datatype Policy = Policy(cutType: string, cutoff: string)

  /** `setting.lower().split('_')` unpacked into type and cutoff. */
  function ParsePolicy(setting: string): (r: Result<Policy>)
    ensures r.Ok? <==> |Split(Lower(setting), "_")| == 2
    ensures r.Ok? ==> r.value.cutType + "_" + r.value.cutoff == Lower(setting)
    ensures r.Ok? ==> '_' !in r.value.cutType && '_' !in r.value.cutoff
    ensures r.Err? ==> r.error.ValueError?
  {
    var text := Lower(setting);
    var parts := Split(text, "_");
    if |parts| == 2 then
      JoinSplit(text, "_");
      assert Join(parts, "_") == parts[0] + "_" + parts[1];
      SplitPiecesLackChar(text, '_');
      Ok(Policy(parts[0], parts[1]))
    else if |parts| < 2 then Err(ValueError("not enough values to unpack"))
    else Err(ValueError("too many values to unpack"))
  }

  /** Line 533: the hours in one period of `GSw_HourlyType`; another
      resolution is a KeyError. */
  function PeriodHours(hourlyType: string): (r: Result<nat>)
    ensures r.Ok? <==> hourlyType in ["day", "wek", "year"]
    ensures r.Ok? ==> r.value % 24 == 0 && (r.value == 120 <==> hourlyType == "wek")
    ensures r.Err? ==> r.error == KeyError(hourlyType)
  {
    if hourlyType == "day" || hourlyType == "year" then Ok(24)
    else if hourlyType == "wek" then Ok(24 * 5)
    else Err(KeyError(hourlyType))
  }

  // ---------------------------------------------------------------------------
  // Storage energy by region
  // ---------------------------------------------------------------------------

  /** A storage unit's column is named '<unit>|<region>'. */
  predicate HasRegionPart(name: string)
  {
    |Split(name, "|")| >= 2
  }

  /** The region part of a unit's column name, `name.split('|')[1]`. */
  function UnitRegion(name: string): string
  {
    var parts := Split(name, "|");
    if |parts| >= 2 then parts[1] else name
  }

  function UnitRegionOf(): string -> string
  {
    name => UnitRegion(name)
  }

  /** Lines 451-456: each unit's energy renamed to its region and summed by
      region. Building the rename map reads the region part of every column
      first, so one name without '|' is an IndexError. */
  function EnergyByRegion(units: Frame, n: nat): (r: Result<Frame>)
    requires Rect(units, n)
    ensures r.Ok? <==> forall k :: 0 <= k < |units| ==> HasRegionPart(units[k].name)
    ensures r.Err? ==> r.error.IndexError?
    ensures r.Ok? ==> Rect(r.value, n)
                      && Names(r.value) == DedupBy(Renamed(units, UnitRegionOf()), Id)
    ensures r.Ok? ==> forall h :: 0 <= h < n ==> Sum(At(r.value, h)) == Sum(At(units, h))
  {
    if forall k :: 0 <= k < |units| ==> HasRegionPart(units[k].name) then
      var rolled := RollUp(units, UnitRegionOf(), n);
      forall h | 0 <= h < n
        ensures Sum(At(rolled, h)) == Sum(At(units, h))
      {
        RollUpConservesTotal(units, UnitRegionOf(), n, h);
      }
      Ok(rolled)
    else Err(IndexError("list index out of range"))
  }

  /** Lines 536-539: `hierarchy[level]` is a column of the hierarchy table,
      so the region level itself, which is the table's index, is a KeyError. */
  function EnergyAtLevel(h: Hierarchy, level: string, energy: Frame, n: nat): (r: Result<Frame>)
    requires Rect(energy, n)
    ensures r.Ok? <==> level in h.columns
    ensures r.Err? ==> r.error == KeyError(level)
    ensures r.Ok? ==> Rect(r.value, n)
                      && Names(r.value) == DedupBy(Renamed(energy, Renamer(h.columns[level])), Id)
    ensures r.Ok? ==> forall t :: 0 <= t < n ==> Sum(At(r.value, t)) == Sum(At(energy, t))
  {
    if level in h.columns then
      var rolled := RollUp(energy, Renamer(h.columns[level]), n);
      forall t | 0 <= t < n
        ensures Sum(At(rolled, t)) == Sum(At(energy, t))
      {
        RollUpConservesTotal(energy, Renamer(h.columns[level]), n, t);
      }
      Ok(rolled)
    else Err(KeyError(level))
  }

  // ---------------------------------------------------------------------------
  // Headspace
  // ---------------------------------------------------------------------------

  /** Line 540: how far below its highest level a column is at hour `t`. */
  function Headspace(vals: seq<real>, t: nat): (r: real)
    requires t < |vals|
    ensures r >= 0.0
    ensures r == 0.0 <==> forall u :: 0 <= u < |vals| ==> vals[u] <= vals[t]
  {
    Max(vals) - vals[t]
  }

  /** Line 541: the headspace as a share of the column's highest level. */
  function HeadspaceShare(vals: seq<real>, t: nat): (r: Float)
    requires t < |vals|
  {
    Div(Headspace(vals, t), Max(vals))
  }

  /** Energy that is never negative and not always zero has a headspace
      share between 0 and 1. */
  lemma HeadspaceShareBounded(vals: seq<real>, t: nat)
    requires t < |vals|
    requires forall u :: 0 <= u < |vals| ==> vals[u] >= 0.0
    requires exists u :: 0 <= u < |vals| && vals[u] > 0.0
    ensures HeadspaceShare(vals, t).Num?
    ensures 0.0 <= HeadspaceShare(vals, t).x <= 1.0
  {
    var m := Max(vals);
    var hs := Headspace(vals, t);
    var u :| 0 <= u < |vals| && vals[u] > 0.0;
    assert m > 0.0;
    assert hs <= m;
    DivBound(hs, m, 1.0);
    DivNonNegative(hs, m);
  }

  lemma DivNonNegative(a: real, b: real)
    requires a >= 0.0 && b > 0.0
    ensures a / b >= 0.0
  {
  }

  /** A storage level that never changes leaves no headspace at any hour. */
  lemma ConstantLevelNoShoulderRoom(vals: seq<real>, t: nat)
    requires t < |vals|
    requires forall u :: 0 <= u < |vals| ==> vals[u] == vals[t]
    ensures Headspace(vals, t) == 0.0
  {
  }

  // ---------------------------------------------------------------------------
  // The hours of a day and the neighbouring periods
  // ---------------------------------------------------------------------------

  /** The first hour of day `d` in the time index. */
  function FirstHour(times: seq<Date>, d: Date): (r: nat)
    requires d in times
    ensures r < |times| && times[r] == d
    ensures forall j :: 0 <= j < r ==> times[j] != d
    decreases |times|
  {
    if times[0] == d then 0 else 1 + FirstHour(times[1..], d)
  }

  /** The last hour of day `d` in the time index. */
  function LastHour(times: seq<Date>, d: Date): (r: nat)
    requires d in times
    ensures r < |times| && times[r] == d
    ensures forall j :: r < j < |times| ==> times[j] != d
    decreases |times|
  {
    if times[|times| - 1] == d then |times| - 1
    else
      assert d in times[..|times| - 1] by {
        var j :| 0 <= j < |times| && times[j] == d;
        assert times[..|times| - 1][j] == d;
      }
      LastHour(times[..|times| - 1], d)
  }

  /** `timeindex[i - p]` with Python's indexing: a negative index counts from
      the end, so the period before the first one is the last one; an index
      below `-n` is an IndexError. */
  function BeforeIndex(i: nat, p: nat, n: nat): (r: Result<nat>)
    requires i < n
    ensures r.Ok? <==> p <= i + n
    ensures r.Ok? ==> r.value < n && (r.value + p) % n == i
    ensures r.Err? ==> r.error.IndexError?
  {
    if p <= i then Ok(i - p)
    else if p <= i + n then
      assert (n + i - p + p) % n == i by {
        assert n + i - p + p == n + i;
        ModAddPeriod(i, n);
      }
      Ok(n + i - p)
    else Err(IndexError("index out of bounds"))
  }

  lemma ModAddPeriod(i: nat, n: nat)
    requires i < n
    ensures (n + i) % n == i
  {
  }

  /** `timeindex[(i + p) % n]`: the period after the last one wraps around
      to the first. */
  function AfterIndex(i: nat, p: nat, n: nat): (r: nat)
    requires i < n
    ensures r < n && r == (i + p) % n
  {
    (i + p) % n
  }

  /** Stepping one period back from the period after `i` returns to `i`
      whenever a period is no longer than the time index. */
  lemma BeforeAfter(i: nat, p: nat, n: nat)
    requires i < n && p <= n
    ensures BeforeIndex(AfterIndex(i, p, n), p, n) == Ok(i)
  {
    var a := AfterIndex(i, p, n);
    if i + p < n {
      ModSmall(i + p, n);
      assert a == i + p;
      assert p <= a;
    } else {
      ModOnce(i + p, n);
      assert a == i + p - n;
      assert !(p <= a) && p <= a + n;
    }
  }

  lemma ModSmall(x: nat, n: nat)
    requires x < n
    ensures x % n == x
  {
  }

  lemma ModOnce(x: nat, n: nat)
    requires n <= x < 2 * n
    ensures x % n == x - n
  {
  }

  /** Stepping one period forward from the period before `i` returns to `i`. */
  lemma AfterBefore(i: nat, p: nat, n: nat)
    requires i < n && p <= i + n
    ensures AfterIndex(BeforeIndex(i, p, n).value, p, n) == i
  {
  }

  // ---------------------------------------------------------------------------
  // The shoulder test and the shoulders of one day
  // ---------------------------------------------------------------------------

  /** A new stress period: its label, its date and the region it was added
      for. */
  datatype Added = Added(period: string, day: Date, region: string)

  /** The first three characters, `s[:3]`. */
  function Prefix3(s: string): string
  {
    if |s| <= 3 then s else s[..3]
  }

  /** Lines 558-562 and 570-574, evaluated left to right: an 'eue' cutoff
      compares the headspace in MWh per MWh of the day's EUE, a 'cap…'
      cutoff compares the headspace share, an 'abs…' cutoff always adds the
      shoulder, anything else never does. The cutoff is read as a number
      only when the type needs it. */
  function Wanted(policy: Policy, mwh: real, share: Float, dayEue: real): (r: Result<bool>)
    ensures policy.cutType == "eue" ==>
              r == (var c :- ToFloat(policy.cutoff); Ok(AtLeast(Div(mwh, dayEue), c)))
    ensures Prefix3(policy.cutType) == "cap" ==>
              r == (var c :- ToFloat(policy.cutoff); Ok(AtLeast(share, c)))
    ensures Prefix3(policy.cutType) == "abs" ==> r == Ok(true)
    ensures policy.cutType != "eue" && Prefix3(policy.cutType) !in ["cap", "abs"] ==> r == Ok(false)
  {
    if policy.cutType == "eue" then
      var c :- ToFloat(policy.cutoff);
      Ok(AtLeast(Div(mwh, dayEue), c))
    else if Prefix3(policy.cutType) == "cap" then
      var c :- ToFloat(policy.cutoff);
      Ok(AtLeast(share, c))
    else Ok(Prefix3(policy.cutType) == "abs")
  }

  /** The shoulder period at hour `t` for `region`, labelled 'y%Yd%j'. */
  function ShoulderAt(times: seq<Date>, t: nat, region: string): (r: Added)
    requires t < |times| && ValidDate(times[t])
    ensures r.day == times[t] && r.region == region
  {
    Added(Label(times[t]), times[t], region)
  }

  ghost predicate AllValid(times: seq<Date>)
  {
    forall t :: 0 <= t < |times| ==> ValidDate(times[t])
  }

  /** The day's shoulders as `x` implies them, given the lookups succeed:
      the period after, then the period before. */
  ghost predicate Shoulders(times: seq<Date>, before: nat, after: nat, x: StressDay, out: seq<Added>)
    requires before < |times| && after < |times|
  {
    && |out| <= 2
    && (forall j :: 0 <= j < |out| ==> out[j].region == x.region && Labelled(out[j]))
    && (forall j :: 0 <= j < |out| ==> out[j].day == times[after] || out[j].day == times[before])
    && (|out| == 2 ==> out[0].day == times[after] && out[1].day == times[before])
  }

  /** The period carries the 'y%Yd%j' label of its date. */
  ghost predicate Labelled(a: Added)
  {
    ValidDate(a.day) && a.period == Label(a.day)
  }

  /** Lines 543-579 for one new stress day `x`: a region without storage is
      skipped; otherwise the day is looked up in the time index (a KeyError
      if absent) and the day's EUE is read from the row's `EUE` field (an
      AttributeError when the metric column is named otherwise). */
  function DayShoulders(policy: Policy, p: nat, agg: Frame, times: seq<Date>,
                        metricText: string, x: StressDay): (r: Result<seq<Added>>)
    requires |times| > 0 && Rect(agg, |times|) && AllValid(times)
    ensures x.region !in Names(agg) ==> r == Ok([])
    ensures x.region in Names(agg) && x.day !in times ==> r.Err? && r.error.KeyError?
    ensures x.region in Names(agg) && x.day in times && metricText != "EUE" ==>
              r == Err(AttributeError("EUE"))
    ensures r.Ok? && |r.value| > 0 ==>
              && x.day in times && p <= FirstHour(times, x.day) + |times|
              && var first := FirstHour(times, x.day);
                 Shoulders(times, BeforeIndex(first, p, |times|).value, AfterIndex(first, p, |times|), x, r.value)
    ensures Prefix3(policy.cutType) == "abs" && x.region in Names(agg) && x.day in times
            && metricText == "EUE" && p <= FirstHour(times, x.day) + |times| ==>
              r.Ok? && |r.value| == 2
    ensures policy.cutType != "eue" && Prefix3(policy.cutType) !in ["cap", "abs"] && r.Ok? ==>
              r.value == []
  {
    match IndexOf(Names(agg), x.region)
    case None => Ok([])
    case Some(k) =>
      if x.day !in times then Err(KeyError(if ValidDate(x.day) then IsoDate(x.day) else ""))
      else
        var dayEue :- if metricText == "EUE" then Ok(x.value) else Err(AttributeError("EUE"));
        StorageShoulders(policy, p, agg[k].values, times, x, dayEue)
  }

  /** The period before is indexed first, then the two tests run: the end of
      the day decides the period after, its start the period before. */
  function StorageShoulders(policy: Policy, p: nat, vals: seq<real>, times: seq<Date>,
                            x: StressDay, dayEue: real): (r: Result<seq<Added>>)
    requires |vals| == |times| && AllValid(times) && x.day in times
    ensures r.Ok? ==>
              && p <= FirstHour(times, x.day) + |times|
              && var first := FirstHour(times, x.day);
                 Shoulders(times, BeforeIndex(first, p, |times|).value, AfterIndex(first, p, |times|), x, r.value)
    ensures p > FirstHour(times, x.day) + |times| ==> r.Err? && r.error.IndexError?
    ensures Prefix3(policy.cutType) == "abs" && p <= FirstHour(times, x.day) + |times| ==>
              r.Ok? && |r.value| == 2
    ensures policy.cutType != "eue" && Prefix3(policy.cutType) !in ["cap", "abs"] && r.Ok? ==>
              r.value == []
  {
    var first := FirstHour(times, x.day);
    var last := LastHour(times, x.day);
    var before :- BeforeIndex(first, p, |times|);
    var after := AfterIndex(first, p, |times|);
    var wantAfter :- Wanted(policy, Headspace(vals, last), HeadspaceShare(vals, last), dayEue);
    var wantBefore :- Wanted(policy, Headspace(vals, first), HeadspaceShare(vals, first), dayEue);
    var out := (if wantAfter then [ShoulderAt(times, after, x.region)] else [])
               + (if wantBefore then [ShoulderAt(times, before, x.region)] else []);
    assert Shoulders(times, before, after, x, out);
    Ok(out)
  }

  /** The new stress days' shoulders, day by day in the order of the
      selection. */
  function AllShoulders(policy: Policy, p: nat, agg: Frame, times: seq<Date>,
                        metricText: string, rows: seq<StressDay>): (r: Result<seq<Added>>)
    requires |times| > 0 && Rect(agg, |times|) && AllValid(times)
    ensures r.Ok? ==> |r.value| <= 2 * |rows|
    ensures r.Ok? ==> forall j :: 0 <= j < |r.value| ==>
              Labelled(r.value[j]) && r.value[j].day in times && r.value[j].region in Names(agg)
    ensures r.Ok? && |r.value| > 0 ==> metricText == "EUE"
    ensures policy.cutType != "eue" && Prefix3(policy.cutType) !in ["cap", "abs"] && r.Ok? ==>
              r.value == []
    decreases |rows|
  {
    if |rows| == 0 then Ok([])
    else
      var earlier :- AllShoulders(policy, p, agg, times, metricText, rows[..|rows| - 1]);
      var last :- DayShoulders(policy, p, agg, times, metricText, rows[|rows| - 1]);
      ShoulderFacts(policy, p, agg, times, metricText, rows[|rows| - 1], last);
      Ok(earlier + last)
  }

  lemma ShoulderFacts(policy: Policy, p: nat, agg: Frame, times: seq<Date>,
                      metricText: string, x: StressDay, out: seq<Added>)
    requires |times| > 0 && Rect(agg, |times|) && AllValid(times)
    requires DayShoulders(policy, p, agg, times, metricText, x) == Ok(out)
    ensures |out| <= 2
    ensures forall j :: 0 <= j < |out| ==> Labelled(out[j]) && out[j].day in times && out[j].region in Names(agg)
    ensures |out| > 0 ==> metricText == "EUE" && x.region in Names(agg)
  {
    if |out| > 0 {
      var first := FirstHour(times, x.day);
      var before, after := BeforeIndex(first, p, |times|).value, AfterIndex(first, p, |times|);
      assert Shoulders(times, before, after, x, out);
      forall j | 0 <= j < |out|
        ensures out[j].day in times
      {
        assert out[j].day == times[after] || out[j].day == times[before];
      }
    }
  }

  /** Lines 519-579 for the failed criterion: nothing when the cutoff is off
      or there is no storage; otherwise the cutoff, the period length and the
      storage energy at the criterion's level, then the shoulders of every
      new stress day. */
  function Expand(setting: string, hourlyType: string, h: Hierarchy, level: string,
                  energy: Frame, times: seq<Date>, metricText: string,
                  rows: seq<StressDay>): (r: Result<seq<Added>>)
    requires Rect(energy, |times|) && AllValid(times)
    ensures IsOff(setting) ==> r == Ok([])
    ensures !IsOff(setting) && (|energy| == 0 || |times| == 0) ==> r == Ok([])
    ensures !IsOff(setting) && |energy| > 0 && |times| > 0 && |Split(Lower(setting), "_")| != 2 ==>
              r.Err? && r.error.ValueError?
    ensures r.Ok? && |r.value| > 0 ==>
              && |Split(Lower(setting), "_")| == 2
              && hourlyType in ["day", "wek", "year"]
              && level in h.columns
              && metricText == "EUE"
    ensures r.Ok? ==> |r.value| <= 2 * |rows|
    ensures r.Ok? ==> forall j :: 0 <= j < |r.value| ==> Labelled(r.value[j]) && r.value[j].day in times
  {
    if IsOff(setting) then Ok([])
    else if |energy| == 0 || |times| == 0 then Ok([])
    else
      var policy :- ParsePolicy(setting);
      var p :- PeriodHours(hourlyType);
      var agg :- EnergyAtLevel(h, level, energy, |times|);
      AllShoulders(policy, p, agg, times, metricText, rows)
  }

  /** How many of `rows` are in a region that has storage. */
  function WithStorage(rows: seq<StressDay>, names: seq<string>): (c: nat)
    ensures c <= |rows|
    decreases |rows|
  {
    if |rows| == 0 then 0
    else WithStorage(rows[..|rows| - 1], names) + (if rows[|rows| - 1].region in names then 1 else 0)
  }

  /** Under an 'abs' cutoff every new stress day in a region with storage
      gets both shoulders, whatever the storage level. */
  lemma {:induction false} AbsAddsBothShoulders(policy: Policy, p: nat, agg: Frame, times: seq<Date>,
                                                rows: seq<StressDay>)
    requires |times| > 0 && Rect(agg, |times|) && AllValid(times)
    requires Prefix3(policy.cutType) == "abs" && p <= |times|
    requires forall i :: 0 <= i < |rows| ==> rows[i].day in times
    ensures AllShoulders(policy, p, agg, times, "EUE", rows).Ok?
    ensures |AllShoulders(policy, p, agg, times, "EUE", rows).value| == 2 * WithStorage(rows, Names(agg))
    decreases |rows|
  {
    if |rows| > 0 {
      var x := rows[|rows| - 1];
      AbsAddsBothShoulders(policy, p, agg, times, rows[..|rows| - 1]);
      var d := DayShoulders(policy, p, agg, times, "EUE", x);
      assert d.Ok? && |d.value| == (if x.region in Names(agg) then 2 else 0);
    }
  }
}
