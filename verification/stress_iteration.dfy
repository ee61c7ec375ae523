/** One stress-period iteration of ReEDS_Augur/stress_periods.py `main`
    (459-661): the criteria are checked in order until one fails, the failed
    criterion's new stress days and their shoulders become the next
    iteration's stress periods, and the switch `GSw_PRM_StressUpdate`
    decides whether the reserve margin is updated. */
module StressIteration {
  import opened Wrappers
  import opened Seqs
  import opened Text
  import opened Frames
  import opened Calendar
  import opened StressMetric
  import opened Neue
  import opened Selection
  import opened Shoulder

  // ---------------------------------------------------------------------------
  // Period labels
  // ---------------------------------------------------------------------------

  /** The fields of a period label: `label.strip('sy').split(p)`. */
  function LabelParts(period: string, p: char): (r: seq<string>)
    ensures |r| >= 1
  {
    Split(Strip(period, "sy"), [p])
  }

  /** Line 597: the year of a period label, `int(parts[0])`. */
  function LabelYear(period: string, p: char): (r: Result<int>)
    ensures r.Err? ==> r.error.ValueError?
  {
    var first := LabelParts(period, p)[0];
    match ParseInt(first)
    case None => Err(ValueError(first))
    case Some(y) => Ok(y)
  }

  /** Line 599: the period within the year, `int(parts[1])`; a label without
      the separator has no second field. */
  function LabelIndex(period: string, p: char): (r: Result<int>)
    ensures |LabelParts(period, p)| < 2 <==> r.Err? && r.error.IndexError?
  {
    var parts := LabelParts(period, p);
    if |parts| < 2 then Err(IndexError("list index out of range"))
    else
      match ParseInt(parts[1])
      case None => Err(ValueError(parts[1]))
      case Some(i) => Ok(i)
  }

  /** The label of a day without the leading 'y'. */
  lemma StripLabel(d: Date)
    requires ValidDate(d)
    ensures Strip(Label(d), "sy") == NatToString(d.year as nat) + "d" + Pad(NatToString(DayOfYear(d)), 3)
  {
    var a := NatToString(d.year as nat);
    var b := Pad(NatToString(DayOfYear(d)), 3);
    var t := a + "d" + b;
    assert Label(d) == ['y'] + t;
    assert IsDigit(a[0]) && IsDigit(b[|b| - 1]);
    assert t[0] == a[0] && t[|t| - 1] == b[|b| - 1];
    StripMarker('y', t, "sy");
  }

  /** A day's 'y%Yd%j' label reads back, in the day resolution, as its year
      and its day of the year. */
  lemma DayLabelRoundTrip(d: Date)
    requires ValidDate(d)
    ensures LabelYear(Label(d), 'd') == Ok(d.year)
    ensures LabelIndex(Label(d), 'd') == Ok(DayOfYear(d) as int)
  {
    var a := NatToString(d.year as nat);
    var b := Pad(NatToString(DayOfYear(d)), 3);
    StripLabel(d);
    NoDigitIsLetter(a, 'd');
    NoDigitIsLetter(b, 'd');
    SplitPair(a, b, 'd');
    assert LabelParts(Label(d), 'd') == [a, b];
    ParseIntSigned(d.year as nat);
    NatToStringRoundTrip(DayOfYear(d));
    ParseDigits(b);
  }

  lemma NoDigitIsLetter(s: string, c: char)
    requires forall i :: 0 <= i < |s| ==> IsDigit(s[i])
    requires !IsDigit(c)
    ensures c !in s
  {
  }

  /** In the week resolution the separator is 'w', which a day label does
      not contain: its year field is the whole label, which is not a number. */
  lemma WeekModeRejectsDayLabel(d: Date)
    requires ValidDate(d)
    ensures LabelYear(Label(d), 'w').Err? && LabelYear(Label(d), 'w').error.ValueError?
  {
    var a := NatToString(d.year as nat);
    var b := Pad(NatToString(DayOfYear(d)), 3);
    var t := a + "d" + b;
    StripLabel(d);
    DigitsAroundD(a, b);
    NoCharNoFind(t, 'w');
    assert LabelParts(Label(d), 'w') == [t];
  }

  /** Two digit runs joined by 'd' hold no 'w' and are not a number. */
  lemma DigitsAroundD(a: string, b: string)
    requires IsDigits(a) && IsDigits(b)
    ensures 'w' !in a + "d" + b
    ensures ParseInt(a + "d" + b).None?
  {
    var t := a + "d" + b;
    forall i | 0 <= i < |t| ensures t[i] != 'w' {
      if i < |a| { assert t[i] == a[i]; }
      else if i > |a| { assert t[i] == b[i - |a| - 1]; }
    }
    assert t[0] == a[0] && IsDigit(a[0]);
    assert t[|a|] == 'd';
  }

  /** A new stress period as written to `period_szn.csv`. */
  datatype PeriodRow = PeriodRow(repPeriod: string, year: int, yperiod: int, actualPeriod: string)

  /** The separator of period labels: 'w' in the week resolution, else 'd'. */
  function Separator(hourlyType: string): char
  {
    if hourlyType == "wek" then 'w' else 'd'
  }

  function YearField(p: char): string -> Result<int>
  {
    period => LabelYear(period, p)
  }

  function IndexField(p: char): string -> Result<int>
  {
    period => LabelIndex(period, p)
  }

  /** Lines 594-601: one row per new period; every year is read before any
      period index, so a bad year anywhere is reported first. */
  function PeriodRows(labels: seq<string>, hourlyType: string): (r: Result<seq<PeriodRow>>)
    ensures r.Ok? <==> forall i :: 0 <= i < |labels| ==>
              LabelYear(labels[i], Separator(hourlyType)).Ok? && LabelIndex(labels[i], Separator(hourlyType)).Ok?
    ensures (exists i :: 0 <= i < |labels| && LabelYear(labels[i], Separator(hourlyType)).Err?) ==>
              r.Err? && r.error.ValueError?
    ensures r.Ok? ==> |r.value| == |labels|
    ensures r.Ok? ==> forall i :: 0 <= i < |labels| ==>
              && r.value[i].repPeriod == labels[i] && r.value[i].actualPeriod == labels[i]
              && Ok(r.value[i].year) == LabelYear(labels[i], Separator(hourlyType))
              && Ok(r.value[i].yperiod) == LabelIndex(labels[i], Separator(hourlyType))
  {
    var p := Separator(hourlyType);
    var years :- MapAll(labels, YearField(p));
    var yperiods :- MapAll(labels, IndexField(p));
    Ok(seq(|labels|, i requires 0 <= i < |labels| => PeriodRow(labels[i], years[i], yperiods[i], labels[i])))
  }

  /** Day labels always make rows in the day resolution. */
  lemma DayLabelsMakeRows(days: seq<Date>, hourlyType: string, labels: seq<string>)
    requires hourlyType != "wek"
    requires |labels| == |days|
    requires forall i :: 0 <= i < |days| ==> ValidDate(days[i]) && labels[i] == Label(days[i])
    ensures PeriodRows(labels, hourlyType).Ok?
    ensures forall i :: 0 <= i < |days| ==>
              && PeriodRows(labels, hourlyType).value[i].year == days[i].year
              && PeriodRows(labels, hourlyType).value[i].yperiod == DayOfYear(days[i]) as int
  {
    assert Separator(hourlyType) == 'd';
    DayLabelsRead(days, labels);
  }

  lemma DayLabelsRead(days: seq<Date>, labels: seq<string>)
    requires |labels| == |days|
    requires forall i :: 0 <= i < |days| ==> ValidDate(days[i]) && labels[i] == Label(days[i])
    ensures forall i :: 0 <= i < |days| ==>
              LabelYear(labels[i], 'd') == Ok(days[i].year) && LabelIndex(labels[i], 'd') == Ok(DayOfYear(days[i]) as int)
  {
    forall i | 0 <= i < |days|
      ensures LabelYear(labels[i], 'd') == Ok(days[i].year)
      ensures LabelIndex(labels[i], 'd') == Ok(DayOfYear(days[i]) as int)
    {
      DayLabelRoundTrip(days[i]);
    }
  }

  /** In the week resolution one day label among the new periods is enough
      to make writing them a ValueError. */
  lemma WeekModeRejectsDayLabels(labels: seq<string>, d: Date)
    requires ValidDate(d) && Label(d) in labels
    ensures PeriodRows(labels, "wek").Err? && PeriodRows(labels, "wek").error.ValueError?
  {
    WeekModeRejectsDayLabel(d);
  }

  // ---------------------------------------------------------------------------
  // Checking one criterion
  // ---------------------------------------------------------------------------

  /** What one solve year and iteration provides: the hierarchy, hourly EUE
      and load by model region, the time index, the label of each day's
      period, the annual NEUE table, the labels of the current stress
      periods, the stress-period switches and the storage energy by region. */
  datatype Context = Context(
    h: Hierarchy, eue: Frame, load: Frame, times: seq<Date>, periodOf: Date -> string,
    neue: seq<NeueRow>, existing: set<string>, increment: nat,
    storageCutoff: string, hourlyType: string, energy: Frame)

  /** Every hourly table covers the time index, EUE and load have the same
      regions, load is positive, and every hour is a date pandas can hold. */
  ghost predicate WellFormed(ctx: Context)
  {
    && Rect(ctx.eue, |ctx.times|) && Rect(ctx.load, |ctx.times|) && Names(ctx.eue) == Names(ctx.load)
    && (forall k :: 0 <= k < |ctx.load| ==> Positive(ctx.load[k].values))
    && Rect(ctx.energy, |ctx.times|) && AllValid(ctx.times)
  }

  /** A failed criterion: the NEUE rows over its threshold, its new stress
      days and their shoulders. */
  datatype Failure = Failure(criterion: Criterion, over: seq<NeueRow>,
                             high: seq<StressDay>, shoulders: seq<Added>)

  /** Lines 480-483: `neue[level][agg]` and then `float(ppm)`; the rows over
      the threshold. */
  function OverThreshold(neue: seq<NeueRow>, c: Criterion): (r: Result<seq<NeueRow>>)
    ensures !HasLevel(neue, c.level) ==> r == Err(KeyError(c.level))
    ensures HasLevel(neue, c.level) && !HasMetric(neue, c.level, c.agg) ==> r == Err(KeyError(c.agg))
    ensures HasLevel(neue, c.level) && HasMetric(neue, c.level, c.agg) ==>
              (r.Ok? <==> ParseDecimal(c.ppm).Some?)
    ensures r.Ok? ==> forall x :: x in r.value <==>
              x in neue && x.level == c.level && AggName(x.agg) == c.agg && x.value > ParseDecimal(c.ppm).value
  {
    if !HasLevel(neue, c.level) then Err(KeyError(c.level))
    else if !HasMetric(neue, c.level, c.agg) then Err(KeyError(c.agg))
    else
      var threshold :- ToFloat(c.ppm);
      Exceeding(neue, c.level, c.agg, threshold)
  }

  /** The regions of the rows over the threshold (`failed[criterion].index`). */
  function FailedRegions(over: seq<NeueRow>): (r: set<string>)
    ensures forall g :: g in r <==> exists i :: 0 <= i < |over| && over[i].region == g
  {
    set i | 0 <= i < |over| :: over[i].region
  }

  /** Lines 465-579 for one criterion: the criterion is unpacked, its daily
      stress table computed and its threshold tested; when some region is
      over, the new stress days and their shoulders are chosen. `None` means
      the criterion passed. */
  function Check(ctx: Context, text: string): (r: Result<Option<Failure>>)
    requires WellFormed(ctx)
    ensures |Split(text, "_")| != 4 ==> r.Err? && r.error.ValueError?
    ensures r.Ok? ==> ParseCriterion(text).Ok?
    ensures r == Ok(None) ==>
              var c := ParseCriterion(text).value;
              ParseDecimal(c.ppm).Some? &&
              forall x :: x in ctx.neue && x.level == c.level && AggName(x.agg) == c.agg ==>
                x.value <= ParseDecimal(c.ppm).value
    ensures r.Ok? && r.value.Some? ==> Failed(ctx, text, r.value.value)
  {
    var c :- ParseCriterion(text);
    var periods :- StressPeriods(ctx.h, ctx.eue, ctx.load, ctx.times, c.level, c.metric, c.agg, ctx.periodOf);
    var over :- OverThreshold(ctx.neue, c);
    if |over| == 0 then
      NothingOver(ctx.neue, c, over);
      Ok(None)
    else
      var f :- NewFailure(ctx, c, periods, over);
      Ok(Some(f))
  }

  /** With no row over the threshold, every row of the criterion's level and
      aggregation is at most the threshold. */
  lemma NothingOver(neue: seq<NeueRow>, c: Criterion, over: seq<NeueRow>)
    requires OverThreshold(neue, c) == Ok(over) && |over| == 0
    ensures ParseDecimal(c.ppm).Some?
    ensures forall x :: x in neue && x.level == c.level && AggName(x.agg) == c.agg ==>
              x.value <= ParseDecimal(c.ppm).value
  {
    forall x | x in neue && x.level == c.level && AggName(x.agg) == c.agg
      ensures x.value <= ParseDecimal(c.ppm).value
    {
      assert x !in over;
    }
  }

  /** Lines 520-579: the new stress days of the failed regions and their
      shoulders. */
  function NewFailure(ctx: Context, c: Criterion, periods: seq<StressDay>, over: seq<NeueRow>): (r: Result<Failure>)
    requires WellFormed(ctx) && |over| > 0
    ensures r.Ok? ==> Failed(ctx, Render(c), r.value)
  {
    var high := SelectNew(periods, FailedRegions(over), ctx.existing, ctx.increment);
    var shoulders :- Expand(ctx.storageCutoff, ctx.hourlyType, ctx.h, c.level, ctx.energy,
                            ctx.times, c.metric, high);
    Ok(Failure(c, over, high, shoulders))
  }

  /** What a failure reports: the criterion as written, at least one row
      over its threshold, new stress days only in those rows' regions and
      never already stress periods, at most `increment` of them per region,
      and at most two shoulders per new day. */
  ghost predicate Failed(ctx: Context, text: string, f: Failure)
  {
    && Render(f.criterion) == text
    && |f.over| > 0
    && (forall i :: 0 <= i < |f.high| ==>
          f.high[i].region in FailedRegions(f.over) && f.high[i].period !in ctx.existing)
    && (forall g :: |OfGroup(f.high, RegionOf, g)| <= ctx.increment)
    && |f.shoulders| <= 2 * |f.high|
    && (forall j :: 0 <= j < |f.shoulders| ==> Labelled(f.shoulders[j]))
  }

  // ---------------------------------------------------------------------------
  // The criteria loop
  // ---------------------------------------------------------------------------

  /** Lines 465-585: the criteria in order; the first error stops the loop,
      and so does the first failed criterion. The result is that failure,
      or `None` when every criterion passed. */
  method FirstFailure(ctx: Context, criteria: seq<string>) returns (r: Result<Option<Failure>>)
    requires WellFormed(ctx)
    ensures r == Ok(None) ==> forall j :: 0 <= j < |criteria| ==> Passes(ctx, criteria[j])
    ensures r != Ok(None) ==> FirstNotPassing(ctx, criteria, r)
  {
    r := FirstNotNone(criteria, CheckOf(ctx));
  }

  function CheckOf(ctx: Context): string --> Result<Option<Failure>>
  {
    text requires WellFormed(ctx) => Check(ctx, text)
  }

  /** The criterion passed: it was checked without error and nothing was
      over its threshold. */
  predicate Passes(ctx: Context, text: string)
    requires WellFormed(ctx)
  {
    Check(ctx, text) == Ok(None)
  }

  /** Criterion `i` is the first whose check is not a pass. */
  ghost predicate FirstNotPassing(ctx: Context, criteria: seq<string>, r: Result<Option<Failure>>)
    requires WellFormed(ctx)
  {
    exists i :: 0 <= i < |criteria| && Check(ctx, criteria[i]) == r
                && forall j :: 0 <= j < i ==> Passes(ctx, criteria[j])
  }

  // ---------------------------------------------------------------------------
  // The next iteration's stress periods
  // ---------------------------------------------------------------------------

  function AddedOf(x: StressDay): Added
  {
    Added(x.period, x.day, x.region)
  }

  function PeriodOfAdded(a: Added): string { a.period }

  /** The new stress days as rows of the new periods. */
  function HighAdded(f: Failure): (r: seq<Added>)
    ensures |r| == |f.high|
    ensures forall i :: 0 <= i < |r| ==> r[i] == AddedOf(f.high[i])
  {
    seq(|f.high|, i requires 0 <= i < |f.high| => AddedOf(f.high[i]))
  }

  /** Lines 589-592: the new stress days, then their shoulders, each period
      label once (the first occurrence kept). */
  function NewPeriods(f: Failure): (r: seq<Added>)
    ensures KeysUnique(r, PeriodOfAdded)
    ensures forall i :: 0 <= i < |f.high| ==> f.high[i].period in KeySet(r, PeriodOfAdded)
    ensures forall j :: 0 <= j < |f.shoulders| ==> f.shoulders[j].period in KeySet(r, PeriodOfAdded)
    ensures forall i :: 0 <= i < |r| ==> r[i] in HighAdded(f) + f.shoulders
  {
    var all := HighAdded(f) + f.shoulders;
    var r := DedupBy(all, PeriodOfAdded);
    NewPeriodsCover(f, all, r);
    SubseqMembers(r, all);
    r
  }

  lemma NewPeriodsCover(f: Failure, all: seq<Added>, r: seq<Added>)
    requires all == HighAdded(f) + f.shoulders
    requires r == DedupBy(all, PeriodOfAdded)
    ensures forall i :: 0 <= i < |f.high| ==> f.high[i].period in KeySet(r, PeriodOfAdded)
    ensures forall j :: 0 <= j < |f.shoulders| ==> f.shoulders[j].period in KeySet(r, PeriodOfAdded)
  {
    var high := HighAdded(f);
    forall i | 0 <= i < |f.high| ensures f.high[i].period in KeySet(r, PeriodOfAdded) {
      assert PeriodOfAdded(all[i]) == f.high[i].period;
    }
    forall j | 0 <= j < |f.shoulders| ensures f.shoulders[j].period in KeySet(r, PeriodOfAdded) {
      assert PeriodOfAdded(all[|high| + j]) == f.shoulders[j].period;
    }
  }

  function LabelOf(a: Added): string { a.period }

  /** The labels of the new periods, in order. */
  function Labels(added: seq<Added>): (r: seq<string>)
    ensures |r| == |added|
    ensures forall i :: 0 <= i < |r| ==> r[i] == added[i].period
  {
    seq(|added|, i requires 0 <= i < |added| => added[i].period)
  }

  /** Lines 609-612: the current stress periods followed by the new ones,
      without repeated rows. */
  function Combine(current: seq<PeriodRow>, rows: seq<PeriodRow>): (r: seq<PeriodRow>)
    ensures KeysUnique(r, Id)
    ensures forall x :: x in r <==> x in current || x in rows
    ensures KeysUnique(current, Id) ==> |r| >= |current| && r[..|current|] == current
  {
    var r := DedupBy(current + rows, Id);
    forall x | x in current || x in rows
      ensures x in r
    {
      assert x in current + rows;
      KeySetId(current + rows, x);
      DedupKeepsFirst(current + rows, Id, x);
      assert First(current + rows, Id, x) == x;
    }
    SubseqMembers(r, current + rows);
    CurrentFirst(current, rows);
    r
  }

  lemma CurrentFirst(current: seq<PeriodRow>, rows: seq<PeriodRow>)
    ensures KeysUnique(current, Id) ==>
              |DedupBy(current + rows, Id)| >= |current| && DedupBy(current + rows, Id)[..|current|] == current
  {
    if KeysUnique(current, Id) {
      DedupKeepsPrefix(current, rows, Id);
    }
  }

  /** Whether the reserve margin for stress periods is updated (lines
      647-661): never with `GSw_PRM_StressUpdate` 0, not while new periods
      are still being added with 3, and otherwise always. */
  datatype PrmAction = KeepEmpty | UpdatePrm

  function PrmActionOf(update: int, newCount: nat): PrmAction
  {
    if update == 0 then KeepEmpty
    else if newCount > 0 && update == 3 then KeepEmpty
    else UpdatePrm
  }

  /** Mode 3 updates the margin exactly when the iteration adds no new
      periods; modes other than 0 and 3 always update it. */
  lemma PrmUpdateModes(update: int, newCount: nat)
    ensures update == 3 ==> (PrmActionOf(update, newCount) == UpdatePrm <==> newCount == 0)
    ensures update != 0 && update != 3 ==> PrmActionOf(update, newCount) == UpdatePrm
    ensures update == 0 ==> PrmActionOf(update, newCount) == KeepEmpty
  {
  }

  /** How an iteration ends: every criterion passed; a criterion failed but
      there is nothing to add and the margin is not updated; or the next
      iteration's stress periods are written and the margin possibly
      updated. */
  datatype Next =
    | AllPassed
    | NothingToAdd(failure: Failure)
    | WritePeriods(failure: Failure, periods: seq<PeriodRow>, prm: PrmAction)

  /** Lines 585-661 after the loop. */
  function Advance(hourlyType: string, found: Option<Failure>, current: seq<PeriodRow>,
                   update: int): (r: Result<Next>)
    ensures found.None? ==> r == Ok(AllPassed)
    ensures found.Some? && r.Ok? ==> PeriodRows(Labels(NewPeriods(found.value)), hourlyType).Ok?
    ensures r.Ok? && !r.value.AllPassed? ==> found == Some(r.value.failure)
    ensures r.Ok? && r.value.NothingToAdd? <==>
              found.Some? && PeriodRows(Labels(NewPeriods(found.value)), hourlyType) == Ok([]) && update == 0
    ensures r.Ok? && r.value.WritePeriods? ==>
              var rows := PeriodRows(Labels(NewPeriods(found.value)), hourlyType).value;
              && r.value.failure == found.value
              && r.value.periods == Combine(current, rows)
              && r.value.prm == PrmActionOf(update, |rows|)
  {
    match found
    case None => Ok(AllPassed)
    case Some(f) =>
      var rows :- PeriodRows(Labels(NewPeriods(f)), hourlyType);
      if |rows| == 0 && update == 0 then Ok(NothingToAdd(f))
      else Ok(WritePeriods(f, Combine(current, rows), PrmActionOf(update, |rows|)))
  }

  /** One whole iteration: the criteria loop, then the new periods. */
  method Iterate(ctx: Context, setting: string, current: seq<PeriodRow>, update: int) returns (r: Result<Next>)
    requires WellFormed(ctx)
    ensures r.Ok? && r.value.AllPassed? ==> forall j :: 0 <= j < |Criteria(setting)| ==> Passes(ctx, Criteria(setting)[j])
    ensures r.Ok? && !r.value.AllPassed? ==>
              FirstNotPassing(ctx, Criteria(setting), Ok(Some(r.value.failure)))
  {
    var criteria := Criteria(setting);
    var found :- FirstFailure(ctx, criteria);
    r := Advance(ctx.hourlyType, found, current, update);
  }
}
