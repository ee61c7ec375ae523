/** The annual NEUE table of ReEDS_Augur/stress_periods.py (`get_annual_neue`)
    and the threshold test the criteria loop applies to it. */
module Neue {
  import opened Wrappers
  import opened Seqs
  import opened Frames
  import opened StressMetric

  /** One entry of the table, indexed by (level, metric, region). */
  datatype NeueRow = NeueRow(level: string, agg: Agg, region: string, value: real)

  function RowKey(row: NeueRow): (string, Agg, string)
  {
    (row.level, row.agg, row.region)
  }

  /** The metric name the table uses in its index. */
  function AggName(agg: Agg): string
  {
    match agg
    case SumAgg => "sum"
    case MaxAgg => "max"
  }

  /** The hourly EUE and load tables the annual metric divides: `n > 0`
      hours, the same columns in both, and positive load. */
  ghost predicate NeueInputs(eue: Frame, load: Frame, n: nat)
  {
    && n > 0 && Rect(eue, n) && Rect(load, n) && Names(eue) == Names(load)
    && forall k :: 0 <= k < |load| ==> Positive(load[k].values)
  }

  /** The hour-by-hour total of group `g`. */
  function Series(f: Frame, rename: string -> string, g: string, n: nat): (r: seq<real>)
    requires Rect(f, n)
    ensures |r| == n
    ensures forall h :: 0 <= h < n ==> r[h] == GroupTotal(f, rename, g, h)
  {
    seq(n, h requires 0 <= h < n => GroupTotal(f, rename, g, h))
  }

  /** What the table promises of one of its rows, stated on the input tables:
      the row's level has a region map, its region is a group under that map,
      and its value is the group's NEUE over the year in parts per million --
      the year's EUE over the year's load under 'sum', the largest hourly
      EUE/load ratio under 'max'. */
  ghost predicate Reports(h: Hierarchy, eue: Frame, load: Frame, n: nat, row: NeueRow)
    requires NeueInputs(eue, load, n)
  {
    && RegionMap(h, row.level).Ok?
    && var rename := Renamer(RegionMap(h, row.level).value);
       var e := Series(eue, rename, row.region, n);
       var l := Series(load, rename, row.region, n);
       && row.region in Renamed(eue, rename)
       && Positive(l)
       && match row.agg
          case SumAgg => Sum(l) > 0.0 && row.value == Sum(e) / Sum(l) * Million
          case MaxAgg => row.value == Max(Ratio(e, l)) * Million
  }

  ghost predicate HasRow(rows: seq<NeueRow>, level: string, agg: Agg, g: string)
  {
    exists j :: 0 <= j < |rows| && RowKey(rows[j]) == (level, agg, g)
  }

  /** Every group of every level in `levels` has a 'sum' and a 'max' row. */
  ghost predicate Complete(h: Hierarchy, eue: Frame, levels: seq<string>, rows: seq<NeueRow>)
  {
    forall i, g :: 0 <= i < |levels| && RegionMap(h, levels[i]).Ok?
                   && g in Renamed(eue, Renamer(RegionMap(h, levels[i]).value)) ==>
                     HasRow(rows, levels[i], SumAgg, g) && HasRow(rows, levels[i], MaxAgg, g)
  }

  /** The value of the metric `agg` for one rolled-up column. */
  function AggValue(agg: Agg, e: seq<real>, l: seq<real>): real
    requires |e| == |l| > 0 && Positive(l)
  {
    match agg
    case SumAgg => SumPositive(l); Sum(e) / Sum(l) * Million
    case MaxAgg => Max(Ratio(e, l)) * Million
  }

  /** One row per rolled-up column, for metric `agg`. */
  function LevelRows(level: string, agg: Agg, eR: Frame, lR: Frame, n: nat): (r: seq<NeueRow>)
    requires n > 0 && |eR| == |lR| && Rect(eR, n) && Rect(lR, n)
    requires forall k :: 0 <= k < |lR| ==> Positive(lR[k].values)
    ensures |r| == |eR|
    ensures forall k :: 0 <= k < |eR| ==>
              r[k] == NeueRow(level, agg, eR[k].name, AggValue(agg, eR[k].values, lR[k].values))
  {
    seq(|eR|, k requires 0 <= k < |eR| => NeueRow(level, agg, eR[k].name, AggValue(agg, eR[k].values, lR[k].values)))
  }

  /** One level of the table: a 'sum' row for every group of the level's
      region map, then a 'max' row for every group. */
  function LevelNeue(h: Hierarchy, eue: Frame, load: Frame, n: nat, level: string): (r: Result<seq<NeueRow>>)
    requires NeueInputs(eue, load, n)
    ensures r.Ok? <==> level == "r" || level in h.columns
    ensures r.Err? ==> r.error == KeyError(level)
    ensures r.Ok? ==> forall i :: 0 <= i < |r.value| ==>
              r.value[i].level == level && Reports(h, eue, load, n, r.value[i])
    ensures r.Ok? ==> Complete(h, eue, [level], r.value)
    ensures r.Ok? ==> KeysUnique(r.value, RowKey)
  {
    var rmap :- RegionMap(h, level);
    var rename := Renamer(rmap);
    var eR := RollUp(eue, rename, n);
    var lR := RollUp(load, rename, n);
    RolledColumns(eue, load, rename, n);
    RolledPositive(load, rename, n, NEUE);
    var rows := LevelRows(level, SumAgg, eR, lR, n) + LevelRows(level, MaxAgg, eR, lR, n);
    LevelReports(h, eue, load, n, level, eR, lR, rows);
    LevelLayout(level, eR, lR, n, rows);
    LevelComplete(h, eue, level, eR, rows);
    LevelUnique(level, eR, rows);
    Ok(rows)
  }

  /** Column `k` of a roll-up is the hourly total of its group, and its name
      is one of the renamed input names. */
  lemma RolledColumn(f: Frame, rename: string -> string, n: nat, k: nat)
    requires Rect(f, n) && k < |RollUp(f, rename, n)|
    ensures RollUp(f, rename, n)[k].values == Series(f, rename, RollUp(f, rename, n)[k].name, n)
    ensures RollUp(f, rename, n)[k].name in Renamed(f, rename)
  {
    var r := RollUp(f, rename, n);
    assert Names(r)[k] in DedupBy(Renamed(f, rename), Id);
    KeySetId(DedupBy(Renamed(f, rename), Id), r[k].name);
    KeySetId(Renamed(f, rename), r[k].name);
  }

  /** Column by column, the rolled EUE and load are the group totals of the
      same group. */
  ghost predicate GroupColumns(eue: Frame, load: Frame, rename: string -> string, n: nat, eR: Frame, lR: Frame)
    requires Rect(eue, n) && Rect(load, n)
  {
    && |eR| == |lR|
    && forall k :: 0 <= k < |eR| ==>
         && eR[k].name in Renamed(eue, rename) && lR[k].name == eR[k].name
         && eR[k].values == Series(eue, rename, eR[k].name, n)
         && lR[k].values == Series(load, rename, eR[k].name, n)
  }

  lemma RolledColumns(eue: Frame, load: Frame, rename: string -> string, n: nat)
    requires Rect(eue, n) && Rect(load, n) && Names(eue) == Names(load)
    ensures GroupColumns(eue, load, rename, n, RollUp(eue, rename, n), RollUp(load, rename, n))
  {
    var eR, lR := RollUp(eue, rename, n), RollUp(load, rename, n);
    RolledAligned(eue, load, rename, n);
    forall k | 0 <= k < |eR|
      ensures eR[k].name in Renamed(eue, rename) && lR[k].name == eR[k].name
      ensures eR[k].values == Series(eue, rename, eR[k].name, n)
      ensures lR[k].values == Series(load, rename, eR[k].name, n)
    {
      RolledColumn(eue, rename, n, k);
      RolledColumn(load, rename, n, k);
      assert Names(eR)[k] == Names(lR)[k];
    }
  }

  /** The row of group `g` at `level` for metric `agg` reports that group. */
  lemma RowReports(h: Hierarchy, eue: Frame, load: Frame, n: nat, level: string, agg: Agg,
                   g: string, e: seq<real>, l: seq<real>)
    requires NeueInputs(eue, load, n) && RegionMap(h, level).Ok?
    requires g in Renamed(eue, Renamer(RegionMap(h, level).value))
    requires e == Series(eue, Renamer(RegionMap(h, level).value), g, n)
    requires l == Series(load, Renamer(RegionMap(h, level).value), g, n)
    requires Positive(l)
    ensures Reports(h, eue, load, n, NeueRow(level, agg, g, AggValue(agg, e, l)))
  {
    if agg == SumAgg {
      SumPositive(l);
    }
  }

  lemma LevelReports(h: Hierarchy, eue: Frame, load: Frame, n: nat, level: string,
                     eR: Frame, lR: Frame, rows: seq<NeueRow>)
    requires NeueInputs(eue, load, n) && RegionMap(h, level).Ok?
    requires GroupColumns(eue, load, Renamer(RegionMap(h, level).value), n, eR, lR)
    requires forall k :: 0 <= k < |lR| ==> Positive(lR[k].values)
    requires rows == LevelRows(level, SumAgg, eR, lR, n) + LevelRows(level, MaxAgg, eR, lR, n)
    ensures forall i :: 0 <= i < |rows| ==> rows[i].level == level && Reports(h, eue, load, n, rows[i])
  {
    var sums := LevelRows(level, SumAgg, eR, lR, n);
    var maxes := LevelRows(level, MaxAgg, eR, lR, n);
    HalfReports(h, eue, load, n, level, SumAgg, eR, lR, sums);
    HalfReports(h, eue, load, n, level, MaxAgg, eR, lR, maxes);
    ReportsAppend(h, eue, load, n, level, sums, maxes, rows);
  }

  lemma ReportsAppend(h: Hierarchy, eue: Frame, load: Frame, n: nat, level: string,
                      a: seq<NeueRow>, b: seq<NeueRow>, rows: seq<NeueRow>)
    requires NeueInputs(eue, load, n)
    requires forall k :: 0 <= k < |a| ==> a[k].level == level && Reports(h, eue, load, n, a[k])
    requires forall k :: 0 <= k < |b| ==> b[k].level == level && Reports(h, eue, load, n, b[k])
    requires rows == a + b
    ensures forall i :: 0 <= i < |rows| ==> rows[i].level == level && Reports(h, eue, load, n, rows[i])
  {
    forall i | 0 <= i < |rows|
      ensures rows[i].level == level && Reports(h, eue, load, n, rows[i])
    {
      if i < |a| {
        assert rows[i] == a[i];
      } else {
        assert rows[i] == b[i - |a|];
      }
    }
  }

  /** The rows of one aggregation of a level. */
  lemma HalfReports(h: Hierarchy, eue: Frame, load: Frame, n: nat, level: string, agg: Agg,
                    eR: Frame, lR: Frame, part: seq<NeueRow>)
    requires NeueInputs(eue, load, n) && RegionMap(h, level).Ok?
    requires GroupColumns(eue, load, Renamer(RegionMap(h, level).value), n, eR, lR)
    requires forall k :: 0 <= k < |lR| ==> Positive(lR[k].values)
    requires part == LevelRows(level, agg, eR, lR, n)
    ensures forall k :: 0 <= k < |part| ==> part[k].level == level && Reports(h, eue, load, n, part[k])
  {
    forall k | 0 <= k < |part|
      ensures part[k].level == level && Reports(h, eue, load, n, part[k])
    {
      RowReports(h, eue, load, n, level, agg, eR[k].name, eR[k].values, lR[k].values);
    }
  }

  /** Row `k` is the 'sum' row and row `|eR| + k` the 'max' row of column `k`. */
  ghost predicate Layout(level: string, eR: Frame, rows: seq<NeueRow>)
  {
    && |rows| == 2 * |eR|
    && forall k :: 0 <= k < |eR| ==>
         RowKey(rows[k]) == (level, SumAgg, eR[k].name) && RowKey(rows[|eR| + k]) == (level, MaxAgg, eR[k].name)
  }

  lemma LevelLayout(level: string, eR: Frame, lR: Frame, n: nat, rows: seq<NeueRow>)
    requires n > 0 && |eR| == |lR| && Rect(eR, n) && Rect(lR, n)
    requires forall k :: 0 <= k < |lR| ==> Positive(lR[k].values)
    requires rows == LevelRows(level, SumAgg, eR, lR, n) + LevelRows(level, MaxAgg, eR, lR, n)
    ensures Layout(level, eR, rows)
  {
  }

  lemma LevelComplete(h: Hierarchy, eue: Frame, level: string, eR: Frame, rows: seq<NeueRow>)
    requires RegionMap(h, level).Ok?
    requires Names(eR) == DedupBy(Renamed(eue, Renamer(RegionMap(h, level).value)), Id)
    requires Layout(level, eR, rows)
    ensures Complete(h, eue, [level], rows)
  {
    var rename := Renamer(RegionMap(h, level).value);
    forall g | g in Renamed(eue, rename)
      ensures HasRow(rows, level, SumAgg, g) && HasRow(rows, level, MaxAgg, g)
    {
      KeySetId(Renamed(eue, rename), g);
      KeySetId(DedupBy(Renamed(eue, rename), Id), g);
      var k :| 0 <= k < |eR| && Names(eR)[k] == g;
      assert RowKey(rows[k]) == (level, SumAgg, g);
      assert RowKey(rows[|eR| + k]) == (level, MaxAgg, g);
    }
  }

  lemma LevelUnique(level: string, eR: Frame, rows: seq<NeueRow>)
    requires KeysUnique(Names(eR), Id)
    requires Layout(level, eR, rows)
    ensures KeysUnique(rows, RowKey)
  {
    forall i, j | 0 <= i < j < |rows| ensures RowKey(rows[i]) != RowKey(rows[j]) {
      var a, b := if i < |eR| then i else i - |eR|, if j < |eR| then j else j - |eR|;
      if j < |eR| || i >= |eR| {
        assert Id(Names(eR)[a]) != Id(Names(eR)[b]);
      } else {
        assert RowKey(rows[i]) == (level, SumAgg, eR[i].name);
        assert RowKey(rows[|eR| + b]) == (level, MaxAgg, eR[b].name);
      }
    }
  }

  // ---------------------------------------------------------------------------
  // The table over all levels
  // ---------------------------------------------------------------------------

  /** Whether `get_rmap` has a region map for `level`. */
  predicate HasMap(h: Hierarchy, level: string)
  {
    level == "r" || level in h.columns
  }

  /** The index of the first level without a region map (`|levels|` when
      every level has one). */
  function FirstMissing(h: Hierarchy, levels: seq<string>): (i: nat)
    ensures i <= |levels|
    ensures forall j :: 0 <= j < i ==> HasMap(h, levels[j])
    ensures i < |levels| ==> !HasMap(h, levels[i])
    decreases |levels|
  {
    if |levels| == 0 || !HasMap(h, levels[0]) then 0
    else 1 + FirstMissing(h, levels[1..])
  }

  /** The levels in turn, each contributing its rows; the first level
      without a region map ends the table with its KeyError. */
  function NeueTable(h: Hierarchy, eue: Frame, load: Frame, n: nat, levels: seq<string>): (r: Result<seq<NeueRow>>)
    requires NeueInputs(eue, load, n)
    ensures r.Ok? <==> FirstMissing(h, levels) == |levels|
    ensures r.Err? ==> r.error == KeyError(levels[FirstMissing(h, levels)])
    ensures r.Ok? ==> forall i :: 0 <= i < |r.value| ==>
              r.value[i].level in levels && Reports(h, eue, load, n, r.value[i])
    ensures r.Ok? ==> Complete(h, eue, levels, r.value)
    ensures r.Ok? && Distinct(levels) ==> KeysUnique(r.value, RowKey)
    decreases |levels|
  {
    if |levels| == 0 then Ok([])
    else
      MissingStep(h, levels);
      var rows :- LevelNeue(h, eue, load, n, levels[0]);
      var rest :- NeueTable(h, eue, load, n, levels[1..]);
      var all := rows + rest;
      TableStep(h, eue, load, n, levels, rows, rest, all);
      Ok(all)
  }

  /** `FirstMissing` unfolded once. */
  lemma MissingStep(h: Hierarchy, levels: seq<string>)
    requires |levels| > 0
    ensures !HasMap(h, levels[0]) ==> FirstMissing(h, levels) == 0
    ensures HasMap(h, levels[0]) ==> FirstMissing(h, levels) == 1 + FirstMissing(h, levels[1..])
    ensures HasMap(h, levels[0]) && FirstMissing(h, levels[1..]) < |levels[1..]| ==>
              levels[FirstMissing(h, levels)] == levels[1..][FirstMissing(h, levels[1..])]
  {
  }

  /** One level's rows in front of the rest of the table. */
  lemma TableStep(h: Hierarchy, eue: Frame, load: Frame, n: nat, levels: seq<string>,
                  rows: seq<NeueRow>, rest: seq<NeueRow>, all: seq<NeueRow>)
    requires NeueInputs(eue, load, n) && |levels| > 0
    requires forall i :: 0 <= i < |rows| ==> rows[i].level == levels[0] && Reports(h, eue, load, n, rows[i])
    requires Complete(h, eue, [levels[0]], rows) && KeysUnique(rows, RowKey)
    requires forall i :: 0 <= i < |rest| ==> rest[i].level in levels[1..] && Reports(h, eue, load, n, rest[i])
    requires Complete(h, eue, levels[1..], rest)
    requires Distinct(levels[1..]) ==> KeysUnique(rest, RowKey)
    requires all == rows + rest
    ensures forall i :: 0 <= i < |all| ==> all[i].level in levels && Reports(h, eue, load, n, all[i])
    ensures Complete(h, eue, levels, all)
    ensures Distinct(levels) ==> KeysUnique(all, RowKey)
  {
    TableReports(h, eue, load, n, levels, rows, rest);
    TableComplete(h, eue, levels, rows, rest);
    TableUnique(levels, rows, rest);
  }

  lemma TableReports(h: Hierarchy, eue: Frame, load: Frame, n: nat, levels: seq<string>,
                     rows: seq<NeueRow>, rest: seq<NeueRow>)
    requires NeueInputs(eue, load, n) && |levels| > 0
    requires forall i :: 0 <= i < |rows| ==> rows[i].level == levels[0] && Reports(h, eue, load, n, rows[i])
    requires forall i :: 0 <= i < |rest| ==> rest[i].level in levels[1..] && Reports(h, eue, load, n, rest[i])
    ensures forall i :: 0 <= i < |rows + rest| ==>
              (rows + rest)[i].level in levels && Reports(h, eue, load, n, (rows + rest)[i])
  {
    forall i | 0 <= i < |rows + rest|
      ensures (rows + rest)[i].level in levels && Reports(h, eue, load, n, (rows + rest)[i])
    {
      if i >= |rows| {
        var x := rest[i - |rows|];
        assert x.level in levels[1..];
        var j :| 0 <= j < |levels[1..]| && levels[1..][j] == x.level;
        assert levels[j + 1] == x.level;
      }
    }
  }

  lemma TableComplete(h: Hierarchy, eue: Frame, levels: seq<string>, rows: seq<NeueRow>, rest: seq<NeueRow>)
    requires |levels| > 0
    requires Complete(h, eue, [levels[0]], rows)
    requires Complete(h, eue, levels[1..], rest)
    ensures Complete(h, eue, levels, rows + rest)
  {
    forall i, g | 0 <= i < |levels| && RegionMap(h, levels[i]).Ok?
                  && g in Renamed(eue, Renamer(RegionMap(h, levels[i]).value))
      ensures HasRow(rows + rest, levels[i], SumAgg, g) && HasRow(rows + rest, levels[i], MaxAgg, g)
    {
      if i == 0 {
        assert [levels[0]][0] == levels[i];
        HasRowAppend(rows, rest, levels[i], SumAgg, g);
        HasRowAppend(rows, rest, levels[i], MaxAgg, g);
      } else {
        assert levels[1..][i - 1] == levels[i];
        HasRowAppend(rows, rest, levels[i], SumAgg, g);
        HasRowAppend(rows, rest, levels[i], MaxAgg, g);
      }
    }
  }

  lemma HasRowAppend(a: seq<NeueRow>, b: seq<NeueRow>, level: string, agg: Agg, g: string)
    ensures HasRow(a, level, agg, g) || HasRow(b, level, agg, g) ==> HasRow(a + b, level, agg, g)
  {
    if HasRow(a, level, agg, g) {
      var j :| 0 <= j < |a| && RowKey(a[j]) == (level, agg, g);
      assert (a + b)[j] == a[j];
    } else if HasRow(b, level, agg, g) {
      var j :| 0 <= j < |b| && RowKey(b[j]) == (level, agg, g);
      assert (a + b)[|a| + j] == b[j];
    }
  }

  lemma TableUnique(levels: seq<string>, rows: seq<NeueRow>, rest: seq<NeueRow>)
    requires |levels| > 0
    requires forall i :: 0 <= i < |rows| ==> rows[i].level == levels[0]
    requires forall i :: 0 <= i < |rest| ==> rest[i].level in levels[1..]
    requires KeysUnique(rows, RowKey)
    requires Distinct(levels[1..]) ==> KeysUnique(rest, RowKey)
    ensures Distinct(levels) ==> KeysUnique(rows + rest, RowKey)
  {
    if Distinct(levels) {
      assert Distinct(levels[1..]) by {
        forall i, j | 0 <= i < j < |levels[1..]| ensures levels[1..][i] != levels[1..][j] {
          assert levels[1..][i] == levels[i + 1] && levels[1..][j] == levels[j + 1];
        }
      }
      assert levels[0] !in levels[1..] by {
        forall j | 0 <= j < |levels[1..]| ensures levels[1..][j] != levels[0] {
          assert levels[1..][j] == levels[j + 1];
        }
      }
      var s := rows + rest;
      forall i, j | 0 <= i < j < |s| ensures RowKey(s[i]) != RowKey(s[j]) {
        if j < |rows| {
          assert s[i] == rows[i] && s[j] == rows[j];
        } else if i >= |rows| {
          assert s[i] == rest[i - |rows|] && s[j] == rest[j - |rows|];
        } else {
          assert s[i].level == levels[0];
          assert s[j] == rest[j - |rows|];
        }
      }
    }
  }

  lemma NeueLevelsDistinct()
    ensures Distinct(NeueLevels)
  {
  }

  /** `get_annual_neue`: every level of `NeueLevels`, 'sum' rows then 'max'
      rows per level. */
  function AnnualNeue(h: Hierarchy, eue: Frame, load: Frame, n: nat): (r: Result<seq<NeueRow>>)
    requires NeueInputs(eue, load, n)
    ensures r.Ok? <==> forall i :: 0 <= i < |NeueLevels| ==> HasMap(h, NeueLevels[i])
    ensures r.Err? ==> r.error == KeyError(NeueLevels[FirstMissing(h, NeueLevels)])
    ensures r.Ok? ==> forall i :: 0 <= i < |r.value| ==>
              r.value[i].level in NeueLevels && Reports(h, eue, load, n, r.value[i])
    ensures r.Ok? ==> Complete(h, eue, NeueLevels, r.value)
    ensures r.Ok? ==> KeysUnique(r.value, RowKey)
  {
    NeueLevelsDistinct();
    NeueTable(h, eue, load, n, NeueLevels)
  }

  /** For every group, the year's EUE over the year's load never exceeds the
      worst hour's ratio: the 'sum' row is at most the 'max' row. */
  lemma AnnualSumAtMostMax(h: Hierarchy, eue: Frame, load: Frame, n: nat, a: NeueRow, b: NeueRow)
    requires NeueInputs(eue, load, n)
    requires Reports(h, eue, load, n, a) && Reports(h, eue, load, n, b)
    requires a.level == b.level && a.region == b.region && a.agg == SumAgg && b.agg == MaxAgg
    ensures a.value <= b.value
  {
    var rename := Renamer(RegionMap(h, a.level).value);
    var e := Series(eue, rename, a.region, n);
    var l := Series(load, rename, a.region, n);
    RatioOfSumsAtMostMaxRatio(e, l);
    MulMonotone(Sum(e) / Sum(l), Max(Ratio(e, l)), Million);
  }

  // ---------------------------------------------------------------------------
  // The threshold test
  // ---------------------------------------------------------------------------

  predicate HasLevel(neue: seq<NeueRow>, level: string)
  {
    exists i :: 0 <= i < |neue| && neue[i].level == level
  }

  predicate HasMetric(neue: seq<NeueRow>, level: string, aggText: string)
  {
    exists i :: 0 <= i < |neue| && neue[i].level == level && AggName(neue[i].agg) == aggText
  }

  /** `neue[level][agg]` compared with `ppm` (stress_periods.py 481-484): the
      rows of that level and metric whose value exceeds the threshold, in
      table order. Looking up an absent level, or a metric absent under it,
      raises a KeyError. */
  function Exceeding(neue: seq<NeueRow>, level: string, aggText: string, ppm: real): (r: Result<seq<NeueRow>>)
    ensures r.Ok? <==> HasLevel(neue, level) && HasMetric(neue, level, aggText)
    ensures !HasLevel(neue, level) ==> r == Err(KeyError(level))
    ensures HasLevel(neue, level) && !HasMetric(neue, level, aggText) ==> r == Err(KeyError(aggText))
    ensures r.Ok? ==> forall x :: x in r.value <==>
              x in neue && x.level == level && AggName(x.agg) == aggText && x.value > ppm
    ensures r.Ok? ==> IsSubseq(r.value, neue)
  {
    if !HasLevel(neue, level) then Err(KeyError(level))
    else if !HasMetric(neue, level, aggText) then Err(KeyError(aggText))
    else
      var rows := Filter(neue, (x: NeueRow) => x.level == level && AggName(x.agg) == aggText && x.value > ppm);
      SubseqMembers(rows, neue);
      Ok(rows)
  }
}
