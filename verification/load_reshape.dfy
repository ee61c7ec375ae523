/** The table reshaping steps of input_processing/hourly_load.py (lines
    403-703): downselection to model and weather years, repetition of a
    single weather year, the distribution-loss gross-up, coincident peaks
    per hierarchy level, and the state-to-region allocation. */
module LoadReshape {
  import opened Wrappers
  import opened Seqs
  import opened Text
  import opened Frames
  import opened Rounding
  import opened HourlyLoad
  import opened Floats

  // ---------------------------------------------------------------------------
  // downselect_to_model_years / downselect_to_weather_years (lines 403-452)
  // ---------------------------------------------------------------------------

  /** `load.loc[year level isin model_years]`: the model years listed, in
      the order of the load. */
  function DownselectModelYears(load: seq<Profile>, years: seq<int>): (r: seq<Profile>)
    ensures IsSubseq(r, load)
    ensures forall i :: 0 <= i < |r| ==> r[i].year in years
    ensures forall i :: 0 <= i < |load| && load[i].year in years ==> load[i] in r
  {
    Filter(load, (p: Profile) => p.year in years)
  }

  /** Selecting the same model years twice selects nothing more. */
  lemma DownselectModelYearsIdempotent(load: seq<Profile>, years: seq<int>)
    ensures DownselectModelYears(DownselectModelYears(load, years), years) == DownselectModelYears(load, years)
  {
    var r := DownselectModelYears(load, years);
    FilterKeepsAll(r, (p: Profile) => p.year in years);
  }

  /** A filter that every element passes keeps the sequence. */
  lemma {:induction false} FilterKeepsAll<T>(s: seq<T>, p: T -> bool)
    requires forall i :: 0 <= i < |s| ==> p(s[i])
    ensures Filter(s, p) == s
    decreases |s|
  {
    if |s| > 0 {
      var s' := s[..|s| - 1];
      FilterKeepsAll(s', p);
      assert s' + [s[|s| - 1]] == s;
    }
  }

  /** The rows of `values` whose time stamp passes `keep`, in order. */
  function KeepValues(values: seq<real>, stamps: seq<Stamp>, keep: Stamp -> bool): (r: seq<real>)
    requires |values| == |stamps|
    ensures |r| == |Filter(stamps, keep)|
    decreases |values|
  {
    if |values| == 0 then []
    else
      var n := |values| - 1;
      assert stamps[..n] + [stamps[n]] == stamps;
      KeepValues(values[..n], stamps[..n], keep) + (if keep(stamps[n]) then [values[n]] else [])
  }

  /** The rows of `t` whose time stamp passes `keep`. */
  function KeepRows(t: Table, keep: Stamp -> bool): (r: Table)
    requires Shaped(t)
    ensures r.stamps == Filter(t.stamps, keep)
    ensures Shaped(r) && Names(r.frame) == Names(t.frame)
    ensures forall k :: 0 <= k < |r.frame| ==> r.frame[k].values == KeepValues(t.frame[k].values, t.stamps, keep)
  {
    var r := Table(Filter(t.stamps, keep), seq(|t.frame|, k requires 0 <= k < |t.frame| =>
      Column(t.frame[k].name, KeepValues(t.frame[k].values, t.stamps, keep))));
    assert Names(r.frame) == Names(t.frame);
    r
  }

  /** A time stamp of one of the weather years listed. */
  function InWeatherYears(weatherYears: seq<int>): Stamp -> bool
  {
    (s: Stamp) => s.weather in weatherYears
  }

  /** `load.loc[datetime year isin weather_years]`: in every model year,
      the hours of the weather years listed. */
  function DownselectWeatherYears(load: seq<Profile>, weatherYears: seq<int>): (r: seq<Profile>)
    requires forall i :: 0 <= i < |load| ==> Shaped(load[i].table)
    ensures |r| == |load|
    ensures forall i :: 0 <= i < |r| ==>
              r[i].year == load[i].year && Shaped(r[i].table)
              && Names(r[i].table.frame) == Names(load[i].table.frame)
              && (forall h :: 0 <= h < |r[i].table.stamps| ==> r[i].table.stamps[h].weather in weatherYears)
              && (forall h :: 0 <= h < |load[i].table.stamps| && load[i].table.stamps[h].weather in weatherYears ==>
                    load[i].table.stamps[h] in r[i].table.stamps)
  {
    seq(|load|, i requires 0 <= i < |load| =>
      Profile(load[i].year, KeepRows(load[i].table, InWeatherYears(weatherYears))))
  }

  /** Downselecting weather years keeps the total of every weather year
      listed and leaves nothing of the others. */
  lemma {:induction false} KeepValuesTotal(values: seq<real>, stamps: seq<Stamp>, weatherYears: seq<int>, w: int)
    requires |values| == |stamps|
    ensures WeatherTotal(KeepValues(values, stamps, InWeatherYears(weatherYears)),
                         Filter(stamps, InWeatherYears(weatherYears)), w)
            == if w in weatherYears then WeatherTotal(values, stamps, w) else 0.0
    decreases |values|
  {
    var keep := InWeatherYears(weatherYears);
    if |values| > 0 {
      var n := |values| - 1;
      KeepValuesTotal(values[..n], stamps[..n], weatherYears, w);
      assert stamps[..n] + [stamps[n]] == stamps;
      var kv := KeepValues(values[..n], stamps[..n], keep);
      var ks := Filter(stamps[..n], keep);
      var last := if stamps[n].weather == w then values[n] else 0.0;
      assert WeatherTotal(values, stamps, w) == WeatherTotal(values[..n], stamps[..n], w) + last;
      if keep(stamps[n]) {
        assert Filter(stamps, keep) == ks + [stamps[n]];
        var v' := kv + [values[n]];
        var s' := ks + [stamps[n]];
        assert KeepValues(values, stamps, keep) == v';
        assert v'[..|v'| - 1] == kv && s'[..|s'| - 1] == ks;
        assert WeatherTotal(v', s', w) == WeatherTotal(kv, ks, w) + last;
      } else {
        assert Filter(stamps, keep) == ks;
        assert KeepValues(values, stamps, keep) == kv;
        assert stamps[n].weather != w || w !in weatherYears;
      }
    }
  }

  /** Column `k` of a downselected model year totals, over a weather year
      listed, what it totalled before; over any other year, zero. */
  lemma DownselectWeatherTotal(load: seq<Profile>, weatherYears: seq<int>, i: nat, k: nat, w: int)
    requires forall j :: 0 <= j < |load| ==> Shaped(load[j].table)
    requires i < |load| && k < |load[i].table.frame|
    ensures Total(DownselectWeatherYears(load, weatherYears)[i].table, k, w)
            == if w in weatherYears then Total(load[i].table, k, w) else 0.0
  {
    var t := load[i].table;
    KeepValuesTotal(t.frame[k].values, t.stamps, weatherYears, w);
  }

  // ---------------------------------------------------------------------------
  // duplicate_weather_years (lines 454-488)
  // ---------------------------------------------------------------------------

  const HoursPerYear := 8760

  const NotOneWeatherYear := "The provided dataframe has more than one weather year of data."

  /** `unstack` of a table that holds some (year, time) pair twice. */
  const DuplicateEntries := "Index contains duplicate entries, cannot reshape"

  /** Time order on stamps: by weather year, then by hour. */
  predicate Before(a: Stamp, b: Stamp)
  {
    a.weather < b.weather || (a.weather == b.weather && a.hour < b.hour)
  }

  /** Strictly increasing time stamps: a time index in order, each hour once. */
  ghost predicate Chronological(stamps: seq<Stamp>)
  {
    forall i, j :: 0 <= i < j < |stamps| ==> Before(stamps[i], stamps[j])
  }

  /** Each time stamp at most once. */
  predicate DistinctStamps(stamps: seq<Stamp>)
  {
    forall i, j :: 0 <= i < j < |stamps| ==> stamps[i] != stamps[j]
  }

  /** What repeating the weather year needs of the load: every model year on
      the same time index, in any order. The time index of the weather years
      is an input with 8760 hours per year. */
  ghost predicate Repeatable(load: seq<Profile>, timeindex: seq<Stamp>, numYears: nat)
  {
    Uniform(load) && |timeindex| == HoursPerYear * numYears
  }

  /** The number of rows of `load.unstack('year')`: the distinct time stamps. */
  function WideLength(load: seq<Profile>): nat
  {
    if |load| == 0 then 0 else |load[0].table.stamps|
  }

  /** A fraction in [0, 1) that grows with the hour. */
  function HourFraction(h: nat): real
  {
    h as real / (h as real + 1.0)
  }

  lemma HourFractionBounds(h: nat)
    ensures 0.0 <= HourFraction(h) < 1.0
  {
    var x := h as real;
    assert HourFraction(h) == 1.0 - 1.0 / (x + 1.0);
  }

  lemma HourFractionGrows(h1: nat, h2: nat)
    requires h1 < h2
    ensures HourFraction(h1) < HourFraction(h2)
  {
    var x1, x2 := h1 as real, h2 as real;
    assert HourFraction(h1) == 1.0 - 1.0 / (x1 + 1.0);
    assert HourFraction(h2) == 1.0 - 1.0 / (x2 + 1.0);
    assert 1.0 / (x2 + 1.0) < 1.0 / (x1 + 1.0);
  }

  /** A real key that orders stamps as `Before` does. */
  function TimeKey(s: Stamp): real
  {
    s.weather as real + HourFraction(s.hour)
  }

  lemma TimeKeyOrder(a: Stamp, b: Stamp)
    ensures Before(a, b) ==> TimeKey(a) < TimeKey(b)
  {
    HourFractionBounds(a.hour);
    HourFractionBounds(b.hour);
    if a.weather == b.weather && a.hour < b.hour {
      HourFractionGrows(a.hour, b.hour);
    }
  }

  /** The row numbers `0..n-1`. */
  function Rows(n: nat): (r: seq<nat>)
    ensures |r| == n && forall j :: 0 <= j < n ==> r[j] == j
  {
    seq(n, j requires 0 <= j < n => j as nat)
  }

  /** The sort value of row `j` of `stamps`: earlier rows sort first under
      `SortDesc`. */
  function Earliest(stamps: seq<Stamp>): nat -> real
  {
    (j: nat) => if j < |stamps| then -TimeKey(stamps[j]) else 0.0
  }

  /** The row order of `unstack`, which sorts the time index: the row
      numbers of `stamps` in time order, ties in input order. */
  function TimeOrder(stamps: seq<Stamp>): (r: seq<nat>)
    ensures |r| == |stamps|
    ensures forall h :: 0 <= h < |r| ==> r[h] < |stamps|
    ensures forall j :: 0 <= j < |stamps| ==> j in r
    ensures forall h1, h2 :: 0 <= h1 < h2 < |r| ==> !Before(stamps[r[h2]], stamps[r[h1]])
  {
    var r := SortDesc(Rows(|stamps|), Earliest(stamps));
    TimeOrderFacts(stamps, r);
    r
  }

  lemma TimeOrderFacts(stamps: seq<Stamp>, r: seq<nat>)
    requires multiset(r) == multiset(Rows(|stamps|)) && |r| == |stamps|
    requires SortedDesc(r, Earliest(stamps))
    ensures forall h :: 0 <= h < |r| ==> r[h] < |stamps|
    ensures forall j :: 0 <= j < |stamps| ==> j in r
    ensures forall h1, h2 :: 0 <= h1 < h2 < |r| ==> !Before(stamps[r[h2]], stamps[r[h1]])
  {
    var rows := Rows(|stamps|);
    forall h | 0 <= h < |r| ensures r[h] < |stamps| {
      assert r[h] in multiset(rows);
    }
    forall j | 0 <= j < |stamps| ensures j in r {
      assert rows[j] in multiset(r);
    }
    forall h1, h2 | 0 <= h1 < h2 < |r| ensures !Before(stamps[r[h2]], stamps[r[h1]]) {
      assert Earliest(stamps)(r[h1]) >= Earliest(stamps)(r[h2]);
      TimeKeyOrder(stamps[r[h2]], stamps[r[h1]]);
    }
  }

  /** On a time index already in order, `unstack` keeps the rows where they
      are. */
  lemma TimeOrderChronological(stamps: seq<Stamp>)
    requires Chronological(stamps)
    ensures TimeOrder(stamps) == Rows(|stamps|)
  {
    var rows := Rows(|stamps|);
    forall i, j | 0 <= i < j < |rows| ensures Earliest(stamps)(rows[i]) >= Earliest(stamps)(rows[j]) {
      TimeKeyOrder(stamps[i], stamps[j]);
    }
    SortDescSorted(rows, Earliest(stamps));
  }

  /** The rows of `t` in the order `ord`. */
  function Reorder(t: Table, ord: seq<nat>): (r: Table)
    requires Shaped(t) && forall h :: 0 <= h < |ord| ==> ord[h] < |t.stamps|
    ensures |r.stamps| == |ord| && Shaped(r) && Names(r.frame) == Names(t.frame)
    ensures forall k, h :: 0 <= k < |r.frame| && 0 <= h < |ord| ==> r.frame[k].values[h] == t.frame[k].values[ord[h]]
  {
    var r := Table(seq(|ord|, h requires 0 <= h < |ord| => t.stamps[ord[h]]),
      seq(|t.frame|, k requires 0 <= k < |t.frame| =>
        Column(t.frame[k].name, seq(|ord|, h requires 0 <= h < |ord| => t.frame[k].values[ord[h]]))));
    assert Names(r.frame) == Names(t.frame);
    r
  }

  /** The sort value of a profile: earlier model years sort first under
      `SortDesc`. */
  function EarlierYear(p: Profile): real
  {
    -(p.year as real)
  }

  function YearOf(p: Profile): int
  {
    p.year
  }

  /** `values` repeated `n` times end to end. */
  function Repeat(values: seq<real>, n: nat): (r: seq<real>)
    ensures |r| == |values| * n
  {
    if n == 0 then [] else Repeat(values, n - 1) + values
  }

  /** Hour `h` of copy `b` is hour `h` of the original. */
  lemma {:induction false} RepeatAt(values: seq<real>, n: nat, b: nat, h: nat)
    requires b < n && h < |values|
    ensures b * |values| + h < |Repeat(values, n)|
    ensures Repeat(values, n)[b * |values| + h] == values[h]
  {
    var len := |values|;
    assert n * len == (n - 1) * len + len;
    if b < n - 1 {
      RepeatAt(values, n - 1, b, h);
    } else {
      assert b * len == (n - 1) * len;
    }
  }

  /** One model year's profile repeated on the new time index. */
  function RepeatTable(t: Table, timeindex: seq<Stamp>, numYears: nat): (r: Table)
    requires Shaped(t) && |t.stamps| == HoursPerYear && |timeindex| == HoursPerYear * numYears
    ensures r.stamps == timeindex && Shaped(r) && Names(r.frame) == Names(t.frame)
    ensures forall k :: 0 <= k < |r.frame| ==> r.frame[k].values == Repeat(t.frame[k].values, numYears)
  {
    var r := Table(timeindex, seq(|t.frame|, k requires 0 <= k < |t.frame| =>
      Column(t.frame[k].name, Repeat(t.frame[k].values, numYears))));
    assert Names(r.frame) == Names(t.frame);
    r
  }

  /** `duplicate_weather_years`: with exactly one weather year of distinct
      hours, every model year's profile, in time order, repeated once per
      weather year on the weather years' time index, the model years
      ascending; otherwise a ValueError. `pd.concat` of no copies fails as
      well. */
  function DuplicateWeatherYears(load: seq<Profile>, timeindex: seq<Stamp>, numYears: nat): (r: Result<seq<Profile>>)
    requires Repeatable(load, timeindex, numYears)
    ensures |load| > 0 && !DistinctStamps(load[0].table.stamps) ==> r == Err(ValueError(DuplicateEntries))
    ensures (|load| == 0 || DistinctStamps(load[0].table.stamps)) && WideLength(load) != HoursPerYear ==>
              r == Err(ValueError(NotOneWeatherYear))
    ensures |load| > 0 && DistinctStamps(load[0].table.stamps) && WideLength(load) == HoursPerYear && numYears == 0 ==>
              r == Err(ValueError(NothingToConcat))
    ensures r.Ok? <==> |load| > 0 && DistinctStamps(load[0].table.stamps) && WideLength(load) == HoursPerYear && numYears > 0
    ensures r.Ok? ==> |r.value| == |load| && Uniform(r.value) && Increasing(YearsOf(r.value))
    ensures r.Ok? ==> forall i :: 0 <= i < |r.value| ==>
              r.value[i].table.stamps == timeindex && Names(r.value[i].table.frame) == Names(load[0].table.frame)
    ensures r.Ok? ==> forall i :: 0 <= i < |load| ==> load[i].year in YearsOf(r.value)
  {
    if |load| > 0 && !DistinctStamps(load[0].table.stamps) then Err(ValueError(DuplicateEntries))
    else if WideLength(load) != HoursPerYear then Err(ValueError(NotOneWeatherYear))
    else if numYears == 0 then Err(ValueError(NothingToConcat))
    else
      var ord := TimeOrder(load[0].table.stamps);
      var sorted := SortDesc(load, EarlierYear);
      SortedByYear(load, sorted);
      var r := seq(|sorted|, i requires 0 <= i < |sorted| =>
        Profile(sorted[i].year, RepeatTable(Reorder(sorted[i].table, ord), timeindex, numYears)));
      RepeatedUniform(load, timeindex, numYears, sorted, r);
      Ok(r)
  }

  /** The model years sorted: the same profiles, years strictly ascending. */
  lemma SortedByYear(load: seq<Profile>, sorted: seq<Profile>)
    requires Uniform(load)
    requires multiset(sorted) == multiset(load) && SortedDesc(sorted, EarlierYear)
    ensures forall i :: 0 <= i < |sorted| ==> sorted[i] in load && SameShape(load[0].table, sorted[i].table)
    ensures forall i :: 0 <= i < |load| ==> load[i] in sorted
    ensures Increasing(YearsOf(sorted))
  {
    forall i | 0 <= i < |sorted| ensures sorted[i] in load && SameShape(load[0].table, sorted[i].table) {
      assert sorted[i] in multiset(load);
      var j :| 0 <= j < |load| && load[j] == sorted[i];
    }
    forall i | 0 <= i < |load| ensures load[i] in sorted {
      assert load[i] in multiset(sorted);
    }
    assert KeysUnique(load, YearOf);
    KeysUniquePermutation(sorted, load, YearOf);
    forall i, j | 0 <= i < j < |sorted| ensures sorted[i].year < sorted[j].year {
      assert EarlierYear(sorted[i]) >= EarlierYear(sorted[j]);
      assert YearOf(sorted[i]) != YearOf(sorted[j]);
    }
  }

  lemma RepeatedUniform(load: seq<Profile>, timeindex: seq<Stamp>, numYears: nat, sorted: seq<Profile>, r: seq<Profile>)
    requires Repeatable(load, timeindex, numYears) && WideLength(load) == HoursPerYear
    requires |sorted| == |load| && |r| == |load| && Increasing(YearsOf(sorted))
    requires forall i :: 0 <= i < |sorted| ==> SameShape(load[0].table, sorted[i].table)
    requires forall i :: 0 <= i < |r| ==>
               r[i].year == sorted[i].year && r[i].table.stamps == timeindex
               && Shaped(r[i].table) && Names(r[i].table.frame) == Names(load[0].table.frame)
    ensures Uniform(r) && Increasing(YearsOf(r))
  {
    forall i | 0 <= i < |r| ensures SameShape(r[0].table, r[i].table) {
    }
    forall i, j | 0 <= i < j < |r| ensures r[i].year < r[j].year {
      assert YearsOf(sorted)[i] < YearsOf(sorted)[j];
    }
  }

  /** Output model year `j` is a sorted input profile, its rows in time
      order, repeated. */
  lemma DuplicateIsRepeat(load: seq<Profile>, timeindex: seq<Stamp>, numYears: nat, j: nat)
    requires Repeatable(load, timeindex, numYears) && DuplicateWeatherYears(load, timeindex, numYears).Ok?
    requires j < |load|
    ensures var sorted := SortDesc(load, EarlierYear);
            var ord := TimeOrder(load[0].table.stamps);
            && sorted[j] in load && SameShape(load[0].table, sorted[j].table)
            && DuplicateWeatherYears(load, timeindex, numYears).value[j]
               == Profile(sorted[j].year, RepeatTable(Reorder(sorted[j].table, ord), timeindex, numYears))
  {
    SortedByYear(load, SortDesc(load, EarlierYear));
  }

  /** Every weather-year block of a repeated profile is the profile of the
      same model year, its hours in time order. */
  lemma DuplicateBlocks(load: seq<Profile>, timeindex: seq<Stamp>, numYears: nat, j: nat, k: nat, b: nat, h: nat)
    requires Repeatable(load, timeindex, numYears) && DuplicateWeatherYears(load, timeindex, numYears).Ok?
    requires j < |load| && k < |load[0].table.frame| && b < numYears && h < HoursPerYear
    ensures var p := DuplicateWeatherYears(load, timeindex, numYears).value[j];
            var ord := TimeOrder(load[0].table.stamps);
            k < |p.table.frame| && b * HoursPerYear + h < |p.table.frame[k].values| && h < |ord|
            && exists i :: 0 <= i < |load| && load[i].year == p.year && k < |load[i].table.frame|
                 && ord[h] < |load[i].table.frame[k].values|
                 && p.table.frame[k].values[b * HoursPerYear + h] == load[i].table.frame[k].values[ord[h]]
  {
    var p := DuplicateWeatherYears(load, timeindex, numYears).value[j];
    var ord := TimeOrder(load[0].table.stamps);
    var sorted := SortDesc(load, EarlierYear);
    DuplicateIsRepeat(load, timeindex, numYears, j);
    var i :| 0 <= i < |load| && load[i] == sorted[j];
    assert SameShape(load[0].table, load[i].table);
    var t := Reorder(load[i].table, ord);
    assert p == Profile(load[i].year, RepeatTable(t, timeindex, numYears));
    RepeatAt(t.frame[k].values, numYears, b, h);
    assert p.table.frame[k].values[b * HoursPerYear + h] == load[i].table.frame[k].values[ord[h]];
  }

  /** On a time index in order and model years ascending, block `b` of model
      year `i` is model year `i`'s profile, hour for hour. */
  lemma DuplicateInOrder(load: seq<Profile>, timeindex: seq<Stamp>, numYears: nat, i: nat, k: nat, b: nat, h: nat)
    requires Repeatable(load, timeindex, numYears) && DuplicateWeatherYears(load, timeindex, numYears).Ok?
    requires Increasing(YearsOf(load)) && Chronological(load[0].table.stamps)
    requires i < |load| && k < |load[i].table.frame| && b < numYears && h < HoursPerYear
    ensures var p := DuplicateWeatherYears(load, timeindex, numYears).value[i];
            p.year == load[i].year && k < |p.table.frame| && b * HoursPerYear + h < |p.table.frame[k].values|
            && p.table.frame[k].values[b * HoursPerYear + h] == load[i].table.frame[k].values[h]
  {
    assert SameShape(load[0].table, load[i].table);
    forall i1, i2 | 0 <= i1 < i2 < |load| ensures EarlierYear(load[i1]) >= EarlierYear(load[i2]) {
      assert YearsOf(load)[i1] < YearsOf(load)[i2];
    }
    SortDescSorted(load, EarlierYear);
    TimeOrderChronological(load[0].table.stamps);
    var t := Reorder(load[i].table, TimeOrder(load[0].table.stamps));
    RepeatAt(t.frame[k].values, numYears, b, h);
  }

  // ---------------------------------------------------------------------------
  // Count check of apply_regional_load_adjustments (lines 512-519)
  // ---------------------------------------------------------------------------

  const AdjustCountMismatch := "Number of GSw load adjustment profiles does not equal the same number of adoption rate profiles"

  /** The "__"-separated suffixes of the profile and adoption switches, which
      must be equally many. */
  function LoadAdjustSuffixes(profiles: string, adoption: string): (r: Result<(seq<string>, seq<string>)>)
    ensures r.Ok? <==> |Split(profiles, "__")| == |Split(adoption, "__")|
    ensures r.Err? ==> r.error == SystemExit(AdjustCountMismatch)
    ensures r.Ok? ==> |r.value.0| == |r.value.1| >= 1
    ensures r.Ok? ==> Join(r.value.0, "__") == profiles && Join(r.value.1, "__") == adoption
  {
    var p := Split(profiles, "__");
    var a := Split(adoption, "__");
    JoinSplit(profiles, "__");
    JoinSplit(adoption, "__");
    if |a| != |p| then Err(SystemExit(AdjustCountMismatch)) else Ok((p, a))
  }

  // ---------------------------------------------------------------------------
  // apply_distribution_loss_factor (lines 601-617)
  // ---------------------------------------------------------------------------

  /** Every value of `t` divided by `d`. */
  function DivideTable(t: Table, d: real): (r: Table)
    requires d != 0.0
    ensures r.stamps == t.stamps && Names(r.frame) == Names(t.frame) && |r.frame| == |t.frame|
    ensures forall k :: 0 <= k < |t.frame| ==>
              |r.frame[k].values| == |t.frame[k].values|
              && forall h :: 0 <= h < |t.frame[k].values| ==> r.frame[k].values[h] * d == t.frame[k].values[h]
  {
    var r := Table(t.stamps, seq(|t.frame|, k requires 0 <= k < |t.frame| =>
      Column(t.frame[k].name, seq(|t.frame[k].values|, h requires 0 <= h < |t.frame[k].values| =>
        t.frame[k].values[h] / d))));
    assert Names(r.frame) == Names(t.frame);
    r
  }

  /** The grossed-up load. At `distloss = 1` numpy divides every value by
      zero, which a real-valued table cannot hold: the result then keeps
      the input, and every cell stands for that value over zero. */
  datatype Grossed = Grossed(load: seq<Profile>) | OverZero(load: seq<Profile>)

  /** The numpy value of one cell of the grossed-up load. */
  function GrossedCell(g: Grossed, i: nat, k: nat, h: nat): Float
    requires i < |g.load| && k < |g.load[i].table.frame| && h < |g.load[i].table.frame[k].values|
  {
    var v := g.load[i].table.frame[k].values[h];
    if g.Grossed? then Num(v) else Div(v, 0.0)
  }

  /** `load / (1 - distloss)`: busbar load grossed up for the share lost in
      transmission and distribution. Multiplying back by `1 - distloss`
      gives the end-use load; at `distloss = 1` the division is by zero. */
  function DistLoss(load: seq<Profile>, distloss: real): (r: Grossed)
    ensures r.OverZero? <==> distloss == 1.0
    ensures |r.load| == |load|
    ensures forall i :: 0 <= i < |load| ==>
              r.load[i].year == load[i].year && r.load[i].table.stamps == load[i].table.stamps
              && Names(r.load[i].table.frame) == Names(load[i].table.frame)
              && |r.load[i].table.frame| == |load[i].table.frame|
    ensures r.Grossed? ==> forall i, k, h ::
              0 <= i < |load| && 0 <= k < |load[i].table.frame| && 0 <= h < |load[i].table.frame[k].values| ==>
              |r.load[i].table.frame[k].values| == |load[i].table.frame[k].values|
              && r.load[i].table.frame[k].values[h] * (1.0 - distloss) == load[i].table.frame[k].values[h]
  {
    if distloss == 1.0 then OverZero(load)
    else Grossed(seq(|load|, i requires 0 <= i < |load| => Profile(load[i].year, DivideTable(load[i].table, 1.0 - distloss))))
  }

  /** Every cell of the result is numpy's division of the input cell by
      `1 - distloss`: finite for any other loss, and an infinity of the
      value's sign, or NaN for zero, at a loss of 1. */
  lemma DistLossCells(load: seq<Profile>, distloss: real, i: nat, k: nat, h: nat)
    requires i < |load| && k < |load[i].table.frame| && h < |load[i].table.frame[k].values|
    ensures var g := DistLoss(load, distloss);
            && k < |g.load[i].table.frame| && h < |g.load[i].table.frame[k].values|
            && GrossedCell(g, i, k, h) == Div(load[i].table.frame[k].values[h], 1.0 - distloss)
  {
  }

  /** Grossing up scales every weather-year total by `1 / (1 - distloss)`. */
  lemma DistLossTotal(load: seq<Profile>, distloss: real, i: nat, k: nat, w: int)
    requires distloss != 1.0 && i < |load| && Shaped(load[i].table)
    ensures Total(DistLoss(load, distloss).load[i].table, k, w) * (1.0 - distloss) == Total(load[i].table, k, w)
  {
    DivideTableTotal(load[i].table, 1.0 - distloss, DistLoss(load, distloss).load[i].table, k, w);
  }

  lemma DivideTableTotal(t: Table, d: real, r: Table, k: nat, w: int)
    requires Shaped(t) && d != 0.0 && r == DivideTable(t, d)
    ensures Total(r, k, w) * d == Total(t, k, w)
  {
    if k < |t.frame| {
      DividedHours(t, d, r, k);
      WeatherTotalScaled(t.frame[k].values, r.frame[k].values, t.stamps, w, 1.0 / d);
      Reciprocal(Total(r, k, w), Total(t, k, w), d);
    }
  }

  lemma DividedHours(t: Table, d: real, r: Table, k: nat)
    requires Shaped(t) && d != 0.0 && r == DivideTable(t, d) && k < |t.frame|
    ensures |r.frame[k].values| == |t.frame[k].values| == |t.stamps|
    ensures forall h :: 0 <= h < |t.stamps| ==> r.frame[k].values[h] == t.frame[k].values[h] * (1.0 / d)
  {
    var v := t.frame[k].values;
    var s := r.frame[k].values;
    forall h | 0 <= h < |t.stamps| ensures s[h] == v[h] * (1.0 / d) {
      Reciprocal(s[h], v[h], d);
    }
  }

  lemma Reciprocal(x: real, y: real, d: real)
    requires d != 0.0
    ensures x * d == y <==> x == y * (1.0 / d)
  {
  }
}
