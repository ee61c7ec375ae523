/** The allocation of hourly state load to model regions in
    input_processing/hourly_load.py (lines 650-703): the per-state shares
    of each region are summed and pivoted into a state-by-region matrix, a
    region no state sends load to stops the run, and every region's hourly
    load is the share-weighted sum of its states' load. */
module RegionalLoad {
  import opened Wrappers
  import opened Seqs
  import opened Text
  import opened Frames
  import opened HourlyLoad

  /** One row of the disaggregation data: the share `frac` of a state's
      load that goes to model region `region`. */
  datatype Disagg = Disagg(state: string, region: string, frac: real)

  function StatesOf(rows: seq<Disagg>): (r: seq<string>)
    ensures |r| == |rows| && forall i :: 0 <= i < |rows| ==> r[i] == rows[i].state
  {
    seq(|rows|, i requires 0 <= i < |rows| => rows[i].state)
  }

  function RegionsOf(rows: seq<Disagg>): (r: seq<string>)
    ensures |r| == |rows| && forall i :: 0 <= i < |rows| ==> r[i] == rows[i].region
  {
    seq(|rows|, i requires 0 <= i < |rows| => rows[i].region)
  }

  /** The pivot's index: every state once. */
  function States(rows: seq<Disagg>): seq<string>
  {
    DedupBy(StatesOf(rows), Id)
  }

  /** The pivot's columns: every region once. */
  function Regions(rows: seq<Disagg>): seq<string>
  {
    DedupBy(RegionsOf(rows), Id)
  }

  /** Deduplication keeps exactly the names it was given. */
  lemma DedupIn(names: seq<string>, g: string)
    ensures g in DedupBy(names, Id) <==> g in names
  {
    if g in names {
      assert Id(g) in KeySet(names, Id);
      var r := DedupBy(names, Id);
      var j :| 0 <= j < |r| && Id(r[j]) == g;
    }
    if g in DedupBy(names, Id) {
      DedupMembers(names, Id, g);
    }
  }

  /** The pivot has a row for every state of the data and a column for every
      region, and only those. */
  lemma StatesRegionsIn(rows: seq<Disagg>, s: string, g: string)
    ensures s in States(rows) <==> exists i :: 0 <= i < |rows| && rows[i].state == s
    ensures g in Regions(rows) <==> exists i :: 0 <= i < |rows| && rows[i].region == g
  {
    DedupIn(StatesOf(rows), s);
    DedupIn(RegionsOf(rows), g);
    if s in StatesOf(rows) {
      var i :| 0 <= i < |rows| && StatesOf(rows)[i] == s;
    }
    if g in RegionsOf(rows) {
      var i :| 0 <= i < |rows| && RegionsOf(rows)[i] == g;
    }
  }

  /** `groupby(['state', 'r']).sum()` then `fillna(0)`: the summed shares of
      state `s` in region `g`, zero for a pair without a row. */
  function Factor(rows: seq<Disagg>, s: string, g: string): (f: real)
    ensures (forall i :: 0 <= i < |rows| ==> rows[i].state != s || rows[i].region != g) ==> f == 0.0
    decreases |rows|
  {
    if |rows| == 0 then 0.0
    else
      var n := |rows| - 1;
      Factor(rows[..n], s, g) + (if rows[n].state == s && rows[n].region == g then rows[n].frac else 0.0)
  }

  /** The pivoted factors: a row per state, a column per region. */
  datatype Pivot = Pivot(states: seq<string>, regions: seq<string>, shares: seq<seq<real>>)

  ghost predicate WellFormed(p: Pivot)
  {
    |p.shares| == |p.states| && forall i :: 0 <= i < |p.shares| ==> |p.shares[i]| == |p.regions|
  }

  function Matrix(rows: seq<Disagg>, states: seq<string>, regions: seq<string>): (m: seq<seq<real>>)
    ensures |m| == |states| && forall i :: 0 <= i < |m| ==> |m[i]| == |regions|
    ensures forall i, j :: 0 <= i < |states| && 0 <= j < |regions| ==> m[i][j] == Factor(rows, states[i], regions[j])
  {
    seq(|states|, i requires 0 <= i < |states| =>
      seq(|regions|, j requires 0 <= j < |regions| => Factor(rows, states[i], regions[j])))
  }

  /** `pivot(index='state', columns='r', values='state_frac').fillna(0)`. */
  function PivotOf(rows: seq<Disagg>): (p: Pivot)
    ensures WellFormed(p) && p.states == States(rows) && p.regions == Regions(rows)
    ensures forall i, j :: 0 <= i < |p.states| && 0 <= j < |p.regions| ==>
              p.shares[i][j] == Factor(rows, p.states[i], p.regions[j])
  {
    var states := States(rows);
    var regions := Regions(rows);
    Pivot(states, regions, Matrix(rows, states, regions))
  }

  /** Column `j` of a matrix. */
  function Col(m: seq<seq<real>>, j: nat): (c: seq<real>)
    requires forall i :: 0 <= i < |m| ==> j < |m[i]|
    ensures |c| == |m| && forall i :: 0 <= i < |m| ==> c[i] == m[i][j]
  {
    seq(|m|, i requires 0 <= i < |m| => m[i][j])
  }

  /** `.sum()` of the factor matrix: each region's share over all states. */
  function RegionShares(p: Pivot): (r: seq<real>)
    requires WellFormed(p)
    ensures |r| == |p.regions|
    ensures forall j :: 0 <= j < |r| ==> r[j] == Sum(Col(p.shares, j))
  {
    seq(|p.regions|, j requires 0 <= j < |p.regions| => Sum(Col(p.shares, j)))
  }

  /** Smallest element; `min()` of a non-empty pandas column. */
  function Min(s: seq<real>): (m: real)
    requires |s| > 0
    ensures forall i :: 0 <= i < |s| ==> m <= s[i]
    ensures exists i :: 0 <= i < |s| && s[i] == m
    decreases |s|
  {
    if |s| == 1 then s[0]
    else
      var m' := Min(s[..|s| - 1]);
      assert forall i :: 0 <= i < |s| - 1 ==> s[..|s| - 1][i] == s[i];
      if m' <= s[|s| - 1] then m' else s[|s| - 1]
  }

  /** The source's test `sum().min() == 0`; the minimum of no regions is
      NaN, which is not zero. */
  predicate MinIsZero(shares: seq<real>)
  {
    |shares| > 0 && Min(shares) == 0.0
  }

  /** The test fires exactly when some region's share is zero and none is
      negative: a negative share hides a zero one. */
  lemma MinIsZeroIff(shares: seq<real>)
    ensures MinIsZero(shares) <==>
            (exists j :: 0 <= j < |shares| && shares[j] == 0.0) && (forall j :: 0 <= j < |shares| ==> shares[j] >= 0.0)
  {
  }

  function ZeroLoadMessage(allocation: string, zeroRegions: seq<string>): string
  {
    "Load allocation method " + allocation + " produced the following regions with 0 load. "
    + "Update GSw_LoadAllocationMethod in your cases file:\n" + Join(zeroRegions, "\n") + "\n"
  }

  /** Each region paired with its share. */
  function Tagged(p: Pivot): (r: seq<(string, real)>)
    requires WellFormed(p)
    ensures |r| == |p.regions| && forall j :: 0 <= j < |r| ==> r[j] == (p.regions[j], RegionShares(p)[j])
  {
    var shares := RegionShares(p);
    seq(|p.regions|, j requires 0 <= j < |p.regions| => (p.regions[j], shares[j]))
  }

  function IsZero(e: (string, real)): bool
  {
    e.1 == 0.0
  }

  /** The regions whose share is zero, in column order. */
  function ZeroRegions(p: Pivot): (r: seq<string>)
    requires WellFormed(p)
    ensures |r| <= |p.regions|
  {
    var zero := Filter(Tagged(p), IsZero);
    seq(|zero|, k requires 0 <= k < |zero| => zero[k].0)
  }

  /** The error message names exactly the regions whose share is zero. */
  lemma ZeroRegionsIff(p: Pivot, g: string)
    requires WellFormed(p)
    ensures g in ZeroRegions(p) <==> exists j :: 0 <= j < |p.regions| && p.regions[j] == g && RegionShares(p)[j] == 0.0
  {
    var keep := Tagged(p);
    var zero := Filter(keep, IsZero);
    var r := ZeroRegions(p);
    if g in r {
      var k :| 0 <= k < |r| && r[k] == g;
      FilterMembers(keep, IsZero, zero[k]);
      var j :| 0 <= j < |keep| && keep[j] == zero[k];
    }
    if exists j :: 0 <= j < |p.regions| && p.regions[j] == g && RegionShares(p)[j] == 0.0 {
      var j :| 0 <= j < |p.regions| && p.regions[j] == g && RegionShares(p)[j] == 0.0;
      FilterMembers(keep, IsZero, keep[j]);
      var k :| 0 <= k < |zero| && zero[k] == keep[j];
      assert r[k] == g;
    }
  }

  /** Position of a name in a list that holds it. */
  function IndexIn(names: seq<string>, g: string): (i: nat)
    ensures g in names ==> i < |names| && names[i] == g
  {
    match IndexOf(names, g)
    case Some(i) => i
    case None => 0
  }

  /** The hourly load of the first column named `s`. */
  function StateLoad(t: Table, s: string): (v: seq<real>)
    requires Shaped(t) && s in Names(t.frame)
    ensures |v| == |t.stamps|
    ensures exists k :: 0 <= k < |t.frame| && t.frame[k].name == s && v == t.frame[k].values
  {
    var k := IndexIn(Names(t.frame), s);
    t.frame[k].values
  }

  /** The states of the pivot that the load has no column for. */
  function MissingStates(t: Table, p: Pivot): (r: seq<string>)
    ensures forall s :: s in r <==> s in p.states && s !in Names(t.frame)
  {
    var r := Filter(p.states, (s: string) => s !in Names(t.frame));
    forall s ensures s in r <==> s in p.states && s !in Names(t.frame) {
      FilterMembers(p.states, (s: string) => s !in Names(t.frame), s);
    }
    r
  }

  /** The pivot can be applied to the load: every state has a column. */
  ghost predicate Covered(t: Table, p: Pivot)
  {
    Shaped(t) && WellFormed(p) && forall i :: 0 <= i < |p.states| ==> p.states[i] in Names(t.frame)
  }

  /** At hour `h`, what each state sends to each region. */
  function Contributions(t: Table, p: Pivot, h: nat): (c: seq<seq<real>>)
    requires Covered(t, p) && h < |t.stamps|
    ensures |c| == |p.states| && forall i :: 0 <= i < |c| ==> |c[i]| == |p.regions|
    ensures forall i, j :: 0 <= i < |c| && 0 <= j < |p.regions| ==> c[i][j] == StateLoad(t, p.states[i])[h] * p.shares[i][j]
  {
    seq(|p.states|, i requires 0 <= i < |p.states| =>
      seq(|p.regions|, j requires 0 <= j < |p.regions| => StateLoad(t, p.states[i])[h] * p.shares[i][j]))
  }

  /** `state_load_hourly[states].dot(factors)`: region `j`'s hourly load is
      the factor-weighted sum of its states' load. */
  function Dot(t: Table, p: Pivot): (r: Table)
    requires Covered(t, p)
    ensures r.stamps == t.stamps && Shaped(r) && Names(r.frame) == p.regions
  {
    var n := |t.stamps|;
    var r := Table(t.stamps, seq(|p.regions|, j requires 0 <= j < |p.regions| =>
      Column(p.regions[j], seq(n, h requires 0 <= h < n => Sum(Col(Contributions(t, p, h), j))))));
    assert Names(r.frame) == p.regions;
    r
  }

  /** `reaggregate_to_model_regions`: the zero-share check first, then the
      lookup of every state's load, then the allocation. */
  function Reaggregate(t: Table, rows: seq<Disagg>, allocation: string): (r: Result<Table>)
    requires Shaped(t)
    ensures var p := PivotOf(rows);
            MinIsZero(RegionShares(p)) <==> r == Err(ValueError(ZeroLoadMessage(allocation, ZeroRegions(p))))
    ensures var p := PivotOf(rows);
            !MinIsZero(RegionShares(p)) && |MissingStates(t, p)| > 0 ==>
              r.Err? && r.error.KeyError? && r.error.key in p.states && r.error.key !in Names(t.frame)
    ensures var p := PivotOf(rows);
            r.Ok? <==> !MinIsZero(RegionShares(p)) && Covered(t, p)
    ensures r.Ok? ==> r.value.stamps == t.stamps && Shaped(r.value) && Names(r.value.frame) == Regions(rows)
  {
    var p := PivotOf(rows);
    if MinIsZero(RegionShares(p)) then Err(ValueError(ZeroLoadMessage(allocation, ZeroRegions(p))))
    else
      var missing := MissingStates(t, p);
      if |missing| > 0 then
        assert missing[0] in missing;
        Err(KeyError(missing[0]))
      else
        assert Covered(t, p) by {
          forall i | 0 <= i < |p.states| ensures p.states[i] in Names(t.frame) {
            assert p.states[i] !in missing;
          }
        }
        Ok(Dot(t, p))
  }

  // ---------------------------------------------------------------------------
  // The allocation keeps the load
  // ---------------------------------------------------------------------------

  /** Every column's sum. */
  function ColSums(m: seq<seq<real>>, width: nat): (r: seq<real>)
    requires forall i :: 0 <= i < |m| ==> |m[i]| == width
    ensures |r| == width && forall j :: 0 <= j < width ==> r[j] == Sum(Col(m, j))
  {
    seq(width, j requires 0 <= j < width => Sum(Col(m, j)))
  }

  /** Every row's sum. */
  function RowSums(m: seq<seq<real>>): (r: seq<real>)
    ensures |r| == |m| && forall i :: 0 <= i < |m| ==> r[i] == Sum(m[i])
  {
    seq(|m|, i requires 0 <= i < |m| => Sum(m[i]))
  }

  lemma {:induction false} SumPointwise(a: seq<real>, b: seq<real>)
    requires |a| == |b|
    ensures Sum(AddPointwise(a, b)) == Sum(a) + Sum(b)
    decreases |a|
  {
    if |a| > 0 {
      var n := |a| - 1;
      SumPointwise(a[..n], b[..n]);
      assert AddPointwise(a, b)[..n] == AddPointwise(a[..n], b[..n]);
    }
  }

  /** Multiplying every element by `x` multiplies the sum by `x`. */
  lemma {:induction false} SumScale(a: seq<real>, b: seq<real>, x: real)
    requires |a| == |b| && forall j :: 0 <= j < |a| ==> b[j] == x * a[j]
    ensures Sum(b) == x * Sum(a)
    decreases |a|
  {
    if |a| > 0 {
      var n := |a| - 1;
      SumScale(a[..n], b[..n], x);
      assert x * (Sum(a[..n]) + a[n]) == x * Sum(a[..n]) + x * a[n];
    }
  }

  /** Summing a matrix by columns or by rows gives the same total. */
  lemma {:induction false} ColSumsRowSums(m: seq<seq<real>>, width: nat)
    requires forall i :: 0 <= i < |m| ==> |m[i]| == width
    ensures Sum(ColSums(m, width)) == Sum(RowSums(m))
    decreases |m|
  {
    if |m| == 0 {
      ZeroSum(ColSums(m, width));
    } else {
      var n := |m| - 1;
      var m' := m[..n];
      assert Sum(ColSums(m, width)) == Sum(ColSums(m', width)) + Sum(m[n]) by {
        ColSumsSnoc(m, width);
        SumPointwise(ColSums(m', width), m[n]);
      }
      ColSumsRowSums(m', width);
      assert RowSums(m)[..n] == RowSums(m');
    }
  }

  /** Adding a row adds it to the column sums. */
  lemma ColSumsSnoc(m: seq<seq<real>>, width: nat)
    requires forall i :: 0 <= i < |m| ==> |m[i]| == width
    requires |m| > 0
    ensures ColSums(m, width) == AddPointwise(ColSums(m[..|m| - 1], width), m[|m| - 1])
  {
    var n := |m| - 1;
    forall j | 0 <= j < width ensures Sum(Col(m, j)) == Sum(Col(m[..n], j)) + m[n][j] {
      assert Col(m, j)[..n] == Col(m[..n], j);
      assert Col(m, j)[n] == m[n][j];
    }
  }

  lemma {:induction false} ZeroSum(s: seq<real>)
    requires forall j :: 0 <= j < |s| ==> s[j] == 0.0
    ensures Sum(s) == 0.0
    decreases |s|
  {
    if |s| > 0 {
      ZeroSum(s[..|s| - 1]);
    }
  }

  /** The load of every state of the pivot at hour `h`. */
  function StateLoadsAt(t: Table, p: Pivot, h: nat): (r: seq<real>)
    requires Covered(t, p) && h < |t.stamps|
    ensures |r| == |p.states| && forall i :: 0 <= i < |r| ==> r[i] == StateLoad(t, p.states[i])[h]
  {
    seq(|p.states|, i requires 0 <= i < |p.states| => StateLoad(t, p.states[i])[h])
  }

  /** When each state's shares add up to one, every hour the regions
      together receive exactly the load of the states. */
  lemma ReaggregateConserves(t: Table, rows: seq<Disagg>, allocation: string, h: nat)
    requires Shaped(t) && Reaggregate(t, rows, allocation).Ok? && h < |t.stamps|
    requires forall i :: 0 <= i < |PivotOf(rows).states| ==> Sum(PivotOf(rows).shares[i]) == 1.0
    ensures var r := Reaggregate(t, rows, allocation).value;
            Covered(t, PivotOf(rows)) && Sum(At(r.frame, h)) == Sum(StateLoadsAt(t, PivotOf(rows), h))
  {
    var p := PivotOf(rows);
    DotConserves(t, p, Reaggregate(t, rows, allocation).value, h);
  }

  /** Region `j` receives, every hour, the column `j` of the state loads
      times their shares: the matrix product of line 700. */
  lemma ReaggregateAt(t: Table, rows: seq<Disagg>, allocation: string, j: nat, h: nat)
    requires Shaped(t) && Reaggregate(t, rows, allocation).Ok?
    requires j < |Regions(rows)| && h < |t.stamps|
    ensures var p := PivotOf(rows);
            var r := Reaggregate(t, rows, allocation).value;
            && Covered(t, p)
            && r.frame[j].name == Regions(rows)[j]
            && r.frame[j].values[h] == Sum(Col(Contributions(t, p, h), j))
  {
    var p := PivotOf(rows);
    var r := Reaggregate(t, rows, allocation).value;
    assert !MinIsZero(RegionShares(p)) && Covered(t, p);
    assert |MissingStates(t, p)| == 0;
    assert r == Dot(t, p);
    DotAt(t, p, r, j, h);
  }

  lemma DotAt(t: Table, p: Pivot, r: Table, j: nat, h: nat)
    requires Covered(t, p) && r == Dot(t, p) && j < |p.regions| && h < |t.stamps|
    ensures r.frame[j].name == p.regions[j]
    ensures r.frame[j].values[h] == Sum(Col(Contributions(t, p, h), j))
  {
  }

  lemma DotConserves(t: Table, p: Pivot, r: Table, h: nat)
    requires Covered(t, p) && r == Dot(t, p) && h < |t.stamps|
    requires forall i :: 0 <= i < |p.states| ==> Sum(p.shares[i]) == 1.0
    ensures Sum(At(r.frame, h)) == Sum(StateLoadsAt(t, p, h))
  {
    var c := Contributions(t, p, h);
    assert At(r.frame, h) == ColSums(c, |p.regions|);
    assert Sum(ColSums(c, |p.regions|)) == Sum(RowSums(c)) by {
      ColSumsRowSums(c, |p.regions|);
    }
    assert RowSums(c) == StateLoadsAt(t, p, h) by {
      forall i | 0 <= i < |c| ensures Sum(c[i]) == StateLoad(t, p.states[i])[h] {
        RowContribution(t, p, h, c, i);
      }
    }
  }

  /** What state `i` sends to all regions at hour `h`: its load times the
      sum of its shares. */
  lemma RowContribution(t: Table, p: Pivot, h: nat, c: seq<seq<real>>, i: nat)
    requires Covered(t, p) && h < |t.stamps| && c == Contributions(t, p, h) && i < |p.states|
    ensures Sum(c[i]) == StateLoad(t, p.states[i])[h] * Sum(p.shares[i])
  {
    var x := StateLoad(t, p.states[i])[h];
    assert forall j :: 0 <= j < |p.regions| ==> c[i][j] == x * p.shares[i][j];
    SumScale(p.shares[i], c[i], x);
  }
}
