/** The coincident peak demand of input_processing/hourly_load.py (lines
    619-648): hourly load summed to every level of the region hierarchy,
    its maximum in each model year, and the same for the model regions
    themselves. */
module PeakLoad {
  import opened Wrappers
  import opened Seqs
  import opened Frames
  import opened Rounding
  import opened HourlyLoad

  /** One column of the region hierarchy: its name and the region each
      model region `r` belongs to at that level. */
  datatype Level = Level(name: string, rmap: map<string, string>)

  /** One row of the peak table: the coincident peak of a region at a
      level, one value per model year of the load. */
  datatype PeakRow = PeakRow(level: string, region: string, peaks: seq<real>)

  function Renamer(rmap: map<string, string>): string -> string
  {
    (x: string) => MapName(rmap, x)
  }

  /** What the peak calculation needs: model years on one time index with
      at least one hour (a model year with no hours is not a row group of
      the source's table), and a hierarchy whose column names are distinct. */
  ghost predicate Peakable(load: seq<Profile>, levels: seq<Level>)
  {
    && Uniform(load) && (|load| > 0 ==> |load[0].table.stamps| > 0)
    && forall a, b :: 0 <= a < b < |levels| ==> levels[a].name != levels[b].name
  }

  function LevelNames(levels: seq<Level>): (r: seq<string>)
    ensures |r| == |levels| && forall a :: 0 <= a < |levels| ==> r[a] == levels[a].name
  {
    seq(|levels|, a requires 0 <= a < |levels| => levels[a].name)
  }

  /** Hour by hour, the sum of the columns of `f` renamed to `g`. */
  function HourlyGroup(f: Frame, rename: string -> string, g: string, n: nat): (r: seq<real>)
    requires Rect(f, n)
    ensures |r| == n && forall h :: 0 <= h < n ==> r[h] == GroupTotal(f, rename, g, h)
  {
    seq(n, h requires 0 <= h < n => GroupTotal(f, rename, g, h))
  }

  /** The reference value: the highest hourly sum, over the hours of `t`,
      of the regions renamed to `g`. */
  function GroupPeak(t: Table, rename: string -> string, g: string): (m: real)
    requires Shaped(t) && |t.stamps| > 0
    ensures forall h :: 0 <= h < |t.stamps| ==> GroupTotal(t.frame, rename, g, h) <= m
    ensures exists h :: 0 <= h < |t.stamps| && GroupTotal(t.frame, rename, g, h) == m
  {
    Max(HourlyGroup(t.frame, rename, g, |t.stamps|))
  }

  /** Tables with the same columns rename to the same names. */
  lemma RenamedSameNames(f: Frame, g: Frame, rename: string -> string)
    requires Names(f) == Names(g)
    ensures Renamed(f, rename) == Renamed(g, rename)
  {
    assert |f| == |Names(f)| == |g|;
    forall k | 0 <= k < |f| ensures Renamed(f, rename)[k] == Renamed(g, rename)[k] {
      assert Names(f)[k] == Names(g)[k];
    }
  }

  /** Every model year rolls up to the groups of the first. */
  lemma RollUpUniform(load: seq<Profile>, rename: string -> string)
    requires Uniform(load) && |load| > 0
    ensures forall i :: 0 <= i < |load| ==>
              Names(RollUp(load[i].table.frame, rename, |load[i].table.stamps|))
              == Names(RollUp(load[0].table.frame, rename, |load[0].table.stamps|))
  {
    forall i | 0 <= i < |load|
      ensures Names(RollUp(load[i].table.frame, rename, |load[i].table.stamps|))
              == Names(RollUp(load[0].table.frame, rename, |load[0].table.stamps|))
    {
      assert SameShape(load[0].table, load[i].table);
      RenamedSameNames(load[i].table.frame, load[0].table.frame, rename);
    }
  }

  /** `rename(columns=hierarchy[level]).groupby(axis=1).sum()` on every
      model year: the same groups, in the same order, for all of them. */
  function RolledUp(load: seq<Profile>, rename: string -> string): (r: seq<Frame>)
    requires Peakable(load, []) && |load| > 0
    ensures |r| == |load|
    ensures forall i :: 0 <= i < |r| ==> r[i] == RollUp(load[i].table.frame, rename, |load[0].table.stamps|)
  {
    var n := |load[0].table.stamps|;
    assert forall i :: 0 <= i < |load| ==> SameShape(load[0].table, load[i].table);
    seq(|load|, i requires 0 <= i < |load| => RollUp(load[i].table.frame, rename, n))
  }

  lemma RolledUpShape(load: seq<Profile>, rename: string -> string, rolled: seq<Frame>)
    requires Peakable(load, []) && |load| > 0 && rolled == RolledUp(load, rename)
    ensures forall i :: 0 <= i < |rolled| ==>
              Rect(rolled[i], |load[0].table.stamps|) && Names(rolled[i]) == Names(rolled[0]) && |rolled[i]| == |rolled[0]|
    ensures Names(rolled[0]) == DedupBy(Renamed(load[0].table.frame, rename), Id)
  {
    RollUpUniform(load, rename);
    forall i | 0 <= i < |rolled| ensures |rolled[i]| == |rolled[0]| {
      assert |Names(rolled[i])| == |rolled[i]|;
    }
  }

  /** `.groupby(level='year').max().T` on one model year's table per
      entry of `frames`: one row per column, holding each year's maximum
      rounded to three decimals. */
  function PeakRows(level: string, columns: seq<string>, frames: seq<Frame>, n: nat): (r: seq<PeakRow>)
    requires n > 0 && forall i :: 0 <= i < |frames| ==> Rect(frames[i], n) && |frames[i]| == |columns|
    ensures |r| == |columns|
    ensures forall k :: 0 <= k < |r| ==> r[k].level == level && r[k].region == columns[k] && |r[k].peaks| == |frames|
  {
    seq(|columns|, k requires 0 <= k < |columns| =>
      PeakRow(level, columns[k], seq(|frames|, i requires 0 <= i < |frames| =>
        assert Rect(frames[i], n);
        assert |frames[i][k].values| == n;
        Round3(Max(frames[i][k].values)))))
  }

  /** The level's rolled-up columns, then their peaks. */
  function LevelRows(load: seq<Profile>, name: string, rename: string -> string): (r: seq<PeakRow>)
    requires Peakable(load, []) && |load| > 0
    ensures forall k :: 0 <= k < |r| ==> r[k].level == name && |r[k].peaks| == |load|
  {
    var rolled := RolledUp(load, rename);
    RolledUpShape(load, rename, rolled);
    assert |Names(rolled[0])| == |rolled[0]|;
    PeakRows(name, Names(rolled[0]), rolled, |load[0].table.stamps|)
  }

  /** The model-year tables of the load. */
  function YearFrames(load: seq<Profile>): (r: seq<Frame>)
    requires Peakable(load, []) && |load| > 0
    ensures |r| == |load|
    ensures forall i :: 0 <= i < |r| ==>
              r[i] == load[i].table.frame && Rect(r[i], |load[0].table.stamps|) && |r[i]| == |r[0]|
  {
    assert forall i :: 0 <= i < |load| ==> SameShape(load[0].table, load[i].table);
    seq(|load|, i requires 0 <= i < |load| => load[i].table.frame)
  }

  /** `load_hourly.groupby(level='year').max().T`: the peak of every model
      region. */
  function RegionRows(load: seq<Profile>): (r: seq<PeakRow>)
    requires Peakable(load, []) && |load| > 0
    ensures |r| == |load[0].table.frame|
    ensures forall k :: 0 <= k < |r| ==>
              r[k].level == "r" && r[k].region == load[0].table.frame[k].name && |r[k].peaks| == |load|
  {
    PeakRows("r", Names(load[0].table.frame), YearFrames(load), |load[0].table.stamps|)
  }

  /** The rows of one key of the `_peakload` dictionary: a hierarchy column
      named "r" is overwritten by the model-region peaks. */
  function RowsOf(load: seq<Profile>, lv: Level): (r: seq<PeakRow>)
    requires Peakable(load, []) && |load| > 0
    ensures forall k :: 0 <= k < |r| ==> r[k].level == lv.name && |r[k].peaks| == |load|
  {
    if lv.name == "r" then RegionRows(load) else LevelRows(load, lv.name, Renamer(lv.rmap))
  }

  /** The rows of every key, one key after the other. */
  function LevelsRows(load: seq<Profile>, levels: seq<Level>): (r: seq<PeakRow>)
    requires Peakable(load, []) && |load| > 0
    ensures forall a, x :: 0 <= a < |levels| && x in RowsOf(load, levels[a]) ==> x in r
    ensures forall j :: 0 <= j < |r| ==> exists a :: 0 <= a < |levels| && r[j] in RowsOf(load, levels[a])
  {
    var parts := seq(|levels|, a requires 0 <= a < |levels| => RowsOf(load, levels[a]));
    var r := Flatten(parts);
    assert forall a :: 0 <= a < |levels| ==> parts[a] == RowsOf(load, levels[a]);
    r
  }

  /** `calculate_peak_load`: the peak rows of every hierarchy level in
      column order, then those of the model regions themselves. */
  function Peak(load: seq<Profile>, levels: seq<Level>): (r: seq<PeakRow>)
    requires Peakable(load, levels)
    ensures |load| == 0 ==> r == []
    ensures forall j :: 0 <= j < |r| ==>
              |r[j].peaks| == |load|
  {
    if |load| == 0 then []
    else LevelsRows(load, levels) + (if "r" in LevelNames(levels) then [] else RegionRows(load))
  }

  /** A level's peak of region `g` in a model year is the highest hourly
      sum of the model regions mapped to `g`, rounded; and `g` is one of
      the names the level maps the model regions to. */
  lemma LevelPeakIsGroupPeak(load: seq<Profile>, name: string, rename: string -> string, k: nat, i: nat)
    requires Peakable(load, []) && |load| > 0 && i < |load|
    requires k < |LevelRows(load, name, rename)|
    ensures var row := LevelRows(load, name, rename)[k];
            && row.region in Renamed(load[0].table.frame, rename)
            && Shaped(load[i].table) && |load[i].table.stamps| > 0
            && row.peaks[i] == Round3(GroupPeak(load[i].table, rename, row.region))
  {
    var n := |load[0].table.stamps|;
    var rolled := RolledUp(load, rename);
    RolledUpShape(load, rename, rolled);
    var groups := Names(rolled[0]);
    var row := LevelRows(load, name, rename)[k];
    assert SameShape(load[0].table, load[i].table);
    assert row.region == groups[k] == Names(rolled[i])[k] == rolled[i][k].name;
    var renamed := Renamed(load[0].table.frame, rename);
    assert groups[k] in KeySet(DedupBy(renamed, Id), Id);
    DedupMembers(renamed, Id, groups[k]);
    PeakRowsAt(name, groups, rolled, n, k, i);
    RolledColumn(load[i].table.frame, rename, n, rolled[i], k);
  }

  lemma PeakRowsAt(level: string, columns: seq<string>, frames: seq<Frame>, n: nat, k: nat, i: nat)
    requires n > 0 && forall j :: 0 <= j < |frames| ==> Rect(frames[j], n) && |frames[j]| == |columns|
    requires k < |columns| && i < |frames|
    ensures |frames[i][k].values| == n
    ensures PeakRows(level, columns, frames, n)[k].peaks[i] == Round3(Max(frames[i][k].values))
  {
    assert Rect(frames[i], n);
  }

  /** Column `k` of the roll-up holds the hourly sums of its group. */
  lemma RolledColumn(f: Frame, rename: string -> string, n: nat, rolled: Frame, k: nat)
    requires Rect(f, n) && rolled == RollUp(f, rename, n) && k < |rolled|
    ensures rolled[k].values == HourlyGroup(f, rename, rolled[k].name, n)
  {
    assert Rect(rolled, n);
  }

  /** Each model region's peak in a model year lies within rounding of
      every hour's load and of some hour's load. */
  lemma RegionPeakBounds(load: seq<Profile>, k: nat, i: nat)
    requires Peakable(load, []) && |load| > 0 && i < |load| && k < |load[0].table.frame|
    ensures var p := RegionRows(load)[k].peaks[i];
            var v := load[i].table.frame[k].values;
            && |v| == |load[0].table.stamps|
            && (forall h :: 0 <= h < |v| ==> v[h] <= p + 0.0005)
            && (exists h :: 0 <= h < |v| && -0.0005 <= p - v[h] <= 0.0005)
  {
    assert SameShape(load[0].table, load[i].table);
    var v := load[i].table.frame[k].values;
    assert Rect(load[i].table.frame, |load[0].table.stamps|);
    assert RegionRows(load)[k].peaks[i] == Round3(Max(v));
  }

  /** Every row of the peak table is the peak row of a hierarchy level's
      region, or of a model region at level "r". */
  lemma PeakRowOrigin(load: seq<Profile>, levels: seq<Level>, x: PeakRow)
    requires Peakable(load, levels) && x in Peak(load, levels)
    ensures |load| > 0
    ensures x.level == "r" ==> x in RegionRows(load)
    ensures x.level != "r" ==> exists a :: 0 <= a < |levels| && levels[a].name == x.level
                                 && x in LevelRows(load, x.level, Renamer(levels[a].rmap))
  {
    var rows := LevelsRows(load, levels);
    if x in rows {
      var j :| 0 <= j < |rows| && rows[j] == x;
    }
  }

  /** Conversely, every region a level maps a model region to has its
      peak row at that level, and every model region has one at "r". */
  lemma PeakCovers(load: seq<Profile>, levels: seq<Level>, a: nat, g: string)
    requires Peakable(load, levels) && |load| > 0 && a < |levels| && levels[a].name != "r"
    requires g in Renamed(load[0].table.frame, Renamer(levels[a].rmap))
    ensures exists x :: x in Peak(load, levels) && x.level == levels[a].name && x.region == g
  {
    var rename := Renamer(levels[a].rmap);
    var renamed := Renamed(load[0].table.frame, rename);
    var rolled := RolledUp(load, rename);
    RolledUpShape(load, rename, rolled);
    var rows := LevelRows(load, levels[a].name, rename);
    assert g in KeySet(renamed, Id);
    var k :| 0 <= k < |Names(rolled[0])| && Names(rolled[0])[k] == g;
    assert rows[k].region == g && rows[k] in RowsOf(load, levels[a]);
  }

  lemma RegionCovered(load: seq<Profile>, levels: seq<Level>, k: nat)
    requires Peakable(load, levels) && |load| > 0 && k < |load[0].table.frame|
    ensures exists x :: x in Peak(load, levels) && x.level == "r" && x.region == load[0].table.frame[k].name
  {
    var x := RegionRows(load)[k];
    if "r" in LevelNames(levels) {
      var a :| 0 <= a < |levels| && levels[a].name == "r";
      assert x in RowsOf(load, levels[a]);
    }
  }
}
