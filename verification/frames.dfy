/** Wide hourly tables (one column per region, one row per hour) and the
    `rename(columns=rmap).groupby(axis=1, level=0).sum()` roll-up the source
    applies to them. */
module Frames {
  import opened Wrappers
  import opened Seqs

  datatype Column = Column(name: string, values: seq<real>)

  type Frame = seq<Column>

  /** Every column holds `n` hourly values. */
  ghost predicate Rect(f: Frame, n: nat)
  {
    forall k :: 0 <= k < |f| ==> |f[k].values| == n
  }

  function Names(f: Frame): (r: seq<string>)
    ensures |r| == |f|
    ensures forall k :: 0 <= k < |f| ==> r[k] == f[k].name
  {
    seq(|f|, k requires 0 <= k < |f| => f[k].name)
  }

  /** One row of the table: the value of every column at hour `h`. */
  function At(f: Frame, h: nat): (r: seq<real>)
    requires forall k :: 0 <= k < |f| ==> h < |f[k].values|
    ensures |r| == |f|
    ensures forall k :: 0 <= k < |f| ==> r[k] == f[k].values[h]
  {
    seq(|f|, k requires 0 <= k < |f| => f[k].values[h])
  }

  /** A column's total over all hours. */
  function ColumnSum(c: Column): real
  {
    Sum(c.values)
  }

  /** The names after renaming, one per input column. */
  function Renamed(f: Frame, rename: string -> string): (r: seq<string>)
    ensures |r| == |f|
    ensures forall k :: 0 <= k < |f| ==> r[k] == rename(f[k].name)
  {
    seq(|f|, k requires 0 <= k < |f| => rename(f[k].name))
  }

  /** Renaming through a `pd.Series` map: names outside its index are kept. */
  function MapName(rmap: map<string, string>, name: string): string
  {
    if name in rmap then rmap[name] else name
  }

  function IndexOf(names: seq<string>, g: string): (r: Option<nat>)
    ensures r.Some? ==> r.value < |names| && names[r.value] == g
    ensures r.Some? ==> forall j :: 0 <= j < r.value ==> names[j] != g
    ensures r.None? ==> g !in names
    decreases |names|
  {
    if |names| == 0 then None
    else if names[0] == g then Some(0)
    else
      match IndexOf(names[1..], g)
      case None => None
      case Some(i) => Some(i + 1)
  }

  function AddPointwise(a: seq<real>, b: seq<real>): (r: seq<real>)
    requires |a| == |b|
    ensures |r| == |a|
    ensures forall h :: 0 <= h < |a| ==> r[h] == a[h] + b[h]
  {
    seq(|a|, h requires 0 <= h < |a| => a[h] + b[h])
  }

  lemma RenamedSnoc(f: Frame, rename: string -> string)
    requires |f| > 0
    ensures Renamed(f, rename) == Renamed(f[..|f| - 1], rename) + [rename(f[|f| - 1].name)]
  {
  }

  /** Sum of the hour-`h` values of the input columns renamed to `g`. */
  function GroupTotal(f: Frame, rename: string -> string, g: string, h: nat): real
    requires forall k :: 0 <= k < |f| ==> h < |f[k].values|
    decreases |f|
  {
    if |f| == 0 then 0.0
    else
      GroupTotal(f[..|f| - 1], rename, g, h)
      + (if rename(f[|f| - 1].name) == g then f[|f| - 1].values[h] else 0.0)
  }

  lemma {:induction false} GroupTotalAbsent(f: Frame, rename: string -> string, g: string, h: nat)
    requires forall k :: 0 <= k < |f| ==> h < |f[k].values|
    requires g !in Renamed(f, rename)
    ensures GroupTotal(f, rename, g, h) == 0.0
    decreases |f|
  {
    if |f| > 0 {
      RenamedSnoc(f, rename);
      GroupTotalAbsent(f[..|f| - 1], rename, g, h);
    }
  }

  lemma GroupTotalSnoc(f: Frame, rename: string -> string, g: string, h: nat)
    requires |f| > 0 && forall k :: 0 <= k < |f| ==> h < |f[k].values|
    ensures GroupTotal(f, rename, g, h)
            == GroupTotal(f[..|f| - 1], rename, g, h)
               + (if rename(f[|f| - 1].name) == g then f[|f| - 1].values[h] else 0.0)
  {
  }

  /** Adds column `c` into the column of the same name, or appends it. */
  function Accumulate(acc: Frame, c: Column, n: nat): (r: Frame)
    requires Rect(acc, n) && |c.values| == n
    ensures Rect(r, n)
  {
    match IndexOf(Names(acc), c.name)
    case None => acc + [c]
    case Some(i) => acc[i := Column(c.name, AddPointwise(acc[i].values, c.values))]
  }

  lemma AccumulateNames(acc: Frame, c: Column, n: nat)
    requires Rect(acc, n) && |c.values| == n
    ensures Names(Accumulate(acc, c, n))
            == if c.name in Names(acc) then Names(acc) else Names(acc) + [c.name]
  {
  }

  /** The roll-up: one column per distinct new name, in order of first
      appearance, holding the hourly sum of the columns renamed to it. */
  function RollUp(f: Frame, rename: string -> string, n: nat): (r: Frame)
    requires Rect(f, n)
    ensures Rect(r, n)
    ensures Names(r) == DedupBy(Renamed(f, rename), Id)
    ensures forall k, h :: 0 <= k < |r| && 0 <= h < n ==>
              r[k].values[h] == GroupTotal(f, rename, r[k].name, h)
    decreases |f|
  {
    if |f| == 0 then []
    else
      var f' := f[..|f| - 1];
      var c := Column(rename(f[|f| - 1].name), f[|f| - 1].values);
      var acc := RollUp(f', rename, n);
      var r := Accumulate(acc, c, n);
      RollUpStep(f, rename, n, acc, r);
      r
  }

  lemma RollUpStep(f: Frame, rename: string -> string, n: nat, acc: Frame, r: Frame)
    requires Rect(f, n) && |f| > 0
    requires Rect(acc, n)
    requires Names(acc) == DedupBy(Renamed(f[..|f| - 1], rename), Id)
    requires forall k, h :: 0 <= k < |acc| && 0 <= h < n ==>
               acc[k].values[h] == GroupTotal(f[..|f| - 1], rename, acc[k].name, h)
    requires r == Accumulate(acc, Column(rename(f[|f| - 1].name), f[|f| - 1].values), n)
    ensures Names(r) == DedupBy(Renamed(f, rename), Id)
    ensures forall k, h :: 0 <= k < |r| && 0 <= h < n ==>
              r[k].values[h] == GroupTotal(f, rename, r[k].name, h)
  {
    var s' := Renamed(f[..|f| - 1], rename);
    RenamedSnoc(f, rename);
    RollUpNamesStep(acc, s', Column(rename(f[|f| - 1].name), f[|f| - 1].values), n);
    RollUpValuesStep(f, rename, n, acc, r);
  }

  lemma RollUpNamesStep(acc: Frame, s': seq<string>, c: Column, n: nat)
    requires Rect(acc, n) && |c.values| == n
    requires Names(acc) == DedupBy(s', Id)
    ensures Names(Accumulate(acc, c, n)) == DedupBy(s' + [c.name], Id)
  {
    AccumulateNames(acc, c, n);
    DedupBySnoc(s', c.name, Id);
    KeySetId(s', c.name);
    KeySetId(DedupBy(s', Id), c.name);
  }

  ghost predicate Distinct(names: seq<string>)
  {
    forall i, j :: 0 <= i < j < |names| ==> names[i] != names[j]
  }

  /** Column `k` after accumulating `c`: its old values (none when appended)
      plus `c`'s when the names agree. */
  lemma AccumulateAt(acc: Frame, c: Column, n: nat, k: nat, h: nat)
    requires Rect(acc, n) && |c.values| == n && h < n
    requires Distinct(Names(acc))
    requires k < |Accumulate(acc, c, n)|
    ensures k < |acc| ==> Accumulate(acc, c, n)[k].name == acc[k].name
    ensures k == |acc| ==> Accumulate(acc, c, n)[k].name == c.name && c.name !in Names(acc)
    ensures Accumulate(acc, c, n)[k].values[h]
            == (if k < |acc| then acc[k].values[h] else 0.0)
               + (if Accumulate(acc, c, n)[k].name == c.name then c.values[h] else 0.0)
  {
    match IndexOf(Names(acc), c.name)
    case None =>
    case Some(i) =>
      if k != i {
        assert Names(acc)[k] != Names(acc)[i];
      }
  }

  lemma DedupDistinct(s: seq<string>)
    ensures Distinct(DedupBy(s, Id))
  {
    var r := DedupBy(s, Id);
    forall i, j | 0 <= i < j < |r| ensures r[i] != r[j] {
      assert Id(r[i]) != Id(r[j]);
    }
  }

  lemma RollUpValuesStep(f: Frame, rename: string -> string, n: nat, acc: Frame, r: Frame)
    requires Rect(f, n) && |f| > 0
    requires Rect(acc, n)
    requires Names(acc) == DedupBy(Renamed(f[..|f| - 1], rename), Id)
    requires forall k, h :: 0 <= k < |acc| && 0 <= h < n ==>
               acc[k].values[h] == GroupTotal(f[..|f| - 1], rename, acc[k].name, h)
    requires r == Accumulate(acc, Column(rename(f[|f| - 1].name), f[|f| - 1].values), n)
    ensures forall k, h :: 0 <= k < |r| && 0 <= h < n ==>
              r[k].values[h] == GroupTotal(f, rename, r[k].name, h)
  {
    forall k | 0 <= k < |r|
      ensures forall h :: 0 <= h < n ==> r[k].values[h] == GroupTotal(f, rename, r[k].name, h)
    {
      RollUpColumnAt(f, rename, n, acc, r, k);
    }
  }

  lemma RollUpColumnAt(f: Frame, rename: string -> string, n: nat, acc: Frame, r: Frame, k: nat)
    requires Rect(f, n) && |f| > 0
    requires Rect(acc, n)
    requires Names(acc) == DedupBy(Renamed(f[..|f| - 1], rename), Id)
    requires forall k, h :: 0 <= k < |acc| && 0 <= h < n ==>
               acc[k].values[h] == GroupTotal(f[..|f| - 1], rename, acc[k].name, h)
    requires r == Accumulate(acc, Column(rename(f[|f| - 1].name), f[|f| - 1].values), n)
    requires k < |r|
    ensures forall h :: 0 <= h < n ==> r[k].values[h] == GroupTotal(f, rename, r[k].name, h)
  {
    forall h | 0 <= h < n
      ensures r[k].values[h] == GroupTotal(f, rename, r[k].name, h)
    {
      RollUpValueAt(f, rename, n, acc, r, k, h);
    }
  }

  lemma RollUpValueAt(f: Frame, rename: string -> string, n: nat, acc: Frame, r: Frame, k: nat, h: nat)
    requires Rect(f, n) && |f| > 0 && h < n
    requires Rect(acc, n)
    requires Names(acc) == DedupBy(Renamed(f[..|f| - 1], rename), Id)
    requires forall k, h :: 0 <= k < |acc| && 0 <= h < n ==>
               acc[k].values[h] == GroupTotal(f[..|f| - 1], rename, acc[k].name, h)
    requires r == Accumulate(acc, Column(rename(f[|f| - 1].name), f[|f| - 1].values), n)
    requires k < |r|
    ensures r[k].values[h] == GroupTotal(f, rename, r[k].name, h)
  {
    var f' := f[..|f| - 1];
    var c := Column(rename(f[|f| - 1].name), f[|f| - 1].values);
    var s' := Renamed(f', rename);
    DedupDistinct(s');
    AccumulateAt(acc, c, n, k, h);
    GroupTotalSnoc(f, rename, r[k].name, h);
    if k == |acc| {
      KeySetId(s', c.name);
      KeySetId(DedupBy(s', Id), c.name);
      GroupTotalAbsent(f', rename, c.name, h);
    }
  }

  /** Rolling up moves values between columns but never changes an hour's
      total over all columns. */
  lemma {:induction false} RollUpConservesTotal(f: Frame, rename: string -> string, n: nat, h: nat)
    requires Rect(f, n) && h < n
    ensures Sum(At(RollUp(f, rename, n), h)) == Sum(At(f, h))
    decreases |f|
  {
    if |f| > 0 {
      var f' := f[..|f| - 1];
      var c := Column(rename(f[|f| - 1].name), f[|f| - 1].values);
      var acc := RollUp(f', rename, n);
      assert RollUp(f, rename, n) == Accumulate(acc, c, n);
      RollUpConservesTotal(f', rename, n, h);
      AccumulateTotal(acc, c, n, h);
      AtSnoc(f, h);
    }
  }

  lemma AtSnoc(f: Frame, h: nat)
    requires |f| > 0 && forall k :: 0 <= k < |f| ==> h < |f[k].values|
    ensures At(f, h) == At(f[..|f| - 1], h) + [f[|f| - 1].values[h]]
  {
  }

  lemma AccumulateTotal(acc: Frame, c: Column, n: nat, h: nat)
    requires Rect(acc, n) && |c.values| == n && h < n
    ensures Sum(At(Accumulate(acc, c, n), h)) == Sum(At(acc, h)) + c.values[h]
  {
    match IndexOf(Names(acc), c.name)
    case None =>
      assert At(acc + [c], h) == At(acc, h) + [c.values[h]];
    case Some(i) =>
      var r := Accumulate(acc, c, n);
      assert At(r, h) == At(acc, h)[i := At(acc, h)[i] + c.values[h]];
      SumUpdate(At(acc, h), i, c.values[h]);
  }
}
