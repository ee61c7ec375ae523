/** Renewable capacity-factor inputs: the no-foresight dispatch of
    concentrating solar power with storage, the expansion of GAMS-style
    technology ranges, the split of resource names and the offshore-wind
    switch. */
module Recf {
  import opened Wrappers
  import opened Seqs
  import opened Text
  import opened Order

  // ---------------------------------------------------------------------------
  // CSP dispatch (csp_dispatch)
  // ---------------------------------------------------------------------------

  function Lesser(a: real, b: real): real
  {
    if a <= b then a else b
  }

  /** Field output above the plant's capacity, `(x - 1).clip(lower=0)`. */
  function Clipped(x: real): (r: real)
    ensures r >= 0.0
    ensures r != 0.0 <==> x > 1.0
  {
    if x - 1.0 > 0.0 then x - 1.0 else 0.0
  }

  /** Capacity left after direct dispatch, `(1 - x).clip(lower=0)`. */
  function Headspace(x: real): (r: real)
    ensures r >= 0.0
  {
    if 1.0 - x > 0.0 then 1.0 - x else 0.0
  }

  /** Direct dispatch from the field, `x.clip(upper=1)`. */
  function Direct(x: real): real
  {
    if x > 1.0 then 1.0 else x
  }

  /** Storage dispatch in an hour with field output `x` and `stored`
      energy at its start: none while the field clips, otherwise the stored
      energy or the headspace, whichever is smaller. */
  function StorageDispatch(x: real, stored: real): real
  {
    if Clipped(x) != 0.0 then 0.0
    else if Headspace(x) > stored then stored
    else Headspace(x)
  }

  /** Storage at the start of the next hour: clipping is added, dispatch is
      taken out, and the result is capped at `duration`. */
  function NextLevel(x: real, stored: real, duration: real): real
  {
    var next := if Clipped(x) != 0.0 then stored + Clipped(x) else stored - StorageDispatch(x, stored);
    if next > duration then duration else next
  }

  /** Direct and storage dispatch together never exceed the plant's
      capacity, whatever is stored. */
  lemma HourCapacity(x: real, stored: real)
    ensures Direct(x) + StorageDispatch(x, stored) <= 1.0
  {
  }

  /** What one hour of dispatch guarantees when the storage is within its
      bounds at the start of the hour. */
  lemma HourFacts(x: real, stored: real, duration: real)
    requires 0.0 <= stored <= duration
    ensures 0.0 <= NextLevel(x, stored, duration) <= duration
    ensures x > 1.0 ==> StorageDispatch(x, stored) == 0.0
                        && NextLevel(x, stored, duration) == Lesser(stored + (x - 1.0), duration)
    ensures x <= 1.0 ==> StorageDispatch(x, stored) == Lesser(1.0 - x, stored)
                         && NextLevel(x, stored, duration) == stored - StorageDispatch(x, stored)
    ensures StorageDispatch(x, stored) + NextLevel(x, stored, duration) <= stored + Clipped(x)
  {
  }

  /** The field output of every hour: capacity factor times solar multiple. */
  function FieldOutput(cf: seq<real>, sm: real): (r: seq<real>)
    ensures |r| == |cf|
    ensures forall h :: 0 <= h < |cf| ==> r[h] == cf[h] * sm
  {
    seq(|cf|, h requires 0 <= h < |cf| => cf[h] * sm)
  }

  /** The storage level at the start of every hour and after the last:
      empty at the start, then each level follows from the one before. */
  function Levels(field: seq<real>, duration: real): (r: seq<real>)
    ensures |r| == |field| + 1
    decreases |field|
  {
    if |field| == 0 then [0.0]
    else
      var prev := Levels(field[..|field| - 1], duration);
      prev + [NextLevel(field[|field| - 1], prev[|field| - 1], duration)]
  }

  /** The storage dispatch of every hour. */
  function Draws(field: seq<real>, duration: real): (r: seq<real>)
    ensures |r| == |field|
    decreases |field|
  {
    if |field| == 0 then []
    else
      var before := field[..|field| - 1];
      Draws(before, duration) + [StorageDispatch(field[|field| - 1], Levels(before, duration)[|field| - 1])]
  }

  /** Every hour of `Levels` and `Draws` follows from the level at its
      start. */
  lemma {:induction false} ReferenceSteps(field: seq<real>, duration: real)
    ensures Levels(field, duration)[0] == 0.0
    ensures forall j :: 0 <= j < |field| ==>
              Draws(field, duration)[j] == StorageDispatch(field[j], Levels(field, duration)[j])
              && Levels(field, duration)[j + 1] == NextLevel(field[j], Levels(field, duration)[j], duration)
    decreases |field|
  {
    if |field| > 0 {
      var n := |field| - 1;
      var before := field[..n];
      var prev := Levels(before, duration);
      var draws := Draws(before, duration);
      ReferenceSteps(before, duration);
      assert Levels(field, duration) == prev + [NextLevel(field[n], prev[n], duration)];
      assert Draws(field, duration) == draws + [StorageDispatch(field[n], prev[n])];
      forall j | 0 <= j <= n
        ensures Levels(field, duration)[j] == prev[j]
      {
      }
      forall j | 0 <= j < n
        ensures Draws(field, duration)[j] == draws[j] && field[j] == before[j]
      {
      }
    }
  }

  /** The level stays within the storage. */
  lemma {:induction false} ReferenceBounds(field: seq<real>, duration: real)
    requires duration >= 0.0
    ensures forall j :: 0 <= j <= |field| ==> 0.0 <= Levels(field, duration)[j] <= duration
    decreases |field|
  {
    if |field| > 0 {
      var n := |field| - 1;
      var prev := Levels(field[..n], duration);
      ReferenceBounds(field[..n], duration);
      HourFacts(field[n], prev[n], duration);
      assert Levels(field, duration) == prev + [NextLevel(field[n], prev[n], duration)];
    }
  }

  /** The storage rules of the dispatch, for any run that starts empty
      and follows `StorageDispatch` and `NextLevel` hour by hour (as
      `Levels` and `Draws` do, by `ReferenceSteps`): storage stays within
      `duration`; an hour with clipping dispatches nothing from storage and
      adds the clipped energy before the cap; any other hour dispatches the
      smaller of headspace and stored energy, and storage falls by exactly
      that. */
  lemma {:induction false} StorageRules(field: seq<real>, duration: real, draws: seq<real>, level: seq<real>)
    requires duration >= 0.0
    requires |draws| == |field| && |level| == |field| + 1 && level[0] == 0.0
    requires forall j :: 0 <= j < |field| ==> draws[j] == StorageDispatch(field[j], level[j])
    requires forall j :: 0 <= j < |field| ==> level[j + 1] == NextLevel(field[j], level[j], duration)
    ensures forall h :: 0 <= h <= |field| ==> 0.0 <= level[h] <= duration
    ensures forall h :: 0 <= h < |field| && field[h] > 1.0 ==>
              draws[h] == 0.0 && level[h + 1] == Lesser(level[h] + (field[h] - 1.0), duration)
    ensures forall h :: 0 <= h < |field| && field[h] <= 1.0 ==>
              draws[h] == Lesser(1.0 - field[h], level[h]) && level[h + 1] == level[h] - draws[h]
  {
    var k := 0;
    while k < |field|
      invariant 0 <= k <= |field|
      invariant forall h :: 0 <= h <= k ==> 0.0 <= level[h] <= duration
    {
      HourFacts(field[k], level[k], duration);
      k := k + 1;
    }
    forall h | 0 <= h < |field|
      ensures field[h] > 1.0 ==>
                draws[h] == 0.0 && level[h + 1] == Lesser(level[h] + (field[h] - 1.0), duration)
      ensures field[h] <= 1.0 ==>
                draws[h] == Lesser(1.0 - field[h], level[h]) && level[h + 1] == level[h] - draws[h]
    {
      HourFacts(field[h], level[h], duration);
    }
  }

  /** The reference dispatch keeps the storage rules (the level changes
      follow from `ReferenceSteps` and `StorageRules`). */
  lemma ReferenceRules(field: seq<real>, duration: real)
    requires duration >= 0.0
    ensures Levels(field, duration)[0] == 0.0
    ensures forall h :: 0 <= h <= |field| ==> 0.0 <= Levels(field, duration)[h] <= duration
    ensures forall h :: 0 <= h < |field| && field[h] > 1.0 ==> Draws(field, duration)[h] == 0.0
    ensures forall h :: 0 <= h < |field| && field[h] <= 1.0 ==>
              Draws(field, duration)[h] == Lesser(1.0 - field[h], Levels(field, duration)[h])
  {
    ReferenceSteps(field, duration);
    StorageRules(field, duration, Draws(field, duration), Levels(field, duration));
  }

  /** The clipped energy of all hours of field output. */
  function ExcessTotal(field: seq<real>): real
    decreases |field|
  {
    if |field| == 0 then 0.0 else ExcessTotal(field[..|field| - 1]) + Clipped(field[|field| - 1])
  }

  /** The energy taken from storage plus the energy left in it never
      exceeds the clipped energy that went in. */
  lemma {:induction false} StorageBound(field: seq<real>, duration: real)
    requires duration >= 0.0
    ensures Sum(Draws(field, duration)) + Levels(field, duration)[|field|] <= ExcessTotal(field)
    decreases |field|
  {
    if |field| > 0 {
      var n := |field| - 1;
      var before := field[..n];
      var prev := Levels(before, duration);
      var d := StorageDispatch(field[n], prev[n]);
      StorageBound(before, duration);
      ReferenceBounds(before, duration);
      HourFacts(field[n], prev[n], duration);
      assert Levels(field, duration)[n + 1] == NextLevel(field[n], prev[n], duration);
      SumAppend(Draws(before, duration), [d]);
      assert Sum([d]) == d;
    }
  }

  /** Dispatch one column of field capacity factors `cf` for a plant with
      solar multiple `sm` and `duration` hours of storage, hour by hour:
      storage fills with the clipped energy and discharges as soon as there
      is headspace (`Levels` and `Draws`, with `StorageRules`). The result
      is the total dispatch of every hour, direct output plus storage, and
      never exceeds the plant's capacity. The columns of the source's frame
      are dispatched independently, so one column is the whole computation. */
  method CspDispatch(cf: seq<real>, sm: real, duration: real) returns (total: seq<real>)
    ensures |total| == |cf|
    ensures var field := FieldOutput(cf, sm);
            forall h :: 0 <= h < |cf| ==> total[h] == Lesser(field[h], 1.0) + Draws(field, duration)[h]
    ensures forall h :: 0 <= h < |cf| ==> total[h] <= 1.0
  {
    var field := FieldOutput(cf, sm);
    var fromStorage, level := [], [0.0];
    var h := 0;
    while h < |field|
      invariant 0 <= h <= |field|
      invariant level == Levels(field[..h], duration)
      invariant fromStorage == Draws(field[..h], duration)
    {
      assert field[..h + 1][..h] == field[..h];
      fromStorage := fromStorage + [StorageDispatch(field[h], level[h])];
      level := level + [NextLevel(field[h], level[h], duration)];
      h := h + 1;
    }
    assert field[..|field|] == field;
    total := seq(|field|, j requires 0 <= j < |field| => Direct(field[j]) + fromStorage[j]);
    ReferenceSteps(field, duration);
    forall j | 0 <= j < |field|
      ensures total[j] == Lesser(field[j], 1.0) + fromStorage[j] && total[j] <= 1.0
    {
      HourCapacity(field[j], level[j]);
    }
  }

  // ---------------------------------------------------------------------------
  // Technology subsets (the range syntax of tech-subset-table.csv)
  // ---------------------------------------------------------------------------

  /** pandas' `to_numeric` on an integer string. */
  function ToNumeric(s: string): (r: Result<int>)
    ensures r.Ok? <==> ParseInt(s).Some?
    ensures r.Ok? ==> r.value == ParseInt(s).value
  {
    match ParseInt(s)
    case Some(n) => Ok(n)
    case None => Err(ValueError("Unable to parse string \"" + s + "\" at position 0"))
  }

  /** Python's `str(i)` for any integer. */
  function IntText(i: int): string
  {
    if i < 0 then "-" + NatToString(-i) else NatToString(i)
  }

  /** The last piece of `s.split(sep)`. */
  function LastPiece(s: string, sep: string): string
    requires |sep| > 0
  {
    var parts := Split(s, sep);
    parts[|parts| - 1]
  }

  /** `'{}_{}'.format(prefix, c)` for `c` in `low .. high`. */
  function Numbered(prefix: string, low: int, high: int): (r: seq<string>)
    ensures |r| == if high < low then 0 else high - low + 1
    ensures forall c :: 0 <= c < |r| ==> r[c] == prefix + "_" + IntText(low + c)
    decreases high - low
  {
    if high < low then []
    else
      var rest := Numbered(prefix, low + 1, high);
      assert forall c :: 1 <= c <= |rest| ==> ([prefix + "_" + IntText(low)] + rest)[c] == rest[c - 1];
      [prefix + "_" + IntText(low)] + rest
  }

  /** One entry 'p_a*q_b': the prefix is the text of 'p_a' before its last
      '_', and the numbers are the last '_'-pieces of both halves. */
  function ExpandRange(subset: string): (r: Result<seq<string>>)
  {
    var halves := Split(subset, "*");
    var first := halves[0];
    var second := if |halves| > 1 then halves[1] else "";
    if |halves| < 2 then Err(IndexError("list index out of range"))
    else
      var pieces := Split(first, "_");
      match ToNumeric(LastPiece(first, "_"))
      case Err(e) => Err(e)
      case Ok(low) =>
        match ToNumeric(LastPiece(second, "_"))
        case Err(e) => Err(e)
        case Ok(high) =>
          Ok(Numbered(Join(pieces[..|pieces| - 1], "_"), low, high))
  }

  predicate IsRange(subset: string)
  {
    '*' in subset
  }

  /** Apply `f` to every element and concatenate the results, in order;
      the first element `f` rejects stops the run with its error. */
  function FlatMapOk<T, U>(s: seq<T>, f: T -> Result<seq<U>>): (r: Result<seq<U>>)
    ensures r.Ok? <==> forall i :: 0 <= i < |s| ==> f(s[i]).Ok?
    decreases |s|
  {
    if |s| == 0 then Ok([])
    else
      var rest := s[1..];
      assert forall i :: 1 <= i < |s| ==> s[i] == rest[i - 1];
      match f(s[0])
      case Err(e) => Err(e)
      case Ok(head) =>
        match FlatMapOk(rest, f)
        case Err(e) => Err(e)
        case Ok(tail) => Ok(head + tail)
  }

  /** Every piece is in the result, and the result holds nothing else. */
  lemma {:induction false} FlatMapOkMembers<T, U>(s: seq<T>, f: T -> Result<seq<U>>, x: U)
    requires FlatMapOk(s, f).Ok?
    ensures x in FlatMapOk(s, f).value <==> exists e :: e in s && f(e).Ok? && x in f(e).value
    decreases |s|
  {
    if |s| > 0 {
      var rest := s[1..];
      var head := f(s[0]).value;
      var tail := FlatMapOk(rest, f).value;
      FlatMapOkMembers(rest, f, x);
      assert FlatMapOk(s, f).value == head + tail;
      assert x in head + tail <==> x in head || x in tail;
      forall e | e in s ensures e == s[0] || e in rest {
        var i :| 0 <= i < |s| && s[i] == e;
        if i > 0 {
          assert rest[i - 1] == e;
        }
      }
      forall e | e in rest ensures e in s {
        var i :| 0 <= i < |rest| && rest[i] == e;
        assert s[i + 1] == e;
      }
    }
  }

  /** The expansions of the range entries, in order; the first entry that
      does not parse stops the run. */
  function ExpandAll(ranges: seq<string>): (r: Result<seq<string>>)
    ensures r.Ok? <==> forall i :: 0 <= i < |ranges| ==> ExpandRange(ranges[i]).Ok?
  {
    FlatMapOk(ranges, ExpandRange)
  }

  /** `x` is one of the names the entry `entry` expands to. */
  predicate Expands(x: string, entry: string)
  {
    ExpandRange(entry).Ok? && x in ExpandRange(entry).value
  }

  /** Every expansion is in the result, and the result holds nothing else. */
  lemma ExpandAllMembers(ranges: seq<string>, x: string)
    requires ExpandAll(ranges).Ok?
    ensures x in ExpandAll(ranges).value <==> exists e :: e in ranges && Expands(x, e)
  {
    FlatMapOkMembers(ranges, ExpandRange, x);
  }

  function LowerAll(names: seq<string>): (r: seq<string>)
    ensures |r| == |names|
    ensures forall i :: 0 <= i < |names| ==> r[i] == Lower(names[i])
  {
    seq(|names|, i requires 0 <= i < |names| => Lower(names[i]))
  }

  function NotRange(subset: string): bool
  {
    !IsRange(subset)
  }

  /** The lower-cased entries without range syntax, in order. */
  function PlainEntries(names: seq<string>): seq<string>
  {
    Filter(LowerAll(names), NotRange)
  }

  /** The lower-cased range entries, in order. */
  function RangeEntries(names: seq<string>): seq<string>
  {
    Filter(LowerAll(names), IsRange)
  }

  /** The members of one technology subset: names are lower-cased, range
      entries are removed and their expansions appended after the rest. */
  function TechSubset(names: seq<string>): (r: Result<seq<string>>)
    ensures r.Ok? <==> ExpandAll(RangeEntries(names)).Ok?
    ensures r.Ok? ==> |PlainEntries(names)| <= |r.value|
    ensures r.Ok? ==> r.value[..|PlainEntries(names)|] == PlainEntries(names)
    ensures r.Ok? ==> r.value[|PlainEntries(names)|..] == ExpandAll(RangeEntries(names)).value
  {
    var plain := PlainEntries(names);
    match ExpandAll(RangeEntries(names))
    case Err(e) => Err(e)
    case Ok(expanded) =>
      var r := plain + expanded;
      assert r[..|plain|] == plain;
      assert r[|plain|..] == expanded;
      Ok(r)
  }

  /** A name is a member exactly when it is a lower-cased entry without
      range syntax or part of the expansion of a lower-cased range entry. */
  lemma TechSubsetMembers(names: seq<string>, x: string)
    requires TechSubset(names).Ok?
    ensures x in TechSubset(names).value <==>
            (x in LowerAll(names) && !IsRange(x))
            || exists e :: e in LowerAll(names) && IsRange(e) && Expands(x, e)
  {
    var r := TechSubset(names).value;
    var plain := PlainEntries(names);
    var ranges := RangeEntries(names);
    assert r == plain + ExpandAll(ranges).value by {
      assert r == r[..|plain|] + r[|plain|..];
    }
    FilterMembers(LowerAll(names), NotRange, x);
    ExpandAllMembers(ranges, x);
    forall e ensures e in ranges <==> e in LowerAll(names) && IsRange(e) {
      FilterMembers(LowerAll(names), IsRange, e);
    }
  }


  /** An entry 'p_a*p_b' stands for p_a, p_a+1, ..., p_b, where p is the
      text before the last '_'. */
  lemma ExpandRangeOf(prefix: string, a: int, b: int)
    requires '*' !in prefix
    ensures ExpandRange(prefix + "_" + IntText(a) + "*" + prefix + "_" + IntText(b))
            == Ok(Numbered(prefix, a, b))
  {
    var first := prefix + "_" + IntText(a);
    var second := prefix + "_" + IntText(b);
    IntTextChars(a);
    IntTextChars(b);
    assert '*' !in first && '*' !in second;
    SplitPair(first, second, '*');
    assert prefix + "_" + IntText(a) + "*" + prefix + "_" + IntText(b) == first + ['*'] + second;
    SplitLastPiece(prefix, IntText(a));
    SplitLastPiece(prefix, IntText(b));
    IntTextParses(a);
    IntTextParses(b);
  }

  lemma IntTextChars(i: int)
    ensures forall k :: 0 <= k < |IntText(i)| ==> IntText(i)[k] == '-' || IsDigit(IntText(i)[k])
    ensures '*' !in IntText(i) && '_' !in IntText(i)
  {
    var t := IntText(i);
    if i < 0 {
      assert forall k :: 1 <= k < |t| ==> t[k] == NatToString(-i)[k - 1];
    }
  }

  lemma IntTextParses(i: int)
    ensures ToNumeric(IntText(i)) == Ok(i)
  {
    if i < 0 {
      ParseIntSigned(-i);
    } else {
      ParseIntSigned(i);
    }
  }

  /** Splitting `p + "_" + t` on '_', for `t` without '_': the pieces of `p`
      and then `t`; so `t` is the last piece and `p` the join of the rest. */
  lemma SplitLastPiece(p: string, t: string)
    requires '_' !in t
    ensures var pieces := Split(p + "_" + t, "_");
            |pieces| >= 2 && pieces[|pieces| - 1] == t && Join(pieces[..|pieces| - 1], "_") == p
  {
    var ps := Split(p, "_");
    JoinSplit(p, "_");
    SplitPiecesLackChar(p, '_');
    JoinSnoc(ps, t, "_");
    assert p + "_" + t == Join(ps + [t], "_");
    forall k | 0 <= k < |ps + [t]| ensures '_' !in (ps + [t])[k] {
      if k < |ps| {
        assert (ps + [t])[k] == ps[k];
      }
    }
    SplitJoin(ps + [t], '_');
    assert (ps + [t])[..|ps|] == ps;
  }

  lemma {:induction false} JoinSnoc(parts: seq<string>, t: string, sep: string)
    requires |parts| >= 1
    ensures Join(parts + [t], sep) == Join(parts, sep) + sep + t
    decreases |parts|
  {
    if |parts| > 1 {
      JoinSnoc(parts[1..], t, sep);
      assert (parts + [t])[1..] == parts[1..] + [t];
    } else {
      assert (parts + [t])[1..] == [t];
    }
  }

  // ---------------------------------------------------------------------------
  // Resources: the split of resource names and the offshore-wind switch
  // ---------------------------------------------------------------------------

  /** One row of the resources table: the profile's column name, the area
      after its last '|' and the technology before it. */
  datatype Resource = Resource(resource: string, area: string, tech: string)

  function ResourceName(x: Resource): string
  {
    x.resource
  }

  /** `name.rsplit('|', 1)`: the technology is the text before the last
      '|', the area the text after it; a name without '|' has no second
      piece, and indexing it raises IndexError. */
  function ResourceOf(name: string): (r: Result<Resource>)
    ensures r.Ok? <==> '|' in name
    ensures r.Err? ==> r.error == IndexError("list index out of range")
    ensures r.Ok? ==> r.value.resource == name
                      && name == r.value.tech + "|" + r.value.area
                      && '|' !in r.value.area
  {
    match SplitLast(name, '|')
    case None => Err(IndexError("list index out of range"))
    case Some((tech, area)) => Ok(Resource(name, area, tech))
  }

  /** Gluing a technology and an area without '|' and splitting the result
      gives them back. */
  lemma ResourceOfGlue(tech: string, area: string)
    requires '|' !in area
    ensures ResourceOf(tech + "|" + area) == Ok(Resource(tech + "|" + area, area, tech))
  {
    SplitLastGlue(tech, area, '|');
  }

  function NotIn(names: seq<string>): string -> bool
  {
    c => c !in names
  }

  /** The resources table: the onshore wind columns first, then every other
      profile column, each split into technology and area, sorted by
      resource name. */
  function ResourceTable(onshore: seq<string>, columns: seq<string>): (r: Result<seq<Resource>>)
    ensures r.Ok? <==> forall c :: c in onshore + Filter(columns, NotIn(onshore)) ==> '|' in c
    ensures r.Ok? ==> SortedBy(r.value, ResourceName)
    ensures r.Ok? ==> |r.value| == |onshore + Filter(columns, NotIn(onshore))|
  {
    var names := onshore + Filter(columns, NotIn(onshore));
    match MapAll(names, ResourceOf)
    case Err(e) => Err(e)
    case Ok(rows) => Ok(SortBy(rows, ResourceName))
  }

  /** Every profile column appears in the table exactly as often as in the
      onshore names plus the other columns. */
  lemma ResourceTableNames(onshore: seq<string>, columns: seq<string>, x: Resource)
    requires ResourceTable(onshore, columns).Ok?
    ensures x in ResourceTable(onshore, columns).value <==>
            x.resource in onshore + Filter(columns, NotIn(onshore)) && ResourceOf(x.resource) == Ok(x)
  {
    var names := onshore + Filter(columns, NotIn(onshore));
    var rows := MapAll(names, ResourceOf).value;
    assert multiset(ResourceTable(onshore, columns).value) == multiset(rows);
    assert x in ResourceTable(onshore, columns).value <==> x in multiset(rows);
    if x in rows {
      var i :| 0 <= i < |rows| && rows[i] == x;
      assert ResourceOf(names[i]) == Ok(x);
    }
    if x.resource in names && ResourceOf(x.resource) == Ok(x) {
      var i :| 0 <= i < |names| && names[i] == x.resource;
      assert rows[i] == x;
    }
  }

  /** The name of offshore wind class `n`, 'wind-ofs_<n>'. */
  function OffshoreTech(n: nat): string
  {
    "wind-ofs_" + NatToString(n)
  }

  /** The offshore wind technologies wind-ofs_1 .. wind-ofs_15. */
  function OffshoreTechs(): (r: seq<string>)
    ensures |r| == 15
    ensures forall k :: 0 <= k < 15 ==> r[k] == OffshoreTech(k + 1)
  {
    seq(15, n requires 0 <= n < 15 => OffshoreTech(n + 1))
  }

  function NotOffshore(x: Resource): bool
  {
    x.tech !in OffshoreTechs()
  }

  /** With the offshore-wind switch at 0, rows of the offshore wind
      technologies are dropped; otherwise the table is kept. */
  function DropOffshore(resources: seq<Resource>, ofsWind: int): (r: seq<Resource>)
    ensures IsSubseq(r, resources)
    ensures ofsWind != 0 ==> r == resources
  {
    if ofsWind == 0 then Filter(resources, NotOffshore)
    else
      SubseqRefl(resources);
      resources
  }

  /** The offshore technologies are wind-ofs_n for n from 1 to 15. */
  lemma OffshoreTechsMembers(t: string)
    ensures t in OffshoreTechs() <==> exists n: nat :: 1 <= n <= 15 && t == OffshoreTech(n)
  {
    var techs := OffshoreTechs();
    if t in techs {
      var k :| 0 <= k < 15 && techs[k] == t;
      assert t == OffshoreTech(k + 1);
    }
    if exists n: nat :: 1 <= n <= 15 && t == OffshoreTech(n) {
      var n: nat :| 1 <= n <= 15 && t == OffshoreTech(n);
      assert techs[n - 1] == t;
    }
  }

  /** A row is dropped exactly when the switch is 0 and its technology is
      one of wind-ofs_1 .. wind-ofs_15. */
  lemma DropOffshoreMembers(resources: seq<Resource>, ofsWind: int, x: Resource)
    ensures x in DropOffshore(resources, ofsWind) <==>
            x in resources && !(ofsWind == 0 && exists n: nat :: 1 <= n <= 15 && x.tech == OffshoreTech(n))
  {
    OffshoreTechsMembers(x.tech);
    if ofsWind == 0 {
      FilterMembers(resources, NotOffshore, x);
    }
  }
}
