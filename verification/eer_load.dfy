/** Hourly state load from EER scenario profiles: the state name-to-code
    table, the time-zone roll, removal of replaced sectoral load, folding
    state columns into state codes and the scenario-to-file naming. */
module EerLoad {
  import opened Wrappers
  import opened Seqs
  import opened Text
  import opened Frames
  import opened Rounding
  import opened HourlyLoad
  import LoadReshape

  // ---------------------------------------------------------------------------
  // Insertion-ordered string dictionaries
  // ---------------------------------------------------------------------------

  /** A Python `dict` from strings to strings, in insertion order. */
  type Dict = seq<(string, string)>

  function KeysOf(d: Dict): seq<string>
  {
    seq(|d|, i requires 0 <= i < |d| => d[i].0)
  }

  /** `d.get(k)`. */
  function Get(d: Dict, k: string): (r: Option<string>)
    decreases |d|
  {
    if |d| == 0 then None
    else if d[0].0 == k then Some(d[0].1)
    else Get(d[1..], k)
  }

  /** A key is found exactly when it is in the dictionary, and then with a
      value stored for it. */
  lemma {:induction false} GetFinds(d: Dict, k: string)
    ensures Get(d, k).Some? <==> k in KeysOf(d)
    ensures Get(d, k).Some? ==> (k, Get(d, k).value) in d
    decreases |d|
  {
    if |d| > 0 {
      assert KeysOf(d) == [d[0].0] + KeysOf(d[1..]);
      if d[0].0 == k {
        assert d[0] == (k, d[0].1);
      } else {
        GetFinds(d[1..], k);
        if Get(d[1..], k).Some? {
          assert (k, Get(d[1..], k).value) in d[1..];
        }
      }
    }
  }

  /** `d[k] = v`: the key now holds `v` and every other key is untouched. */
  function Put(d: Dict, k: string, v: string): (r: Dict)
    ensures Get(r, k) == Some(v)
    ensures forall k' :: k' != k ==> Get(r, k') == Get(d, k')
    decreases |d|
  {
    if |d| == 0 then [(k, v)]
    else if d[0].0 == k then [(k, v)] + d[1..]
    else
      var rest := Put(d[1..], k, v);
      assert ([d[0]] + rest)[1..] == rest;
      [d[0]] + rest
  }

  /** An existing key keeps its place; a new key goes last. */
  lemma {:induction false} PutKeys(d: Dict, k: string, v: string)
    ensures KeysOf(Put(d, k, v)) == if k in KeysOf(d) then KeysOf(d) else KeysOf(d) + [k]
    decreases |d|
  {
    if |d| > 0 {
      if d[0].0 == k {
        PutKeysHead(d, k, v);
      } else {
        PutKeys(d[1..], k, v);
        PutKeysTail(d, k, v);
      }
    }
  }

  lemma PutKeysHead(d: Dict, k: string, v: string)
    requires |d| > 0 && d[0].0 == k
    ensures k in KeysOf(d) && KeysOf(Put(d, k, v)) == KeysOf(d)
  {
    assert KeysOf(d)[0] == k;
  }

  lemma PutKeysTail(d: Dict, k: string, v: string)
    requires |d| > 0 && d[0].0 != k
    requires KeysOf(Put(d[1..], k, v)) == if k in KeysOf(d[1..]) then KeysOf(d[1..]) else KeysOf(d[1..]) + [k]
    ensures KeysOf(Put(d, k, v)) == if k in KeysOf(d) then KeysOf(d) else KeysOf(d) + [k]
  {
    var rest := d[1..];
    var pr := Put(rest, k, v);
    assert Put(d, k, v) == [d[0]] + pr;
    assert KeysOf(d) == [d[0].0] + KeysOf(rest);
    assert KeysOf([d[0]] + pr) == [d[0].0] + KeysOf(pr);
    if k in KeysOf(rest) {
      assert k in KeysOf(d);
    } else {
      assert k !in KeysOf(d);
      assert [d[0].0] + (KeysOf(rest) + [k]) == KeysOf(d) + [k];
    }
  }

  /** Putting into a dictionary keeps its keys distinct. */
  lemma PutDistinct(d: Dict, k: string, v: string)
    requires Distinct(KeysOf(d))
    ensures Distinct(KeysOf(Put(d, k, v)))
  {
    PutKeys(d, k, v);
    if k !in KeysOf(d) {
      var r := Put(d, k, v);
      assert forall i :: 0 <= i < |KeysOf(d)| ==> KeysOf(r)[i] == KeysOf(d)[i] != k;
    }
  }

  /** `dict(zip(keys, values))`: later pairs overwrite earlier ones. */
  function DictOf(pairs: seq<(string, string)>): (r: Dict)
    ensures Distinct(KeysOf(r))
    decreases |pairs|
  {
    if |pairs| == 0 then []
    else
      var x := pairs[|pairs| - 1];
      var d := DictOf(pairs[..|pairs| - 1]);
      PutDistinct(d, x.0, x.1);
      Put(d, x.0, x.1)
  }

  /** A key is in `DictOf(pairs)` exactly when some pair carries it. */
  lemma {:induction false} DictOfKeys(pairs: seq<(string, string)>, k: string)
    ensures Get(DictOf(pairs), k).Some? <==> k in KeysOf(pairs)
    decreases |pairs|
  {
    if |pairs| > 0 {
      var p' := pairs[..|pairs| - 1];
      DictOfKeys(p', k);
      assert KeysOf(pairs) == KeysOf(p') + [pairs[|pairs| - 1].0];
      assert DictOf(pairs) == Put(DictOf(p'), pairs[|pairs| - 1].0, pairs[|pairs| - 1].1);
    }
  }

  /** The value stored for a key is the one of its last pair. */
  lemma {:induction false} DictOfLastWins(pairs: seq<(string, string)>, i: nat)
    requires i < |pairs|
    requires forall j :: i < j < |pairs| ==> pairs[j].0 != pairs[i].0
    ensures Get(DictOf(pairs), pairs[i].0) == Some(pairs[i].1)
    decreases |pairs|
  {
    var p' := pairs[..|pairs| - 1];
    if i < |pairs| - 1 {
      DictOfLastWins(p', i);
    }
  }

  /** Every entry of `DictOf` is one of its pairs. */
  lemma {:induction false} DictValues(pairs: seq<(string, string)>, e: (string, string))
    requires e in DictOf(pairs)
    ensures e in pairs
    decreases |pairs|
  {
    var p' := pairs[..|pairs| - 1];
    var x := pairs[|pairs| - 1];
    var d := DictOf(p');
    assert DictOf(pairs) == Put(d, x.0, x.1);
    if e != x {
      PutEntries(d, x.0, x.1, e);
      DictValues(p', e);
    }
  }

  lemma {:induction false} PutEntries(d: Dict, k: string, v: string, e: (string, string))
    requires e in Put(d, k, v) && e != (k, v)
    ensures e in d
    decreases |d|
  {
    if |d| > 0 && d[0].0 != k {
      if e != d[0] {
        PutEntries(d[1..], k, v, e);
      }
    }
  }

  // ---------------------------------------------------------------------------
  // State names and codes (hourlize/load.py get_state_name_code_map)
  // ---------------------------------------------------------------------------

  /** One row of the state-code table: the state's name and its code. */
  datatype StateCode = StateCode(name: string, code: string)

  const DistrictOfColumbia := "district of columbia"

  function CasedPairs(rows: seq<StateCode>): (r: seq<(string, string)>)
    ensures |r| == |rows|
    ensures forall i :: 0 <= i < |rows| ==> r[i] == (Lower(rows[i].name), Upper(rows[i].code))
  {
    seq(|rows|, i requires 0 <= i < |rows| => (Lower(rows[i].name), Upper(rows[i].code)))
  }

  /** Lower-cased names to upper-cased codes, with Washington D.C. folded
      into Maryland. */
  function StateCodeMap(rows: seq<StateCode>): (d: Dict)
    ensures Distinct(KeysOf(d))
    ensures Get(d, DistrictOfColumbia) == Some("MD")
  {
    var d := DictOf(CasedPairs(rows));
    PutDistinct(d, DistrictOfColumbia, "MD");
    Put(d, DistrictOfColumbia, "MD")
  }

  /** The names in the table: Washington D.C. and every lower-cased input
      name. */
  lemma StateCodeKeys(rows: seq<StateCode>, k: string)
    ensures Get(StateCodeMap(rows), k).Some? <==>
            k == DistrictOfColumbia || exists i :: 0 <= i < |rows| && Lower(rows[i].name) == k
  {
    var pairs := CasedPairs(rows);
    DictOfKeys(pairs, k);
    if exists i :: 0 <= i < |rows| && Lower(rows[i].name) == k {
      var i :| 0 <= i < |rows| && Lower(rows[i].name) == k;
      assert KeysOf(pairs)[i] == k;
    }
  }

  /** Every other state maps to the upper-cased code of its last row. */
  lemma StateCodeOfLastRow(rows: seq<StateCode>, i: nat)
    requires i < |rows|
    requires Lower(rows[i].name) != DistrictOfColumbia
    requires forall j :: i < j < |rows| ==> Lower(rows[j].name) != Lower(rows[i].name)
    ensures Get(StateCodeMap(rows), Lower(rows[i].name)) == Some(Upper(rows[i].code))
  {
    DictOfLastWins(CasedPairs(rows), i);
  }

  /** Every code in the table is an upper-cased input code or Maryland's. */
  lemma StateCodeValues(rows: seq<StateCode>, k: string)
    requires Get(StateCodeMap(rows), k).Some?
    ensures var c := Get(StateCodeMap(rows), k).value;
            c == "MD" || exists i :: 0 <= i < |rows| && c == Upper(rows[i].code)
  {
    var pairs := CasedPairs(rows);
    var d := DictOf(pairs);
    if k != DistrictOfColumbia {
      var c := Get(d, k).value;
      GetFinds(d, k);
      DictValues(pairs, (k, c));
      var i :| 0 <= i < |pairs| && pairs[i] == (k, c);
      assert c == Upper(rows[i].code);
    }
  }

  // ---------------------------------------------------------------------------
  // Time-zone shift (hourlize/load.py roll_hourly_data)
  // ---------------------------------------------------------------------------

  /** Python's `str(i)` for any integer. */
  function IntToString(i: int): (r: string)
  {
    if i < 0 then "-" + NatToString(-i) else NatToString(i)
  }

  lemma IntToStringRoundTrip(i: int)
    ensures ParseInt(IntToString(i)) == Some(i)
  {
    if i < 0 {
      ParseIntSigned(-i);
    } else {
      ParseIntSigned(i);
    }
  }

  /** The hours east of UTC of an "Etc/GMT[+-]N" zone: note the sign flip
      of the POSIX naming. Text that `int` rejects raises ValueError. */
  function TzOffset(tz: string): (r: Result<int>)
    ensures r.Ok? <==> ParseInt(ReplaceAll(tz, "Etc/GMT", "")).Some?
    ensures r.Ok? ==> r.value == -ParseInt(ReplaceAll(tz, "Etc/GMT", "")).value
  {
    var text := ReplaceAll(tz, "Etc/GMT", "");
    match ParseInt(text)
    case Some(n) => Ok(-n)
    case None => Err(ValueError("invalid literal for int() with base 10: '" + text + "'"))
  }

  /** "Etc/GMT+6" is six hours west of UTC, "Etc/GMT-3" three hours east. */
  lemma TzOffsetOfZone(n: nat)
    ensures TzOffset("Etc/GMT+" + NatToString(n)) == Ok(-(n as int))
    ensures TzOffset("Etc/GMT-" + NatToString(n)) == Ok(n as int)
  {
    ParseIntSigned(n);
    var digits := NatToString(n);
    assert ("+" + digits)[1..] == digits && ("-" + digits)[1..] == digits;
    StripZonePrefix("+" + digits);
    StripZonePrefix("-" + digits);
    assert "Etc/GMT+" + digits == "Etc/GMT" + ("+" + digits);
    assert "Etc/GMT-" + digits == "Etc/GMT" + ("-" + digits);
  }

  /** Replacing the zone prefix leaves the signed number behind. */
  lemma StripZonePrefix(t: string)
    requires |t| > 0 && (t[0] == '+' || t[0] == '-') && IsDigits(t[1..])
    ensures ReplaceAll("Etc/GMT" + t, "Etc/GMT", "") == t
  {
    var p := "Etc/GMT";
    var s := p + t;
    assert StartsWith(s, p);
    assert Text.Find(s, p) == Some(0);
    assert s[|p|..] == t;
    assert !Contains(t, p) by {
      forall j | 0 <= j ensures !OccursAt(t, p, j) {
        if j + |p| <= |t| {
          if j == 0 {
            assert t[j..j + |p|][0] == t[0];
          } else {
            assert t[j..j + |p|][0] == t[1..][j - 1];
          }
        }
      }
    }
    assert Text.Find(t, p).None?;
    assert Split(t, p) == [t];
    assert Split(s, p) == [""] + Split(t, p);
    assert Join(["", t], "") == t;
  }

  /** `np.roll(a, shift)`: element `i` moves to position `(i + shift) mod n`. */
  function Roll<T>(s: seq<T>, shift: int): (r: seq<T>)
    ensures |r| == |s|
    ensures |s| > 0 ==> forall i :: 0 <= i < |s| - shift % |s| ==> r[i + shift % |s|] == s[i]
    ensures |s| > 0 ==> forall i :: |s| - shift % |s| <= i < |s| ==> r[i - (|s| - shift % |s|)] == s[i]
  {
    if |s| == 0 then []
    else
      var cut := |s| - shift % |s|;
      s[cut..] + s[..cut]
  }

  /** A roll only reorders: it is a permutation. */
  lemma RollPermutes<T>(s: seq<T>, shift: int)
    ensures multiset(Roll(s, shift)) == multiset(s)
  {
    if |s| > 0 {
      var cut := |s| - shift % |s|;
      assert s == s[..cut] + s[cut..];
    }
  }

  /** A whole number of turns changes nothing. */
  lemma RollFullTurns<T>(s: seq<T>, shift: int)
    requires |s| > 0 && shift % |s| == 0
    ensures Roll(s, shift) == s
  {
  }

  /** Rolling back by the same amount restores the input. */
  lemma RollInverse<T>(s: seq<T>, shift: int)
    ensures Roll(Roll(s, shift), -shift) == s
  {
    if |s| > 0 {
      var n := |s|;
      var m := shift % n;
      NegMod(shift, n);
      var t := Roll(s, shift);
      if m != 0 {
        assert t == s[n - m..] + s[..n - m];
        assert Roll(t, -shift) == t[m..] + t[..m];
        assert t[m..] == s[..n - m];
        assert t[..m] == s[n - m..];
        assert s == s[..n - m] + s[n - m..];
      }
    }
  }

  lemma NegMod(k: int, n: int)
    requires n > 0
    ensures (-k) % n == if k % n == 0 then 0 else n - k % n
  {
    var q, m := k / n, k % n;
    assert k == q * n + m;
    if m == 0 {
      assert -k == (-q) * n;
      ModOfMultiple(-k, -q, n, 0);
    } else {
      assert -k == (-q - 1) * n + (n - m);
      ModOfMultiple(-k, -q - 1, n, n - m);
    }
  }

  lemma ModOfMultiple(x: int, q: int, n: int, m: int)
    requires n > 0 && 0 <= m < n && x == q * n + m
    ensures x % n == m
  {
    var q', m' := x / n, x % n;
    assert x == q' * n + m';
    var d := q - q';
    assert d * n == m' - m by {
      assert q * n - q' * n == d * n;
    }
    if d > 0 {
      MulAtLeast(d, n);
    } else if d < 0 {
      MulAtLeast(-d, n);
    }
  }

  lemma {:induction false} MulAtLeast(a: int, n: int)
    requires a >= 1 && n > 0
    ensures a * n >= n
    decreases a
  {
    if a > 1 {
      MulAtLeast(a - 1, n);
      assert a * n == (a - 1) * n + n;
    }
  }

  /** The hours `roll_hourly_data` moves the data by: the output zone's
      offset less the input zone's, the input zone read first. */
  function ZoneShift(inputTz: string, outputTz: string): (r: Result<int>)
    ensures r.Ok? <==> TzOffset(inputTz).Ok? && TzOffset(outputTz).Ok?
    ensures r.Ok? ==> r.value == TzOffset(outputTz).value - TzOffset(inputTz).value
    ensures TzOffset(inputTz).Err? ==> r == Err(TzOffset(inputTz).error)
  {
    var source :- TzOffset(inputTz);
    var output :- TzOffset(outputTz);
    Ok(output - source)
  }

  /** Swapping the zones reverses the shift. */
  lemma ZoneShiftSwap(inputTz: string, outputTz: string)
    requires ZoneShift(inputTz, outputTz).Ok?
    ensures ZoneShift(outputTz, inputTz) == Ok(-ZoneShift(inputTz, outputTz).value)
  {
  }

  /** The roll of `roll_hourly_data`: every column of the frame, the datetime
      column included, moves by the difference of the two zones' offsets.
      Since every column moves by the same amount, this is a roll of the
      frame's rows. */
  function RollHourlyData<R>(rows: seq<R>, inputTz: string, outputTz: string): (r: Result<seq<R>>)
    ensures r.Ok? <==> TzOffset(inputTz).Ok? && TzOffset(outputTz).Ok?
    ensures r.Ok? ==> r.value == Roll(rows, ZoneShift(inputTz, outputTz).value)
    ensures r.Ok? ==> multiset(r.value) == multiset(rows)
    ensures r.Ok? && TzOffset(inputTz) == TzOffset(outputTz) ==> r.value == rows
  {
    var shift :- ZoneShift(inputTz, outputTz);
    RollPermutes(rows, shift);
    assert shift == 0 ==> Roll(rows, shift) == rows by {
      if |rows| > 0 && shift == 0 {
        RollFullTurns(rows, shift);
      }
    }
    Ok(if shift != 0 then Roll(rows, shift) else rows)
  }

  /** Converting back to the input zone restores the rows. */
  lemma RollHourlyDataBack<R>(rows: seq<R>, inputTz: string, outputTz: string)
    requires RollHourlyData(rows, inputTz, outputTz).Ok?
    ensures RollHourlyData(RollHourlyData(rows, inputTz, outputTz).value, outputTz, inputTz) == Ok(rows)
  {
    var shift := ZoneShift(inputTz, outputTz).value;
    ZoneShiftSwap(inputTz, outputTz);
    RollInverse(rows, shift);
  }

  /** One hour of state-level load: its timestamp and one value per state. */
  datatype HourRow = HourRow(stamp: Stamp, cells: seq<real>)

  /** As the source applies it, the roll carries each timestamp along with
      its values: every output row is an input row, so no value changes its
      hour. */
  lemma RollKeepsHours(rows: seq<HourRow>, inputTz: string, outputTz: string, j: nat)
    requires RollHourlyData(rows, inputTz, outputTz).Ok?
    requires j < |rows|
    ensures RollHourlyData(rows, inputTz, outputTz).value[j] in rows
  {
    var r := RollHourlyData(rows, inputTz, outputTz).value;
    assert r[j] in multiset(r);
  }

  lemma CentralZones()
    ensures TzOffset("Etc/GMT+5") == Ok(-5) && TzOffset("Etc/GMT+6") == Ok(-6)
  {
    var five, six := NatToString(5), NatToString(6);
    assert five == "5" && six == "6";
    TzOffsetOfZone(5);
    TzOffsetOfZone(6);
    assert "Etc/GMT+" + five == "Etc/GMT+5";
    assert "Etc/GMT+" + six == "Etc/GMT+6";
  }

  /** Two hours of one weather year, shifted from UTC-5 to UTC-6. */
  lemma RollShiftLost()
    ensures var rows := [HourRow(Stamp(2012, 0), [1.0]), HourRow(Stamp(2012, 1), [2.0])];
            var asWritten := RollHourlyData(rows, "Etc/GMT+5", "Etc/GMT+6");
            asWritten.Ok?
            && asWritten.value == [HourRow(Stamp(2012, 1), [2.0]), HourRow(Stamp(2012, 0), [1.0])]
            && ShiftHours(rows, -1)[0] == HourRow(Stamp(2012, 0), [2.0])
  {
    var rows := [HourRow(Stamp(2012, 0), [1.0]), HourRow(Stamp(2012, 1), [2.0])];
    CentralZones();
    ModOfMultiple(-1, -1, 2, 1);
    assert Roll(rows, -1) == [rows[1], rows[0]];
    assert Roll(CellsOf(rows), -1)[0] == [2.0];
  }

  function CellsOf(rows: seq<HourRow>): (r: seq<seq<real>>)
    ensures |r| == |rows|
    ensures forall j :: 0 <= j < |rows| ==> r[j] == rows[j].cells
  {
    seq(|rows|, j requires 0 <= j < |rows| => rows[j].cells)
  }

  /** The intended shift: the timestamps stay in place and the values move
      `shift` hours later, wrapping around the year. */
  function ShiftHours(rows: seq<HourRow>, shift: int): (r: seq<HourRow>)
    ensures |r| == |rows|
    ensures forall j :: 0 <= j < |rows| ==> r[j].stamp == rows[j].stamp
    ensures forall j :: 0 <= j < |rows| ==> r[j].cells == Roll(CellsOf(rows), shift)[j]
  {
    var cells := Roll(CellsOf(rows), shift);
    seq(|rows|, j requires 0 <= j < |rows| => HourRow(rows[j].stamp, cells[j]))
  }

  /** A shifted value lands `shift` hours later, wrapping around. */
  lemma ShiftHoursMoves(rows: seq<HourRow>, shift: int, i: nat)
    requires i < |rows|
    ensures var n := |rows|;
            var j := if i < n - shift % n then i + shift % n else i - (n - shift % n);
            0 <= j < n && ShiftHours(rows, shift)[j] == HourRow(rows[j].stamp, rows[i].cells)
  {
    var n := |rows|;
    var m := shift % n;
    var cells := CellsOf(rows);
    var rolled := Roll(cells, shift);
    assert cells[i] == rows[i].cells;
    if i < n - m {
      assert rolled[i + m] == cells[i];
    } else {
      assert rolled[i - (n - m)] == cells[i];
    }
  }

  /** Shifting back by the same amount restores the table. */
  lemma ShiftHoursInverse(rows: seq<HourRow>, shift: int)
    ensures ShiftHours(ShiftHours(rows, shift), -shift) == rows
  {
    var r := ShiftHours(rows, shift);
    assert CellsOf(r) == Roll(CellsOf(rows), shift);
    RollInverse(CellsOf(rows), shift);
    var back := ShiftHours(r, -shift);
    forall j | 0 <= j < |rows| ensures back[j] == rows[j] {
      assert back[j].cells == CellsOf(rows)[j];
    }
  }

  // ---------------------------------------------------------------------------
  // Removal of replaced sectoral load (hourlize/load.py remove_sectoral_load
  // and the sector loop of create_hourly_state_load_for_model_year)
  // ---------------------------------------------------------------------------

  /** One row of the EER profiles: its hour, sector, subsector and one load
      value per state column. */
  datatype SectorRow = SectorRow(stamp: Stamp, sector: string, subsector: string, cells: seq<real>)

  /** The state columns and the rows of the EER profiles. */
  datatype SectorTable = SectorTable(states: seq<string>, rows: seq<SectorRow>)

  ghost predicate Rectangular(t: SectorTable)
  {
    forall i :: 0 <= i < |t.rows| ==> |t.rows[i].cells| == |t.states|
  }

  /** Sectors and the subsectors of each, as in a sector's 'subsectors'
      setting. */
  type Subsectors = seq<(string, seq<string>)>

  /** Dictionary keys are unique. */
  ghost predicate SectorsUnique(m: Subsectors)
  {
    forall a, b :: 0 <= a < b < |m| ==> m[a].0 != m[b].0
  }

  /** The row belongs to one of the listed subsectors of its sector. */
  ghost predicate Masked(row: SectorRow, m: Subsectors)
  {
    exists e :: 0 <= e < |m| && row.sector == m[e].0 && row.subsector in m[e].1
  }

  /** The row with its replaced states' values multiplied by `factor`. */
  function ScaleRow(row: SectorRow, states: seq<string>, replace: seq<string>, factor: real): (r: SectorRow)
    ensures r.stamp == row.stamp && r.sector == row.sector && r.subsector == row.subsector
    ensures |r.cells| == |row.cells|
  {
    row.(cells := seq(|row.cells|, c requires 0 <= c < |row.cells| =>
      if c < |states| && states[c] in replace then row.cells[c] * factor else row.cells[c]))
  }

  /** One step of the loop over the sector-to-subsector dictionary. */
  function ScaleSector(rows: seq<SectorRow>, states: seq<string>, sector: string, subsectors: seq<string>,
                       replace: seq<string>, factor: real): (r: seq<SectorRow>)
    ensures |r| == |rows|
  {
    seq(|rows|, i requires 0 <= i < |rows| =>
      if rows[i].sector == sector && rows[i].subsector in subsectors
      then ScaleRow(rows[i], states, replace, factor) else rows[i])
  }

  /** The whole loop: every sector of the dictionary in turn. */
  function ScaleAll(rows: seq<SectorRow>, states: seq<string>, m: Subsectors,
                    replace: seq<string>, factor: real): (r: seq<SectorRow>)
    ensures |r| == |rows|
    ensures forall i :: 0 <= i < |rows| ==>
              r[i].stamp == rows[i].stamp && r[i].sector == rows[i].sector
              && r[i].subsector == rows[i].subsector && |r[i].cells| == |rows[i].cells|
    decreases |m|
  {
    if |m| == 0 then rows
    else ScaleAll(ScaleSector(rows, states, m[0].0, m[0].1, replace, factor), states, m[1..], replace, factor)
  }

  /** Each value of a masked row in a replaced state is scaled once; every
      other value is unchanged. */
  lemma {:induction false} ScaleAllCell(rows: seq<SectorRow>, states: seq<string>, m: Subsectors,
                                        replace: seq<string>, factor: real, i: nat, c: nat)
    requires SectorsUnique(m)
    requires i < |rows| && c < |rows[i].cells|
    ensures ScaleAll(rows, states, m, replace, factor)[i].cells[c]
            == if Masked(rows[i], m) && c < |states| && states[c] in replace
               then rows[i].cells[c] * factor else rows[i].cells[c]
    decreases |m|
  {
    if |m| > 0 {
      var next := ScaleSector(rows, states, m[0].0, m[0].1, replace, factor);
      var m' := m[1..];
      ScaleAllCell(next, states, m', replace, factor, i, c);
      var row := rows[i];
      if row.sector == m[0].0 && row.subsector in m[0].1 {
        assert Masked(row, m);
        assert !Masked(next[i], m') by {
          forall e | 0 <= e < |m'| ensures m'[e].0 != m[0].0 {
            assert m'[e] == m[e + 1];
          }
        }
      } else {
        assert next[i] == row;
        assert Masked(row, m) <==> Masked(row, m') by {
          if Masked(row, m) {
            var e :| 0 <= e < |m| && row.sector == m[e].0 && row.subsector in m[e].1;
            assert m[e] == m'[e - 1];
          }
          if Masked(row, m') {
            var e :| 0 <= e < |m'| && row.sector == m'[e].0 && row.subsector in m'[e].1;
            assert m'[e] == m[e + 1];
          }
        }
      }
    }
  }

  /** The first replaced state that is not a column. */
  function FirstMissing(replace: seq<string>, states: seq<string>): (r: Option<string>)
    ensures r.None? <==> forall k :: 0 <= k < |replace| ==> replace[k] in states
    ensures r.Some? ==> r.value in replace && r.value !in states
    decreases |replace|
  {
    if |replace| == 0 then None
    else if replace[0] !in states then Some(replace[0])
    else
      var rest := FirstMissing(replace[1..], states);
      assert forall k :: 1 <= k < |replace| ==> replace[k] == replace[1..][k - 1];
      rest
  }

  /** `remove_sectoral_load`: the load of the listed subsectors in the
      replaced states is cut by the year's replacement share. Selecting a
      missing state column raises KeyError before the share is looked up,
      and a year without a share raises KeyError for the year; both only
      once the loop runs, so an empty dictionary changes nothing. */
  function RemoveSectoralLoad(t: SectorTable, m: Subsectors, replace: seq<string>,
                              share: map<int, real>, year: int): (r: Result<SectorTable>)
    ensures r.Ok? <==> |m| == 0 || (FirstMissing(replace, t.states).None? && year in share)
    ensures |m| > 0 && FirstMissing(replace, t.states).Some? ==>
              r == Err(KeyError(FirstMissing(replace, t.states).value))
    ensures |m| > 0 && FirstMissing(replace, t.states).None? && year !in share ==>
              r == Err(KeyError(IntToString(year)))
    ensures r.Ok? ==> r.value.states == t.states && |r.value.rows| == |t.rows|
    ensures r.Ok? ==> forall i :: 0 <= i < |t.rows| ==>
              r.value.rows[i].stamp == t.rows[i].stamp && r.value.rows[i].sector == t.rows[i].sector
              && r.value.rows[i].subsector == t.rows[i].subsector
              && |r.value.rows[i].cells| == |t.rows[i].cells|
  {
    if |m| == 0 then Ok(t)
    else
      match FirstMissing(replace, t.states)
      case Some(state) => Err(KeyError(state))
      case None =>
        if year !in share then Err(KeyError(IntToString(year)))
        else Ok(t.(rows := ScaleAll(t.rows, t.states, m, replace, 1.0 - share[year])))
  }

  /** Exactly the masked rows' values in replaced states lose the year's
      share; everything else is untouched. */
  lemma RemoveSectoralLoadCell(t: SectorTable, m: Subsectors, replace: seq<string>,
                               share: map<int, real>, year: int, i: nat, c: nat)
    requires SectorsUnique(m) && Rectangular(t)
    requires RemoveSectoralLoad(t, m, replace, share, year).Ok?
    requires i < |t.rows| && c < |t.states|
    ensures var v := RemoveSectoralLoad(t, m, replace, share, year).value.rows[i].cells[c];
            if Masked(t.rows[i], m) && t.states[c] in replace
            then year in share && v == t.rows[i].cells[c] * (1.0 - share[year])
            else v == t.rows[i].cells[c]
  {
    if |m| > 0 {
      ScaleAllCell(t.rows, t.states, m, replace, 1.0 - share[year], i, c);
    }
  }

  /** A sector's settings: the model years it is replaced in and its
      subsectors. */
  datatype SectorSettings = SectorSettings(modelYears: seq<int>, subsectors: Subsectors)

  /** The states whose load is replaced: "all" stands for every state of the
      name-to-code table that is a column of the profiles. */
  datatype StateChoice = AllStates | Listed(names: seq<string>)

  function ReplaceStates(choice: StateChoice, codes: Dict, states: seq<string>): (r: seq<string>)
    ensures choice.Listed? ==> r == choice.names
    ensures choice.AllStates? ==> forall k :: k in r <==> k in KeysOf(codes) && k in states
  {
    match choice
    case Listed(names) => names
    case AllStates =>
      var r := Filter(KeysOf(codes), k => k in states);
      assert forall k :: k in r <==> k in KeysOf(codes) && k in states by {
        forall k ensures k in r <==> k in KeysOf(codes) && k in states {
          FilterMembers(KeysOf(codes), k => k in states, k);
        }
      }
      r
  }

  function UnknownSector(sector: string): string
  {
    "'" + sector + "' is not a recognized sector. Update 'hourlize/inputs/load/sector_config.json'."
  }

  /** One known sector: its load is removed only in its model years. */
  function SectorStep(t: SectorTable, settings: SectorSettings, replace: seq<string>,
                      share: map<int, real>, year: int): (r: Result<SectorTable>)
    ensures year !in settings.modelYears ==> r == Ok(t)
    ensures FirstMissing(replace, t.states).None? && year in share ==> r.Ok?
    ensures r.Ok? ==> r.value.states == t.states && |r.value.rows| == |t.rows|
  {
    if year in settings.modelYears
    then RemoveSectoralLoad(t, settings.subsectors, replace, share, year)
    else Ok(t)
  }

  /** The loop over the replaced sectors: an unknown sector raises
      NotImplementedError, and a known one has its load removed only when
      the model year is one of its model years. */
  function RemoveSectors(t: SectorTable, sectors: seq<string>, config: map<string, SectorSettings>,
                         replace: seq<string>, share: map<int, real>, year: int): (r: Result<SectorTable>)
    ensures r.Ok? ==> forall k :: 0 <= k < |sectors| ==> sectors[k] in config
    ensures |sectors| > 0 && sectors[0] !in config ==> r == Err(NotImplementedError(UnknownSector(sectors[0])))
    ensures r.Ok? ==> r.value.states == t.states && |r.value.rows| == |t.rows|
    decreases |sectors|
  {
    if |sectors| == 0 then Ok(t)
    else if sectors[0] !in config then Err(NotImplementedError(UnknownSector(sectors[0])))
    else
      match SectorStep(t, config[sectors[0]], replace, share, year)
      case Err(e) => Err(e)
      case Ok(t') =>
        var r := RemoveSectors(t', sectors[1..], config, replace, share, year);
        assert forall k :: 1 <= k < |sectors| ==> sectors[k] == sectors[1..][k - 1];
        r
  }

  /** Outside every listed sector's model years nothing is removed. */
  lemma {:induction false} RemoveSectorsOffYear(t: SectorTable, sectors: seq<string>,
                                                config: map<string, SectorSettings>,
                                                replace: seq<string>, share: map<int, real>, year: int)
    requires forall k :: 0 <= k < |sectors| ==> sectors[k] in config && year !in config[sectors[k]].modelYears
    ensures RemoveSectors(t, sectors, config, replace, share, year) == Ok(t)
    decreases |sectors|
  {
    if |sectors| > 0 {
      RemoveSectorsOffYear(t, sectors[1..], config, replace, share, year);
    }
  }

  /** With every replaced state present and a share for the year, the loop
      fails exactly on an unknown sector, and then on the first one. */
  lemma {:induction false} RemoveSectorsFailsOnUnknown(t: SectorTable, sectors: seq<string>,
                                                       config: map<string, SectorSettings>,
                                                       replace: seq<string>, share: map<int, real>, year: int)
    requires FirstMissing(replace, t.states).None? && year in share
    ensures var r := RemoveSectors(t, sectors, config, replace, share, year);
            r.Err? <==> exists k :: 0 <= k < |sectors| && sectors[k] !in config
    ensures var r := RemoveSectors(t, sectors, config, replace, share, year);
            r.Err? ==> exists k :: 0 <= k < |sectors| && sectors[k] !in config
                                   && r.error == NotImplementedError(UnknownSector(sectors[k]))
                                   && forall j :: 0 <= j < k ==> sectors[j] in config
    decreases |sectors|
  {
    if |sectors| > 0 && sectors[0] in config {
      var t' := SectorStep(t, config[sectors[0]], replace, share, year).value;
      var rest := sectors[1..];
      RemoveSectorsFailsOnUnknown(t', rest, config, replace, share, year);
      UnknownShift(sectors, config);
      var r := RemoveSectors(t, sectors, config, replace, share, year);
      assert r == RemoveSectors(t', rest, config, replace, share, year);
      if r.Err? {
        var k :| 0 <= k < |rest| && rest[k] !in config
                 && r.error == NotImplementedError(UnknownSector(rest[k]))
                 && forall j :: 0 <= j < k ==> rest[j] in config;
        assert sectors[k + 1] == rest[k];
        assert forall j :: 0 <= j < k + 1 ==> sectors[j] in config by {
          assert forall j :: 1 <= j < k + 1 ==> sectors[j] == rest[j - 1];
        }
      }
    }
  }

  lemma UnknownShift(sectors: seq<string>, config: map<string, SectorSettings>)
    requires |sectors| > 0 && sectors[0] in config
    ensures (exists k :: 0 <= k < |sectors| && sectors[k] !in config)
            <==> exists k :: 0 <= k < |sectors[1..]| && sectors[1..][k] !in config
  {
    if exists k :: 0 <= k < |sectors| && sectors[k] !in config {
      var k :| 0 <= k < |sectors| && sectors[k] !in config;
      assert sectors[1..][k - 1] !in config;
    }
    if exists k :: 0 <= k < |sectors[1..]| && sectors[1..][k] !in config {
      var k :| 0 <= k < |sectors[1..]| && sectors[1..][k] !in config;
      assert sectors[k + 1] !in config;
    }
  }

  // ---------------------------------------------------------------------------
  // Folding state names into state codes (create_hourly_state_load_for_model_year)
  // ---------------------------------------------------------------------------

  /** A state-code column of whole-number load. */
  datatype CodeColumn = CodeColumn(code: string, values: seq<int>)

  /** The hourly load by state code. */
  datatype CodeTable = CodeTable(stamps: seq<Stamp>, columns: seq<CodeColumn>)

  const Islands: seq<string> := ["AK", "HI"]

  /** The code of every column name; None where the table has none (pandas
      maps such a name to NaN, which the later group-by drops). */
  function MappedNames(f: Frame, codes: Dict): (r: seq<Option<string>>)
    ensures |r| == |f|
    ensures forall k :: 0 <= k < |f| ==> r[k] == Get(codes, f[k].name)
  {
    seq(|f|, k requires 0 <= k < |f| => Get(codes, f[k].name))
  }

  /** The column counts towards `code`: its name maps to it and it is
      neither Alaska nor Hawaii. */
  predicate FoldsInto(codes: Dict, name: string, code: string)
  {
    Get(codes, name) == Some(code) && code !in Islands
  }

  /** The codes of the kept columns, in column order, with repeats. */
  function FoldedCodes(f: Frame, codes: Dict): (r: seq<string>)
    ensures forall c :: c in r <==> exists k :: 0 <= k < |f| && FoldsInto(codes, f[k].name, c)
    decreases |f|
  {
    if |f| == 0 then []
    else
      var f' := f[..|f| - 1];
      var x := f[|f| - 1];
      var r' := FoldedCodes(f', codes);
      assert forall k :: 0 <= k < |f'| ==> f'[k] == f[k];
      match Get(codes, x.name)
      case Some(c) =>
        if c in Islands then r' else r' + [c]
      case None => r'
  }

  /** The output columns: each folded code once, at its first appearance. */
  function KeptCodes(f: Frame, codes: Dict): (r: seq<string>)
    ensures Distinct(r)
  {
    var r := DedupBy(FoldedCodes(f, codes), Id);
    DedupDistinct(FoldedCodes(f, codes));
    r
  }

  /** A code gets a column exactly when some column folds into it. */
  lemma KeptCodesIff(f: Frame, codes: Dict, c: string)
    ensures c in KeptCodes(f, codes) <==> exists k :: 0 <= k < |f| && FoldsInto(codes, f[k].name, c)
  {
    var s := FoldedCodes(f, codes);
    var r := DedupBy(s, Id);
    if c in r {
      DedupMembers(s, Id, c);
    }
    if c in s {
      var i :| 0 <= i < |s| && s[i] == c;
      assert Id(s[i]) in KeySet(s, Id);
      assert c in KeySet(r, Id);
    }
  }

  /** The hour-`h` load of every column that folds into `code`, summed. */
  function CodeTotal(f: Frame, codes: Dict, code: string, h: nat): real
    requires forall k :: 0 <= k < |f| ==> h < |f[k].values|
    decreases |f|
  {
    if |f| == 0 then 0.0
    else
      CodeTotal(f[..|f| - 1], codes, code, h)
      + (if FoldsInto(codes, f[|f| - 1].name, code) then f[|f| - 1].values[h] else 0.0)
  }

  /** A code with a single column carries that column's load. */
  lemma {:induction false} CodeTotalSingle(f: Frame, codes: Dict, code: string, h: nat, k: nat)
    requires forall j :: 0 <= j < |f| ==> h < |f[j].values|
    requires k < |f| && FoldsInto(codes, f[k].name, code)
    requires forall j :: 0 <= j < |f| && j != k ==> !FoldsInto(codes, f[j].name, code)
    ensures CodeTotal(f, codes, code, h) == f[k].values[h]
    decreases |f|
  {
    var f' := f[..|f| - 1];
    if k < |f| - 1 {
      CodeTotalSingle(f', codes, code, h, k);
    } else {
      CodeTotalNone(f', codes, code, h);
    }
  }

  lemma {:induction false} CodeTotalNone(f: Frame, codes: Dict, code: string, h: nat)
    requires forall j :: 0 <= j < |f| ==> h < |f[j].values|
    requires forall j :: 0 <= j < |f| ==> !FoldsInto(codes, f[j].name, code)
    ensures CodeTotal(f, codes, code, h) == 0.0
    decreases |f|
  {
    if |f| > 0 {
      CodeTotalNone(f[..|f| - 1], codes, code, h);
    }
  }

  function WeatherOf(s: Stamp): int { s.weather }

  function PairWeather(p: (nat, Stamp)): int { p.1.weather }

  function Indexed(stamps: seq<Stamp>): (r: seq<(nat, Stamp)>)
    ensures |r| == |stamps|
    ensures forall h :: 0 <= h < |stamps| ==> r[h] == (h, stamps[h])
  {
    seq(|stamps|, h requires 0 <= h < |stamps| => (h, stamps[h]))
  }

  function StampsOf(ps: seq<(nat, Stamp)>): (r: seq<Stamp>)
    ensures |r| == |ps|
    ensures forall i :: 0 <= i < |ps| ==> r[i] == ps[i].1
  {
    seq(|ps|, i requires 0 <= i < |ps| => ps[i].1)
  }

  /** `groupby(year).head(8760)`: the positions and stamps of the first
      8760 hours of each weather year. */
  function FirstHours(stamps: seq<Stamp>): (r: seq<(nat, Stamp)>)
    ensures forall i :: 0 <= i < |r| ==> r[i].0 < |stamps| && stamps[r[i].0] == r[i].1
    ensures forall w :: OfGroup(r, PairWeather, w) == Take(OfGroup(Indexed(stamps), PairWeather, w), LoadReshape.HoursPerYear)
  {
    var r := HeadPerGroup(Indexed(stamps), PairWeather, LoadReshape.HoursPerYear);
    SubseqMembers(r, Indexed(stamps));
    assert forall i :: 0 <= i < |r| ==> r[i] in Indexed(stamps);
    r
  }

  /** Grouping commutes with reading off the stamps. */
  lemma {:induction false} StampsOfGroup(ps: seq<(nat, Stamp)>, w: int)
    ensures OfGroup(StampsOf(ps), WeatherOf, w) == StampsOf(OfGroup(ps, PairWeather, w))
    decreases |ps|
  {
    if |ps| > 0 {
      var ps' := ps[..|ps| - 1];
      StampsOfGroup(ps', w);
      assert StampsOf(ps)[..|ps| - 1] == StampsOf(ps');
      var g := OfGroup(ps', PairWeather, w);
      if PairWeather(ps[|ps| - 1]) == w {
        assert StampsOf(g + [ps[|ps| - 1]]) == StampsOf(g) + [ps[|ps| - 1].1];
      }
    }
  }

  lemma StampsOfTake(ps: seq<(nat, Stamp)>, n: nat)
    ensures StampsOf(Take(ps, n)) == Take(StampsOf(ps), n)
  {
  }

  /** Each weather year keeps its first 8760 hours, in order. */
  lemma FirstHoursPerYear(stamps: seq<Stamp>, w: int)
    ensures OfGroup(StampsOf(FirstHours(stamps)), WeatherOf, w)
            == Take(OfGroup(stamps, WeatherOf, w), LoadReshape.HoursPerYear)
  {
    var ix := Indexed(stamps);
    StampsOfGroup(FirstHours(stamps), w);
    StampsOfGroup(ix, w);
    StampsOfTake(OfGroup(ix, PairWeather, w), LoadReshape.HoursPerYear);
    assert StampsOf(ix) == stamps;
  }

  /** pandas' text for the labels `drop` could not find. */
  function NotFoundInAxis(missing: seq<string>): string
  {
    "[" + Join(seq(|missing|, i requires 0 <= i < |missing| => "'" + missing[i] + "'"), ", ") + "] not found in axis"
  }

  /** Alaska and Hawaii codes that no column maps to. */
  function MissingIslands(f: Frame, codes: Dict): (r: seq<string>)
    ensures forall c :: c in r <==> c in Islands && Some(c) !in MappedNames(f, codes)
  {
    var mapped := MappedNames(f, codes);
    var r := Filter(Islands, c => Some(c) !in mapped);
    assert forall c :: c in r <==> c in Islands && Some(c) !in mapped by {
      forall c ensures c in r <==> c in Islands && Some(c) !in mapped {
        FilterMembers(Islands, c => Some(c) !in mapped, c);
      }
    }
    r
  }

  /** One output column: the rounded code totals at the kept hours. */
  function RoundedTotals(f: Frame, codes: Dict, code: string, hours: seq<(nat, Stamp)>, n: nat): (r: seq<int>)
    requires Rect(f, n)
    requires forall i :: 0 <= i < |hours| ==> hours[i].0 < n
    ensures |r| == |hours|
  {
    seq(|hours|, i requires 0 <= i < |hours| => RoundHalfEven(CodeTotal(f, codes, code, hours[i].0)))
  }

  /** Rename the state columns to codes, drop Alaska and Hawaii (KeyError if
      either is absent), sum the columns that share a code, keep the first
      8760 hours of each weather year and round to whole numbers. */
  function FoldStates(t: Table, codes: Dict): (r: Result<CodeTable>)
    requires Shaped(t)
    ensures r.Ok? <==> Some("AK") in MappedNames(t.frame, codes) && Some("HI") in MappedNames(t.frame, codes)
    ensures r.Err? ==> r == Err(KeyError(NotFoundInAxis(MissingIslands(t.frame, codes))))
    ensures r.Ok? ==> |r.value.columns| == |KeptCodes(t.frame, codes)|
    ensures r.Ok? ==> forall k :: 0 <= k < |r.value.columns| ==> r.value.columns[k].code == KeptCodes(t.frame, codes)[k]
    ensures r.Ok? ==> r.value.stamps == StampsOf(FirstHours(t.stamps))
    ensures r.Ok? ==> forall k :: 0 <= k < |r.value.columns| ==> |r.value.columns[k].values| == |r.value.stamps|
  {
    var missing := MissingIslands(t.frame, codes);
    if |missing| > 0 then
      Err(KeyError(NotFoundInAxis(missing)))
    else
      assert "AK" !in missing && "HI" !in missing;
      var kept := KeptCodes(t.frame, codes);
      var hours := FirstHours(t.stamps);
      var n := |t.stamps|;
      Ok(CodeTable(StampsOf(hours),
                   seq(|kept|, k requires 0 <= k < |kept| =>
                     CodeColumn(kept[k], RoundedTotals(t.frame, codes, kept[k], hours, n)))))
  }

  /** Every value is the nearest whole number to the summed load of its
      code at that hour (halves to even). */
  lemma FoldStatesValue(t: Table, codes: Dict, r: CodeTable, k: nat, i: nat)
    requires Shaped(t)
    requires FoldStates(t, codes) == Ok(r)
    requires k < |r.columns| && i < |r.stamps|
    ensures var h := FirstHours(t.stamps)[i].0;
            var total := CodeTotal(t.frame, codes, r.columns[k].code, h);
            var v := r.columns[k].values[i];
            h < |t.stamps| && t.stamps[h] == r.stamps[i]
            && total - 0.5 <= v as real <= total + 0.5
            && (v as real - total == 0.5 || total - v as real == 0.5 ==> v % 2 == 0)
  {
  }

  // ---------------------------------------------------------------------------
  // Scenarios and output files (hourlize/load.py main)
  // ---------------------------------------------------------------------------

  const ValidScenarios: seq<string> := ["IRA cons", "central", "baseline"]

  /** The prefix of a scenario's output file, or NotImplementedError. */
  function ScenarioPrefix(scenario: string): (r: Result<string>)
    ensures r.Ok? <==> scenario in ValidScenarios
    ensures r.Err? ==> r.error == NotImplementedError(
              scenario + " is not a valid load scenario. Choose from ['IRA cons', 'central', 'baseline'].")
  {
    if scenario == "IRA cons" then Ok("EER_IRAlow")
    else if scenario == "central" then Ok("EER_100by2050")
    else if scenario == "baseline" then Ok("EER_Baseline_AEO2023")
    else Err(NotImplementedError(
      scenario + " is not a valid load scenario. Choose from ['IRA cons', 'central', 'baseline']."))
  }

  /** The output file of every scenario, in order; the first invalid
      scenario stops the run. */
  function OutputFiles(scenarios: seq<string>): (r: Result<seq<string>>)
    ensures r.Ok? <==> forall i :: 0 <= i < |scenarios| ==> scenarios[i] in ValidScenarios
    ensures r.Ok? ==> |r.value| == |scenarios|
    ensures r.Ok? ==> forall i :: 0 <= i < |scenarios| ==>
              r.value[i] == ScenarioPrefix(scenarios[i]).value + "_load_hourly.h5"
    decreases |scenarios|
  {
    if |scenarios| == 0 then Ok([])
    else
      match ScenarioPrefix(scenarios[0])
      case Err(e) => Err(e)
      case Ok(prefix) =>
        var rest := OutputFiles(scenarios[1..]);
        assert forall i :: 1 <= i < |scenarios| ==> scenarios[i] == scenarios[1..][i - 1];
        assert rest.Ok? ==> forall i :: 1 <= i < |scenarios| ==> rest.value[i - 1] == ScenarioPrefix(scenarios[i]).value + "_load_hourly.h5";
        match rest
        case Err(e) => Err(e)
        case Ok(files) => Ok([prefix + "_load_hourly.h5"] + files)
  }

  /** The run stops at the first invalid scenario, with its error. */
  lemma {:induction false} OutputFilesFirstInvalid(scenarios: seq<string>, i: nat)
    requires i < |scenarios| && scenarios[i] !in ValidScenarios
    requires forall j :: 0 <= j < i ==> scenarios[j] in ValidScenarios
    ensures OutputFiles(scenarios) == Err(ScenarioPrefix(scenarios[i]).error)
    decreases i
  {
    if i > 0 {
      OutputFilesFirstInvalid(scenarios[1..], i - 1);
      assert scenarios[1..][i - 1] == scenarios[i];
    }
  }
}
