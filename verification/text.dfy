/** String operations the source takes from Python's `str`: `split`,
    `rsplit(sep, 1)`, `join`, `in`, `startswith`, `lower`/`upper` (ASCII
    letters only) and `int`/`float` of plain decimal text. */
module Text {
  import opened Wrappers

  // ---------------------------------------------------------------------------
  // Occurrences
  // ---------------------------------------------------------------------------

  predicate StartsWith(s: string, p: string)
  {
    |p| <= |s| && s[..|p|] == p
  }

  ghost predicate OccursAt(s: string, p: string, i: int)
  {
    0 <= i && i + |p| <= |s| && s[i..i + |p|] == p
  }

  /** Index of the first occurrence of `p` in `s`. */
  function Find(s: string, p: string): (r: Option<nat>)
    ensures r.Some? ==> OccursAt(s, p, r.value)
    ensures r.Some? ==> forall j :: 0 <= j < r.value ==> !OccursAt(s, p, j)
    ensures r.None? ==> forall j :: !OccursAt(s, p, j)
    decreases |s|
  {
    if StartsWith(s, p) then Some(0)
    else if |s| == 0 then None
    else
      match Find(s[1..], p)
      case None =>
        FindShift(s, p, |s|);
        None
      case Some(i) =>
        FindShift(s, p, i + 1);
        Some(i + 1)
  }

  /** An occurrence at `j > 0` is an occurrence at `j - 1` in the tail. */
  lemma FindShift(s: string, p: string, bound: nat)
    requires |s| > 0
    ensures forall j :: 0 < j <= bound && OccursAt(s, p, j) ==> OccursAt(s[1..], p, j - 1)
    ensures forall j :: 0 <= j && OccursAt(s[1..], p, j) ==> OccursAt(s, p, j + 1)
  {
    forall j | 0 < j <= bound && OccursAt(s, p, j)
      ensures OccursAt(s[1..], p, j - 1)
    {
      assert s[1..][j - 1..j - 1 + |p|] == s[j..j + |p|];
    }
    forall j | 0 <= j && OccursAt(s[1..], p, j)
      ensures OccursAt(s, p, j + 1)
    {
      assert s[1..][j..j + |p|] == s[j + 1..j + 1 + |p|];
    }
  }

  /** Python's `p in s`. */
  predicate Contains(s: string, p: string)
  {
    Find(s, p).Some?
  }

  lemma ContainsIff(s: string, p: string)
    ensures Contains(s, p) <==> exists j :: OccursAt(s, p, j)
  {
  }

  /** Text that does not contain a one-character string lacks that character. */
  lemma NoOccurrenceNoChar(s: string, c: char)
    requires !Contains(s, [c])
    ensures c !in s
  {
    forall i | 0 <= i < |s|
      ensures s[i] != c
    {
      assert !OccursAt(s, [c], i);
      assert s[i..i + 1] == [s[i]];
    }
  }

  /** The pieces of a split on one character do not contain it. */
  lemma SplitPiecesLackChar(s: string, c: char)
    ensures forall k :: 0 <= k < |Split(s, [c])| ==> c !in Split(s, [c])[k]
  {
    forall k | 0 <= k < |Split(s, [c])|
      ensures c !in Split(s, [c])[k]
    {
      NoOccurrenceNoChar(Split(s, [c])[k], c);
    }
  }

  /** Python's `s.strip(chars)`: leading and trailing characters of `chars`
      removed. */
  function Strip(s: string, chars: string): (r: string)
    ensures |r| > 0 ==> r[0] !in chars && r[|r| - 1] !in chars
  {
    StripRight(StripLeft(s, chars), chars)
  }

  function StripLeft(s: string, chars: string): (r: string)
    ensures |r| <= |s| && r == s[|s| - |r|..]
    ensures |r| > 0 ==> r[0] !in chars
    decreases |s|
  {
    if |s| > 0 && s[0] in chars then StripLeft(s[1..], chars) else s
  }

  function StripRight(s: string, chars: string): (r: string)
    ensures |r| <= |s| && r == s[..|r|]
    ensures |r| > 0 ==> r[|r| - 1] !in chars
    ensures |s| > 0 && s[0] !in chars ==> |r| > 0 && r[0] == s[0]
    decreases |s|
  {
    if |s| > 0 && s[|s| - 1] in chars then StripRight(s[..|s| - 1], chars) else s
  }

  /** Two pieces joined by a character they do not contain split back. */
  lemma SplitPair(a: string, b: string, c: char)
    requires c !in a && c !in b
    ensures Split(a + [c] + b, [c]) == [a, b]
  {
    assert Join([a, b], [c]) == a + [c] + b;
    SplitJoin([a, b], c);
  }

  /** Stripping a leading marker from text that neither starts nor ends
      with a stripped character. */
  lemma StripMarker(m: char, t: string, chars: string)
    requires m in chars && |t| > 0 && t[0] !in chars && t[|t| - 1] !in chars
    ensures Strip([m] + t, chars) == t
  {
    assert ([m] + t)[1..] == t;
    assert StripLeft(t, chars) == t;
    assert StripRight(t, chars) == t;
  }

  /** Text added on either side never removes an occurrence. */
  lemma ContainsExtend(s: string, p: string, before: string, after: string)
    requires Contains(s, p)
    ensures Contains(before + s + after, p)
  {
    var j := Find(s, p).value;
    var t := before + s + after;
    assert t[|before| + j..|before| + j + |p|] == s[j..j + |p|];
    assert OccursAt(t, p, |before| + j);
  }

  // ---------------------------------------------------------------------------
  // split / join
  // ---------------------------------------------------------------------------

  /** Python's `s.split(sep)` for a non-empty separator. */
  function Split(s: string, sep: string): (r: seq<string>)
    requires |sep| > 0
    ensures |r| >= 1
    ensures forall k :: 0 <= k < |r| ==> !Contains(r[k], sep)
    decreases |s|
  {
    match Find(s, sep)
    case None => [s]
    case Some(i) =>
      var head := s[..i];
      assert !Contains(head, sep) by {
        forall j | OccursAt(head, sep, j)
          ensures false
        {
          assert s[j..j + |sep|] == head[j..j + |sep|];
          assert OccursAt(s, sep, j);
        }
      }
      [head] + Split(s[i + |sep|..], sep)
  }

  /** Python's `sep.join(parts)`. */
  function Join(parts: seq<string>, sep: string): string
    decreases |parts|
  {
    if |parts| == 0 then ""
    else if |parts| == 1 then parts[0]
    else parts[0] + sep + Join(parts[1..], sep)
  }

  /** Joining the pieces of a split with the same separator gives the text back. */
  lemma {:induction false} JoinSplit(s: string, sep: string)
    requires |sep| > 0
    ensures Join(Split(s, sep), sep) == s
    decreases |s|
  {
    var f := Find(s, sep);
    if f.Some? {
      var i := f.value;
      var head, rest := s[..i], s[i + |sep|..];
      var tail := Split(rest, sep);
      JoinSplit(rest, sep);
      assert Split(s, sep) == [head] + tail;
      JoinCons(head, tail, sep);
      Reassemble(s, sep, i);
    }
  }

  lemma JoinCons(head: string, tail: seq<string>, sep: string)
    requires |tail| >= 1
    ensures Join([head] + tail, sep) == head + sep + Join(tail, sep)
  {
    assert ([head] + tail)[1..] == tail;
  }

  lemma Reassemble(s: string, p: string, i: nat)
    requires OccursAt(s, p, i)
    ensures s[..i] + p + s[i + |p|..] == s
  {
  }

  /** For a one-character separator, splitting a join gives the parts back. */
  lemma {:induction false} SplitJoin(parts: seq<string>, c: char)
    requires |parts| >= 1
    requires forall k :: 0 <= k < |parts| ==> c !in parts[k]
    ensures Split(Join(parts, [c]), [c]) == parts
    decreases |parts|
  {
    var s := Join(parts, [c]);
    if |parts| == 1 {
      NoCharNoFind(parts[0], c);
    } else {
      var rest := Join(parts[1..], [c]);
      SplitJoin(parts[1..], c);
      assert s == parts[0] + [c] + rest;
      FirstCharOccurrence(parts[0], c, rest);
      assert s[|parts[0]| + 1..] == rest;
      assert s[..|parts[0]|] == parts[0];
      assert parts == [parts[0]] + parts[1..];
    }
  }

  lemma NoCharNoFind(s: string, c: char)
    requires c !in s
    ensures Find(s, [c]).None?
  {
    forall j | 0 <= j < |s| ensures !OccursAt(s, [c], j) {
      assert s[j..j + 1] == [s[j]];
    }
  }

  lemma FirstCharOccurrence(a: string, c: char, b: string)
    requires c !in a
    ensures Find(a + [c] + b, [c]) == Some(|a|)
  {
    var s := a + [c] + b;
    assert s[|a|..|a| + 1] == [c];
    assert OccursAt(s, [c], |a|);
    forall j | 0 <= j < |a| ensures !OccursAt(s, [c], j) {
      assert s[j..j + 1] == [a[j]];
    }
    var f := Find(s, [c]);
    assert f.Some?;
    assert f.value == |a| by {
      assert !(f.value < |a|) by { assert OccursAt(s, [c], f.value); }
      assert !(|a| < f.value);
    }
  }

  /** Python's `str.replace(old, new)` (all occurrences, left to right). */
  function ReplaceAll(s: string, target: string, replacement: string): string
    requires |target| > 0
  {
    Join(Split(s, target), replacement)
  }

  /** Python's `s.rsplit(c, 1)` when `c` occurs: the text before and after the
      last `c`. None when `c` does not occur (the source then fails on `[1]`). */
  function SplitLast(s: string, c: char): (r: Option<(string, string)>)
    ensures r.None? <==> c !in s
    ensures r.Some? ==> s == r.value.0 + [c] + r.value.1 && c !in r.value.1
    decreases |s|
  {
    if |s| == 0 then None
    else if s[|s| - 1] == c then Some((s[..|s| - 1], ""))
    else
      match SplitLast(s[..|s| - 1], c)
      case None =>
        assert c !in s[..|s| - 1];
        assert s == s[..|s| - 1] + [s[|s| - 1]];
        None
      case Some((a, b)) =>
        assert s == s[..|s| - 1] + [s[|s| - 1]];
        Some((a, b + [s[|s| - 1]]))
  }

  /** `rsplit` at the last `c` undoes gluing with `c` when the tail has no `c`. */
  lemma {:induction false} SplitLastGlue(a: string, b: string, c: char)
    requires c !in b
    ensures SplitLast(a + [c] + b, c) == Some((a, b))
    decreases |b|
  {
    var s := a + [c] + b;
    if |b| == 0 {
      assert s[..|s| - 1] == a;
    } else {
      var b' := b[..|b| - 1];
      SplitLastGlue(a, b', c);
      assert s[..|s| - 1] == a + [c] + b';
      assert s[|s| - 1] == b[|b| - 1];
      assert b == b' + [b[|b| - 1]];
    }
  }

  /** `s.split(c)[-1]`: the text after the last `c`, or all of `s`. */
  function AfterLast(s: string, c: char): (r: string)
    ensures c !in r
    ensures c !in s ==> r == s
    ensures c in s ==> exists i :: 0 <= i < |s| && s[i] == c && r == s[i + 1..]
  {
    match SplitLast(s, c)
    case None => s
    case Some((a, b)) =>
      assert s[|a|] == c && s[|a| + 1..] == b;
      b
  }

  // ---------------------------------------------------------------------------
  // Case mapping (ASCII letters)
  // ---------------------------------------------------------------------------

  function LowerChar(c: char): char
  {
    if 'A' <= c <= 'Z' then (c as int + 32) as char else c
  }

  function UpperChar(c: char): char
  {
    if 'a' <= c <= 'z' then (c as int - 32) as char else c
  }

  function Lower(s: string): (r: string)
    ensures |r| == |s|
    ensures forall i :: 0 <= i < |s| ==> r[i] == LowerChar(s[i])
  {
    seq(|s|, i requires 0 <= i < |s| => LowerChar(s[i]))
  }

  function Upper(s: string): (r: string)
    ensures |r| == |s|
    ensures forall i :: 0 <= i < |s| ==> r[i] == UpperChar(s[i])
  {
    seq(|s|, i requires 0 <= i < |s| => UpperChar(s[i]))
  }

  lemma LowerIdempotent(s: string)
    ensures Lower(Lower(s)) == Lower(s)
  {
  }

  // ---------------------------------------------------------------------------
  // Decimal digits
  // ---------------------------------------------------------------------------

  predicate IsDigit(c: char) { '0' <= c <= '9' }

  predicate IsDigits(s: string)
  {
    |s| > 0 && forall i :: 0 <= i < |s| ==> IsDigit(s[i])
  }

  function DigitValue(c: char): nat
    requires IsDigit(c)
  {
    c as int - '0' as int
  }

  /** The value of a string of decimal digits (leading zeros allowed). */
  function DigitsValue(s: string): nat
    requires forall i :: 0 <= i < |s| ==> IsDigit(s[i])
    decreases |s|
  {
    if |s| == 0 then 0 else DigitsValue(s[..|s| - 1]) * 10 + DigitValue(s[|s| - 1])
  }

  /** Python's `str(n)` for a natural number. */
  function NatToString(n: nat): (r: string)
    ensures IsDigits(r)
    decreases n
  {
    var d := ['0' + (n % 10) as char];
    if n < 10 then d else NatToString(n / 10) + d
  }

  lemma {:induction false} NatToStringRoundTrip(n: nat)
    ensures DigitsValue(NatToString(n)) == n
    decreases n
  {
    var s := NatToString(n);
    if n >= 10 {
      NatToStringRoundTrip(n / 10);
      assert s[..|s| - 1] == NatToString(n / 10);
    }
  }

  /** Python's `int(s)` for optionally signed decimal text. */
  function ParseInt(s: string): (r: Option<int>)
  {
    if |s| > 0 && (s[0] == '+' || s[0] == '-') then
      var body := s[1..];
      if IsDigits(body) then
        Some(if s[0] == '-' then -(DigitsValue(body) as int) else DigitsValue(body) as int)
      else None
    else if IsDigits(s) then Some(DigitsValue(s) as int)
    else None
  }

  /** Unsigned digits read as their value. */
  lemma ParseDigits(s: string)
    requires IsDigits(s)
    ensures ParseInt(s) == Some(DigitsValue(s) as int)
  {
    assert IsDigit(s[0]);
  }

  lemma ParseIntSigned(n: nat)
    ensures ParseInt(NatToString(n)) == Some(n as int)
    ensures ParseInt("+" + NatToString(n)) == Some(n as int)
    ensures ParseInt("-" + NatToString(n)) == Some(-(n as int))
  {
    NatToStringRoundTrip(n);
    assert ("+" + NatToString(n))[1..] == NatToString(n);
    assert ("-" + NatToString(n))[1..] == NatToString(n);
  }

  function Pow10(k: nat): (r: nat)
    ensures r >= 1
  {
    if k == 0 then 1 else 10 * Pow10(k - 1)
  }

  /** Python's `float(s)` for plain decimal text: digits with at most one
      point and at least one digit. */
  function ParseDecimal(s: string): (r: Option<real>)
    ensures r.Some? ==> r.value >= 0.0
  {
    var parts := Split(s, ".");
    if |parts| == 1 then
      if IsDigits(s) then Some(DigitsValue(s) as real) else None
    else if |parts| == 2 then
      var whole := parts[0];
      var frac := parts[1];
      if (IsDigits(whole) || whole == "") && (IsDigits(frac) || frac == "")
         && |whole| + |frac| > 0
      then
        Some(DigitsValue(whole) as real + DigitsValue(frac) as real / Pow10(|frac|) as real)
      else None
    else None
  }

  /** Python's `float(text)`: text that is not a number is a ValueError. */
  function ToFloat(text: string): (r: Result<real>)
    ensures r.Ok? <==> ParseDecimal(text).Some?
    ensures r.Ok? ==> r.value == ParseDecimal(text).value
    ensures r.Err? ==> r.error == ValueError(text)
  {
    match ParseDecimal(text)
    case None => Err(ValueError(text))
    case Some(c) => Ok(c)
  }

  lemma ParseDecimalNat(n: nat)
    ensures ParseDecimal(NatToString(n)) == Some(n as real)
  {
    var s := NatToString(n);
    NatToStringRoundTrip(n);
    assert '.' !in s by {
      forall i | 0 <= i < |s| ensures s[i] != '.' { assert IsDigit(s[i]); }
    }
    NoCharNoFind(s, '.');
  }
}
