/** Table operations the source performs with pandas, stated over sequences:
    sums and maxima, keep-first de-duplication (`drop_duplicates(keep='first')`),
    per-group truncation (`groupby(..).head(n)`) and a stable sort. */
module Seqs {

  function Id<T>(x: T): T { x }

  // ---------------------------------------------------------------------------
  // Sums and maxima
  // ---------------------------------------------------------------------------

  function Sum(s: seq<real>): real
  {
    if |s| == 0 then 0.0 else Sum(s[..|s| - 1]) + s[|s| - 1]
  }

  lemma {:induction false} SumAppend(a: seq<real>, b: seq<real>)
    ensures Sum(a + b) == Sum(a) + Sum(b)
    decreases |b|
  {
    if |b| == 0 {
      assert a + b == a;
    } else {
      assert (a + b)[..|a + b| - 1] == a + b[..|b| - 1];
      SumAppend(a, b[..|b| - 1]);
    }
  }

  /** Raising one element by `d` raises the sum by `d`. */
  lemma {:induction false} SumUpdate(s: seq<real>, i: nat, d: real)
    requires i < |s|
    ensures Sum(s[i := s[i] + d]) == Sum(s) + d
    decreases |s|
  {
    var t := s[i := s[i] + d];
    if i < |s| - 1 {
      SumUpdate(s[..|s| - 1], i, d);
      assert t[..|t| - 1] == s[..|s| - 1][i := s[i] + d];
    } else {
      assert t[..|t| - 1] == s[..|s| - 1];
    }
  }

  lemma {:induction false} SumNonNegative(s: seq<real>)
    requires forall i :: 0 <= i < |s| ==> s[i] >= 0.0
    ensures Sum(s) >= 0.0
    decreases |s|
  {
    if |s| > 0 {
      SumNonNegative(s[..|s| - 1]);
    }
  }

  /** Largest element; `max()` of a non-empty pandas column. */
  function Max(s: seq<real>): (m: real)
    requires |s| > 0
    ensures forall i :: 0 <= i < |s| ==> s[i] <= m
    ensures exists i :: 0 <= i < |s| && s[i] == m
    decreases |s|
  {
    if |s| == 1 then s[0]
    else
      var m' := Max(s[..|s| - 1]);
      assert forall i :: 0 <= i < |s| - 1 ==> s[..|s| - 1][i] == s[i];
      if m' >= s[|s| - 1] then m' else s[|s| - 1]
  }

  /** Elements that satisfy `p`, in order. */
  function Filter<T>(s: seq<T>, p: T -> bool): (r: seq<T>)
    ensures |r| <= |s|
    ensures forall i :: 0 <= i < |r| ==> p(r[i])
    ensures forall i :: 0 <= i < |s| && p(s[i]) ==> s[i] in r
    ensures IsSubseq(r, s)
    decreases |s|
  {
    if |s| == 0 then []
    else
      var s' := s[..|s| - 1];
      var x := s[|s| - 1];
      var r' := Filter(s', p);
      assert s' + [x] == s;
      assert forall i :: 0 <= i < |s'| ==> s'[i] == s[i];
      SubseqOfPrefix(r', s', x);
      if p(x) then
        SubseqAppend(r', s', x);
        r' + [x]
      else r'
  }

  lemma InPrefixOrLast<T>(s: seq<T>, x: T)
    requires |s| > 0
    ensures x in s <==> x in s[..|s| - 1] || s[|s| - 1] == x
  {
    if x in s {
      var i :| 0 <= i < |s| && s[i] == x;
      if i < |s| - 1 { assert s[..|s| - 1][i] == x; }
    }
  }

  /** `r` can be obtained from `s` by deleting elements. */
  ghost predicate IsSubseq<T>(r: seq<T>, s: seq<T>)
    decreases |s|
  {
    if |r| == 0 then true
    else if |s| == 0 then false
    else if r[|r| - 1] == s[|s| - 1] then IsSubseq(r[..|r| - 1], s[..|s| - 1])
    else IsSubseq(r, s[..|s| - 1])
  }

  lemma {:induction false} SubseqOfPrefix<T>(r: seq<T>, s: seq<T>, x: T)
    requires IsSubseq(r, s)
    ensures IsSubseq(r, s + [x])
    decreases |s|, 1
  {
    if |r| > 0 {
      assert (s + [x])[..|s|] == s;
      if r[|r| - 1] != x {
        assert IsSubseq(r, (s + [x])[..|s + [x]| - 1]);
      } else {
        SubseqShrink(r, s);
      }
    }
  }

  /** Every sequence is a subsequence of itself. */
  lemma {:induction false} SubseqRefl<T>(s: seq<T>)
    ensures IsSubseq(s, s)
    decreases |s|
  {
    if |s| > 0 {
      SubseqRefl(s[..|s| - 1]);
    }
  }

  /** Dropping the last element of a subsequence keeps it a subsequence. */
  lemma {:induction false} SubseqShrink<T>(r: seq<T>, s: seq<T>)
    requires |r| > 0 && IsSubseq(r, s)
    ensures IsSubseq(r[..|r| - 1], s)
    decreases |s|, 0
  {
    assert |s| > 0;
    var s' := s[..|s| - 1];
    if r[|r| - 1] == s[|s| - 1] {
      SubseqOfPrefix(r[..|r| - 1], s', s[|s| - 1]);
      assert s' + [s[|s| - 1]] == s;
    } else {
      SubseqShrink(r, s');
      SubseqOfPrefix(r[..|r| - 1], s', s[|s| - 1]);
      assert s' + [s[|s| - 1]] == s;
    }
  }

  lemma {:induction false} SubseqAppend<T>(r: seq<T>, s: seq<T>, x: T)
    requires IsSubseq(r, s)
    ensures IsSubseq(r + [x], s + [x])
  {
    assert (r + [x])[..|r|] == r;
    assert (s + [x])[..|s|] == s;
  }

  lemma {:induction false} SubseqMembers<T>(r: seq<T>, s: seq<T>)
    requires IsSubseq(r, s)
    ensures forall x :: x in r ==> x in s
    decreases |s|
  {
    if |r| > 0 {
      var s' := s[..|s| - 1];
      if r[|r| - 1] == s[|s| - 1] {
        SubseqMembers(r[..|r| - 1], s');
        assert forall x :: x in r ==> x in r[..|r| - 1] || x == r[|r| - 1];
      } else {
        SubseqMembers(r, s');
      }
      assert forall x :: x in s' ==> x in s;
    }
  }

  /** A subsequence of a sequence with unique keys has unique keys. */
  lemma {:induction false} SubseqUnique<T, K>(r: seq<T>, s: seq<T>, key: T -> K)
    requires IsSubseq(r, s) && KeysUnique(s, key)
    ensures KeysUnique(r, key)
    decreases |s|
  {
    if |r| > 0 {
      var s' := s[..|s| - 1];
      assert KeysUnique(s', key);
      if r[|r| - 1] == s[|s| - 1] {
        var r' := r[..|r| - 1];
        SubseqUnique(r', s', key);
        SubseqMembers(r', s');
        forall i, j | 0 <= i < j < |r|
          ensures key(r[i]) != key(r[j])
        {
          assert r[i] == r'[i] && r'[i] in s';
          if j < |r| - 1 {
            assert r[j] == r'[j];
          } else {
            var k :| 0 <= k < |s'| && s'[k] == r'[i];
            assert s[k] == s'[k];
          }
        }
      } else {
        SubseqUnique(r, s', key);
      }
    }
  }

  // ---------------------------------------------------------------------------
  // Keep-first de-duplication
  // ---------------------------------------------------------------------------

  function KeySet<T, K>(s: seq<T>, key: T -> K): set<K>
  {
    set i | 0 <= i < |s| :: key(s[i])
  }

  ghost predicate KeysUnique<T, K>(s: seq<T>, key: T -> K)
  {
    forall i, j :: 0 <= i < j < |s| ==> key(s[i]) != key(s[j])
  }

  /** The first element of `s` whose key is `k`. */
  function First<T, K(==)>(s: seq<T>, key: T -> K, k: K): (f: T)
    requires k in KeySet(s, key)
    ensures key(f) == k
    ensures exists i :: 0 <= i < |s| && s[i] == f
                        && forall j :: 0 <= j < i ==> key(s[j]) != k
    decreases |s|
  {
    var s' := s[..|s| - 1];
    if k in KeySet(s', key) then
      var f := First(s', key, k);
      assert forall j :: 0 <= j < |s'| ==> s'[j] == s[j];
      f
    else
      assert forall j :: 0 <= j < |s'| ==> key(s[j]) == key(s'[j]);
      s[|s| - 1]
  }

  /** `drop_duplicates(subset=key, keep='first')`. */
  function DedupBy<T, K(==)>(s: seq<T>, key: T -> K): (r: seq<T>)
    ensures KeysUnique(r, key)
    ensures KeySet(r, key) == KeySet(s, key)
    ensures forall i :: 0 <= i < |r| ==> key(r[i]) in KeySet(s, key) && r[i] == First(s, key, key(r[i]))
    ensures IsSubseq(r, s)
    decreases |s|
  {
    if |s| == 0 then []
    else
      var s' := s[..|s| - 1];
      var x := s[|s| - 1];
      var r' := DedupBy(s', key);
      assert s' + [x] == s;
      DedupStep(s', x, r', key);
      if key(x) in KeySet(r', key) then r' else r' + [x]
  }

  lemma DedupStep<T, K>(s: seq<T>, x: T, r: seq<T>, key: T -> K)
    requires KeysUnique(r, key)
    requires KeySet(r, key) == KeySet(s, key)
    requires forall i :: 0 <= i < |r| ==> key(r[i]) in KeySet(s, key) && r[i] == First(s, key, key(r[i]))
    requires IsSubseq(r, s)
    ensures var r' := if key(x) in KeySet(r, key) then r else r + [x];
            && KeysUnique(r', key)
            && KeySet(r', key) == KeySet(s + [x], key)
            && (forall i :: 0 <= i < |r'| ==>
                  key(r'[i]) in KeySet(s + [x], key) && r'[i] == First(s + [x], key, key(r'[i])))
            && IsSubseq(r', s + [x])
  {
    if key(x) in KeySet(r, key) {
      KeySetSnoc(s, x, key);
      SubseqOfPrefix(r, s, x);
      FirstSnoc(r, s, x, key);
    } else {
      SubseqAppend(r, s, x);
      DedupByNewKey(r, x, key);
      NewKeyFirst(s, x, r, key);
    }
  }

  /** A new key's element joins the de-duplicated sequence as the first of its key. */
  lemma NewKeyFirst<T, K>(s: seq<T>, x: T, r: seq<T>, key: T -> K)
    requires KeySet(r, key) == KeySet(s, key) && key(x) !in KeySet(r, key)
    requires forall i :: 0 <= i < |r| ==> key(r[i]) in KeySet(s, key) && r[i] == First(s, key, key(r[i]))
    ensures KeySet(r + [x], key) == KeySet(s + [x], key)
    ensures forall i :: 0 <= i < |r| + 1 ==>
              key((r + [x])[i]) in KeySet(s + [x], key) && (r + [x])[i] == First(s + [x], key, key((r + [x])[i]))
  {
    KeySetSnoc(s, x, key);
    KeySetSnoc(r, x, key);
    FirstSnoc(r, s, x, key);
    var r' := r + [x];
    forall i | 0 <= i < |r'|
      ensures key(r'[i]) in KeySet(s + [x], key) && r'[i] == First(s + [x], key, key(r'[i]))
    {
      if i < |r| { assert r'[i] == r[i]; }
    }
  }

  lemma FirstSnoc<T, K>(r: seq<T>, s: seq<T>, x: T, key: T -> K)
    requires KeySet(r, key) == KeySet(s, key)
    requires forall i :: 0 <= i < |r| ==> key(r[i]) in KeySet(s, key) && r[i] == First(s, key, key(r[i]))
    ensures forall i :: 0 <= i < |r| ==>
              key(r[i]) in KeySet(s + [x], key) && r[i] == First(s + [x], key, key(r[i]))
    ensures key(x) in KeySet(s + [x], key)
    ensures key(x) !in KeySet(s, key) ==> x == First(s + [x], key, key(x))
  {
    KeySetSnoc(s, x, key);
    assert (s + [x])[..|s|] == s;
    forall i | 0 <= i < |r|
      ensures r[i] == First(s + [x], key, key(r[i]))
    {
      assert key(r[i]) in KeySet(r, key);
    }
  }

  lemma KeySetSnoc<T, K>(s: seq<T>, x: T, key: T -> K)
    ensures KeySet(s + [x], key) == KeySet(s, key) + {key(x)}
  {
    assert forall i :: 0 <= i < |s| ==> (s + [x])[i] == s[i];
    assert (s + [x])[|s|] == x;
  }

  lemma DedupByNewKey<T, K>(r: seq<T>, x: T, key: T -> K)
    requires KeysUnique(r, key) && key(x) !in KeySet(r, key)
    ensures KeysUnique(r + [x], key)
  {
    forall i | 0 <= i < |r| ensures key(r[i]) != key(x) {
      assert key(r[i]) in KeySet(r, key);
    }
  }

  lemma KeySetId<T>(s: seq<T>, x: T)
    ensures x in KeySet(s, Id) <==> x in s
  {
    if x in s {
      var i :| 0 <= i < |s| && s[i] == x;
      assert Id(s[i]) in KeySet(s, Id);
    }
  }

  /** Unfolding `DedupBy` at a new last element. */
  lemma DedupBySnoc<T, K>(s: seq<T>, x: T, key: T -> K)
    ensures DedupBy(s + [x], key)
            == if key(x) in KeySet(s, key) then DedupBy(s, key) else DedupBy(s, key) + [x]
  {
    assert (s + [x])[..|s|] == s;
  }

  /** De-duplicating a duplicate-free sequence changes nothing. */
  lemma {:induction false} DedupByUnique<T, K>(s: seq<T>, key: T -> K)
    requires KeysUnique(s, key)
    ensures DedupBy(s, key) == s
    decreases |s|
  {
    if |s| > 0 {
      var s' := s[..|s| - 1];
      DedupByUnique(s', key);
      assert key(s[|s| - 1]) !in KeySet(s', key);
      assert s' + [s[|s| - 1]] == s;
    }
  }

  /** The first element of every key survives the de-duplication. */
  lemma DedupKeepsFirst<T, K>(s: seq<T>, key: T -> K, x: T)
    requires x in s
    ensures key(x) in KeySet(s, key)
    ensures First(s, key, key(x)) in DedupBy(s, key)
  {
    var j :| 0 <= j < |s| && s[j] == x;
    assert key(s[j]) in KeySet(s, key);
    var r := DedupBy(s, key);
    assert key(x) in KeySet(r, key);
    var i :| 0 <= i < |r| && key(r[i]) == key(x);
  }

  /** De-duplicating `a + b` keeps a duplicate-free `a` as it is, in front. */
  lemma {:induction false} DedupKeepsPrefix<T, K>(a: seq<T>, b: seq<T>, key: T -> K)
    requires KeysUnique(a, key)
    ensures |DedupBy(a + b, key)| >= |a|
    ensures DedupBy(a + b, key)[..|a|] == a
    decreases |b|
  {
    if |b| == 0 {
      assert a + b == a;
      DedupByUnique(a, key);
    } else {
      var b', x := b[..|b| - 1], b[|b| - 1];
      assert a + b == (a + b') + [x];
      DedupKeepsPrefix(a, b', key);
      DedupBySnoc(a + b', x, key);
      PrefixSurvivesSnoc(DedupBy(a + b', key), x, DedupBy(a + b, key), a);
    }
  }

  lemma PrefixSurvivesSnoc<T>(d: seq<T>, x: T, e: seq<T>, a: seq<T>)
    requires |d| >= |a| && d[..|a|] == a
    requires e == d || e == d + [x]
    ensures |e| >= |a| && e[..|a|] == a
  {
    assert (d + [x])[..|a|] == d[..|a|];
  }

  /** Idempotence: de-duplicating twice is de-duplicating once. */
  lemma DedupByIdempotent<T, K>(s: seq<T>, key: T -> K)
    ensures DedupBy(DedupBy(s, key), key) == DedupBy(s, key)
  {
    DedupByUnique(DedupBy(s, key), key);
  }

  // ---------------------------------------------------------------------------
  // Per-group truncation
  // ---------------------------------------------------------------------------

  /** The elements of `s` whose group is `k`, in order. */
  function OfGroup<T, K(==)>(s: seq<T>, group: T -> K, k: K): (r: seq<T>)
    ensures |r| <= |s|
    decreases |s|
  {
    if |s| == 0 then []
    else OfGroup(s[..|s| - 1], group, k) + (if group(s[|s| - 1]) == k then [s[|s| - 1]] else [])
  }

  lemma OfGroupSnoc<T, K>(s: seq<T>, x: T, group: T -> K, k: K)
    ensures OfGroup(s + [x], group, k) == OfGroup(s, group, k) + (if group(x) == k then [x] else [])
  {
    assert (s + [x])[..|s|] == s;
  }

  function Take<T>(s: seq<T>, n: nat): (r: seq<T>)
  {
    if |s| <= n then s else s[..n]
  }

  lemma TakeSnoc<T>(g: seq<T>, x: T, n: nat)
    requires |Take(g, n)| >= n
    ensures Take(g + [x], n) == Take(g, n)
  {
    assert (g + [x])[..n] == g[..n];
  }

  /** `groupby(group).head(n)`: each group keeps its first `n` elements and
      the original order is kept. */
  function HeadPerGroup<T, K(==,!new)>(s: seq<T>, group: T -> K, n: nat): (r: seq<T>)
    ensures forall k :: OfGroup(r, group, k) == Take(OfGroup(s, group, k), n)
    ensures IsSubseq(r, s)
    decreases |s|
  {
    if |s| == 0 then []
    else
      var s' := s[..|s| - 1];
      var x := s[|s| - 1];
      var r' := HeadPerGroup(s', group, n);
      assert s' + [x] == s;
      SubseqOfPrefix(r', s', x);
      if |OfGroup(r', group, group(x))| < n then
        SubseqAppend(r', s', x);
        HeadKeepStep(r', s', x, group, n);
        r' + [x]
      else
        HeadDropStep(r', s', x, group, n);
        r'
  }

  lemma HeadKeepStep<T, K(!new)>(r: seq<T>, s: seq<T>, x: T, group: T -> K, n: nat)
    requires forall k :: OfGroup(r, group, k) == Take(OfGroup(s, group, k), n)
    requires |OfGroup(r, group, group(x))| < n
    ensures forall k :: OfGroup(r + [x], group, k) == Take(OfGroup(s + [x], group, k), n)
  {
    forall k
      ensures OfGroup(r + [x], group, k) == Take(OfGroup(s + [x], group, k), n)
    {
      OfGroupSnoc(r, x, group, k);
      OfGroupSnoc(s, x, group, k);
    }
  }

  lemma HeadDropStep<T, K(!new)>(r: seq<T>, s: seq<T>, x: T, group: T -> K, n: nat)
    requires forall k :: OfGroup(r, group, k) == Take(OfGroup(s, group, k), n)
    requires |OfGroup(r, group, group(x))| >= n
    ensures forall k :: OfGroup(r, group, k) == Take(OfGroup(s + [x], group, k), n)
  {
    forall k
      ensures OfGroup(r, group, k) == Take(OfGroup(s + [x], group, k), n)
    {
      OfGroupSnoc(s, x, group, k);
      if group(x) == k {
        TakeSnoc(OfGroup(s, group, k), x, n);
      }
    }
  }

  /** `OfGroup` keeps the elements of the group in order ... */
  lemma {:induction false} OfGroupSubseq<T, K>(s: seq<T>, group: T -> K, k: K)
    ensures IsSubseq(OfGroup(s, group, k), s)
    decreases |s|
  {
    if |s| > 0 {
      var s' := s[..|s| - 1];
      var x := s[|s| - 1];
      var o' := OfGroup(s', group, k);
      OfGroupSubseq(s', group, k);
      assert s' + [x] == s;
      var o := if group(x) == k then o' + [x] else o';
      assert OfGroup(s, group, k) == o;
      if group(x) == k {
        SubseqAppend(o', s', x);
      } else {
        SubseqOfPrefix(o', s', x);
      }
      assert IsSubseq(o, s' + [x]);
    }
  }

  /** ... and exactly those elements. */
  lemma {:induction false} OfGroupMembers<T, K>(s: seq<T>, group: T -> K, k: K, y: T)
    ensures y in OfGroup(s, group, k) <==> y in s && group(y) == k
    decreases |s|
  {
    if |s| > 0 {
      var s' := s[..|s| - 1];
      var x := s[|s| - 1];
      OfGroupMembers(s', group, k, y);
      InPrefixOrLast(s, y);
      assert OfGroup(s, group, k) == OfGroup(s', group, k) + (if group(x) == k then [x] else []);
    }
  }

  /** An element of a descending sequence that `HeadPerGroup` drops lost to
      `n` elements of its own group, each at least as large. */
  lemma HeadPerGroupDropped<T, K(!new)>(s: seq<T>, group: T -> K, n: nat, v: T -> real, y: T)
    requires SortedDesc(s, v) && y in s && y !in HeadPerGroup(s, group, n)
    ensures |OfGroup(HeadPerGroup(s, group, n), group, group(y))| == n
    ensures forall z :: z in HeadPerGroup(s, group, n) && group(z) == group(y) ==> v(z) >= v(y)
  {
    var r := HeadPerGroup(s, group, n);
    var g := group(y);
    var o := OfGroup(s, group, g);
    OfGroupSubseq(s, group, g);
    OfGroupMembers(s, group, g, y);
    OfGroupMembers(r, group, g, y);
    SubseqSorted(o, s, v);
    assert OfGroup(r, group, g) == Take(o, n);
    assert |o| > n;
    var m :| 0 <= m < |o| && o[m] == y;
    forall j | 0 <= j < n
      ensures o[j] != y
    {
      assert o[..n][j] == o[j];
    }
    forall z | z in r && group(z) == g
      ensures v(z) >= v(y)
    {
      OfGroupMembers(r, group, g, z);
      assert z in o[..n];
      var j :| 0 <= j < n && o[..n][j] == z;
      assert o[j] == z;
    }
  }

  /** The quota: no group has more than `n` elements after truncation. */
  lemma HeadPerGroupQuota<T, K(!new)>(s: seq<T>, group: T -> K, n: nat, k: K)
    ensures |OfGroup(HeadPerGroup(s, group, n), group, k)| <= n
  {
  }

  // ---------------------------------------------------------------------------
  // Stable descending sort
  // ---------------------------------------------------------------------------

  ghost predicate SortedDesc<T>(s: seq<T>, v: T -> real)
  {
    forall i, j :: 0 <= i < j < |s| ==> v(s[i]) >= v(s[j])
  }

  /** Inserts `x` after every element whose value is at least `v(x)`. */
  function Insert<T>(s: seq<T>, x: T, v: T -> real): (r: seq<T>)
    requires SortedDesc(s, v)
    ensures SortedDesc(r, v)
    ensures multiset(r) == multiset(s) + multiset{x}
    ensures |r| == |s| + 1
    decreases |s|
  {
    if |s| == 0 then [x]
    else if v(s[|s| - 1]) >= v(x) then s + [x]
    else
      var s' := s[..|s| - 1];
      var y := s[|s| - 1];
      assert s' + [y] == s;
      var r' := Insert(s', x, v);
      InsertBound(r', s', x, v, v(y));
      r' + [y]
  }

  lemma InsertBound<T>(r: seq<T>, s: seq<T>, x: T, v: T -> real, c: real)
    requires multiset(r) == multiset(s) + multiset{x}
    requires forall i :: 0 <= i < |s| ==> v(s[i]) >= c
    requires v(x) >= c
    ensures forall i :: 0 <= i < |r| ==> v(r[i]) >= c
  {
    forall i | 0 <= i < |r|
      ensures v(r[i]) >= c
    {
      assert r[i] in multiset(r);
      if r[i] != x {
        assert r[i] in multiset(s);
        var j :| 0 <= j < |s| && s[j] == r[i];
      }
    }
  }

  /** `sort_values(ascending=False)` with ties kept in input order. */
  function SortDesc<T>(s: seq<T>, v: T -> real): (r: seq<T>)
    ensures SortedDesc(r, v)
    ensures multiset(r) == multiset(s)
    ensures |r| == |s|
    decreases |s|
  {
    if |s| == 0 then []
    else
      assert s[..|s| - 1] + [s[|s| - 1]] == s;
      Insert(SortDesc(s[..|s| - 1], v), s[|s| - 1], v)
  }

  /** Sorting an already sorted table is the identity (the source sorts the
      daily table a second time). */
  lemma {:induction false} SortDescSorted<T>(s: seq<T>, v: T -> real)
    requires SortedDesc(s, v)
    ensures SortDesc(s, v) == s
    decreases |s|
  {
    if |s| > 0 {
      var s' := s[..|s| - 1];
      var x := s[|s| - 1];
      SortDescSorted(s', v);
      assert s' + [x] == s;
      InsertLast(s', x, v);
    }
  }

  /** An element no larger than the last one goes at the end. */
  lemma InsertLast<T>(s: seq<T>, x: T, v: T -> real)
    requires SortedDesc(s, v) && SortedDesc(s + [x], v)
    ensures Insert(s, x, v) == s + [x]
  {
    if |s| > 0 {
      assert (s + [x])[|s| - 1] == s[|s| - 1] && (s + [x])[|s|] == x;
      assert v(s[|s| - 1]) >= v(x);
    }
  }

  /** In a descending sequence the first element of a key's group carries the
      largest value of that group. */
  lemma FirstIsLargest<T, K>(s: seq<T>, key: T -> K, v: T -> real, x: T)
    requires SortedDesc(s, v) && x in s
    ensures key(x) in KeySet(s, key)
    ensures v(First(s, key, key(x))) >= v(x)
  {
    var j :| 0 <= j < |s| && s[j] == x;
    assert key(s[j]) in KeySet(s, key);
    var f := First(s, key, key(x));
    var i :| 0 <= i < |s| && s[i] == f && forall j' :: 0 <= j' < i ==> key(s[j']) != key(x);
    assert i <= j;
  }

  /** A subsequence of a sorted sequence is sorted. */
  lemma {:induction false} SubseqSorted<T>(r: seq<T>, s: seq<T>, v: T -> real)
    requires IsSubseq(r, s) && SortedDesc(s, v)
    ensures SortedDesc(r, v)
    decreases |s|
  {
    if |r| > 0 {
      var s' := s[..|s| - 1];
      if r[|r| - 1] == s[|s| - 1] {
        var r' := r[..|r| - 1];
        SubseqSorted(r', s', v);
        SubseqMembers(r', s');
        forall i | 0 <= i < |r'|
          ensures v(r[i]) >= v(r[|r| - 1])
        {
          assert r[i] == r'[i];
          assert r'[i] in s';
          var j :| 0 <= j < |s'| && s'[j] == r'[i];
        }
      } else {
        SubseqSorted(r, s', v);
      }
    }
  }

  // ---------------------------------------------------------------------------
  // Concatenation and membership
  // ---------------------------------------------------------------------------

  /** An element survives the filter exactly when it is in the input and
      passes the test. */
  lemma FilterMembers<T>(s: seq<T>, p: T -> bool, x: T)
    ensures x in Filter(s, p) <==> x in s && p(x)
  {
    SubseqMembers(Filter(s, p), s);
  }

  /** `pd.concat` of a list of tables: the pieces one after the other. */
  function Flatten<T>(s: seq<seq<T>>): (r: seq<T>)
    ensures forall i, k :: 0 <= i < |s| && 0 <= k < |s[i]| ==> s[i][k] in r
    ensures forall j :: 0 <= j < |r| ==> exists i :: 0 <= i < |s| && r[j] in s[i]
    decreases |s|
  {
    if |s| == 0 then []
    else
      var s' := s[..|s| - 1];
      assert forall i :: 0 <= i < |s'| ==> s'[i] == s[i];
      Flatten(s') + s[|s| - 1]
  }

  /** Reordering keeps the set of keys. */
  lemma KeySetPermutation<T, K>(a: seq<T>, b: seq<T>, key: T -> K)
    requires multiset(a) == multiset(b)
    ensures KeySet(a, key) == KeySet(b, key)
  {
    forall k | k in KeySet(a, key) ensures k in KeySet(b, key) {
      var i :| 0 <= i < |a| && key(a[i]) == k;
      assert a[i] in multiset(b);
    }
    forall k | k in KeySet(b, key) ensures k in KeySet(a, key) {
      var i :| 0 <= i < |b| && key(b[i]) == k;
      assert b[i] in multiset(a);
    }
  }

  /** Reordering keeps keys unique. */
  lemma KeysUniquePermutation<T, K>(a: seq<T>, b: seq<T>, key: T -> K)
    requires multiset(a) == multiset(b) && KeysUnique(b, key)
    ensures KeysUnique(a, key)
  {
    forall i, j | 0 <= i < j < |a| ensures key(a[i]) != key(a[j]) {
      UniqueKeysOnce(b, key, a[i]);
      if a[i] == a[j] {
        TwiceCounted(a, i, j);
      } else {
        assert a[i] in multiset(b) && a[j] in multiset(b);
        var p :| 0 <= p < |b| && b[p] == a[i];
        var q :| 0 <= q < |b| && b[q] == a[j];
        assert p != q;
      }
    }
  }

  /** An element at two positions is counted at least twice. */
  lemma TwiceCounted<T>(s: seq<T>, i: nat, j: nat)
    requires i < j < |s| && s[i] == s[j]
    ensures multiset(s)[s[i]] >= 2
  {
    assert s == s[..j] + s[j..];
    assert s[i] in s[..j] && s[j] in s[j..];
  }

  /** Under unique keys every element is counted at most once. */
  lemma {:induction false} UniqueKeysOnce<T, K>(s: seq<T>, key: T -> K, x: T)
    requires KeysUnique(s, key)
    ensures multiset(s)[x] <= 1
    decreases |s|
  {
    if |s| > 0 {
      var s' := s[..|s| - 1];
      var y := s[|s| - 1];
      assert s' + [y] == s;
      UniqueKeysOnce(s', key, x);
      if y == x {
        assert x !in s';
      }
    }
  }

  /** Every kept element comes from the input. */
  lemma DedupMembers<T, K>(s: seq<T>, key: T -> K, x: T)
    requires x in DedupBy(s, key)
    ensures x in s
  {
    var r := DedupBy(s, key);
    var i :| 0 <= i < |r| && r[i] == x;
    assert x == First(s, key, key(r[i]));
  }
}
