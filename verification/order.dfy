/** Python's ordering of strings (code point by code point, a proper prefix
    first) and a stable ascending sort on a string key. */
module Order {
  import opened Seqs

  predicate StrLe(a: string, b: string)
    decreases |a|
  {
    if |a| == 0 then true
    else if |b| == 0 then false
    else if a[0] != b[0] then a[0] < b[0]
    else StrLe(a[1..], b[1..])
  }

  lemma {:induction false} StrLeTotal(a: string, b: string)
    ensures StrLe(a, b) || StrLe(b, a)
    decreases |a|
  {
    if |a| > 0 && |b| > 0 && a[0] == b[0] {
      StrLeTotal(a[1..], b[1..]);
    }
  }

  lemma {:induction false} StrLeTrans(a: string, b: string, c: string)
    requires StrLe(a, b) && StrLe(b, c)
    ensures StrLe(a, c)
    decreases |a|
  {
    if |a| > 0 && |b| > 0 && |c| > 0 && a[0] == b[0] && b[0] == c[0] {
      StrLeTrans(a[1..], b[1..], c[1..]);
    }
  }

  lemma {:induction false} StrLeAntisymmetric(a: string, b: string)
    requires StrLe(a, b) && StrLe(b, a)
    ensures a == b
    decreases |a|
  {
    if |a| > 0 {
      StrLeAntisymmetric(a[1..], b[1..]);
      assert a == [a[0]] + a[1..] && b == [b[0]] + b[1..];
    }
  }

  lemma {:induction false} StrLeReflexive(a: string)
    ensures StrLe(a, a)
    decreases |a|
  {
    if |a| > 0 {
      StrLeReflexive(a[1..]);
    }
  }

  ghost predicate SortedBy<T>(s: seq<T>, key: T -> string)
  {
    forall i, j :: 0 <= i < j < |s| ==> StrLe(key(s[i]), key(s[j]))
  }

  /** Inserts `x` after every element whose key is not greater than its own. */
  function InsertBy<T>(s: seq<T>, x: T, key: T -> string): (r: seq<T>)
    requires SortedBy(s, key)
    ensures SortedBy(r, key)
    ensures multiset(r) == multiset(s) + multiset{x}
    ensures |r| == |s| + 1
    decreases |s|
  {
    if |s| == 0 then [x]
    else if StrLe(key(s[|s| - 1]), key(x)) then
      forall i | 0 <= i < |s| - 1
        ensures StrLe(key(s[i]), key(x))
      {
        StrLeTrans(key(s[i]), key(s[|s| - 1]), key(x));
      }
      s + [x]
    else
      var s' := s[..|s| - 1];
      var y := s[|s| - 1];
      assert s' + [y] == s;
      StrLeTotal(key(x), key(y));
      var r' := InsertBy(s', x, key);
      InsertBoundBy(r', s', x, key, key(y));
      r' + [y]
  }

  lemma InsertBoundBy<T>(r: seq<T>, s: seq<T>, x: T, key: T -> string, c: string)
    requires multiset(r) == multiset(s) + multiset{x}
    requires forall i :: 0 <= i < |s| ==> StrLe(key(s[i]), c)
    requires StrLe(key(x), c)
    ensures forall i :: 0 <= i < |r| ==> StrLe(key(r[i]), c)
  {
    forall i | 0 <= i < |r|
      ensures StrLe(key(r[i]), c)
    {
      assert r[i] in multiset(r);
      if r[i] != x {
        assert r[i] in multiset(s);
        var j :| 0 <= j < |s| && s[j] == r[i];
      }
    }
  }

  /** `sorted(...)` / `sort_values(key)` with ties kept in input order. */
  function SortBy<T>(s: seq<T>, key: T -> string): (r: seq<T>)
    ensures SortedBy(r, key)
    ensures multiset(r) == multiset(s)
    ensures |r| == |s|
    decreases |s|
  {
    if |s| == 0 then []
    else
      assert s[..|s| - 1] + [s[|s| - 1]] == s;
      InsertBy(SortBy(s[..|s| - 1], key), s[|s| - 1], key)
  }

  /** The last element of a sorted sequence is not below any of its elements. */
  lemma LastIsGreatest(a: seq<string>, x: string)
    requires SortedBy(a, Id) && x in a
    ensures StrLe(x, a[|a| - 1])
  {
    var i :| 0 <= i < |a| && a[i] == x;
    if i == |a| - 1 {
      StrLeReflexive(x);
    } else {
      assert StrLe(Id(a[i]), Id(a[|a| - 1]));
    }
  }

  lemma DropLast(a: seq<string>, b: seq<string>)
    requires |a| > 0 && |b| > 0 && a[|a| - 1] == b[|b| - 1]
    requires multiset(a) == multiset(b)
    ensures multiset(a[..|a| - 1]) == multiset(b[..|b| - 1])
  {
    var l := a[|a| - 1];
    var a', b' := a[..|a| - 1], b[..|b| - 1];
    assert a == a' + [l];
    assert multiset(a) == multiset(a') + multiset{l};
    assert b == b' + [l];
    assert multiset(b) == multiset(b') + multiset{l};
    forall x
      ensures multiset(a')[x] == multiset(b')[x]
    {
      assert multiset(a)[x] == multiset(a')[x] + multiset{l}[x];
      assert multiset(b)[x] == multiset(b')[x] + multiset{l}[x];
    }
  }

  /** Two sorted arrangements of the same strings are equal: the sort result
      is determined by its contents. */
  lemma {:induction false} SortedUnique(a: seq<string>, b: seq<string>)
    requires SortedBy(a, Id) && SortedBy(b, Id)
    requires multiset(a) == multiset(b)
    ensures a == b
    decreases |a|
  {
    assert |a| == |multiset(a)| == |multiset(b)| == |b|;
    if |a| > 0 {
      var la, lb := a[|a| - 1], b[|b| - 1];
      assert la in multiset(b) && lb in multiset(a);
      LastIsGreatest(b, la);
      LastIsGreatest(a, lb);
      StrLeAntisymmetric(la, lb);
      DropLast(a, b);
      SortedUnique(a[..|a| - 1], b[..|b| - 1]);
      assert a == a[..|a| - 1] + [la] && b == b[..|b| - 1] + [lb];
    }
  }

  /** The last element of a sorted sequence has the greatest key. */
  lemma LastIsGreatestBy<T>(a: seq<T>, key: T -> string, x: T)
    requires SortedBy(a, key) && x in a
    ensures StrLe(key(x), key(a[|a| - 1]))
  {
    var i :| 0 <= i < |a| && a[i] == x;
    if i == |a| - 1 {
      StrLeReflexive(key(x));
    }
  }

  /** Keeping some elements of a sorted sequence leaves it sorted. */
  lemma {:induction false} FilterSortedBy<T>(s: seq<T>, p: T -> bool, key: T -> string)
    requires SortedBy(s, key)
    ensures SortedBy(Filter(s, p), key)
    decreases |s|
  {
    if |s| > 0 {
      var s', x := s[..|s| - 1], s[|s| - 1];
      var r' := Filter(s', p);
      FilterSortedBy(s', p, key);
      if p(x) {
        forall i | 0 <= i < |r'| ensures StrLe(key(r'[i]), key(x)) {
          FilterMembers(s', p, r'[i]);
          var k :| 0 <= k < |s'| && s'[k] == r'[i];
          assert s[k] == s'[k];
        }
        assert Filter(s, p) == r' + [x];
      }
    }
  }
}
