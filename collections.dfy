/**
 * Sequence operations that pandas performs on a frame's rows: boolean-mask
 * selection, `pd.unique` / `drop_duplicates()` (first occurrence kept) and
 * `drop_duplicates(key, keep="last")`.
 */
module Collections {

  /** `r` can be obtained from `s` by deleting elements: it keeps `s`'s order. */
  ghost predicate IsSubsequence<T>(r: seq<T>, s: seq<T>)
    decreases |s|
  {
    r == [] || (s != [] && ((r[0] == s[0] && IsSubsequence(r[1..], s[1..])) || IsSubsequence(r, s[1..])))
  }

  /** Boolean-mask selection `df.loc[mask]`: the elements for which `keep` holds, in their original order. */
  function Where<T(!new)>(s: seq<T>, keep: T -> bool): (r: seq<T>)
    ensures forall x :: x in r <==> x in s && keep(x)
    ensures IsSubsequence(r, s)
  {
    if s == [] then []
    else
      assert s == [s[0]] + s[1..];
      if keep(s[0]) then [s[0]] + Where(s[1..], keep) else Where(s[1..], keep)
  }

  /** Selection keeps every copy of a kept element and no copy of a dropped one. */
  lemma {:induction false} WhereKeepsEveryCopy<T(!new)>(s: seq<T>, keep: T -> bool)
    ensures forall x :: multiset(Where(s, keep))[x] == if keep(x) then multiset(s)[x] else 0
  {
    if s != [] {
      WhereKeepsEveryCopy(s[1..], keep);
      assert s == [s[0]] + s[1..];
      assert multiset(s) == multiset{s[0]} + multiset(s[1..]);
    }
  }

  lemma {:induction false} WhereAppend<T(!new)>(a: seq<T>, b: seq<T>, keep: T -> bool)
    ensures Where(a + b, keep) == Where(a, keep) + Where(b, keep)
  {
    if a == [] {
      assert a + b == b;
    } else {
      assert (a + b)[1..] == a[1..] + b;
      WhereAppend(a[1..], b, keep);
    }
  }

  /** Index of the first occurrence of `x` in `s`. */
  function FirstIndex<T(==)>(s: seq<T>, x: T): (i: nat)
    requires x in s
    ensures i < |s| && s[i] == x
    ensures forall j :: 0 <= j < i ==> s[j] != x
  {
    if s[0] == x then 0 else 1 + FirstIndex(s[1..], x)
  }

  lemma {:induction false} FirstIndexInPrefix<T>(s: seq<T>, y: T, x: T)
    requires x in s
    ensures FirstIndex(s + [y], x) == FirstIndex(s, x)
  {
    if s[0] != x {
      assert (s + [y])[1..] == s[1..] + [y];
      FirstIndexInPrefix(s[1..], y, x);
    }
  }

  /** `pd.unique` and `drop_duplicates()`: each distinct element once, first occurrences kept. */
  function Distinct<T(==,!new)>(s: seq<T>): (r: seq<T>)
    ensures forall x :: x in r <==> x in s
    ensures forall i, j :: 0 <= i < j < |r| ==> r[i] != r[j]
    ensures |r| <= |s|
  {
    if s == [] then []
    else
      var u := Distinct(s[..|s| - 1]);
      assert s == s[..|s| - 1] + [s[|s| - 1]];
      if s[|s| - 1] in u then u else u + [s[|s| - 1]]
  }

  /** The distinct elements come out in the order of their first appearance. */
  lemma {:induction false} DistinctKeepsFirstAppearanceOrder<T(!new)>(s: seq<T>)
    ensures forall i, j :: 0 <= i < j < |Distinct(s)| ==> FirstIndex(s, Distinct(s)[i]) < FirstIndex(s, Distinct(s)[j])
  {
    if s != [] {
      var p, y := s[..|s| - 1], s[|s| - 1];
      assert s == p + [y];
      DistinctKeepsFirstAppearanceOrder(p);
      var u := Distinct(p);
      var d := Distinct(s);
      assert d == if y in u then u else u + [y];
      forall x | x in p
        ensures FirstIndex(s, x) == FirstIndex(p, x)
      {
        FirstIndexInPrefix(p, y, x);
      }
      forall i, j | 0 <= i < j < |d|
        ensures FirstIndex(s, d[i]) < FirstIndex(s, d[j])
      {
        assert d[i] == u[i] && d[i] in p;
        if j < |u| {
          assert d[j] == u[j] && d[j] in p;
        } else {
          assert d[j] == y && y !in p;
          assert FirstIndex(s, y) == |s| - 1;
        }
      }
    }
  }

  /** `drop_duplicates(key, keep="last")`: of each group of equal keys only the last element stays, in order. */
  function KeepLast<T, K(==)>(s: seq<T>, key: T -> K): (r: seq<T>)
    ensures IsSubsequence(r, s)
    ensures forall i, j :: 0 <= i < j < |r| ==> key(r[i]) != key(r[j])
  {
    if s == [] then []
    else
      var rest := KeepLast(s[1..], key);
      if exists j :: 1 <= j < |s| && key(s[j]) == key(s[0]) then rest
      else
        assert forall x :: x in rest ==> key(x) != key(s[0]) by {
          SubsequenceMembers(rest, s[1..]);
          forall x | x in rest ensures key(x) != key(s[0]) {
            var j :| 0 <= j < |s[1..]| && s[1..][j] == x;
            assert s[j + 1] == x;
          }
        }
        [s[0]] + rest
  }

  lemma {:induction false} SubsequenceMembers<T>(r: seq<T>, s: seq<T>)
    requires IsSubsequence(r, s)
    ensures forall x :: x in r ==> x in s
    decreases |s|
  {
    if r != [] {
      if r[0] == s[0] && IsSubsequence(r[1..], s[1..]) {
        SubsequenceMembers(r[1..], s[1..]);
        assert forall x :: x in r ==> x == r[0] || x in r[1..];
      } else {
        SubsequenceMembers(r, s[1..]);
      }
    }
  }

  lemma {:induction false} SubsequenceTransitive<T>(a: seq<T>, b: seq<T>, c: seq<T>)
    requires IsSubsequence(a, b) && IsSubsequence(b, c)
    ensures IsSubsequence(a, c)
    decreases |c|
  {
    if a != [] {
      if b[0] == c[0] && IsSubsequence(b[1..], c[1..]) {
        if a[0] == b[0] && IsSubsequence(a[1..], b[1..]) {
          SubsequenceTransitive(a[1..], b[1..], c[1..]);
        } else {
          SubsequenceTransitive(a, b[1..], c[1..]);
        }
      } else {
        SubsequenceTransitive(a, b, c[1..]);
      }
    }
  }

  /** Two selections in a row are one selection by both conditions. */
  lemma {:induction false} WhereWhere<T(!new)>(s: seq<T>, p: T -> bool, q: T -> bool, both: T -> bool)
    requires forall x :: both(x) == (p(x) && q(x))
    ensures Where(Where(s, p), q) == Where(s, both)
  {
    if s != [] {
      WhereWhere(s[1..], p, q, both);
      if p(s[0]) {
        assert ([s[0]] + Where(s[1..], p))[1..] == Where(s[1..], p);
      }
    }
  }

  /** The first selected element is the first element of `s` that is kept. */
  lemma {:induction false} WhereFirst<T(!new)>(s: seq<T>, keep: T -> bool)
    requires Where(s, keep) != []
    ensures exists i :: 0 <= i < |s| && s[i] == Where(s, keep)[0] && keep(s[i]) && forall j :: 0 <= j < i ==> !keep(s[j])
  {
    if !keep(s[0]) {
      WhereFirst(s[1..], keep);
      var i :| 0 <= i < |s[1..]| && s[1..][i] == Where(s[1..], keep)[0] && keep(s[1..][i])
        && forall j :: 0 <= j < i ==> !keep(s[1..][j]);
      assert s[i + 1] == Where(s, keep)[0];
      assert forall j :: 0 <= j < i + 1 ==> !keep(s[j]) by {
        forall j | 0 <= j < i + 1 ensures !keep(s[j]) {
          if j > 0 { assert s[j] == s[1..][j - 1]; }
        }
      }
    }
  }

  /** No element of `s` after index `i` is kept and shares `s[i]`'s key. */
  ghost predicate IsLastKeptOfKey<T, K>(s: seq<T>, keep: T -> bool, key: T -> K, i: int)
    requires 0 <= i < |s|
  {
    forall j :: i < j < |s| && keep(s[j]) ==> key(s[j]) != key(s[i])
  }

  /**
   * Selecting, then keeping the last element per key, leaves exactly the kept
   * elements that no later kept element shares a key with.
   */
  lemma {:induction false} KeepLastOfWhere<T(!new), K>(s: seq<T>, keep: T -> bool, key: T -> K)
    ensures forall x :: x in KeepLast(Where(s, keep), key) ==>
      exists i :: 0 <= i < |s| && s[i] == x && keep(s[i]) && IsLastKeptOfKey(s, keep, key, i)
    ensures forall i :: 0 <= i < |s| && keep(s[i]) && IsLastKeptOfKey(s, keep, key, i) ==>
      s[i] in KeepLast(Where(s, keep), key)
  {
    if s != [] {
      var a, t := s[0], s[1..];
      KeepLastOfWhere(t, keep, key);
      var w := Where(t, keep);
      var k := KeepLast(w, key);
      assert forall j :: 0 < j < |s| ==> s[j] == t[j - 1];
      // Elements of `t` found again in `s`, one index later.
      forall x | x in k
        ensures exists i :: 0 <= i < |s| && s[i] == x && keep(s[i]) && IsLastKeptOfKey(s, keep, key, i)
      {
        var i :| 0 <= i < |t| && t[i] == x && keep(t[i]) && IsLastKeptOfKey(t, keep, key, i);
        assert IsLastKeptOfKey(s, keep, key, i + 1);
      }
      forall i | 1 <= i < |s| && keep(s[i]) && IsLastKeptOfKey(s, keep, key, i)
        ensures s[i] in k
      {
        assert IsLastKeptOfKey(t, keep, key, i - 1);
      }
      if keep(a) {
        var sw := [a] + w;
        assert Where(s, keep) == sw;
        assert sw[1..] == w && sw[0] == a;
        var later := exists j :: 1 <= j < |sw| && key(sw[j]) == key(sw[0]);
        assert later <==> !IsLastKeptOfKey(s, keep, key, 0) by {
          if later {
            var j :| 1 <= j < |sw| && key(sw[j]) == key(sw[0]);
            assert w[j - 1] in w;
            var m :| 0 <= m < |t| && t[m] == w[j - 1];
            assert s[m + 1] == w[j - 1] && keep(s[m + 1]);
          }
          if !IsLastKeptOfKey(s, keep, key, 0) {
            var m :| 0 < m < |s| && keep(s[m]) && key(s[m]) == key(a);
            assert s[m] in w;
            var j :| 0 <= j < |w| && w[j] == s[m];
            assert sw[j + 1] == s[m];
          }
        }
      }
    }
  }
}
