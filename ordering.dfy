/**
 * The two sorts the table layer performs: `sorted(row_numbers, reverse=True)`
 * before deleting rows, and Python's stable `list.sort(key=...)` on text keys.
 */
module Ordering {
  import opened Text

  /** Pairwise non-increasing. */
  predicate Descending(xs: seq<nat>) {
    forall i, j :: 0 <= i < j < |xs| ==> xs[i] >= xs[j]
  }

  predicate Distinct<T(==)>(xs: seq<T>) {
    forall i, j :: 0 <= i < j < |xs| ==> xs[i] != xs[j]
  }

  /** In a sequence without repeats, every element occurs once. */
  lemma {:induction false} DistinctOnce<T>(xs: seq<T>, x: T)
    requires Distinct(xs)
    ensures multiset(xs)[x] <= 1
  {
    if xs != [] {
      assert xs == [xs[0]] + xs[1..];
      assert Distinct(xs[1..]) by {
        forall i, j | 0 <= i < j < |xs[1..]|
          ensures xs[1..][i] != xs[1..][j]
        {
          assert xs[1..][i] == xs[i + 1] && xs[1..][j] == xs[j + 1];
        }
      }
      DistinctOnce(xs[1..], x);
      if x == xs[0] {
        assert x !in xs[1..];
      }
    }
  }

  /** A rearrangement of a sequence without repeats has none either. */
  lemma DistinctPermutation<T>(xs: seq<T>, ys: seq<T>)
    requires Distinct(xs) && multiset(ys) == multiset(xs)
    ensures Distinct(ys)
  {
    forall i, j | 0 <= i < j < |ys|
      ensures ys[i] != ys[j]
    {
      if ys[i] == ys[j] {
        var x := ys[i];
        assert ys == ys[..j] + ys[j..];
        assert x in ys[..j] && x in ys[j..];
        assert multiset(ys)[x] == multiset(ys[..j])[x] + multiset(ys[j..])[x];
        DistinctOnce(xs, x);
        assert false;
      }
    }
  }

  function InsertDesc(t: seq<nat>, x: nat): (r: seq<nat>)
    requires Descending(t)
    ensures Descending(r)
    ensures multiset(r) == multiset(t) + multiset{x}
  {
    if t == [] || t[0] <= x then [x] + t
    else
      var rest := InsertDesc(t[1..], x);
      InsertDescBelowHead(t, x, rest);
      [t[0]] + rest
  }

  /** Inserting below the head keeps the head first. */
  lemma InsertDescBelowHead(t: seq<nat>, x: nat, rest: seq<nat>)
    requires Descending(t) && t != [] && t[0] > x
    requires Descending(rest) && multiset(rest) == multiset(t[1..]) + multiset{x}
    ensures Descending([t[0]] + rest)
    ensures multiset([t[0]] + rest) == multiset(t) + multiset{x}
  {
    assert t == [t[0]] + t[1..];
    forall k | 0 <= k < |rest|
      ensures rest[k] <= t[0]
    {
      assert rest[k] in multiset(rest);
    }
  }

  lemma {:induction false} InsertDescDistinct(t: seq<nat>, x: nat)
    requires Descending(t) && Distinct(t) && x !in t
    ensures Distinct(InsertDesc(t, x))
  {
    if !(t == [] || t[0] <= x) {
      assert t == [t[0]] + t[1..];
      InsertDescDistinct(t[1..], x);
      var rest := InsertDesc(t[1..], x);
      assert t[0] !in multiset(t[1..]) + multiset{x};
      assert t[0] !in rest;
      assert InsertDesc(t, x) == [t[0]] + rest;
    }
  }

  /** `sorted(xs, reverse=True)`: the same numbers, largest first. */
  function SortDesc(xs: seq<nat>): (r: seq<nat>)
    ensures Descending(r)
    ensures multiset(r) == multiset(xs)
  {
    if xs == [] then []
    else
      var init := xs[..|xs| - 1];
      assert xs == init + [xs[|xs| - 1]];
      InsertDesc(SortDesc(init), xs[|xs| - 1])
  }

  /** Sorting distinct row numbers largest-first leaves them strictly decreasing. */
  lemma {:induction false} SortDescDistinct(xs: seq<nat>)
    requires Distinct(xs)
    ensures Distinct(SortDesc(xs))
    ensures forall i, j :: 0 <= i < j < |SortDesc(xs)| ==> SortDesc(xs)[i] > SortDesc(xs)[j]
  {
    if xs != [] {
      var init := xs[..|xs| - 1];
      assert xs == init + [xs[|xs| - 1]];
      SortDescDistinct(init);
      assert xs[|xs| - 1] !in multiset(SortDesc(init));
      InsertDescDistinct(SortDesc(init), xs[|xs| - 1]);
    }
  }

  /** Adjacent elements are in non-decreasing key order. */
  predicate SortedBy<T>(s: seq<T>, key: T -> string) {
    forall i :: 0 < i < |s| ==> LexLe(key(s[i - 1]), key(s[i]))
  }

  /** Insert `x` after every element whose key is not greater than its own. */
  function InsertBy<T(==)>(t: seq<T>, x: T, key: T -> string): (r: seq<T>)
    requires SortedBy(t, key)
    ensures SortedBy(r, key)
    ensures multiset(r) == multiset(t) + multiset{x}
    ensures |r| == |t| + 1
    ensures r[|r| - 1] == x || (|t| > 0 && r[|r| - 1] == t[|t| - 1])
  {
    if t == [] then [x]
    else if LexLe(key(t[|t| - 1]), key(x)) then t + [x]
    else
      var init := t[..|t| - 1];
      var last := t[|t| - 1];
      assert t == init + [last];
      var r' := InsertBy(init, x, key);
      LexTotal(key(last), key(x));
      r' + [last]
  }

  /** `list.sort(key=key)`: a stable insertion sort on the key's text order. */
  function SortBy<T(==)>(s: seq<T>, key: T -> string): (r: seq<T>)
    ensures SortedBy(r, key)
    ensures multiset(r) == multiset(s)
    ensures |r| == |s|
  {
    if s == [] then []
    else
      assert s == s[..|s| - 1] + [s[|s| - 1]];
      InsertBy(SortBy(s[..|s| - 1], key), s[|s| - 1], key)
  }

  function Reverse<T(==)>(s: seq<T>): (r: seq<T>)
    ensures |r| == |s|
    ensures forall i :: 0 <= i < |s| ==> r[i] == s[|s| - 1 - i]
    ensures multiset(r) == multiset(s)
  {
    if s == [] then []
    else
      assert s == [s[0]] + s[1..];
      Reverse(s[1..]) + [s[0]]
  }

  /** `xs.sort(reverse=True)` on strings: the same strings, greatest first. */
  function SortStringsDesc(xs: seq<string>): (r: seq<string>)
    ensures |r| == |xs|
    ensures multiset(r) == multiset(xs)
    ensures forall i :: 0 < i < |r| ==> LexLe(r[i], r[i - 1])
  {
    var up := SortBy(xs, (x: string) => x);
    var r := Reverse(up);
    assert forall i :: 0 < i < |r| ==> LexLe(r[i], r[i - 1]) by {
      forall i | 0 < i < |r|
        ensures LexLe(r[i], r[i - 1])
      {
        var j := |up| - i;
        assert 0 < j < |up|;
        assert LexLe(up[j - 1], up[j]);
      }
    }
    r
  }
}
