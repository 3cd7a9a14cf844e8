/** Generic sequence helpers: filtering, de-duplication, reversal. */
module Seqs {

  /** No element occurs twice. */
  ghost predicate NoDups<T>(s: seq<T>) {
    forall i, j :: 0 <= i < j < |s| ==> s[i] != s[j]
  }

  lemma {:induction false} NoDupsCons<T>(x: T, s: seq<T>)
    ensures NoDups([x] + s) <==> x !in s && NoDups(s)
  {
    var t := [x] + s;
    if x !in s && NoDups(s) {
      forall i, j | 0 <= i < j < |t| ensures t[i] != t[j] {
        if i == 0 { assert t[j] == s[j - 1]; } else { assert t[i] == s[i - 1] && t[j] == s[j - 1]; }
      }
    }
    if NoDups(t) {
      forall i, j | 0 <= i < j < |s| ensures s[i] != s[j] {
        assert s[i] == t[i + 1] && s[j] == t[j + 1];
      }
      forall k | 0 <= k < |s| ensures s[k] != x {
        assert t[k + 1] == s[k] && t[0] == x;
      }
    }
  }

  lemma {:induction false} NoDupsSnoc<T>(s: seq<T>, x: T)
    ensures NoDups(s + [x]) <==> x !in s && NoDups(s)
  {
    var t := s + [x];
    assert forall i :: 0 <= i < |s| ==> t[i] == s[i];
    if x in s {
      var k :| 0 <= k < |s| && s[k] == x;
      assert t[k] == t[|s|];
    }
  }

  /** The elements of xs that satisfy keep, in their original order (a boolean-mask selection). */
  function Filter<T(!new)>(xs: seq<T>, keep: T -> bool): (r: seq<T>)
    ensures |r| <= |xs|
    ensures forall x :: x in r <==> x in xs && keep(x)
    ensures NoDups(xs) ==> NoDups(r)
  {
    if xs == [] then []
    else
      var rest := Filter(xs[1..], keep);
      assert xs == [xs[0]] + xs[1..];
      NoDupsCons(xs[0], xs[1..]);
      if keep(xs[0]) then
        NoDupsCons(xs[0], rest);
        [xs[0]] + rest
      else rest
  }

  /** Filter distributes over concatenation. */
  lemma {:induction false} FilterConcat<T(!new)>(a: seq<T>, b: seq<T>, keep: T -> bool)
    ensures Filter(a + b, keep) == Filter(a, keep) + Filter(b, keep)
  {
    if a == [] {
      assert a + b == b;
    } else {
      assert (a + b)[1..] == a[1..] + b;
      FilterConcat(a[1..], b, keep);
    }
  }

  /** Filter keeps a sequence whose every element passes. */
  lemma {:induction false} FilterKeepsAll<T(!new)>(xs: seq<T>, keep: T -> bool)
    requires forall x :: x in xs ==> keep(x)
    ensures Filter(xs, keep) == xs
  {
    if xs != [] {
      assert forall x :: x in xs[1..] ==> x in xs;
      FilterKeepsAll(xs[1..], keep);
      assert xs == [xs[0]] + xs[1..];
    }
  }

  /** Dropping an element that fails keep makes the result strictly shorter. */
  lemma {:induction false} FilterDrops<T(!new)>(xs: seq<T>, keep: T -> bool, x: T)
    requires x in xs && !keep(x)
    ensures |Filter(xs, keep)| < |xs|
  {
    if xs[0] != x {
      assert xs == [xs[0]] + xs[1..];
      FilterDrops(xs[1..], keep, x);
    }
  }

  /** A duplicate-free sequence shorter than n misses some number below n. */
  lemma {:induction false} SomeFree(s: seq<int>, n: nat)
    requires NoDups(s) && |s| < n
    ensures exists j :: 0 <= j < n && j !in s
    decreases n
  {
    if n - 1 in s {
      var rest := Filter(s, (x: int) => x != n - 1);
      FilterDrops(s, (x: int) => x != n - 1, n - 1);
      SomeFree(rest, n - 1);
      var j :| 0 <= j < n - 1 && j !in rest;
      assert j !in s;
    }
  }

  /** The distinct elements of xs in order of first appearance (what `unique()` yields). */
  function Distinct<T(==,!new)>(xs: seq<T>): (r: seq<T>)
    ensures NoDups(r)
    ensures forall x :: x in r <==> x in xs
    ensures |r| <= |xs|
  {
    if xs == [] then []
    else
      var d := Distinct(xs[..|xs| - 1]);
      var last := xs[|xs| - 1];
      assert xs == xs[..|xs| - 1] + [last];
      NoDupsSnoc(d, last);
      if last in d then d else d + [last]
  }

  function Reverse<T>(s: seq<T>): (r: seq<T>)
    ensures |r| == |s|
    ensures forall k :: 0 <= k < |s| ==> r[k] == s[|s| - 1 - k]
  {
    if s == [] then [] else Reverse(s[1..]) + [s[0]]
  }

  /** Reversal keeps the same elements and keeps them distinct. */
  lemma ReverseKeepsElements<T>(s: seq<T>)
    ensures forall x :: x in Reverse(s) <==> x in s
    ensures NoDups(s) ==> NoDups(Reverse(s))
  {
    var r := Reverse(s);
    forall x | x in s ensures x in r {
      var a :| 0 <= a < |s| && s[a] == x;
      assert r[|s| - 1 - a] == x;
    }
    if NoDups(s) {
      forall a, b | 0 <= a < b < |r| ensures r[a] != r[b] {
        assert r[a] == s[|s| - 1 - a] && r[b] == s[|s| - 1 - b];
      }
    }
  }
}
