/**
 * Ordering of query results. A table is a map from id to row; a listing reads
 * the rows in id order and then sorts them by a timestamp key, newest first,
 * as `orderBy: { <key>: "desc" }` does.
 */
module Sorting {

  /** `xs` is ordered by `key`, largest first. */
  ghost predicate SortedDesc<T>(xs: seq<T>, key: T -> int) {
    forall i, j :: 0 <= i < j < |xs| ==> key(xs[i]) >= key(xs[j])
  }

  /** No element occurs twice in `xs`. */
  ghost predicate NoDuplicates<T>(xs: seq<T>) {
    forall i, j :: 0 <= i < j < |xs| ==> xs[i] != xs[j]
  }

  /** `x` placed into the descending sequence `xs` before the first element whose key is not larger. */
  function InsertDesc<T>(x: T, xs: seq<T>, key: T -> int): (r: seq<T>)
    requires SortedDesc(xs, key)
    ensures SortedDesc(r, key)
    ensures multiset(r) == multiset(xs) + multiset{x}
  {
    if |xs| == 0 then
      [x]
    else if key(x) >= key(xs[0]) then
      [x] + xs
    else
      var rest := InsertDesc(x, xs[1..], key);
      InsertBelowHead(x, xs, rest, key);
      assert xs == [xs[0]] + xs[1..];
      [xs[0]] + rest
  }

  /** The head of a descending sequence still heads it after a smaller element is inserted behind it. */
  lemma InsertBelowHead<T>(x: T, xs: seq<T>, rest: seq<T>, key: T -> int)
    requires |xs| > 0 && SortedDesc(xs, key) && key(x) < key(xs[0])
    requires SortedDesc(rest, key) && multiset(rest) == multiset(xs[1..]) + multiset{x}
    ensures SortedDesc([xs[0]] + rest, key)
  {
    forall k | 0 <= k < |rest| ensures key(xs[0]) >= key(rest[k]) {
      assert rest[k] in multiset(rest);
      if rest[k] != x {
        assert rest[k] in multiset(xs[1..]);
        var j :| 0 <= j < |xs[1..]| && xs[1..][j] == rest[k];
        assert xs[j + 1] == rest[k];
      }
    }
  }

  /** Insertion sort by `key`, largest first. */
  function SortDesc<T>(xs: seq<T>, key: T -> int): (r: seq<T>)
    ensures SortedDesc(r, key)
    ensures multiset(r) == multiset(xs)
  {
    if |xs| == 0 then
      []
    else
      assert xs == [xs[0]] + xs[1..];
      InsertDesc(xs[0], SortDesc(xs[1..], key), key)
  }

  /** The keys of `m` in `[lo, hi)`, ascending. */
  function KeysBetween<T>(m: map<int, T>, lo: int, hi: int): (ks: seq<int>)
    ensures forall i :: 0 <= i < |ks| ==> lo <= ks[i] < hi && ks[i] in m
    ensures forall i, j :: 0 <= i < j < |ks| ==> ks[i] < ks[j]
    decreases hi - lo
  {
    if lo >= hi then
      []
    else
      var rest := KeysBetween(m, lo + 1, hi);
      if lo in m then [lo] + rest else rest
  }

  /** No key in range is missed. */
  lemma {:induction false} KeysBetweenComplete<T>(m: map<int, T>, lo: int, hi: int, k: int)
    requires lo <= k < hi && k in m
    ensures k in KeysBetween(m, lo, hi)
    decreases hi - lo
  {
    if lo < k {
      KeysBetweenComplete(m, lo + 1, hi, k);
    }
  }

  /** The rows of table `m` whose ids lie in `[lo, hi)`, in id order. */
  function Rows<T>(m: map<int, T>, id: T -> int, lo: int, hi: int): (r: seq<T>)
    requires forall k :: k in m ==> id(m[k]) == k
    ensures forall i :: 0 <= i < |r| ==> lo <= id(r[i]) < hi && id(r[i]) in m && m[id(r[i])] == r[i]
    ensures forall k :: lo <= k < hi && k in m ==> m[k] in r
    ensures forall i, j :: 0 <= i < j < |r| ==> id(r[i]) < id(r[j])
  {
    var ks := KeysBetween(m, lo, hi);
    var r := seq(|ks|, i requires 0 <= i < |ks| => m[ks[i]]);
    forall k | lo <= k < hi && k in m ensures m[k] in r {
      KeysBetweenComplete(m, lo, hi, k);
      var i :| 0 <= i < |ks| && ks[i] == k;
      assert r[i] == m[k];
    }
    r
  }

  /** A sequence without repeats counts each of its elements once. */
  lemma {:induction false} NoDuplicatesCount<T>(xs: seq<T>)
    requires NoDuplicates(xs)
    ensures forall x :: multiset(xs)[x] <= 1
  {
    if |xs| > 0 {
      assert xs == [xs[0]] + xs[1..];
      assert NoDuplicates(xs[1..]) by {
        forall i, j | 0 <= i < j < |xs[1..]| ensures xs[1..][i] != xs[1..][j] {
          assert xs[1..][i] == xs[i + 1] && xs[1..][j] == xs[j + 1];
        }
      }
      NoDuplicatesCount(xs[1..]);
      assert xs[0] !in xs[1..];
    }
  }

  /** An element at two positions is counted at least twice. */
  lemma RepeatCount<T>(xs: seq<T>, i: int, j: int)
    requires 0 <= i < j < |xs| && xs[i] == xs[j]
    ensures multiset(xs)[xs[i]] >= 2
  {
    assert xs == xs[..j] + xs[j..];
    assert xs[i] in xs[..j];
    assert xs[j] in xs[j..];
  }

  /** Having no repeats is a property of the multiset, so a permutation keeps it. */
  lemma PermutationNoDuplicates<T>(xs: seq<T>, ys: seq<T>)
    requires multiset(xs) == multiset(ys) && NoDuplicates(xs)
    ensures NoDuplicates(ys)
  {
    NoDuplicatesCount(xs);
    forall i, j | 0 <= i < j < |ys| ensures ys[i] != ys[j] {
      if ys[i] == ys[j] {
        RepeatCount(ys, i, j);
        assert false;
      }
    }
  }

  /** A permutation holds every element of the original. */
  lemma PermutationHas<T>(xs: seq<T>, ys: seq<T>, x: T)
    requires multiset(xs) == multiset(ys) && x in xs
    ensures x in ys
  {
    assert x in multiset(xs);
  }

  /** Rows read in strictly increasing id order never repeat. */
  lemma IncreasingIdsNoDuplicates<T>(xs: seq<T>, id: T -> int)
    requires forall i, j :: 0 <= i < j < |xs| ==> id(xs[i]) < id(xs[j])
    ensures NoDuplicates(xs)
  {
  }

  /** A table listed newest first: every row exactly once, sorted by `key`. */
  function ListDesc<T>(m: map<int, T>, id: T -> int, lo: int, hi: int, key: T -> int): (r: seq<T>)
    requires forall k :: k in m ==> id(m[k]) == k && lo <= k < hi
    ensures SortedDesc(r, key)
    ensures NoDuplicates(r)
    ensures forall i :: 0 <= i < |r| ==> id(r[i]) in m && m[id(r[i])] == r[i]
    ensures forall k :: k in m ==> m[k] in r
  {
    var rows := Rows(m, id, lo, hi);
    IncreasingIdsNoDuplicates(rows, id);
    var r := SortDesc(rows, key);
    PermutationNoDuplicates(rows, r);
    forall i | 0 <= i < |r| ensures id(r[i]) in m && m[id(r[i])] == r[i] {
      PermutationHas(r, rows, r[i]);
      var j :| 0 <= j < |rows| && rows[j] == r[i];
    }
    forall k | k in m ensures m[k] in r {
      PermutationHas(rows, r, m[k]);
    }
    r
  }
}
