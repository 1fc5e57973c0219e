/** Python's `list.sort(key=...)`: a stable sort by an integer key. It is
    specified here by insertion, with the three facts that characterise a
    stable sort proved about it: the result is ordered by key, it is a
    permutation of the input, and elements with equal keys keep their order. */
module Sorting {

  ghost predicate SortedBy<T>(s: seq<T>, key: T -> int) {
    forall i, j :: 0 <= i < j < |s| ==> key(s[i]) <= key(s[j])
  }

  /** `x` placed before the first element whose key is not smaller. */
  function Insert<T>(x: T, s: seq<T>, key: T -> int): (r: seq<T>)
    ensures |r| == |s| + 1
    ensures multiset(r) == multiset(s) + multiset{x}
  {
    if s == [] then [x]
    else if key(x) <= key(s[0]) then [x] + s
    else
      assert s == [s[0]] + s[1..];
      [s[0]] + Insert(x, s[1..], key)
  }

  lemma {:induction false} InsertSorted<T>(x: T, s: seq<T>, key: T -> int)
    requires SortedBy(s, key)
    ensures SortedBy(Insert(x, s, key), key)
  {
    if s != [] && key(x) > key(s[0]) {
      var tail := s[1..];
      assert SortedBy(tail, key) by {
        forall i, j | 0 <= i < j < |tail|
          ensures key(tail[i]) <= key(tail[j])
        {
          assert tail[i] == s[i + 1] && tail[j] == s[j + 1];
        }
      }
      InsertSorted(x, tail, key);
      var rest := Insert(x, tail, key);
      // The head of `rest` is `x` or `tail[0]`, neither below `s[0]`.
      assert key(s[0]) <= key(rest[0]) by {
        if tail != [] {
          assert tail[0] == s[1];
        }
      }
      var r := [s[0]] + rest;
      assert r == Insert(x, s, key);
      forall i, j | 0 <= i < j < |r|
        ensures key(r[i]) <= key(r[j])
      {
        assert r[j] == rest[j - 1];
        if i > 0 {
          assert r[i] == rest[i - 1];
        } else if j > 1 {
          assert key(rest[0]) <= key(rest[j - 1]);
        }
      }
    }
  }

  /** The stable sort of `s` by `key`. */
  function StableSort<T>(s: seq<T>, key: T -> int): (r: seq<T>)
    ensures |r| == |s|
    ensures multiset(r) == multiset(s)
    ensures SortedBy(r, key)
  {
    if s == [] then []
    else
      assert s == [s[0]] + s[1..];
      var rest := StableSort(s[1..], key);
      InsertSorted(s[0], rest, key);
      Insert(s[0], rest, key)
  }

  /** The elements of `s` whose key is `k`, in their order in `s`. */
  function WithKey<T>(s: seq<T>, key: T -> int, k: int): seq<T> {
    if s == [] then [] else (if key(s[0]) == k then [s[0]] else []) + WithKey(s[1..], key, k)
  }

  lemma {:induction false} WithKeyAppend<T>(a: seq<T>, b: seq<T>, key: T -> int, k: int)
    ensures WithKey(a + b, key, k) == WithKey(a, key, k) + WithKey(b, key, k)
  {
    if a == [] {
      assert a + b == b;
    } else {
      var h := if key(a[0]) == k then [a[0]] else [];
      assert (a + b)[0] == a[0];
      assert (a + b)[1..] == a[1..] + b;
      assert WithKey(a + b, key, k) == h + WithKey(a[1..] + b, key, k);
      WithKeyAppend(a[1..], b, key, k);
      var x, y := WithKey(a[1..], key, k), WithKey(b, key, k);
      assert h + (x + y) == (h + x) + y;
    }
  }

  lemma WithKeySingle<T>(x: T, key: T -> int, k: int)
    ensures WithKey([x], key, k) == if key(x) == k then [x] else []
  {
    assert [x][1..] == [];
  }

  lemma SwapFront<T>(a: seq<T>, b: seq<T>, c: seq<T>)
    requires a == [] || b == []
    ensures b + (a + c) == a + (b + c)
  {
    if a == [] {
      assert a + c == c && a + (b + c) == b + c;
    } else {
      assert b + (a + c) == a + c && b + c == c;
    }
  }

  lemma {:induction false} InsertWithKey<T>(x: T, s: seq<T>, key: T -> int, k: int)
    ensures WithKey(Insert(x, s, key), key, k) == WithKey([x] + s, key, k)
  {
    if s != [] && key(x) > key(s[0]) {
      var tail := s[1..];
      var rest := Insert(x, tail, key);
      InsertWithKey(x, tail, key, k);
      assert Insert(x, s, key) == [s[0]] + rest;
      assert s == [s[0]] + tail;
      WithKeyAppend([s[0]], rest, key, k);
      WithKeyAppend([x], tail, key, k);
      WithKeyAppend([s[0]], tail, key, k);
      WithKeyAppend([x], s, key, k);
      var wx, ws, wt := WithKey([x], key, k), WithKey([s[0]], key, k), WithKey(tail, key, k);
      // `x` and `s[0]` have different keys, so at most one of them is kept.
      WithKeySingle(x, key, k);
      WithKeySingle(s[0], key, k);
      SwapFront(wx, ws, wt);
      assert WithKey(Insert(x, s, key), key, k) == ws + (wx + wt);
      assert WithKey([x] + s, key, k) == wx + (ws + wt);
    }
  }

  /** Stability: among elements with equal keys the input order survives. */
  lemma {:induction false} StableSortIsStable<T>(s: seq<T>, key: T -> int, k: int)
    ensures WithKey(StableSort(s, key), key, k) == WithKey(s, key, k)
  {
    if s != [] {
      var sorted := StableSort(s[1..], key);
      StableSortIsStable(s[1..], key, k);
      InsertWithKey(s[0], sorted, key, k);
      WithKeyAppend([s[0]], sorted, key, k);
      WithKeyAppend([s[0]], s[1..], key, k);
      assert s == [s[0]] + s[1..];
      assert StableSort(s, key) == Insert(s[0], sorted, key);
      assert WithKey(StableSort(s, key), key, k) == WithKey([s[0]], key, k) + WithKey(sorted, key, k);
    }
  }

  /** A sequence without repeated elements holds each value at most once. */
  lemma {:induction false} DistinctCount<T>(t: seq<T>, x: T)
    requires forall i, j :: 0 <= i < j < |t| ==> t[i] != t[j]
    ensures multiset(t)[x] <= 1
  {
    if t != [] {
      var n := |t| - 1;
      assert t == t[..n] + [t[n]];
      DistinctCount(t[..n], x);
      if x == t[n] {
        assert forall i :: 0 <= i < n ==> t[..n][i] != x;
        assert x !in multiset(t[..n]);
      }
    }
  }

  /** A value held at two positions is counted twice. */
  lemma RepeatCount<T>(s: seq<T>, i: nat, j: nat)
    requires i < j < |s| && s[i] == s[j]
    ensures multiset(s)[s[i]] >= 2
  {
    assert s == s[..j] + [s[j]] + s[j + 1..];
    assert s[..j][i] == s[i];
  }

  /** A permutation of a sequence without repeated elements has none either. */
  lemma PermutationDistinct<T>(s: seq<T>, t: seq<T>)
    requires multiset(s) == multiset(t)
    requires forall i, j :: 0 <= i < j < |t| ==> t[i] != t[j]
    ensures forall i, j :: 0 <= i < j < |s| ==> s[i] != s[j]
  {
    forall i, j | 0 <= i < j < |s|
      ensures s[i] != s[j]
    {
      if s[i] == s[j] {
        RepeatCount(s, i, j);
        DistinctCount(t, s[i]);
      }
    }
  }

  function Map<A, B>(f: A -> B, s: seq<A>): (r: seq<B>)
    ensures |r| == |s| && forall i :: 0 <= i < |s| ==> r[i] == f(s[i])
  {
    seq(|s|, i requires 0 <= i < |s| => f(s[i]))
  }

  lemma MapCons<A, B>(f: A -> B, x: A, s: seq<A>)
    ensures Map(f, [x] + s) == [f(x)] + Map(f, s)
  {
  }

  lemma {:induction false} InsertMap<A, B>(x: A, s: seq<A>, f: A -> B, ka: A -> int, kb: B -> int)
    requires forall y :: ka(y) == kb(f(y))
    ensures Map(f, Insert(x, s, ka)) == Insert(f(x), Map(f, s), kb)
  {
    var fs := Map(f, s);
    if s == [] {
      assert Map(f, [x]) == [f(x)];
    } else if ka(x) <= ka(s[0]) {
      MapCons(f, x, s);
    } else {
      InsertMap(x, s[1..], f, ka, kb);
      assert fs[1..] == Map(f, s[1..]);
      MapCons(f, s[0], Insert(x, s[1..], ka));
    }
  }

  /** Sorting commutes with a map that preserves keys: sorting rows by depth
      and then looking at them is the same as sorting what one sees. */
  lemma {:induction false} StableSortMap<A, B>(s: seq<A>, f: A -> B, ka: A -> int, kb: B -> int)
    requires forall y :: ka(y) == kb(f(y))
    ensures Map(f, StableSort(s, ka)) == StableSort(Map(f, s), kb)
  {
    if s != [] {
      var fs := Map(f, s);
      var sorted := StableSort(s[1..], ka);
      calc {
        Map(f, StableSort(s, ka));
        Map(f, Insert(s[0], sorted, ka));
        { InsertMap(s[0], sorted, f, ka, kb); }
        Insert(f(s[0]), Map(f, sorted), kb);
        { StableSortMap(s[1..], f, ka, kb); }
        Insert(f(s[0]), StableSort(Map(f, s[1..]), kb), kb);
        { assert fs[0] == f(s[0]) && fs[1..] == Map(f, s[1..]); }
        StableSort(fs, kb);
      }
    }
  }
}
