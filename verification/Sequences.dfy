/** The list operations the aggregates use on their insertion-ordered
    collections: LINQ's Where/Any/FirstOrDefault and List<T>.Remove. */
module Sequences {

  /** `r` is `s` with some elements left out, the rest in their original order. */
  ghost predicate IsSubsequence<T>(r: seq<T>, s: seq<T>)
    decreases |s|
  {
    r == [] || (s != [] && ((r[0] == s[0] && IsSubsequence(r[1..], s[1..])) || IsSubsequence(r, s[1..])))
  }

  /** No element occurs twice. */
  ghost predicate Distinct<T>(s: seq<T>)
  {
    forall i, j | 0 <= i < j < |s| :: s[i] != s[j]
  }

  /** No two elements share a key (an entity list with unique ids). */
  ghost predicate KeysUnique<T, K>(s: seq<T>, key: T -> K)
  {
    forall i, j | 0 <= i < j < |s| :: key(s[i]) != key(s[j])
  }

  /** `s.Any(x => key(x) == k)`. */
  predicate HasKey<T, K(==)>(s: seq<T>, key: T -> K, k: K)
  {
    exists i | 0 <= i < |s| :: key(s[i]) == k
  }

  /** The position `s.FirstOrDefault(x => key(x) == k)` finds, or |s| when it finds nothing. */
  function IndexOfKey<T, K(==)>(s: seq<T>, key: T -> K, k: K): (i: nat)
    ensures i <= |s|
    ensures forall j | 0 <= j < i :: key(s[j]) != k
    ensures i < |s| ==> key(s[i]) == k
    ensures i < |s| <==> HasKey(s, key, k)
  {
    if s == [] then 0 else if key(s[0]) == k then 0 else 1 + IndexOfKey(s[1..], key, k)
  }

  /** `s.Where(p)`: the elements satisfying `p`, in order. */
  function Filter<T(==)>(s: seq<T>, p: T -> bool): (r: seq<T>)
    ensures |r| <= |s|
    ensures forall x | x in r :: x in s && p(x)
    ensures forall x | x in s && p(x) :: x in r
    ensures IsSubsequence(r, s)
  {
    if s == [] then []
    else if p(s[0]) then [s[0]] + Filter(s[1..], p)
    else Filter(s[1..], p)
  }

  /** Filter keeps every kept element as often as it occurs: its result is a
      sub-multiset of `s` holding all copies of each element it keeps. */
  lemma {:induction false} FilterCounts<T>(s: seq<T>, p: T -> bool)
    ensures multiset(Filter(s, p)) <= multiset(s)
    ensures forall x | x in s && p(x) :: multiset(Filter(s, p))[x] == multiset(s)[x]
    decreases |s|
  {
    if s != [] {
      FilterCounts(s[1..], p);
      assert s == [s[0]] + s[1..];
      assert multiset(s) == multiset{s[0]} + multiset(s[1..]);
      forall x | x in s && p(x) ensures multiset(Filter(s, p))[x] == multiset(s)[x] {
        if x !in s[1..] {
          assert multiset(s[1..])[x] == 0;
          assert multiset(Filter(s[1..], p))[x] == 0;
        }
      }
    }
  }

  /** The elements whose key is not `k`. */
  function WithoutKey<T(==), K(==)>(s: seq<T>, key: T -> K, k: K): seq<T>
  {
    Filter(s, x => key(x) != k)
  }

  /** One step of WithoutKey, for unfolding it on a list of known length. */
  lemma WithoutKeyCons<T, K>(x: T, s: seq<T>, key: T -> K, k: K)
    ensures WithoutKey([x] + s, key, k) == (if key(x) != k then [x] else []) + WithoutKey(s, key, k)
  {
    assert ([x] + s)[1..] == s;
  }

  /** The elements that are not in `xs`. */
  function Exclude<T(==)>(s: seq<T>, xs: seq<T>): seq<T>
  {
    Filter(s, x => x !in xs)
  }

  /** `r` is `s` without its first occurrence of `x`, which is at position `i`. */
  ghost predicate DropsFirstAt<T>(s: seq<T>, x: T, i: int, r: seq<T>)
  {
    0 <= i < |s| && s[i] == x && x !in s[..i] && r == s[..i] + s[i + 1..]
  }

  /** `List<T>.Remove(x)`: drops the first occurrence of `x`, if there is one. */
  function RemoveFirst<T(==)>(s: seq<T>, x: T): (r: seq<T>)
    ensures x !in s ==> r == s
    ensures x in s ==> |r| == |s| - 1
    ensures x in s ==> exists i :: DropsFirstAt(s, x, i, r)
    ensures IsSubsequence(r, s)
  {
    if s == [] then []
    else if s[0] == x then
      SubsequenceRefl(s[1..]);
      assert DropsFirstAt(s, x, 0, s[1..]);
      s[1..]
    else
      var t := RemoveFirst(s[1..], x);
      DropsFirstShift(s, x, t);
      [s[0]] + t
  }

  /** Passing an element other than `x` moves the dropped position by one. */
  lemma DropsFirstShift<T>(s: seq<T>, x: T, t: seq<T>)
    requires s != [] && s[0] != x
    requires x in s[1..] ==> exists i :: DropsFirstAt(s[1..], x, i, t)
    ensures x in s ==> exists i :: DropsFirstAt(s, x, i, [s[0]] + t)
  {
    if x in s {
      assert x in s[1..];
      var i :| DropsFirstAt(s[1..], x, i, t);
      assert s[..i + 1] == [s[0]] + s[1..][..i];
      assert s[i + 2..] == s[1..][i + 1..];
      assert DropsFirstAt(s, x, i + 1, [s[0]] + t);
    }
  }

  lemma {:induction false} SubsequenceRefl<T>(s: seq<T>)
    ensures IsSubsequence(s, s)
    decreases |s|
  {
    if s != [] {
      SubsequenceRefl(s[1..]);
    }
  }

  /** Every element of a subsequence is an element of the whole. */
  lemma {:induction false} SubsequenceMembers<T>(r: seq<T>, s: seq<T>)
    requires IsSubsequence(r, s)
    ensures forall x | x in r :: x in s
    decreases |s|
  {
    if r != [] {
      if r[0] == s[0] && IsSubsequence(r[1..], s[1..]) {
        SubsequenceMembers(r[1..], s[1..]);
        assert forall x | x in r :: x == r[0] || x in r[1..];
      } else {
        SubsequenceMembers(r, s[1..]);
      }
    }
  }

  /** A subsequence of a list with unique keys has unique keys. */
  lemma {:induction false} SubsequenceKeysUnique<T, K>(r: seq<T>, s: seq<T>, key: T -> K)
    requires IsSubsequence(r, s)
    requires KeysUnique(s, key)
    ensures KeysUnique(r, key)
    decreases |s|
  {
    if r != [] {
      assert KeysUnique(s[1..], key) by {
        forall i, j | 0 <= i < j < |s[1..]| ensures key(s[1..][i]) != key(s[1..][j]) {
          assert key(s[i + 1]) != key(s[j + 1]);
        }
      }
      if r[0] == s[0] && IsSubsequence(r[1..], s[1..]) {
        SubsequenceKeysUnique(r[1..], s[1..], key);
        SubsequenceMembers(r[1..], s[1..]);
        forall j | 0 < j < |r| ensures key(r[0]) != key(r[j]) {
          assert r[j] in r[1..];
          var m :| 0 <= m < |s[1..]| && s[1..][m] == r[j];
          assert key(s[0]) != key(s[m + 1]);
        }
      } else {
        SubsequenceKeysUnique(r, s[1..], key);
      }
    }
  }

  /** Unique keys imply unique elements. */
  lemma KeysUniqueDistinct<T, K>(s: seq<T>, key: T -> K)
    requires KeysUnique(s, key)
    ensures Distinct(s)
  {
    forall i, j | 0 <= i < j < |s| ensures s[i] != s[j] {
      assert key(s[i]) != key(s[j]);
    }
  }

  /** Two filters that agree on every element of `s` select the same elements. */
  lemma {:induction false} FilterCongruent<T>(s: seq<T>, p: T -> bool, q: T -> bool)
    requires forall x | x in s :: p(x) == q(x)
    ensures Filter(s, p) == Filter(s, q)
    decreases |s|
  {
    if s != [] {
      assert forall x | x in s[1..] :: x in s;
      FilterCongruent(s[1..], p, q);
    }
  }

  /** Removing, one at a time, the elements of `xs` from a duplicate-free list
      leaves exactly the elements outside `xs`. This is the step of a loop
      that calls List.Remove on every element of a precomputed list. */
  lemma {:induction false} RemoveFirstFromExclude<T>(s: seq<T>, xs: seq<T>, x: T)
    requires Distinct(s)
    requires x !in xs
    ensures RemoveFirst(Exclude(s, xs), x) == Exclude(s, xs + [x])
    decreases |s|
  {
    if s != [] {
      var t := s[1..];
      assert Distinct(t) by {
        forall i, j | 0 <= i < j < |t| ensures t[i] != t[j] {
          assert s[i + 1] != s[j + 1];
        }
      }
      assert Exclude(s, xs) == if s[0] in xs then Exclude(t, xs) else [s[0]] + Exclude(t, xs);
      assert Exclude(s, xs + [x]) == if s[0] in xs + [x] then Exclude(t, xs + [x]) else [s[0]] + Exclude(t, xs + [x]);
      if s[0] == x {
        assert x !in t by {
          forall j | 0 <= j < |t| ensures t[j] != x {
            assert s[0] != s[j + 1];
          }
        }
        FilterCongruent(t, y => y !in xs, y => y !in xs + [x]);
      } else {
        RemoveFirstFromExclude(t, xs, x);
      }
    }
  }

  /** With unique keys, removing the element FirstOrDefault found (List.Remove,
      by reference) is the same as keeping every element with a different key. */
  lemma {:induction false} RemoveFoundIsWithoutKey<T, K>(s: seq<T>, key: T -> K, k: K)
    requires KeysUnique(s, key)
    requires IndexOfKey(s, key, k) < |s|
    ensures RemoveFirst(s, s[IndexOfKey(s, key, k)]) == WithoutKey(s, key, k)
    decreases |s|
  {
    var t := s[1..];
    if key(s[0]) == k {
      assert forall x | x in t :: key(x) != k by {
        forall x | x in t ensures key(x) != k {
          var j :| 0 <= j < |t| && t[j] == x;
          assert key(s[0]) != key(s[j + 1]);
        }
      }
      FilterCongruent(t, x => key(x) != k, x => true);
      TrueFilterIdentity(t);
    } else {
      assert KeysUnique(t, key) by {
        forall i, j | 0 <= i < j < |t| ensures key(t[i]) != key(t[j]) {
          assert key(s[i + 1]) != key(s[j + 1]);
        }
      }
      assert s[0] != s[IndexOfKey(s, key, k)];
      RemoveFoundIsWithoutKey(t, key, k);
    }
  }

  /** Dropping a key no element has changes nothing. */
  lemma WithoutAbsentKey<T, K>(s: seq<T>, key: T -> K, k: K)
    requires !HasKey(s, key, k)
    ensures WithoutKey(s, key, k) == s
  {
    assert forall x | x in s :: key(x) != k;
    FilterCongruent(s, x => key(x) != k, x => true);
    TrueFilterIdentity(s);
  }

  lemma {:induction false} TrueFilterIdentity<T>(s: seq<T>)
    ensures Filter(s, x => true) == s
    decreases |s|
  {
    if s != [] {
      TrueFilterIdentity(s[1..]);
    }
  }
}
