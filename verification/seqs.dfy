/**
 Sequence operations shared by the coverage filter, the ranking and the row
 normalisation: filtering, mapping, first-occurrence deduplication (the key
 order of a Python dict; for a dataframe `unique()`, whose order is
 unspecified, only its membership is relied on) and the facts about them the
 other modules rely on.
 */
module Seqs {

  /** A value that may be missing (a null cell of a table). */
  datatype Option<T> = None | Some(value: T)

  /** No element occurs twice. */
  predicate NoDuplicates<T(==)>(s: seq<T>) {
    forall i, j :: 0 <= i < j < |s| ==> s[i] != s[j]
  }

  /** `a` is obtained from `b` by deleting elements: it keeps their relative order. */
  predicate SubsequenceOf<T(==)>(a: seq<T>, b: seq<T>) {
    if |a| == 0 then true
    else if |b| == 0 then false
    else if a[0] == b[0] then SubsequenceOf(a[1..], b[1..])
    else SubsequenceOf(a, b[1..])
  }

  /** The elements of `s` that satisfy `p`, in their original order. */
  function Filter<T(!new)>(s: seq<T>, p: T -> bool): (r: seq<T>)
    ensures |r| <= |s|
    ensures forall x :: x in r <==> x in s && p(x)
    ensures multiset(r) <= multiset(s)
  {
    if |s| == 0 then []
    else
      assert s == [s[0]] + s[1..];
      if p(s[0]) then [s[0]] + Filter(s[1..], p)
      else Filter(s[1..], p)
  }

  /**
   A filter keeps every occurrence of a kept element and drops every other
   element, without reordering: together these determine its result.
   */
  lemma {:induction false} FilterKeepsEveryOccurrence<T(!new)>(s: seq<T>, p: T -> bool)
    ensures forall x :: multiset(Filter(s, p))[x] == if p(x) then multiset(s)[x] else 0
    ensures SubsequenceOf(Filter(s, p), s)
  {
    if |s| > 0 {
      assert s == [s[0]] + s[1..];
      var rest := Filter(s[1..], p);
      FilterKeepsEveryOccurrence(s[1..], p);
      if p(s[0]) {
        assert Filter(s, p) == [s[0]] + rest;
        assert ([s[0]] + rest)[1..] == rest;
      } else {
        assert Filter(s, p) == rest;
        assert |rest| > 0 ==> rest[0] in rest && rest[0] != s[0];
      }
    }
  }

  /** Filtering by `p` and then by `q` is filtering once by their conjunction. */
  lemma {:induction false} FilterFilter<T(!new)>(s: seq<T>, p: T -> bool, q: T -> bool, pq: T -> bool)
    requires forall x :: x in s ==> (pq(x) <==> p(x) && q(x))
    ensures Filter(Filter(s, p), q) == Filter(s, pq)
  {
    if |s| > 0 {
      FilterFilter(s[1..], p, q, pq);
    }
  }

  /** `f` applied to every element, in order. */
  function Map<A, B>(s: seq<A>, f: A -> B): (r: seq<B>)
    ensures |r| == |s|
    ensures forall i :: 0 <= i < |s| ==> r[i] == f(s[i])
  {
    seq(|s|, i requires 0 <= i < |s| => f(s[i]))
  }

  /** Mapping commutes with membership: the image of an element is in the image. */
  lemma MapMember<A, B>(s: seq<A>, f: A -> B, x: A)
    requires x in s
    ensures f(x) in Map(s, f)
  {
    var i :| 0 <= i < |s| && s[i] == x;
    assert Map(s, f)[i] == f(x);
  }

  /** Position of the first occurrence of `x` in `s`, or `|s|` when it does not occur. */
  function IndexOf<T(==)>(s: seq<T>, x: T): (i: nat)
    ensures i <= |s|
    ensures i < |s| <==> x in s
    ensures i < |s| ==> s[i] == x && x !in s[..i]
  {
    if |s| == 0 then 0
    else if s[0] == x then 0
    else
      var k := IndexOf(s[1..], x);
      assert k < |s| - 1 ==> s[..k + 1] == [s[0]] + s[1..][..k];
      1 + k
  }

  /** The elements of `d` appear in the order of their first occurrence in `s`. */
  predicate InFirstOccurrenceOrder<T(==)>(d: seq<T>, s: seq<T>) {
    forall i, j :: 0 <= i < j < |d| ==> IndexOf(s, d[i]) < IndexOf(s, d[j])
  }

  /** A sequence ordered by first occurrence cannot repeat an element. */
  lemma FirstOccurrenceOrderHasNoDuplicates<T>(d: seq<T>, s: seq<T>)
    requires InFirstOccurrenceOrder(d, s)
    ensures NoDuplicates(d)
  {
  }

  /** Filtering keeps the relative order of what it keeps. */
  lemma {:induction false} FilterKeepsFirstOccurrenceOrder<T(!new)>(d: seq<T>, s: seq<T>, p: T -> bool)
    requires InFirstOccurrenceOrder(d, s)
    ensures InFirstOccurrenceOrder(Filter(d, p), s)
  {
    if |d| > 0 {
      var tail := Filter(d[1..], p);
      assert InFirstOccurrenceOrder(d[1..], s) by {
        forall i, j | 0 <= i < j < |d| - 1
          ensures IndexOf(s, d[1..][i]) < IndexOf(s, d[1..][j])
        {
          assert d[1..][i] == d[i + 1] && d[1..][j] == d[j + 1];
        }
      }
      FilterKeepsFirstOccurrenceOrder(d[1..], s, p);
      if p(d[0]) {
        var r := [d[0]] + tail;
        forall i, j | 0 <= i < j < |r|
          ensures IndexOf(s, r[i]) < IndexOf(s, r[j])
        {
          if i == 0 {
            assert r[j] in d[1..];
            var k :| 0 <= k < |d| - 1 && d[1..][k] == r[j];
            assert d[k + 1] == r[j];
          }
        }
      }
    }
  }

  /** The elements of `s` that are not in `seen`, each once, in order of first occurrence. */
  function DedupAfter<T(==,!new)>(s: seq<T>, seen: set<T>): (r: seq<T>)
    ensures forall x :: x in r <==> x in s && x !in seen
    ensures InFirstOccurrenceOrder(r, s)
  {
    if |s| == 0 then []
    else if s[0] in seen then
      var t := DedupAfter(s[1..], seen);
      assert forall y :: y in t ==> IndexOf(s, y) == 1 + IndexOf(s[1..], y);
      t
    else
      var t := DedupAfter(s[1..], seen + {s[0]});
      assert forall y :: y in t ==> IndexOf(s, y) == 1 + IndexOf(s[1..], y);
      var r := [s[0]] + t;
      assert forall j :: 0 < j < |r| ==> r[j] == t[j - 1];
      r
  }

  /** Each distinct element of `s` once, in order of first occurrence. */
  function Dedup<T(==,!new)>(s: seq<T>): (r: seq<T>)
    ensures forall x :: x in r <==> x in s
    ensures InFirstOccurrenceOrder(r, s)
    ensures NoDuplicates(r)
  {
    var r := DedupAfter(s, {});
    FirstOccurrenceOrderHasNoDuplicates(r, s);
    r
  }

  /** Without duplicates, every element occurs exactly once in the multiset view. */
  lemma {:induction false} NoDuplicatesCountsOne<T>(s: seq<T>)
    ensures NoDuplicates(s) <==> forall x :: multiset(s)[x] <= 1
  {
    if |s| > 0 {
      var t := s[1..];
      assert s == [s[0]] + t;
      assert multiset(s) == multiset{s[0]} + multiset(t);
      NoDuplicatesCountsOne(t);
      if NoDuplicates(s) {
        assert NoDuplicates(t) by {
          forall i, j | 0 <= i < j < |t| ensures t[i] != t[j] {
            assert t[i] == s[i + 1] && t[j] == s[j + 1];
          }
        }
        assert s[0] !in t;
      }
      if forall x :: multiset(s)[x] <= 1 {
        assert forall x :: multiset(t)[x] <= 1 by {
          forall x ensures multiset(t)[x] <= 1 {
            assert multiset(s)[x] == (if x == s[0] then 1 else 0) + multiset(t)[x];
          }
        }
        assert multiset(s)[s[0]] == 1 + multiset(t)[s[0]];
        assert s[0] !in t;
        forall i, j | 0 <= i < j < |s| ensures s[i] != s[j] {
          if i == 0 {
            assert s[j] == t[j - 1];
          } else {
            assert s[i] == t[i - 1] && s[j] == t[j - 1];
          }
        }
      }
    }
  }

  /** Reordering a sequence without duplicates does not create any. */
  lemma PermutationKeepsNoDuplicates<T>(a: seq<T>, b: seq<T>)
    requires multiset(a) == multiset(b)
    requires NoDuplicates(a)
    ensures NoDuplicates(b)
  {
    NoDuplicatesCountsOne(a);
    NoDuplicatesCountsOne(b);
  }
}
