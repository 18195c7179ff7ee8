/**
 * Sequence facts shared by the Engine and the Simulator: duplicate-free
 * sequences and the order-preserving de-duplication that LINQ's `Distinct`
 * and the keys of `GroupBy` both perform (first occurrence wins).
 */
module Sequences {

  predicate NoDuplicates<T(==)>(s: seq<T>) {
    forall i, j :: 0 <= i < j < |s| ==> s[i] != s[j]
  }

  /** The set of elements of a sequence. */
  function Elements<T>(s: seq<T>): set<T> {
    set x | x in s
  }

  /** Keeps the first occurrence of every element, in the order of `s`. */
  function Distinct<T(==)>(s: seq<T>): (d: seq<T>)
    ensures NoDuplicates(d)
    ensures forall i :: 0 <= i < |d| ==> d[i] in s
    ensures forall i :: 0 <= i < |s| ==> s[i] in d
    ensures |d| <= |s|
    decreases |s|
  {
    if s == [] then []
    else
      var p := Distinct(s[..|s| - 1]);
      var last := s[|s| - 1];
      assert forall i :: 0 <= i < |s| - 1 ==> s[i] == s[..|s| - 1][i];
      if last in p then p else p + [last]
  }

  /** A sequence without duplicates has as many elements as its length. */
  lemma {:induction false} NoDuplicatesCardinality<T>(s: seq<T>)
    requires NoDuplicates(s)
    ensures |Elements(s)| == |s|
  {
    if s != [] {
      var rest := s[1..];
      assert NoDuplicates(rest) by {
        forall i, j | 0 <= i < j < |rest| ensures rest[i] != rest[j] {
          assert rest[i] == s[i + 1] && rest[j] == s[j + 1];
        }
      }
      NoDuplicatesCardinality(rest);
      assert Elements(s) == {s[0]} + Elements(rest) by {
        forall x ensures x in Elements(s) <==> x in {s[0]} + Elements(rest) {
          if x in s && x != s[0] {
            var k :| 0 <= k < |s| && s[k] == x;
            assert rest[k - 1] == x;
          }
        }
      }
      assert s[0] !in Elements(rest);
    }
  }

  /** De-duplication keeps exactly as many elements as there are distinct values. */
  lemma DistinctCardinality<T>(s: seq<T>)
    ensures |Distinct(s)| == |Elements(s)|
  {
    var d := Distinct(s);
    NoDuplicatesCardinality(d);
    assert Elements(d) == Elements(s);
  }

  /** De-duplicating a sequence that has no duplicates changes nothing. */
  lemma {:induction false} DistinctOfNoDuplicates<T>(s: seq<T>)
    requires NoDuplicates(s)
    ensures Distinct(s) == s
    decreases |s|
  {
    if s != [] {
      var init := s[..|s| - 1];
      assert NoDuplicates(init);
      DistinctOfNoDuplicates(init);
      assert s[|s| - 1] !in init;
      assert init + [s[|s| - 1]] == s;
    }
  }

  /** The position of the first occurrence of `x` in `s`. */
  function FirstIndex<T(==)>(s: seq<T>, x: T): (k: nat)
    requires x in s
    ensures k < |s| && s[k] == x
    ensures forall j :: 0 <= j < k ==> s[j] != x
  {
    if s[0] == x then 0 else 1 + FirstIndex(s[1..], x)
  }

  lemma FirstIndexOfInit<T>(s: seq<T>, x: T)
    requires |s| > 0 && x in s[..|s| - 1]
    ensures FirstIndex(s, x) == FirstIndex(s[..|s| - 1], x)
  {
    var init := s[..|s| - 1];
    var a, b := FirstIndex(s, x), FirstIndex(init, x);
    assert s[b] == x;
    assert a <= b;
    assert init[a] == x || a == |s| - 1;
  }

  /** De-duplication lists the values in the order of their first occurrence. */
  lemma {:induction false} DistinctFirstOccurrenceOrder<T>(s: seq<T>, i: int, j: int)
    requires 0 <= i < j < |Distinct(s)|
    ensures FirstIndex(s, Distinct(s)[i]) < FirstIndex(s, Distinct(s)[j])
    decreases |s|
  {
    var init, last := s[..|s| - 1], s[|s| - 1];
    var p := Distinct(init);
    var d := Distinct(s);
    assert d == p || d == p + [last];
    assert d[i] == p[i];
    FirstIndexOfInit(s, p[i]);
    if j < |p| {
      assert d[j] == p[j];
      FirstIndexOfInit(s, p[j]);
      DistinctFirstOccurrenceOrder(init, i, j);
    } else {
      assert d[j] == last && last !in init;
      assert FirstIndex(s, last) == |s| - 1;
    }
  }

  /** How often `x` occurs in `keys`. */
  function Occurrences<T(==)>(keys: seq<T>, x: T): nat
    decreases |keys|
  {
    if keys == [] then 0 else (if keys[0] == x then 1 else 0) + Occurrences(keys[1..], x)
  }

  lemma {:induction false} OccursOnce<T>(keys: seq<T>, x: T)
    requires NoDuplicates(keys) && x in keys
    ensures Occurrences(keys, x) == 1
    decreases |keys|
  {
    var rest := keys[1..];
    assert NoDuplicates(rest) by {
      forall i, j | 0 <= i < j < |rest| ensures rest[i] != rest[j] {
        assert rest[i] == keys[i + 1] && rest[j] == keys[j + 1];
      }
    }
    if keys[0] == x {
      OccursNever(rest, x);
    } else {
      OccursOnce(rest, x);
    }
  }

  lemma {:induction false} OccursNever<T>(keys: seq<T>, x: T)
    requires x !in keys
    ensures Occurrences(keys, x) == 0
    decreases |keys|
  {
    if keys != [] {
      OccursNever(keys[1..], x);
    }
  }
}
