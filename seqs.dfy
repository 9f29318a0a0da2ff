/**
  Facts about sequences that the order-list handlers rely on: the first and the
  last position of a value, duplicate-freedom, sub-sequences, and "listed in
  first-occurrence order".
 */
module Seqs {

  /** No value occurs twice in `s`. */
  predicate Distinct<T(==)>(s: seq<T>) {
    forall i, j :: 0 <= i < j < |s| ==> s[i] != s[j]
  }

  /** The position of the first occurrence of `x` in `s`. */
  function IndexOf<T(==)>(s: seq<T>, x: T): (i: nat)
    requires x in s
    ensures i < |s| && s[i] == x
    ensures forall j :: 0 <= j < i ==> s[j] != x
  {
    if s[0] == x then 0 else 1 + IndexOf(s[1..], x)
  }

  /** The position of the last occurrence of `x` in `s`. */
  function LastIndexOf<T(==)>(s: seq<T>, x: T): (i: nat)
    requires x in s
    ensures i < |s| && s[i] == x
    ensures forall j :: i < j < |s| ==> s[j] != x
  {
    if s[|s| - 1] == x then |s| - 1
    else
      assert x in s[..|s| - 1] by {
        var k :| 0 <= k < |s| && s[k] == x;
        assert s[..|s| - 1][k] == x;
      }
      LastIndexOf(s[..|s| - 1], x)
  }

  /** `a` is `b` with some elements dropped and the rest in their order. */
  predicate IsSubsequence<T(==)>(a: seq<T>, b: seq<T>)
    decreases |b|
  {
    if a == [] then true
    else if b == [] then false
    else (a[0] == b[0] && IsSubsequence(a[1..], b[1..])) || IsSubsequence(a, b[1..])
  }

  /** A sub-sequence holds each value at most as often as the sequence it is taken from. */
  lemma {:induction false} SubsequenceMultiset<T>(a: seq<T>, b: seq<T>)
    ensures IsSubsequence(a, b) ==> multiset(a) <= multiset(b)
    decreases |b|
  {
    if a != [] && b != [] {
      SubsequenceMultiset(a[1..], b[1..]);
      SubsequenceMultiset(a, b[1..]);
      assert a == [a[0]] + a[1..];
      assert b == [b[0]] + b[1..];
    }
  }

  /**
    Every element of `s` occurs in `ks`, and `s` lists its elements in the order
    of their first occurrence in `ks` (so `s` has no duplicates).
   */
  predicate InFirstOccurrenceOrder<T(==)>(s: seq<T>, ks: seq<T>) {
    (forall i :: 0 <= i < |s| ==> s[i] in ks) &&
    forall i, j :: 0 <= i < j < |s| ==> s[i] in ks && s[j] in ks && IndexOf(ks, s[i]) < IndexOf(ks, s[j])
  }

  lemma FirstOccurrenceOrderDistinct<T>(s: seq<T>, ks: seq<T>)
    requires InFirstOccurrenceOrder(s, ks)
    ensures Distinct(s)
  {
  }

  lemma IndexOfDistinct<T>(s: seq<T>, i: int)
    requires Distinct(s) && 0 <= i < |s|
    ensures IndexOf(s, s[i]) == i && LastIndexOf(s, s[i]) == i
  {
  }

  lemma IndexOfAppend<T>(a: seq<T>, b: seq<T>, x: T)
    requires x in a
    ensures x in a + b && IndexOf(a + b, x) == IndexOf(a, x)
  {
    var i := IndexOf(a, x);
    assert (a + b)[i] == x;
    var k := IndexOf(a + b, x);
    assert k <= i;
    assert a[k] == (a + b)[k];
  }

  lemma IndexOfAppendNew<T>(a: seq<T>, b: seq<T>, x: T)
    requires x !in a && x in b
    ensures x in a + b && IndexOf(a + b, x) == |a| + IndexOf(b, x)
  {
    var i := IndexOf(b, x);
    assert (a + b)[|a| + i] == x;
    var k := IndexOf(a + b, x);
    assert forall j :: 0 <= j < |a| ==> (a + b)[j] == a[j];
    assert k >= |a|;
    assert b[k - |a|] == (a + b)[k];
  }

  lemma LastIndexOfAppend<T>(a: seq<T>, b: seq<T>, x: T)
    requires x in b
    ensures x in a + b && LastIndexOf(a + b, x) == |a| + LastIndexOf(b, x)
  {
    var i := LastIndexOf(b, x);
    assert (a + b)[|a| + i] == x;
    var k := LastIndexOf(a + b, x);
    assert k >= |a| + i;
    assert b[k - |a|] == (a + b)[k];
  }

  lemma LastIndexOfAppendOld<T>(a: seq<T>, b: seq<T>, x: T)
    requires x in a && x !in b
    ensures x in a + b && LastIndexOf(a + b, x) == LastIndexOf(a, x)
  {
    var i := LastIndexOf(a, x);
    assert (a + b)[i] == x;
    var k := LastIndexOf(a + b, x);
    assert forall j :: |a| <= j < |a + b| ==> (a + b)[j] == b[j - |a|];
    assert k < |a|;
    assert a[k] == (a + b)[k];
  }

  /**
    Two sequences that hold the same values, each listed in first-occurrence
    order of the same `ks`, are equal: that order determines the sequence.
   */
  lemma {:induction false} FirstOccurrenceOrderUnique<T>(a: seq<T>, b: seq<T>, ks: seq<T>)
    requires InFirstOccurrenceOrder(a, ks) && InFirstOccurrenceOrder(b, ks)
    requires forall x :: x in a <==> x in b
    ensures a == b
  {
    HeadIn(a);
    HeadIn(b);
    assert a == [] <==> b == [];
    if a != [] {
      var j := IndexOf(b, a[0]);
      var i := IndexOf(a, b[0]);
      assert a[0] == b[0];
      FirstOccurrenceOrderDistinct(a, ks);
      FirstOccurrenceOrderDistinct(b, ks);
      InTail(a);
      InTail(b);
      TailInFirstOccurrenceOrder(a, ks);
      TailInFirstOccurrenceOrder(b, ks);
      FirstOccurrenceOrderUnique(a[1..], b[1..], ks);
      assert a == [a[0]] + a[1..] && b == [b[0]] + b[1..];
    }
  }

  // Names the term `s[0] in s`, so that FirstOccurrenceOrderUnique can relate the two
  // sequences' emptiness without reasoning inside a branch that cannot happen.
  lemma HeadIn<T>(s: seq<T>)
    ensures s != [] ==> s[0] in s
  {
  }

  /** In a sequence without duplicates, the tail holds exactly the values other than the head. */
  lemma InTail<T>(s: seq<T>)
    requires s != [] && Distinct(s)
    ensures forall x :: x in s[1..] <==> x in s && x != s[0]
  {
    forall x
      ensures x in s[1..] <==> x in s && x != s[0]
    {
      if x in s[1..] {
        var p :| 0 <= p < |s| - 1 && s[1..][p] == x;
        assert s[p + 1] == x;
      }
      if x in s && x != s[0] {
        var p :| 0 <= p < |s| && s[p] == x;
        assert p != 0;
        assert s[1..][p - 1] == x;
      }
    }
  }

  lemma TailInFirstOccurrenceOrder<T>(s: seq<T>, ks: seq<T>)
    requires s != [] && InFirstOccurrenceOrder(s, ks)
    ensures InFirstOccurrenceOrder(s[1..], ks)
  {
    var t := s[1..];
    forall i | 0 <= i < |t| ensures t[i] in ks {
      assert t[i] == s[i + 1];
    }
    forall i, j | 0 <= i < j < |t|
      ensures t[i] in ks && t[j] in ks && IndexOf(ks, t[i]) < IndexOf(ks, t[j])
    {
      assert t[i] == s[i + 1] && t[j] == s[j + 1];
    }
  }
}
