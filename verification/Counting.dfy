// Distinct sequences and finite sets of naturals.
module Counting {
  predicate Distinct(s: seq<nat>) { forall i, j :: 0 <= i < j < |s| ==> s[i] != s[j] }

  ghost function SetOf(s: seq<nat>): set<nat> { set x | x in s }

  lemma {:induction false} DistinctCount(s: seq<nat>)
    requires Distinct(s)
    ensures |SetOf(s)| == |s|
  {
    if s != [] {
      var r, x := s[..|s| - 1], s[|s| - 1];
      DistinctCount(r);
      assert s == r + [x];
      assert SetOf(s) == SetOf(r) + {x} && x !in SetOf(r);
    }
  }

  lemma {:induction false} Bounded(s: set<nat>, n: nat)
    requires forall x :: x in s ==> x < n
    ensures |s| <= n
    decreases n
  {
    if n == 0 {
      assert s == {};
    } else {
      Bounded(s - {n - 1}, n - 1);
      assert s <= (s - {n - 1}) + {n - 1};
      SubsetCount(s, (s - {n - 1}) + {n - 1});
    }
  }

  lemma {:induction false} SubsetCount(a: set<nat>, b: set<nat>)
    requires a <= b
    ensures |a| <= |b|
    decreases |b|
  {
    if a != {} {
      var x :| x in a;
      SubsetCount(a - {x}, b - {x});
    }
  }

  // A distinct list of n numbers below n holds all of them.
  lemma Covers(s: seq<nat>, n: nat, x: nat)
    requires Distinct(s) && |s| == n && (forall y :: y in s ==> y < n) && x < n
    ensures x in s
  {
    DistinctCount(s);
    if x !in s { Bounded(SetOf(s) + {x}, n); }
  }

  ghost function UpTo(n: nat): (s: set<nat>)
    ensures |s| == n && forall x: nat :: x in s <==> x < n
  {
    if n == 0 then {} else UpTo(n - 1) + {n - 1}
  }

  // A list that holds all numbers below n has at least n elements.
  lemma CoverSize(s: seq<nat>, n: nat)
    requires forall x: nat :: x < n ==> x in s
    ensures |s| >= n
  {
    SubsetCount(UpTo(n), SetOf(s));
    SeqCount(s);
  }

  lemma {:induction false} SeqCount(s: seq<nat>)
    ensures |SetOf(s)| <= |s|
  {
    if s != [] {
      var r, x := s[..|s| - 1], s[|s| - 1];
      SeqCount(r);
      assert s == r + [x];
      assert SetOf(s) == SetOf(r) + {x};
    }
  }
}
