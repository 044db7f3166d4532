/** Facts about sequences shared by several components. */
module Sequences {

  function Reverse<T>(s: seq<T>): (r: seq<T>)
    ensures |r| == |s|
    ensures forall i :: 0 <= i < |s| ==> r[i] == s[|s| - 1 - i]
  {
    if s == [] then [] else Reverse(s[1..]) + [s[0]]
  }

  lemma ReverseConcat<T>(a: seq<T>, b: seq<T>)
    ensures Reverse(a + b) == Reverse(b) + Reverse(a)
  {
  }

  /** How often `x` occurs in `s`. */
  function Count<T(==)>(s: seq<T>, x: T): (n: nat)
    ensures n > 0 <==> x in s
  {
    if s == [] then 0 else (if s[0] == x then 1 else 0) + Count(s[1..], x)
  }

  lemma {:induction false} CountConcat<T>(a: seq<T>, b: seq<T>, x: T)
    ensures Count(a + b, x) == Count(a, x) + Count(b, x)
  {
    if a == [] {
      assert a + b == b;
    } else {
      CountConcat(a[1..], b, x);
      assert (a + b)[1..] == a[1..] + b;
    }
  }

  ghost predicate Distinct<T(!new)>(s: seq<T>) {
    forall i, j :: 0 <= i < j < |s| ==> s[i] != s[j]
  }

  /** The first of the ends that reaches `val`: the library's lower_bound on sorted ends. */
  function LowerBound(ends: seq<int>, val: int): (k: nat)
    ensures k <= |ends|
    ensures k < |ends| ==> ends[k] >= val
    ensures forall i :: 0 <= i < k ==> ends[i] < val
  {
    if ends == [] || ends[0] >= val then 0 else 1 + LowerBound(ends[1..], val)
  }

  /** An element of a sequence can be taken out of it. */
  lemma TakeOut<T>(s: seq<T>, x: T) returns (j: nat)
    requires x in s
    ensures j < |s| && s == s[..j] + ([x] + s[j + 1..])
    ensures multiset(s[..j] + s[j + 1..]) == multiset(s) - multiset{x}
  {
    j :| 0 <= j < |s| && s[j] == x;
    assert s == s[..j] + ([x] + s[j + 1..]);
  }

  lemma {:induction false} DistinctOnce<T(!new)>(s: seq<T>, x: T)
    requires Distinct(s)
    ensures multiset(s)[x] <= 1
  {
    if s != [] {
      var front := s[..|s| - 1];
      DistinctOnce(front, x);
      assert s == front + [s[|s| - 1]];
    }
  }

  lemma OccursTwice<T>(s: seq<T>, i: nat, j: nat)
    requires i < j < |s| && s[i] == s[j]
    ensures multiset(s)[s[i]] >= 2
  {
    assert s == s[..i] + [s[i]] + s[i + 1..j] + [s[j]] + s[j + 1..];
  }

  lemma EmptyByMultiset<T>(s: seq<T>)
    requires multiset(s) == multiset{}
    ensures s == []
  {
    assert |s| == |multiset(s)|;
  }
}
