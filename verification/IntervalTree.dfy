/**
 Interval search trees: what a tree stores, what a search returns, and why every pruning
 test is justified. The linked nodes and the cursor over them are in IntervalCursor.
 */
module IntervalTree {

  datatype Interval = Interval(start: nat, stop: nat, value: nat)

  datatype Tree = Nil | Node(intervals: seq<Interval>, left: Tree, right: Tree, center: nat, maxstop: nat)

  predicate Hit(i: Interval, start: nat, stop: nat) {
    i.stop >= start && i.start <= stop
  }

  function Hits(s: seq<Interval>, start: nat, stop: nat): seq<Interval> {
    if s == [] then []
    else (if Hit(s[0], start, stop) then [s[0]] else []) + Hits(s[1..], start, stop)
  }

  ghost predicate SortedByStart(s: seq<Interval>) {
    forall i, j :: 0 <= i < j < |s| ==> s[i].start <= s[j].start
  }

  // ---------- searching ----------

  function OwnHits(t: Tree, start: nat, stop: nat): seq<Interval>
    requires t.Node?
  {
    if t.intervals != [] && !(stop < t.intervals[0].start) then Hits(t.intervals, start, stop) else []
  }

  /** The result of findOverlapping, in the order in which it is pushed. */
  function Search(t: Tree, start: nat, stop: nat): seq<Interval>
    decreases t, 1
  {
    if t.Nil? then [] else OwnHits(t, start, stop) + ChildHits(t, start, stop)
  }

  function ChildHits(t: Tree, start: nat, stop: nat): seq<Interval>
    requires t.Node?
    decreases t, 0
  {
    (if t.left.Node? && start <= t.center then Search(t.left, start, stop) else [])
    + (if t.right.Node? && stop >= t.center then Search(t.right, start, stop) else [])
  }

  /** All stored intervals, node before left before right. */
  function All(t: Tree): seq<Interval> {
    if t.Nil? then [] else t.intervals + (All(t.left) + All(t.right))
  }

  /** The ordering facts that the searches rely on. */
  ghost predicate Ordered(t: Tree) {
    t.Node? ==>
      && SortedByStart(t.intervals)
      && (forall i <- t.intervals :: i.stop <= t.maxstop)
      && (forall i <- All(t.left) :: i.stop < t.center)
      && (forall i <- All(t.right) :: i.start > t.center)
      && Ordered(t.left) && Ordered(t.right)
  }

  lemma {:induction false} HitsConcat(a: seq<Interval>, b: seq<Interval>, start: nat, stop: nat)
    ensures Hits(a + b, start, stop) == Hits(a, start, stop) + Hits(b, start, stop)
  {
    if a == [] {
      assert a + b == b;
    } else {
      var head := if Hit(a[0], start, stop) then [a[0]] else [];
      assert (a + b)[0] == a[0] && (a + b)[1..] == a[1..] + b;
      calc {
        Hits(a + b, start, stop);
        head + Hits(a[1..] + b, start, stop);
        { HitsConcat(a[1..], b, start, stop); }
        head + (Hits(a[1..], start, stop) + Hits(b, start, stop));
        (head + Hits(a[1..], start, stop)) + Hits(b, start, stop);
      }
    }
  }

  lemma HitsEmpty(start: nat, stop: nat)
    ensures Hits([], start, stop) == []
  {
  }

  lemma HitsTake(s: seq<Interval>, k: nat, start: nat, stop: nat)
    requires k < |s|
    ensures Hits(s[..k + 1], start, stop) == Hits(s[..k], start, stop) + (if Hit(s[k], start, stop) then [s[k]] else [])
  {
    assert s[..k + 1] == s[..k] + [s[k]];
    HitsConcat(s[..k], [s[k]], start, stop);
    assert Hits([s[k]], start, stop) == (if Hit(s[k], start, stop) then [s[k]] else []) + Hits([], start, stop);
  }

  lemma SearchUnfolds(t: Tree, start: nat, stop: nat)
    ensures Search(Nil, start, stop) == []
    ensures t.Node? ==> Search(t, start, stop) == OwnHits(t, start, stop) + ChildHits(t, start, stop)
  {
  }

  lemma {:induction false} NoHits(s: seq<Interval>, start: nat, stop: nat)
    requires forall i <- s :: !Hit(i, start, stop)
    ensures Hits(s, start, stop) == []
  {
    if s != [] {
      NoHits(s[1..], start, stop);
    }
  }

  /** The guard on a node's own intervals skips only nodes without hits. */
  lemma OwnHitsExact(t: Tree, start: nat, stop: nat)
    requires t.Node? && Ordered(t)
    ensures OwnHits(t, start, stop) == Hits(t.intervals, start, stop)
    ensures start > t.maxstop ==> Hits(t.intervals, start, stop) == []
  {
    if t.intervals != [] && stop < t.intervals[0].start {
      NoHits(t.intervals, start, stop);
    }
    if start > t.maxstop {
      NoHits(t.intervals, start, stop);
    }
  }

  /** For every query, the search returns exactly the stored intervals that meet it. */
  lemma {:induction false} SearchExact(t: Tree, start: nat, stop: nat)
    requires Ordered(t)
    ensures Search(t, start, stop) == Hits(All(t), start, stop)
  {
    if t.Node? {
      OwnHitsExact(t, start, stop);
      HitsConcat(t.intervals, All(t.left) + All(t.right), start, stop);
      HitsConcat(All(t.left), All(t.right), start, stop);
      SearchExact(t.left, start, stop);
      SearchExact(t.right, start, stop);
      if start > t.center {
        NoHits(All(t.left), start, stop);
      }
      if stop < t.center {
        NoHits(All(t.right), start, stop);
      }
    }
  }

  // ---------- building ----------

  function InsertByStart(x: Interval, s: seq<Interval>): seq<Interval> {
    if s == [] then [x]
    else if x.start < s[0].start then [x] + s
    else [s[0]] + InsertByStart(x, s[1..])
  }

  /** The library sort; ties keep some order, on which nothing below depends. */
  function SortByStart(s: seq<Interval>): seq<Interval> {
    if s == [] then [] else InsertByStart(s[0], SortByStart(s[1..]))
  }

  lemma {:induction false} InsertByStartAdds(x: Interval, s: seq<Interval>)
    ensures multiset(InsertByStart(x, s)) == multiset(s) + multiset{x}
  {
    if s != [] {
      assert s == [s[0]] + s[1..];
      InsertByStartAdds(x, s[1..]);
    }
  }

  lemma {:induction false} InsertByStartSorted(x: Interval, s: seq<Interval>)
    requires SortedByStart(s)
    ensures SortedByStart(InsertByStart(x, s))
  {
    if s != [] && x.start >= s[0].start {
      InsertByStartSorted(x, s[1..]);
      InsertedMembers(x, s[1..]);
      var r := InsertByStart(x, s[1..]);
      forall j | 0 <= j < |r|
        ensures s[0].start <= r[j].start
      {
        assert r[j] in r;
      }
    }
  }

  lemma {:induction false} InsertedMembers(x: Interval, s: seq<Interval>)
    ensures forall i <- InsertByStart(x, s) :: i == x || i in s
  {
    if s != [] {
      InsertedMembers(x, s[1..]);
    }
  }

  lemma {:induction false} SortByStartSorted(s: seq<Interval>)
    ensures SortedByStart(SortByStart(s)) && multiset(SortByStart(s)) == multiset(s)
  {
    if s != [] {
      assert s == [s[0]] + s[1..];
      SortByStartSorted(s[1..]);
      InsertByStartSorted(s[0], SortByStart(s[1..]));
      InsertByStartAdds(s[0], SortByStart(s[1..]));
    }
  }

  lemma {:induction false} MaxStopBounds(s: seq<Interval>)
    ensures forall i <- s :: i.stop <= MaxStop(s)
  {
    if s != [] {
      MaxStopBounds(s[..|s| - 1]);
      assert s == s[..|s| - 1] + [s[|s| - 1]];
    }
  }

  function MaxStop(s: seq<Interval>): nat {
    if s == [] then 0
    else
      var m := MaxStop(s[..|s| - 1]);
      if s[|s| - 1].stop > m then s[|s| - 1].stop else m
  }

  datatype Side = GoesLeft | GoesRight | Stays

  function SideOf(i: Interval, center: nat): Side {
    if i.stop < center then GoesLeft else if i.start > center then GoesRight else Stays
  }

  /** The intervals that go to one side, in their original order. */
  function Select(s: seq<Interval>, center: nat, side: Side): seq<Interval> {
    if s == [] then []
    else
      var last := s[|s| - 1];
      Select(s[..|s| - 1], center, side) + (if SideOf(last, center) == side then [last] else [])
  }

  lemma {:induction false} SelectMembers(s: seq<Interval>, center: nat, side: Side)
    ensures forall i :: i in Select(s, center, side) <==> i in s && SideOf(i, center) == side
  {
    if s != [] {
      SelectMembers(s[..|s| - 1], center, side);
      assert s == s[..|s| - 1] + [s[|s| - 1]];
    }
  }

  lemma {:induction false} SelectSorted(s: seq<Interval>, center: nat, side: Side)
    requires SortedByStart(s)
    ensures SortedByStart(Select(s, center, side))
  {
    if s != [] {
      SelectSorted(s[..|s| - 1], center, side);
      var init := Select(s[..|s| - 1], center, side);
      SelectMembers(s[..|s| - 1], center, side);
      forall i | i in init
        ensures i.start <= s[|s| - 1].start
      {
        assert i in s[..|s| - 1];
      }
    }
  }

  lemma SelectTake(s: seq<Interval>, k: nat, center: nat, side: Side)
    requires k < |s|
    ensures Select(s[..k + 1], center, side)
         == Select(s[..k], center, side) + (if SideOf(s[k], center) == side then [s[k]] else [])
  {
    assert s[..k + 1][..k] == s[..k];
  }

  lemma EmptySelect(center: nat)
    ensures MaxStop([]) == 0 && forall side :: Select([], center, side) == []
  {
  }

  lemma MaxStopSnoc(s: seq<Interval>, x: Interval)
    ensures MaxStop(s + [x]) == if x.stop > MaxStop(s) then x.stop else MaxStop(s)
  {
    assert (s + [x])[..|s|] == s;
  }

  lemma SelectLast(s: seq<Interval>, last: Interval, center: nat, side: Side)
    ensures multiset(Select(s + [last], center, side))
         == multiset(Select(s, center, side)) + (if SideOf(last, center) == side then multiset{last} else multiset{})
  {
    assert (s + [last])[..|s|] == s;
  }

  lemma {:induction false} SelectPartitions(s: seq<Interval>, center: nat)
    ensures multiset(Select(s, center, Stays)) + multiset(Select(s, center, GoesLeft))
            + multiset(Select(s, center, GoesRight)) == multiset(s)
  {
    if s != [] {
      var init, last := s[..|s| - 1], s[|s| - 1];
      assert s == init + [last];
      SelectPartitions(init, center);
      hide Select;
      SelectLast(init, last, center, Stays);
      SelectLast(init, last, center, GoesLeft);
      SelectLast(init, last, center, GoesRight);
    }
  }

  /** The tree that the constructor builds. */
  function Build(ivals: seq<Interval>, depth: nat, minbucket: nat, leftextent: nat, rightextent: nat, maxbucket: nat): Tree
    requires depth > 0 && minbucket > 0 && maxbucket > 0
    decreases depth, 0
  {
    var s := if leftextent == 0 && rightextent == 0 then SortByStart(ivals) else ivals;
    if IsBucket(|s|, depth, minbucket, maxbucket) then
      Node(s, Nil, Nil, 0, MaxStop(s))
    else
      var leftp := if leftextent != 0 || rightextent != 0 then leftextent else s[0].start;
      var rightp := if leftextent != 0 || rightextent != 0 then rightextent else MaxStop(s);
      Inner(s, depth - 1, minbucket, leftp, s[|s| / 2].start, rightp, maxbucket)
  }

  function BuildChild(ivals: seq<Interval>, depth: nat, minbucket: nat, leftextent: nat, rightextent: nat, maxbucket: nat): Tree
    requires depth > 0 && minbucket > 0 && maxbucket > 0
    decreases depth, 1
  {
    if ivals == [] then Nil else Build(ivals, depth, minbucket, leftextent, rightextent, maxbucket)
  }

  /** The tree of an inner node, from the sorted list and the extents of its range. */
  function Inner(s: seq<Interval>, depth: nat, minbucket: nat, leftp: nat, center: nat, rightp: nat, maxbucket: nat): Tree
    requires depth > 0 && minbucket > 0 && maxbucket > 0
    decreases depth, 2
  {
    var stays := Select(s, center, Stays);
    Node(stays,
         BuildChild(Select(s, center, GoesLeft), depth, minbucket, leftp, center, maxbucket),
         BuildChild(Select(s, center, GoesRight), depth, minbucket, center, rightp, maxbucket),
         center, MaxStop(stays))
  }

  predicate IsBucket(n: nat, depth: nat, minbucket: nat, maxbucket: nat) {
    depth == 1 || (n < minbucket && n < maxbucket)
  }

  lemma BuildLeaf(ivals: seq<Interval>, depth: nat, minbucket: nat, leftextent: nat, rightextent: nat, maxbucket: nat, s: seq<Interval>)
    requires depth > 0 && minbucket > 0 && maxbucket > 0 && IsBucket(|s|, depth, minbucket, maxbucket)
    requires s == if leftextent == 0 && rightextent == 0 then SortByStart(ivals) else ivals
    ensures Build(ivals, depth, minbucket, leftextent, rightextent, maxbucket) == Node(s, Nil, Nil, 0, MaxStop(s))
  {
    hide Inner, SortByStart, MaxStop;
  }

  lemma BuildInner(ivals: seq<Interval>, depth: nat, minbucket: nat, leftextent: nat, rightextent: nat, maxbucket: nat,
                   s: seq<Interval>, leftp: nat, rightp: nat)
    requires depth > 0 && minbucket > 0 && maxbucket > 0 && !IsBucket(|s|, depth, minbucket, maxbucket)
    requires s == if leftextent == 0 && rightextent == 0 then SortByStart(ivals) else ivals
    requires if leftextent == 0 && rightextent == 0 then leftp == s[0].start && rightp == MaxStop(s)
             else leftp == leftextent && rightp == rightextent
    ensures Build(ivals, depth, minbucket, leftextent, rightextent, maxbucket)
            == Inner(s, depth - 1, minbucket, leftp, s[|s| / 2].start, rightp, maxbucket)
  {
    hide Inner, SortByStart, MaxStop;
  }

  /**
   The constructor loses and invents no interval and establishes the order, for every list of
   intervals; only a list handed down with extents must already be sorted.
   */
  lemma {:induction false} BuildOrdered(ivals: seq<Interval>, depth: nat, minbucket: nat, leftextent: nat, rightextent: nat, maxbucket: nat)
    requires depth > 0 && minbucket > 0 && maxbucket > 0
    requires (leftextent == 0 && rightextent == 0) || SortedByStart(ivals)
    ensures var t := Build(ivals, depth, minbucket, leftextent, rightextent, maxbucket);
            Ordered(t) && multiset(All(t)) == multiset(ivals)
    decreases depth, 0
  {
    hide Ordered, All, SortByStart, Inner, MaxStop;
    var s := if leftextent == 0 && rightextent == 0 then SortByStart(ivals) else ivals;
    SortByStartSorted(ivals);
    if IsBucket(|s|, depth, minbucket, maxbucket) {
      LeafOrdered(s);
    } else {
      var leftp := if leftextent != 0 || rightextent != 0 then leftextent else s[0].start;
      var rightp := if leftextent != 0 || rightextent != 0 then rightextent else MaxStop(s);
      var center := s[|s| / 2].start;
      BuildParts(s, depth - 1, minbucket, leftp, center, rightp, maxbucket);
    }
  }

  lemma LeafOrdered(s: seq<Interval>)
    requires SortedByStart(s)
    ensures Ordered(Node(s, Nil, Nil, 0, MaxStop(s))) && All(Node(s, Nil, Nil, 0, MaxStop(s))) == s
  {
    MaxStopBounds(s);
  }

  lemma BuildParts(s: seq<Interval>, depth: nat, minbucket: nat, leftp: nat, center: nat, rightp: nat, maxbucket: nat)
    requires depth > 0 && minbucket > 0 && maxbucket > 0 && SortedByStart(s)
    ensures var t := Inner(s, depth, minbucket, leftp, center, rightp, maxbucket);
            Ordered(t) && multiset(All(t)) == multiset(s)
    decreases depth, 2
  {
    hide BuildChild, Select, Ordered, All;
    var lefts, rights := Select(s, center, GoesLeft), Select(s, center, GoesRight);
    SelectSorted(s, center, Stays);
    SelectSorted(s, center, GoesLeft);
    SelectSorted(s, center, GoesRight);
    SelectPartitions(s, center);
    SelectMembers(s, center, GoesLeft);
    SelectMembers(s, center, GoesRight);
    BuildChildOrdered(lefts, depth, minbucket, leftp, center, maxbucket);
    BuildChildOrdered(rights, depth, minbucket, center, rightp, maxbucket);
    var l := BuildChild(lefts, depth, minbucket, leftp, center, maxbucket);
    var r := BuildChild(rights, depth, minbucket, center, rightp, maxbucket);
    SameMembers(All(l), lefts);
    SameMembers(All(r), rights);
    NodeOrdered(Select(s, center, Stays), l, r, center);
  }

  lemma NodeOrdered(stays: seq<Interval>, l: Tree, r: Tree, center: nat)
    requires SortedByStart(stays) && Ordered(l) && Ordered(r)
    requires forall i <- All(l) :: i.stop < center
    requires forall i <- All(r) :: i.start > center
    ensures var t := Node(stays, l, r, center, MaxStop(stays));
            Ordered(t) && multiset(All(t)) == multiset(stays) + multiset(All(l)) + multiset(All(r))
  {
    MaxStopBounds(stays);
  }

  lemma BuildChildOrdered(ivals: seq<Interval>, depth: nat, minbucket: nat, leftextent: nat, rightextent: nat, maxbucket: nat)
    requires depth > 0 && minbucket > 0 && maxbucket > 0 && SortedByStart(ivals)
    ensures var t := BuildChild(ivals, depth, minbucket, leftextent, rightextent, maxbucket);
            Ordered(t) && multiset(All(t)) == multiset(ivals)
    decreases depth, 1
  {
    hide Build;
    if ivals != [] {
      BuildOrdered(ivals, depth, minbucket, leftextent, rightextent, maxbucket);
    }
  }

  lemma SameMembers(a: seq<Interval>, b: seq<Interval>)
    requires multiset(a) == multiset(b)
    ensures forall i :: i in a <==> i in b
  {
    forall i
      ensures i in a <==> i in b
    {
      assert i in multiset(a) <==> i in multiset(b);
    }
  }

  lemma {:induction false} HitsCount(s: seq<Interval>, start: nat, stop: nat, x: Interval)
    ensures multiset(Hits(s, start, stop))[x] == if Hit(x, start, stop) then multiset(s)[x] else 0
  {
    if s != [] {
      HitsCount(s[1..], start, stop, x);
      assert s == [s[0]] + s[1..];
    }
  }

  /** The tree built from any list answers any query with precisely the intervals that meet it. */
  lemma BuildThenSearch(ivals: seq<Interval>, depth: nat, minbucket: nat, maxbucket: nat, start: nat, stop: nat)
    requires depth > 0 && minbucket > 0 && maxbucket > 0
    ensures multiset(Search(Build(ivals, depth, minbucket, 0, 0, maxbucket), start, stop))
            == multiset(Hits(ivals, start, stop))
  {
    hide Build, Search, All, Ordered, Hits;
    var t := Build(ivals, depth, minbucket, 0, 0, maxbucket);
    BuildOrdered(ivals, depth, minbucket, 0, 0, maxbucket);
    SearchExact(t, start, stop);
    forall x
      ensures multiset(Hits(All(t), start, stop))[x] == multiset(Hits(ivals, start, stop))[x]
    {
      HitsCount(All(t), start, stop, x);
      HitsCount(ivals, start, stop, x);
    }
  }

  // ---------- enumerating by climbing ----------

  /** One link of the way down: the tree at the parent, and which child was taken. */
  datatype Frame = Frame(tree: Tree, wentLeft: bool)

  function Size(t: Tree): nat {
    if t.Nil? then 0 else 1 + Size(t.left) + Size(t.right)
  }

  /** The hits in the right siblings that the climb along `trail` has yet to visit. */
  function After(trail: seq<Frame>, start: nat, stop: nat): seq<Interval>
    requires forall f <- trail :: f.tree.Node?
  {
    if trail == [] then []
    else
      var f := trail[|trail| - 1];
      (if f.wentLeft && f.tree.right.Node? && stop >= f.tree.center then Search(f.tree.right, start, stop) else [])
      + After(trail[..|trail| - 1], start, stop)
  }

  /** The number of nodes in those siblings. */
  function WorkAfter(trail: seq<Frame>): nat
    requires forall f <- trail :: f.tree.Node?
  {
    if trail == [] then 0
    else
      var f := trail[|trail| - 1];
      (if f.wentLeft then Size(f.tree.right) else 0) + WorkAfter(trail[..|trail| - 1])
  }

  /** What the enumeration still yields from interval `k` of `t`, reached along `trail`. */
  function Rest(t: Tree, trail: seq<Frame>, k: nat, start: nat, stop: nat): seq<Interval>
    requires t.Node? && k <= |t.intervals| && forall f <- trail :: f.tree.Node?
  {
    Hits(t.intervals[k..], start, stop) + (ChildHits(t, start, stop) + After(trail, start, stop))
  }

  lemma AfterSnoc(trail: seq<Frame>, f: Frame, start: nat, stop: nat)
    requires f.tree.Node? && forall g <- trail :: g.tree.Node?
    ensures After(trail + [f], start, stop)
            == (if f.wentLeft && f.tree.right.Node? && stop >= f.tree.center then Search(f.tree.right, start, stop) else [])
               + After(trail, start, stop)
    ensures WorkAfter(trail + [f]) == (if f.wentLeft then Size(f.tree.right) else 0) + WorkAfter(trail)
  {
    assert (trail + [f])[..|trail|] == trail;
  }

  /** From its first interval on, a subtree yields what the search of it returns. */
  lemma RestFromStart(t: Tree, trail: seq<Frame>, start: nat, stop: nat)
    requires t.Node? && Ordered(t) && forall f <- trail :: f.tree.Node?
    ensures Rest(t, trail, 0, start, stop) == Search(t, start, stop) + After(trail, start, stop)
  {
    hide After, Ordered, ChildHits, Hits;
    OwnHitsExact(t, start, stop);
    assert t.intervals[0..] == t.intervals;
  }

  /** Taking the left child keeps the pending right sibling. */
  lemma DescendLeft(t: Tree, trail: seq<Frame>, start: nat, stop: nat)
    requires t.Node? && t.left.Node? && Ordered(t.left) && start <= t.center && forall f <- trail :: f.tree.Node?
    ensures Rest(t.left, trail + [Frame(t, true)], 0, start, stop)
            == ChildHits(t, start, stop) + After(trail, start, stop)
    ensures Size(t.left) + WorkAfter(trail + [Frame(t, true)]) < Size(t) + WorkAfter(trail)
  {
    hide After, WorkAfter, Ordered, Hits, Search;
    RestFromStart(t.left, trail + [Frame(t, true)], start, stop);
    AfterSnoc(trail, Frame(t, true), start, stop);
  }

  lemma DescendRight(t: Tree, trail: seq<Frame>, start: nat, stop: nat)
    requires t.Node? && t.right.Node? && Ordered(t.right) && forall f <- trail :: f.tree.Node?
    requires stop >= t.center && (t.left.Nil? || start > t.center)
    ensures Rest(t.right, trail + [Frame(t, false)], 0, start, stop)
            == ChildHits(t, start, stop) + After(trail, start, stop)
    ensures Size(t.right) + WorkAfter(trail + [Frame(t, false)]) < Size(t) + WorkAfter(trail)
  {
    hide After, WorkAfter, Ordered, Hits, Search;
    RestFromStart(t.right, trail + [Frame(t, false)], start, stop);
    AfterSnoc(trail, Frame(t, false), start, stop);
  }

  /** Crossing from a left child to its right sibling. */
  lemma CrossOver(t: Tree, trail: seq<Frame>, start: nat, stop: nat)
    requires t.Node? && t.right.Node? && Ordered(t.right) && stop >= t.center && forall f <- trail :: f.tree.Node?
    ensures Rest(t.right, trail + [Frame(t, false)], 0, start, stop) == After(trail + [Frame(t, true)], start, stop)
    ensures Size(t.right) + WorkAfter(trail + [Frame(t, false)]) == WorkAfter(trail + [Frame(t, true)])
  {
    hide After, WorkAfter, Ordered, Hits, Search;
    RestFromStart(t.right, trail + [Frame(t, false)], start, stop);
    AfterSnoc(trail, Frame(t, false), start, stop);
    AfterSnoc(trail, Frame(t, true), start, stop);
  }

  /** Leaving a right child, or a left child without a pending sibling, loses nothing. */
  lemma {:induction false} ClimbUp(trail: seq<Frame>, f: Frame, start: nat, stop: nat)
    requires f.tree.Node? && forall g <- trail :: g.tree.Node?
    requires !(f.wentLeft && f.tree.right.Node? && stop >= f.tree.center)
    ensures After(trail + [f], start, stop) == After(trail, start, stop)
    ensures WorkAfter(trail) <= WorkAfter(trail + [f])
  {
    AfterSnoc(trail, f, start, stop);
  }

  lemma HitsFrom(s: seq<Interval>, k: nat, start: nat, stop: nat)
    requires k < |s|
    ensures Hits(s[k..], start, stop) == (if Hit(s[k], start, stop) then [s[k]] else []) + Hits(s[k + 1..], start, stop)
  {
    assert s[k..][1..] == s[k + 1..];
  }

  /** The cursor's guard on a node skips no hit, and a node that holds a hit passes it. */
  lemma GuardExact(t: Tree, k: nat, start: nat, stop: nat)
    requires t.Node? && Ordered(t) && k <= |t.intervals|
    ensures t.intervals == [] || stop < t.intervals[0].start || start > t.maxstop ==> Hits(t.intervals[k..], start, stop) == []
    ensures k < |t.intervals| && Hit(t.intervals[k], start, stop)
            ==> stop >= t.intervals[0].start && start <= t.maxstop
  {
    if t.intervals == [] || stop < t.intervals[0].start || start > t.maxstop {
      assert forall i | 0 <= i < |t.intervals| :: !Hit(t.intervals[i], start, stop);
      NoHits(t.intervals[k..], start, stop);
    }
  }
}
