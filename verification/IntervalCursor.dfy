/**
 The linked interval tree: construction with parent pointers, the recursive search, and the
 cursor that enumerates the same intervals by climbing parent pointers.
 */
module IntervalCursor {
  import opened IntervalTree

  class TreeNode {
    var intervals: seq<Interval>
    var left: TreeNode?
    var right: TreeNode?
    var parent: TreeNode?
    var center: nat
    var maxstop: nat
    ghost var model: Tree         // the subtree as a value
    ghost var Repr: set<object>

    ghost predicate Valid()
      reads this, Repr
      ensures Valid() ==> this in Repr && model.Node?
      decreases Repr
    {
      && this in Repr
      && (left != null ==> left in Repr && left.Repr <= Repr && this !in left.Repr && left.Valid() && left.parent == this)
      && (right != null ==> right in Repr && right.Repr <= Repr && this !in right.Repr && right.Valid() && right.parent == this)
      && (left != null && right != null ==> left.Repr !! right.Repr)
      && model == Node(intervals, ModelOf(left), ModelOf(right), center, maxstop)
    }

    static ghost function ModelOf(n: TreeNode?): Tree
      reads n
    {
      if n == null then Nil else n.model
    }

    /** Sorts, then splits the intervals around the median start; the children point back to this node. */
    constructor (ivals: seq<Interval>, depth: nat, minbucket: nat, leftextent: nat, rightextent: nat, maxbucket: nat, p: TreeNode?)
      requires depth > 0 && minbucket > 0 && maxbucket > 0
      ensures Valid() && fresh(Repr) && parent == p
      ensures model == Build(ivals, depth, minbucket, leftextent, rightextent, maxbucket)
      decreases depth, 1
    {
      left, right, parent, center, maxstop, intervals := null, null, p, 0, 0, [];
      Repr, model := {this}, Nil;
      new;
      hide SortByStart, MaxStop, Build, Inner, IsBucket, Valid;
      var s := if leftextent == 0 && rightextent == 0 then SortByStart(ivals) else ivals;
      if IsBucket(|s|, depth, minbucket, maxbucket) {
        BuildLeaf(ivals, depth, minbucket, leftextent, rightextent, maxbucket, s);
        Bucket(s);
      } else {
        var leftp, rightp := leftextent, rightextent;
        if leftextent == 0 && rightextent == 0 {
          leftp, rightp := s[0].start, MaxStop(s);
        }
        BuildInner(ivals, depth, minbucket, leftextent, rightextent, maxbucket, s, leftp, rightp);
        center := s[|s| / 2].start;
        SplitAtCenter(s, depth - 1, minbucket, leftp, rightp, maxbucket);
      }
    }

    method SplitAtCenter(s: seq<Interval>, depth: nat, minbucket: nat, leftp: nat, rightp: nat, maxbucket: nat)
      requires depth > 0 && minbucket > 0 && maxbucket > 0
      requires intervals == [] && maxstop == 0 && left == null && right == null && Repr == {this}
      modifies this
      ensures Valid() && (forall o <- Repr :: o == this || fresh(o)) && parent == old(parent)
      ensures model == Inner(s, depth, minbucket, leftp, old(center), rightp, maxbucket)
      decreases depth, 3
    {
      hide Select, MaxStop, BuildChild, Build, Valid;
      var lefts, rights := Partition(s);
      var l := NewChild(lefts, depth, minbucket, leftp, center, maxbucket);
      var r := NewChild(rights, depth, minbucket, center, rightp, maxbucket);
      Link(l, r);
    }

    /** Makes the two subtrees the children of this node. */
    method Link(l: TreeNode?, r: TreeNode?)
      requires Repr == {this}
      requires l != null ==> l.Valid() && this !in l.Repr && l.parent == this
      requires r != null ==> r.Valid() && this !in r.Repr && r.parent == this
      requires l != null && r != null ==> l.Repr !! r.Repr
      modifies this
      ensures Valid() && parent == old(parent)
      ensures Repr == {this} + (if l == null then {} else l.Repr) + if r == null then {} else r.Repr
      ensures model == Node(old(intervals), ModelOf(l), ModelOf(r), old(center), old(maxstop))
    {
      left, right := l, r;
      Repr := {this} + (if l == null then {} else l.Repr) + if r == null then {} else r.Repr;
      model := Node(intervals, ModelOf(left), ModelOf(right), center, maxstop);
    }

    /** A child for a side of the split, none for an empty side. */
    method NewChild(ivals: seq<Interval>, depth: nat, minbucket: nat, leftextent: nat, rightextent: nat, maxbucket: nat)
      returns (child: TreeNode?)
      requires depth > 0 && minbucket > 0 && maxbucket > 0
      ensures child != null ==> child.Valid() && fresh(child.Repr) && child.parent == this
      ensures ModelOf(child) == BuildChild(ivals, depth, minbucket, leftextent, rightextent, maxbucket)
      decreases depth, 2
    {
      hide Build;
      if ivals == [] {
        return null;
      }
      child := new TreeNode(ivals, depth, minbucket, leftextent, rightextent, maxbucket, this);
    }

    /** A node that keeps all its intervals. */
    method Bucket(s: seq<Interval>)
      requires left == null && right == null && Repr == {this} && center == 0
      modifies this
      ensures Valid() && Repr == {this} && parent == old(parent) && model == Node(s, Nil, Nil, 0, MaxStop(s))
    {
      intervals := s;
      maxstop := MaxStop(s);
      model := Node(intervals, Nil, Nil, center, maxstop);
    }

    /** The loop of the constructor that keeps, or passes to a side, each interval. */
    method Partition(s: seq<Interval>) returns (lefts: seq<Interval>, rights: seq<Interval>)
      requires intervals == [] && maxstop == 0
      modifies this`intervals, this`maxstop
      ensures intervals == Select(s, center, Stays) && maxstop == MaxStop(intervals)
      ensures lefts == Select(s, center, GoesLeft) && rights == Select(s, center, GoesRight)
    {
      hide Select, MaxStop;
      lefts, rights := [], [];
      EmptySelect(center);
      for i := 0 to |s|
        invariant intervals == Select(s[..i], center, Stays) && maxstop == MaxStop(intervals)
        invariant lefts == Select(s[..i], center, GoesLeft) && rights == Select(s[..i], center, GoesRight)
      {
        var interval := s[i];
        SelectTake(s, i, center, Stays);
        SelectTake(s, i, center, GoesLeft);
        SelectTake(s, i, center, GoesRight);
        if interval.stop < center {
          lefts := lefts + [interval];
        } else if interval.start > center {
          rights := rights + [interval];
        } else {
          MaxStopSnoc(intervals, interval);
          intervals := intervals + [interval];
          if interval.stop > maxstop {
            maxstop := interval.stop;
          }
        }
      }
      assert s[..|s|] == s;
    }

    lemma ChildrenValid()
      requires Valid()
      ensures model == Node(intervals, ModelOf(left), ModelOf(right), center, maxstop)
      ensures left != null ==> left.Valid() && left.Repr < Repr
      ensures right != null ==> right.Valid() && right.Repr < Repr
    {
    }

    method FindOverlapping(start: nat, stop: nat, overlapping: seq<Interval>) returns (r: seq<Interval>)
      requires Valid()
      ensures r == overlapping + Search(model, start, stop)
      decreases Repr
    {
      hide Search, Hits, Ordered, Valid;
      ChildrenValid();
      SearchUnfolds(model, start, stop);
      assert intervals[..0] == [];
      HitsEmpty(start, stop);
      r := overlapping;
      if intervals != [] && !(stop < intervals[0].start) {
        for i := 0 to |intervals|
          invariant r == overlapping + Hits(intervals[..i], start, stop)
        {
          HitsTake(intervals, i, start, stop);
          if intervals[i].stop >= start && intervals[i].start <= stop {
            r := r + [intervals[i]];
          }
        }
        assert intervals[..|intervals|] == intervals;
      }
      assert r == overlapping + OwnHits(model, start, stop);
      if left != null && start <= center {
        r := left.FindOverlapping(start, stop, r);
      }
      if right != null && stop >= center {
        r := right.FindOverlapping(start, stop, r);
      }
    }

    // ---------- the cursor ----------

    /** A chain of child links from this node, the root. */
    ghost predicate IsPath(path: seq<TreeNode>)
      reads this, Repr
      ensures IsPath(path) ==> path != []
    {
      && path != [] && path[0] == this
      && (forall n <- path :: n in Repr && n.Repr <= Repr && n.Valid() && Ordered(n.model))
      && (forall i :: 0 < i < |path| ==> path[i] == path[i - 1].left || path[i] == path[i - 1].right)
    }

    ghost function Trail(path: seq<TreeNode>): (r: seq<Frame>)
      reads this, Repr
      requires IsPath(path)
      ensures |r| == |path| - 1 && forall f <- r :: f.tree.Node?
      decreases |path|
    {
      if |path| == 1 then []
      else
        PrefixIsPath(path);
        var p := path[|path| - 2];
        Trail(path[..|path| - 1]) + [Frame(p.model, path[|path| - 1] == p.left)]
    }

    lemma PrefixIsPath(path: seq<TreeNode>)
      requires IsPath(path) && |path| > 1
      ensures IsPath(path[..|path| - 1]) && path[|path| - 2].model.Node?
    {
      hide Ordered, Valid;
      var up := path[..|path| - 1];
      assert forall n <- up :: n in path;
      assert up[0] == path[0];
      assert path[|path| - 2] in path;
    }

    lemma ExtendPath(path: seq<TreeNode>, n: TreeNode)
      requires IsPath(path)
      requires var p := path[|path| - 1]; n == p.left || n == p.right
      ensures IsPath(path + [n])
      ensures var p := path[|path| - 1]; Trail(path + [n]) == Trail(path) + [Frame(p.model, n == p.left)]
    {
      hide Ordered;
      var p := path[|path| - 1];
      assert p in path;
      OrderedChildren(p.model);
      assert n.Valid() && Ordered(n.model);
      assert (path + [n])[..|path|] == path;
    }

    lemma OrderedChildren(t: Tree)
      requires t.Node? && Ordered(t)
      ensures Ordered(t.left) && Ordered(t.right)
    {
    }

    lemma ShortenPath(path: seq<TreeNode>)
      requires IsPath(path) && |path| > 1
      ensures IsPath(path[..|path| - 1])
      ensures var n, p := path[|path| - 1], path[|path| - 2];
              && n.parent == p && p.Valid()
              && Trail(path) == Trail(path[..|path| - 1]) + [Frame(p.model, n == p.left)]
    {
      hide Ordered;
      PrefixIsPath(path);
      assert path[|path| - 2] in path;
      assert path[|path| - 1] == path[|path| - 2].left || path[|path| - 1] == path[|path| - 2].right;
    }

    /** Facts about the node at the end of a path. */
    lemma EndOfPath(path: seq<TreeNode>)
      requires IsPath(path)
      ensures var n := path[|path| - 1];
              && n.Valid() && Ordered(n.model)
              && n.model == Node(n.intervals, ModelOf(n.left), ModelOf(n.right), n.center, n.maxstop)
              && (n.left != null ==> n.left.model.Node? && Ordered(n.left.model) && n.left != n.right)
              && (n.right != null ==> n.right.model.Node? && Ordered(n.right.model))
    {
      assert path[|path| - 1] in path;
    }

    ghost predicate AtHit(path: seq<TreeNode>, k: nat, start: nat, stop: nat)
      reads this, Repr
    {
      IsPath(path) && k < |path[|path| - 1].intervals| && Hit(path[|path| - 1].intervals[k], start, stop)
    }

    /** What the cursor still yields from interval `k` of the node at the end of `path`. */
    ghost function Yield(path: seq<TreeNode>, k: nat, start: nat, stop: nat): seq<Interval>
      reads this, Repr
      requires IsPath(path) && k <= |path[|path| - 1].intervals|
    {
      EndOfPath(path);
      Rest(path[|path| - 1].model, Trail(path), k, start, stop)
    }

    ghost function Work(path: seq<TreeNode>): nat
      reads this, Repr
      requires IsPath(path)
    {
      Size(path[|path| - 1].model) + WorkAfter(Trail(path))
    }

    /**
     One step of the cursor, from a hit or (with `checkCurrent`) from the first interval of a node:
     the position returned is the next hit, with nothing skipped; null means that nothing is left.
     */
    method OverlapIteratorNext(start: nat, stop: nat, node: TreeNode, index: nat, checkCurrent: bool, ghost path: seq<TreeNode>)
      returns (n: TreeNode?, k: nat, ghost newPath: seq<TreeNode>)
      requires parent == null
      requires IsPath(path) && path[|path| - 1] == node
      requires if checkCurrent then index == 0 else AtHit(path, index, start, stop)
      ensures n == null ==> Yield(path, if checkCurrent then 0 else index + 1, start, stop) == []
      ensures n != null ==> AtHit(newPath, k, start, stop) && newPath[|newPath| - 1] == n
      ensures n != null ==> Yield(newPath, k, start, stop)
                            == Yield(path, if checkCurrent then 0 else index + 1, start, stop)
      decreases Work(path), 1
    {
      hide Search, ChildHits, After, WorkAfter, Size, Ordered, Hits, IsPath, Trail, Valid;
      EndOfPath(path);
      k := if checkCurrent then index else index + 1;
      ghost var from := k;
      GuardExact(node.model, if checkCurrent then |node.intervals| else index, start, stop);
      GuardExact(node.model, k, start, stop);
      if node.intervals != [] && !(stop < node.intervals[0].start) && !(start > node.maxstop) {
        while k < |node.intervals|
          invariant from <= k <= |node.intervals|
          invariant Hits(node.intervals[k..], start, stop) == Hits(node.intervals[from..], start, stop)
        {
          var interval := node.intervals[k];
          if interval.stop >= start && interval.start <= stop {
            return node, k, path;
          }
          HitsFrom(node.intervals, k, start, stop);
          k := k + 1;
        }
        NoHits(node.intervals[k..], start, stop);
      }
      n, k, newPath := NextNode(start, stop, node, path);
    }

    lemma YieldEnd(path: seq<TreeNode>, start: nat, stop: nat)
      requires IsPath(path)
      ensures var n := path[|path| - 1];
              && Yield(path, |n.intervals|, start, stop)
                 == ChildHits(n.model, start, stop) + After(Trail(path), start, stop)
              && ((n.left == null || start > n.center) && (n.right == null || stop < n.center)
                  ==> ChildHits(n.model, start, stop) == [])
    {
      hide IsPath, Trail, After, Search, Ordered, Valid;
      EndOfPath(path);
      var n := path[|path| - 1];
      assert n.intervals[|n.intervals|..] == [];
    }

    lemma EnterLeft(path: seq<TreeNode>, start: nat, stop: nat)
      requires IsPath(path)
      requires var n := path[|path| - 1]; n.left != null && start <= n.center
      ensures var n := path[|path| - 1];
              && IsPath(path + [n.left]) && Work(path + [n.left]) < Work(path)
              && Yield(path + [n.left], 0, start, stop) == Yield(path, |n.intervals|, start, stop)
    {
      hide IsPath, Trail, After, WorkAfter, Size, Search, Ordered, Valid, Hits, ChildHits, Rest;
      EndOfPath(path);
      ExtendPath(path, path[|path| - 1].left);
      DescendLeft(path[|path| - 1].model, Trail(path), start, stop);
      YieldEnd(path, start, stop);
    }

    lemma EnterRight(path: seq<TreeNode>, start: nat, stop: nat)
      requires IsPath(path)
      requires var n := path[|path| - 1]; n.right != null && stop >= n.center && (n.left == null || start > n.center)
      ensures var n := path[|path| - 1];
              && IsPath(path + [n.right]) && Work(path + [n.right]) < Work(path)
              && Yield(path + [n.right], 0, start, stop) == Yield(path, |n.intervals|, start, stop)
    {
      hide IsPath, Trail, After, WorkAfter, Size, Search, Ordered, Valid, Hits, ChildHits, Rest;
      EndOfPath(path);
      ExtendPath(path, path[|path| - 1].right);
      DescendRight(path[|path| - 1].model, Trail(path), start, stop);
      YieldEnd(path, start, stop);
    }

    /** Past the intervals of a node: its children, or the nearest pending sibling. */
    method NextNode(start: nat, stop: nat, node: TreeNode, ghost path: seq<TreeNode>)
      returns (n: TreeNode?, k: nat, ghost newPath: seq<TreeNode>)
      requires parent == null
      requires IsPath(path) && path[|path| - 1] == node
      ensures n == null ==> Yield(path, |node.intervals|, start, stop) == []
      ensures n != null ==> AtHit(newPath, k, start, stop) && newPath[|newPath| - 1] == n
      ensures n != null ==> Yield(newPath, k, start, stop) == Yield(path, |node.intervals|, start, stop)
      decreases Work(path), 0
    {
      hide IsPath, Trail, After, WorkAfter, Size, Search, Ordered, Valid, Hits, ChildHits, Rest, Yield, Work;
      if node.left != null && start <= node.center {
        EnterLeft(path, start, stop);
        n, k, newPath := OverlapIteratorNext(start, stop, node.left, 0, true, path + [node.left]);
        return;
      }
      if node.right != null && stop >= node.center {
        EnterRight(path, start, stop);
        n, k, newPath := OverlapIteratorNext(start, stop, node.right, 0, true, path + [node.right]);
        return;
      }
      YieldEnd(path, start, stop);
      var sibling, siblingPath := ClimbToSibling(start, stop, node, path);
      if sibling == null {
        return null, 0, [];
      }
      WorkSplits(path);
      n, k, newPath := OverlapIteratorNext(start, stop, sibling, 0, true, siblingPath);
    }

    lemma WorkSplits(path: seq<TreeNode>)
      requires IsPath(path)
      ensures WorkAfter(Trail(path)) < Work(path)
    {
      hide IsPath, Trail, WorkAfter, Valid, Ordered;
      EndOfPath(path);
    }

    /** Up the parent links to the first ancestor whose right child is still to be searched. */
    method ClimbToSibling(start: nat, stop: nat, node: TreeNode, ghost path: seq<TreeNode>)
      returns (sibling: TreeNode?, ghost siblingPath: seq<TreeNode>)
      requires parent == null
      requires IsPath(path) && path[|path| - 1] == node
      ensures sibling == null ==> After(Trail(path), start, stop) == []
      ensures sibling != null ==>
                && IsPath(siblingPath) && siblingPath[|siblingPath| - 1] == sibling
                && Yield(siblingPath, 0, start, stop) == After(Trail(path), start, stop)
                && Work(siblingPath) <= WorkAfter(Trail(path))
    {
      hide IsPath, Trail, Ordered, Valid, Search, Hits, ChildHits, Rest, Size, After, WorkAfter;
      var n := node;
      ghost var p := path;
      while true
        invariant IsPath(p) && p[|p| - 1] == n
        invariant After(Trail(p), start, stop) == After(Trail(path), start, stop)
        invariant WorkAfter(Trail(p)) <= WorkAfter(Trail(path))
        decreases |p|
      {
        ParentOfPath(p);
        if n.parent == null {
          return null, [];
        }
        ghost var up := p[..|p| - 1];
        if n == n.parent.left && n.parent.right != null && stop >= n.parent.center {
          Cross(p, start, stop);
          return n.parent.right, up + [n.parent.right];
        }
        ClimbUp(Trail(up), Frame(n.parent.model, n == n.parent.left), start, stop);
        n, p := n.parent, up;
      }
    }

    /** The parent link of the end of a path is the node before it; only the root has none. */
    lemma ParentOfPath(path: seq<TreeNode>)
      requires parent == null && IsPath(path)
      ensures var n := path[|path| - 1];
              if |path| == 1 then n.parent == null && forall start, stop :: After(Trail(path), start, stop) == []
              else
                var up := path[..|path| - 1];
                && IsPath(up) && n.parent == up[|up| - 1]
                && n.parent.model == Node(n.parent.intervals, ModelOf(n.parent.left), ModelOf(n.parent.right), n.parent.center, n.parent.maxstop)
                && Trail(path) == Trail(up) + [Frame(n.parent.model, n == n.parent.left)]
    {
      if |path| > 1 {
        ShortenPath(path);
        EndOfPath(path[..|path| - 1]);
      }
    }

    lemma Cross(path: seq<TreeNode>, start: nat, stop: nat)
      requires parent == null && IsPath(path) && |path| > 1
      requires var n := path[|path| - 1];
               n.parent != null && n == n.parent.left && n.parent.right != null && stop >= n.parent.center
      ensures var n, up := path[|path| - 1], path[..|path| - 1];
              && IsPath(up + [n.parent.right])
              && Yield(up + [n.parent.right], 0, start, stop) == After(Trail(path), start, stop)
              && Work(up + [n.parent.right]) <= WorkAfter(Trail(path))
    {
      hide IsPath, Trail, Ordered, Valid, Search, Hits, ChildHits, Rest, Size, After, WorkAfter;
      var n, up := path[|path| - 1], path[..|path| - 1];
      ParentOfPath(path);
      EndOfPath(up);
      ExtendPath(up, n.parent.right);
      CrossOver(n.parent.model, Trail(up), start, stop);
    }

    /** Collecting with the cursor gives the result of the recursive search, in the same order. */
    method FindOverlappingWithIterator(start: nat, stop: nat, overlapping: seq<Interval>) returns (r: seq<Interval>)
      requires parent == null && Valid() && Ordered(model)
      ensures r == overlapping + Search(model, start, stop)
    {
      hide Ordered, Valid, Search, Hits, ChildHits, Rest, After, IsPath;
      r := overlapping;
      ghost var path := [this];
      RootPath();
      var n, k;
      n, k, path := OverlapIteratorNext(start, stop, this, 0, true, path);
      ghost var pending := if n == null then [] else Yield(path, k, start, stop);
      ghost var left := |pending|;
      while n != null
        invariant n != null ==> AtHit(path, k, start, stop) && path[|path| - 1] == n && pending == Yield(path, k, start, stop)
        invariant n == null ==> pending == []
        invariant r + pending == overlapping + Search(model, start, stop)
        invariant left == |pending|
        decreases left, if n == null then 0 else 1
      {
        YieldHead(path, k, start, stop);
        r := r + [n.intervals[k]];
        n, k, path := OverlapIteratorNext(start, stop, n, k, false, path);
        pending := pending[1..];
        left := left - 1;
      }
    }

    lemma RootPath()
      requires Valid() && Ordered(model)
      ensures IsPath([this])
      ensures forall start, stop :: Yield([this], 0, start, stop) == Search(model, start, stop)
    {
      forall start, stop
        ensures Yield([this], 0, start, stop) == Search(model, start, stop)
      {
        hide Search, Ordered, Hits, ChildHits;
        RestFromStart(model, [], start, stop);
      }
    }

    lemma YieldHead(path: seq<TreeNode>, k: nat, start: nat, stop: nat)
      requires AtHit(path, k, start, stop)
      ensures Yield(path, k, start, stop) == [path[|path| - 1].intervals[k]] + Yield(path, k + 1, start, stop)
    {
      hide IsPath, Trail, Ordered, Valid, Search, Hits, ChildHits, After;
      EndOfPath(path);
      HitsFrom(path[|path| - 1].intervals, k, start, stop);
    }
  }
}
