/** Bounded lists of what was used last, stated against the history of all uses. */
module RecentlyUsed {

  /** When `x` was used last, -1 if never. */
  function LastUse(uses: seq<nat>, x: nat): (k: int)
    ensures -1 <= k < |uses|
    ensures k >= 0 ==> uses[k] == x
    ensures forall i :: k < i < |uses| ==> uses[i] != x
  {
    if uses == [] then -1
    else if uses[|uses| - 1] == x then |uses| - 1
    else LastUse(uses[..|uses| - 1], x)
  }

  /** Latest first, and so each once. */
  ghost predicate ByLastUse(s: seq<nat>, uses: seq<nat>) {
    forall i, j :: 0 <= i < j < |s| ==> LastUse(uses, s[i]) > LastUse(uses, s[j])
  }

  /** All of `s` were used later than `x`. */
  ghost predicate UsedBefore(x: nat, s: seq<nat>, uses: seq<nat>) {
    forall i :: 0 <= i < |s| ==> LastUse(uses, s[i]) > LastUse(uses, x)
  }

  /** `s` holds the `limit` elements that were used last, each once, the latest first. */
  ghost predicate LatestUses(s: seq<nat>, uses: seq<nat>, limit: nat) {
    && |s| <= limit
    && (forall i :: 0 <= i < |s| ==> s[i] in uses)
    && ByLastUse(s, uses)
    && (forall x <- uses :: x !in s ==> |s| == limit && UsedBefore(x, s, uses))
  }

  lemma UseSnoc(uses: seq<nat>, x: nat)
    ensures LastUse(uses + [x], x) == |uses|
    ensures forall y :: y != x ==> LastUse(uses + [x], y) == LastUse(uses, y)
    ensures forall y :: y in uses + [x] <==> y in uses || y == x
  {
    assert (uses + [x])[..|uses|] == uses;
  }

  lemma LatestDistinct(s: seq<nat>, uses: seq<nat>, limit: nat)
    requires LatestUses(s, uses, limit)
    ensures |s| <= limit && forall i, j :: 0 <= i < j < |s| ==> s[i] != s[j]
  {
    forall i, j | 0 <= i < j < |s|
      ensures s[i] != s[j]
    {
      assert LastUse(uses, s[i]) > LastUse(uses, s[j]);
    }
  }

  lemma NoUses(limit: nat)
    ensures LatestUses([], [], limit)
  {
  }

  /** An element of the list is used again. */
  lemma UsedAgain(s: seq<nat>, uses: seq<nat>, limit: nat, k: nat)
    requires LatestUses(s, uses, limit) && k < |s|
    ensures LatestUses([s[k]] + s[..k] + s[k + 1..], uses + [s[k]], limit)
  {
    hide LatestUses;
    var t := [s[k]] + s[..k] + s[k + 1..];
    assert FrontMoved(s, t, k);
    MovedToFront(s, t, uses, uses + [s[k]], limit, k);
  }

  /** `t` is `s` with element `k` moved to the front. */
  ghost predicate FrontMoved(s: seq<nat>, t: seq<nat>, k: nat) {
    && k < |s| == |t|
    && forall i :: 0 <= i < |t| ==> t[i] == s[if i == 0 then k else if i <= k then i - 1 else i]
  }

  lemma MovedToFront(s: seq<nat>, t: seq<nat>, uses: seq<nat>, later: seq<nat>, limit: nat, k: nat)
    requires LatestUses(s, uses, limit) && FrontMoved(s, t, k) && later == uses + [s[k]]
    ensures LatestUses(t, later, limit)
  {
    hide LastUse, ByLastUse, UsedBefore;
    MovedMembers(s, t, k);
    MovedOrder(s, t, uses, later, k);
    UseSnoc(uses, s[k]);
    forall x <- later | x !in t
      ensures |t| == limit && UsedBefore(x, t, later)
    {
      MovedBefore(s, t, uses, later, k, x);
    }
  }

  lemma MovedMembers(s: seq<nat>, t: seq<nat>, k: nat)
    requires FrontMoved(s, t, k)
    ensures |t| == |s| && t[0] == s[k] && forall x :: x in t <==> x in s
  {
    forall x <- s
      ensures x in t
    {
      var i :| 0 <= i < |s| && s[i] == x;
      assert t[if i < k then i + 1 else if i == k then 0 else i] == x;
    }
  }

  lemma MovedOrder(s: seq<nat>, t: seq<nat>, uses: seq<nat>, later: seq<nat>, k: nat)
    requires ByLastUse(s, uses) && FrontMoved(s, t, k) && later == uses + [s[k]]
    ensures ByLastUse(t, later)
  {
    hide LastUse;
    UseSnoc(uses, s[k]);
    forall i, j | 0 <= i < j < |t|
      ensures LastUse(later, t[i]) > LastUse(later, t[j])
    {
      var m, n := if i <= k then i - 1 else i, if j <= k then j - 1 else j;
      assert LastUse(uses, s[n]) != LastUse(uses, s[k]);
      if i > 0 {
        assert LastUse(uses, s[m]) != LastUse(uses, s[k]);
        assert LastUse(uses, s[m]) > LastUse(uses, s[n]);
      }
    }
  }

  lemma MovedBefore(s: seq<nat>, t: seq<nat>, uses: seq<nat>, later: seq<nat>, k: nat, x: nat)
    requires UsedBefore(x, s, uses) && ByLastUse(s, uses) && FrontMoved(s, t, k) && later == uses + [s[k]] && x != s[k]
    ensures UsedBefore(x, t, later)
  {
    hide LastUse;
    UseSnoc(uses, s[k]);
    forall i | 0 <= i < |t|
      ensures LastUse(later, t[i]) > LastUse(later, x)
    {
      if i > 0 {
        var m := if i <= k then i - 1 else i;
        assert LastUse(uses, s[m]) != LastUse(uses, s[k]);
        assert LastUse(uses, s[m]) > LastUse(uses, x);
      }
    }
  }

  /** A new element is used; the one used longest ago makes room for it. */
  lemma UsedFirst(s: seq<nat>, uses: seq<nat>, limit: nat, x: nat)
    requires LatestUses(s, uses, limit) && x !in uses && limit > 0
    ensures LatestUses(if |s| < limit then [x] + s else [x] + s[..limit - 1], uses + [x], limit)
  {
    hide LastUse;
    var t := if |s| < limit then [x] + s else [x] + s[..limit - 1];
    assert |s| <= limit;
    forall i | 0 <= i < |t|
      ensures t[i] == if i == 0 then x else s[i - 1]
    {
    }
    hide LatestUses;
    PutInFront(s, t, uses, uses + [x], limit, x);
  }

  lemma PutInFront(s: seq<nat>, t: seq<nat>, uses: seq<nat>, later: seq<nat>, limit: nat, x: nat)
    requires LatestUses(s, uses, limit) && x !in uses && limit > 0 && later == uses + [x]
    requires |t| == if |s| < limit then |s| + 1 else limit
    requires forall i :: 0 <= i < |t| ==> t[i] == if i == 0 then x else s[i - 1]
    ensures LatestUses(t, later, limit)
  {
    hide LastUse, ByLastUse, UsedBefore;
    PutOrder(s, t, uses, later, x);
    UseSnoc(uses, x);
    forall j | 0 <= j < |t| - 1
      ensures s[j] in t
    {
      assert t[j + 1] == s[j];
    }
    forall y <- later | y !in t
      ensures |t| == limit && UsedBefore(y, t, later)
    {
      assert t[0] != y && y in uses;
      if y in s {
        var j :| 0 <= j < |s| && s[j] == y;
        assert j == |s| - 1 == |t| - 1;
        LastOfList(s, uses);
        PutBefore(s, t, uses, later, x, y);
      } else {
        BeforeAll(s, uses, |t| - 1, y);
        PutBefore(s, t, uses, later, x, y);
      }
    }
  }

  lemma BeforeAll(s: seq<nat>, uses: seq<nat>, n: nat, y: nat)
    requires UsedBefore(y, s, uses) && n <= |s|
    ensures UsedBefore(y, s[..n], uses)
  {
  }

  lemma LastOfList(s: seq<nat>, uses: seq<nat>)
    requires ByLastUse(s, uses) && s != []
    ensures UsedBefore(s[|s| - 1], s[..|s| - 1], uses)
  {
  }

  lemma PutOrder(s: seq<nat>, t: seq<nat>, uses: seq<nat>, later: seq<nat>, x: nat)
    requires ByLastUse(s, uses) && x !in uses && later == uses + [x] && |t| <= |s| + 1
    requires forall i :: 0 <= i < |s| ==> s[i] in uses
    requires forall i :: 0 <= i < |t| ==> t[i] == if i == 0 then x else s[i - 1]
    ensures ByLastUse(t, later)
  {
    hide LastUse;
    UseSnoc(uses, x);
    forall i, j | 0 <= i < j < |t|
      ensures LastUse(later, t[i]) > LastUse(later, t[j])
    {
      assert s[j - 1] in uses;
      if i > 0 {
        assert s[i - 1] in uses;
        assert LastUse(uses, s[i - 1]) > LastUse(uses, s[j - 1]);
      }
    }
  }

  lemma PutBefore(s: seq<nat>, t: seq<nat>, uses: seq<nat>, later: seq<nat>, x: nat, y: nat)
    requires x !in uses && later == uses + [x] && 0 < |t| <= |s| + 1 && y != x
    requires forall i :: 0 <= i < |s| ==> s[i] in uses
    requires forall i :: 0 <= i < |t| ==> t[i] == if i == 0 then x else s[i - 1]
    requires UsedBefore(y, s[..|t| - 1], uses)
    ensures UsedBefore(y, t, later)
  {
    hide LastUse;
    UseSnoc(uses, x);
    forall i | 0 <= i < |t|
      ensures LastUse(later, t[i]) > LastUse(later, y)
    {
      if i > 0 {
        assert s[i - 1] in uses && s[..|t| - 1][i - 1] == s[i - 1];
      }
    }
  }

  /** The list is determined by the history. */
  lemma {:induction false} LatestUnique(s: seq<nat>, t: seq<nat>, uses: seq<nat>, limit: nat, n: nat)
    requires LatestUses(s, uses, limit) && LatestUses(t, uses, limit) && n <= |s|
    ensures n <= |t| && s[..n] == t[..n]
  {
    hide LastUse;
    if n > 0 {
      LatestUnique(s, t, uses, limit, n - 1);
      var k := n - 1;
      if k == |t| {
        NextOf(t, s, uses, limit, k);
      } else {
        NextOf(s, t, uses, limit, k);
        NextOf(t, s, uses, limit, k);
        SameUse(uses, s[k], t[k]);
      }
      assert s[..n] == s[..k] + [s[k]] && t[..n] == t[..k] + [t[k]];
    }
  }

  /** Behind equal beginnings, no element of the other list was used later than the next one. */
  lemma NextOf(s: seq<nat>, t: seq<nat>, uses: seq<nat>, limit: nat, k: nat)
    requires LatestUses(s, uses, limit) && LatestUses(t, uses, limit) && k <= |s| && k < |t| && s[..k] == t[..k]
    ensures k < |s| && LastUse(uses, s[k]) >= LastUse(uses, t[k])
  {
    hide LastUse;
    forall i | 0 <= i < k
      ensures s[i] != t[k]
    {
      assert s[i] == s[..k][i] == t[..k][i] == t[i];
      assert LastUse(uses, t[i]) > LastUse(uses, t[k]);
    }
    if t[k] in s {
      var j :| 0 <= j < |s| && s[j] == t[k];
    }
  }

  lemma SameUse(uses: seq<nat>, x: nat, y: nat)
    requires x in uses && y in uses && LastUse(uses, x) == LastUse(uses, y)
    ensures x == y
  {
  }
}
