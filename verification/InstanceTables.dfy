/**
 The table that maps the k-th dynamic instance of an instruction to its iteration: ranges of
 instances, each with its first iteration and a constant number of instances per iteration.
 */
module InstanceTables {
  import opened Sequences
  import opened Divisibility

  datatype InstanceEntry = InstanceEntry(start: int, end: int, firstIteration: int, perIteration: int)

  function NumIterations(e: InstanceEntry): int
    requires e.perIteration != 0
  {
    (e.end - e.start + 1) / e.perIteration
  }

  /** The entry of iterations `first` to `last`, joined to the one before when nothing separates them. */
  function AddRow(t: seq<InstanceEntry>, first: int, last: int, count: int): seq<InstanceEntry>
    requires count > 0
  {
    var added := count * (last - first + 1);
    if t == [] then [InstanceEntry(0, added - 1, first, count)]
    else
      var prev := t[|t| - 1];
      if prev.perIteration == count && first == prev.firstIteration + NumIterations(prev) then
        t[|t| - 1 := prev.(end := prev.end + added)]
      else
        t + [InstanceEntry(prev.end + 1, prev.end + added, first, count)]
  }

  function Ends(t: seq<InstanceEntry>): (r: seq<int>)
    ensures |r| == |t|
    ensures forall i :: 0 <= i < |t| ==> r[i] == t[i].end
  {
    seq(|t|, i requires 0 <= i < |t| => t[i].end)
  }

  /** The iteration of instance `k`, which must be in the table. */
  function Lookup(t: seq<InstanceEntry>, k: int): int
    requires LowerBound(Ends(t), k) < |t| && t[LowerBound(Ends(t), k)].perIteration != 0
  {
    var e := t[LowerBound(Ends(t), k)];
    e.firstIteration + (k - e.start) / e.perIteration
  }

  // ---------- what the table stands for ----------

  /** The instances in the iterations before `n`, when iteration `i` has `c(i)` of them. */
  ghost function Prefix(c: int -> nat, n: int): nat {
    if n <= 0 then 0 else Prefix(c, n - 1) + c(n - 1)
  }

  ghost predicate Constant(c: int -> nat, first: int, n: int, count: int) {
    forall i :: first <= i < first + n ==> c(i) == count
  }

  lemma {:induction false} PrefixConstant(c: int -> nat, first: int, n: int, count: int)
    requires 0 <= first && 0 <= n && Constant(c, first, n, count)
    ensures Prefix(c, first + n) == Prefix(c, first) + count * n
    decreases n
  {
    if n > 0 {
      PrefixConstant(c, first, n - 1, count);
      assert count * n == count * (n - 1) + count;
    }
  }

  lemma {:induction false} PrefixMonotone(c: int -> nat, m: int, n: int)
    requires m <= n
    ensures Prefix(c, m) <= Prefix(c, n)
    decreases n - m
  {
    if m < n {
      PrefixMonotone(c, m, n - 1);
    }
  }

  /** The entry covers whole iterations, all with its number of instances, and starts at the right instance. */
  ghost predicate EntryExact(e: InstanceEntry, c: int -> nat, m: nat, limit: int) {
    && e.perIteration > 0 && m > 0 && e.end - e.start + 1 == e.perIteration * m
    && 0 <= e.firstIteration && e.firstIteration + m <= limit
    && e.start == Prefix(c, e.firstIteration)
    && Constant(c, e.firstIteration, m, e.perIteration)
  }

  ghost predicate EntryOk(e: InstanceEntry, c: int -> nat, limit: int)
    ensures EntryOk(e, c, limit) ==> e.perIteration > 0
  {
    e.perIteration > 0 && NumIterations(e) > 0 && EntryExact(e, c, NumIterations(e), limit)
  }

  /** Consecutive entries from instance 0, exact for all iterations below `limit`. */
  ghost predicate Exact(t: seq<InstanceEntry>, c: int -> nat, limit: int) {
    && limit >= 0
    && (forall i :: 0 <= i < |t| ==> EntryOk(t[i], c, limit))
    && (t != [] ==> t[0].start == 0)
    && (forall i :: 0 < i < |t| ==> t[i].start == t[i - 1].end + 1)
    && Prefix(c, limit) == (if t == [] then 0 else t[|t| - 1].end + 1)
  }

  lemma EntryFromExact(e: InstanceEntry, c: int -> nat, m: nat, limit: int)
    requires EntryExact(e, c, m, limit)
    ensures EntryOk(e, c, limit) && NumIterations(e) == m
  {
    MultipleDivides(e.perIteration, m);
  }

  lemma EntryUpTo(e: InstanceEntry, c: int -> nat, limit: int, later: int)
    requires EntryOk(e, c, limit) && limit <= later
    ensures EntryOk(e, c, later)
  {
  }

  lemma EmptyExact(c: int -> nat)
    ensures Exact([], c, 0)
  {
  }

  /** Iterations without instances need no entry. */
  lemma SkipRow(t: seq<InstanceEntry>, c: int -> nat, limit: int, later: int)
    requires Exact(t, c, limit) && limit <= later && Constant(c, limit, later - limit, 0)
    ensures Exact(t, c, later)
  {
    hide EntryOk;
    PrefixConstant(c, limit, later - limit, 0);
    forall i | 0 <= i < |t|
      ensures EntryOk(t[i], c, later)
    {
      EntryUpTo(t[i], c, limit, later);
    }
  }

  /** Adding the next iterations keeps the table exact, also when their entry is joined to the previous one. */
  lemma AddRowKeeps(t: seq<InstanceEntry>, c: int -> nat, limit: int, first: int, last: int, count: int)
    requires Exact(t, c, limit) && count > 0 && limit <= first <= last
    requires Constant(c, limit, first - limit, 0) && Constant(c, first, last - first + 1, count)
    ensures Exact(AddRow(t, first, last, count), c, last + 1)
  {
    hide EntryOk, Constant;
    SkipRow(t, c, limit, first);
    var n := last - first + 1;
    PrefixConstant(c, first, n, count);
    forall i | 0 <= i < |t|
      ensures EntryOk(t[i], c, last + 1)
    {
      EntryUpTo(t[i], c, first, last + 1);
    }
    if t == [] {
      EntryFromExact(InstanceEntry(0, count * n - 1, first, count), c, n, last + 1);
    } else {
      var prev := t[|t| - 1];
      if prev.perIteration == count && first == prev.firstIteration + NumIterations(prev) {
        JoinEntry(prev, c, first, n);
      } else {
        EntryFromExact(InstanceEntry(prev.end + 1, prev.end + count * n, first, count), c, n, last + 1);
      }
    }
  }

  lemma JoinEntry(e: InstanceEntry, c: int -> nat, first: int, n: nat)
    requires EntryOk(e, c, first) && n > 0 && first == e.firstIteration + NumIterations(e)
    requires Constant(c, first, n, e.perIteration)
    ensures EntryOk(e.(end := e.end + e.perIteration * n), c, first + n)
  {
    var m := NumIterations(e);
    Distribute(e.perIteration, m, n);
    EntryFromExact(e.(end := e.end + e.perIteration * n), c, m + n, first + n);
  }

  /** Iteration `n` contains the k-th instance, counting from 0. */
  ghost predicate Located(c: int -> nat, k: int, n: int) {
    Prefix(c, n) <= k < Prefix(c, n + 1)
  }

  /** Every instance is found, and in its own iteration. */
  lemma LookupExact(t: seq<InstanceEntry>, c: int -> nat, limit: int, k: int)
    requires Exact(t, c, limit) && 0 <= k < Prefix(c, limit)
    ensures LowerBound(Ends(t), k) < |t| && t[LowerBound(Ends(t), k)].perIteration > 0
    ensures 0 <= Lookup(t, k) < limit && Located(c, k, Lookup(t, k))
  {
    hide EntryOk;
    var i := LowerBound(Ends(t), k);
    assert i < |t|;
    assert i > 0 ==> t[i].start == t[i - 1].end + 1;
    LocateInEntry(t[i], c, limit, k);
  }

  lemma LocateInEntry(e: InstanceEntry, c: int -> nat, limit: int, k: int)
    requires EntryOk(e, c, limit) && e.start <= k <= e.end
    ensures var n := e.firstIteration + (k - e.start) / e.perIteration;
            0 <= n < limit && Located(c, k, n)
  {
    var p, m := e.perIteration, NumIterations(e);
    var j := (k - e.start) / p;
    assert k - e.start == p * j + (k - e.start) % p;
    if j >= m {
      MulMonotone(p, j, m);
      assert false;
    }
    assert j >= 0;
    PrefixConstant(c, e.firstIteration, j, p);
    PrefixConstant(c, e.firstIteration, j + 1, p);
    Distribute(p, j, 1);
  }

  /** Later instances are in later iterations. */
  lemma LocatedGrow(c: int -> nat, j: int, k: int, m: int, n: int)
    requires Located(c, j, m) && Located(c, k, n) && j <= k
    ensures m <= n
  {
    if n < m {
      PrefixMonotone(c, n + 1, m);
    }
  }

  /** An instance is in one iteration only. */
  lemma LocatedUnique(c: int -> nat, k: int, m: int, n: int)
    requires Located(c, k, m) && Located(c, k, n)
    ensures m == n
  {
    LocatedGrow(c, k, k, m, n);
    LocatedGrow(c, k, k, n, m);
  }
}
