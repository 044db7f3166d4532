/**
 Sets of instance numbers written as increasing ranges, and the tables that map an instance
 number to the record whose ranges contain it.
 */
module RepetitionPatterns {
  import opened Sequences

  datatype Range = Range(first: nat, last: nat)

  type RepetitionPattern = seq<Range>

  ghost predicate Has(p: RepetitionPattern, n: int) {
    exists i :: 0 <= i < |p| && p[i].first <= n <= p[i].last
  }

  /** Non-empty ranges in increasing order. */
  ghost predicate Increasing(p: RepetitionPattern) {
    && (forall i :: 0 <= i < |p| ==> p[i].first <= p[i].last)
    && (forall i, j :: 0 <= i < j < |p| ==> p[i].last < p[j].first)
  }

  predicate EndsInRange(p: RepetitionPattern) {
    p != [] && p[|p| - 1].first <= p[|p| - 1].last
  }

  ghost predicate Proper(p: RepetitionPattern)
    ensures Proper(p) ==> p != [] && EndsInRange(p)
  {
    p != [] && Increasing(p)
  }

  function First(p: RepetitionPattern): nat
    requires p != []
  {
    p[0].first
  }

  function Last(p: RepetitionPattern): nat
    requires p != []
  {
    p[|p| - 1].last
  }

  predicate IsSingleton(p: RepetitionPattern) {
    |p| == 1 && p[0].first == p[0].last
  }

  function RemoveFirst(p: RepetitionPattern): RepetitionPattern
    requires p != []
  {
    if p[0].first == p[0].last then p[1..] else p[0 := Range(p[0].first + 1, p[0].last)]
  }

  function RemoveLast(p: RepetitionPattern): RepetitionPattern
    requires EndsInRange(p)
  {
    var r := p[|p| - 1];
    if r.first == r.last then p[..|p| - 1] else p[|p| - 1 := Range(r.first, r.last - 1)]
  }

  function NumInstances(p: RepetitionPattern): int {
    if p == [] then 0 else p[0].last - p[0].first + 1 + NumInstances(p[1..])
  }

  lemma BoundedByEnds(p: RepetitionPattern, n: int)
    requires Proper(p)
    ensures Has(p, n) ==> First(p) <= n <= Last(p)
    ensures Has(p, First(p)) && Has(p, Last(p))
    ensures IsSingleton(p) <==> First(p) == Last(p)
  {
    if Has(p, n) {
      var i :| 0 <= i < |p| && p[i].first <= n <= p[i].last;
      assert i > 0 ==> p[0].last < p[i].first;
      assert i < |p| - 1 ==> p[i].last < p[|p| - 1].first;
    }
    if |p| > 1 {
      assert p[0].last < p[|p| - 1].first;
    }
  }

  lemma HasAfterFirst(p: RepetitionPattern, n: int)
    requires Proper(p)
    ensures Has(p, n) <==> p[0].first <= n <= p[0].last || Has(p[1..], n)
    ensures Has(p[1..], n) ==> n > p[0].last
  {
    if Has(p, n) && !(p[0].first <= n <= p[0].last) {
      var i :| 0 <= i < |p| && p[i].first <= n <= p[i].last;
      assert p[1..][i - 1] == p[i];
    }
    if Has(p[1..], n) {
      var i :| 0 <= i < |p[1..]| && p[1..][i].first <= n <= p[1..][i].last;
      assert p[i + 1].first <= n <= p[i + 1].last && p[0].last < p[i + 1].first;
    }
  }

  /** Removing the first instance removes exactly the smallest member. */
  lemma {:induction false} RemoveFirstExact(p: RepetitionPattern)
    requires Proper(p)
    ensures Increasing(RemoveFirst(p))
    ensures RemoveFirst(p) == [] <==> IsSingleton(p)
    ensures forall n :: Has(RemoveFirst(p), n) <==> Has(p, n) && n != First(p)
  {
    hide Has;
    var q := RemoveFirst(p);
    forall n
      ensures Has(q, n) <==> Has(p, n) && n != First(p)
    {
      HasAfterFirst(p, n);
      if p[0].first < p[0].last {
        assert q[1..] == p[1..];
        HasAfterFirst(q, n);
      }
    }
  }

  /** Removing the last instance removes exactly the greatest member. */
  lemma {:induction false} RemoveLastExact(p: RepetitionPattern)
    requires Proper(p)
    ensures Increasing(RemoveLast(p))
    ensures RemoveLast(p) == [] <==> IsSingleton(p)
    ensures forall n :: Has(RemoveLast(p), n) <==> Has(p, n) && n != Last(p)
  {
    hide Has, Increasing, RemoveLast;
    var q := RemoveLast(p);
    RemoveLastShape(p);
    forall n
      ensures Has(q, n) <==> Has(p, n) && n != Last(p)
    {
      RemoveLastMember(p, n);
    }
  }

  lemma RemoveLastShape(p: RepetitionPattern)
    requires Proper(p)
    ensures Increasing(RemoveLast(p)) && (RemoveLast(p) == [] <==> IsSingleton(p))
  {
  }

  lemma RemoveLastMember(p: RepetitionPattern, n: int)
    requires Proper(p)
    ensures Has(RemoveLast(p), n) <==> Has(p, n) && n != Last(p)
  {
    var q := RemoveLast(p);
    var k := |p| - 1;
    if Has(p, n) && n != Last(p) {
      var i :| 0 <= i < |p| && p[i].first <= n <= p[i].last;
      assert i < |q| && q[i].first <= n <= q[i].last;
    }
    if Has(q, n) {
      var i :| 0 <= i < |q| && q[i].first <= n <= q[i].last;
      assert p[i].first <= n <= p[i].last;
      assert i < k ==> p[i].last < p[k].first;
    }
  }

  // ---------- tables from instance numbers to data ----------

  datatype Entry<T> = Entry(first: nat, last: nat, data: T)

  ghost predicate Contains<T>(e: Entry<T>, n: int) {
    e.first <= n <= e.last
  }

  /** Non-empty ranges, in increasing order. */
  ghost predicate Ordered<T>(t: seq<Entry<T>>) {
    && (forall i :: 0 <= i < |t| ==> t[i].first <= t[i].last)
    && (forall i, j :: 0 <= i < j < |t| ==> t[i].last < t[j].first)
  }

  /** The range of `e` is non-empty and meets no range of `t`. */
  ghost predicate Clear<T>(e: Entry<T>, t: seq<Entry<T>>) {
    && e.first <= e.last
    && forall i :: 0 <= i < |t| ==> t[i].last < e.first || e.last < t[i].first
  }

  predicate Before<T>(a: Entry<T>, b: Entry<T>) {
    a.first < b.first || (a.first == b.first && a.last < b.last)
  }

  /** Assignment to a sorted map keyed by range: an equal key is overwritten. */
  function InsertKey<T>(t: seq<Entry<T>>, e: Entry<T>): seq<Entry<T>> {
    if t == [] || Before(e, t[0]) then [e] + t
    else if Before(t[0], e) then [t[0]] + InsertKey(t[1..], e)
    else [e] + t[1..]
  }

  lemma {:induction false} InsertKeyMembers<T>(t: seq<Entry<T>>, e: Entry<T>, x: Entry<T>)
    requires Ordered(t) && Clear(e, t)
    ensures x in InsertKey(t, e) <==> x in t || x == e
  {
    if t != [] && Before(t[0], e) {
      InsertKeyMembers(t[1..], e, x);
    }
  }

  lemma {:induction false} InsertKeyAbove<T>(t: seq<Entry<T>>, e: Entry<T>, low: int)
    requires e.first > low && forall i :: 0 <= i < |t| ==> t[i].first > low
    ensures forall i :: 0 <= i < |InsertKey(t, e)| ==> InsertKey(t, e)[i].first > low
  {
    if t != [] && Before(t[0], e) {
      InsertKeyAbove(t[1..], e, low);
    }
  }

  lemma {:induction false} InsertKeyOrdered<T>(t: seq<Entry<T>>, e: Entry<T>)
    requires Ordered(t) && Clear(e, t)
    ensures Ordered(InsertKey(t, e))
  {
    if t == [] {
    } else if Before(e, t[0]) {
      assert e.last < t[0].first;
    } else {
      assert t[0].last < e.first;
      InsertKeyOrdered(t[1..], e);
      InsertKeyAbove(t[1..], e, t[0].last);
    }
  }

  function EntriesOf<T>(p: RepetitionPattern, d: T): (r: seq<Entry<T>>)
    ensures |r| == |p|
  {
    seq(|p|, i requires 0 <= i < |p| => Entry(p[i].first, p[i].last, d))
  }

  /** All the ranges with their data, in the order in which the table is filled. */
  function Flatten<T>(d: seq<(RepetitionPattern, T)>): seq<Entry<T>> {
    if d == [] then [] else Flatten(d[..|d| - 1]) + EntriesOf(d[|d| - 1].0, d[|d| - 1].1)
  }

  function Sorted<T>(es: seq<Entry<T>>): seq<Entry<T>> {
    if es == [] then [] else InsertKey(Sorted(es[..|es| - 1]), es[|es| - 1])
  }

  /** The table over the ranges of `d`, in increasing order. */
  function Table<T>(d: seq<(RepetitionPattern, T)>): seq<Entry<T>> {
    Sorted(Flatten(d))
  }

  /** Enters the ranges of one pattern into the map. */
  method InsertRanges<T>(rangeMap: seq<Entry<T>>, p: RepetitionPattern, data: T, ghost flat: seq<Entry<T>>) returns (r: seq<Entry<T>>)
    requires rangeMap == Sorted(flat)
    ensures r == Sorted(flat + EntriesOf(p, data))
  {
    hide InsertKey;
    ghost var es := EntriesOf(p, data);
    r := rangeMap;
    assert flat + es[..0] == flat;
    for j := 0 to |p|
      invariant r == Sorted(flat + es[..j])
    {
      r := InsertKey(r, Entry(p[j].first, p[j].last, data));
      ghost var next := flat + es[..j + 1];
      assert next[..|next| - 1] == flat + es[..j] && next[|next| - 1] == es[j];
    }
    assert es[..|es|] == es;
  }

  method BuildLut<T>(lut: seq<Entry<T>>, d: seq<(RepetitionPattern, T)>) returns (r: seq<Entry<T>>)
    ensures r == lut + Table(d)
  {
    hide Sorted;
    var rangeMap: seq<Entry<T>> := [];
    assert d[..0] == [];
    NothingSorted<T>();
    for i := 0 to |d|
      invariant rangeMap == Table(d[..i])
    {
      ghost var flat := Flatten(d[..i]);
      assert d[..i + 1][..i] == d[..i] && Flatten(d[..i + 1]) == flat + EntriesOf(d[i].0, d[i].1);
      rangeMap := InsertRanges(rangeMap, d[i].0, d[i].1, flat);
    }
    assert d[..|d|] == d;
    r := lut;
    for i := 0 to |rangeMap|
      invariant r == lut + rangeMap[..i]
    {
      r := r + [rangeMap[i]];
    }
    assert rangeMap[..|rangeMap|] == rangeMap;
  }

  lemma NothingSorted<T>()
    ensures Sorted<T>([]) == []
  {
  }

  /** The patterns are increasing and no number is in two of them. */
  ghost predicate Disjoint(ps: seq<RepetitionPattern>) {
    && (forall i :: 0 <= i < |ps| ==> Increasing(ps[i]))
    && (forall i, j, n :: 0 <= i < j < |ps| && Has(ps[i], n) ==> !Has(ps[j], n))
  }

  function Patterns<T>(d: seq<(RepetitionPattern, T)>): (ps: seq<RepetitionPattern>)
    ensures |ps| == |d|
    ensures forall i :: 0 <= i < |d| ==> ps[i] == d[i].0
  {
    seq(|d|, i requires 0 <= i < |d| => d[i].0)
  }

  ghost predicate Holds<T>(t: seq<Entry<T>>, n: int, x: T) {
    exists i :: 0 <= i < |t| && Contains(t[i], n) && t[i].data == x
  }

  ghost predicate Sources<T>(d: seq<(RepetitionPattern, T)>, n: int, x: T) {
    exists i :: 0 <= i < |d| && Has(d[i].0, n) && d[i].1 == x
  }

  ghost predicate AllClear<T>(es: seq<Entry<T>>, t: seq<Entry<T>>) {
    forall i :: 0 <= i < |es| ==> Clear(es[i], t)
  }

  ghost predicate Union<T(!new)>(all: seq<Entry<T>>, a: seq<Entry<T>>, b: seq<Entry<T>>) {
    forall x :: x in all <==> x in a || x in b
  }

  lemma ClearOfUnion<T(!new)>(e: Entry<T>, all: seq<Entry<T>>, a: seq<Entry<T>>, b: seq<Entry<T>>)
    requires Clear(e, a) && Clear(e, b) && Union(all, a, b)
    ensures Clear(e, all)
  {
    forall i | 0 <= i < |all|
      ensures all[i].last < e.first || e.last < all[i].first
    {
      assert all[i] in all;
      if all[i] in a {
        var j :| 0 <= j < |a| && a[j] == all[i];
      } else {
        var j :| 0 <= j < |b| && b[j] == all[i];
      }
    }
  }

  lemma {:induction false} InsertAll<T(!new)>(t: seq<Entry<T>>, base: seq<Entry<T>>, es: seq<Entry<T>>)
    requires t == Sorted(base) && Ordered(t) && Ordered(es) && AllClear(es, t)
    ensures Ordered(Sorted(base + es))
    ensures Union(Sorted(base + es), t, es)
  {
    hide Ordered, Clear, AllClear, Sorted, Union, InsertKey;
    if es == [] {
      assert base + es == base;
      UnionWithNothing(t);
    } else {
      var front, e := es[..|es| - 1], es[|es| - 1];
      var prev := Sorted(base + front);
      assert es == front + [e];
      FrontClear(es, t);
      InsertAll(t, base, front);
      assert base + es == (base + front) + [e];
      SortedSnoc(base + front, e);
      ClearOfUnion(e, prev, t, front);
      InsertKeyOrdered(prev, e);
      UnionSnoc(prev, t, front, e);
    }
  }

  lemma SortedSnoc<T>(base: seq<Entry<T>>, e: Entry<T>)
    ensures Sorted(base + [e]) == InsertKey(Sorted(base), e)
  {
    assert (base + [e])[..|base + [e]| - 1] == base;
  }

  lemma FrontClear<T>(es: seq<Entry<T>>, t: seq<Entry<T>>)
    requires es != [] && Ordered(es) && AllClear(es, t)
    ensures var front, e := es[..|es| - 1], es[|es| - 1];
            Ordered(front) && AllClear(front, t) && Clear(e, t) && Clear(e, front)
  {
  }

  lemma UnionWithNothing<T(!new)>(t: seq<Entry<T>>)
    ensures Union(t, t, [])
  {
  }

  /** Inserting an entry adds just that entry. */
  lemma UnionSnoc<T(!new)>(prev: seq<Entry<T>>, t: seq<Entry<T>>, front: seq<Entry<T>>, e: Entry<T>)
    requires Union(prev, t, front) && Ordered(prev) && Clear(e, prev)
    ensures Union(InsertKey(prev, e), t, front + [e])
  {
    hide InsertKey, Clear, Ordered;
    forall x
      ensures x in InsertKey(prev, e) <==> x in t || x in front + [e]
    {
      InsertKeyMembers(prev, e, x);
    }
  }

  lemma HoldsByMember<T>(t: seq<Entry<T>>, n: int, x: T)
    ensures Holds(t, n, x) <==> exists e :: e in t && Contains(e, n) && e.data == x
  {
    if e :| e in t && Contains(e, n) && e.data == x {
      var i :| 0 <= i < |t| && t[i] == e;
      assert Contains(t[i], n);
    }
  }

  lemma EntriesHold<T>(p: RepetitionPattern, d: T, n: int, x: T)
    ensures Holds(EntriesOf(p, d), n, x) <==> Has(p, n) && x == d
  {
    var es := EntriesOf(p, d);
    if Has(p, n) && x == d {
      var i :| 0 <= i < |p| && p[i].first <= n <= p[i].last;
      assert Contains(es[i], n) && es[i].data == x;
    }
  }

  lemma EntriesOrdered<T>(p: RepetitionPattern, d: T)
    requires Increasing(p)
    ensures Ordered(EntriesOf(p, d))
  {
  }

  /** For disjoint patterns the table is in order and maps each number to the data of its pattern. */
  lemma {:induction false} TableExact<T(!new)>(d: seq<(RepetitionPattern, T)>)
    requires Disjoint(Patterns(d))
    ensures Ordered(Table(d))
    ensures forall n, x :: Holds(Table(d), n, x) <==> Sources(d, n, x)
  {
    if d == [] {
      assert Flatten(d) == [];
    } else {
      hide Sorted, Holds, Sources, Ordered, Clear, Has, Increasing, EntriesOf, Union;
      var k := |d| - 1;
      var front, t, es := d[..k], Table(d[..k]), EntriesOf(d[k].0, d[k].1);
      assert forall i | 0 <= i < k :: Patterns(front)[i] == Patterns(d)[i];
      TableExact(front);
      assert Increasing(Patterns(d)[k]);
      forall i | 0 <= i < |es|
        ensures Clear(es[i], t)
      {
        ClearOfEarlier(d, t, i);
      }
      EntriesOrdered(d[k].0, d[k].1);
      InsertAll(t, Flatten(front), es);
      assert Flatten(d) == Flatten(front) + es;
      forall n, x
        ensures Holds(Table(d), n, x) <==> Sources(d, n, x)
      {
        HoldsUnion(Table(d), t, es, n, x);
        EntriesHold(d[k].0, d[k].1, n, x);
        SourcesSnoc(d, n, x);
      }
    }
  }

  lemma HoldsUnion<T(!new)>(all: seq<Entry<T>>, a: seq<Entry<T>>, b: seq<Entry<T>>, n: int, x: T)
    requires Union(all, a, b)
    ensures Holds(all, n, x) <==> Holds(a, n, x) || Holds(b, n, x)
  {
    HoldsByMember(all, n, x);
    HoldsByMember(a, n, x);
    HoldsByMember(b, n, x);
  }

  lemma SourcesSnoc<T>(d: seq<(RepetitionPattern, T)>, n: int, x: T)
    requires d != []
    ensures Sources(d, n, x) <==> Sources(d[..|d| - 1], n, x) || (Has(d[|d| - 1].0, n) && d[|d| - 1].1 == x)
  {
    var front := d[..|d| - 1];
    if Sources(front, n, x) {
      var i :| 0 <= i < |front| && Has(front[i].0, n) && front[i].1 == x;
      assert d[i] == front[i];
    }
    if Sources(d, n, x) {
      var i :| 0 <= i < |d| && Has(d[i].0, n) && d[i].1 == x;
      if i < |front| {
        assert d[i] == front[i];
      }
    }
  }

  lemma LastNotShared<T>(d: seq<(RepetitionPattern, T)>, n: int, x: T)
    requires Disjoint(Patterns(d)) && d != []
    ensures Has(d[|d| - 1].0, n) ==> !Sources(d[..|d| - 1], n, x)
  {
    var k := |d| - 1;
    forall g | 0 <= g < k && Has(d[k].0, n)
      ensures !Has(d[..k][g].0, n)
    {
      assert Patterns(d)[g] == d[g].0 && Patterns(d)[k] == d[k].0;
    }
  }

  lemma LastIncreasing(ps: seq<RepetitionPattern>)
    requires Disjoint(ps) && ps != []
    ensures Increasing(ps[|ps| - 1])
  {
  }

  lemma ClearOfEarlier<T>(d: seq<(RepetitionPattern, T)>, t: seq<Entry<T>>, i: nat)
    requires Disjoint(Patterns(d)) && d != [] && i < |d[|d| - 1].0|
    requires Ordered(t)
    requires forall n, x :: Holds(t, n, x) <==> Sources(d[..|d| - 1], n, x)
    ensures Clear(EntriesOf(d[|d| - 1].0, d[|d| - 1].1)[i], t)
  {
    var k := |d| - 1;
    var r := d[k].0[i];
    hide Disjoint;
    LastIncreasing(Patterns(d));
    forall j | 0 <= j < |t|
      ensures t[j].last < r.first || r.last < t[j].first
    {
      var n := if t[j].first < r.first then r.first else t[j].first;
      LastNotShared(d, n, t[j].data);
      assert Contains(t[j], n) ==> Holds(t, n, t[j].data);
      assert r.first <= n <= r.last ==> Has(d[k].0, n);
    }
  }

  function Lasts<T>(t: seq<Entry<T>>): (r: seq<int>)
    ensures |r| == |t|
    ensures forall i :: 0 <= i < |t| ==> r[i] == t[i].last
  {
    seq(|t|, i requires 0 <= i < |t| => t[i].last)
  }

  /** The source prints a diagnostic and then reads past the end when `n` is beyond the last range. */
  function LookupData<T>(t: seq<Entry<T>>, n: int): T
    requires exists i :: 0 <= i < |t| && t[i].last >= n
  {
    t[LowerBound(Lasts(t), n)].data
  }

  lemma {:induction false} LookupFinds<T>(t: seq<Entry<T>>, n: int, x: T)
    requires Ordered(t) && Holds(t, n, x)
    ensures LowerBound(Lasts(t), n) < |t| && LookupData(t, n) == x
    ensures Contains(t[LowerBound(Lasts(t), n)], n)
  {
    var i :| 0 <= i < |t| && Contains(t[i], n) && t[i].data == x;
    var k := LowerBound(Lasts(t), n);
    assert k <= i;
    assert k == i;
  }

  // ---------- stepping through a table ----------

  /** An entry of the table and a number of its range. */
  datatype Iterator = Iterator(pos: nat, num: nat)

  function End<T>(t: seq<Entry<T>>): Iterator {
    Iterator(|t|, 0)
  }

  function Begin<T>(t: seq<Entry<T>>): Iterator {
    if t == [] then End(t) else Iterator(0, t[0].first)
  }

  function NextEntry<T>(t: seq<Entry<T>>, it: Iterator): Iterator
    requires it.pos < |t|
  {
    if it.pos + 1 == |t| then End(t) else Iterator(it.pos + 1, t[it.pos + 1].first)
  }

  function Next<T>(t: seq<Entry<T>>, it: Iterator): Iterator
    requires it.pos < |t|
  {
    if it.num == t[it.pos].last then NextEntry(t, it) else Iterator(it.pos, it.num + 1)
  }

  ghost predicate IsAt<T>(t: seq<Entry<T>>, it: Iterator)
    ensures IsAt(t, it) ==> it.pos < |t|
  {
    it.pos < |t| && Contains(t[it.pos], it.num)
  }

  ghost predicate Covered<T>(t: seq<Entry<T>>, n: int) {
    exists i :: 0 <= i < |t| && Contains(t[i], n)
  }

  /** Stepping visits every covered number, in increasing order. */
  lemma {:induction false} NextExact<T>(t: seq<Entry<T>>, it: Iterator)
    requires Ordered(t) && IsAt(t, it)
    ensures var next := Next(t, it);
            if next == End(t) then forall n :: n > it.num ==> !Covered(t, n)
            else IsAt(t, next) && next.num > it.num && forall n :: it.num < n < next.num ==> !Covered(t, n)
  {
    var next := Next(t, it);
    forall n | n > it.num && (next == End(t) || n < next.num)
      ensures !Covered(t, n)
    {
      forall i | 0 <= i < |t|
        ensures !Contains(t[i], n)
      {
        if i < it.pos {
          assert t[i].last < t[it.pos].first;
        } else if i > it.pos {
          assert t[it.pos].last < t[i].first;
          assert i > it.pos + 1 ==> t[it.pos + 1].last < t[i].first;
        }
      }
    }
    if next != End(t) && next.pos > it.pos {
      assert t[it.pos].last < t[next.pos].first;
    }
  }

  lemma {:induction false} BeginExact<T>(t: seq<Entry<T>>)
    requires Ordered(t)
    ensures if t == [] then Begin(t) == End(t) && forall n :: !Covered(t, n)
            else IsAt(t, Begin(t)) && forall n :: n < Begin(t).num ==> !Covered(t, n)
  {
    if t != [] {
      forall n, i | n < t[0].first && 0 <= i < |t|
        ensures !Contains(t[i], n)
      {
        assert i > 0 ==> t[0].last < t[i].first;
      }
    }
  }
}
