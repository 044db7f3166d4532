/**
 The pattern language of the compressed traces: a pattern is one symbol or a
 repeated sequence of patterns.
 */
module CompressionPatterns {
  import opened Sequences

  type Symbol = nat

  datatype Pattern = Leaf(sym: Symbol) | Repeat(body: seq<Pattern>, count: nat)

  /** Every repeat has a non-empty body and stands for at least two copies of it. */
  ghost predicate WellFormed(p: Pattern) {
    p.Repeat? ==> p.body != [] && p.count >= 2 && forall q <- p.body :: WellFormed(q)
  }

  ghost predicate AllWellFormed(ps: seq<Pattern>) {
    forall q <- ps :: WellFormed(q)
  }

  function Times<T>(s: seq<T>, n: nat): seq<T> {
    if n == 0 then [] else s + Times(s, n - 1)
  }

  /** The symbols a pattern stands for: the meaning of the compressed form. */
  function Expand(p: Pattern): seq<Symbol>
    decreases p, 1
  {
    match p
    case Leaf(s) => [s]
    case Repeat(body, n) => Times(ExpandAll(body), n)
  }

  function ExpandAll(ps: seq<Pattern>): seq<Symbol>
    decreases ps, 0
  {
    if ps == [] then [] else Expand(ps[0]) + ExpandAll(ps[1..])
  }

  lemma {:induction false} ExpandAllConcat(a: seq<Pattern>, b: seq<Pattern>)
    ensures ExpandAll(a + b) == ExpandAll(a) + ExpandAll(b)
  {
    if a == [] {
      assert a + b == b;
    } else {
      var c := a + b;
      assert c[0] == a[0] && c[1..] == a[1..] + b;
      calc {
        ExpandAll(c);
        Expand(a[0]) + ExpandAll(a[1..] + b);
        { ExpandAllConcat(a[1..], b); }
        Expand(a[0]) + (ExpandAll(a[1..]) + ExpandAll(b));
        (Expand(a[0]) + ExpandAll(a[1..])) + ExpandAll(b);
        ExpandAll(a) + ExpandAll(b);
      }
    }
  }

  lemma ExpandAllOne(p: Pattern)
    ensures ExpandAll([p]) == Expand(p)
  {
    assert ExpandAll([p]) == Expand(p) + ExpandAll([]);
  }

  lemma {:induction false} TimesSucc<T>(s: seq<T>, n: nat)
    ensures Times(s, n + 1) == Times(s, n) + s
  {
    if n == 0 {
      assert s + Times(s, 0) == s;
    } else {
      TimesSucc(s, n - 1);
      calc {
        Times(s, n + 1);
        s + Times(s, n);
        s + (Times(s, n - 1) + s);
        (s + Times(s, n - 1)) + s;
      }
    }
  }

  /** Structural comparison of two patterns, child by child. */
  method PatternEquals(p: Pattern, q: Pattern) returns (same: bool)
    ensures same <==> p == q
    decreases p
  {
    if p.Leaf? || q.Leaf? {
      return p.Leaf? && q.Leaf? && p.sym == q.sym;
    }
    if |p.body| != |q.body| || p.count != q.count {
      return false;
    }
    for i := 0 to |p.body|
      invariant p.body[..i] == q.body[..i]
    {
      var childSame := PatternEquals(p.body[i], q.body[i]);
      if !childSame {
        return false;
      }
      assert p.body[..i + 1] == p.body[..i] + [p.body[i]];
      assert q.body[..i + 1] == q.body[..i] + [q.body[i]];
    }
    assert p.body == p.body[..|p.body|] && q.body == q.body[..|q.body|];
    return true;
  }

  method DecompressPattern(p: Pattern) returns (v: seq<Symbol>)
    ensures v == Expand(p)
    decreases p
  {
    if p.Leaf? {
      return [p.sym];
    }
    v := [];
    for i := 0 to p.count
      invariant v == Times(ExpandAll(p.body), i)
    {
      ghost var before := v;
      for k := 0 to |p.body|
        invariant v == before + ExpandAll(p.body[..k])
      {
        var cpSyms := DecompressPattern(p.body[k]);
        v := v + cpSyms;
        ExpandAllConcat(p.body[..k], [p.body[k]]);
        ExpandAllOne(p.body[k]);
        assert p.body[..k + 1] == p.body[..k] + [p.body[k]];
      }
      assert p.body[..|p.body|] == p.body;
      TimesSucc(ExpandAll(p.body), i);
    }
  }

  /** Occurrences of each symbol in one pattern, computed without expanding it. */
  function InstancesMap(p: Pattern): map<Symbol, nat>
    decreases p, 1
  {
    match p
    case Leaf(s) => map[s := 1]
    case Repeat(body, n) => Scale(n, InstancesMapAll(body))
  }

  function InstancesMapAll(ps: seq<Pattern>): map<Symbol, nat>
    decreases ps, 0
  {
    if ps == [] then map[] else AddMaps(InstancesMap(ps[0]), InstancesMapAll(ps[1..]))
  }

  function At(m: map<Symbol, nat>, s: Symbol): nat {
    if s in m then m[s] else 0
  }

  function AddMaps(a: map<Symbol, nat>, b: map<Symbol, nat>): map<Symbol, nat> {
    map s | s in a.Keys + b.Keys :: At(a, s) + At(b, s)
  }

  function Scale(n: nat, m: map<Symbol, nat>): map<Symbol, nat> {
    map s | s in m :: n * m[s]
  }

  lemma {:induction false} CountTimes(s: seq<Symbol>, n: nat, x: Symbol)
    ensures Count(Times(s, n), x) == n * Count(s, x)
  {
    if n > 0 {
      CountTimes(s, n - 1, x);
      CountConcat(s, Times(s, n - 1), x);
      assert (n - 1) * Count(s, x) + Count(s, x) == n * Count(s, x);
    }
  }

  /** The counts read off the compressed form are those of the expanded trace. */
  lemma {:induction false} InstancesMapCounts(p: Pattern, x: Symbol)
    ensures At(InstancesMap(p), x) == Count(Expand(p), x)
    decreases p, 1
  {
    if p.Repeat? {
      InstancesMapAllCounts(p.body, x);
      CountTimes(ExpandAll(p.body), p.count, x);
    }
  }

  lemma {:induction false} InstancesMapAllCounts(ps: seq<Pattern>, x: Symbol)
    ensures At(InstancesMapAll(ps), x) == Count(ExpandAll(ps), x)
    decreases ps, 0
  {
    if ps != [] {
      InstancesMapCounts(ps[0], x);
      InstancesMapAllCounts(ps[1..], x);
      CountConcat(Expand(ps[0]), ExpandAll(ps[1..]), x);
    }
  }

  /** No entry of the map of a well-formed trace is zero. */
  lemma {:induction false} InstancesMapPositive(ps: seq<Pattern>, x: Symbol)
    requires AllWellFormed(ps) && x in InstancesMapAll(ps)
    ensures InstancesMapAll(ps)[x] > 0
    decreases ps, 0
  {
    assert WellFormed(ps[0]);
    if x in InstancesMap(ps[0]) {
      PatternMapPositive(ps[0], x);
    } else {
      InstancesMapPositive(ps[1..], x);
    }
  }

  lemma {:induction false} PatternMapPositive(p: Pattern, x: Symbol)
    requires WellFormed(p) && x in InstancesMap(p)
    ensures InstancesMap(p)[x] > 0
    decreases p, 1
  {
    if p.Repeat? {
      InstancesMapPositive(p.body, x);
      assert p.count * InstancesMapAll(p.body)[x] >= InstancesMapAll(p.body)[x];
    }
  }
}

/**
 The online compressor. `window` holds the most recent patterns, youngest first;
 `storedPatterns` holds the patterns that overflowed it, oldest first.
 */
module ControlFlowCompression {
  import opened Sequences
  import opened CompressionPatterns

  // ---------- the rewriting system on windows ----------

  /** `w[k]` repeats exactly the `k` younger patterns in front of it. */
  predicate MatchesAt(w: seq<Pattern>, k: nat) {
    0 < k < |w| && w[k].Repeat? && w[k].body == Reverse(w[..k])
  }

  function AfterMatch(w: seq<Pattern>, k: nat): seq<Pattern>
    requires MatchesAt(w, k)
  {
    [Repeat(w[k].body, w[k].count + 1)] + w[k + 1..]
  }

  /** The two youngest runs of `n` patterns are the same. */
  predicate RepeatsAt(w: seq<Pattern>, n: nat) {
    0 < n && 2 * n <= |w| && w[..n] == w[n..2 * n]
  }

  function AfterMerge(w: seq<Pattern>, n: nat): seq<Pattern>
    requires RepeatsAt(w, n)
  {
    [Repeat(Reverse(w[..n]), 2)] + w[2 * n..]
  }

  /** The widest match at most `k` wide, 0 if there is none. */
  function WidestMatch(w: seq<Pattern>, k: nat): (r: nat)
    ensures r <= k
    ensures r != 0 ==> MatchesAt(w, r)
    ensures forall j: nat :: r < j <= k ==> !MatchesAt(w, j)
  {
    if k == 0 then 0 else if MatchesAt(w, k) then k else WidestMatch(w, k - 1)
  }

  function WidestRepeat(w: seq<Pattern>, k: nat): (r: nat)
    ensures r <= k
    ensures r != 0 ==> RepeatsAt(w, r)
    ensures forall j: nat :: r < j <= k ==> !RepeatsAt(w, j)
  {
    if k == 0 then 0 else if RepeatsAt(w, k) then k else WidestRepeat(w, k - 1)
  }

  function Min(a: nat, b: nat): nat {
    if a < b then a else b
  }

  function MatchLimit(w: seq<Pattern>, maxLength: nat): nat {
    if w == [] then 0 else Min(maxLength / 2 + 1, |w| - 1)
  }

  function MatchWidth(w: seq<Pattern>, maxLength: nat): nat {
    WidestMatch(w, MatchLimit(w, maxLength))
  }

  function MergeWidth(w: seq<Pattern>): nat {
    WidestRepeat(w, |w| / 2)
  }

  /** Neither rule applies. */
  predicate Stable(w: seq<Pattern>, maxLength: nat) {
    MatchWidth(w, maxLength) == 0 && MergeWidth(w) == 0
  }

  function MatchStep(w: seq<Pattern>, maxLength: nat): (r: seq<Pattern>)
    ensures r == w || |r| < |w|
  {
    var k := MatchWidth(w, maxLength);
    if k == 0 then w else AfterMatch(w, k)
  }

  function MergeStep(w: seq<Pattern>): (r: seq<Pattern>)
    ensures r == w || |r| < |w|
  {
    var n := MergeWidth(w);
    if n == 0 then w else AfterMerge(w, n)
  }

  function Step(w: seq<Pattern>, maxLength: nat): (r: seq<Pattern>)
    ensures Stable(w, maxLength) ==> r == w
    ensures !Stable(w, maxLength) ==> |r| < |w|
  {
    if MatchWidth(w, maxLength) != 0 then MatchStep(w, maxLength) else MergeStep(w)
  }

  function Normalise(w: seq<Pattern>, maxLength: nat): (r: seq<Pattern>)
    ensures Stable(r, maxLength)
    ensures |r| <= |w|
    decreases |w|
  {
    if Stable(w, maxLength) then w else Normalise(Step(w, maxLength), maxLength)
  }

  // ---------- the rules spelled out ----------

  /** A repeat, at most half the window length plus one away from the front, that the patterns in front of it repeat. */
  ghost predicate MatchApplies(w: seq<Pattern>, maxLength: nat, k: nat) {
    0 < k < |w| && k <= maxLength / 2 + 1 && w[k].Repeat? && w[k].body == Reverse(w[..k])
  }

  /** The two youngest runs of `n` patterns are equal. */
  ghost predicate MergeApplies(w: seq<Pattern>, n: nat) {
    0 < n && 2 * n <= |w| && w[..n] == w[n..2 * n]
  }

  /** The widest match is folded into its repeat. */
  ghost predicate Matched(w: seq<Pattern>, r: seq<Pattern>, maxLength: nat) {
    exists k: nat :: MatchApplies(w, maxLength, k) && (forall j: nat :: MatchApplies(w, maxLength, j) ==> j <= k)
      && r == [Repeat(w[k].body, w[k].count + 1)] + w[k + 1..]
  }

  /** The widest two equal runs are folded into a repeat. */
  ghost predicate Merged(w: seq<Pattern>, r: seq<Pattern>) {
    exists n: nat :: MergeApplies(w, n) && (forall m: nat :: MergeApplies(w, m) ==> m <= n)
      && r == [Repeat(Reverse(w[..n]), 2)] + w[2 * n..]
  }

  ghost predicate NothingApplies(w: seq<Pattern>, maxLength: nat) {
    (forall k: nat :: !MatchApplies(w, maxLength, k)) && (forall n: nat :: !MergeApplies(w, n))
  }

  /** A match if one applies, else a merge. */
  ghost predicate Round(w: seq<Pattern>, r: seq<Pattern>, maxLength: nat) {
    Matched(w, r, maxLength) || ((forall k: nat :: !MatchApplies(w, maxLength, k)) && Merged(w, r))
  }

  /** Rounds from the first window to the last, to which no rule applies. */
  ghost predicate Rounds(ws: seq<seq<Pattern>>, maxLength: nat) {
    && ws != [] && NothingApplies(ws[|ws| - 1], maxLength)
    && forall i :: 0 < i < |ws| ==> Round(ws[i - 1], ws[i], maxLength)
  }

  lemma MatchSpelled(w: seq<Pattern>, maxLength: nat)
    ensures MatchWidth(w, maxLength) != 0 <==> exists k: nat :: MatchApplies(w, maxLength, k)
    ensures if MatchWidth(w, maxLength) != 0 then Matched(w, MatchStep(w, maxLength), maxLength) else MatchStep(w, maxLength) == w
  {
    hide WidestMatch, Reverse;
    forall k: nat
      ensures MatchApplies(w, maxLength, k) <==> MatchesAt(w, k) && k <= MatchLimit(w, maxLength)
    {
    }
    if MatchWidth(w, maxLength) != 0 {
      assert MatchApplies(w, maxLength, MatchWidth(w, maxLength));
    }
  }

  lemma MergeSpelled(w: seq<Pattern>)
    ensures MergeWidth(w) != 0 <==> exists n: nat :: MergeApplies(w, n)
    ensures if MergeWidth(w) != 0 then Merged(w, MergeStep(w)) else MergeStep(w) == w
  {
    hide WidestRepeat, Reverse;
    forall n: nat
      ensures MergeApplies(w, n) <==> RepeatsAt(w, n) && n <= |w| / 2
    {
    }
    if MergeWidth(w) != 0 {
      assert MergeApplies(w, MergeWidth(w));
    }
  }

  /** A window is stable when really no rule applies. */
  lemma StableSpelled(w: seq<Pattern>, maxLength: nat)
    ensures Stable(w, maxLength) <==> NothingApplies(w, maxLength)
  {
    hide MatchWidth, MergeWidth, MatchApplies, MergeApplies;
    MatchSpelled(w, maxLength);
    MergeSpelled(w);
  }

  /** Normalising is a sequence of rounds that ends where no rule applies. */
  lemma {:induction false} NormaliseRounds(w: seq<Pattern>, maxLength: nat) returns (ws: seq<seq<Pattern>>)
    ensures Rounds(ws, maxLength) && ws[0] == w && ws[|ws| - 1] == Normalise(w, maxLength)
    decreases |w|
  {
    hide MatchWidth, MergeWidth, MatchStep, MergeStep, MatchApplies, Matched, Merged, Stable;
    StableSpelled(w, maxLength);
    if Stable(w, maxLength) {
      ws := [w];
    } else {
      OneRound(w, maxLength);
      var next := Step(w, maxLength);
      var rest := NormaliseRounds(next, maxLength);
      MatchSpelled(w, maxLength);
      MergeSpelled(w);
      assert Round(w, next, maxLength);
      ws := [w] + rest;
    }
  }

  // ---------- what the rules preserve ----------

  /** The symbols of a window in the order they were inserted. */
  function Chronological(w: seq<Pattern>): seq<Symbol> {
    ExpandAll(Reverse(w))
  }

  lemma ChronologicalSplit(w: seq<Pattern>, k: nat)
    requires k <= |w|
    ensures Chronological(w) == Chronological(w[k..]) + Chronological(w[..k])
  {
    assert w == w[..k] + w[k..];
    ReverseConcat(w[..k], w[k..]);
    ExpandAllConcat(Reverse(w[k..]), Reverse(w[..k]));
  }

  lemma ChronologicalOne(p: Pattern)
    ensures Chronological([p]) == Expand(p)
  {
    assert Reverse([p]) == [p];
    ExpandAllOne(p);
  }

  lemma MatchPreserves(w: seq<Pattern>, k: nat)
    requires MatchesAt(w, k)
    ensures Chronological(AfterMatch(w, k)) == Chronological(w)
  {
    var r := AfterMatch(w, k);
    var old_ := w[k];
    ChronologicalSplit(w, k);
    ChronologicalSplit(w[k..], 1);
    assert w[k..][1..] == w[k + 1..] && w[k..][..1] == [old_];
    ChronologicalSplit(r, 1);
    assert r[1..] == w[k + 1..] && r[..1] == [Repeat(old_.body, old_.count + 1)];
    ChronologicalOne(old_);
    ChronologicalOne(Repeat(old_.body, old_.count + 1));
    TimesSucc(ExpandAll(old_.body), old_.count);
    assert Chronological(w[..k]) == ExpandAll(old_.body);
    assert Expand(Repeat(old_.body, old_.count + 1)) == Expand(old_) + ExpandAll(old_.body);
  }

  lemma MergePreserves(w: seq<Pattern>, n: nat)
    requires RepeatsAt(w, n)
    ensures Chronological(AfterMerge(w, n)) == Chronological(w)
  {
    var r := AfterMerge(w, n);
    var once := ExpandAll(Reverse(w[..n]));
    ChronologicalSplit(w, 2 * n);
    ChronologicalSplit(w[..2 * n], n);
    assert w[..2 * n][n..] == w[n..2 * n] && w[..2 * n][..n] == w[..n];
    ChronologicalSplit(r, 1);
    assert r[1..] == w[2 * n..] && r[..1] == [Repeat(Reverse(w[..n]), 2)];
    ChronologicalOne(Repeat(Reverse(w[..n]), 2));
    assert Times(once, 2) == once + once by {
      TimesSucc(once, 1);
      TimesSucc(once, 0);
    }
  }

  lemma StepKeeps(w: seq<Pattern>, maxLength: nat)
    ensures Chronological(Step(w, maxLength)) == Chronological(w)
  {
    var k, n := MatchWidth(w, maxLength), MergeWidth(w);
    if k != 0 {
      MatchPreserves(w, k);
    } else if n != 0 {
      MergePreserves(w, n);
    }
  }

  lemma {:induction false} NormaliseKeeps(w: seq<Pattern>, maxLength: nat)
    ensures Chronological(Normalise(w, maxLength)) == Chronological(w)
    decreases |w|
  {
    if !Stable(w, maxLength) {
      StepKeeps(w, maxLength);
      NormaliseKeeps(Step(w, maxLength), maxLength);
    }
  }

  lemma MatchInTake(w: seq<Pattern>, k: nat, m: nat)
    requires k <= |w| && MatchesAt(w[..k], m)
    ensures MatchesAt(w, m)
  {
    hide Reverse;
    assert w[..k][..m] == w[..m];
  }

  lemma RepeatInTake(w: seq<Pattern>, k: nat, n: nat)
    requires k <= |w| && RepeatsAt(w[..k], n)
    ensures RepeatsAt(w, n)
  {
    assert w[..k][..n] == w[..n];
    assert w[..k][n..2 * n] == w[n..2 * n];
  }

  /** Dropping the oldest patterns of a window in normal form leaves it in normal form. */
  lemma StableTake(w: seq<Pattern>, k: nat, maxLength: nat)
    requires Stable(w, maxLength) && k <= |w|
    ensures Stable(w[..k], maxLength)
  {
    hide MatchesAt, RepeatsAt, WidestMatch, WidestRepeat;
    var m, n := MatchWidth(w[..k], maxLength), MergeWidth(w[..k]);
    if m != 0 {
      MatchInTake(w, k, m);
    }
    if n != 0 {
      RepeatInTake(w, k, n);
    }
  }

  // ---------- whole runs ----------

  datatype State = State(window: seq<Pattern>, stored: seq<Pattern>)

  function Insert(st: State, sym: Symbol, maxLength: nat): State {
    var w := Normalise([Leaf(sym)] + st.window, maxLength);
    if |w| > maxLength
    then State(w[..|w| - 1], st.stored + [w[|w| - 1]])
    else State(w, st.stored)
  }

  /** The state after inserting `syms`, one by one, into an empty compressor. */
  function Run(syms: seq<Symbol>, maxLength: nat): State {
    if syms == [] then State([], [])
    else Insert(Run(syms[..|syms| - 1], maxLength), syms[|syms| - 1], maxLength)
  }

  /**
   Rounds lead from the window with the new symbol to one to which no rule applies; when that is too long, its oldest
   pattern is stored.
   */
  ghost predicate Inserted(before: State, sym: Symbol, after: State, maxLength: nat) {
    exists ws ::
      && Rounds(ws, maxLength) && ws[0] == [Leaf(sym)] + before.window
      && var w := ws[|ws| - 1];
         after == if |w| > maxLength then State(w[..|w| - 1], before.stored + [w[|w| - 1]]) else State(w, before.stored)
  }

  lemma InsertIsRounds(st: State, sym: Symbol, maxLength: nat)
    ensures Inserted(st, sym, Insert(st, sym, maxLength), maxLength)
  {
    hide Normalise, Rounds;
    var ws := NormaliseRounds([Leaf(sym)] + st.window, maxLength);
    RoundsEnd(ws, maxLength);
  }

  lemma RoundsEnd(ws: seq<seq<Pattern>>, maxLength: nat)
    requires Rounds(ws, maxLength)
    ensures ws != []
  {
  }

  function Decompressed(st: State): seq<Symbol> {
    ExpandAll(st.stored) + Chronological(st.window)
  }

  /** All patterns of a compressor, oldest first: what `operator==` walks over. */
  function AllPatterns(st: State): seq<Pattern> {
    st.stored + Reverse(st.window)
  }

  ghost predicate Invariant(st: State, maxLength: nat) {
    && Stable(st.window, maxLength)
    && |st.window| <= maxLength
  }

  lemma LeafExpands(sym: Symbol)
    ensures Expand(Leaf(sym)) == [sym]
  {
  }

  lemma InsertKeeps(st: State, sym: Symbol, maxLength: nat)
    requires Invariant(st, maxLength)
    ensures var next := Insert(st, sym, maxLength);
            && Invariant(next, maxLength)
            && Decompressed(next) == Decompressed(st) + [sym]
            && st.stored <= next.stored
  {
    hide Normalise, Stable, Expand, ExpandAll;
    var pushed := [Leaf(sym)] + st.window;
    var w := Normalise(pushed, maxLength);
    NormaliseKeeps(pushed, maxLength);
    ChronologicalSplit(pushed, 1);
    assert pushed[1..] == st.window && pushed[..1] == [Leaf(sym)];
    ChronologicalOne(Leaf(sym));
    LeafExpands(sym);
    assert Chronological(w) == Chronological(st.window) + [sym];
    if |w| > maxLength {
      var k := |w| - 1;
      StableTake(w, k, maxLength);
      ChronologicalSplit(w, k);
      assert w[k..] == [w[k]];
      ChronologicalOne(w[k]);
      ExpandAllConcat(st.stored, [w[k]]);
      ExpandAllOne(w[k]);
      calc {
        ExpandAll(st.stored + [w[k]]) + Chronological(w[..k]);
        (ExpandAll(st.stored) + Expand(w[k])) + Chronological(w[..k]);
        ExpandAll(st.stored) + (Expand(w[k]) + Chronological(w[..k]));
        ExpandAll(st.stored) + (Chronological(st.window) + [sym]);
        Decompressed(st) + [sym];
      }
    }
  }

  lemma EmptyState(maxLength: nat)
    ensures Invariant(State([], []), maxLength)
    ensures Decompressed(State([], [])) == []
  {
  }

  lemma {:induction false} RunInvariant(syms: seq<Symbol>, maxLength: nat)
    ensures Decompressed(Run(syms, maxLength)) == syms
    ensures Invariant(Run(syms, maxLength), maxLength)
  {
    hide Insert, Decompressed, Invariant;
    if syms == [] {
      EmptyState(maxLength);
    } else {
      var init := syms[..|syms| - 1];
      RunInvariant(init, maxLength);
      InsertKeeps(Run(init, maxLength), syms[|syms| - 1], maxLength);
      assert syms == init + [syms[|syms| - 1]];
    }
  }

  /**
   For every sequence of insertions and every window length: decompression gives
   back exactly the inserted symbols, the window is within its bound, no repeat at
   most half the window length plus one away is repeated in front of it, and no two
   neighbouring runs at the front are equal.
   */
  lemma RunLosslessAndNormal(syms: seq<Symbol>, maxLength: nat)
    ensures Decompressed(Run(syms, maxLength)) == syms
    ensures var w := Run(syms, maxLength).window;
            && |w| <= maxLength
            && (forall k :: 0 < k < |w| && k <= maxLength / 2 + 1 ==> !(w[k].Repeat? && w[k].body == Reverse(w[..k])))
            && (forall n :: 0 < n && 2 * n <= |w| ==> w[..n] != w[n..2 * n])
  {
    hide Run, Decompressed, Stable;
    RunInvariant(syms, maxLength);
    var w := Run(syms, maxLength).window;
    StableSpelled(w, maxLength);
    forall k | 0 < k < |w| && k <= maxLength / 2 + 1
      ensures !(w[k].Repeat? && w[k].body == Reverse(w[..k]))
    {
      assert !MatchApplies(w, maxLength, k);
    }
    forall n | 0 < n && 2 * n <= |w|
      ensures w[..n] != w[n..2 * n]
    {
      assert !MergeApplies(w, n);
    }
  }

  /** Stored patterns are never touched again: a longer run only appends to them. */
  lemma {:induction false} StoredOnlyGrows(syms: seq<Symbol>, k: nat, maxLength: nat)
    requires k <= |syms|
    ensures Run(syms[..k], maxLength).stored <= Run(syms, maxLength).stored
  {
    hide Insert, Invariant;
    if k == |syms| {
      assert syms[..k] == syms;
    } else {
      var init := syms[..|syms| - 1];
      assert init[..k] == syms[..k];
      StoredOnlyGrows(init, k, maxLength);
      RunInvariant(init, maxLength);
      InsertKeeps(Run(init, maxLength), syms[|syms| - 1], maxLength);
    }
  }

  lemma DecompressedFromPatterns(st: State)
    ensures Decompressed(st) == ExpandAll(AllPatterns(st))
  {
    ExpandAllConcat(st.stored, Reverse(st.window));
  }

  /** Equal compressed forms mean equal traces, whatever the window lengths. */
  lemma EqualPatternsGiveEqualTraces(a: seq<Symbol>, maxA: nat, b: seq<Symbol>, maxB: nat)
    ensures AllPatterns(Run(a, maxA)) == AllPatterns(Run(b, maxB)) ==> a == b
  {
    hide Run, Invariant, Decompressed, AllPatterns;
    RunInvariant(a, maxA);
    RunInvariant(b, maxB);
    DecompressedFromPatterns(Run(a, maxA));
    DecompressedFromPatterns(Run(b, maxB));
  }

  lemma AllPatternsLength(st: State)
    ensures |AllPatterns(st)| == |st.stored| + |st.window|
  {
  }

  lemma EmptyExpands()
    ensures ExpandAll([]) == [] && Chronological([]) == []
  {
  }

  lemma StableIsNormal(w: seq<Pattern>, maxLength: nat)
    requires Stable(w, maxLength)
    ensures Normalise(w, maxLength) == w
  {
  }

  /** Trying the match rule and then the merge rule is one step of the rewriting system. */
  lemma OneRound(w: seq<Pattern>, maxLength: nat)
    ensures MatchWidth(w, maxLength) != 0 ==> Step(w, maxLength) == MatchStep(w, maxLength)
    ensures MatchWidth(w, maxLength) == 0 ==> MatchStep(w, maxLength) == w && Step(w, maxLength) == MergeStep(w)
    ensures Stable(w, maxLength) <==> MatchWidth(w, maxLength) == 0 && MergeWidth(w) == 0
    ensures !Stable(w, maxLength) ==> |Step(w, maxLength)| < |w|
    ensures Normalise(w, maxLength) == Normalise(Step(w, maxLength), maxLength)
  {
  }

  // ---------- well-formedness, and counting on the compressed form ----------

  lemma StepWellFormed(w: seq<Pattern>, maxLength: nat)
    requires AllWellFormed(w)
    ensures AllWellFormed(Step(w, maxLength))
  {
    var k, n := MatchWidth(w, maxLength), MergeWidth(w);
    if k != 0 {
      assert WellFormed(w[k]);
    } else if n != 0 {
      assert forall q <- Reverse(w[..n]) :: q in w;
      assert WellFormed(Repeat(Reverse(w[..n]), 2));
    }
  }

  lemma {:induction false} NormaliseWellFormed(w: seq<Pattern>, maxLength: nat)
    requires AllWellFormed(w)
    ensures AllWellFormed(Normalise(w, maxLength))
    decreases |w|
  {
    hide Step, Stable, AllWellFormed;
    if !Stable(w, maxLength) {
      StepWellFormed(w, maxLength);
      NormaliseWellFormed(Step(w, maxLength), maxLength);
    }
  }

  lemma InsertWellFormed(st: State, sym: Symbol, maxLength: nat)
    requires AllWellFormed(AllPatterns(st))
    ensures AllWellFormed(AllPatterns(Insert(st, sym, maxLength)))
  {
    hide Normalise;
    AllPatternsMembers(st);
    var w := [Leaf(sym)] + st.window;
    NormaliseWellFormed(w, maxLength);
    AllPatternsMembers(Insert(st, sym, maxLength));
  }

  lemma AllPatternsMembers(st: State)
    ensures forall p :: p in AllPatterns(st) <==> p in st.stored || p in st.window
  {
    forall p | p in st.window
      ensures p in Reverse(st.window)
    {
      var i :| 0 <= i < |st.window| && st.window[i] == p;
      assert Reverse(st.window)[|st.window| - 1 - i] == p;
    }
  }

  lemma {:induction false} RunWellFormed(syms: seq<Symbol>, maxLength: nat)
    ensures AllWellFormed(AllPatterns(Run(syms, maxLength)))
  {
    hide Insert, AllWellFormed;
    if syms == [] {
      NoPatterns();
    } else {
      RunWellFormed(syms[..|syms| - 1], maxLength);
      InsertWellFormed(Run(syms[..|syms| - 1], maxLength), syms[|syms| - 1], maxLength);
    }
  }

  lemma NoPatterns()
    ensures AllWellFormed(AllPatterns(State([], [])))
  {
  }

  /**
   The per-instruction counts the analyser reads off a compressed trace are those
   of the recorded symbols; a symbol that never occurred has no entry.
   */
  lemma InstancesOfRun(syms: seq<Symbol>, maxLength: nat, x: Symbol)
    ensures var m := InstancesMapAll(AllPatterns(Run(syms, maxLength)));
            At(m, x) == Count(syms, x) && (x in m <==> x in syms)
  {
    hide Run, Invariant, Decompressed, AllPatterns, AllWellFormed;
    RunInvariant(syms, maxLength);
    RunWellFormed(syms, maxLength);
    DecompressedFromPatterns(Run(syms, maxLength));
    InstancesMapAllCounts(AllPatterns(Run(syms, maxLength)), x);
    if x in InstancesMapAll(AllPatterns(Run(syms, maxLength))) {
      InstancesMapPositive(AllPatterns(Run(syms, maxLength)), x);
    }
  }

  // ---------- different window lengths ----------

  /** In at most three patterns of which no two neighbours are equal, nothing repeats. */
  lemma StableWindow(w: seq<Pattern>, maxLength: nat)
    requires forall i :: 0 <= i < |w| ==> w[i].Leaf?
    requires forall i :: 0 < i < |w| ==> w[i - 1] != w[i]
    requires |w| <= 3
    ensures Normalise(w, maxLength) == w
  {
    assert |w| >= 2 ==> w[1..2][0] == w[1];
    assert !RepeatsAt(w, 1);
  }

  lemma RunSnoc(syms: seq<Symbol>, sym: Symbol, maxLength: nat)
    ensures Run(syms + [sym], maxLength) == Insert(Run(syms, maxLength), sym, maxLength)
  {
    var all := syms + [sym];
    assert all[..|all| - 1] == syms;
  }

  lemma FoldAlternation(a: Symbol, b: Symbol, maxLength: nat)
    requires a != b
    ensures Normalise([Leaf(b), Leaf(a), Leaf(b), Leaf(a)], maxLength) == [Repeat([Leaf(a), Leaf(b)], 2)]
  {
    var w := [Leaf(b), Leaf(a), Leaf(b), Leaf(a)];
    var r := [Repeat([Leaf(a), Leaf(b)], 2)];
    assert w[..2] == w[2..4] == [Leaf(b), Leaf(a)];
    assert RepeatsAt(w, 2);
    assert Reverse([Leaf(b), Leaf(a)]) == [Leaf(a), Leaf(b)];
    assert AfterMerge(w, 2) == r;
    assert Stable(r, maxLength);
  }

  lemma AlternationBegun(a: Symbol, b: Symbol, maxLength: nat)
    requires a != b && 2 <= maxLength <= 3
    ensures Run([a, b], maxLength) == State([Leaf(b), Leaf(a)], [])
    ensures Run([a, b, a], maxLength)
            == if maxLength == 2 then State([Leaf(a), Leaf(b)], [Leaf(a)]) else State([Leaf(a), Leaf(b), Leaf(a)], [])
  {
    hide Run, Insert;
    FirstTwo(a, b, maxLength);
    assert [a, b] + [a] == [a, b, a];
    RunSnoc([a, b], a, maxLength);
    InsertLeaf([Leaf(b), Leaf(a)], [], a, maxLength);
  }

  lemma FirstTwo(a: Symbol, b: Symbol, maxLength: nat)
    requires a != b && 2 <= maxLength <= 3
    ensures Run([a, b], maxLength) == State([Leaf(b), Leaf(a)], [])
  {
    assert Run([], maxLength) == State([], []);
    hide Run, Insert;
    RunSnoc([], a, maxLength);
    InsertLeaf([], [], a, maxLength);
    assert [a] + [b] == [a, b];
    RunSnoc([a], b, maxLength);
    InsertLeaf([Leaf(a)], [], b, maxLength);
  }

  lemma InsertLeaf(w: seq<Pattern>, stored: seq<Pattern>, sym: Symbol, maxLength: nat)
    requires forall i :: 0 <= i < |w| ==> w[i].Leaf?
    requires forall i :: 0 < i < |w| ==> w[i - 1] != w[i]
    requires |w| <= 2 && (w != [] ==> w[0] != Leaf(sym))
    ensures var next := [Leaf(sym)] + w;
            Insert(State(w, stored), sym, maxLength)
            == if |next| > maxLength then State(next[..|w|], stored + [next[|w|]]) else State(next, stored)
  {
    StableWindow([Leaf(sym)] + w, maxLength);
  }

  /**
   Compressors with different window lengths hold the same trace in different patterns: an alternation of
   two symbols is folded with a window of three and not with a window of two.
   */
  lemma WindowsDiffer(a: Symbol, b: Symbol)
    requires a != b
    ensures AllPatterns(Run([a, b, a, b], 2)) == [Leaf(a), Leaf(b), Leaf(a), Leaf(b)]
    ensures AllPatterns(Run([a, b, a, b], 3)) == [Repeat([Leaf(a), Leaf(b)], 2)]
  {
    hide Normalise, Run;
    AlternationBegun(a, b, 2);
    AlternationBegun(a, b, 3);
    assert [a, b, a, b] == [a, b, a] + [b];
    RunSnoc([a, b, a], b, 2);
    RunSnoc([a, b, a], b, 3);
    InsertLeaf([Leaf(a), Leaf(b)], [Leaf(a)], b, 2);
    FoldAlternation(a, b, 3);
    assert Run([a, b, a, b], 2) == State([Leaf(b), Leaf(a)], [Leaf(a), Leaf(b)]);
    assert Reverse([Leaf(b), Leaf(a)]) == [Leaf(a), Leaf(b)];
    assert [Leaf(b)] + [Leaf(a), Leaf(b), Leaf(a)] == [Leaf(b), Leaf(a), Leaf(b), Leaf(a)];
    assert Run([a, b, a, b], 3) == State([Repeat([Leaf(a), Leaf(b)], 2)], []);
  }

  // ---------- the compressor object ----------

  /** A position of the two-part iterator: phase 0 walks `storedPatterns`, phase 1 the window from its back. */
  datatype Position = Position(storedIndex: nat, windowIndex: nat, phase: nat) {
    /** The number of patterns in front of a position. */
    ghost function Passed(): nat {
      storedIndex + windowIndex
    }
  }

  class ControlFlowCompressor {
    var window: seq<Pattern>
    var storedPatterns: seq<Pattern>
    const maxWindowLength: nat
    ghost var history: seq<Symbol>   // the symbols inserted since the last clear

    ghost function Abs(): State
      reads this
    {
      State(window, storedPatterns)
    }

    ghost predicate Valid()
      reads this
    {
      Abs() == Run(history, maxWindowLength)
    }

    constructor (maxWindowLength: nat)
      ensures Valid() && history == [] && this.maxWindowLength == maxWindowLength
    {
      this.maxWindowLength := maxWindowLength;
      window, storedPatterns, history := [], [], [];
    }

    /** Does the body of `w[k]`, read backwards, match the patterns in front of it? */
    method PatternMatchesSymbols(p: Pattern) returns (r: bool)
      requires p.Repeat? && |p.body| <= |window|
      ensures r <==> p.body == Reverse(window[..|p.body|])
    {
      var n := |p.body|;
      for i := 0 to n
        invariant forall j :: 0 <= j < i ==> window[j] == p.body[n - 1 - j]
      {
        var same := PatternEquals(window[i], p.body[n - 1 - i]);
        if !same {
          assert Reverse(window[..n])[n - 1 - i] == window[i];
          return false;
        }
      }
      return true;
    }

    /** Pops the `n` youngest patterns. */
    method PopFront(n: nat)
      requires n <= |window|
      modifies this`window
      ensures window == old(window)[n..]
    {
      for i := 0 to n
        invariant window == old(window)[i..]
      {
        window := window[1..];
      }
    }

    method Match() returns (changed: bool)
      modifies this`window
      ensures changed <==> MatchWidth(old(window), maxWindowLength) != 0
      ensures window == MatchStep(old(window), maxWindowLength)
      ensures changed <==> exists k: nat :: MatchApplies(old(window), maxWindowLength, k)
      ensures if changed then Matched(old(window), window, maxWindowLength) else window == old(window)
    {
      hide Reverse, WidestRepeat, MatchApplies, Matched;
      MatchSpelled(window, maxWindowLength);
      if window == [] {
        return false;
      }
      var patternIndex := Min(maxWindowLength / 2 + 1, |window| - 1);
      while patternIndex >= 1
        invariant patternIndex <= MatchLimit(window, maxWindowLength)
        invariant window == old(window)
        invariant forall j: nat :: patternIndex < j <= MatchLimit(window, maxWindowLength) ==> !MatchesAt(window, j)
      {
        var p := window[patternIndex];
        if p.Repeat? && |p.body| == patternIndex {
          var matches := PatternMatchesSymbols(p);
          if matches {
            assert MatchWidth(window, maxWindowLength) == patternIndex by {
              assert MatchesAt(window, patternIndex);
            }
            PopFront(patternIndex);
            window := window[0 := Repeat(window[0].body, window[0].count + 1)];
            return true;
          }
        }
        patternIndex := patternIndex - 1;
      }
      return false;
    }

    method IsRepeatedSequence(width: nat) returns (r: bool)
      requires 0 < width && 2 * width <= |window|
      ensures r <==> RepeatsAt(window, width)
    {
      for index := 0 to width
        invariant forall j :: 0 <= j < index ==> window[j] == window[j + width]
      {
        var same := PatternEquals(window[index], window[index + width]);
        if !same {
          assert window[..width][index] != window[width..2 * width][index];
          return false;
        }
      }
      return true;
    }

    /** The `width` youngest patterns, oldest first. */
    method YoungestReversed(width: nat) returns (v: seq<Pattern>)
      requires width <= |window|
      ensures v == Reverse(window[..width])
    {
      v := [];
      var i := width;
      while i > 0
        invariant 0 <= i <= width
        invariant v == Reverse(window[i..width])
      {
        i := i - 1;
        assert window[i..width] == [window[i]] + window[i + 1..width];
        v := v + [window[i]];
      }
      assert window[0..width] == window[..width];
    }

    method Merge() returns (changed: bool)
      modifies this`window
      ensures changed <==> MergeWidth(old(window)) != 0
      ensures window == MergeStep(old(window))
      ensures changed <==> exists n: nat :: MergeApplies(old(window), n)
      ensures if changed then Merged(old(window), window) else window == old(window)
    {
      hide WidestMatch, MergeApplies, Merged;
      MergeSpelled(window);
      var width := |window| / 2;
      while width > 0
        invariant width <= |window| / 2
        invariant window == old(window)
        invariant forall j: nat :: width < j <= |window| / 2 ==> !RepeatsAt(window, j)
      {
        var repeated := IsRepeatedSequence(width);
        if repeated {
          assert MergeWidth(window) == width;
          var v := YoungestReversed(width);
          PopFront(width * 2);
          window := [Repeat(v, 2)] + window;
          return true;
        }
        width := width - 1;
      }
      return false;
    }

    /**
     The symbol is pushed and rounds follow until no rule applies; when the window is then too long, its oldest
     pattern is stored.
     */
    method InsertSymbol(sym: Symbol)
      requires Valid()
      modifies this
      ensures Valid() && history == old(history) + [sym]
      ensures |window| <= maxWindowLength && NothingApplies(window, maxWindowLength)
      ensures Inserted(old(Abs()), sym, Abs(), maxWindowLength) && old(storedPatterns) <= storedPatterns
    {
      hide Normalise, Stable, Step, Chronological, MatchWidth, MergeWidth, MatchApplies, MergeApplies, Matched, Merged, Inserted;
      InsertIsRounds(Abs(), sym, maxWindowLength);
      window := [Leaf(sym)] + window;
      ghost var pushed := window;
      var changed := true;
      while changed
        invariant storedPatterns == old(storedPatterns) && history == old(history)
        invariant Normalise(window, maxWindowLength) == Normalise(pushed, maxWindowLength)
        invariant !changed ==> Stable(window, maxWindowLength)
        decreases changed, |window|
      {
        ghost var before := window;
        changed := Match();
        if !changed {
          changed := Merge();
        }
        OneRound(before, maxWindowLength);
      }
      ghost var w := window;
      StableIsNormal(w, maxWindowLength);
      if |window| > maxWindowLength {
        storedPatterns := storedPatterns + [window[|window| - 1]];
        window := window[..|window| - 1];
      }
      history := history + [sym];
      assert history[..|history| - 1] == old(history);
      assert Abs() == Insert(old(Abs()), sym, maxWindowLength);
      RunInvariant(history, maxWindowLength);
      StableSpelled(window, maxWindowLength);
    }

    method Clear()
      modifies this
      ensures Valid() && history == []
    {
      storedPatterns := [];
      window := [];
      history := [];
    }

    predicate IsEmpty()
      reads this
      requires Valid()
      ensures IsEmpty() <==> history == []
    {
      RunInvariant(history, maxWindowLength);
      |storedPatterns| == 0 && |window| == 0
    }

    /** Decompression is the inverse of the insertions. */
    method Decompress() returns (v: seq<Symbol>)
      requires Valid()
      ensures v == history
    {
      hide Expand, ExpandAll, Run, Chronological, Invariant;
      EmptyExpands();
      RunInvariant(history, maxWindowLength);
      v := [];
      for i := 0 to |storedPatterns|
        invariant v == ExpandAll(storedPatterns[..i])
      {
        var cpSyms := DecompressPattern(storedPatterns[i]);
        v := v + cpSyms;
        ExpandAllConcat(storedPatterns[..i], [storedPatterns[i]]);
        ExpandAllOne(storedPatterns[i]);
        assert storedPatterns[..i + 1] == storedPatterns[..i] + [storedPatterns[i]];
      }
      assert storedPatterns[..|storedPatterns|] == storedPatterns;
      var cp := |window|;
      assert window[cp..] == [];
      while cp > 0
        invariant 0 <= cp <= |window|
        invariant v == ExpandAll(storedPatterns) + Chronological(window[cp..])
      {
        cp := cp - 1;
        var cpSyms := DecompressPattern(window[cp]);
        ChronologicalSplit(window[cp..], 1);
        assert window[cp..][1..] == window[cp + 1..] && window[cp..][..1] == [window[cp]];
        ChronologicalOne(window[cp]);
        v := v + cpSyms;
      }
      assert window[0..] == window;
      assert v == Decompressed(Abs());
    }

    function IteratorBegin(): Position
      reads this
    {
      if |storedPatterns| > 0 then Position(0, 0, 0) else Position(0, 0, 1)
    }

    function IteratorEnd(): Position
      reads this
    {
      Position(|storedPatterns|, |window|, 1)
    }

    function IteratorNext(iter: Position): Position
      reads this
    {
      if iter.phase == 0 && iter.storedIndex + 1 == |storedPatterns| then
        Position(|storedPatterns|, 0, 1)
      else if iter.phase == 0 then
        Position(iter.storedIndex + 1, 0, 0)
      else
        Position(|storedPatterns|, iter.windowIndex + 1, 1)
    }

    ghost predicate AtPosition(iter: Position)
      reads this
    {
      if iter.phase == 0 then
        iter.storedIndex < |storedPatterns| && iter.windowIndex == 0
      else
        iter.phase == 1 && iter.storedIndex == |storedPatterns| && iter.windowIndex <= |window|
    }

    function IteratorData(iter: Position): (p: Pattern)
      reads this
      requires AtPosition(iter) && iter != IteratorEnd()
      ensures p == AllPatterns(Abs())[iter.Passed()]
    {
      if iter.phase == 0 then storedPatterns[iter.storedIndex]
      else window[|window| - 1 - iter.windowIndex]
    }

    /** The pattern-by-pattern comparison, for any two compressors. */
    method SamePatterns(other: ControlFlowCompressor) returns (same: bool)
      ensures same <==> AllPatterns(Abs()) == AllPatterns(other.Abs())
    {
      hide AllPatterns;
      AllPatternsLength(Abs());
      AllPatternsLength(other.Abs());
      ghost var mine, theirs := AllPatterns(Abs()), AllPatterns(other.Abs());
      if |storedPatterns| + |window| != |other.storedPatterns| + |other.window| {
        assert |mine| != |theirs|;
        return false;
      }
      var thisIter := IteratorBegin();
      var otherIter := other.IteratorBegin();
      ghost var left: int := |mine|;
      while thisIter != IteratorEnd()
        invariant AtPosition(thisIter) && other.AtPosition(otherIter)
        invariant thisIter.Passed() == otherIter.Passed()
        invariant 0 <= left == |mine| - thisIter.Passed()
        invariant forall j :: 0 <= j < thisIter.Passed() ==> mine[j] == theirs[j]
        decreases left
      {
        var p, q := IteratorData(thisIter), other.IteratorData(otherIter);
        var dataSame := PatternEquals(p, q);
        if !dataSame {
          return false;
        }
        thisIter, otherIter := IteratorNext(thisIter), other.IteratorNext(otherIter);
        left := left - 1;
      }
      return true;
    }

    /**
     Two compressors compare equal exactly when the same symbols were inserted in
     each since its last clear, wherever the boundary between the stored patterns
     and the window lies. With different window lengths, equal still means equal
     traces, but equal traces may be compressed differently.
     */
    method Equals(other: ControlFlowCompressor) returns (same: bool)
      requires Valid() && other.Valid()
      ensures same ==> history == other.history
      ensures maxWindowLength == other.maxWindowLength ==> (same <==> history == other.history)
    {
      hide Run, AllPatterns;
      same := SamePatterns(other);
      EqualPatternsGiveEqualTraces(history, maxWindowLength, other.history, other.maxWindowLength);
    }
  }
}
