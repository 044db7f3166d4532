/**
 The recording of the invocations of a loop or a call: invocations with equal content share a group,
 which is looked for among the groups used last. The content `I` is what invocationsMatch compares: for a
 loop the records of the iterations, for a call the recorded instructions (module InvocationMatching).
 */
module InvocationRecording {
  import opened RecentlyUsed

  const NUM_LATEST_INVOCATION_GROUPS := 32
  const NO_GROUP := -1

  /** A group: its content and, relative to `sharersOffset`, the invocations that share it. */
  datatype InvocationInfo<I> = InvocationInfo(invocation: I, sharers: set<nat>, sharersOffset: nat, partiallyDumped: bool) {

    predicate Shares(n: int) {
      n - sharersOffset in sharers
    }

    function Mark(n: nat): InvocationInfo<I>
      requires n >= sharersOffset
    {
      this.(sharers := sharers + {n - sharersOffset})
    }
  }

  /** The groups hold exactly the processed invocations, each in one group that has its content. */
  ghost predicate Partition<I>(all: seq<InvocationInfo<I>>, processed: map<nat, I>) {
    && (forall i, n: nat :: 0 <= i < |all| && all[i].Shares(n) ==> n in processed && processed[n] == all[i].invocation)
    && (forall n: nat :: n in processed ==> exists i :: 0 <= i < |all| && all[i].Shares(n))
    && (forall i, j, n: nat :: 0 <= i < j < |all| && all[i].Shares(n) ==> !all[j].Shares(n))
    && (forall i :: 0 <= i < |all| ==> 0 in all[i].sharers)
    && (forall i :: 0 <= i < |all| && all[i].partiallyDumped ==> all[i].sharers == {0})
  }

  /** A matching group takes an invocation that comes after its first one. */
  lemma MarkPartition<I>(all: seq<InvocationInfo<I>>, processed: map<nat, I>, i: nat, num: nat)
    requires Partition(all, processed) && i < |all| && !all[i].partiallyDumped && all[i].sharersOffset <= num
    requires num !in processed
    ensures Partition(all[i := all[i].Mark(num)], processed[num := all[i].invocation])
  {
    hide InvocationInfo.Shares;
    var next, after := all[i := all[i].Mark(num)], processed[num := all[i].invocation];
    forall j | 0 <= j < |all|
      ensures !all[j].Shares(num)
    {
      assert all[j].Shares(num) ==> num in processed.Keys;
    }
    MarkShares(all, i, num);
    forall n: nat | n in after
      ensures exists j :: 0 <= j < |next| && next[j].Shares(n)
    {
      if n == num {
        assert next[i].Shares(num);
      } else {
        var j :| 0 <= j < |all| && all[j].Shares(n);
        assert next[j].Shares(n);
      }
    }
    assert forall j :: 0 <= j < |next| ==> next[j].invocation == all[j].invocation && all[j].sharers <= next[j].sharers;
  }

  /** Marking adds one number to one group. */
  lemma MarkShares<I>(all: seq<InvocationInfo<I>>, i: nat, num: nat)
    requires i < |all| && all[i].sharersOffset <= num
    ensures var next := all[i := all[i].Mark(num)];
            forall j, n: nat :: 0 <= j < |all| ==> (next[j].Shares(n) <==> all[j].Shares(n) || (j == i && n == num))
  {
  }

  /** A new group holds just one invocation. */
  lemma AppendPartition<I>(all: seq<InvocationInfo<I>>, processed: map<nat, I>, inv: I, num: nat, partial: bool)
    requires Partition(all, processed) && num !in processed
    ensures Partition(all + [InvocationInfo(inv, {0}, num, partial)], processed[num := inv])
  {
    var next, after := all + [InvocationInfo(inv, {0}, num, partial)], processed[num := inv];
    forall n: nat | n in after
      ensures exists j :: 0 <= j < |next| && next[j].Shares(n)
    {
      if n == num {
        assert next[|all|].Shares(num);
      } else {
        var j :| 0 <= j < |all| && all[j].Shares(n);
        assert next[j].Shares(n);
      }
    }
    forall j, n: nat | 0 <= j < |next| && next[j].Shares(n)
      ensures n in after && after[n] == next[j].invocation && (j < |all| ==> n != num && all[j].Shares(n)) && (j == |all| ==> n == num)
    {
      assert j < |all| ==> all[j].Shares(n) && n in processed.Keys;
    }
    forall i, j, n: nat | 0 <= i < j < |next| && next[i].Shares(n)
      ensures !next[j].Shares(n)
    {
      assert all[i].Shares(n);
      assert n in processed.Keys;
      assert j < |all| ==> !all[j].Shares(n);
    }
  }

  /** The groups used last, and how the history goes on. */
  lemma RecentKept(recent: seq<nat>, uses: seq<nat>, n: nat)
    requires LatestUses(recent, uses, 32) && forall g <- uses :: g < n
    ensures forall i :: 0 <= i < |recent| ==> recent[i] < n
    ensures forall k :: 0 <= k < |recent| ==> LatestUses([recent[k]] + recent[..k] + recent[k + 1..], uses + [recent[k]], 32)
    ensures LatestUses(if |recent| < 32 then [n] + recent else [n] + recent[..31], uses + [n], 32)
  {
    assert |recent| <= 32 && forall i :: 0 <= i < |recent| ==> recent[i] in uses;
    hide LatestUses;
    forall k | 0 <= k < |recent|
      ensures LatestUses([recent[k]] + recent[..k] + recent[k + 1..], uses + [recent[k]], 32)
    {
      UsedAgain(recent, uses, 32, k);
    }
    UsedFirst(recent, uses, 32, n);
  }

  class ExecTrace<I(==)> {
    var allInvocationGroups: seq<InvocationInfo<I>>
    const latestInvocationGroups: array<int>   // positions in allInvocationGroups, most recently used first
    var startInvocation: nat
    ghost var processed: map<nat, I>           // the invocations processed since the last clear
    ghost var recent: seq<nat>                 // the used part of latestInvocationGroups
    ghost var uses: seq<nat>                   // the group that each of the invocations went to, in order

    ghost predicate Valid()
      reads this, latestInvocationGroups
    {
      && latestInvocationGroups.Length == NUM_LATEST_INVOCATION_GROUPS
      && Partition(allInvocationGroups, processed)
      && LatestUses(recent, uses, 32) && (forall g <- uses :: g < |allInvocationGroups|)
      && |recent| <= 32 && (forall i :: 0 <= i < |recent| ==> recent[i] < |allInvocationGroups|)
      && (recent == [] <==> allInvocationGroups == [])
      && (forall i :: 0 <= i < |recent| ==> latestInvocationGroups[i] == recent[i])
      && (forall i :: |recent| <= i < NUM_LATEST_INVOCATION_GROUPS ==> latestInvocationGroups[i] == NO_GROUP)
    }

    constructor ()
      ensures Valid() && processed == map[] && allInvocationGroups == [] && recent == uses == [] && fresh(latestInvocationGroups)
    {
      latestInvocationGroups := new int[NUM_LATEST_INVOCATION_GROUPS](_ => NO_GROUP);
      allInvocationGroups, startInvocation, processed, recent, uses := [], 0, map[], [], [];
      NoUses(32);
    }

    /** Forgets everything, after a dump. */
    method ClearTrace()
      requires Valid()
      modifies this, latestInvocationGroups
      ensures Valid() && processed == map[] && allInvocationGroups == [] && recent == uses == []
    {
      for i := 0 to NUM_LATEST_INVOCATION_GROUPS
        invariant latestInvocationGroups.Length == NUM_LATEST_INVOCATION_GROUPS
        invariant forall k :: 0 <= k < i ==> latestInvocationGroups[k] == NO_GROUP
      {
        latestInvocationGroups[i] := NO_GROUP;
      }
      allInvocationGroups, processed, recent, uses := [], map[], [], [];
      NoUses(32);
    }

    /**
     A dump: the groups written hold exactly the invocations processed since the last one, each in one group. Every
     invocation is accepted afterwards, also the next part of one that was running, and it starts a group.
     */
    method DumpTrace() returns (written: seq<InvocationInfo<I>>)
      requires Valid()
      modifies this, latestInvocationGroups
      ensures Valid() && processed == map[] && Partition(written, old(processed))
      ensures forall invocation, invocationNum, attemptMatch :: Acceptable(invocation, invocationNum, attemptMatch)
      ensures forall k :: 0 <= k < NUM_LATEST_INVOCATION_GROUPS ==> latestInvocationGroups[k] == NO_GROUP
    {
      written := allInvocationGroups;
      ClearTrace();
    }

    /** Moves the first `top` entries one place back. */
    method ShiftLatestInvocationGroups(top: nat)
      requires top < latestInvocationGroups.Length
      modifies latestInvocationGroups
      ensures forall i :: 0 < i <= top ==> latestInvocationGroups[i] == old(latestInvocationGroups[i - 1])
      ensures forall i :: top < i < latestInvocationGroups.Length ==> latestInvocationGroups[i] == old(latestInvocationGroups[i])
    {
      var i := top;
      while i > 0
        invariant 0 <= i <= top
        invariant forall k :: i < k <= top ==> latestInvocationGroups[k] == old(latestInvocationGroups[k - 1])
        invariant forall k :: 0 <= k <= i ==> latestInvocationGroups[k] == old(latestInvocationGroups[k])
        invariant forall k :: top < k < latestInvocationGroups.Length ==> latestInvocationGroups[k] == old(latestInvocationGroups[k])
      {
        latestInvocationGroups[i] := latestInvocationGroups[i - 1];
        i := i - 1;
      }
    }

    method NewInvocationGroup(invocation: I, invocationNum: nat, partiallyDumped: bool)
      requires Valid() && invocationNum !in processed
      modifies this, latestInvocationGroups
      ensures Valid() && processed == old(processed)[invocationNum := invocation]
      ensures allInvocationGroups == old(allInvocationGroups) + [InvocationInfo(invocation, {0}, invocationNum, partiallyDumped)]
      ensures uses == old(uses) + [|old(allInvocationGroups)|]
      ensures recent == if |old(recent)| < 32 then [|old(allInvocationGroups)|] + old(recent) else [|old(allInvocationGroups)|] + old(recent)[..31]
      ensures startInvocation == if old(recent) == [] then invocationNum else old(startInvocation)
    {
      hide Partition, LatestUses;
      AppendPartition(allInvocationGroups, processed, invocation, invocationNum, partiallyDumped);
      RecentKept(recent, uses, |allInvocationGroups|);
      if latestInvocationGroups[0] == NO_GROUP {
        startInvocation := invocationNum;
      } else {
        ShiftLatestInvocationGroups(NUM_LATEST_INVOCATION_GROUPS - 1);
      }
      latestInvocationGroups[0] := |allInvocationGroups|;
      recent := if |recent| < 32 then [|allInvocationGroups|] + recent else [|allInvocationGroups|] + recent[..31];
      uses := uses + [|allInvocationGroups|];
      allInvocationGroups := allInvocationGroups + [InvocationInfo(invocation, {0}, invocationNum, partiallyDumped)];
      processed := processed[invocationNum := invocation];
    }

    /** Is group `k` a complete one with this content? */
    predicate Matches(k: nat, invocation: I)
      requires k < |allInvocationGroups|
      reads this`allInvocationGroups
    {
      !allInvocationGroups[k].partiallyDumped && allInvocationGroups[k].invocation == invocation
    }

    /** The `k`-th of the groups used last is the first one that matches. */
    ghost predicate FirstMatch(k: nat, invocation: I)
      requires Valid() && k < |recent|
      reads this, latestInvocationGroups
    {
      (forall j :: 0 <= j < k ==> !Matches(recent[j], invocation)) && Matches(recent[k], invocation)
    }

    /** That group took the invocation and is now the first of them. */
    twostate predicate Joined(k: nat, invocation: I, invocationNum: nat)
      requires old(Valid()) && k < |old(recent)|
      reads this
    {
      var g := old(recent)[k];
      && old(FirstMatch(k, invocation)) && recent == [g] + old(recent)[..k] + old(recent)[k + 1..] && uses == old(uses) + [g]
      && old(allInvocationGroups)[g].sharersOffset <= invocationNum
      && allInvocationGroups == old(allInvocationGroups)[g := old(allInvocationGroups)[g].Mark(invocationNum)]
    }

    method JoinGroup(i: nat, invocation: I, invocationNum: nat)
      requires Valid() && invocationNum !in processed && i < |recent| && FirstMatch(i, invocation)
      requires allInvocationGroups[recent[i]].sharersOffset <= invocationNum
      modifies this, latestInvocationGroups
      ensures Valid() && processed == old(processed)[invocationNum := invocation]
      ensures Joined(i, invocation, invocationNum) && startInvocation == old(startInvocation)
    {
      hide Partition, LatestUses;
      var g := latestInvocationGroups[i];
      MarkPartition(allInvocationGroups, processed, g, invocationNum);
      RecentKept(recent, uses, |allInvocationGroups|);
      allInvocationGroups := allInvocationGroups[g := allInvocationGroups[g].Mark(invocationNum)];
      ShiftLatestInvocationGroups(i);
      latestInvocationGroups[0] := g;
      recent, uses := [recent[i]] + recent[..i] + recent[i + 1..], uses + [recent[i]];
      processed := processed[invocationNum := invocation];
    }

    /** Marking a sharer asserts that a group which takes the invocation did not start later. */
    ghost predicate Acceptable(invocation: I, invocationNum: nat, attemptMatch: bool)
      requires Valid()
      reads this, latestInvocationGroups
    {
      attemptMatch ==> forall k :: 0 <= k < |recent| && FirstMatch(k, invocation) ==>
        allInvocationGroups[recent[k]].sharersOffset <= invocationNum
    }

    /**
     Adds an invocation to the first matching group among those used last, or starts a group. A dumped part
     of an invocation starts a group of its own, which nothing is matched with. `ok` is the assertion made
     when a sharer is marked; it fails if and only if the matching group starts with a later invocation.
     */
    method ProcessInvocation(invocation: I, invocationNum: nat, attemptMatch: bool) returns (startsGroup: bool, ok: bool)
      requires Valid() && invocationNum !in processed
      modifies this, latestInvocationGroups
      ensures ok <==> old(Acceptable(invocation, invocationNum, attemptMatch))
      ensures Valid() && processed == if ok then old(processed)[invocationNum := invocation] else old(processed)
      ensures LatestUses(recent, uses, 32)
      ensures !ok ==> allInvocationGroups == old(allInvocationGroups) && recent == old(recent) && uses == old(uses)
      ensures startInvocation == if old(recent) == [] then invocationNum else old(startInvocation)
      ensures ok && startsGroup ==>
                && allInvocationGroups == old(allInvocationGroups) + [InvocationInfo(invocation, {0}, invocationNum, !attemptMatch)]
                && recent == (if |old(recent)| < 32 then [|old(allInvocationGroups)|] + old(recent)
                              else [|old(allInvocationGroups)|] + old(recent)[..31])
                && uses == old(uses) + [|old(allInvocationGroups)|]
                && (attemptMatch ==> forall k :: 0 <= k < |old(recent)| ==>
                     var info := old(allInvocationGroups)[old(recent)[k]];
                     info.partiallyDumped || info.invocation != invocation)
      ensures ok && !startsGroup ==> attemptMatch && exists k ::
                && 0 <= k < |old(recent)| && Joined(k, invocation, invocationNum)
                && (var info := old(allInvocationGroups)[old(recent)[k]]; !info.partiallyDumped && info.invocation == invocation)
                && forall j :: 0 <= j < k ==>
                     var info := old(allInvocationGroups)[old(recent)[j]];
                     info.partiallyDumped || info.invocation != invocation
    {
      hide Partition, LatestUses;
      if latestInvocationGroups[0] == NO_GROUP {
        NewInvocationGroup(invocation, invocationNum, !attemptMatch);
        return true, true;
      }
      if attemptMatch {
        for i := 0 to NUM_LATEST_INVOCATION_GROUPS
          invariant i <= |recent| && forall k :: 0 <= k < i ==> !Matches(recent[k], invocation)
          invariant unchanged(this) && unchanged(latestInvocationGroups)
        {
          if latestInvocationGroups[i] == NO_GROUP {
            break;
          }
          var g := latestInvocationGroups[i];
          if !allInvocationGroups[g].partiallyDumped && invocation == allInvocationGroups[g].invocation {
            assert Matches(recent[i], invocation) && FirstMatch(i, invocation);
            if invocationNum < allInvocationGroups[g].sharersOffset {
              return false, false;
            }
            JoinGroup(i, invocation, invocationNum);
            return false, true;
          }
        }
      }
      NewInvocationGroup(invocation, invocationNum, !attemptMatch);
      return true, true;
    }
  }

  /** Invocations that end in the order of their numbers are always accepted. */
  lemma GrowingNumbersAccepted<I>(t: ExecTrace<I>, invocation: I, invocationNum: nat, attemptMatch: bool)
    requires t.Valid() && forall n <- t.processed.Keys :: n < invocationNum
    ensures t.Acceptable(invocation, invocationNum, attemptMatch)
  {
    forall i | 0 <= i < |t.allInvocationGroups|
      ensures t.allInvocationGroups[i].sharersOffset < invocationNum
    {
      var info := t.allInvocationGroups[i];
      assert info.Shares(info.sharersOffset);
      assert info.sharersOffset in t.processed.Keys;
    }
  }

  /**
   Nested invocations of one call instruction end in the reverse order. When the innermost differs from the two
   around it, which are equal, the outermost finds the group of the middle one, and the assertion fails.
   */
  method NestedCalls<I(==)>(inner: I, outer: I) returns (ok: bool)
    requires inner != outer
    ensures !ok
  {
    hide Partition, ExecTrace.Valid, LatestUses;
    var trace := new ExecTrace<I>();
    GrowingNumbersAccepted(trace, inner, 2, true);
    var starts, accepted := trace.ProcessInvocation(inner, 2, true);
    assert trace.recent == [0] && trace.allInvocationGroups == [InvocationInfo(inner, {0}, 2, false)];
    assert !trace.Matches(0, outer);
    assert trace.Acceptable(outer, 1, true);
    starts, accepted := trace.ProcessInvocation(outer, 1, true);
    assert starts;
    assert trace.recent == [1, 0];
    assert trace.Matches(1, outer) && trace.FirstMatch(0, outer);
    starts, ok := trace.ProcessInvocation(outer, 0, true);
  }
}
