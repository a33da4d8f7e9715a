/** The callbacks a swap request makes while it runs: they are steps the leaf manager's runs allow, and
    they report each leaf as sent exactly once, except those of batches that were skipped. */
module SwapCallbacks {
  import opened LeafCache
  import opened LeafListing
  import opened LeafRuns
  import opened LeafSelection
  import opened Outcomes
  import opened Sorting
  import opened SwapBatching

  // ----- each callback is a step

  ghost predicate Alternates(calls: seq<Callback>)
  {
    forall i :: 0 <= i < |calls| ==> (calls[i].Registered? <==> i % 2 == 0)
  }

  lemma AlternatesOf(leaves: seq<TreeNode>, targets: seq<int>, service: Service)
    ensures Alternates(CallsOf(leaves, targets, service))
    ensures ExecuteSingle(leaves, targets, service).Ok? ==> |CallsOf(leaves, targets, service)| == 2
  {
  }

  lemma AlternatesConcat(a: seq<Callback>, b: seq<Callback>)
    requires Alternates(a) && Alternates(b) && |a| % 2 == 0
    ensures Alternates(a + b)
  {
    forall i | 0 <= i < |a + b| ensures (a + b)[i].Registered? <==> i % 2 == 0 {
      if i >= |a| {
        assert (a + b)[i] == b[i - |a|];
      }
    }
  }

  lemma {:induction false} AllAlternate(batches: seq<seq<TreeNode>>, shares: seq<seq<nat>>, service: Service)
    requires |batches| == |shares|
    ensures Alternates(AllCalls(batches, shares, service))
    ensures ExecuteAll(batches, shares, service).Ok? ==> |AllCalls(batches, shares, service)| % 2 == 0
  {
    hide CallsOf, ExecuteSingle;
    if batches != [] {
      AllAlternate(batches[1..], shares[1..], service);
      if shares[0] != [] {
        AlternatesOf(batches[0], shares[0], service);
        if ExecuteSingle(batches[0], shares[0], service).Ok? {
          AlternatesConcat(CallsOf(batches[0], shares[0], service), AllCalls(batches[1..], shares[1..], service));
        }
      }
    }
  }

  lemma SwapAlternates(leaves: seq<TreeNode>, targets: seq<int>, service: Service)
    ensures Alternates(SwapCalls(leaves, targets, service))
    ensures RequestSwap(leaves, targets, service).Ok? ==> |SwapCalls(leaves, targets, service)| % 2 == 0
  {
    hide Chunks, Distribution, CallsOf, ExecuteSingle, AllCalls, ExecuteAll;
    if Validate(leaves, targets).Ok? {
      if |leaves| <= MAX_BATCH_SIZE {
        AlternatesOf(leaves, targets, service);
      } else {
        assert forall i :: 0 <= i < |targets| ==> targets[i] in targets;
        var batches := Chunks(LargestFirst(leaves), MAX_BATCH_SIZE);
        var shares := Distribution(targets, batches);
        if shares.Ok? {
          AllAlternate(batches, shares.value, service);
        }
      }
    }
  }

  /** What the leaf manager does on a callback. */
  function StepOf(op: OpId, call: Callback, swapId: string): Step
  {
    match call case Registered => RegisterSwap(op, swapId) case Initiated(_) => SwapInitiated(op)
  }

  /** The operation once these callbacks were made. */
  function OpAfter(o: Op, calls: seq<Callback>): (r: Op)
    requires !o.Executing?
    ensures !r.Executing? && (r.Swapping? <==> o.Swapping?)
    ensures o.Optimizing? ==> r.batches == o.batches && r.next == o.next
  {
    if calls == [] then o
    else
      var before := OpAfter(o, calls[..|calls| - 1]);
      if calls[|calls| - 1].Registered? then before.(registered := true) else before.(initiated := true)
  }

  lemma OpAfterOne(o: Op, calls: seq<Callback>, k: nat)
    requires !o.Executing? && k < |calls|
    ensures var before := OpAfter(o, calls[..k]);
      OpAfter(o, calls[..k + 1]) == if calls[k].Registered? then before.(registered := true) else before.(initiated := true)
  {
    assert calls[..k + 1][..k] == calls[..k];
  }

  lemma CallIsStep(s: State, op: OpId, call: Callback, swapId: string)
    requires op in s.ops && !s.ops[op].Executing? && (call.Initiated? ==> s.ops[op].registered)
    ensures var step := StepOf(op, call, swapId);
      && Enabled(s, step)
      && op in Stepped(s, step).ops
      && Stepped(s, step).ops[op] == if call.Registered? then s.ops[op].(registered := true) else s.ops[op].(initiated := true)
  {
    hide Unlocked, Lock, LockedBy, OptimizationIds, NoneTwice;
  }

  /** A registration names the swap as the source of each leaf it still has locked; a report makes the leaf
      pending and keeps that source. */
  lemma CallbackEffect(s: State, op: OpId, call: Callback, swapId: string, id: LeafId)
    requires op in s.ops && !s.ops[op].Executing? && (call.Initiated? ==> s.ops[op].registered)
    requires HasStatus(s.cache, id, LocalLocked) && id in SwapIds(s.ops[op])
    ensures var step, was := StepOf(op, call, swapId), s.cache[id];
      && Enabled(s, step)
      && var m' := Stepped(s, step).cache;
      && id in m'
      && m'[id] == if call.Registered? then LeafRecord(was.treeNode, LocalLocked, FromSwap(swapId))
                   else LeafRecord(was.treeNode, SwapPending, was.source)
  {
    CallIsStep(s, op, call, swapId);
    hide LockedBy, OptimizationIds, NoneTwice, SwapIds, Enabled;
  }

  lemma RegisteredBefore(o: Op, calls: seq<Callback>, k: nat)
    requires Alternates(calls) && !o.Executing? && k < |calls| && calls[k].Initiated?
    ensures OpAfter(o, calls[..k]).registered
  {
    hide OpAfter;
    assert k % 2 == 1 && (k - 1) % 2 == 0;
    assert calls[k - 1].Registered?;
    hide Alternates;
    OpAfterOne(o, calls, k - 1);
  }

  lemma NextCallIsStep(s: State, op: OpId, o: Op, calls: seq<Callback>, k: nat, swapId: string)
    requires Alternates(calls) && !o.Executing? && k < |calls| && op in s.ops && s.ops[op] == OpAfter(o, calls[..k])
    ensures var step := StepOf(op, calls[k], swapId);
      && Enabled(s, step)
      && op in Stepped(s, step).ops && Stepped(s, step).ops[op] == OpAfter(o, calls[..k + 1])
  {
    hide *;
    OpAfterOne(o, calls, k);
    if calls[k].Initiated? {
      RegisteredBefore(o, calls, k);
    }
    CallIsStep(s, op, calls[k], swapId);
  }

  /** Whatever other operations and events did in between: the next callback of a request is a step its
      operation can take, and leads to the operation the following callback expects. */
  lemma CallbacksAreSteps(s: State, op: OpId, o: Op, k: nat, swapId: string, leaves: seq<TreeNode>, targets: seq<int>, service: Service)
    requires var calls := SwapCalls(leaves, targets, service);
      !o.Executing? && k < |calls| && op in s.ops && s.ops[op] == OpAfter(o, calls[..k])
    ensures var calls := SwapCalls(leaves, targets, service);
      var step := StepOf(op, calls[k], swapId);
      && Enabled(s, step)
      && op in Stepped(s, step).ops && Stepped(s, step).ops[op] == OpAfter(o, calls[..k + 1])
  {
    hide *;
    SwapAlternates(leaves, targets, service);
    NextCallIsStep(s, op, o, SwapCalls(leaves, targets, service), k, swapId);
  }

  lemma {:induction false} SharesAreSent(batches: seq<seq<TreeNode>>, shares: seq<seq<nat>>, service: Service)
    requires |batches| == |shares| && ExecuteAll(batches, shares, service).Ok? && Flat(shares) != []
    ensures AllCalls(batches, shares, service) != []
  {
    hide CallsOf, ExecuteSingle;
    if shares[0] == [] {
      SharesAreSent(batches[1..], shares[1..], service);
    } else {
      AlternatesOf(batches[0], shares[0], service);
    }
  }

  lemma SomethingSent(leaves: seq<TreeNode>, targets: seq<nat>, service: Service)
    requires RequestSwap(leaves, targets, service).Ok?
    ensures SwapCalls(leaves, targets, service) != []
  {
    hide Chunks, Distribution, CallsOf, ExecuteSingle, AllCalls, ExecuteAll;
    if |leaves| <= MAX_BATCH_SIZE {
      AlternatesOf(leaves, targets, service);
    } else {
      var batches := Chunks(LargestFirst(leaves), MAX_BATCH_SIZE);
      DistributionPartitions(targets, batches);
      var shares := Distribution(targets, batches).value;
      assert targets[0] in multiset(targets);
      assert targets[0] in Flat(shares);
      SharesAreSent(batches, shares, service);
    }
  }

  /** When the request returned leaves, its operation has become one that can finish with them. */
  lemma FinishFollows(o: Op, op: OpId, reselected: Option<seq<LeafId>>, leaves: seq<TreeNode>, targets: seq<nat>, service: Service)
    requires RequestSwap(leaves, targets, service).Ok? && !o.Executing?
    ensures var returned, o' := RequestSwap(leaves, targets, service).value, OpAfter(o, SwapCalls(leaves, targets, service));
      && (o.Swapping? ==> InPhase(o', FinishSwap(op, returned, reselected)))
      && (o.Optimizing? && o.next < |o.batches| ==> InPhase(o', BatchCompleted(op, returned)))
  {
    hide RequestSwap, SwapCalls, OpAfter;
    var calls := SwapCalls(leaves, targets, service);
    SwapAlternates(leaves, targets, service);
    SomethingSent(leaves, targets, service);
    OpAfterOne(o, calls, |calls| - 1);
    assert calls[..|calls| - 1 + 1] == calls;
  }

  // ----- what the callbacks report

  function ReportedBy(call: Callback): seq<LeafId>
  {
    match call case Registered => [] case Initiated(ids) => ids
  }

  /** The ids reported as sent. */
  function SentIds(calls: seq<Callback>): seq<LeafId>
  {
    if calls == [] then [] else ReportedBy(calls[0]) + SentIds(calls[1..])
  }

  lemma {:induction false} SentConcat(a: seq<Callback>, b: seq<Callback>)
    ensures SentIds(a + b) == SentIds(a) + SentIds(b)
  {
    hide ReportedBy;
    if a == [] {
      assert a + b == b;
    } else {
      SentConcat(a[1..], b);
      assert (a + b)[1..] == a[1..] + b && (a + b)[0] == a[0];
      assert SentIds(a + b) == ReportedBy(a[0]) + SentIds(a[1..] + b);
    }
  }

  lemma SentOf(leaves: seq<TreeNode>, targets: seq<int>, service: Service)
    requires ExecuteSingle(leaves, targets, service).Ok?
    ensures SentIds(CallsOf(leaves, targets, service)) == IdsOf(leaves)
  {
    var calls := CallsOf(leaves, targets, service);
    assert calls[1..] == [Initiated(IdsOf(leaves))] && calls[1..][1..] == [];
    assert SentIds(calls[1..]) == IdsOf(leaves) + [] == IdsOf(leaves);
  }

  /** The leaves of the batches that were given no target. */
  function SkippedLeaves(batches: seq<seq<TreeNode>>, shares: seq<seq<nat>>): seq<TreeNode>
    requires |batches| == |shares|
  {
    if batches == [] then [] else (if shares[0] == [] then batches[0] else []) + SkippedLeaves(batches[1..], shares[1..])
  }

  lemma IdsConcat(a: seq<TreeNode>, b: seq<TreeNode>)
    ensures IdsOf(a + b) == IdsOf(a) + IdsOf(b)
  {
  }

  lemma FirstBatch(batches: seq<seq<TreeNode>>, shares: seq<seq<nat>>, service: Service)
    requires |batches| == |shares| > 0 && ExecuteAll(batches, shares, service).Ok?
    ensures ExecuteAll(batches[1..], shares[1..], service).Ok?
    ensures var later := SkippedLeaves(batches[1..], shares[1..]);
      SkippedLeaves(batches, shares) == if shares[0] == [] then batches[0] + later else later
    ensures var later := SentIds(AllCalls(batches[1..], shares[1..], service));
      SentIds(AllCalls(batches, shares, service)) == if shares[0] == [] then later else IdsOf(batches[0]) + later
  {
    hide CallsOf, ExecuteSingle, IdsOf, SentIds;
    if shares[0] != [] {
      SentOf(batches[0], shares[0], service);
      SentConcat(CallsOf(batches[0], shares[0], service), AllCalls(batches[1..], shares[1..], service));
      assert [] + SkippedLeaves(batches[1..], shares[1..]) == SkippedLeaves(batches[1..], shares[1..]);
    }
  }

  lemma {:induction false} AllCallsAccount(batches: seq<seq<TreeNode>>, shares: seq<seq<nat>>, service: Service)
    requires |batches| == |shares| && ExecuteAll(batches, shares, service).Ok?
    ensures multiset(SentIds(AllCalls(batches, shares, service))) + multiset(IdsOf(SkippedLeaves(batches, shares)))
         == multiset(IdsOf(Flatten(batches)))
  {
    if batches != [] {
      AllCallsAccount(batches[1..], shares[1..], service);
      FirstBatch(batches, shares, service);
      assert Flatten(batches) == batches[0] + Flatten(batches[1..]);
      IdsConcat(batches[0], Flatten(batches[1..]));
      IdsConcat(batches[0], SkippedLeaves(batches[1..], shares[1..]));
      hide *;
    }
  }

  lemma {:induction false} FlattenChunks(s: seq<TreeNode>, size: nat)
    requires size > 0
    ensures Flatten(Chunks(s, size)) == s
    decreases |s|
  {
    if |s| > size {
      FlattenChunks(s[size..], size);
      assert s == s[..size] + s[size..];
    } else if s != [] {
      assert [s][1..] == [];
    }
  }

  lemma IdsFirst(s: seq<TreeNode>)
    requires s != []
    ensures multiset(IdsOf(s)) == multiset{s[0].id} + multiset(IdsOf(s[1..]))
  {
    assert IdsOf(s) == [s[0].id] + IdsOf(s[1..]);
  }

  lemma {:induction false} InsertIds(x: TreeNode, s: seq<TreeNode>)
    ensures multiset(IdsOf(InsertBy(DESCENDING, x, s))) == multiset(IdsOf(s)) + multiset{x.id}
  {
    hide IdsOf;
    var r := InsertBy(DESCENDING, x, s);
    IdsFirst(r);
    if s == [] || DESCENDING(x, s[0]) {
      assert r[1..] == s;
    } else {
      InsertIds(x, s[1..]);
      IdsFirst(s);
    }
  }

  lemma {:induction false} SortIds(s: seq<TreeNode>)
    ensures multiset(IdsOf(SortBy(DESCENDING, s))) == multiset(IdsOf(s))
  {
    hide IdsOf, InsertBy;
    if s != [] {
      SortIds(s[1..]);
      InsertIds(s[0], SortBy(DESCENDING, s[1..]));
      IdsFirst(s);
    }
  }

  /** The leaves of a request that are in no executed batch. */
  function NeverSent(leaves: seq<TreeNode>, targets: seq<nat>): seq<TreeNode>
  {
    var batches := Chunks(LargestFirst(leaves), MAX_BATCH_SIZE);
    if |leaves| <= MAX_BATCH_SIZE || Distribution(targets, batches).Err? then []
    else SkippedLeaves(batches, Distribution(targets, batches).value)
  }

  lemma {:induction false} SkippedLeavesValue(batches: seq<seq<TreeNode>>, shares: seq<seq<nat>>)
    requires |batches| == |shares|
    ensures Value(SkippedLeaves(batches, shares)) == Skipped(batches, shares)
  {
    if batches != [] {
      SkippedLeavesValue(batches[1..], shares[1..]);
      ValueConcat(if shares[0] == [] then batches[0] else [], SkippedLeaves(batches[1..], shares[1..]));
    }
  }

  /** A request that returned leaves has reported each leaf handed to it as sent exactly as often as it
      was handed over, except the leaves of skipped batches, which are worth what is lost. */
  lemma EveryLeafIsReported(leaves: seq<TreeNode>, targets: seq<nat>, service: Service)
    requires RequestSwap(leaves, targets, service).Ok?
    ensures multiset(SentIds(SwapCalls(leaves, targets, service))) + multiset(IdsOf(NeverSent(leaves, targets)))
         == multiset(IdsOf(leaves))
    ensures Value(NeverSent(leaves, targets)) == SkippedValue(leaves, targets)
  {
    hide Chunks, Distribution, CallsOf, ExecuteSingle, AllCalls, ExecuteAll, SentIds, IdsOf, Flatten, Validate;
    if |leaves| <= MAX_BATCH_SIZE {
      SentOf(leaves, targets, service);
      NoIds();
    } else {
      var batches := Chunks(LargestFirst(leaves), MAX_BATCH_SIZE);
      var shares := Distribution(targets, batches).value;
      AllCallsAccount(batches, shares, service);
      FlattenChunks(LargestFirst(leaves), MAX_BATCH_SIZE);
      SortIds(leaves);
      SkippedLeavesValue(batches, shares);
    }
  }

  lemma NoIds()
    ensures IdsOf([]) == []
  {
  }
}
