/** What the end of a swap request means for the operation that made it: when it returns what was captured,
    and which leaves a failed one gives back. */
module SwapOutcomes {
  import opened ChainSelection
  import opened CoverSelection
  import opened GreedyExactness
  import opened LeafCache
  import opened LeafConservation
  import opened LeafListing
  import opened LeafRuns
  import opened LeafSelection
  import opened Outcomes
  import opened Sorting
  import opened SwapBatching
  import opened SwapCallbacks

  /** The leaves of the swap under way, as the operation captured them. */
  ghost predicate Hands(o: Op, leaves: seq<TreeNode>)
  {
    && !o.Executing? && IdsOf(leaves) == SwapIds(o) && UniqueIds(leaves)
    && forall x :: x in leaves ==> HasStatus(o.captured, x.id, Available) && o.captured[x.id].treeNode == x
  }

  /** What an operation locks for a swap and hands over is what it captured. */
  lemma BeginHands(s: State, op: OpId, leaves: seq<TreeNode>)
    requires op !in s.ops && UniqueIds(leaves)
    requires forall x :: x in leaves ==> HasStatus(s.cache, x.id, Available) && s.cache[x.id].treeNode == x
    ensures var s' := Next(s, Do(BeginSwap(op, IdsOf(leaves)))); op in s'.ops && Hands(s'.ops[op], leaves)
  {
    hide UniqueIds, LockedBy, OptimizationIds, Lock;
    var ids := IdsOf(leaves);
    assert AllAvailable(s.cache, ids);
    assert Enabled(s, BeginSwap(op, ids));
    assert forall x :: x in leaves ==> x.id in ids;
  }

  /** Callbacks leave the captured leaves alone. */
  lemma {:induction false} HandsAfter(o: Op, calls: seq<Callback>, leaves: seq<TreeNode>)
    requires Hands(o, leaves)
    ensures Hands(OpAfter(o, calls), leaves)
    ensures OpAfter(o, calls).initiated <==> o.initiated || exists i :: 0 <= i < |calls| && calls[i].Initiated?
  {
    hide IdsOf, UniqueIds;
    if calls != [] {
      HandsAfter(o, calls[..|calls| - 1], leaves);
    }
  }

  // ----- what comes back is worth what was captured

  lemma CapturedFirst(m: Cache, id: LeafId, rest: seq<LeafId>)
    requires id in m && id !in rest
    ensures id in Captured(m, [id] + rest) && Captured(m, [id] + rest)[id] == m[id]
    ensures Captured(m, [id] + rest) - {id} == Captured(m, rest)
  {
    assert forall other :: other in [id] + rest <==> other == id || other in rest;
  }

  lemma {:induction false} CapturedValue(m: Cache, leaves: seq<TreeNode>)
    requires UniqueIds(leaves) && forall x :: x in leaves ==> HasStatus(m, x.id, Available) && m[x.id].treeNode == x
    ensures OwnedValue(Captured(m, IdsOf(leaves))) == Value(leaves)
  {
    hide UniqueIds, LeafCache.Total;
    if leaves == [] {
      assert Captured(m, IdsOf(leaves)) == map[];
      NothingOwned();
    } else {
      assert IdsOf(leaves) == [leaves[0].id] + IdsOf(leaves[1..]);
      hide Captured, IdsOf;
      assert leaves[0] in leaves && forall x :: x in leaves[1..] ==> x in leaves;
      TailDiffers(leaves);
      CapturedValue(m, leaves[1..]);
      CapturedFirst(m, leaves[0].id, IdsOf(leaves[1..]));
      TotalRemove(Captured(m, IdsOf(leaves)), leaves[0].id, OWNED_STATUSES);
    }
  }

  lemma NothingOwned()
    ensures OwnedValue(map[]) == 0
  {
  }

  lemma TailDiffers(leaves: seq<TreeNode>)
    requires UniqueIds(leaves) && leaves != []
    ensures UniqueIds(leaves[1..]) && leaves[0].id !in IdsOf(leaves[1..])
  {
    PairwiseTail(DIFFERENT_IDS, leaves);
  }

  /** When the service's answers are worth what they were sent, a request returns what its operation
      captured exactly when every batch of worth was given a target. */
  lemma SwapBalancesExactly(o: Op, leaves: seq<TreeNode>, targets: seq<nat>, service: Service)
    requires Hands(o, leaves) && ReturnsValue(service) && RequestSwap(leaves, targets, service).Ok?
    ensures Value(RequestSwap(leaves, targets, service).value) == SentValue(o) <==> EveryBatchServed(leaves, targets)
  {
    CapturedValue(o.captured, leaves);
    hide ReturnsValue, EveryBatchServed, RequestSwap, Value, OwnedValue;
    NothingIsLostExactly(leaves, targets, service);
  }

  /** In particular for at most 64 leaves, and when the targets ask for everything. */
  lemma SwapBalances(o: Op, leaves: seq<TreeNode>, targets: seq<nat>, service: Service)
    requires Hands(o, leaves) && ReturnsValue(service) && RequestSwap(leaves, targets, service).Ok?
    requires |leaves| <= MAX_BATCH_SIZE || Sum(targets) == Value(leaves)
    ensures Value(RequestSwap(leaves, targets, service).value) == SentValue(o)
  {
    CapturedValue(o.captured, leaves);
    hide ReturnsValue, RequestSwap, Value, OwnedValue, SkippedValue, Sum;
    if |leaves| > MAX_BATCH_SIZE {
      SkippedAtMostTheRest(leaves, targets);
    }
    NothingSkippedBelow(leaves, targets);
    SwapReturnsAllButSkipped(leaves, targets, service);
  }

  lemma NothingSkippedBelow(leaves: seq<TreeNode>, targets: seq<nat>)
    ensures |leaves| <= MAX_BATCH_SIZE ==> SkippedValue(leaves, targets) == 0
  {
  }

  /** So the return of a swap is balanced, in the sense the conservation of the owned balance asks for,
      exactly when its leaves are new and every batch of worth was given a target. */
  lemma ReturnIsBalancedExactly(s: State, step: Step, leaves: seq<TreeNode>, targets: seq<nat>, service: Service)
    requires (step.FinishSwap? || step.BatchCompleted?) && Enabled(s, step) && Hands(s.ops[step.op], leaves)
    requires ReturnsValue(service) && RequestSwap(leaves, targets, service) == Ok(step.newLeaves)
    ensures BalancedStep(s, step) <==> NewIds(s.cache, step.newLeaves) && EveryBatchServed(leaves, targets)
  {
    hide Hands, ReturnsValue, EveryBatchServed, RequestSwap, NewIds, SentValue, Value, AllAvailable, Unlocked;
    SwapBalancesExactly(s.ops[step.op], leaves, targets, service);
  }

  // ----- what a failed request gives back

  ghost predicate Announced(calls: seq<Callback>)
  {
    exists i :: 0 <= i < |calls| && calls[i].Initiated?
  }

  lemma {:induction false} NothingSentUnannounced(calls: seq<Callback>)
    requires !Announced(calls)
    ensures SentIds(calls) == []
  {
    if calls != [] {
      assert calls[0].Registered?;
      assert forall i :: 0 <= i < |calls| - 1 ==> calls[1..][i] == calls[i + 1];
      NothingSentUnannounced(calls[1..]);
    }
  }

  /** After a failed request the manager restores all the leaves it handed over when no batch was reported
      as sent, and none of them otherwise. */
  lemma FailureRestoresAllOrNone(s: State, op: OpId, o: Op, calls: seq<Callback>, leaves: seq<TreeNode>, x: TreeNode)
    requires o.Swapping? && !o.initiated && Hands(o, leaves) && x in leaves
    requires SwapsIntact(s) && op in s.ops && s.ops[op] == OpAfter(o, calls)
    ensures var s' := Next(s, Do(SwapFailed(op)));
      HasStatus(s'.cache, x.id, if Announced(calls) then SwapPending else Available)
  {
    HandsAfter(o, calls, leaves);
    hide UniqueIds, OpAfter, LockedBy, OptimizationIds;
    assert x.id in s.ops[op].ids;
    assert Pending(s, op, x.id);
    assert Enabled(s, SwapFailed(op));
  }

  /** So it restores exactly the leaves that were never reported as sent if and only if nothing or
      everything was reported. */
  lemma FailureRestoresUnsentExactly(s: State, op: OpId, o: Op, calls: seq<Callback>, leaves: seq<TreeNode>)
    requires o.Swapping? && !o.initiated && Hands(o, leaves)
    requires SwapsIntact(s) && op in s.ops && s.ops[op] == OpAfter(o, calls)
    ensures var after := Next(s, Do(SwapFailed(op))).cache;
      (forall x :: x in leaves ==> (HasStatus(after, x.id, Available) <==> x.id !in SentIds(calls)))
      <==> !Announced(calls) || forall x :: x in leaves ==> x.id in SentIds(calls)
  {
    hide Next, Hands, SwapsIntact, OpAfter, Announced, SentIds;
    var after := Next(s, Do(SwapFailed(op))).cache;
    if !Announced(calls) {
      NothingSentUnannounced(calls);
    }
    forall x | x in leaves ensures HasStatus(after, x.id, if Announced(calls) then SwapPending else Available) {
      FailureRestoresAllOrNone(s, op, o, calls, leaves, x);
    }
  }

  /** For at most 64 leaves, a single batch, it always does. */
  lemma SingleBatchIsAllOrNothing(leaves: seq<TreeNode>, targets: seq<int>, service: Service)
    requires |leaves| <= MAX_BATCH_SIZE
    ensures var calls := SwapCalls(leaves, targets, service);
      !Announced(calls) || forall x :: x in leaves ==> x.id in SentIds(calls)
  {
    hide Validate;
    var sent := [Registered, Initiated(IdsOf(leaves))];
    assert sent[1..] == [Initiated(IdsOf(leaves))] && sent[1..][1..] == [];
    assert SentIds(sent[1..]) == IdsOf(leaves);
  }

  lemma {:induction false} UnsentBatch(batches: seq<seq<TreeNode>>, shares: seq<seq<nat>>, service: Service) returns (x: TreeNode)
    requires |batches| == |shares| && ExecuteAll(batches, shares, service) == Err(SendFailed)
    requires UniqueIds(Flatten(batches)) && forall b :: b in batches ==> b != []
    ensures x in Flatten(batches) && x.id !in SentIds(AllCalls(batches, shares, service))
  {
    var first, later := batches[0], batches[1..];
    assert first in batches && forall b :: b in later ==> b in batches;
    FlattenSplits(batches);
    hide UniqueIds, Flatten, IdsOf, ReportedBy, Validate;
    if shares[0] != [] && ExecuteSingle(first, shares[0], service).Err? {
      x := first[0];
      assert CallsOf(first, shares[0], service) == [] || CallsOf(first, shares[0], service) == [Registered];
      UnannouncedSends(CallsOf(first, shares[0], service));
    } else {
      x := UnsentBatch(later, shares[1..], service);
      if shares[0] != [] {
        SentOf(first, shares[0], service);
        SentConcat(CallsOf(first, shares[0], service), AllCalls(later, shares[1..], service));
      }
    }
  }

  lemma UnannouncedSends(calls: seq<Callback>)
    requires calls == [] || calls == [Registered]
    ensures SentIds(calls) == [] && SentIds(calls + []) == []
  {
    assert calls + [] == calls;
    NothingSentUnannounced(calls);
  }

  lemma PairwiseSplit(a: seq<TreeNode>, b: seq<TreeNode>)
    requires UniqueIds(a + b)
    ensures UniqueIds(b)
    ensures forall x :: x in b ==> x.id !in IdsOf(a)
  {
    var all := a + b;
    forall i, j | 0 <= i < j < |b| ensures DIFFERENT_IDS(b[i], b[j]) {
      assert all[|a| + i] == b[i] && all[|a| + j] == b[j];
    }
    forall i, j | 0 <= i < |a| && 0 <= j < |b| ensures a[i].id != b[j].id {
      assert all[i] == a[i] && all[|a| + j] == b[j];
      assert DIFFERENT_IDS(all[i], all[|a| + j]);
    }
  }

  lemma FlattenSplits(batches: seq<seq<TreeNode>>)
    requires batches != [] && UniqueIds(Flatten(batches))
    ensures UniqueIds(Flatten(batches[1..]))
    ensures forall x :: x in batches[0] || x in Flatten(batches[1..]) ==> x in Flatten(batches)
    ensures forall x :: x in Flatten(batches[1..]) ==> x.id !in IdsOf(batches[0])
  {
    assert Flatten(batches) == batches[0] + Flatten(batches[1..]);
    hide Flatten, UniqueIds, IdsOf;
    PairwiseSplit(batches[0], Flatten(batches[1..]));
  }

  lemma {:induction false} PlaceFails(s: Shares, targets: seq<nat>)
    requires s.Matched() && Place(s, targets).Err?
    ensures Place(s, targets).error.Unassigned?
    decreases targets
  {
    if PlaceOne(s, targets[0]).Ok? {
      PlaceFails(PlaceOne(s, targets[0]).value, targets[1..]);
    }
  }

  lemma DistributionFails(targets: seq<nat>, batches: seq<seq<TreeNode>>)
    ensures Distribution(targets, batches).Err? ==> Distribution(targets, batches).error.Unassigned?
  {
    if Distribution(targets, batches).Err? {
      PlaceFails(NoShares(batches), SortBy(LARGER, targets));
    }
  }

  lemma UnsentExecutes(leaves: seq<TreeNode>, targets: seq<nat>, service: Service)
    requires |leaves| > MAX_BATCH_SIZE && RequestSwap(leaves, targets, service) == Err(SendFailed)
    ensures var batches := Chunks(LargestFirst(leaves), MAX_BATCH_SIZE); var shares := Distribution(targets, batches);
      && shares.Ok? && ExecuteAll(batches, shares.value, service) == Err(SendFailed)
      && SwapCalls(leaves, targets, service) == AllCalls(batches, shares.value, service)
  {
    hide Chunks, LargestFirst, Distribution, ExecuteAll, AllCalls;
    DistributionFails(targets, Chunks(LargestFirst(leaves), MAX_BATCH_SIZE));
  }

  lemma SortedFlattens(leaves: seq<TreeNode>)
    requires UniqueIds(leaves)
    ensures var all := Flatten(Chunks(LargestFirst(leaves), MAX_BATCH_SIZE));
      UniqueIds(all) && forall x :: x in all <==> x in leaves
  {
    hide UniqueIds, Flatten, Chunks, SortBy;
    SortUnique(leaves);
    SameMembers(DESCENDING, leaves);
    FlattenChunks(LargestFirst(leaves), MAX_BATCH_SIZE);
  }

  /** With more leaves, a request that stops because a batch could not be sent has left a leaf unreported. */
  lemma UnsentLeafExists(leaves: seq<TreeNode>, targets: seq<nat>, service: Service) returns (x: TreeNode)
    requires |leaves| > MAX_BATCH_SIZE && UniqueIds(leaves) && RequestSwap(leaves, targets, service) == Err(SendFailed)
    ensures x in leaves && x.id !in SentIds(SwapCalls(leaves, targets, service))
  {
    hide *;
    SortedFlattens(leaves);
    UnsentExecutes(leaves, targets, service);
    var batches := Chunks(LargestFirst(leaves), MAX_BATCH_SIZE);
    x := UnsentBatch(batches, Distribution(targets, batches).value, service);
  }

  /** Then it restores exactly the unreported leaves only when no batch at all was reported. */
  lemma UnsentFailureRestoresExactly(s: State, op: OpId, o: Op, leaves: seq<TreeNode>, targets: seq<nat>, service: Service)
    requires |leaves| > MAX_BATCH_SIZE && RequestSwap(leaves, targets, service) == Err(SendFailed)
    requires o.Swapping? && !o.initiated && Hands(o, leaves)
    requires SwapsIntact(s) && op in s.ops && s.ops[op] == OpAfter(o, SwapCalls(leaves, targets, service))
    ensures var calls, after := SwapCalls(leaves, targets, service), Next(s, Do(SwapFailed(op))).cache;
      (forall x :: x in leaves ==> (HasStatus(after, x.id, Available) <==> x.id !in SentIds(calls))) <==> !Announced(calls)
  {
    assert UniqueIds(leaves);
    hide *;
    var x := UnsentLeafExists(leaves, targets, service);
    FailureRestoresUnsentExactly(s, op, o, SwapCalls(leaves, targets, service), leaves);
  }

  // ----- a failure that strands a leaf

  /** A full batch of equal leaves and a smaller one; targets that need all of them, the larger of which
      leaves too little of the full batch for the other. */
  ghost predicate NeedsSecondBatch(equal: seq<TreeNode>, small: TreeNode, few: nat, most: nat)
  {
    && |equal| == MAX_BATCH_SIZE && UniqueIds([small] + equal)
    && (forall x :: x in equal ==> x.value == 10) && small.value == 5
    && few == 3 && most == 638
  }

  lemma {:induction false} EqualValue(ls: seq<TreeNode>, value: nat)
    requires forall x :: x in ls ==> x.value == value
    ensures Value(ls) == |ls| * value
  {
    if ls != [] {
      assert ls[0] in ls;
      EqualValue(ls[1..], value);
      assert |ls| * value == value + (|ls| - 1) * value;
    }
  }

  lemma {:induction false} SmallComesLast(equal: seq<TreeNode>, small: TreeNode)
    requires forall x :: x in equal ==> x.value > small.value
    ensures InsertBy(DESCENDING, small, equal) == equal + [small]
  {
    if equal != [] {
      assert equal[0] in equal;
      SmallComesLast(equal[1..], small);
    }
  }

  lemma {:induction false} NothingFits(ls: seq<TreeNode>, r: nat)
    requires forall x :: x in ls ==> x.value > r
    ensures Taken(ls, r) == []
  {
    if ls != [] {
      assert ls[0] in ls;
      NothingFits(ls[1..], r);
    }
  }

  lemma StrandedDescending(equal: seq<TreeNode>, small: TreeNode, few: nat, most: nat)
    requires NeedsSecondBatch(equal, small, few, most)
    ensures SortBy(DESCENDING, [small] + equal) == equal + [small]
  {
    SortedStays(DESCENDING, equal);
    SmallComesLast(equal, small);
    assert ([small] + equal)[1..] == equal;
    hide InsertBy;
  }

  lemma StrandedAscending(equal: seq<TreeNode>, small: TreeNode, few: nat, most: nat)
    requires NeedsSecondBatch(equal, small, few, most)
    ensures SortBy(ASCENDING, [small] + equal) == [small] + equal
  {
    SortedStays(ASCENDING, [small] + equal);
  }

  lemma StrandedValues(equal: seq<TreeNode>, small: TreeNode, few: nat, most: nat)
    requires NeedsSecondBatch(equal, small, few, most)
    ensures Value(equal) == 640 && Value([small] + equal) == 645 && Value(([small] + equal)[..|equal|]) == 635
  {
    var available, front := [small] + equal, equal[..|equal| - 1];
    EqualValue(equal, 10);
    EqualValue(front, 10);
    assert available[1..] == equal;
    assert available[..|equal|] == [small] + front && ([small] + front)[1..] == front;
  }

  lemma StrandedNotFound(equal: seq<TreeNode>, small: TreeNode, few: nat, most: nat)
    requires NeedsSecondBatch(equal, small, few, most)
    ensures !Found([small] + equal, [few, most])
  {
    var available := [small] + equal;
    StrandedDescending(equal, small, few, most);
    TwoTargets(few, most);
    NothingFits(equal + [small], few);
    FoundMeansExact(available, [few, most]);
    hide SortBy, Taken, Rest, Processing, Found;
    assert Batches(available, [few, most])[0] == [];
  }

  /** The manager finds no exact selection and hands over all the leaves. */
  lemma StrandedIsAsked(equal: seq<TreeNode>, small: TreeNode, few: nat, most: nat)
    requires NeedsSecondBatch(equal, small, few, most)
    ensures !Found([small] + equal, [few, most])
    ensures LeavesToSwap([small] + equal, Sum([few, most])) == Ok([small] + equal)
  {
    var available := [small] + equal;
    StrandedNotFound(equal, small, few, most);
    StrandedAscending(equal, small, few, most);
    StrandedValues(equal, small, few, most);
    TwoTargets(few, most);
    hide SortBy, Found, Sum, CoverFrom, Value, Processing;
    CoverTakesAll(available, few + most);
  }

  lemma MostPlaced(none: Shares, most: nat)
    requires none.Matched() && none.byBatch == [[], []] && most <= none.remaining[0]
    ensures PlaceOne(none, most).Ok?
    ensures var one := PlaceOne(none, most).value;
      one.Matched() && one.byBatch == [[most], []] && one.remaining == [none.remaining[0] - most, none.remaining[1]]
  {
    assert FirstFit(none.remaining, most) == 0;
    var one := PlaceOne(none, most).value;
    assert one.byBatch[0] == none.byBatch[0] + [most] == [most];
    assert one.byBatch[1] == none.byBatch[1] == [];
  }

  lemma FewPlaced(one: Shares, few: nat, most: nat)
    requires one.Matched() && one.byBatch == [[most], []] && one.remaining[0] < few <= one.remaining[1]
    ensures PlaceOne(one, few).Ok?
    ensures PlaceOne(one, few).value.Matched() && PlaceOne(one, few).value.byBatch == [[most], [few]]
  {
    assert one.remaining[1..] == [one.remaining[1]];
    assert FirstFit(one.remaining, few) == 1;
    var two := PlaceOne(one, few).value;
    assert two.byBatch[0] == one.byBatch[0] == [most];
    assert two.byBatch[1] == one.byBatch[1] + [few] == [few];
  }

  lemma TwoPlaced(batches: seq<seq<TreeNode>>, few: nat, most: nat)
    requires |batches| == 2 && few < most <= Value(batches[0]) < most + few && few <= Value(batches[1])
    ensures Distribution([few, most], batches) == Ok([[most], [few]])
  {
    hide Value, PlaceOne;
    var none, targets := NoShares(batches), [most, few];
    assert [few, most][1..] == [most] && SortBy(LARGER, [most]) == [most];
    assert SortBy(LARGER, [few, most]) == targets;
    assert none.byBatch == [[], []];
    hide NoShares, SortBy;
    MostPlaced(none, most);
    var one := PlaceOne(none, most).value;
    FewPlaced(one, few, most);
    var two := PlaceOne(one, few).value;
    assert targets[1..] == [few] && targets[1..][1..] == [];
    assert Place(one, targets[1..]) == Place(two, []) == Ok(two);
  }

  lemma OneTargetIsValid(leaves: seq<TreeNode>, target: nat)
    requires 0 < target <= Value(leaves) && target <= MAX_SAFE_INTEGER && |leaves| <= MAX_BATCH_SIZE
    ensures Validate(leaves, [target]).Ok?
  {
    var targets: seq<int> := [target];
    assert targets[1..] == [];
    assert SwapBatching.Total(targets) == target;
    hide Value, SwapBatching.Total;
    assert forall t :: t in targets ==> t == target;
  }

  lemma TwoTargetsAreValid(leaves: seq<TreeNode>, few: nat, most: nat)
    requires |leaves| > MAX_BATCH_SIZE && few + most <= Value(leaves) && 0 < few <= most <= MAX_SAFE_INTEGER
    requires most <= Value(LargestFirst(leaves)[..MAX_BATCH_SIZE])
    ensures Validate(leaves, [few, most]).Ok?
  {
    hide LargestFirst, Value;
    var targets := [few, most];
    assert targets[1..] == [most] && targets[1..][1..] == [];
    assert SwapBatching.Total(targets[1..]) == most;
  }

  lemma TwoBatches(equal: seq<TreeNode>, small: TreeNode)
    requires |equal| == MAX_BATCH_SIZE
    ensures Chunks(equal + [small], MAX_BATCH_SIZE) == [equal, [small]]
  {
    var all := equal + [small];
    assert all[..MAX_BATCH_SIZE] == equal && all[MAX_BATCH_SIZE..] == [small];
    assert [equal] + [[small]] == [equal, [small]];
  }

  lemma SecondBatchFails(first: seq<TreeNode>, second: seq<TreeNode>, few: nat, most: nat, service: Service)
    requires Validate(first, [most]).Ok? && Validate(second, [few]).Ok?
    requires service(first, [most]).Ok? && service(second, [few]) == Err(SendFailed)
    ensures ExecuteAll([first, second], [[most], [few]], service) == Err(SendFailed)
    ensures AllCalls([first, second], [[most], [few]], service) == [Registered, Initiated(IdsOf(first)), Registered]
  {
    hide Validate, IdsOf;
    var batches, shares := [first, second], [[most], [few]];
    assert batches[1..] == [second] && shares[1..] == [[few]];
    assert CallsOf(second, [few], service) == [Registered];
    assert [Registered] + [] == [Registered];
    assert AllCalls(batches[1..], shares[1..], service) == [Registered];
    assert ExecuteAll(batches[1..], shares[1..], service) == Err(SendFailed);
    assert CallsOf(first, [most], service) == [Registered, Initiated(IdsOf(first))];
  }

  lemma StrandedRequest(equal: seq<TreeNode>, small: TreeNode, few: nat, most: nat, service: Service)
    requires NeedsSecondBatch(equal, small, few, most)
    requires service(equal, [most]).Ok? && service([small], [few]) == Err(SendFailed)
    ensures RequestSwap([small] + equal, [few, most], service) == Err(SendFailed)
    ensures SwapCalls([small] + equal, [few, most], service) == [Registered, Initiated(IdsOf(equal)), Registered]
  {
    var leaves := [small] + equal;
    StrandedDescending(equal, small, few, most);
    StrandedValues(equal, small, few, most);
    assert LargestFirst(leaves)[..MAX_BATCH_SIZE] == equal;
    assert Value([small]) == 5;
    hide SortBy, Value;
    TwoTargetsAreValid(leaves, few, most);
    OneTargetIsValid(equal, most);
    OneTargetIsValid([small], few);
    TwoBatches(equal, small);
    hide Validate, Chunks;
    TwoPlaced([equal, [small]], few, most);
    hide Distribution;
    SecondBatchFails(equal, [small], few, most, service);
    hide ExecuteAll, AllCalls;
  }

  /** The second batch of such a request cannot be sent: its leaf was never reported, but the first
      batch's callback has marked it as pending, and so it stays. */
  lemma FailureStrandsLeaf(s: State, op: OpId, o: Op, equal: seq<TreeNode>, small: TreeNode, few: nat, most: nat, service: Service)
    requires NeedsSecondBatch(equal, small, few, most)
    requires service(equal, [most]).Ok? && service([small], [few]) == Err(SendFailed)
    requires o.Swapping? && !o.initiated && Hands(o, [small] + equal)
    requires SwapsIntact(s) && op in s.ops && s.ops[op] == OpAfter(o, SwapCalls([small] + equal, [few, most], service))
    ensures !Found([small] + equal, [few, most]) && LeavesToSwap([small] + equal, Sum([few, most])) == Ok([small] + equal)
    ensures RequestSwap([small] + equal, [few, most], service) == Err(SendFailed)
    ensures small.id !in SentIds(SwapCalls([small] + equal, [few, most], service))
    ensures HasStatus(Next(s, Do(SwapFailed(op))).cache, small.id, SwapPending)
  {
    StrandedIsAsked(equal, small, few, most);
    StrandedRequest(equal, small, few, most, service);
    var leaves, calls := [small] + equal, SwapCalls([small] + equal, [few, most], service);
    SmallIsApart(equal, small);
    hide *;
    assert small in leaves;
    SentFirstOnly(calls, equal);
    FailureRestoresAllOrNone(s, op, o, calls, leaves, small);
  }

  lemma SmallIsApart(equal: seq<TreeNode>, small: TreeNode)
    requires UniqueIds([small] + equal)
    ensures small.id !in IdsOf(equal)
  {
    PairwiseTail(DIFFERENT_IDS, [small] + equal);
    assert ([small] + equal)[1..] == equal;
  }

  lemma SentFirstOnly(calls: seq<Callback>, first: seq<TreeNode>)
    requires calls == [Registered, Initiated(IdsOf(first)), Registered]
    ensures SentIds(calls) == IdsOf(first) && Announced(calls)
  {
    hide IdsOf;
    assert calls[1].Initiated?;
    assert calls[1..] == [Initiated(IdsOf(first)), Registered] && calls[1..][1..] == [Registered] && calls[1..][1..][1..] == [];
    assert SentIds(calls[1..][1..]) == [];
    assert SentIds(calls[1..]) == IdsOf(first) + [] == IdsOf(first);
  }
}
