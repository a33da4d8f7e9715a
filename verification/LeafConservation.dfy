/** Accounting across a swap: what a wallet owns stays the same at every await, from locking the leaves
    a swap sends to storing the leaves it returns. */
module LeafConservation {
  import opened LeafCache
  import opened LeafExclusion
  import opened LeafRuns
  import opened LeafSelection
  import opened Outcomes
  import opened SyncMerge

  /** The leaves an operation has locked for swaps that have not returned. */
  function PendingIds(o: Op): seq<LeafId>
  {
    match o
    case Executing(_) => []
    case Swapping(ids, _, _, _) => ids
    case Optimizing(batches, next, _, _, _) => if next < |batches| then Join(batches[next..]) else []
  }

  predicate Pending(s: State, op: OpId, id: LeafId)
  {
    op in s.ops && !s.ops[op].Executing? && id in PendingIds(s.ops[op])
  }

  predicate Underway(o: Op, id: LeafId) { !o.Executing? && o.initiated && id in SwapIds(o) }

  /** A pending leaf is cached with the value it was captured with, locked until its swap starts and
      SwapPending, marked as part of a swap, from then on. */
  predicate Intact(m: Cache, o: Op, id: LeafId)
  {
    && !o.Executing? && id in m && id in o.captured
    && m[id].treeNode.value == o.captured[id].treeNode.value
    && o.captured[id].status == Available
    && m[id].status == (if Underway(o, id) then SwapPending else LocalLocked)
    && (id in SwapIds(o) && (o.registered || o.initiated) ==> m[id].source.FromSwap?)
  }

  ghost predicate SwapsIntact(s: State)
  {
    && (forall op, id :: Pending(s, op, id) ==> Intact(s.cache, s.ops[op], id))
    && (forall op :: op in s.ops && s.ops[op].Optimizing? ==> NoneTwice(s.ops[op].batches))
  }

  lemma SwapIdsArePending(o: Op, id: LeafId)
    ensures id in SwapIds(o) ==> id in PendingIds(o)
    ensures id in PendingIds(o) ==> id in Held(o)
  {
    if o.Optimizing? && o.next < |o.batches| {
      assert o.batches[o.next..][0] == o.batches[o.next];
      assert forall i :: 0 <= i < |o.batches[o.next..]| ==> o.batches[o.next..][i] == o.batches[o.next + i];
    }
  }

  // ----- the events under which swaps stay intact

  /** The snapshot's last report of the leaf is as part of a pending swap, with this value, and it does
      not list the leaf as sent. */
  predicate SwapReported(t: Snapshot, id: LeafId, value: nat)
  {
    && LastEntry(t.outgoing, id, |t.outgoing|).None?
    && LastEntry(t.swaps, id, |t.swaps|).Some?
    && LastEntry(t.swaps, id, |t.swaps|).value.leaf.value == value
  }

  /** The event leaves this pending leaf as it is: a sender's event names it only once its swap started,
      the end of a transfer only when its source says it is being swapped; syncs report started swaps as
      pending; it is not returned, claimed or removed, and released only when nothing is left to release. */
  predicate SparesSwap(s: State, e: Event, op: OpId, id: LeafId)
    requires op in s.ops
  {
    match e
    case Sync(t) => Underway(s.ops[op], id) ==> id in s.cache && SwapReported(t, id, s.cache[id].treeNode.value)
    case Transferred(event) =>
      id in event.leafIds ==> (
        match event.phase
        case ReturnedOrExpired => false
        case SenderInitiated => Underway(s.ops[op], id)
        case Terminal => id in s.cache && s.cache[id].source.FromSwap?
        case Unrecognized => true)
    case Claimed(nodes, _) => LastNode(nodes, id).None?
    case Removed(ids) => id !in ids
    case ReleasedEarly(ids) => id in ids ==> Underway(s.ops[op], id)
    case _ => true
  }

  ghost predicate SwapsSpared(s: State, e: Event)
  {
    forall op, id :: Pending(s, op, id) ==> SparesSwap(s, e, op, id)
  }

  lemma SyncIntactExactly(m: Cache, t: Snapshot, o: Op, id: LeafId)
    requires Intact(m, o, id)
    ensures Intact(Merge(m, t), o, id) <==> (Underway(o, id) ==> SwapReported(t, id, m[id].treeNode.value))
  {
    hide Merge, LastEntry;
    MergeIsPriority(m, t, id);
    LastIncomingIsIncoming(t.incoming, id, |t.incoming|);
    LastAvailableIsAvailable(t.available, id, |t.available|);
  }

  lemma TransferIntactExactly(s: State, event: TransferEvent, op: OpId, id: LeafId)
    requires op in s.ops && Intact(s.cache, s.ops[op], id)
    ensures Intact(HandleTransfer(s.cache, event), s.ops[op], id) <==> SparesSwap(s, Transferred(event), op, id)
  {
    hide SwapIds;
  }

  lemma SparesSwapExactly(s: State, e: Event, op: OpId, id: LeafId)
    requires op in s.ops && Intact(s.cache, s.ops[op], id)
    ensures Intact(Seen(s.cache, s.hasSynced, e), s.ops[op], id) <==> SparesSwap(s, e, op, id)
  {
    hide SwapIds, SwapReported, HandleTransfer;
    match e
    case Add(nodes) => AddLeavesEffect(s.cache, nodes, id);
    case AddInbound(nodes, transferId) => AddIncomingEffect(s.cache, nodes, transferId, id);
    case Sync(t) => SyncIntactExactly(s.cache, t, s.ops[op], id);
    case Transferred(event) => TransferIntactExactly(s, event, op, id);
    case Claimed(nodes, source) => PutAvailableEffect(s.cache, nodes, source, id);
    case _ =>
  }

  /** An event keeps the swaps intact exactly when it spares every pending leaf. */
  lemma EventIntactExactly(s: State, e: Event)
    requires SwapsIntact(s)
    ensures SwapsIntact(Next(s, Happens(e))) <==> SwapsSpared(s, e)
  {
    hide Seen, SparesSwap, Intact, PendingIds;
    var s' := Next(s, Happens(e));
    forall op, id | Pending(s, op, id)
      ensures Pending(s', op, id) && (Intact(s'.cache, s'.ops[op], id) <==> SparesSwap(s, e, op, id))
    {
      SparesSwapExactly(s, e, op, id);
    }
    assert forall op, id :: Pending(s', op, id) ==> Pending(s, op, id);
  }

  /** Harmless to the operations, and the swaps are spared. */
  ghost predicate Undisturbed(s: State, a: Action)
  {
    Harmless(s, a) && (a.Happens? ==> SwapsSpared(s, a.event))
  }

  lemma HeldIfPending(s: State, op: OpId, id: LeafId)
    requires Pending(s, op, id)
    ensures IsHeld(s.ops, op, id) && HeldBySome(s, id)
  {
    SwapIdsArePending(s.ops[op], id);
    assert IsHeld(s.ops, op, id);
  }

  // ----- steps

  /** A step leaves a leaf held by another operation exactly as it was. */
  lemma OthersUntouched(s: State, a: Step, op: OpId, id: LeafId)
    requires Enabled(s, a) && Exclusive(s) && ReceivesNew(s, a) && IsHeld(s.ops, op, id) && op != a.op && id in s.cache
    ensures Lookup(Stepped(s, a).cache, id) == Lookup(s.cache, id)
  {
    hide Unlocked, After, OptimizationIds, Held, InPhase, LockedIds;
    assert HeldProperly(s, op, id) && HeldBySome(s, id);
    UnlockedKeepsInFlight(s, a, op, id);
    if Lookup(Stepped(s, a).cache, id) != Lookup(s.cache, id) {
      StepTouchesOnlyItsOwn(s, a, id);
    }
  }

  lemma LaterBatchesDiffer(o: Op, id: LeafId)
    requires o.Optimizing? && o.next < |o.batches| && NoneTwice(o.batches)
    ensures id in PendingIds(o.(next := o.next + 1)) ==> id in PendingIds(o) && id !in SwapIds(o)
  {
    var later := o.batches[o.next..];
    assert forall i :: 0 <= i < |later| ==> later[i] == o.batches[o.next + i];
    if o.next + 1 < |o.batches| {
      assert o.batches[o.next + 1..] == later[1..];
      assert forall i :: 0 <= i < |later[1..]| ==> later[1..][i] == later[i + 1];
    }
  }

  lemma OwnStaysIntact(s: State, a: Step, id: LeafId)
    requires Enabled(s, a) && SwapsIntact(s) && ReceivesNew(s, a) && Pending(Stepped(s, a), a.op, id)
    ensures Intact(Stepped(s, a).cache, Stepped(s, a).ops[a.op], id)
  {
    hide Join, Held, LockedBy, OptimizationIds;
    if a.BatchCompleted? {
      BatchKeepsIntact(s, a, id);
    } else if a.RegisterSwap? || a.SwapInitiated? {
      assert Pending(s, a.op, id);
    }
  }

  lemma BatchKeepsIntact(s: State, a: Step, id: LeafId)
    requires Enabled(s, a) && a.BatchCompleted? && SwapsIntact(s) && ReceivesNew(s, a) && Pending(Stepped(s, a), a.op, id)
    ensures Intact(Stepped(s, a).cache, Stepped(s, a).ops[a.op], id)
  {
    var o := s.ops[a.op];
    LaterBatchesDiffer(o, id);
    assert Pending(s, a.op, id);
    HeldIfPending(s, a.op, id);
    PutAvailableEffect(Transition(s.cache, SwapIds(o), Spent, None), a.newLeaves, NoSource, id);
  }

  lemma StepKeepsIntact(s: State, a: Step)
    requires Enabled(s, a) && Exclusive(s) && SwapsIntact(s) && ReceivesNew(s, a)
    ensures SwapsIntact(Stepped(s, a))
  {
    hide Unlocked, OptimizationIds, Held, LockedIds, PendingIds;
    var s' := Stepped(s, a);
    forall op, id | Pending(s', op, id) ensures Intact(s'.cache, s'.ops[op], id) {
      if op == a.op {
        OwnStaysIntact(s, a, id);
      } else {
        assert Pending(s, op, id);
        HeldIfPending(s, op, id);
        OthersUntouched(s, a, op, id);
      }
    }
  }

  // ----- what a wallet owns

  ghost function OwnedValue(m: Cache): nat { Total(m, OWNED_STATUSES) }

  /** What the swap under way was captured with. */
  ghost function SentValue(o: Op): nat
    requires !o.Executing?
  {
    OwnedValue(Captured(o.captured, SwapIds(o)))
  }

  lemma {:induction false} SplitTotal(m: Cache, ids: seq<LeafId>, counted: set<LeafStatus>)
    ensures Total(m, counted) == Total(Captured(m, ids), counted) + Total(m - IdSet(ids), counted)
    decreases m.Keys
  {
    if taken :| taken in ids && taken in m {
      TotalRemove(m, taken, counted);
      TotalRemove(Captured(m, ids), taken, counted);
      SplitTotal(m - {taken}, ids, counted);
      assert Captured(m - {taken}, ids) == Captured(m, ids) - {taken};
      assert m - {taken} - IdSet(ids) == m - IdSet(ids);
    } else {
      assert Captured(m, ids) == map[] && m - IdSet(ids) == m;
    }
  }

  ghost predicate NewIds(m: Cache, nodes: seq<TreeNode>)
  {
    UniqueIds(nodes) && forall n :: n in nodes ==> n.id !in m
  }

  lemma NewFront(m: Cache, nodes: seq<TreeNode>, source: LeafSource)
    requires NewIds(m, nodes) && nodes != []
    ensures NewIds(m, nodes[..|nodes| - 1])
    ensures nodes[|nodes| - 1].id !in PutAvailable(m, nodes[..|nodes| - 1], source)
    ensures Value(nodes) == Value(nodes[..|nodes| - 1]) + nodes[|nodes| - 1].value
  {
    hide PutAvailable;
    var front, last := nodes[..|nodes| - 1], nodes[|nodes| - 1];
    assert nodes == front + [last] && nodes[|front|] == last;
    ValueConcat(front, [last]);
    PutAvailableEffect(m, front, source, last.id);
  }

  lemma {:induction false} PutNewTotal(m: Cache, nodes: seq<TreeNode>, source: LeafSource)
    requires NewIds(m, nodes)
    ensures OwnedValue(PutAvailable(m, nodes, source)) == OwnedValue(m) + Value(nodes)
  {
    hide NewIds, Total;
    if nodes != [] {
      var front, last := nodes[..|nodes| - 1], nodes[|nodes| - 1];
      NewFront(m, nodes, source);
      PutNewTotal(m, front, source);
      var before := PutAvailable(m, front, source);
      TotalInsert(before, last.id, LeafRecord(last, Available, source), OWNED_STATUSES);
      assert before - {last.id} == before;
    }
  }

  predicate SameOwned(m: Cache, m': Cache, id: LeafId)
  {
    id in m && id in m' && Contribution(m[id], OWNED_STATUSES) == Contribution(m'[id], OWNED_STATUSES)
  }

  lemma OwnedCongruent(m: Cache, m': Cache)
    requires m.Keys == m'.Keys && forall id :: id in m ==> SameOwned(m, m', id)
    ensures OwnedValue(m) == OwnedValue(m')
  {
    TotalCongruent(m, m', OWNED_STATUSES);
  }

  /** Renewal does not change what a leaf is worth. */
  predicate RenewsInPlace(m: Cache, a: Step)
  {
    a.RefreshNodes? ==> forall n :: n in a.nodes && n.id in m ==> n.value == m[n.id].treeNode.value
  }

  /** Every step but the return of a swap moves value only inside the owned statuses. */
  lemma MovesConserveOwned(s: State, a: Step)
    requires Enabled(s, a) && !a.FinishSwap? && !a.BatchCompleted? && RenewsInPlace(s.cache, a)
    ensures OwnedValue(Stepped(s, a).cache) == OwnedValue(s.cache)
  {
    hide Join, Captured, SwapIds, Keep, Total;
    OwnedCongruent(s.cache, Unlocked(s, a));
    LockConservesOwned(Unlocked(s, a), LockedIds(a));
  }

  lemma LockConservesOwned(m: Cache, ids: seq<LeafId>)
    requires AllAvailable(m, ids)
    ensures OwnedValue(Lock(m, ids)) == OwnedValue(m)
  {
    OwnedCongruent(m, Lock(m, ids));
  }

  /** The return of a swap takes out exactly what was captured and brings in exactly what was received. */
  lemma SwapReturnBalances(s: State, a: Step)
    requires Enabled(s, a) && SwapsIntact(s) && (a.FinishSwap? || a.BatchCompleted?) && NewIds(s.cache, a.newLeaves)
    ensures OwnedValue(Stepped(s, a).cache) + SentValue(s.ops[a.op]) == OwnedValue(s.cache) + Value(a.newLeaves)
  {
    var o, m := s.ops[a.op], s.cache;
    var ids := SwapIds(o);
    forall id | id in ids ensures Intact(m, o, id) && Underway(o, id) {
      SwapIdsArePending(o, id);
      assert Pending(s, a.op, id);
    }
    SpentSwapValue(m, o);
    var rest := Transition(m, ids, Spent, None);
    PutNewTotal(rest, a.newLeaves, NoSource);
    LockConservesOwned(Unlocked(s, a), LockedIds(a));
  }

  lemma SpentSwapValue(m: Cache, o: Op)
    requires !o.Executing? && forall id :: id in SwapIds(o) ==> Intact(m, o, id) && Underway(o, id)
    ensures OwnedValue(Transition(m, SwapIds(o), Spent, None)) + SentValue(o) == OwnedValue(m)
  {
    var ids := SwapIds(o);
    SplitTotal(m, ids, OWNED_STATUSES);
    OwnedCongruent(Captured(m, ids), Captured(o.captured, ids));
    assert Transition(m, ids, Spent, None) == m - IdSet(ids);
  }

  // ----- runs

  /** Leaves are exclusive and swaps intact after an action exactly when it was undisturbed. */
  lemma UndisturbedExactly(s: State, a: Action)
    requires Exclusive(s) && SwapsIntact(s)
    ensures Exclusive(Next(s, a)) && SwapsIntact(Next(s, a)) <==> Undisturbed(s, a)
  {
    hide Stepped, Enabled, Seen, ReceivesNew, HarmlessEvent, SwapsIntact, Exclusive, SwapsSpared;
    ExclusiveExactly(s, a);
    match a
    case Do(step) => if Enabled(s, step) && ReceivesNew(s, step) { StepKeepsIntact(s, step); }
    case Happens(e) => EventIntactExactly(s, e);
  }

  ghost predicate UndisturbedRun(actions: seq<Action>)
  {
    forall k :: 0 <= k < |actions| ==> Undisturbed(Run(actions[..k]), actions[k])
  }

  ghost predicate Sound(s: State) { Exclusive(s) && SwapsIntact(s) }

  ghost predicate AlwaysSound(actions: seq<Action>)
  {
    forall k :: 0 <= k <= |actions| ==> Sound(Run(actions[..k]))
  }

  /** Over every interleaving, leaves stay exclusive and swaps intact throughout a run exactly when each
      of its actions is undisturbed where it happens. */
  lemma RunsAreSoundExactly(actions: seq<Action>)
    ensures AlwaysSound(actions) <==> UndisturbedRun(actions)
  {
    hide Run, Next, Undisturbed, Exclusive, SwapsIntact;
    if UndisturbedRun(actions) {
      SoundAtStart();
      var k := 0;
      while k < |actions|
        invariant k <= |actions| && forall j :: 0 <= j <= k ==> Sound(Run(actions[..j]))
      {
        RunNext(actions, k);
        UndisturbedExactly(Run(actions[..k]), actions[k]);
        k := k + 1;
      }
    }
    if AlwaysSound(actions) {
      forall k | 0 <= k < |actions| ensures Undisturbed(Run(actions[..k]), actions[k]) {
        RunNext(actions, k);
        assert Sound(Run(actions[..k])) && Sound(Run(actions[..k + 1]));
        UndisturbedExactly(Run(actions[..k]), actions[k]);
      }
    }
  }

  lemma SoundAtStart()
    ensures Sound(Run([]))
  {
  }

  lemma UndisturbedSwapsStayIntact(actions: seq<Action>)
    requires UndisturbedRun(actions)
    ensures Exclusive(Run(actions)) && SwapsIntact(Run(actions))
  {
    hide Run, Exclusive, SwapsIntact;
    RunsAreSoundExactly(actions);
    assert actions[..|actions|] == actions;
    assert Sound(Run(actions[..|actions|]));
  }

  // ----- what events do to the owned balance

  /** The leaves locked for swaps. */
  ghost function PendingSet(s: State): set<LeafId>
  {
    set op, id | op in s.ops && id in PendingIds(s.ops[op]) :: id
  }

  /** What the wallet owns apart from them. */
  ghost function OtherValue(s: State, m: Cache): nat { OwnedValue(m - PendingSet(s)) }

  ghost function Restricted(m: Cache, ids: set<LeafId>): Cache { map id | id in m && id in ids :: m[id] }

  lemma {:induction false} SplitBySet(m: Cache, ids: set<LeafId>)
    ensures OwnedValue(m) == OwnedValue(Restricted(m, ids)) + OwnedValue(m - ids)
    decreases m.Keys
  {
    if taken :| taken in ids && taken in m {
      TotalRemove(m, taken, OWNED_STATUSES);
      TotalRemove(Restricted(m, ids), taken, OWNED_STATUSES);
      SplitBySet(m - {taken}, ids);
      assert Restricted(m - {taken}, ids) == Restricted(m, ids) - {taken};
      assert m - {taken} - ids == m - ids;
    } else {
      assert Restricted(m, ids) == map[] && m - ids == m;
    }
  }

  lemma PendingKeepsValue(s: State, e: Event, id: LeafId)
    requires SwapsIntact(s) && SwapsIntact(Next(s, Happens(e))) && id in PendingSet(s)
    ensures SameOwned(s.cache, Next(s, Happens(e)).cache, id)
  {
    hide Seen, PendingIds;
    var s' := Next(s, Happens(e));
    var op :| op in s.ops && id in PendingIds(s.ops[op]);
    ExecutingHasNoPending(s.ops[op]);
    assert Pending(s, op, id) && Pending(s', op, id);
    assert Intact(s.cache, s.ops[op], id) && Intact(s'.cache, s.ops[op], id);
  }

  lemma ExecutingHasNoPending(o: Op)
    ensures o.Executing? ==> PendingIds(o) == []
  {
  }

  /** What an event that spares the swaps does to the owned balance is what it does to the leaves
      outside them: value in a swap is never missing and never counted twice. */
  lemma EventMovesOnlyOtherValue(s: State, e: Event)
    requires SwapsIntact(s) && SwapsSpared(s, e)
    ensures var after := Next(s, Happens(e)).cache;
      OwnedValue(after) - OwnedValue(s.cache) == OtherValue(s, after) - OtherValue(s, s.cache)
  {
    hide Seen, SwapsIntact, SwapsSpared, PendingSet, Total, OwnedValue;
    var after, ids := Next(s, Happens(e)).cache, PendingSet(s);
    EventIntactExactly(s, e);
    forall id | id in ids ensures SameOwned(s.cache, after, id) {
      PendingKeepsValue(s, e, id);
    }
    SplitBySet(s.cache, ids);
    SplitBySet(after, ids);
    var x, y := Restricted(s.cache, ids), Restricted(after, ids);
    forall id | id in x ensures SameOwned(x, y, id) {
      assert SameOwned(s.cache, after, id);
    }
    assert x.Keys == y.Keys by {
      forall id ensures id in x <==> id in y {
        assert id in ids ==> SameOwned(s.cache, after, id);
      }
    }
    OwnedCongruent(x, y);
  }

  /** Renewal keeps values, and a swap returns new leaves worth what it sent. */
  ghost predicate BalancedStep(s: State, step: Step)
  {
    && RenewsInPlace(s.cache, step)
    && (Enabled(s, step) && (step.FinishSwap? || step.BatchCompleted?) ==>
        NewIds(s.cache, step.newLeaves) && Value(step.newLeaves) == SentValue(s.ops[step.op]))
  }

  ghost function Flow(s: State, a: Action): int
  {
    match a
    case Do(_) => 0
    case Happens(e) => OtherValue(s, Next(s, a).cache) - OtherValue(s, s.cache)
  }

  /** What the events from the n-th action on do to the leaves outside swaps. */
  ghost function FlowSince(actions: seq<Action>, n: nat): int
    requires n <= |actions|
    decreases |actions|
  {
    if n == |actions| then 0
    else
      var front := actions[..|actions| - 1];
      FlowSince(front, n) + Flow(Run(front), actions[|actions| - 1])
  }

  lemma BalancedStepConserves(s: State, step: Step)
    requires SwapsIntact(s) && BalancedStep(s, step)
    ensures OwnedValue(Next(s, Do(step)).cache) == OwnedValue(s.cache)
  {
    hide Stepped, Enabled, PendingIds, Intact, OwnedValue, SentValue;
    if Enabled(s, step) {
      if step.FinishSwap? || step.BatchCompleted? {
        SwapReturnBalances(s, step);
      } else {
        MovesConserveOwned(s, step);
      }
    }
  }

  lemma ActionFlows(s: State, a: Action)
    requires SwapsIntact(s) && Undisturbed(s, a) && (a.Do? ==> BalancedStep(s, a.step))
    ensures OwnedValue(Next(s, a).cache) == OwnedValue(s.cache) + Flow(s, a)
  {
    hide Next, BalancedStep, SwapsIntact, SwapsSpared, Harmless, OwnedValue, OtherValue;
    match a
    case Do(step) => BalancedStepConserves(s, step);
    case Happens(e) => EventMovesOnlyOtherValue(s, e);
  }

  /** From any point of an undisturbed run on, while swaps return new leaves worth what they sent, the
      owned balance changes by exactly what events do to the leaves outside swaps, at every await. */
  lemma {:induction false} OwnedFollowsFlow(actions: seq<Action>, n: nat)
    requires n <= |actions| && UndisturbedRun(actions)
    requires forall k :: n <= k < |actions| && actions[k].Do? ==> BalancedStep(Run(actions[..k]), actions[k].step)
    ensures OwnedValue(Run(actions).cache) == OwnedValue(Run(actions[..n]).cache) + FlowSince(actions, n)
    decreases |actions|
  {
    hide Next, BalancedStep, OwnedValue, Undisturbed, Flow, SwapsIntact;
    if n == |actions| {
      assert actions[..n] == actions;
    } else {
      var front, a := actions[..|actions| - 1], actions[|actions| - 1];
      assert forall k :: 0 <= k <= |front| ==> actions[..k] == front[..k];
      assert front[..|front|] == front;
      UndisturbedPrefix(actions);
      OwnedFollowsFlow(front, n);
      UndisturbedSwapsStayIntact(front);
      assert a.Do? ==> BalancedStep(Run(actions[..|front|]), actions[|front|].step);
      ActionFlows(Run(front), a);
    }
  }

  // ----- the sender's own events

  /** Steps are balanced, and the events that arrive are the sender's own: started, incoming, or the late
      end of a transfer whose leaves are being swapped. */
  ghost predicate Balanced(s: State, a: Action)
  {
    match a
    case Do(step) => BalancedStep(s, step)
    case Happens(AddInbound(_, _)) => true
    case Happens(Transferred(e)) =>
      || e.phase.SenderInitiated? || e.phase.Unrecognized?
      || (e.phase.Terminal? && forall id :: id in e.leafIds ==> exists op :: Pending(s, op, id))
    case _ => false
  }

  lemma EventConservesOwned(s: State, e: Event)
    requires SwapsIntact(s) && Undisturbed(s, Happens(e)) && Balanced(s, Happens(e))
    ensures OwnedValue(Seen(s.cache, s.hasSynced, e)) == OwnedValue(s.cache)
  {
    match e
    case AddInbound(nodes, transferId) => IncomingIsNotOwned(s.cache, nodes, transferId);
    case Transferred(event) =>
      if event.phase.Terminal? {
        forall id | id in event.leafIds ensures id in s.cache && s.cache[id].source.FromSwap? {
          var op :| Pending(s, op, id);
          assert SparesSwap(s, e, op, id) && Intact(s.cache, s.ops[op], id);
        }
        assert HandleTransfer(s.cache, event) == s.cache;
      } else {
        OwnedCongruent(s.cache, HandleTransfer(s.cache, event));
      }
  }

  lemma {:induction false} IncomingIsNotOwned(m: Cache, nodes: seq<TreeNode>, transferId: string)
    ensures OwnedValue(AddIncoming(m, nodes, transferId)) == OwnedValue(m)
  {
    if nodes != [] {
      var before, n := AddIncoming(m, nodes[..|nodes| - 1], transferId), nodes[|nodes| - 1];
      IncomingIsNotOwned(m, nodes[..|nodes| - 1], transferId);
      TotalInsert(before, n.id, LeafRecord(n, Incoming, FromTransfer(transferId)), OWNED_STATUSES);
      if n.id in before {
        TotalRemove(before, n.id, OWNED_STATUSES);
      } else {
        assert before - {n.id} == before;
      }
    }
  }

  /** From any point of an undisturbed run on, while only balanced actions happen, every await point
      sees the same owned balance. */
  lemma {:induction false} OwnedIsTheSameAtEveryAwait(actions: seq<Action>, n: nat)
    requires n <= |actions| && UndisturbedRun(actions)
    requires forall k :: n <= k < |actions| ==> Balanced(Run(actions[..k]), actions[k])
    ensures OwnedValue(Run(actions).cache) == OwnedValue(Run(actions[..n]).cache)
    decreases |actions|
  {
    hide Stepped, Enabled, Seen, Held, PendingIds, Intact, OwnedValue, SentValue;
    if n == |actions| {
      assert actions[..n] == actions;
    } else {
      var front, a := actions[..|actions| - 1], actions[|actions| - 1];
      var s := Run(front);
      assert forall k :: 0 <= k <= |front| ==> actions[..k] == front[..k];
      UndisturbedPrefix(actions);
      OwnedIsTheSameAtEveryAwait(front, n);
      UndisturbedSwapsStayIntact(front);
      BalancedActionConserves(s, a);
    }
  }

  lemma UndisturbedPrefix(actions: seq<Action>)
    requires actions != [] && UndisturbedRun(actions)
    ensures UndisturbedRun(actions[..|actions| - 1]) && Undisturbed(Run(actions[..|actions| - 1]), actions[|actions| - 1])
  {
    hide Undisturbed, Run;
    var front := actions[..|actions| - 1];
    assert forall k :: 0 <= k < |front| ==> actions[..k] == front[..k];
  }

  lemma BalancedActionConserves(s: State, a: Action)
    requires SwapsIntact(s) && Undisturbed(s, a) && Balanced(s, a)
    ensures OwnedValue(Next(s, a).cache) == OwnedValue(s.cache)
  {
    hide Stepped, Enabled, Seen, Held, PendingIds, Intact, OwnedValue, SentValue;
    match a
    case Do(step) => BalancedStepConserves(s, step);
    case Happens(e) => EventConservesOwned(s, e);
  }

  // ----- an event that comes too early

  lemma SwapLocks(s: State, op: OpId, id: LeafId)
    requires HasStatus(s.cache, id, Available) && op !in s.ops
    ensures var s' := Next(s, Do(BeginSwap(op, [id])));
      && op in s'.ops && s'.ops[op] == Swapping([id], Captured(s.cache, [id]), false, false)
      && s'.cache == s.cache[id := LeafRecord(s.cache[id].treeNode, LocalLocked, s.cache[id].source)]
  {
    hide Keep, Restore, MarkOutgoing, Refresh, Swapped, Captured, UpdateSource, SwapIds;
    assert AllAvailable(s.cache, [id]);
    assert Enabled(s, BeginSwap(op, [id]));
  }

  lemma SwapRegisters(s: State, op: OpId, id: LeafId, swapId: string)
    requires op in s.ops && s.ops[op].Swapping? && s.ops[op].ids == [id] && HasStatus(s.cache, id, LocalLocked)
    ensures var s' := Next(s, Do(RegisterSwap(op, swapId)));
      && op in s'.ops && s'.ops[op].Swapping? && s'.ops[op].ids == [id] && s'.ops[op].registered
      && s'.cache == s.cache[id := s.cache[id].(source := FromSwap(swapId))]
  {
    hide Keep, Restore, MarkOutgoing, Refresh, Swapped, Captured;
    assert Enabled(s, RegisterSwap(op, swapId));
  }

  lemma SenderEvent(m: Cache, id: LeafId, transferId: string)
    requires HasStatus(m, id, LocalLocked)
    ensures HandleTransfer(m, TransferEvent(transferId, true, SenderInitiated, [id]))
      == m[id := LeafRecord(m[id].treeNode, SwapPending, FromTransfer(transferId))]
  {
  }

  lemma TerminalEvent(m: Cache, id: LeafId, transferId: string)
    requires HasStatus(m, id, SwapPending) && m[id].source == FromTransfer(transferId)
    ensures HandleTransfer(m, TransferEvent(transferId, true, Terminal, [id])) == m - {id}
  {
  }

  lemma InitiatedTooLate(s: State, op: OpId, id: LeafId)
    requires op in s.ops && s.ops[op].Swapping? && s.ops[op].ids == [id] && s.ops[op].registered && HasStatus(s.cache, id, SwapPending)
    ensures Next(s, Do(SwapInitiated(op))).cache == s.cache && op in Next(s, Do(SwapInitiated(op))).ops
  {
    hide Keep, Restore, MarkOutgoing, Refresh, Swapped, Captured;
    assert Enabled(s, SwapInitiated(op));
  }

  /** When the sender's event overtakes the swap's own callback it replaces the swap source, and the end
      of that transfer then drops the leaf while the swap is still running: its value is missing. */
  lemma EarlyEventLosesSwap(s: State, op: OpId, id: LeafId, swapId: string, transferId: string)
    requires HasStatus(s.cache, id, Available) && op !in s.ops
    ensures
      var started := Next(Next(s, Do(BeginSwap(op, [id]))), Do(RegisterSwap(op, swapId)));
      var overtaken := Next(started, Happens(Transferred(TransferEvent(transferId, true, SenderInitiated, [id]))));
      var ended := Next(Next(overtaken, Do(SwapInitiated(op))), Happens(Transferred(TransferEvent(transferId, true, Terminal, [id]))));
      && op in ended.ops && ended.cache == s.cache - {id}
      && OwnedValue(ended.cache) + s.cache[id].treeNode.value == OwnedValue(s.cache)
  {
    hide Stepped, Enabled, HandleTransfer;
    SwapLocks(s, op, id);
    SwapRegisters(Next(s, Do(BeginSwap(op, [id]))), op, id, swapId);
    var started := Next(Next(s, Do(BeginSwap(op, [id]))), Do(RegisterSwap(op, swapId)));
    SenderEvent(started.cache, id, transferId);
    var overtaken := Next(started, Happens(Transferred(TransferEvent(transferId, true, SenderInitiated, [id]))));
    InitiatedTooLate(overtaken, op, id);
    TerminalEvent(overtaken.cache, id, transferId);
    TotalRemove(s.cache, id, OWNED_STATUSES);
  }
}
