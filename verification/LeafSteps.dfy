/** What each step of an operation does, and when it can be taken: the leaves it locks, settles, sends and
    stores, and what it leaves of its operation. */
module LeafSteps {
  import opened LeafCache
  import opened LeafConservation
  import opened LeafEffects
  import opened LeafRuns
  import opened Outcomes
  import opened SyncMerge

  /** Locking touches exactly the listed available leaves. */
  predicate LocksOnly(m: Cache, m': Cache, ids: seq<LeafId>, id: LeafId)
  {
    if id in m && id in ids && m[id].status == Available
    then id in m' && m'[id] == LeafRecord(treeNode := m[id].treeNode, status := LocalLocked, source := m[id].source)
    else Lookup(m', id) == Lookup(m, id)
  }

  /** Restoring touches exactly the listed leaves that are still locked here. */
  predicate RestoresOnly(m: Cache, m': Cache, ids: seq<LeafId>, id: LeafId)
  {
    if id in m && id in ids && m[id].status == LocalLocked
    then id in m' && m'[id] == LeafRecord(treeNode := m[id].treeNode, status := Available, source := NoSource)
    else Lookup(m', id) == Lookup(m, id)
  }

  /** The return of a swap stores the last copy of every received leaf as available without source, drops
      the sent leaves that are owned, and touches nothing else. */
  predicate SwapsOnly(m: Cache, m': Cache, ids: seq<LeafId>, newLeaves: seq<TreeNode>, id: LeafId)
  {
    match LastNode(newLeaves, id)
    case Some(n) => id in m' && m'[id] == LeafRecord(treeNode := n, status := Available, source := NoSource)
    case None =>
      if id in m && id in ids && m[id].status in {Available, LocalLocked, Outgoing, SwapPending} then id !in m'
      else Lookup(m', id) == Lookup(m, id)
  }

  lemma SwappedEffect(m: Cache, ids: seq<LeafId>, newLeaves: seq<TreeNode>, id: LeafId)
    ensures SwapsOnly(m, Swapped(m, ids, newLeaves), ids, newLeaves, id)
  {
    hide Transition, PutAvailable;
    TransitionEffect(m, ids, Spent, None, id);
    PutAvailableEffect(Transition(m, ids, Spent, None), newLeaves, NoSource, id);
  }

  lemma LockEffect(m: Cache, ids: seq<LeafId>, id: LeafId)
    ensures LocksOnly(m, Lock(m, ids), ids, id)
  {
  }

  // ----- beginning

  /** Nothing else about the run changes. */
  predicate SameElse(s: State, s': State, op: OpId)
  {
    && (forall other :: other in s.ops && other != op ==> other in s'.ops && s'.ops[other] == s.ops[other])
    && (forall other :: other in s'.ops && other != op ==> other in s.ops)
    && s'.hasSynced == s.hasSynced
  }

  ghost predicate FreeToLock(s: State, op: OpId, ids: seq<LeafId>)
  {
    op !in s.ops && forall id :: id in ids ==> id in s.cache && s.cache[id].status == Available
  }

  /** An execution or a swap begins for a new operation whose leaves are all available; it locks exactly
      them, and a swap remembers them as they were. */
  lemma BeginsExactly(s: State, op: OpId, ids: seq<LeafId>, id: LeafId)
    ensures Enabled(s, BeginExecution(op, ids)) <==> FreeToLock(s, op, ids)
    ensures Enabled(s, BeginSwap(op, ids)) <==> FreeToLock(s, op, ids)
    ensures FreeToLock(s, op, ids) ==>
      var e, w := Next(s, Do(BeginExecution(op, ids))), Next(s, Do(BeginSwap(op, ids)));
      && op in e.ops && e.ops[op] == Executing(ids) && SameElse(s, e, op) && LocksOnly(s.cache, e.cache, ids, id)
      && op in w.ops && w.ops[op].Swapping? && w.ops[op].ids == ids && !w.ops[op].registered && !w.ops[op].initiated
      && SameElse(s, w, op) && LocksOnly(s.cache, w.cache, ids, id)
      && (id in ids ==>
          && id in w.ops[op].captured && w.ops[op].captured[id] == s.cache[id]
          && id in e.locker && e.locker[id] == op && id in w.locker && w.locker[id] == op)
  {
    hide Lock;
    LockEffect(s.cache, ids, id);
  }

  ghost predicate EachAvailable(m: Cache, batches: seq<seq<LeafId>>)
  {
    forall i :: 0 <= i < |batches| ==> AllAvailable(m, batches[i])
  }

  lemma JoinIsAvailable(m: Cache, batches: seq<seq<LeafId>>)
    ensures AllAvailable(m, Join(batches)) <==> EachAvailable(m, batches)
  {
    if EachAvailable(m, batches) {
      forall x | x in Join(batches) ensures HasStatus(m, x, Available) {
        var i :| 0 <= i < |batches| && x in batches[i];
        assert AllAvailable(m, batches[i]);
      }
    }
    if AllAvailable(m, Join(batches)) {
      forall i | 0 <= i < |batches| ensures AllAvailable(m, batches[i]) {
        JoinHolds(batches, i);
      }
    }
  }

  lemma JoinHolds(batches: seq<seq<LeafId>>, i: nat)
    requires i < |batches|
    ensures forall x :: x in batches[i] ==> x in Join(batches)
  {
  }

  /** An optimisation begins only when none runs, with at least one batch, all of it available, and no leaf
      in two batches; it locks exactly the batches' leaves. */
  lemma OptimizationBeginsExactly(s: State, op: OpId, batches: seq<seq<LeafId>>, id: LeafId)
    ensures Enabled(s, BeginOptimize(op, batches)) <==>
      op !in s.ops && !s.optimizing && batches != [] && EachAvailable(s.cache, batches) && NoneTwice(batches)
    ensures Enabled(s, BeginOptimize(op, batches)) ==>
      var s' := Next(s, Do(BeginOptimize(op, batches)));
      && op in s'.ops && s'.ops[op].Optimizing? && s'.ops[op].batches == batches && s'.ops[op].next == 0
      && !s'.ops[op].registered && !s'.ops[op].initiated
      && SameElse(s, s', op) && s'.optimizing && LocksOnly(s.cache, s'.cache, Join(batches), id)
  {
    LockEffect(s.cache, Join(batches), id);
    JoinIsAvailable(s.cache, batches);
    hide Lock, LockedBy, Join, AllAvailable, EachAvailable, NoneTwice, Captured, LocksOnly;
  }

  // ----- while executing

  /** Leaves that were not renewed go back and are given up. */
  lemma DropExactly(s: State, op: OpId, dropped: seq<LeafId>, id: LeafId)
    requires op in s.ops && s.ops[op].Executing? && forall x :: x in dropped ==> x in s.ops[op].ids
    ensures var s' := Next(s, Do(DropUnrenewed(op, dropped)));
      && op in s'.ops && s'.ops[op].Executing? && SameElse(s, s', op) && RestoresOnly(s.cache, s'.cache, dropped, id)
      && (id in s'.ops[op].ids <==> id in s.ops[op].ids && id !in dropped)
  {
    hide Restore, Keep, Lock, LockedBy;
    RestoreEffect(s.cache, dropped, id);
    NothingLocked(Restore(s.cache, dropped));
  }

  /** Renewed ones get their new node, the last one there is. */
  lemma RenewExactly(s: State, op: OpId, nodes: seq<TreeNode>, id: LeafId, k: nat)
    requires op in s.ops && s.ops[op].Executing? && forall n :: n in nodes ==> n.id in s.ops[op].ids
    ensures var s' := Next(s, Do(RefreshNodes(op, nodes)));
      && s'.ops == s.ops && SameElse(s, s', op)
      && (id in s.cache && LastCopy(nodes, id, k) ==> id in s'.cache && s'.cache[id] == s.cache[id].(treeNode := nodes[k]))
      && (id !in s.cache || (forall n :: n in nodes ==> n.id != id) ==> Lookup(s'.cache, id) == Lookup(s.cache, id))
  {
    hide Refresh, Lock, LockedBy;
    RefreshEffect(s.cache, nodes, id, k);
    NothingLocked(Refresh(s.cache, nodes));
    hide LastCopy;
  }

  lemma NothingLocked(m: Cache)
    ensures Lock(m, []) == m
  {
  }

  // ----- while swapping

  /** Registering names the swap as the source of its leaves. */
  lemma RegisterExactly(s: State, op: OpId, swapId: string, id: LeafId)
    requires op in s.ops && !s.ops[op].Executing?
    ensures var s' := Next(s, Do(RegisterSwap(op, swapId)));
      && op in s'.ops && s'.ops[op] == s.ops[op].(registered := true) && SameElse(s, s', op)
      && if id in s.cache && id in SwapIds(s.ops[op]) && s.cache[id].status != Available
         then id in s'.cache && s'.cache[id] == LeafRecord(treeNode := s.cache[id].treeNode, status := s.cache[id].status, source := FromSwap(swapId))
         else Lookup(s'.cache, id) == Lookup(s.cache, id)
  {
    hide SwapIds, UpdateSource, Transition, Join, Lock, LockedBy;
    UpdateSourceEffect(s.cache, SwapIds(s.ops[op]), FromSwap(swapId), id);
    NothingLocked(UpdateSource(s.cache, SwapIds(s.ops[op]), FromSwap(swapId)));
  }

  /** Initiating makes pending what is still locked or available. */
  lemma InitiateExactly(s: State, op: OpId, id: LeafId)
    requires op in s.ops && !s.ops[op].Executing? && s.ops[op].registered
    ensures var s' := Next(s, Do(SwapInitiated(op)));
      && op in s'.ops && s'.ops[op] == s.ops[op].(initiated := true) && SameElse(s, s', op)
      && if id in s.cache && id in SwapIds(s.ops[op]) && s.cache[id].status in {Available, LocalLocked}
         then id in s'.cache && s'.cache[id] == LeafRecord(treeNode := s.cache[id].treeNode, status := SwapPending, source := s.cache[id].source)
         else Lookup(s'.cache, id) == Lookup(s.cache, id)
  {
    hide SwapIds, UpdateSource, Transition, Join, Lock, LockedBy;
    TransitionEffect(s.cache, SwapIds(s.ops[op]), SwapPending, None, id);
    NothingLocked(Transition(s.cache, SwapIds(s.ops[op]), SwapPending, None));
  }

  /** A swap that failed ends and restores what is still locked. */
  lemma FailureExactly(s: State, op: OpId, id: LeafId)
    requires op in s.ops && s.ops[op].Swapping?
    ensures var s' := Next(s, Do(SwapFailed(op)));
      op !in s'.ops && SameElse(s, s', op) && RestoresOnly(s.cache, s'.cache, s.ops[op].ids, id)
  {
    hide Restore;
    RestoreEffect(s.cache, s.ops[op].ids, id);
    NothingLocked(Restore(s.cache, s.ops[op].ids));
  }

  /** A swap that was initiated can return: what it sent is gone, what it received is available, and the
      operation either holds a fresh selection of available leaves, locked, or is over. */
  lemma ReturnExactly(s: State, op: OpId, newLeaves: seq<TreeNode>, reselected: Option<seq<LeafId>>, id: LeafId)
    requires op in s.ops && s.ops[op].Swapping? && s.ops[op].initiated
    ensures var swapped := Swapped(s.cache, s.ops[op].ids, newLeaves);
      var a := FinishSwap(op, newLeaves, reselected);
      var s' := Next(s, Do(a));
      && SwapsOnly(s.cache, swapped, s.ops[op].ids, newLeaves, id)
      && (Enabled(s, a) <==> reselected.None? || AllAvailable(swapped, reselected.value))
      && (reselected.None? ==> op !in s'.ops && SameElse(s, s', op) && s'.cache == swapped)
      && (reselected.Some? && Enabled(s, a) ==>
            && op in s'.ops && s'.ops[op] == Executing(reselected.value) && SameElse(s, s', op)
            && LocksOnly(swapped, s'.cache, reselected.value, id))
  {
    hide Swapped, Lock;
    SwappedEffect(s.cache, s.ops[op].ids, newLeaves, id);
    NothingLocked(Swapped(s.cache, s.ops[op].ids, newLeaves));
    if reselected.Some? {
      LockEffect(Swapped(s.cache, s.ops[op].ids, newLeaves), reselected.value, id);
    }
  }

  // ----- while optimising

  /** A batch that was initiated can return; the next one is then neither registered nor initiated, and
      the ids of the batch are forgotten. */
  lemma BatchReturnExactly(s: State, op: OpId, newLeaves: seq<TreeNode>, id: LeafId)
    requires op in s.ops && s.ops[op].Optimizing? && s.ops[op].next < |s.ops[op].batches| && s.ops[op].initiated
    ensures var o, s' := s.ops[op], Next(s, Do(BatchCompleted(op, newLeaves)));
      && op in s'.ops && s'.ops[op] == o.(next := o.next + 1, registered := false, initiated := false) && SameElse(s, s', op)
      && SwapsOnly(s.cache, s'.cache, o.batches[o.next], newLeaves, id)
      && s'.optimizing == s.optimizing
      && (id in s'.optimizationLocked <==> id in s.optimizationLocked && id !in o.batches[o.next])
  {
    hide Swapped, Join;
    SwappedEffect(s.cache, s.ops[op].batches[s.ops[op].next], newLeaves, id);
    NothingLocked(Swapped(s.cache, s.ops[op].batches[s.ops[op].next], newLeaves));
  }

  /** An optimisation can end at any point; what any batch still has locked is restored. */
  lemma OptimizationEndsExactly(s: State, op: OpId, id: LeafId)
    requires op in s.ops && s.ops[op].Optimizing?
    ensures var s' := Next(s, Do(EndOptimize(op)));
      && op !in s'.ops && SameElse(s, s', op) && !s'.optimizing && s'.optimizationLocked == {}
      && RestoresOnly(s.cache, s'.cache, Join(s.ops[op].batches), id)
  {
    hide Restore, Join;
    RestoreEffect(s.cache, Join(s.ops[op].batches), id);
    NothingLocked(Restore(s.cache, Join(s.ops[op].batches)));
  }

  // ----- what the manager remembers

  /** The remembered ids are those of the batches that have not returned. */
  ghost predicate RemembersPending(s: State)
  {
    && OneOptimization(s)
    && forall op :: op in s.ops && s.ops[op].Optimizing? ==>
        NoneTwice(s.ops[op].batches) && s.optimizationLocked == IdSet(PendingIds(s.ops[op]))
  }

  lemma JoinFrom(batches: seq<seq<LeafId>>, n: nat, id: LeafId)
    requires n <= |batches|
    ensures id in Join(batches[n..]) <==> exists i :: n <= i < |batches| && id in batches[i]
  {
    var later := batches[n..];
    assert forall i :: 0 <= i < |later| ==> later[i] == batches[n + i];
    assert forall i :: n <= i < |batches| ==> batches[i] == later[i - n];
  }

  lemma BatchForgotten(o: Op)
    requires o.Optimizing? && o.next < |o.batches| && NoneTwice(o.batches)
    ensures IdSet(PendingIds(o.(next := o.next + 1))) == IdSet(PendingIds(o)) - IdSet(o.batches[o.next])
  {
    hide Join;
    forall id ensures id in PendingIds(o.(next := o.next + 1)) <==> id in PendingIds(o) && id !in o.batches[o.next] {
      JoinFrom(o.batches, o.next, id);
      JoinFrom(o.batches, o.next + 1, id);
      NothingPending(o.(next := o.next + 1), id);
    }
  }

  lemma NothingPending(o: Op, id: LeafId)
    ensures o.Optimizing? && o.next >= |o.batches| ==> id !in PendingIds(o)
  {
  }

  lemma AllPending(o: Op)
    requires o.Optimizing? && o.next == 0 && o.batches != []
    ensures PendingIds(o) == Join(o.batches)
  {
    assert o.batches[0..] == o.batches;
  }

  lemma StepRemembersPending(s: State, a: Step)
    requires Enabled(s, a) && RemembersPending(s)
    ensures RemembersPending(Stepped(s, a))
  {
    StepKeepsOneOptimization(s, a);
    hide Unlocked, Lock, LockedBy, PendingIds, Join, Captured, AllAvailable, Keep;
    if a.BeginOptimize? {
      AllPending(Stepped(s, a).ops[a.op]);
      assert s.optimizationLocked == {};
    } else if a.BatchCompleted? {
      BatchForgotten(s.ops[a.op]);
      SamePending(s.ops[a.op].(next := s.ops[a.op].next + 1), After(s, a).value);
    } else if a.RegisterSwap? || a.SwapInitiated? {
      SamePending(s.ops[a.op], After(s, a).value);
    }
  }

  lemma SamePending(o: Op, o': Op)
    ensures o.Optimizing? && o'.Optimizing? && o.batches == o'.batches && o.next == o'.next ==> PendingIds(o) == PendingIds(o')
  {
  }

  /** In every run the id set of a running optimisation holds exactly the leaves of the batches that have
      not returned, and the manager counts as synced exactly once a sync happened. */
  lemma {:induction false} EveryRunRemembers(actions: seq<Action>)
    ensures RemembersPending(Run(actions))
    ensures Run(actions).hasSynced <==> exists i :: 0 <= i < |actions| && actions[i].Happens? && actions[i].event.Sync?
    decreases |actions|
  {
    hide Stepped, Enabled, Seen, PendingIds;
    if actions != [] {
      var front, a := actions[..|actions| - 1], actions[|actions| - 1];
      EveryRunRemembers(front);
      assert forall i :: 0 <= i < |front| ==> front[i] == actions[i];
      if a.Do? && Enabled(Run(front), a.step) {
        StepRemembersPending(Run(front), a.step);
        StepKeepsSynced(Run(front), a.step);
      }
    }
  }

  lemma StepKeepsSynced(s: State, a: Step)
    requires Enabled(s, a)
    ensures Stepped(s, a).hasSynced == s.hasSynced
  {
  }
}
