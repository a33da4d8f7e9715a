/** The leaf manager's mutable state and its synchronous sections: everything between two awaits,
    proved against the cache functions of LeafCache and SyncMerge. */
module LeafManager {
  import opened CoverSelection
  import opened LeafCache
  import opened LeafListing
  import opened LeafRuns
  import opened LeafSelection
  import opened OptimizationPlan
  import opened Outcomes
  import opened SelectLeaves
  import opened Sorting
  import opened SyncMerge

  datatype BalanceSnapshot = BalanceSnapshot(available: nat, owned: nat, incoming: nat)

  /** How the first locked section of `selectLeavesWithSwap` ends. */
  datatype SelectionOutcome =
    | Selected(batches: seq<seq<TreeNode>>)
    | NeedsSwap(locked: seq<TreeNode>)
    | NotEnough

  /** The outcome follows from the available leaves, in the order the cache listed them. */
  ghost predicate Decided(m: Cache, available: seq<TreeNode>, targets: seq<nat>, r: SelectionOutcome)
  {
    && Lists(m, Available, available)
    && match r
       case Selected(_) => Found(available, targets)
       case NeedsSwap(locked) => !Found(available, targets) && LeavesToSwap(available, Sum(targets)) == Ok(locked)
       case NotEnough => !Found(available, targets) && Value(available) < Sum(targets)
  }

  /** The loop `selectLeavesReadOnly` and `determineLeavesToSwap` share. */
  method TakeUntilCovered(sorted: seq<TreeNode>, targetAmount: int) returns (nodes: seq<TreeNode>, amount: nat)
    ensures nodes == CoverFrom(sorted, targetAmount) && amount == Value(nodes)
  {
    nodes, amount := [], 0;
    var i := 0;
    while i < |sorted|
      invariant i <= |sorted| && amount == Value(nodes)
      invariant nodes + CoverFrom(sorted[i..], targetAmount - amount) == CoverFrom(sorted, targetAmount)
    {
      if amount >= targetAmount {
        return;
      }
      ValueConcat(nodes, [sorted[i]]);
      assert sorted[i..][1..] == sorted[i + 1..];
      amount := amount + sorted[i].value;
      nodes := nodes + [sorted[i]];
      i := i + 1;
    }
  }

  class LeafManager {
    var leaves: Cache
    var optimizationInProgress: bool
    var optimizationLockedLeafIds: set<LeafId>
    var hasSynced: bool

    ghost predicate Valid()
      reads this
    {
      WellFormed(leaves)
    }

    constructor ()
      ensures Valid() && leaves == map[] && !optimizationInProgress && optimizationLockedLeafIds == {} && !hasSynced
    {
      leaves, optimizationInProgress, optimizationLockedLeafIds, hasSynced := map[], false, {}, false;
    }

    // ----- reading

    method GetLeavesByStatus(status: LeafStatus) returns (result: seq<TreeNode>)
      requires Valid()
      ensures Lists(leaves, status, result)
    {
      result := [];
      var rest := leaves;
      while rest != map[]
        invariant forall id :: id in rest ==> id in leaves && rest[id] == leaves[id]
        invariant UniqueIds(result)
        invariant forall x :: x in result ==> HasStatus(leaves, x.id, status) && leaves[x.id].treeNode == x && x.id !in rest
        invariant forall id :: HasStatus(leaves, id, status) ==> id in rest || leaves[id].treeNode in result
        decreases |rest|
      {
        var id :| id in rest;
        var record := rest[id];
        if record.status == status {
          AppendUnique(result, record.treeNode);
          result := result + [record.treeNode];
        }
        assert |rest.Keys - {id}| < |rest.Keys|;
        rest := rest - {id};
      }
    }

    method SumByStatus(counted: set<LeafStatus>) returns (total: nat)
      ensures total == Total(leaves, counted)
    {
      total := 0;
      var rest := leaves;
      while rest != map[]
        invariant total + Total(rest, counted) == Total(leaves, counted)
        decreases |rest|
      {
        var id :| id in rest;
        TotalRemove(rest, id, counted);
        total := total + Contribution(rest[id], counted);
        assert |rest.Keys - {id}| < |rest.Keys|;
        rest := rest - {id};
      }
    }

    /** The three balances; together they account for every cached satoshi. */
    method Balances() returns (b: BalanceSnapshot)
      requires Valid()
      ensures b == BalanceSnapshot(Total(leaves, {Available}), Total(leaves, OWNED_STATUSES), Total(leaves, {Incoming}))
      ensures b.owned + b.incoming == Total(leaves, ALL_STATUSES)
    {
      var available := SumByStatus({Available});
      var owned := SumByStatus(OWNED_STATUSES);
      var incoming := SumByStatus({Incoming});
      OwnedPlusIncoming(leaves);
      b := BalanceSnapshot(available, owned, incoming);
    }

    // ----- the status graph

    method TransitionLeaves(leafIds: seq<LeafId>, toStatus: LeafStatus, source: Option<LeafSource>)
      modifies this`leaves
      ensures leaves == Transition(old(leaves), leafIds, toStatus, source)
    {
      ghost var before := leaves;
      var i := 0;
      assert Transition(before, [], toStatus, source) == before;
      while i < |leafIds|
        invariant i <= |leafIds| && leaves == Transition(before, leafIds[..i], toStatus, source)
      {
        var leafId := leafIds[i];
        TransitionStep(before, leafIds, i, toStatus, source);
        if leafId in leaves && ValidTransition(leaves[leafId].status, toStatus) {
          if toStatus == Spent {
            leaves := leaves - {leafId};
          } else {
            leaves := leaves[leafId := WithStatus(leaves[leafId], toStatus, source)];
          }
        }
        i := i + 1;
      }
      assert leafIds[..i] == leafIds;
    }

    method RestoreLocalLockedToAvailable(leafIds: seq<LeafId>)
      modifies this`leaves
      ensures leaves == Restore(old(leaves), leafIds)
    {
      ghost var before := leaves;
      var i := 0;
      while i < |leafIds|
        invariant i <= |leafIds| && leaves == Restore(before, leafIds[..i])
      {
        var id := leafIds[i];
        assert leafIds[..i + 1] == leafIds[..i] + [id];
        if id in leaves && leaves[id].status == LocalLocked {
          leaves := leaves[id := LeafRecord(leaves[id].treeNode, Available, NoSource)];
        }
        i := i + 1;
      }
      assert leafIds[..i] == leafIds;
    }

    /** The success path of an executor, over the ids it was given. */
    method MarkLockedOutgoing(leafIds: seq<LeafId>)
      modifies this`leaves
      ensures leaves == MarkOutgoing(old(leaves), leafIds)
    {
      ghost var before := leaves;
      var i := 0;
      while i < |leafIds|
        invariant i <= |leafIds| && leaves == MarkOutgoing(before, leafIds[..i])
      {
        var id := leafIds[i];
        assert leafIds[..i + 1] == leafIds[..i] + [id];
        if id in leaves && leaves[id].status == LocalLocked {
          leaves := leaves[id := leaves[id].(status := Outgoing)];
        }
        i := i + 1;
      }
      assert leafIds[..i] == leafIds;
    }

    method UpdateLeavesSource(leafIds: seq<LeafId>, source: LeafSource)
      modifies this`leaves
      ensures leaves == UpdateSource(old(leaves), leafIds, source)
    {
      ghost var before := leaves;
      var i := 0;
      while i < |leafIds|
        invariant i <= |leafIds| && leaves == UpdateSource(before, leafIds[..i], source)
      {
        var id := leafIds[i];
        assert leafIds[..i + 1] == leafIds[..i] + [id];
        if id in leaves && leaves[id].status != Available {
          leaves := leaves[id := leaves[id].(source := source)];
        }
        i := i + 1;
      }
      assert leafIds[..i] == leafIds;
    }

    // ----- inserting and evicting

    method AddAvailableLeaves(nodes: seq<TreeNode>)
      modifies this`leaves
      ensures leaves == AddLeaves(old(leaves), nodes)
    {
      ghost var before := leaves;
      var i := 0;
      while i < |nodes|
        invariant i <= |nodes| && leaves == AddLeaves(before, nodes[..i])
      {
        var leaf := nodes[i];
        assert nodes[..i + 1][..i] == nodes[..i];
        if leaf.id in leaves && InFlight(leaves[leaf.id].status) {
        } else if leaf.id in leaves && leaves[leaf.id].status == Available && leaves[leaf.id].treeNode.value == leaf.value {
        } else {
          leaves := leaves[leaf.id := LeafRecord(leaf, Available, NoSource)];
        }
        i := i + 1;
      }
      assert nodes[..i] == nodes;
    }

    method AddIncomingLeaves(nodes: seq<TreeNode>, transferId: string)
      modifies this`leaves
      ensures leaves == AddIncoming(old(leaves), nodes, transferId)
    {
      ghost var before := leaves;
      var i := 0;
      while i < |nodes|
        invariant i <= |nodes| && leaves == AddIncoming(before, nodes[..i], transferId)
      {
        var leaf := nodes[i];
        assert nodes[..i + 1][..i] == nodes[..i];
        if !(leaf.id in leaves && leaves[leaf.id].status != Incoming) {
          leaves := leaves[leaf.id := LeafRecord(leaf, Incoming, FromTransfer(transferId))];
        }
        i := i + 1;
      }
      assert nodes[..i] == nodes;
    }

    /** Setting leaves to AVAILABLE whatever they were: claimed leaves and the outputs of a swap. */
    method SetAvailable(nodes: seq<TreeNode>, source: LeafSource)
      modifies this`leaves
      ensures leaves == PutAvailable(old(leaves), nodes, source)
    {
      ghost var before := leaves;
      var i := 0;
      while i < |nodes|
        invariant i <= |nodes| && leaves == PutAvailable(before, nodes[..i], source)
      {
        assert nodes[..i + 1][..i] == nodes[..i];
        leaves := leaves[nodes[i].id := LeafRecord(nodes[i], Available, source)];
        i := i + 1;
      }
      assert nodes[..i] == nodes;
    }

    method EvictStaleAvailable(freshIds: set<LeafId>)
      modifies this`leaves
      ensures leaves == Evict(old(leaves), freshIds)
    {
      ghost var before := leaves;
      var ids := leaves.Keys;
      while ids != {}
        invariant ids <= before.Keys
        invariant forall id :: id in leaves <==> id in before && (id in ids || !Stale(before[id], id, freshIds))
        invariant forall id :: id in leaves ==> leaves[id] == before[id]
        decreases |ids|
      {
        var id :| id in ids;
        if id in leaves && Stale(leaves[id], id, freshIds) {
          leaves := leaves - {id};
        }
        assert |ids - {id}| < |ids|;
        ids := ids - {id};
      }
    }

    // ----- events

    method HandleDepositEvent(deposit: TreeNode) returns (needsVerification: bool)
      modifies this`leaves
      ensures leaves == DepositEvent(old(leaves), deposit, hasSynced)
      ensures needsVerification <==> deposit.status == NodeAvailable && deposit.id !in old(leaves) && hasSynced
    {
      needsVerification := false;
      if deposit.status == NodeCreating {
        if deposit.id !in leaves {
          leaves := leaves[deposit.id := LeafRecord(deposit, Incoming, FromDeposit(deposit.id))];
        }
      } else if deposit.status == NodeAvailable {
        if deposit.id in leaves {
          if !InFlight(leaves[deposit.id].status) && leaves[deposit.id].status != Available {
            ghost var renewed := leaves[deposit.id := leaves[deposit.id].(treeNode := deposit)];
            leaves := leaves[deposit.id := leaves[deposit.id].(treeNode := deposit)];
            TransitionLeaves([deposit.id], Available, None);
            TransitionStep(renewed, [deposit.id], 0, Available, None);
            assert Transition(renewed, [deposit.id][..0], Available, None) == renewed;
            assert [deposit.id][..0 + 1] == [deposit.id];
          }
        } else if !hasSynced {
          leaves := leaves[deposit.id := LeafRecord(deposit, Available, FromDeposit(deposit.id))];
        } else {
          needsVerification := true;
        }
      }
    }

    /** The locked section of `verifyAndAddLeaf`, for a leaf the coordinator confirmed as available. */
    method VerifyAndAddLeaf(node: TreeNode) returns (wasAdded: bool)
      modifies this`leaves
      ensures leaves == VerifiedDeposit(old(leaves), node)
      ensures wasAdded <==> HasStatus(leaves, node.id, Available)
    {
      if HasStatus(leaves, node.id, Available) {
        return true;
      }
      if node.id in leaves {
        return false;
      }
      leaves := leaves[node.id := LeafRecord(node, Available, FromDeposit(node.id))];
      wasAdded := true;
    }

    /** `handleTransferEvent`, once the sender is known to be this wallet. */
    method HandleTransferEvent(event: TransferEvent)
      modifies this`leaves
      ensures leaves == HandleTransfer(old(leaves), event)
    {
      var source := FromTransfer(event.transferId);
      var active := ActiveIds(leaves, event.leafIds, event.transferId);
      match event.phase {
        case ReturnedOrExpired => TransitionLeaves(active, Available, Some(NoSource));
        case SenderInitiated => TransitionLeaves(active, if event.isSwap then SwapPending else Outgoing, Some(source));
        case Terminal => TransitionLeaves(NotFromSwap(leaves, active), Spent, Some(source));
        case Unrecognized =>
      }
    }

    // ----- selection

    method SelectLeavesReadOnly(targetAmount: int) returns (selected: seq<TreeNode>)
      requires Valid()
      ensures exists available :: Lists(leaves, Available, available) && selected == ReadOnlySelection(available, targetAmount)
    {
      var available := GetLeavesByStatus(Available);
      var amount;
      selected, amount := TakeUntilCovered(SortBy(DESCENDING, available), targetAmount);
    }

    /** Lock an exact selection, or else the leaves for a swap that covers the targets. */
    method SelectOrLockForSwap(targetAmounts: seq<nat>) returns (r: SelectionOutcome)
      requires Valid()
      modifies this`leaves
      ensures Valid()
      ensures exists available :: Decided(old(leaves), available, targetAmounts, r)
      ensures r.Selected? ==>
        && ExactBatches(leaves, LocalLocked, targetAmounts, r.batches)
        && AllAvailable(old(leaves), IdsOf(Flatten(r.batches))) && leaves == Lock(old(leaves), IdsOf(Flatten(r.batches)))
      ensures r.NeedsSwap? ==> AllAvailable(old(leaves), IdsOf(r.locked)) && leaves == Lock(old(leaves), IdsOf(r.locked))
      ensures r.NotEnough? ==> leaves == old(leaves) && Total(leaves, {Available}) < Sum(targetAmounts)
      ensures r.Selected? ==> ChoiceExists(old(leaves), targetAmounts)
      ensures AvailableChain(old(leaves)) ==> (r.Selected? <==> ChoiceExists(old(leaves), targetAmounts))
    {
      hide ExactBatches, Transition, AllAvailable, WellFormed, IsSelection, Found, LeavesToSwap, Total, Lists, IdsOf, Flatten, Sum, Value;
      hide ChoiceExists, AvailableChain;
      var available := GetLeavesByStatus(Available);
      var batches, found := SelectLeaves.SelectLeaves(available, targetAmounts);
      r := Decide(available, targetAmounts, batches, found);
      FoundInAnyOrder(leaves, available, targetAmounts);
      match r {
        case Selected(_) =>
          FoundIsExact(leaves, available, targetAmounts, batches);
          BatchIdsAvailable(leaves, targetAmounts, batches);
          LockedStaysWellFormed(leaves, IdsOf(Flatten(batches)));
          TransitionLeaves(IdsOf(Flatten(batches)), LocalLocked, None);
        case NeedsSwap(locked) =>
          CoverIsAvailable(leaves, available, Sum(targetAmounts));
          LockedStaysWellFormed(leaves, IdsOf(locked));
          TransitionLeaves(IdsOf(locked), LocalLocked, None);
        case NotEnough =>
          ListedValueIsBalance(leaves, Available, available);
      }
    }

    method Decide(available: seq<TreeNode>, targetAmounts: seq<nat>, batches: seq<seq<TreeNode>>, found: bool) returns (r: SelectionOutcome)
      requires Lists(leaves, Available, available) && IsSelection(available, targetAmounts, batches, found)
      ensures Decided(leaves, available, targetAmounts, r)
      ensures r.Selected? ==> r.batches == batches && found
    {
      if found {
        return Selected(batches);
      }
      var nodes, amount := TakeUntilCovered(SortBy(ASCENDING, available), Sum(targetAmounts));
      SwapSelectionSucceedsWhenCovered(available, Sum(targetAmounts));
      r := if amount < Sum(targetAmounts) then NotEnough else NeedsSwap(nodes);
    }

    /** The last locked section of `selectLeavesWithSwap`: spend, store what came back, select again.
        None is the source's failure to re-select. */
    method FinishSwap(swapLeafIds: seq<LeafId>, newLeaves: seq<TreeNode>, targetAmounts: seq<nat>) returns (r: Option<seq<seq<TreeNode>>>)
      requires Valid()
      modifies this`leaves
      ensures Valid()
      ensures var swapped := Swapped(old(leaves), swapLeafIds, newLeaves);
        match r
        case None => leaves == swapped
        case Some(batches) =>
          && ExactBatches(leaves, LocalLocked, targetAmounts, batches)
          && AllAvailable(swapped, IdsOf(Flatten(batches))) && leaves == Lock(swapped, IdsOf(Flatten(batches)))
      ensures UniqueIds(newLeaves) && multiset(targetAmounts) <= PositiveValues(newLeaves) ==> r.Some?
      ensures var swapped := Swapped(old(leaves), swapLeafIds, newLeaves);
        && (r.Some? ==> ChoiceExists(swapped, targetAmounts))
        && (AvailableChain(swapped) ==> (r.Some? <==> ChoiceExists(swapped, targetAmounts)))
        && exists available :: Lists(swapped, Available, available) && (r.Some? <==> Found(available, targetAmounts))
    {
      hide ExactBatches, Transition, AllAvailable, WellFormed, IsSelection, Found, Lists, IdsOf, Flatten, PutAvailable, UniqueIds, PositiveValues;
      hide ChoiceExists, AvailableChain;
      StoreSwapped(swapLeafIds, newLeaves);
      var available := GetLeavesByStatus(Available);
      var batches, found := SelectLeaves.SelectLeaves(available, targetAmounts);
      FoundFlag(available, targetAmounts, batches, found);
      FoundInAnyOrder(leaves, available, targetAmounts);
      assert UniqueIds(newLeaves) && multiset(targetAmounts) <= PositiveValues(newLeaves) ==> found by {
        if UniqueIds(newLeaves) && multiset(targetAmounts) <= PositiveValues(newLeaves) {
          ReselectionSucceeds(old(leaves), swapLeafIds, newLeaves, available, targetAmounts);
          FoundFlag(available, targetAmounts, batches, found);
        }
      }
      if !found {
        return None;
      }
      FoundIsExact(leaves, available, targetAmounts, batches);
      BatchIdsAvailable(leaves, targetAmounts, batches);
      LockedStaysWellFormed(leaves, IdsOf(Flatten(batches)));
      TransitionLeaves(IdsOf(Flatten(batches)), LocalLocked, None);
      r := Some(batches);
    }

    method StoreSwapped(swapLeafIds: seq<LeafId>, newLeaves: seq<TreeNode>)
      requires Valid()
      modifies this`leaves
      ensures Valid() && leaves == Swapped(old(leaves), swapLeafIds, newLeaves)
    {
      TransitionLeaves(swapLeafIds, Spent, None);
      PutAvailableWellFormed(leaves, newLeaves, NoSource);
      SetAvailable(newLeaves, NoSource);
    }

    // ----- executors

    /** `executeWithAllLeaves` takes everything available; nothing available is left behind. */
    method LockAllAvailable() returns (available: seq<TreeNode>)
      requires Valid()
      modifies this`leaves
      ensures Lists(old(leaves), Available, available) && leaves == Lock(old(leaves), IdsOf(available))
      ensures forall id :: !HasStatus(leaves, id, Available)
    {
      available := GetLeavesByStatus(Available);
      TransitionLeaves(IdsOf(available), LocalLocked, None);
      forall id ensures !HasStatus(leaves, id, Available) {
        assert HasStatus(old(leaves), id, Available) ==> old(leaves)[id].treeNode in available;
      }
    }

    /** Renewed tree nodes replace the cached ones, so cache and executor see the same leaf. */
    method RefreshTreeNodes(renewed: seq<TreeNode>)
      modifies this`leaves
      ensures leaves == Refresh(old(leaves), renewed)
    {
      RefreshNothing(leaves);
      hide Refresh;
      ghost var before := leaves;
      var i := 0;
      while i < |renewed|
        invariant i <= |renewed| && leaves == Refresh(before, renewed[..i])
      {
        var leaf := renewed[i];
        RefreshStep(before, renewed, i);
        if leaf.id in leaves {
          leaves := leaves[leaf.id := leaves[leaf.id].(treeNode := leaf)];
        }
        i := i + 1;
      }
      assert renewed[..i] == renewed;
    }

    method RemoveLeaves(leafIds: seq<LeafId>)
      modifies this`leaves
      ensures leaves == old(leaves) - IdSet(leafIds)
    {
      ghost var before := leaves;
      var i := 0;
      while i < |leafIds|
        invariant i <= |leafIds| && leaves == before - IdSet(leafIds[..i])
      {
        assert leafIds[..i + 1] == leafIds[..i] + [leafIds[i]];
        leaves := leaves - {leafIds[i]};
        i := i + 1;
      }
      assert leafIds[..i] == leafIds;
    }

    // ----- optimisation

    /** The locked section that starts an optimisation: refused while one runs, void when nothing is
        planned, and otherwise locking each planned leaf exactly once. */
    method StartOptimization(swaps: seq<PlannedSwap>) returns (started: bool, batches: seq<seq<TreeNode>>)
      requires Valid()
      modifies this`leaves, this`optimizationInProgress, this`optimizationLockedLeafIds
      ensures started <==> !old(optimizationInProgress) && swaps != []
      ensures !started ==> unchanged(this)
      ensures started ==>
        && optimizationInProgress && NoneTwice(BatchIds(batches))
        && AllAvailable(old(leaves), Join(BatchIds(batches))) && leaves == Lock(old(leaves), Join(BatchIds(batches)))
        && optimizationLockedLeafIds == old(optimizationLockedLeafIds) + IdSet(Join(BatchIds(batches)))
      ensures started ==>
        exists available :: Lists(old(leaves), Available, available) && batches == PlanBatches(available, multiset{}, swaps)
    {
      started, batches := false, [];
      if optimizationInProgress {
        return;
      }
      if swaps == [] {
        return;
      }
      started, optimizationInProgress := true, true;
      var available := GetLeavesByStatus(Available);
      PlanIsLockable(leaves, available, swaps);
      batches := LockPlan(available, swaps);
    }

    method LockPlan(available: seq<TreeNode>, swaps: seq<PlannedSwap>) returns (batches: seq<seq<TreeNode>>)
      modifies this`leaves, this`optimizationLockedLeafIds
      ensures batches == PlanBatches(available, multiset{}, swaps)
      ensures leaves == Lock(old(leaves), Join(BatchIds(batches)))
      ensures optimizationLockedLeafIds == old(optimizationLockedLeafIds) + IdSet(Join(BatchIds(batches)))
    {
      hide Lock, Serve, OfValue, Stock, ServedAfter, PlanBatches, Join, Transition;
      ghost var before, lockedBefore, served := leaves, optimizationLockedLeafIds, multiset{};
      var buckets := FillBuckets(available);
      batches := [];
      NothingLocked(before);
      assert swaps[0..] == swaps;
      var k := 0;
      while k < |swaps|
        invariant k <= |swaps| && Stock(buckets, available, served)
        invariant batches + PlanBatches(available, served, swaps[k..]) == PlanBatches(available, multiset{}, swaps)
        invariant leaves == Lock(before, Join(BatchIds(batches)))
        invariant optimizationLockedLeafIds == lockedBefore + IdSet(Join(BatchIds(batches)))
      {
        var leavesToSend;
        PlanStep(available, served, swaps, k);
        leavesToSend, buckets := TakeBatch(buckets, swaps[k].inLeaves, available, served);
        served := ServedAfter(available, served, swaps[k].inLeaves);
        LockBatch(batches, leavesToSend, before);
        batches := batches + [leavesToSend];
        k := k + 1;
      }
      PlanEnd(available, served, swaps);
    }

    method LockBatch(ghost batches: seq<seq<TreeNode>>, leavesToSend: seq<TreeNode>, ghost before: Cache)
      requires leaves == Lock(before, Join(BatchIds(batches)))
      modifies this`leaves, this`optimizationLockedLeafIds
      ensures leaves == Lock(before, Join(BatchIds(batches + [leavesToSend])))
      ensures forall start :: old(optimizationLockedLeafIds) == start + IdSet(Join(BatchIds(batches))) ==>
        optimizationLockedLeafIds == start + IdSet(Join(BatchIds(batches + [leavesToSend])))
    {
      var ids := IdsOf(leavesToSend);
      assert BatchIds(batches + [leavesToSend]) == BatchIds(batches) + [ids];
      JoinMore(BatchIds(batches), ids);
      LockMore(before, Join(BatchIds(batches)), ids, Join(BatchIds(batches + [leavesToSend])));
      TransitionLeaves(ids, LocalLocked, None);
      ghost var start := optimizationLockedLeafIds;
      var i := 0;
      while i < |ids|
        invariant i <= |ids| && optimizationLockedLeafIds == start + IdSet(ids[..i])
        invariant leaves == Lock(before, Join(BatchIds(batches + [leavesToSend])))
      {
        assert ids[..i + 1] == ids[..i] + [ids[i]];
        optimizationLockedLeafIds := optimizationLockedLeafIds + {ids[i]};
        i := i + 1;
      }
      assert ids[..i] == ids;
    }

    /** A batch of the optimisation came back. */
    method CompleteBatch(swapLeafIds: seq<LeafId>, newLeaves: seq<TreeNode>)
      requires Valid()
      modifies this`leaves, this`optimizationLockedLeafIds
      ensures Valid() && leaves == Swapped(old(leaves), swapLeafIds, newLeaves)
      ensures optimizationLockedLeafIds == old(optimizationLockedLeafIds) - IdSet(swapLeafIds)
    {
      StoreSwapped(swapLeafIds, newLeaves);
      ghost var start := optimizationLockedLeafIds;
      var i := 0;
      while i < |swapLeafIds|
        invariant i <= |swapLeafIds| && optimizationLockedLeafIds == start - IdSet(swapLeafIds[..i])
        invariant leaves == Swapped(old(leaves), swapLeafIds, newLeaves) && Valid()
      {
        assert swapLeafIds[..i + 1] == swapLeafIds[..i] + [swapLeafIds[i]];
        optimizationLockedLeafIds := optimizationLockedLeafIds - {swapLeafIds[i]};
        i := i + 1;
      }
      assert swapLeafIds[..i] == swapLeafIds;
    }

    /** The cleanup every optimisation ends with: whatever its batches still have locked is restored. */
    method EndOptimization(batches: seq<seq<LeafId>>)
      requires batches != []
      modifies this`leaves, this`optimizationInProgress, this`optimizationLockedLeafIds
      ensures leaves == Restore(old(leaves), Join(batches)) && !optimizationInProgress && optimizationLockedLeafIds == {}
    {
      hide Restore, Join;
      ghost var before := leaves;
      optimizationInProgress := false;
      NothingRestored(before);
      var i := 0;
      while i < |batches|
        invariant i <= |batches| && leaves == Restore(before, Join(batches[..i])) && !optimizationInProgress
      {
        assert batches[..i + 1] == batches[..i] + [batches[i]];
        JoinMore(batches[..i], batches[i]);
        RestoreMore(before, Join(batches[..i]), batches[i], Join(batches[..i + 1]));
        RestoreLocalLockedToAvailable(batches[i]);
        i := i + 1;
      }
      assert batches[..i] == batches;
      optimizationLockedLeafIds := {};
    }

    // ----- sync

    /** The locked section of `sync`: rebuild the cache from the snapshot, then restore local locks. */
    method SyncSection(s: Snapshot)
      modifies this`leaves, this`hasSynced
      ensures leaves == Merge(old(leaves), s) && hasSynced
    {
      var preserved := Preserved(leaves);
      leaves := map[];
      LoadNodes(s.available);
      LoadTransfers(s.swaps, true);
      LoadTransfers(s.outgoing, false);
      LoadIncoming(s.incoming);
      leaves := leaves + preserved;
      hasSynced := true;
    }

    method LoadNodes(nodes: seq<TreeNode>)
      modifies this`leaves
      ensures leaves == PutNodes(old(leaves), nodes, |nodes|)
    {
      var i := 0;
      while i < |nodes|
        invariant i <= |nodes| && leaves == PutNodes(old(leaves), nodes, i)
      {
        if nodes[i].status == NodeAvailable {
          leaves := leaves[nodes[i].id := LeafRecord(nodes[i], Available, NoSource)];
        }
        i := i + 1;
      }
    }

    method LoadTransfers(es: seq<TransferLeaf>, swap: bool)
      modifies this`leaves
      ensures leaves == if swap then PutSwaps(old(leaves), es, |es|) else PutOutgoing(old(leaves), es, |es|)
    {
      var i := 0;
      while i < |es|
        invariant i <= |es| && leaves == if swap then PutSwaps(old(leaves), es, i) else PutOutgoing(old(leaves), es, i)
      {
        leaves := leaves[es[i].leaf.id := if swap then SwapRecord(es[i]) else OutgoingRecord(es[i])];
        i := i + 1;
      }
    }

    method LoadIncoming(ts: seq<IncomingTransfer>)
      modifies this`leaves
      ensures leaves == PutTransfers(old(leaves), ts, |ts|)
    {
      var i := 0;
      while i < |ts|
        invariant i <= |ts| && leaves == PutTransfers(old(leaves), ts, i)
      {
        if !ts[i].isCounterSwap {
          var j := 0;
          while j < |ts[i].leaves|
            invariant j <= |ts[i].leaves| && leaves == PutTransferLeaves(PutTransfers(old(leaves), ts, i), ts[i], j)
          {
            var leaf := ts[i].leaves[j];
            if leaf.Some? && !Contacted(leaves, leaf.value.id) {
              leaves := leaves[leaf.value.id := LeafRecord(leaf.value, Incoming, FromTransfer(ts[i].id))];
            }
            j := j + 1;
          }
        }
        i := i + 1;
      }
    }
  }

  lemma RestoreMore(m: Cache, a: seq<LeafId>, b: seq<LeafId>, c: seq<LeafId>)
    requires forall id :: id in c <==> id in a || id in b
    ensures Restore(Restore(m, a), b) == Restore(m, c)
  {
  }

  lemma RefreshNothing(m: Cache)
    ensures Refresh(m, []) == m
  {
  }

  lemma RefreshStep(m: Cache, renewed: seq<TreeNode>, i: nat)
    requires i < |renewed|
    ensures var before, leaf := Refresh(m, renewed[..i]), renewed[i];
      Refresh(m, renewed[..i + 1]) == if leaf.id in before then before[leaf.id := before[leaf.id].(treeNode := leaf)] else before
  {
    assert renewed[..i + 1][..i] == renewed[..i];
  }

  lemma NothingRestored(m: Cache)
    ensures Restore(m, Join([])) == m
  {
  }

  lemma NothingLocked(m: Cache)
    ensures Lock(m, Join(BatchIds([]))) == m && Join(BatchIds([])) == []
  {
    assert BatchIds([]) == [];
    assert forall id :: id !in Join([]);
  }

  lemma FoundFlag(available: seq<TreeNode>, targets: seq<nat>, batches: seq<seq<TreeNode>>, found: bool)
    requires IsSelection(available, targets, batches, found)
    ensures found == Found(available, targets)
  {
  }

  lemma PlanStep(ls: seq<TreeNode>, served: multiset<nat>, swaps: seq<PlannedSwap>, k: nat)
    requires k < |swaps|
    ensures PlanBatches(ls, served, swaps[k..])
      == [Serve(ls, served, swaps[k].inLeaves)] + PlanBatches(ls, ServedAfter(ls, served, swaps[k].inLeaves), swaps[k + 1..])
  {
    assert swaps[k..][0] == swaps[k] && swaps[k..][1..] == swaps[k + 1..];
  }

  lemma PlanEnd(ls: seq<TreeNode>, served: multiset<nat>, swaps: seq<PlannedSwap>)
    ensures PlanBatches(ls, served, swaps[|swaps|..]) == []
  {
  }
}
