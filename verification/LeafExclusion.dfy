/** Who holds which leaf: under every interleaving, two unfinished operations never hold the same
    leaf, and an operation only ever restores, marks or spends leaves it locked itself. */
module LeafExclusion {
  import opened LeafCache
  import opened LeafRuns
  import opened Outcomes
  import opened SyncMerge

  /** A held leaf was last locked by its holder and, while cached, is in flight. */
  ghost predicate Exclusive(s: State)
  {
    forall op, id :: IsHeld(s.ops, op, id) ==> HeldProperly(s, op, id)
  }

  predicate HeldProperly(s: State, op: OpId, id: LeafId)
  {
    id in s.locker && s.locker[id] == op && StillInFlight(s.cache, id)
  }

  predicate StillInFlight(m: Cache, id: LeafId) { id in m ==> InFlight(m[id].status) }

  ghost predicate HeldBySome(s: State, id: LeafId) { exists op :: IsHeld(s.ops, op, id) }

  // ----- what a snapshot hands back

  ghost predicate Sent(t: Snapshot, id: LeafId)
  {
    || (exists k :: 0 <= k < |t.swaps| && t.swaps[k].leaf.id == id)
    || (exists k :: 0 <= k < |t.outgoing| && t.outgoing[k].leaf.id == id)
  }

  predicate AvailableAt(nodes: seq<TreeNode>, i: nat, id: LeafId)
    requires i < |nodes|
  {
    nodes[i].id == id && nodes[i].status == NodeAvailable
  }

  predicate IncomingAt(t: IncomingTransfer, j: nat, id: LeafId)
    requires j < |t.leaves|
  {
    t.leaves[j].Some? && t.leaves[j].value.id == id
  }

  ghost predicate Brings(t: IncomingTransfer, id: LeafId)
  {
    !t.isCounterSwap && exists j :: 0 <= j < |t.leaves| && IncomingAt(t, j, id)
  }

  /** The snapshot lists the leaf as available, or as incoming outside a counter-swap, and not as sent. */
  ghost predicate Offers(t: Snapshot, id: LeafId)
  {
    && !Sent(t, id)
    && ((exists i :: 0 <= i < |t.available| && AvailableAt(t.available, i, id))
        || (exists i :: 0 <= i < |t.incoming| && Brings(t.incoming[i], id)))
  }

  lemma {:induction false} EntryFound(es: seq<TransferLeaf>, id: LeafId, k: nat)
    requires k <= |es|
    ensures LastEntry(es, id, k).Some? <==> exists i :: 0 <= i < k && es[i].leaf.id == id
  {
    if k > 0 { EntryFound(es, id, k - 1); }
  }

  lemma {:induction false} AvailableFound(nodes: seq<TreeNode>, id: LeafId, k: nat)
    requires k <= |nodes|
    ensures LastAvailable(nodes, id, k).Some? <==> exists i :: 0 <= i < k && AvailableAt(nodes, i, id)
  {
    if k > 0 {
      AvailableFound(nodes, id, k - 1);
      assert AvailableAt(nodes, k - 1, id) ==> LastAvailable(nodes, id, k).Some?;
    }
  }

  lemma {:induction false} InTransferFound(t: IncomingTransfer, id: LeafId, k: nat)
    requires k <= |t.leaves|
    ensures LastInTransfer(t, id, k).Some? <==> exists j :: 0 <= j < k && IncomingAt(t, j, id)
  {
    if k > 0 {
      InTransferFound(t, id, k - 1);
      assert IncomingAt(t, k - 1, id) ==> LastInTransfer(t, id, k).Some?;
    }
  }

  lemma {:induction false} IncomingFound(ts: seq<IncomingTransfer>, id: LeafId, k: nat)
    requires k <= |ts|
    ensures LastIncoming(ts, id, k).Some? <==> exists i :: 0 <= i < k && Brings(ts[i], id)
  {
    if k > 0 {
      InTransferFound(ts[k - 1], id, |ts[k - 1].leaves|);
      IncomingFound(ts, id, k - 1);
    }
  }

  /** A sync leaves a leaf in flight, or out of the cache, exactly when it is locked here or not offered. */
  lemma SyncInFlightExactly(m: Cache, t: Snapshot, id: LeafId)
    ensures StillInFlight(Merge(m, t), id) <==> HasStatus(m, id, LocalLocked) || !Offers(t, id)
  {
    hide Merge;
    MergeIsPriority(m, t, id);
    EntryFound(t.swaps, id, |t.swaps|);
    EntryFound(t.outgoing, id, |t.outgoing|);
    AvailableFound(t.available, id, |t.available|);
    IncomingFound(t.incoming, id, |t.incoming|);
    LastAvailableIsAvailable(t.available, id, |t.available|);
    LastIncomingIsIncoming(t.incoming, id, |t.incoming|);
  }

  // ----- events

  /** The event leaves this held leaf in flight, or out of the cache. Locked or sent leaves are safe from
      additions, deposits and eviction; what has left the cache can be handed back by them. */
  ghost predicate Spared(s: State, e: Event, id: LeafId)
  {
    match e
    case Add(nodes) => id in s.cache || LastNode(nodes, id).None?
    case AddInbound(nodes, _) => id in s.cache || LastNode(nodes, id).None?
    case EvictStale(_) => true
    case Deposit(d) => id in s.cache || d.id != id || d.status == NodeOther || (d.status == NodeAvailable && s.hasSynced)
    case DepositVerified(n) => id in s.cache || n.id != id
    case Sync(t) => HasStatus(s.cache, id, LocalLocked) || !Offers(t, id)
    case Transferred(event) => event.phase == ReturnedOrExpired ==> id !in event.leafIds || id !in s.cache
    case Claimed(nodes, _) => LastNode(nodes, id).None?
    case Removed(_) => true
    case ReleasedEarly(ids) => id !in ids || !HasStatus(s.cache, id, LocalLocked)
  }

  ghost predicate HarmlessEvent(s: State, e: Event)
  {
    forall id :: HeldBySome(s, id) ==> Spared(s, e, id)
  }

  lemma SparedExactly(s: State, e: Event, id: LeafId)
    requires StillInFlight(s.cache, id)
    ensures StillInFlight(Seen(s.cache, s.hasSynced, e), id) <==> Spared(s, e, id)
  {
    hide Offers, IsHeld;
    match e
    case Add(nodes) => AddLeavesEffect(s.cache, nodes, id);
    case AddInbound(nodes, transferId) => AddIncomingEffect(s.cache, nodes, transferId, id);
    case Sync(t) => SyncInFlightExactly(s.cache, t, id);
    case Claimed(nodes, source) => PutAvailableEffect(s.cache, nodes, source, id);
    case _ =>
  }

  /** An event keeps the leaves exclusive exactly when it spares every held one. */
  lemma EventExclusiveExactly(s: State, e: Event)
    requires Exclusive(s)
    ensures Exclusive(Next(s, Happens(e))) <==> HarmlessEvent(s, e)
  {
    hide Seen, Spared, Held;
    var s' := Next(s, Happens(e));
    if HarmlessEvent(s, e) {
      forall op, id | IsHeld(s'.ops, op, id) ensures HeldProperly(s', op, id) {
        assert IsHeld(s.ops, op, id) && HeldProperly(s, op, id) && HeldBySome(s, id);
        SparedExactly(s, e, id);
      }
    }
    if Exclusive(s') {
      forall id | HeldBySome(s, id) ensures Spared(s, e, id) {
        var op :| IsHeld(s.ops, op, id);
        assert HeldProperly(s, op, id) && HeldProperly(s', op, id);
        SparedExactly(s, e, id);
      }
    }
  }

  // ----- steps

  /** The leaves a step receives from a swap. */
  function Received(a: Step): seq<TreeNode>
  {
    if a.FinishSwap? || a.BatchCompleted? then a.newLeaves else []
  }

  /** No received leaf bears the id of a leaf that some operation goes on holding: a swap that returns
      gives up what it held, an optimisation keeps all its batches until it ends. */
  ghost predicate ReceivesNew(s: State, a: Step)
  {
    forall op, id :: IsHeld(s.ops, op, id) && LastNode(Received(a), id).Some? ==> op == a.op && a.FinishSwap?
  }

  ghost predicate Harmless(s: State, a: Action)
  {
    match a
    case Do(step) => Enabled(s, step) ==> ReceivesNew(s, step)
    case Happens(e) => HarmlessEvent(s, e)
  }

  /** Before it locks anything, a step leaves alone the status of every leaf that stays held. */
  lemma UnlockedKeepsInFlight(s: State, a: Step, op: OpId, id: LeafId)
    requires Enabled(s, a) && Exclusive(s) && ReceivesNew(s, a) && IsHeld(s.ops, op, id)
    requires op != a.op || (After(s, a).Some? && id in Held(After(s, a).value) && id !in LockedIds(a))
    ensures StillInFlight(Unlocked(s, a), id)
  {
    assert HeldProperly(s, op, id);
    assert op != a.op ==> !IsHeld(s.ops, a.op, id);
    if a.FinishSwap? || a.BatchCompleted? {
      PutAvailableEffect(Transition(s.cache, SwapIds(s.ops[a.op]), Spent, None), a.newLeaves, NoSource, id);
    }
  }

  lemma HeldBefore(s: State, a: Step, id: LeafId)
    requires Enabled(s, a) && After(s, a).Some? && id in Held(After(s, a).value) && id !in LockedIds(a)
    ensures IsHeld(s.ops, a.op, id)
  {
  }

  lemma StepKeepsExclusive(s: State, a: Step)
    requires Enabled(s, a) && Exclusive(s) && ReceivesNew(s, a)
    ensures Exclusive(Stepped(s, a))
  {
    hide Unlocked, After, OptimizationIds, Held, InPhase, ReceivesNew, LockedIds;
    var s' := Stepped(s, a);
    forall op, id | IsHeld(s'.ops, op, id) ensures HeldProperly(s', op, id) {
      if op != a.op {
        UnlockedKeepsInFlight(s, a, op, id);
        assert HeldProperly(s, op, id);
      } else if id !in LockedIds(a) {
        HeldBefore(s, a, id);
        UnlockedKeepsInFlight(s, a, op, id);
        assert HeldProperly(s, op, id);
      }
    }
  }

  /** Every leaf a step changes or removes was last locked by its own operation and is still held by
      it, or was available and is being locked now, or is overwritten by a leaf the swap returned. */
  lemma StepTouchesOnlyItsOwn(s: State, a: Step, id: LeafId)
    requires Enabled(s, a) && Exclusive(s) && Lookup(Stepped(s, a).cache, id) != Lookup(s.cache, id)
    ensures (IsHeld(s.ops, a.op, id) && s.locker[id] == a.op) || id in LockedIds(a) || LastNode(Received(a), id).Some?
  {
    if !IsHeld(s.ops, a.op, id) && (a.FinishSwap? || a.BatchCompleted?) {
      PutAvailableEffect(Transition(s.cache, SwapIds(s.ops[a.op]), Spent, None), a.newLeaves, NoSource, id);
    }
  }

  lemma ReceivedBreaks(s: State, a: Step, op: OpId, id: LeafId)
    requires Enabled(s, a) && IsHeld(s.ops, op, id) && LastNode(Received(a), id).Some? && !(op == a.op && a.FinishSwap?)
    ensures IsHeld(Stepped(s, a).ops, op, id) && !HeldProperly(Stepped(s, a), op, id)
  {
    PutAvailableEffect(Transition(s.cache, SwapIds(s.ops[a.op]), Spent, None), a.newLeaves, NoSource, id);
  }

  /** A step keeps the leaves exclusive exactly when it receives no leaf that stays held. */
  lemma StepExclusiveExactly(s: State, a: Step)
    requires Enabled(s, a) && Exclusive(s)
    ensures Exclusive(Stepped(s, a)) <==> ReceivesNew(s, a)
  {
    hide Stepped, Enabled, Held;
    if ReceivesNew(s, a) {
      StepKeepsExclusive(s, a);
    }
    if Exclusive(Stepped(s, a)) {
      forall op, id | IsHeld(s.ops, op, id) && LastNode(Received(a), id).Some? ensures op == a.op && a.FinishSwap? {
        if !(op == a.op && a.FinishSwap?) {
          ReceivedBreaks(s, a, op, id);
        }
      }
    }
  }

  lemma ExclusiveExactly(s: State, a: Action)
    requires Exclusive(s)
    ensures Exclusive(Next(s, a)) <==> Harmless(s, a)
  {
    hide Stepped, Enabled, Seen, ReceivesNew, HarmlessEvent;
    match a
    case Do(step) => if Enabled(s, step) { StepExclusiveExactly(s, step); }
    case Happens(e) => EventExclusiveExactly(s, e);
  }

  // ----- runs

  ghost predicate HarmlessRun(actions: seq<Action>)
  {
    forall k :: 0 <= k < |actions| ==> Harmless(Run(actions[..k]), actions[k])
  }

  ghost predicate AlwaysExclusive(actions: seq<Action>)
  {
    forall k :: 0 <= k <= |actions| ==> Exclusive(Run(actions[..k]))
  }

  lemma RunNext(actions: seq<Action>, k: nat)
    requires k < |actions|
    ensures Run(actions[..k + 1]) == Next(Run(actions[..k]), actions[k])
  {
    assert actions[..k + 1][..k] == actions[..k];
  }

  /** Over every interleaving, the leaves stay exclusive throughout a run exactly when each of its steps
      and events is harmless where it happens. */
  lemma RunsAreExclusiveExactly(actions: seq<Action>)
    ensures AlwaysExclusive(actions) <==> HarmlessRun(actions)
  {
    hide Run, Next, Harmless, Exclusive;
    if HarmlessRun(actions) {
      ExclusiveAtStart();
      var k := 0;
      while k < |actions|
        invariant k <= |actions| && forall j :: 0 <= j <= k ==> Exclusive(Run(actions[..j]))
      {
        RunNext(actions, k);
        ExclusiveExactly(Run(actions[..k]), actions[k]);
        k := k + 1;
      }
    }
    if AlwaysExclusive(actions) {
      forall k | 0 <= k < |actions| ensures Harmless(Run(actions[..k]), actions[k]) {
        RunNext(actions, k);
        assert Exclusive(Run(actions[..k])) && Exclusive(Run(actions[..k + 1]));
        ExclusiveExactly(Run(actions[..k]), actions[k]);
      }
    }
  }

  lemma ExclusiveAtStart()
    ensures Exclusive(Run([]))
  {
  }

  /** The promise itself: no leaf belongs to two unfinished operations. */
  lemma NoLeafIsHeldTwice(actions: seq<Action>, op: OpId, op': OpId, id: LeafId)
    requires HarmlessRun(actions) && IsHeld(Run(actions).ops, op, id) && IsHeld(Run(actions).ops, op', id)
    ensures op == op'
  {
    EveryHarmlessRunIsExclusive(actions);
  }

  /** In a run of harmless steps and events every held leaf was last locked by its holder and is in flight. */
  lemma EveryHarmlessRunIsExclusive(actions: seq<Action>)
    requires HarmlessRun(actions)
    ensures Exclusive(Run(actions))
  {
    RunsAreExclusiveExactly(actions);
    assert actions[..|actions|] == actions;
  }

  // ----- releasing early

  lemma BeginTakes(s: State, op: OpId, id: LeafId)
    requires HasStatus(s.cache, id, Available) && op !in s.ops
    ensures var s' := Next(s, Do(BeginExecution(op, [id])));
      s'.ops == s.ops[op := Executing([id])] && HasStatus(s'.cache, id, LocalLocked) && id in s'.locker && s'.locker[id] == op
  {
    hide Captured, SwapIds, Keep, Restore, MarkOutgoing, UpdateSource, Refresh, Swapped;
    assert AllAvailable(s.cache, [id]);
    assert Enabled(s, BeginExecution(op, [id]));
  }

  lemma FinishMarks(s: State, op: OpId, id: LeafId)
    requires op in s.ops && s.ops[op] == Executing([id]) && HasStatus(s.cache, id, LocalLocked)
    ensures HasStatus(Next(s, Do(FinishExecution(op, true))).cache, id, Outgoing)
  {
    hide Captured, SwapIds, Keep, Restore, UpdateSource, Refresh, Swapped;
    assert Enabled(s, FinishExecution(op, true));
  }

  /** A leaf released while its operation still runs, and locked again by a second operation, is held
      twice; when the first operation succeeds it marks the second one's leaf as sent. */
  lemma EarlyReleaseSharesLeaf(s: State, id: LeafId, first: OpId, second: OpId)
    requires HasStatus(s.cache, id, Available) && first !in s.ops && second !in s.ops && first != second
    ensures
      var locked := Next(s, Do(BeginExecution(first, [id])));
      var shared := Next(Next(locked, Happens(ReleasedEarly([id]))), Do(BeginExecution(second, [id])));
      && IsHeld(shared.ops, first, id) && IsHeld(shared.ops, second, id)
      && HasStatus(shared.cache, id, LocalLocked) && id in shared.locker && shared.locker[id] == second
      && HasStatus(Next(shared, Do(FinishExecution(first, true))).cache, id, Outgoing)
  {
    hide Stepped, Enabled;
    BeginTakes(s, first, id);
    var locked := Next(s, Do(BeginExecution(first, [id])));
    var released := Next(locked, Happens(ReleasedEarly([id])));
    BeginTakes(released, second, id);
    FinishMarks(Next(released, Do(BeginExecution(second, [id]))), first, id);
  }
}
