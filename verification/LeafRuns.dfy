/** Runs of the leaf manager: any interleaving, at the awaits, of selections, swaps, optimisation,
    sync and stream events over one cache. Each step is one synchronous section of the source. */
module LeafRuns {
  import opened LeafCache
  import opened Outcomes
  import opened SyncMerge

  type OpId = nat

  /** An unfinished operation and the leaves it captured. */
  datatype Op =
    | Executing(ids: seq<LeafId>)
    | Swapping(ids: seq<LeafId>, captured: Cache, registered: bool, initiated: bool)
    | Optimizing(batches: seq<seq<LeafId>>, next: nat, captured: Cache, registered: bool, initiated: bool)

  datatype State = State(
    cache: Cache,
    ops: map<OpId, Op>,
    locker: map<LeafId, OpId>,
    optimizing: bool,
    optimizationLocked: set<LeafId>,
    hasSynced: bool)

  const INITIAL := State(map[], map[], map[], false, {}, false)

  /** The synchronous sections of an operation. */
  datatype Step =
    // selectLeavesAndExecute and executeWithAllLeaves
    | BeginExecution(op: OpId, ids: seq<LeafId>)
    | DropUnrenewed(op: OpId, dropped: seq<LeafId>)
    | RefreshNodes(op: OpId, nodes: seq<TreeNode>)
    | FinishExecution(op: OpId, succeeded: bool)
    // the swap path of selectLeavesWithSwap
    | BeginSwap(op: OpId, ids: seq<LeafId>)
    | RegisterSwap(op: OpId, swapId: string)
    | SwapInitiated(op: OpId)
    | SwapFailed(op: OpId)
    | FinishSwap(op: OpId, newLeaves: seq<TreeNode>, reselected: Option<seq<LeafId>>)
    // optimizeLeaves
    | BeginOptimize(op: OpId, batches: seq<seq<LeafId>>)
    | BatchCompleted(op: OpId, newLeaves: seq<TreeNode>)
    | EndOptimize(op: OpId)

  /** Everything else that reaches the cache: server responses, the event stream, the application. */
  datatype Event =
    | Add(nodes: seq<TreeNode>)
    | AddInbound(nodes: seq<TreeNode>, transferId: string)
    | EvictStale(freshIds: set<LeafId>)
    | Deposit(deposit: TreeNode)
    | DepositVerified(node: TreeNode)
    | Sync(snapshot: Snapshot)
    | Transferred(event: TransferEvent)
    | Claimed(nodes: seq<TreeNode>, source: LeafSource)
    | Removed(ids: seq<LeafId>)
    | ReleasedEarly(ids: seq<LeafId>)

  datatype Action = Do(step: Step) | Happens(event: Event)

  function Join(batches: seq<seq<LeafId>>): (r: seq<LeafId>)
    ensures forall id :: id in r <==> exists i :: 0 <= i < |batches| && id in batches[i]
  {
    if batches == [] then []
    else
      assert forall id, i :: 0 < i < |batches| && id in batches[i] ==> batches[1..][i - 1] == batches[i];
      batches[0] + Join(batches[1..])
  }

  /** The ids an unfinished operation may still restore, mark or spend. */
  function Held(op: Op): seq<LeafId>
  {
    match op
    case Executing(ids) => ids
    case Swapping(ids, _, _, _) => ids
    case Optimizing(batches, _, _, _, _) => Join(batches)
  }

  /** The leaves whose swap is under way. */
  function SwapIds(op: Op): seq<LeafId>
  {
    match op
    case Executing(_) => []
    case Swapping(ids, _, _, _) => ids
    case Optimizing(batches, next, _, _, _) => if next < |batches| then batches[next] else []
  }

  predicate AllAvailable(m: Cache, ids: seq<LeafId>)
  {
    forall id :: id in ids ==> HasStatus(m, id, Available)
  }

  function Captured(m: Cache, ids: seq<LeafId>): Cache
  {
    map id | id in m && id in ids :: m[id]
  }

  function Lock(m: Cache, ids: seq<LeafId>): Cache { Transition(m, ids, LocalLocked, None) }

  function LockedBy(locker: map<LeafId, OpId>, ids: seq<LeafId>, op: OpId): map<LeafId, OpId>
  {
    locker + map id | id in ids :: op
  }

  /** The cache after a swap returned: the sent leaves are spent, the received ones available. */
  function Swapped(m: Cache, ids: seq<LeafId>, newLeaves: seq<TreeNode>): Cache
  {
    PutAvailable(Transition(m, ids, Spent, None), newLeaves, NoSource)
  }

  /** The leaves a step locks. */
  function LockedIds(a: Step): seq<LeafId>
  {
    match a
    case BeginExecution(_, ids) => ids
    case BeginSwap(_, ids) => ids
    case BeginOptimize(_, batches) => Join(batches)
    case FinishSwap(_, _, reselected) => (match reselected case Some(ids) => ids case None => [])
    case _ => []
  }

  predicate Begins(a: Step) { a.BeginExecution? || a.BeginSwap? || a.BeginOptimize? }

  /** When the code can take a step: its operation is in the right phase, and what it locks is available. */
  predicate Enabled(s: State, a: Step)
  {
    && (a.op in s.ops <==> !Begins(a))
    && (a.op in s.ops ==> InPhase(s.ops[a.op], a))
    && (a.BeginOptimize? ==> !s.optimizing && a.batches != [] && NoneTwice(a.batches))
    && (a.op in s.ops || Begins(a) ==> AllAvailable(Unlocked(s, a), LockedIds(a)))
  }

  predicate NoneTwice(batches: seq<seq<LeafId>>)
  {
    forall i, j, id :: 0 <= i < j < |batches| && id in batches[i] ==> id !in batches[j]
  }

  predicate InPhase(o: Op, a: Step)
  {
    match a
    case DropUnrenewed(_, dropped) => o.Executing? && forall id :: id in dropped ==> id in o.ids
    case RefreshNodes(_, nodes) => o.Executing? && forall n :: n in nodes ==> n.id in o.ids
    case FinishExecution(_, _) => o.Executing?
    case RegisterSwap(_, _) => !o.Executing?
    case SwapInitiated(_) => !o.Executing? && o.registered
    case SwapFailed(_) => o.Swapping?
    case FinishSwap(_, _, _) => o.Swapping? && o.initiated
    case BatchCompleted(_, _) => o.Optimizing? && o.next < |o.batches| && o.initiated
    case EndOptimize(_) => o.Optimizing?
    case _ => false
  }

  function Keep(ids: seq<LeafId>, dropped: seq<LeafId>): (r: seq<LeafId>)
    ensures forall id :: id in r <==> id in ids && id !in dropped
  {
    if ids == [] then [] else (if ids[0] in dropped then [] else [ids[0]]) + Keep(ids[1..], dropped)
  }

  /** What a step does to the cache before it locks anything. */
  function Unlocked(s: State, a: Step): Cache
    requires Begins(a) || (a.op in s.ops && InPhase(s.ops[a.op], a))
  {
    match a
    case DropUnrenewed(_, dropped) => Restore(s.cache, dropped)
    case RefreshNodes(_, nodes) => Refresh(s.cache, nodes)
    case FinishExecution(op, succeeded) => if succeeded then MarkOutgoing(s.cache, s.ops[op].ids) else Restore(s.cache, s.ops[op].ids)
    case RegisterSwap(op, swapId) => UpdateSource(s.cache, SwapIds(s.ops[op]), FromSwap(swapId))
    case SwapInitiated(op) => Transition(s.cache, SwapIds(s.ops[op]), SwapPending, None)
    case SwapFailed(op) => Restore(s.cache, s.ops[op].ids)
    case FinishSwap(op, newLeaves, _) => Swapped(s.cache, SwapIds(s.ops[op]), newLeaves)
    case BatchCompleted(op, newLeaves) => Swapped(s.cache, SwapIds(s.ops[op]), newLeaves)
    case EndOptimize(op) => Restore(s.cache, Join(s.ops[op].batches))
    case _ => s.cache
  }

  /** What a step leaves of its operation. */
  function After(s: State, a: Step): Option<Op>
    requires Begins(a) || (a.op in s.ops && InPhase(s.ops[a.op], a))
  {
    match a
    case BeginExecution(_, ids) => Some(Executing(ids))
    case DropUnrenewed(op, dropped) => Some(Executing(Keep(s.ops[op].ids, dropped)))
    case RefreshNodes(op, _) => Some(s.ops[op])
    case BeginSwap(_, ids) => Some(Swapping(ids, Captured(s.cache, ids), false, false))
    case RegisterSwap(op, _) => Some(s.ops[op].(registered := true))
    case SwapInitiated(op) => Some(s.ops[op].(initiated := true))
    case FinishSwap(_, _, reselected) => (match reselected case Some(ids) => Some(Executing(ids)) case None => None)
    case BeginOptimize(_, batches) => Some(Optimizing(batches, 0, Captured(s.cache, Join(batches)), false, false))
    case BatchCompleted(op, _) => Some(s.ops[op].(next := s.ops[op].next + 1, registered := false, initiated := false))
    case _ => None
  }

  function IdSet(ids: seq<LeafId>): set<LeafId> { set id | id in ids }

  function OptimizationIds(s: State, a: Step): set<LeafId>
    requires Enabled(s, a)
  {
    match a
    case BeginOptimize(_, batches) => s.optimizationLocked + IdSet(Join(batches))
    case BatchCompleted(op, _) => s.optimizationLocked - IdSet(SwapIds(s.ops[op]))
    case EndOptimize(_) => {}
    case _ => s.optimizationLocked
  }

  function Stepped(s: State, a: Step): State
    requires Enabled(s, a)
  {
    State(
      Lock(Unlocked(s, a), LockedIds(a)),
      match After(s, a) case Some(o) => s.ops[a.op := o] case None => s.ops - {a.op},
      LockedBy(s.locker, LockedIds(a), a.op),
      if a.BeginOptimize? then true else if a.EndOptimize? then false else s.optimizing,
      OptimizationIds(s, a),
      s.hasSynced)
  }

  /** What an event does to the cache. */
  function Seen(m: Cache, hasSynced: bool, e: Event): Cache
  {
    match e
    case Add(nodes) => AddLeaves(m, nodes)
    case AddInbound(nodes, transferId) => AddIncoming(m, nodes, transferId)
    case EvictStale(freshIds) => Evict(m, freshIds)
    case Deposit(deposit) => DepositEvent(m, deposit, hasSynced)
    case DepositVerified(node) => VerifiedDeposit(m, node)
    case Sync(snapshot) => Merge(m, snapshot)
    case Transferred(event) => HandleTransfer(m, event)
    case Claimed(nodes, source) => PutAvailable(m, nodes, source)
    case Removed(ids) => m - IdSet(ids)
    case ReleasedEarly(ids) => Restore(m, ids)
  }

  /** One action; a step the code cannot take now changes nothing. */
  function Next(s: State, a: Action): State
  {
    match a
    case Do(step) => if Enabled(s, step) then Stepped(s, step) else s
    case Happens(e) => s.(cache := Seen(s.cache, s.hasSynced, e), hasSynced := s.hasSynced || e.Sync?)
  }

  function Run(actions: seq<Action>): State
    decreases |actions|
  {
    if actions == [] then INITIAL else Next(Run(actions[..|actions| - 1]), actions[|actions| - 1])
  }

  // ----- no lock outlives its operation, whatever the outside world does

  predicate IsHeld(ops: map<OpId, Op>, op: OpId, id: LeafId)
  {
    op in ops && id in Held(ops[op])
  }

  predicate LockOwned(s: State, id: LeafId)
  {
    id in s.locker && IsHeld(s.ops, s.locker[id], id)
  }

  /** Whatever is locked was last locked by an operation that is unfinished and still holds it. */
  ghost predicate LocksAreHeld(s: State)
  {
    forall id :: HasStatus(s.cache, id, LocalLocked) ==> LockOwned(s, id)
  }

  ghost predicate Unchanged(m: Cache, m': Cache, id: LeafId) { Lookup(m', id) == Lookup(m, id) }

  /** The last node stored under an id is the one that stays. */
  lemma {:induction false} PutAvailableEffect(m: Cache, nodes: seq<TreeNode>, source: LeafSource, id: LeafId)
    ensures var m' := PutAvailable(m, nodes, source);
      match LastNode(nodes, id)
      case Some(n) => id in m' && m'[id] == LeafRecord(n, Available, source)
      case None => Unchanged(m, m', id)
  {
    if nodes != [] {
      PutAvailableEffect(m, nodes[..|nodes| - 1], source, id);
    }
  }

  lemma PutAvailableWellFormed(m: Cache, nodes: seq<TreeNode>, source: LeafSource)
    requires WellFormed(m)
    ensures WellFormed(PutAvailable(m, nodes, source))
  {
    forall id | id in PutAvailable(m, nodes, source)
      ensures PutAvailable(m, nodes, source)[id].treeNode.id == id && PutAvailable(m, nodes, source)[id].status != Spent
    {
      PutAvailableEffect(m, nodes, source, id);
    }
  }

  /** `addLeaves` touches only what it is given and what is not in flight, and makes that available. */
  lemma {:induction false} AddLeavesEffect(m: Cache, nodes: seq<TreeNode>, id: LeafId)
    ensures var m' := AddLeaves(m, nodes);
      if LastNode(nodes, id).None? || (id in m && InFlight(m[id].status)) then Unchanged(m, m', id) else HasStatus(m', id, Available)
    ensures WellFormed(m) ==> WellFormed(AddLeaves(m, nodes))
  {
    if nodes != [] {
      AddLeavesEffect(m, nodes[..|nodes| - 1], id);
    }
  }

  /** `addIncomingLeaves` touches only what it is given and what is unknown or incoming. */
  lemma {:induction false} AddIncomingEffect(m: Cache, nodes: seq<TreeNode>, transferId: string, id: LeafId)
    ensures var m' := AddIncoming(m, nodes, transferId);
      if LastNode(nodes, id).None? || (id in m && m[id].status != Incoming) then Unchanged(m, m', id) else HasStatus(m', id, Incoming)
    ensures WellFormed(m) ==> WellFormed(AddIncoming(m, nodes, transferId))
  {
    if nodes != [] {
      AddIncomingEffect(m, nodes[..|nodes| - 1], transferId, id);
    }
  }

  /** A deposit event touches only its own leaf, and never one in flight or available. It makes a leaf
      available exactly when the leaf was incoming, or unknown before the first sync, and the server
      reports it available; it makes one incoming exactly when the leaf was unknown and is being created. */
  lemma DepositEffect(m: Cache, d: TreeNode, hasSynced: bool)
    requires WellFormed(m)
    ensures var m' := DepositEvent(m, d, hasSynced);
      && (forall id :: id != d.id ==> Unchanged(m, m', id))
      && (d.id in m && (InFlight(m[d.id].status) || m[d.id].status == Available) ==> Unchanged(m, m', d.id))
      && (HasStatus(m', d.id, Available) && !HasStatus(m, d.id, Available) <==>
          d.status == NodeAvailable && (HasStatus(m, d.id, Incoming) || (d.id !in m && !hasSynced)))
      && (HasStatus(m', d.id, Incoming) && !HasStatus(m, d.id, Incoming) <==> d.status == NodeCreating && d.id !in m)
      && (!Unchanged(m, m', d.id) ==>
          && d.id in m' && m'[d.id].treeNode == d
          && m'[d.id].source == if d.id in m then m[d.id].source else FromDeposit(d.id))
  {
  }

  lemma EventAddsNoLock(m: Cache, hasSynced: bool, e: Event, id: LeafId)
    requires HasStatus(Seen(m, hasSynced, e), id, LocalLocked)
    ensures HasStatus(m, id, LocalLocked)
  {
    match e
    case Add(nodes) => AddLeavesEffect(m, nodes, id);
    case AddInbound(nodes, transferId) => AddIncomingEffect(m, nodes, transferId, id);
    case Sync(snapshot) => OnlyLocalLocksStayLocked(m, snapshot, id);
    case Claimed(nodes, source) => PutAvailableEffect(m, nodes, source, id);
    case _ =>
  }

  lemma UnlockedAddsNoLock(s: State, a: Step, id: LeafId)
    requires Enabled(s, a) && HasStatus(Unlocked(s, a), id, LocalLocked)
    ensures HasStatus(s.cache, id, LocalLocked)
    ensures IsHeld(s.ops, a.op, id) ==> After(s, a).Some? && id in Held(After(s, a).value)
  {
    hide Captured, PutAvailable;
    if a.FinishSwap? || a.BatchCompleted? {
      PutAvailableEffect(Transition(s.cache, SwapIds(s.ops[a.op]), Spent, None), a.newLeaves, NoSource, id);
    }
  }

  lemma StepKeepsLocks(s: State, a: Step)
    requires Enabled(s, a) && LocksAreHeld(s)
    ensures LocksAreHeld(Stepped(s, a))
  {
    hide Unlocked, After, Enabled, OptimizationIds, Held, AllAvailable;
    var s' := Stepped(s, a);
    forall id | HasStatus(s'.cache, id, LocalLocked) ensures LockOwned(s', id) {
      if id in LockedIds(a) {
        NewLockHeld(s, a);
      } else {
        UnlockedAddsNoLock(s, a, id);
      }
    }
  }

  lemma NewLockHeld(s: State, a: Step)
    requires Enabled(s, a)
    ensures LockedIds(a) != [] ==> After(s, a).Some? && Held(After(s, a).value) == LockedIds(a)
  {
  }

  /** At most one optimisation runs; the flag says whether one does; its id set is empty when none does. */
  ghost predicate OneOptimization(s: State)
  {
    && (forall op, op' :: op in s.ops && op' in s.ops && s.ops[op].Optimizing? && s.ops[op'].Optimizing? ==> op == op')
    && (s.optimizing <==> exists op :: op in s.ops && s.ops[op].Optimizing?)
    && (!s.optimizing ==> s.optimizationLocked == {})
  }

  lemma StepKeepsOneOptimization(s: State, a: Step)
    requires Enabled(s, a) && OneOptimization(s)
    ensures OneOptimization(Stepped(s, a))
  {
    hide Unlocked, Captured, AllAvailable, Lock, LockedBy, Keep, Join, SwapIds;
    var s' := Stepped(s, a);
    if a.BeginOptimize? {
      assert s'.ops[a.op].Optimizing?;
    } else {
      assert a.EndOptimize? || forall op :: op in s.ops && s.ops[op].Optimizing? ==> op in s'.ops && s'.ops[op].Optimizing?;
    }
  }

  lemma EventKeepsWellFormed(m: Cache, hasSynced: bool, e: Event)
    requires WellFormed(m)
    ensures WellFormed(Seen(m, hasSynced, e))
  {
    match e
    case Add(nodes) => AddLeavesEffect(m, nodes, "");
    case AddInbound(nodes, transferId) => AddIncomingEffect(m, nodes, transferId, "");
    case Claimed(nodes, source) => PutAvailableWellFormed(m, nodes, source);
    case Sync(snapshot) => MergeKeepsWellFormed(m, snapshot);
    case _ =>
  }

  lemma LockedStaysWellFormed(m: Cache, ids: seq<LeafId>)
    requires WellFormed(m)
    ensures WellFormed(Lock(m, ids))
  {
  }

  lemma StepKeepsWellFormed(s: State, a: Step)
    requires Enabled(s, a) && WellFormed(s.cache)
    ensures WellFormed(Stepped(s, a).cache)
  {
    hide After, LockedBy, OptimizationIds, AllAvailable, Lock;
    if a.FinishSwap? || a.BatchCompleted? {
      PutAvailableWellFormed(Transition(s.cache, SwapIds(s.ops[a.op]), Spent, None), a.newLeaves, NoSource);
    }
    LockedStaysWellFormed(Unlocked(s, a), LockedIds(a));
  }

  /** In every run, with any inputs from outside: an ended operation has left nothing locked, at most
      one optimisation runs, its id set is empty when none does, and no stored leaf is Spent. */
  lemma {:induction false} EveryRunIsClean(actions: seq<Action>)
    ensures var s := Run(actions);
      && LocksAreHeld(s) && OneOptimization(s) && WellFormed(s.cache)
      && forall id, op :: HasStatus(s.cache, id, LocalLocked) && op !in s.ops ==> id in s.locker && s.locker[id] != op
    decreases |actions|
  {
    hide Seen, Stepped, Enabled, Held;
    if actions != [] {
      var s, a := Run(actions[..|actions| - 1]), actions[|actions| - 1];
      EveryRunIsClean(actions[..|actions| - 1]);
      match a
      case Do(step) =>
        if Enabled(s, step) {
          StepKeepsLocks(s, step);
          StepKeepsOneOptimization(s, step);
          StepKeepsWellFormed(s, step);
        }
      case Happens(e) =>
        EventKeepsWellFormed(s.cache, s.hasSynced, e);
        forall id | HasStatus(Next(s, a).cache, id, LocalLocked) ensures HasStatus(s.cache, id, LocalLocked) {
          EventAddsNoLock(s.cache, s.hasSynced, e, id);
        }
        assert forall id :: LockOwned(s, id) ==> LockOwned(Next(s, a), id);
    }
  }

  /** An execution that ends settles exactly the leaves it still had locked: sent on success, available
      and without source on failure; whatever an event had already moved on stays as it was. */
  lemma ExecutionSettles(s: State, op: OpId, succeeded: bool, id: LeafId)
    requires op in s.ops && s.ops[op].Executing?
    ensures var s' := Next(s, Do(FinishExecution(op, succeeded)));
      && op !in s'.ops
      && if id in s.ops[op].ids && HasStatus(s.cache, id, LocalLocked)
         then id in s'.cache && s'.cache[id].treeNode == s.cache[id].treeNode
              && s'.cache[id].status == (if succeeded then Outgoing else Available)
              && s'.cache[id].source == (if succeeded then s.cache[id].source else NoSource)
         else Unchanged(s.cache, s'.cache, id)
  {
    hide SwapIds, Captured, Join, Keep, Swapped;
    assert Enabled(s, FinishExecution(op, succeeded));
  }
}
