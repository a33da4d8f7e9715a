/** The leaf cache of one wallet: records, the status graph, and what each cache operation does to
    the whole map. The class in LeafManager is proved against these functions. */
module LeafCache {
  import opened Outcomes

  type LeafId = string

  datatype NodeStatus = NodeCreating | NodeAvailable | NodeOther

  /** A server-side leaf; `revision` stands for its transactions and keys, which renewal replaces. */
  datatype TreeNode = TreeNode(id: LeafId, value: nat, status: NodeStatus, revision: int)

  datatype LeafStatus = Available | LocalLocked | Outgoing | SwapPending | Incoming | Spent

  datatype LeafSource =
    | FromTransfer(transferId: string)
    | FromSwap(swapId: string)
    | FromDeposit(depositId: string)
    | NoSource

  datatype LeafRecord = LeafRecord(treeNode: TreeNode, status: LeafStatus, source: LeafSource)

  type Cache = map<LeafId, LeafRecord>

  predicate ValidTransition(from: LeafStatus, to: LeafStatus)
  {
    match from
    case Available => to in {LocalLocked, Outgoing, SwapPending, Spent}
    case LocalLocked => to in {Available, Outgoing, SwapPending, Spent}
    case Outgoing => to in {Available, Spent}
    case SwapPending => to in {Available, Spent}
    case Incoming => to == Available
    case Spent => false
  }

  predicate InFlight(s: LeafStatus) { s in {LocalLocked, Outgoing, SwapPending} }

  predicate HasStatus(m: Cache, id: LeafId, s: LeafStatus) { id in m && m[id].status == s }

  // ----- transition

  function WithStatus(r: LeafRecord, to: LeafStatus, source: Option<LeafSource>): LeafRecord
  {
    LeafRecord(r.treeNode, to, if source.Some? then source.value else r.source)
  }

  /** One round of the loop in `transition`. */
  function TransitionOne(m: Cache, id: LeafId, to: LeafStatus, source: Option<LeafSource>): Cache
  {
    if id !in m || !ValidTransition(m[id].status, to) then m
    else if to == Spent then m - {id}
    else m[id := WithStatus(m[id], to, source)]
  }

  predicate Moves(m: Cache, ids: seq<LeafId>, to: LeafStatus, id: LeafId)
  {
    id in ids && id in m && ValidTransition(m[id].status, to)
  }

  /** `transition` on a whole list: every listed leaf whose edge exists moves, once; Spent deletes. */
  function Transition(m: Cache, ids: seq<LeafId>, to: LeafStatus, source: Option<LeafSource>): Cache
  {
    map id | id in m && !(Moves(m, ids, to, id) && to == Spent) ::
      if Moves(m, ids, to, id) then WithStatus(m[id], to, source) else m[id]
  }

  lemma ListedNext(ids: seq<LeafId>, i: nat)
    requires i < |ids|
    ensures forall id :: id in ids[..i + 1] <==> id in ids[..i] || id == ids[i]
  {
    assert ids[..i + 1] == ids[..i] + [ids[i]];
  }

  /** Repeating an id changes nothing, because no status has an edge to itself. */
  lemma TransitionStep(m: Cache, ids: seq<LeafId>, i: nat, to: LeafStatus, source: Option<LeafSource>)
    requires i < |ids|
    ensures TransitionOne(Transition(m, ids[..i], to, source), ids[i], to, source) == Transition(m, ids[..i + 1], to, source)
  {
    ListedNext(ids, i);
  }

  // ----- restoring, marking, renaming the source

  /** `restoreLocalLockedToAvailable` */
  function Restore(m: Cache, ids: seq<LeafId>): Cache
  {
    map id | id in m :: if id in ids && m[id].status == LocalLocked then LeafRecord(m[id].treeNode, Available, NoSource) else m[id]
  }

  /** The success path of an executor: leaves still locked become Outgoing. */
  function MarkOutgoing(m: Cache, ids: seq<LeafId>): Cache
  {
    map id | id in m :: if id in ids && m[id].status == LocalLocked then m[id].(status := Outgoing) else m[id]
  }

  /** `updateLeavesSource` */
  function UpdateSource(m: Cache, ids: seq<LeafId>, source: LeafSource): Cache
  {
    map id | id in m :: if id in ids && m[id].status != Available then m[id].(source := source) else m[id]
  }

  /** Replacing cached tree nodes by renewed ones; absent ids are ignored, the last copy wins. */
  function Refresh(m: Cache, nodes: seq<TreeNode>): Cache
  {
    map id | id in m :: match LastNode(nodes, id) case None => m[id] case Some(n) => m[id].(treeNode := n)
  }

  function LastNode(nodes: seq<TreeNode>, id: LeafId): (r: Option<TreeNode>)
    ensures r.Some? ==> r.value.id == id && r.value in nodes
    ensures r.None? <==> forall n :: n in nodes ==> n.id != id
  {
    if nodes == [] then None
    else
      var last := nodes[|nodes| - 1];
      if last.id == id then Some(last) else LastNode(nodes[..|nodes| - 1], id)
  }

  // ----- inserting

  /** Storing leaves as Available whatever they were before: claimed leaves and the outputs of a swap. */
  function PutAvailable(m: Cache, nodes: seq<TreeNode>, source: LeafSource): Cache
  {
    if nodes == [] then m
    else
      var n := nodes[|nodes| - 1];
      PutAvailable(m, nodes[..|nodes| - 1], source)[n.id := LeafRecord(n, Available, source)]
  }

  function AddOne(m: Cache, n: TreeNode): Cache
  {
    if n.id in m && (InFlight(m[n.id].status) || (m[n.id].status == Available && m[n.id].treeNode.value == n.value)) then m
    else m[n.id := LeafRecord(n, Available, NoSource)]
  }

  /** `addLeaves` */
  function AddLeaves(m: Cache, nodes: seq<TreeNode>): Cache
  {
    if nodes == [] then m else AddOne(AddLeaves(m, nodes[..|nodes| - 1]), nodes[|nodes| - 1])
  }

  function AddIncomingOne(m: Cache, n: TreeNode, transferId: string): Cache
  {
    if n.id in m && m[n.id].status != Incoming then m
    else m[n.id := LeafRecord(n, Incoming, FromTransfer(transferId))]
  }

  /** `addIncomingLeaves` */
  function AddIncoming(m: Cache, nodes: seq<TreeNode>, transferId: string): Cache
  {
    if nodes == [] then m else AddIncomingOne(AddIncoming(m, nodes[..|nodes| - 1], transferId), nodes[|nodes| - 1], transferId)
  }

  predicate Stale(r: LeafRecord, id: LeafId, freshIds: set<LeafId>)
  {
    r.status == Available && r.source == NoSource && id !in freshIds
  }

  /** `evictStaleAvailable` */
  function Evict(m: Cache, freshIds: set<LeafId>): Cache
  {
    map id | id in m && !Stale(m[id], id, freshIds) :: m[id]
  }

  // ----- deposits and transfer events

  /** The synchronous part of `handleDepositEvent`. */
  function DepositEvent(m: Cache, deposit: TreeNode, hasSynced: bool): Cache
  {
    match deposit.status
    case NodeCreating =>
      if deposit.id in m then m else m[deposit.id := LeafRecord(deposit, Incoming, FromDeposit(deposit.id))]
    case NodeAvailable =>
      if deposit.id in m then
        if !InFlight(m[deposit.id].status) && m[deposit.id].status != Available then
          TransitionOne(m[deposit.id := m[deposit.id].(treeNode := deposit)], deposit.id, Available, None)
        else m
      else if !hasSynced then m[deposit.id := LeafRecord(deposit, Available, FromDeposit(deposit.id))]
      else m
    case NodeOther => m
  }

  /** `verifyAndAddLeaf` once the coordinator confirmed the leaf: only an unknown id is added. */
  function VerifiedDeposit(m: Cache, node: TreeNode): Cache
  {
    if node.id in m then m else m[node.id := LeafRecord(node, Available, FromDeposit(node.id))]
  }

  /** The transfer statuses `handleTransferEvent` distinguishes. */
  datatype TransferPhase = ReturnedOrExpired | SenderInitiated | Terminal | Unrecognized

  datatype TransferEvent = TransferEvent(transferId: string, isSwap: bool, phase: TransferPhase, leafIds: seq<LeafId>)

  /** A leaf reclaimed by this very transfer ignores its late events. */
  predicate Reclaimed(m: Cache, id: LeafId, transferId: string)
  {
    id in m && m[id].status == Available && m[id].source == FromTransfer(transferId)
  }

  function ActiveIds(m: Cache, ids: seq<LeafId>, transferId: string): (r: seq<LeafId>)
    ensures forall id :: id in r <==> id in ids && !Reclaimed(m, id, transferId)
  {
    if ids == [] then []
    else (if Reclaimed(m, ids[0], transferId) then [] else [ids[0]]) + ActiveIds(m, ids[1..], transferId)
  }

  function NotFromSwap(m: Cache, ids: seq<LeafId>): (r: seq<LeafId>)
    ensures forall id :: id in r <==> id in ids && (id !in m || !m[id].source.FromSwap?)
  {
    if ids == [] then []
    else (if ids[0] !in m || !m[ids[0]].source.FromSwap? then [ids[0]] else []) + NotFromSwap(m, ids[1..])
  }

  /** `handleTransferEvent` for a transfer sent by this wallet. */
  function HandleTransfer(m: Cache, e: TransferEvent): Cache
  {
    var active := ActiveIds(m, e.leafIds, e.transferId);
    match e.phase
    case ReturnedOrExpired => Transition(m, active, Available, Some(NoSource))
    case SenderInitiated => Transition(m, active, if e.isSwap then SwapPending else Outgoing, Some(FromTransfer(e.transferId)))
    case Terminal => Transition(m, NotFromSwap(m, active), Spent, Some(FromTransfer(e.transferId)))
    case Unrecognized => m
  }

  // ----- balances

  function Contribution(r: LeafRecord, counted: set<LeafStatus>): nat
  {
    if r.status in counted then r.treeNode.value else 0
  }

  /** The total value of the cached leaves whose status is counted. */
  ghost function Total(m: Cache, counted: set<LeafStatus>): nat
  {
    if m == map[] then 0 else var id :| id in m; Contribution(m[id], counted) + Total(m - {id}, counted)
  }

  const OWNED_STATUSES: set<LeafStatus> := {Available, LocalLocked, Outgoing, SwapPending}
  const ALL_STATUSES: set<LeafStatus> := {Available, LocalLocked, Outgoing, SwapPending, Incoming, Spent}

  lemma {:induction false} TotalRemove(m: Cache, id: LeafId, counted: set<LeafStatus>)
    requires id in m
    ensures Total(m, counted) == Contribution(m[id], counted) + Total(m - {id}, counted)
    decreases m.Keys
  {
    var other :| other in m && Total(m, counted) == Contribution(m[other], counted) + Total(m - {other}, counted);
    if other != id {
      TotalRemove(m - {other}, id, counted);
      TotalRemove(m - {id}, other, counted);
      assert m - {other} - {id} == m - {id} - {other};
    }
  }

  lemma TotalInsert(m: Cache, id: LeafId, r: LeafRecord, counted: set<LeafStatus>)
    ensures Total(m[id := r], counted) == Total(m - {id}, counted) + Contribution(r, counted)
  {
    TotalRemove(m[id := r], id, counted);
    assert m[id := r] - {id} == m - {id};
  }

  lemma {:induction false} TotalCongruent(m: Cache, m': Cache, counted: set<LeafStatus>)
    requires m.Keys == m'.Keys
    requires forall id :: id in m ==> Contribution(m[id], counted) == Contribution(m'[id], counted)
    ensures Total(m, counted) == Total(m', counted)
    decreases m.Keys
  {
    if m != map[] {
      var id :| id in m;
      TotalRemove(m, id, counted);
      TotalRemove(m', id, counted);
      TotalCongruent(m - {id}, m' - {id}, counted);
    } else {
      assert m' == map[];
    }
  }

  /** Each id is stored under its own name and nothing Spent is stored. */
  ghost predicate WellFormed(m: Cache)
  {
    forall id :: id in m ==> m[id].treeNode.id == id && m[id].status != Spent
  }

  /** owned + incoming accounts for every cached satoshi. */
  lemma {:induction false} OwnedPlusIncoming(m: Cache)
    requires WellFormed(m)
    ensures Total(m, OWNED_STATUSES) + Total(m, {Incoming}) == Total(m, ALL_STATUSES)
    decreases m.Keys
  {
    if m != map[] {
      var id :| id in m;
      TotalRemove(m, id, OWNED_STATUSES);
      TotalRemove(m, id, {Incoming});
      TotalRemove(m, id, ALL_STATUSES);
      OwnedPlusIncoming(m - {id});
    }
  }
}
