/** Merging a server snapshot into the cache: the loops of `sync`, and the priority order they implement. */
module SyncMerge {
  import opened LeafCache
  import opened Outcomes

  datatype TransferLeaf = TransferLeaf(leaf: TreeNode, transferId: string)

  datatype IncomingTransfer = IncomingTransfer(id: string, isCounterSwap: bool, leaves: seq<Option<TreeNode>>)

  /** What the server queries returned, after renewal. */
  datatype Snapshot = Snapshot(
    available: seq<TreeNode>, swaps: seq<TransferLeaf>, outgoing: seq<TransferLeaf>, incoming: seq<IncomingTransfer>)

  // ----- one step of each loop

  function PutNode(m: Cache, n: TreeNode): Cache
  {
    if n.status == NodeAvailable then m[n.id := LeafRecord(n, Available, NoSource)] else m
  }

  function SwapRecord(e: TransferLeaf): LeafRecord { LeafRecord(e.leaf, SwapPending, FromSwap(e.transferId)) }

  function OutgoingRecord(e: TransferLeaf): LeafRecord { LeafRecord(e.leaf, Outgoing, FromTransfer(e.transferId)) }

  predicate Contacted(m: Cache, id: LeafId)
  {
    id in m && (m[id].status == Outgoing || m[id].status == SwapPending)
  }

  function PutIncoming(m: Cache, leaf: Option<TreeNode>, transferId: string): Cache
  {
    if leaf.None? || Contacted(m, leaf.value.id) then m
    else m[leaf.value.id := LeafRecord(leaf.value, Incoming, FromTransfer(transferId))]
  }

  // ----- the loops, up to their k-th round

  function PutNodes(m: Cache, nodes: seq<TreeNode>, k: nat): Cache
    requires k <= |nodes|
  {
    if k == 0 then m else PutNode(PutNodes(m, nodes, k - 1), nodes[k - 1])
  }

  function PutSwaps(m: Cache, es: seq<TransferLeaf>, k: nat): Cache
    requires k <= |es|
  {
    if k == 0 then m else PutSwaps(m, es, k - 1)[es[k - 1].leaf.id := SwapRecord(es[k - 1])]
  }

  function PutOutgoing(m: Cache, es: seq<TransferLeaf>, k: nat): Cache
    requires k <= |es|
  {
    if k == 0 then m else PutOutgoing(m, es, k - 1)[es[k - 1].leaf.id := OutgoingRecord(es[k - 1])]
  }

  function PutTransferLeaves(m: Cache, t: IncomingTransfer, k: nat): Cache
    requires k <= |t.leaves|
  {
    if k == 0 then m else PutIncoming(PutTransferLeaves(m, t, k - 1), t.leaves[k - 1], t.id)
  }

  function PutTransfers(m: Cache, ts: seq<IncomingTransfer>, k: nat): Cache
    requires k <= |ts|
  {
    if k == 0 then m
    else
      var before, t := PutTransfers(m, ts, k - 1), ts[k - 1];
      if t.isCounterSwap then before else PutTransferLeaves(before, t, |t.leaves|)
  }

  /** The records sync keeps: the leaves this wallet has locked and not yet reported. */
  function Preserved(m: Cache): Cache
  {
    map id | id in m && m[id].status == LocalLocked :: m[id]
  }

  function Merge(m: Cache, s: Snapshot): Cache
  {
    var a := PutNodes(map[], s.available, |s.available|);
    var b := PutSwaps(a, s.swaps, |s.swaps|);
    var c := PutOutgoing(b, s.outgoing, |s.outgoing|);
    PutTransfers(c, s.incoming, |s.incoming|) + Preserved(m)
  }

  // ----- the priority order

  function LastAvailable(nodes: seq<TreeNode>, id: LeafId, k: nat): Option<LeafRecord>
    requires k <= |nodes|
  {
    if k == 0 then None
    else if nodes[k - 1].id == id && nodes[k - 1].status == NodeAvailable then Some(LeafRecord(nodes[k - 1], Available, NoSource))
    else LastAvailable(nodes, id, k - 1)
  }

  function LastEntry(es: seq<TransferLeaf>, id: LeafId, k: nat): Option<TransferLeaf>
    requires k <= |es|
  {
    if k == 0 then None else if es[k - 1].leaf.id == id then Some(es[k - 1]) else LastEntry(es, id, k - 1)
  }

  function LastInTransfer(t: IncomingTransfer, id: LeafId, k: nat): Option<LeafRecord>
    requires k <= |t.leaves|
  {
    if k == 0 then None
    else if t.leaves[k - 1].Some? && t.leaves[k - 1].value.id == id
    then Some(LeafRecord(t.leaves[k - 1].value, Incoming, FromTransfer(t.id)))
    else LastInTransfer(t, id, k - 1)
  }

  function LastIncoming(ts: seq<IncomingTransfer>, id: LeafId, k: nat): Option<LeafRecord>
    requires k <= |ts|
  {
    if k == 0 then None
    else if !ts[k - 1].isCounterSwap && LastInTransfer(ts[k - 1], id, |ts[k - 1].leaves|).Some?
    then LastInTransfer(ts[k - 1], id, |ts[k - 1].leaves|)
    else LastIncoming(ts, id, k - 1)
  }

  function OrElse(a: Option<LeafRecord>, b: Option<LeafRecord>): Option<LeafRecord>
  {
    if a.Some? then a else b
  }

  /** The pure priority map: a local lock, else the last report as outgoing, else as part of a
      pending swap, else as incoming outside counter-swaps, else as available. */
  function Priority(m: Cache, s: Snapshot, id: LeafId): Option<LeafRecord>
  {
    var swap := LastEntry(s.swaps, id, |s.swaps|);
    var sent := LastEntry(s.outgoing, id, |s.outgoing|);
    if id in m && m[id].status == LocalLocked then Some(m[id])
    else if sent.Some? then Some(OutgoingRecord(sent.value))
    else if swap.Some? then Some(SwapRecord(swap.value))
    else OrElse(LastIncoming(s.incoming, id, |s.incoming|), LastAvailable(s.available, id, |s.available|))
  }

  function Lookup(m: Cache, id: LeafId): Option<LeafRecord>
  {
    if id in m then Some(m[id]) else None
  }

  lemma {:induction false} PutNodesLookup(m: Cache, nodes: seq<TreeNode>, k: nat, id: LeafId)
    requires k <= |nodes|
    ensures Lookup(PutNodes(m, nodes, k), id) == OrElse(LastAvailable(nodes, id, k), Lookup(m, id))
  {
    if k > 0 { PutNodesLookup(m, nodes, k - 1, id); }
  }

  lemma {:induction false} PutSwapsLookup(m: Cache, es: seq<TransferLeaf>, k: nat, id: LeafId)
    requires k <= |es|
    ensures Lookup(PutSwaps(m, es, k), id) == (match LastEntry(es, id, k) case Some(e) => Some(SwapRecord(e)) case None => Lookup(m, id))
  {
    if k > 0 { PutSwapsLookup(m, es, k - 1, id); }
  }

  lemma {:induction false} PutOutgoingLookup(m: Cache, es: seq<TransferLeaf>, k: nat, id: LeafId)
    requires k <= |es|
    ensures Lookup(PutOutgoing(m, es, k), id) == (match LastEntry(es, id, k) case Some(e) => Some(OutgoingRecord(e)) case None => Lookup(m, id))
  {
    if k > 0 { PutOutgoingLookup(m, es, k - 1, id); }
  }

  lemma {:induction false} PutTransferLookup(m: Cache, t: IncomingTransfer, k: nat, id: LeafId)
    requires k <= |t.leaves|
    ensures Lookup(PutTransferLeaves(m, t, k), id) == if Contacted(m, id) then Lookup(m, id) else OrElse(LastInTransfer(t, id, k), Lookup(m, id))
  {
    if k > 0 {
      PutTransferLookup(m, t, k - 1, id);
      LastInTransferIsIncoming(t, id, k - 1);
    }
  }

  lemma {:induction false} PutTransfersLookup(m: Cache, ts: seq<IncomingTransfer>, k: nat, id: LeafId)
    requires k <= |ts|
    ensures Lookup(PutTransfers(m, ts, k), id) == if Contacted(m, id) then Lookup(m, id) else OrElse(LastIncoming(ts, id, k), Lookup(m, id))
  {
    if k > 0 {
      PutTransfersLookup(m, ts, k - 1, id);
      PutTransferLookup(PutTransfers(m, ts, k - 1), ts[k - 1], |ts[k - 1].leaves|, id);
      LastInTransferIsIncoming(ts[k - 1], id, |ts[k - 1].leaves|);
      LastIncomingIsIncoming(ts, id, k - 1);
    }
  }

  lemma {:induction false} LastInTransferIsIncoming(t: IncomingTransfer, id: LeafId, k: nat)
    requires k <= |t.leaves|
    ensures LastInTransfer(t, id, k).Some? ==>
      LastInTransfer(t, id, k).value.status == Incoming && LastInTransfer(t, id, k).value.treeNode.id == id
  {
    if k > 0 { LastInTransferIsIncoming(t, id, k - 1); }
  }

  lemma {:induction false} LastIncomingIsIncoming(ts: seq<IncomingTransfer>, id: LeafId, k: nat)
    requires k <= |ts|
    ensures LastIncoming(ts, id, k).Some? ==>
      LastIncoming(ts, id, k).value.status == Incoming && LastIncoming(ts, id, k).value.treeNode.id == id
  {
    if k > 0 {
      LastInTransferIsIncoming(ts[k - 1], id, |ts[k - 1].leaves|);
      LastIncomingIsIncoming(ts, id, k - 1);
    }
  }

  lemma {:induction false} LastAvailableIsAvailable(nodes: seq<TreeNode>, id: LeafId, k: nat)
    requires k <= |nodes|
    ensures LastAvailable(nodes, id, k).Some? ==>
      LastAvailable(nodes, id, k).value.status == Available && LastAvailable(nodes, id, k).value.treeNode.id == id
  {
    if k > 0 { LastAvailableIsAvailable(nodes, id, k - 1); }
  }

  /** The merge loops compute exactly the priority map, whatever the snapshot repeats or overlaps. */
  lemma MergeIsPriority(m: Cache, s: Snapshot, id: LeafId)
    ensures Lookup(Merge(m, s), id) == Priority(m, s, id)
  {
    var a := PutNodes(map[], s.available, |s.available|);
    var b := PutSwaps(a, s.swaps, |s.swaps|);
    var c := PutOutgoing(b, s.outgoing, |s.outgoing|);
    PutNodesLookup(map[], s.available, |s.available|, id);
    PutSwapsLookup(a, s.swaps, |s.swaps|, id);
    PutOutgoingLookup(b, s.outgoing, |s.outgoing|, id);
    PutTransfersLookup(c, s.incoming, |s.incoming|, id);
    LastAvailableIsAvailable(s.available, id, |s.available|);
  }

  lemma SameLookups(m: Cache, m': Cache)
    requires forall id :: Lookup(m, id) == Lookup(m', id)
    ensures m == m'
  {
    forall id ensures id in m <==> id in m' {
      assert Lookup(m, id) == Lookup(m', id);
    }
    forall id | id in m ensures m[id] == m'[id] {
      assert Lookup(m, id) == Lookup(m', id);
    }
  }

  /** Local locks survive unchanged, no other lock appears, and merging the same snapshot again
      changes nothing. */
  lemma MergeIsIdempotent(m: Cache, s: Snapshot)
    ensures Preserved(Merge(m, s)) == Preserved(m)
    ensures Merge(Merge(m, s), s) == Merge(m, s)
  {
    forall id ensures Lookup(Preserved(Merge(m, s)), id) == Lookup(Preserved(m), id) {
      OnlyLocalLocksStayLocked(m, s, id);
    }
    SameLookups(Preserved(Merge(m, s)), Preserved(m));
  }

  lemma OnlyLocalLocksStayLocked(m: Cache, s: Snapshot, id: LeafId)
    ensures HasStatus(Merge(m, s), id, LocalLocked) <==> HasStatus(m, id, LocalLocked)
    ensures HasStatus(m, id, LocalLocked) ==> Merge(m, s)[id] == m[id]
  {
    MergeIsPriority(m, s, id);
    LastIncomingIsIncoming(s.incoming, id, |s.incoming|);
    LastAvailableIsAvailable(s.available, id, |s.available|);
  }

  lemma {:induction false} LastEntryHasId(es: seq<TransferLeaf>, id: LeafId, k: nat)
    requires k <= |es|
    ensures LastEntry(es, id, k).Some? ==> LastEntry(es, id, k).value.leaf.id == id
  {
    if k > 0 { LastEntryHasId(es, id, k - 1); }
  }

  lemma MergeKeepsWellFormed(m: Cache, s: Snapshot)
    requires WellFormed(m)
    ensures WellFormed(Merge(m, s))
  {
    forall id | id in Merge(m, s) ensures Merge(m, s)[id].treeNode.id == id && Merge(m, s)[id].status != Spent {
      MergeIsPriority(m, s, id);
      LastEntryHasId(s.swaps, id, |s.swaps|);
      LastEntryHasId(s.outgoing, id, |s.outgoing|);
      LastIncomingIsIncoming(s.incoming, id, |s.incoming|);
      LastAvailableIsAvailable(s.available, id, |s.available|);
    }
  }
}
