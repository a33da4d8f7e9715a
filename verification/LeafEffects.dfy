/** What every cache operation does to one leaf, field by field: which leaves it touches, and the status,
    source and tree node it leaves behind. */
module LeafEffects {
  import opened LeafCache
  import opened LeafConservation
  import opened LeafRuns
  import opened Outcomes
  import opened SyncMerge

  // ----- the status graph

  const EDGES: set<(LeafStatus, LeafStatus)> := {
    (Available, LocalLocked), (Available, Outgoing), (Available, SwapPending), (Available, Spent),
    (LocalLocked, Available), (LocalLocked, Outgoing), (LocalLocked, SwapPending), (LocalLocked, Spent),
    (Outgoing, Available), (Outgoing, Spent), (SwapPending, Available), (SwapPending, Spent),
    (Incoming, Available)
  }

  /** A transition moves exactly the listed leaves with an edge to the new status, keeps their node, keeps
      their source unless a new one is given, and removes what is spent. */
  lemma TransitionEffect(m: Cache, ids: seq<LeafId>, to: LeafStatus, source: Option<LeafSource>, id: LeafId)
    ensures var m' := Transition(m, ids, to, source);
      if id in m && id in ids && (m[id].status, to) in EDGES then
        if to == Spent then id !in m'
        else
          && id in m' && m'[id].status == to && m'[id].treeNode == m[id].treeNode
          && m'[id].source == if source.Some? then source.value else m[id].source
      else Unchanged(m, m', id)
  {
  }

  // ----- transfer events

  /** This very transfer has already given the leaf back. */
  predicate GivenBack(r: LeafRecord, transferId: string) { r.status == Available && r.source == FromTransfer(transferId) }

  predicate Named(m: Cache, e: TransferEvent, id: LeafId)
  {
    id in m && id in e.leafIds && !GivenBack(m[id], e.transferId)
  }

  /** The leaf leaves the cache at the end of a transfer: it is owned, and not being swapped. */
  predicate Delivered(m: Cache, e: TransferEvent, id: LeafId)
  {
    Named(m, e, id) && m[id].status in {Available, LocalLocked, Outgoing, SwapPending} && !m[id].source.FromSwap?
  }

  /** A returned or expired transfer frees what it names and was in flight or incoming; a started one moves
      what was available or locked here, out or into a swap; a finished one delivers; nothing else moves. */
  lemma TransferEffect(m: Cache, e: TransferEvent, id: LeafId)
    ensures var m' := HandleTransfer(m, e);
      if e.phase == ReturnedOrExpired && Named(m, e, id) && m[id].status in {LocalLocked, Outgoing, SwapPending, Incoming} then
        id in m' && m'[id] == LeafRecord(treeNode := m[id].treeNode, status := Available, source := NoSource)
      else if e.phase == SenderInitiated && Named(m, e, id) && m[id].status in {Available, LocalLocked} then
        id in m' && m'[id] == LeafRecord(treeNode := m[id].treeNode, status := if e.isSwap then SwapPending else Outgoing,
                                         source := FromTransfer(e.transferId))
      else if e.phase == Terminal && Delivered(m, e, id) then id !in m'
      else Unchanged(m, m', id)
  {
  }

  function Deliveries(m: Cache, e: TransferEvent): Cache { map id | id in m && Delivered(m, e, id) :: m[id] }

  /** The leaves a returned transfer had not yet brought in. */
  function Returned(m: Cache, e: TransferEvent): Cache { map id | id in m && Named(m, e, id) && m[id].status == Incoming :: m[id] }

  /** The end of a transfer lowers the owned balance by exactly what was delivered; the start of one leaves
      it alone; a return raises it only by what had been incoming. */
  lemma TransferMovesOwned(m: Cache, e: TransferEvent)
    ensures var owned, owned' := OwnedValue(m), OwnedValue(HandleTransfer(m, e));
      match e.phase
      case Terminal => owned' == owned - OwnedValue(Deliveries(m, e))
      case ReturnedOrExpired => owned' == owned + Total(Returned(m, e), {Incoming})
      case _ => owned' == owned
  {
    hide *;
    if e.phase == Terminal {
      TerminalRemoves(m, e);
    } else if e.phase == ReturnedOrExpired {
      ReturnBringsIn(m, e);
    } else {
      StartKeepsOwned(m, e);
    }
  }

  lemma TerminalRemoves(m: Cache, e: TransferEvent)
    requires e.phase == Terminal
    ensures OwnedValue(HandleTransfer(m, e)) == OwnedValue(m) - OwnedValue(Deliveries(m, e))
  {
    var gone := Deliveries(m, e);
    hide Total, HandleTransfer, GivenBack;
    forall id ensures (id in HandleTransfer(m, e) <==> id in m - gone.Keys) && (id in m - gone.Keys ==> HandleTransfer(m, e)[id] == m[id]) {
      TransferEffect(m, e, id);
    }
    assert HandleTransfer(m, e) == m - gone.Keys;
    SplitBySet(m, gone.Keys);
    assert Restricted(m, gone.Keys) == gone;
  }

  lemma StartKeepsOwned(m: Cache, e: TransferEvent)
    requires e.phase == SenderInitiated || e.phase == Unrecognized
    ensures OwnedValue(HandleTransfer(m, e)) == OwnedValue(m)
  {
    hide Total, HandleTransfer, GivenBack;
    var m' := HandleTransfer(m, e);
    forall id ensures (id in m <==> id in m') && (id in m ==> SameOwned(m, m', id)) {
      TransferEffect(m, e, id);
    }
    assert m.Keys == m'.Keys;
    OwnedCongruent(m, m');
  }

  lemma ReturnBringsIn(m: Cache, e: TransferEvent)
    requires e.phase == ReturnedOrExpired
    ensures OwnedValue(HandleTransfer(m, e)) == OwnedValue(m) + Total(Returned(m, e), {Incoming})
  {
    hide Total, HandleTransfer, GivenBack;
    var m', back := HandleTransfer(m, e), Returned(m, e);
    forall id ensures (id in m <==> id in m') && (id in m && id !in back ==> SameOwned(m, m', id))
      ensures id in back ==> id in m' && Contribution(m'[id], OWNED_STATUSES) == Contribution(m[id], {Incoming}) && Contribution(m[id], OWNED_STATUSES) == 0
    {
      TransferEffect(m, e, id);
    }
    SplitBySet(m, back.Keys);
    SplitBySet(m', back.Keys);
    assert (m - back.Keys).Keys == (m' - back.Keys).Keys;
    forall id | id in m - back.Keys ensures SameOwned(m - back.Keys, m' - back.Keys, id) {
      assert SameOwned(m, m', id);
    }
    OwnedCongruent(m - back.Keys, m' - back.Keys);
    assert Restricted(m, back.Keys) == back;
    NothingContributed(back, OWNED_STATUSES);
    SameTotals(Restricted(m', back.Keys), OWNED_STATUSES, back, {Incoming});
  }

  lemma {:induction false} NothingContributed(m: Cache, counted: set<LeafStatus>)
    requires forall id :: id in m ==> Contribution(m[id], counted) == 0
    ensures Total(m, counted) == 0
    decreases m.Keys
  {
    if m != map[] {
      var id :| id in m;
      TotalRemove(m, id, counted);
      NothingContributed(m - {id}, counted);
    }
  }

  lemma {:induction false} SameTotals(m: Cache, counted: set<LeafStatus>, m': Cache, counted': set<LeafStatus>)
    requires m.Keys == m'.Keys
    requires forall id :: id in m ==> Contribution(m[id], counted) == Contribution(m'[id], counted')
    ensures Total(m, counted) == Total(m', counted')
    decreases m.Keys
  {
    if m != map[] {
      var id :| id in m;
      TotalRemove(m, id, counted);
      TotalRemove(m', id, counted');
      SameTotals(m - {id}, counted, m' - {id}, counted');
    } else {
      assert m' == map[];
    }
  }

  // ----- restoring, marking, renaming, renewing

  /** Restoring touches exactly the listed leaves still locked here. */
  lemma RestoreEffect(m: Cache, ids: seq<LeafId>, id: LeafId)
    ensures if id in m && id in ids && m[id].status == LocalLocked
      then id in Restore(m, ids) && Restore(m, ids)[id] == LeafRecord(treeNode := m[id].treeNode, status := Available, source := NoSource)
      else Unchanged(m, Restore(m, ids), id)
  {
  }

  /** So does marking as sent, which keeps the source. */
  lemma MarkOutgoingEffect(m: Cache, ids: seq<LeafId>, id: LeafId)
    ensures if id in m && id in ids && m[id].status == LocalLocked
      then id in MarkOutgoing(m, ids) && MarkOutgoing(m, ids)[id] == LeafRecord(treeNode := m[id].treeNode, status := Outgoing, source := m[id].source)
      else Unchanged(m, MarkOutgoing(m, ids), id)
  {
  }

  /** Renaming the source touches exactly the listed leaves that are not available. */
  lemma UpdateSourceEffect(m: Cache, ids: seq<LeafId>, source: LeafSource, id: LeafId)
    ensures if id in m && id in ids && m[id].status != Available
      then id in UpdateSource(m, ids, source) && UpdateSource(m, ids, source)[id] == LeafRecord(treeNode := m[id].treeNode, status := m[id].status, source := source)
      else Unchanged(m, UpdateSource(m, ids, source), id)
  {
  }

  /** The k-th copy is the last one of this id. */
  ghost predicate LastCopy(nodes: seq<TreeNode>, id: LeafId, k: nat)
  {
    k < |nodes| && nodes[k].id == id && forall j :: k < j < |nodes| ==> nodes[j].id != id
  }

  lemma {:induction false} LastNodeIsLast(nodes: seq<TreeNode>, id: LeafId, k: nat)
    requires LastCopy(nodes, id, k)
    ensures LastNode(nodes, id) == Some(nodes[k])
  {
    if k < |nodes| - 1 {
      var front := nodes[..|nodes| - 1];
      assert forall j :: 0 <= j < |front| ==> front[j] == nodes[j];
      LastNodeIsLast(front, id, k);
    }
  }

  /** Renewal replaces the node of a cached leaf by its last copy, and nothing else of it. */
  lemma RefreshEffect(m: Cache, nodes: seq<TreeNode>, id: LeafId, k: nat)
    ensures id in m && LastCopy(nodes, id, k) ==>
      id in Refresh(m, nodes) && Refresh(m, nodes)[id] == LeafRecord(treeNode := nodes[k], status := m[id].status, source := m[id].source)
    ensures id !in m || (forall n :: n in nodes ==> n.id != id) ==> Unchanged(m, Refresh(m, nodes), id)
  {
    if LastCopy(nodes, id, k) {
      LastNodeIsLast(nodes, id, k);
    }
  }

  // ----- inserting and evicting

  /** Claimed leaves and the outputs of a swap are stored as available, the last copy of each, whatever
      was there before. */
  lemma StoredEffect(m: Cache, nodes: seq<TreeNode>, source: LeafSource, id: LeafId, k: nat)
    ensures LastCopy(nodes, id, k) ==>
      id in PutAvailable(m, nodes, source) && PutAvailable(m, nodes, source)[id] == LeafRecord(treeNode := nodes[k], status := Available, source := source)
    ensures (forall n :: n in nodes ==> n.id != id) ==> Unchanged(m, PutAvailable(m, nodes, source), id)
  {
    PutAvailableEffect(m, nodes, source, id);
    if LastCopy(nodes, id, k) {
      LastNodeIsLast(nodes, id, k);
    }
  }

  /** An added leaf that is not in flight is available afterwards with the value of its last copy; one that
      was available with that value from the start keeps its record, any other has lost its source. */
  lemma {:induction false} AddedEffect(m: Cache, nodes: seq<TreeNode>, id: LeafId, k: nat)
    requires LastCopy(nodes, id, k) && !(id in m && m[id].status in {LocalLocked, Outgoing, SwapPending})
    ensures var m' := AddLeaves(m, nodes);
      && id in m' && m'[id].status == Available && m'[id].treeNode.value == nodes[k].value
      && (id in m && m[id].status == Available && (forall n :: n in nodes && n.id == id ==> n.value == m[id].treeNode.value) ==> m'[id] == m[id])
      && (!(id in m && m[id].status == Available) ==> m'[id].source == NoSource)
      && (m'[id] == LeafRecord(treeNode := m'[id].treeNode, status := Available, source := NoSource) || (id in m && m'[id] == m[id]))
      && (m'[id].treeNode in nodes || (id in m && m'[id] == m[id]))
  {
    var front, last := nodes[..|nodes| - 1], nodes[|nodes| - 1];
    if k < |nodes| - 1 {
      assert LastCopy(front, id, k);
      AddedEffect(m, front, id, k);
    } else if j :| LastCopy(front, id, j) {
      AddedEffect(m, front, id, j);
    } else {
      NoLastCopy(front, id);
      AddLeavesEffect(m, front, id);
    }
  }

  lemma {:induction false} NoLastCopy(nodes: seq<TreeNode>, id: LeafId)
    requires forall j :: !LastCopy(nodes, id, j)
    ensures LastNode(nodes, id).None?
  {
    if nodes != [] {
      var front := nodes[..|nodes| - 1];
      assert !LastCopy(nodes, id, |nodes| - 1);
      forall j ensures !LastCopy(front, id, j) {
        if LastCopy(front, id, j) {
          assert LastCopy(nodes, id, j);
        }
      }
      NoLastCopy(front, id);
    }
  }

  /** An announced incoming leaf that is unknown or incoming becomes incoming from this transfer. */
  lemma {:induction false} AnnouncedEffect(m: Cache, nodes: seq<TreeNode>, transferId: string, id: LeafId, k: nat)
    requires LastCopy(nodes, id, k) && !(id in m && m[id].status != Incoming)
    ensures var m' := AddIncoming(m, nodes, transferId);
      id in m' && m'[id] == LeafRecord(treeNode := nodes[k], status := Incoming, source := FromTransfer(transferId))
  {
    var front := nodes[..|nodes| - 1];
    if k < |nodes| - 1 {
      assert LastCopy(front, id, k);
      AnnouncedEffect(m, front, transferId, id, k);
    } else {
      AddIncomingEffect(m, front, transferId, id);
    }
  }

  /** Eviction drops exactly the available leaves without a source that the server no longer lists; claimed,
      deposited and swapped ones stay, as does everything in flight. */
  lemma EvictEffect(m: Cache, freshIds: set<LeafId>, id: LeafId)
    ensures if id in m && m[id].status == Available && m[id].source == NoSource && id !in freshIds
      then id !in Evict(m, freshIds) else Unchanged(m, Evict(m, freshIds), id)
  {
  }

  /** A confirmed deposit is stored only when its leaf is unknown. */
  lemma VerifiedEffect(m: Cache, node: TreeNode, id: LeafId)
    ensures if id == node.id && id !in m
      then id in VerifiedDeposit(m, node) && VerifiedDeposit(m, node)[id] == LeafRecord(treeNode := node, status := Available, source := FromDeposit(node.id))
      else Unchanged(m, VerifiedDeposit(m, node), id)
  {
  }

  // ----- sync

  ghost predicate LastReport(es: seq<TransferLeaf>, id: LeafId, k: nat)
  {
    k < |es| && es[k].leaf.id == id && forall j :: k < j < |es| ==> es[j].leaf.id != id
  }

  ghost predicate NeverReported(es: seq<TransferLeaf>, id: LeafId) { forall j :: 0 <= j < |es| ==> es[j].leaf.id != id }

  lemma {:induction false} LastEntryIsLast(es: seq<TransferLeaf>, id: LeafId, n: nat, k: nat)
    requires n <= |es| && LastReport(es[..n], id, k)
    ensures LastEntry(es, id, n) == Some(es[k])
  {
    if k < n - 1 {
      assert es[..n][n - 1] == es[n - 1];
      assert forall j :: k < j < n - 1 ==> es[..n - 1][j] == es[..n][j];
      LastEntryIsLast(es, id, n - 1, k);
    }
  }

  lemma {:induction false} NoEntry(es: seq<TransferLeaf>, id: LeafId, n: nat)
    requires n <= |es| && NeverReported(es, id)
    ensures LastEntry(es, id, n).None?
  {
    if n > 0 { NoEntry(es, id, n - 1); }
  }

  /** A leaf locked here keeps its record; otherwise the last report as sent makes it outgoing under that
      transfer; without one the last report in a pending swap makes it pending under that swap. */
  lemma SyncReports(m: Cache, t: Snapshot, id: LeafId, k: nat)
    ensures var m' := Merge(m, t);
      && (id in m && m[id].status == LocalLocked ==> id in m' && m'[id] == m[id])
      && (!HasStatus(m, id, LocalLocked) && LastReport(t.outgoing, id, k) ==>
            && id in m'
            && m'[id] == LeafRecord(treeNode := t.outgoing[k].leaf, status := Outgoing, source := FromTransfer(t.outgoing[k].transferId)))
      && (!HasStatus(m, id, LocalLocked) && NeverReported(t.outgoing, id) && LastReport(t.swaps, id, k) ==>
            && id in m'
            && m'[id] == LeafRecord(treeNode := t.swaps[k].leaf, status := SwapPending, source := FromSwap(t.swaps[k].transferId)))
  {
    hide Merge, LastEntry, LastIncoming, LastAvailable;
    MergeIsPriority(m, t, id);
    assert t.outgoing[..|t.outgoing|] == t.outgoing && t.swaps[..|t.swaps|] == t.swaps;
    if LastReport(t.outgoing, id, k) { LastEntryIsLast(t.outgoing, id, |t.outgoing|, k); }
    if LastReport(t.swaps, id, k) { LastEntryIsLast(t.swaps, id, |t.swaps|, k); }
    if NeverReported(t.outgoing, id) { NoEntry(t.outgoing, id, |t.outgoing|); }
  }

  /** The leaf's last place among the incoming transfers that are not counter-swaps. */
  ghost predicate LastArrival(ts: seq<IncomingTransfer>, id: LeafId, i: nat, j: nat)
  {
    && i < |ts| && !ts[i].isCounterSwap && ArrivesAt(ts[i], id, j) && (forall l :: j < l < |ts[i].leaves| ==> !ArrivesAt(ts[i], id, l))
    && forall h :: i < h < |ts| && !ts[h].isCounterSwap ==> forall l :: 0 <= l < |ts[h].leaves| ==> !ArrivesAt(ts[h], id, l)
  }

  predicate ArrivesAt(t: IncomingTransfer, id: LeafId, j: nat)
  {
    j < |t.leaves| && t.leaves[j].Some? && t.leaves[j].value.id == id
  }

  ghost predicate NeverArrives(ts: seq<IncomingTransfer>, id: LeafId)
  {
    forall h :: 0 <= h < |ts| && !ts[h].isCounterSwap ==> NotIn(ts[h], id)
  }

  ghost predicate NotIn(t: IncomingTransfer, id: LeafId) { forall l :: 0 <= l < |t.leaves| ==> !ArrivesAt(t, id, l) }

  lemma {:induction false} LastInTransferIsLast(t: IncomingTransfer, id: LeafId, n: nat, j: nat)
    requires j < n <= |t.leaves| && ArrivesAt(t, id, j) && forall l :: j < l < n ==> !ArrivesAt(t, id, l)
    ensures LastInTransfer(t, id, n) == Some(LeafRecord(treeNode := t.leaves[j].value, status := Incoming, source := FromTransfer(t.id)))
  {
    if j < n - 1 {
      assert !ArrivesAt(t, id, n - 1);
      LastInTransferIsLast(t, id, n - 1, j);
    }
  }

  lemma {:induction false} NothingInTransfer(t: IncomingTransfer, id: LeafId, n: nat)
    requires n <= |t.leaves| && NotIn(t, id)
    ensures LastInTransfer(t, id, n).None?
  {
    if n > 0 {
      assert !ArrivesAt(t, id, n - 1);
      NothingInTransfer(t, id, n - 1);
    }
  }

  lemma {:induction false} LastArrivalIsLast(ts: seq<IncomingTransfer>, id: LeafId, n: nat, i: nat, j: nat)
    requires i < n <= |ts| && LastArrival(ts[..n], id, i, j)
    ensures LastIncoming(ts, id, n) == Some(LeafRecord(treeNode := ts[i].leaves[j].value, status := Incoming, source := FromTransfer(ts[i].id)))
  {
    hide LastInTransfer;
    assert ts[..n][i] == ts[i] && ts[..n][n - 1] == ts[n - 1];
    if i < n - 1 {
      if !ts[n - 1].isCounterSwap {
        assert NotIn(ts[n - 1], id);
        NothingInTransfer(ts[n - 1], id, |ts[n - 1].leaves|);
      }
      assert forall h :: 0 <= h < n - 1 ==> ts[..n - 1][h] == ts[..n][h];
      LastArrivalIsLast(ts, id, n - 1, i, j);
    } else {
      LastInTransferIsLast(ts[i], id, |ts[i].leaves|, j);
    }
  }

  lemma {:induction false} NothingArrives(ts: seq<IncomingTransfer>, id: LeafId, n: nat)
    requires n <= |ts| && NeverArrives(ts, id)
    ensures LastIncoming(ts, id, n).None?
  {
    if n > 0 {
      NothingArrives(ts, id, n - 1);
      if !ts[n - 1].isCounterSwap {
        NothingInTransfer(ts[n - 1], id, |ts[n - 1].leaves|);
      }
    }
  }

  /** The leaf's last place among the nodes the server lists as available. */
  ghost predicate LastOffer(nodes: seq<TreeNode>, id: LeafId, k: nat)
  {
    k < |nodes| && OfferedAt(nodes[k], id) && forall j :: k < j < |nodes| ==> !OfferedAt(nodes[j], id)
  }

  predicate OfferedAt(n: TreeNode, id: LeafId) { n.id == id && n.status == NodeAvailable }

  lemma {:induction false} LastOfferIsLast(nodes: seq<TreeNode>, id: LeafId, n: nat, k: nat)
    requires n <= |nodes| && LastOffer(nodes[..n], id, k)
    ensures LastAvailable(nodes, id, n) == Some(LeafRecord(treeNode := nodes[k], status := Available, source := NoSource))
  {
    if k < n - 1 {
      assert nodes[..n][n - 1] == nodes[n - 1];
      assert forall j :: k < j < n - 1 ==> nodes[..n - 1][j] == nodes[..n][j];
      LastOfferIsLast(nodes, id, n - 1, k);
    }
  }

  lemma {:induction false} NothingOffered(nodes: seq<TreeNode>, id: LeafId, n: nat)
    requires n <= |nodes| && forall j :: 0 <= j < |nodes| ==> !OfferedAt(nodes[j], id)
    ensures LastAvailable(nodes, id, n).None?
  {
    if n > 0 {
      assert !OfferedAt(nodes[n - 1], id);
      NothingOffered(nodes, id, n - 1);
    }
  }

  ghost predicate Unclaimed(m: Cache, t: Snapshot, id: LeafId)
  {
    !HasStatus(m, id, LocalLocked) && NeverReported(t.outgoing, id) && NeverReported(t.swaps, id)
  }

  /** A leaf that is not locked here and in no report is incoming under its last transfer that is not a
      counter-swap, or else available with its last node, or else gone. */
  lemma SyncOffers(m: Cache, t: Snapshot, id: LeafId, i: nat, j: nat)
    requires Unclaimed(m, t, id)
    ensures var m' := Merge(m, t);
      && (LastArrival(t.incoming, id, i, j) ==>
            && id in m'
            && m'[id] == LeafRecord(treeNode := t.incoming[i].leaves[j].value, status := Incoming, source := FromTransfer(t.incoming[i].id)))
      && (NeverArrives(t.incoming, id) && LastOffer(t.available, id, i) ==>
            && id in m'
            && m'[id] == LeafRecord(treeNode := t.available[i], status := Available, source := NoSource))
      && (NeverArrives(t.incoming, id) && (forall k :: 0 <= k < |t.available| ==> !OfferedAt(t.available[k], id)) ==> id !in m')
  {
    hide Merge, LastEntry, LastIncoming, LastAvailable, OfferedAt, ArrivesAt;
    MergeIsPriority(m, t, id);
    NoEntry(t.outgoing, id, |t.outgoing|);
    NoEntry(t.swaps, id, |t.swaps|);
    assert t.incoming[..|t.incoming|] == t.incoming && t.available[..|t.available|] == t.available;
    if LastArrival(t.incoming, id, i, j) { LastArrivalIsLast(t.incoming, id, |t.incoming|, i, j); }
    if NeverArrives(t.incoming, id) { NothingArrives(t.incoming, id, |t.incoming|); }
    if LastOffer(t.available, id, i) { LastOfferIsLast(t.available, id, |t.available|, i); }
    if forall k :: 0 <= k < |t.available| ==> !OfferedAt(t.available[k], id) { NothingOffered(t.available, id, |t.available|); }
  }
}
