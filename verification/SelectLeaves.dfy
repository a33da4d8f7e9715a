/** `selectLeaves` as the source runs it: one pass over the sorted leaves per target, with a set of
    used ids, proved to compute the greedy batches of LeafSelection. */
module SelectLeaves {
  import opened ChainSelection
  import opened LeafCache
  import opened LeafSelection
  import opened Sorting

  function Unused(ls: seq<TreeNode>, used: set<LeafId>): seq<TreeNode>
  {
    if ls == [] then []
    else (if ls[0].id in used then [] else [ls[0]]) + Unused(ls[1..], used)
  }

  ghost function Ids(ls: seq<TreeNode>): (r: set<LeafId>)
    ensures forall id :: id in r <==> exists x :: x in ls && x.id == id
  {
    set x | x in ls :: x.id
  }

  lemma {:induction false} UnusedUnion(ls: seq<TreeNode>, used: set<LeafId>, more: set<LeafId>)
    ensures Unused(ls, used + more) == Unused(Unused(ls, used), more)
  {
    if ls != [] {
      UnusedUnion(ls[1..], used, more);
      var rest := Unused(ls[1..], used);
      assert ([ls[0]] + rest)[1..] == rest;
      assert Unused(ls, used) == if ls[0].id in used then rest else [ls[0]] + rest;
    }
  }

  lemma {:induction false} UnusedMembers(ls: seq<TreeNode>, used: set<LeafId>)
    ensures forall x :: x in Unused(ls, used) <==> x in ls && x.id !in used
  {
    if ls != [] {
      UnusedMembers(ls[1..], used);
    }
  }

  lemma {:induction false} UnusedUnique(ls: seq<TreeNode>, used: set<LeafId>)
    requires UniqueIds(ls)
    ensures UniqueIds(Unused(ls, used))
  {
    if ls != [] {
      PairwiseTail(DIFFERENT_IDS, ls);
      UnusedUnique(ls[1..], used);
      UnusedMembers(ls[1..], used);
      var rest := Unused(ls[1..], used);
      assert ([ls[0]] + rest)[1..] == rest;
      PairwiseTail(DIFFERENT_IDS, [ls[0]] + rest);
    }
  }

  lemma {:induction false} UnusedAll(ls: seq<TreeNode>, used: set<LeafId>)
    requires forall x :: x in ls ==> x.id !in used
    ensures Unused(ls, used) == ls
  {
    if ls != [] {
      UnusedAll(ls[1..], used);
    }
  }

  /** Marking the taken leaves as used leaves exactly the rest of the greedy scan. */
  lemma {:induction false} UnusedIsRest(ls: seq<TreeNode>, r: nat, used: set<LeafId>)
    requires UniqueIds(ls)
    requires forall x :: x in ls ==> (x.id in used <==> x in Taken(ls, r))
    ensures Unused(ls, used) == Rest(ls, r)
  {
    if ls != [] {
      var r' := if r >= ls[0].value then r - ls[0].value else r;
      PairwiseTail(DIFFERENT_IDS, ls);
      RestMembers(ls[1..], r');
      assert ls[0] !in ls[1..];
      assert forall x :: x in ls[1..] ==> x in ls && x != ls[0];
      UnusedIsRest(ls[1..], r', used);
    }
  }

  // ----- the inner loop: one target

  ghost predicate Scanning(sorted: seq<TreeNode>, p: nat, used0: set<LeafId>, target: nat, nodes: seq<TreeNode>, amount: nat, used: set<LeafId>)
  {
    && p <= |sorted| && amount <= target && amount == Value(nodes)
    && Taken(Unused(sorted, used0), target) == nodes + Taken(Unused(sorted[p..], used0), target - amount)
    && used == used0 + Ids(nodes)
    && (forall x :: x in nodes ==> x in sorted[..p])
  }

  lemma ScanStart(sorted: seq<TreeNode>, used0: set<LeafId>, target: nat)
    ensures Scanning(sorted, 0, used0, target, [], 0, used0)
  {
    assert sorted[0..] == sorted;
    assert Ids([]) == {};
    assert used0 + Ids([]) == used0;
  }

  lemma EarlierIdsDiffer(sorted: seq<TreeNode>, p: nat)
    requires UniqueIds(sorted) && p < |sorted|
    ensures forall x :: x in sorted[..p] ==> x.id != sorted[p].id
  {
    forall x | x in sorted[..p] ensures x.id != sorted[p].id {
      var i :| 0 <= i < p && sorted[i] == x;
      assert DIFFERENT_IDS(sorted[i], sorted[p]);
    }
  }

  lemma ScanStep(sorted: seq<TreeNode>, p: nat, used0: set<LeafId>, target: nat, nodes: seq<TreeNode>, amount: nat, used: set<LeafId>)
    requires UniqueIds(sorted) && p < |sorted| && Scanning(sorted, p, used0, target, nodes, amount, used)
    ensures var leaf := sorted[p];
      if leaf.id !in used && target - amount >= leaf.value
      then Scanning(sorted, p + 1, used0, target, nodes + [leaf], amount + leaf.value, used + {leaf.id})
      else Scanning(sorted, p + 1, used0, target, nodes, amount, used)
  {
    var leaf := sorted[p];
    EarlierIdsDiffer(sorted, p);
    assert sorted[p..][1..] == sorted[p + 1..];
    assert sorted[..p + 1] == sorted[..p] + [leaf];
    assert leaf.id in used <==> leaf.id in used0;
    var tail := Unused(sorted[p + 1..], used0);
    if leaf.id in used {
      assert Unused(sorted[p..], used0) == tail;
    } else {
      assert Unused(sorted[p..], used0) == [leaf] + tail && ([leaf] + tail)[1..] == tail;
      if target - amount >= leaf.value {
        TakeOne(nodes, leaf, Taken(tail, target - amount - leaf.value));
        assert used0 + Ids(nodes + [leaf]) == used0 + Ids(nodes) + {leaf.id} by {
          assert Ids(nodes + [leaf]) == Ids(nodes) + {leaf.id};
        }
      }
    }
  }

  lemma TakeOne(nodes: seq<TreeNode>, leaf: TreeNode, more: seq<TreeNode>)
    ensures nodes + ([leaf] + more) == (nodes + [leaf]) + more
    ensures Value(nodes + [leaf]) == Value(nodes) + leaf.value
  {
    ValueConcat(nodes, [leaf]);
    assert [leaf][1..] == [];
  }

  lemma ScanEnd(sorted: seq<TreeNode>, used0: set<LeafId>, target: nat, nodes: seq<TreeNode>, amount: nat, used: set<LeafId>)
    requires UniqueIds(sorted) && Scanning(sorted, |sorted|, used0, target, nodes, amount, used)
    ensures nodes == Taken(Unused(sorted, used0), target) && amount == Value(nodes)
    ensures Unused(sorted, used) == Rest(Unused(sorted, used0), target)
  {
    var ls := Unused(sorted, used0);
    assert sorted[|sorted|..] == [];
    assert nodes + [] == nodes;
    UnusedUnique(sorted, used0);
    RestMembers(ls, target);
    forall x | x in ls && x.id in Ids(nodes) ensures x in nodes {
      var y :| y in nodes && y.id == x.id;
      SameIdSameLeaf(ls, x, y);
    }
    UnusedIsRest(ls, target, Ids(nodes));
    UnusedUnion(sorted, used0, Ids(nodes));
  }

  // ----- the outer loop: all targets

  ghost predicate Placed(ts: seq<Target>, k: nat, done: seq<seq<TreeNode>>, batches: seq<seq<TreeNode>>)
  {
    && k <= |ts| == |batches| && |done| >= k
    && forall l :: 0 <= l < k ==> ts[l].index < |batches| && batches[ts[l].index] == done[l]
  }

  /** What `selectLeaves` returns: batches under their original indexes, and the success flag. */
  ghost predicate IsSelection(available: seq<TreeNode>, targets: seq<nat>, results: seq<seq<TreeNode>>, found: bool)
  {
    Placed(Processing(targets), |targets|, Batches(available, targets), results) && found == Found(available, targets)
  }

  ghost predicate Filling(sorted: seq<TreeNode>, ts: seq<Target>, k: nat, batches: seq<seq<TreeNode>>, total: nat, used: set<LeafId>)
  {
    && Placed(ts, k, Fill(sorted, ts), batches)
    && Fill(sorted, ts)[k..] == Fill(Unused(sorted, used), ts[k..])
    && total + BatchTotal(Fill(sorted, ts)[k..]) == BatchTotal(Fill(sorted, ts))
  }

  lemma FillStep(sorted: seq<TreeNode>, ts: seq<Target>, k: nat, batches: seq<seq<TreeNode>>, total: nat, used0: set<LeafId>, used: set<LeafId>)
    requires DistinctTargets(ts) && k < |ts| && (forall l :: 0 <= l < |ts| ==> ts[l].index < |ts|)
    requires Filling(sorted, ts, k, batches, total, used0)
    requires Unused(sorted, used) == Rest(Unused(sorted, used0), ts[k].amount)
    ensures var nodes := Taken(Unused(sorted, used0), ts[k].amount);
      Filling(sorted, ts, k + 1, batches[ts[k].index := nodes], total + Value(nodes), used)
  {
    var all, ls := Fill(sorted, ts), Unused(sorted, used0);
    assert ts[k..][0] == ts[k] && ts[k..][1..] == ts[k + 1..];
    assert all[k..] == [Taken(ls, ts[k].amount)] + Fill(Rest(ls, ts[k].amount), ts[k + 1..]);
    assert all[k] == all[k..][0] && all[k + 1..] == all[k..][1..];
  }

  /** `selectLeaves` on the available leaves, in whatever order the cache lists them. */
  method SelectLeaves(available: seq<TreeNode>, targetAmounts: seq<nat>) returns (results: seq<seq<TreeNode>>, found: bool)
    requires UniqueIds(available)
    ensures IsSelection(available, targetAmounts, results, found)
  {
    hide *;
    var sorted := SortBy(DESCENDING, available);
    var indexed := Processing(targetAmounts);
    SortUnique(available);
    ProcessingIsPermutation(targetAmounts);
    var usedIds: set<LeafId> := {};
    results := seq(|targetAmounts|, i => []);
    var totalAmount: nat := 0;
    FillStart(sorted, indexed, results);
    var k := 0;
    while k < |indexed|
      invariant k <= |indexed| == |results|
      invariant Filling(sorted, indexed, k, results, totalAmount, usedIds)
    {
      var targetAmount := indexed[k].amount;
      var nodes: seq<TreeNode>, amount: nat := [], 0;
      ghost var used0 := usedIds;
      ScanStart(sorted, used0, targetAmount);
      var p := 0;
      while p < |sorted|
        invariant p <= |sorted| && Scanning(sorted, p, used0, targetAmount, nodes, amount, usedIds)
      {
        var leaf := sorted[p];
        ScanStep(sorted, p, used0, targetAmount, nodes, amount, usedIds);
        if leaf.id !in usedIds && targetAmount - amount >= leaf.value {
          amount := amount + leaf.value;
          nodes := nodes + [leaf];
          usedIds := usedIds + {leaf.id};
        }
        p := p + 1;
      }
      ScanEnd(sorted, used0, targetAmount, nodes, amount, usedIds);
      FillStep(sorted, indexed, k, results, totalAmount, used0, usedIds);
      totalAmount := totalAmount + amount;
      results := results[indexed[k].index := nodes];
      k := k + 1;
    }
    FillEnd(available, targetAmounts, results, totalAmount, usedIds);
    found := totalAmount == Sum(targetAmounts);
  }

  lemma FillStart(sorted: seq<TreeNode>, ts: seq<Target>, batches: seq<seq<TreeNode>>)
    requires |batches| == |ts|
    ensures Filling(sorted, ts, 0, batches, 0, {})
  {
    UnusedAll(sorted, {});
    assert Fill(sorted, ts)[0..] == Fill(sorted, ts) && ts[0..] == ts;
  }

  lemma FillEnd(available: seq<TreeNode>, targets: seq<nat>, results: seq<seq<TreeNode>>, total: nat, used: set<LeafId>)
    requires Filling(SortBy(DESCENDING, available), Processing(targets), |targets|, results, total, used)
    ensures IsSelection(available, targets, results, total == Sum(targets))
  {
    var all := Batches(available, targets);
    assert all[|all|..] == [];
  }

  // ----- what the caller may rely on

  ghost predicate DisjointBatches(results: seq<seq<TreeNode>>)
  {
    forall i, j, x, y :: 0 <= i < |results| && 0 <= j < |results| && i != j && x in results[i] && y in results[j] ==> x.id != y.id
  }

  lemma WhereIs(targets: seq<nat>, i: nat) returns (k: nat)
    requires i < |targets|
    ensures k < |targets| && Processing(targets)[k] == Target(targets[i], i)
  {
    ProcessingIsPermutation(targets);
    k :| 0 <= k < |targets| && Processing(targets)[k] == Target(targets[i], i);
  }

  /** The batches are disjoint, drawn from the available leaves, and exact when the flag is set. */
  lemma SelectionIsSound(available: seq<TreeNode>, targets: seq<nat>, results: seq<seq<TreeNode>>, found: bool)
    requires UniqueIds(available) && IsSelection(available, targets, results, found)
    ensures |results| == |targets| && DisjointBatches(results)
    ensures forall i :: 0 <= i < |results| ==> UniqueIds(results[i])
    ensures forall i, x :: 0 <= i < |results| && x in results[i] ==> x in available
    ensures found ==> forall i :: 0 <= i < |targets| ==> Value(results[i]) == targets[i]
  {
    hide *;
    forall i | 0 <= i < |targets|
      ensures |results| == |targets|
      ensures forall x :: x in results[i] ==> x in available
      ensures UniqueIds(results[i])
      ensures found ==> Value(results[i]) == targets[i]
    {
      BatchIsSound(available, targets, results, found, i);
    }
    BatchesAreDisjoint(available, targets, results, found);
  }

  lemma BatchIsSound(available: seq<TreeNode>, targets: seq<nat>, results: seq<seq<TreeNode>>, found: bool, i: nat)
    requires UniqueIds(available) && IsSelection(available, targets, results, found) && i < |targets|
    ensures |results| == |targets| && (forall x :: x in results[i] ==> x in available) && UniqueIds(results[i])
    ensures found ==> Value(results[i]) == targets[i]
  {
    hide SortBy, Fill, UniqueIds, Value, Found;
    var sorted, ts := SortBy(DESCENDING, available), Processing(targets);
    SortUnique(available);
    SameMembers(DESCENDING, available);
    FillMembers(sorted, ts);
    FillUnique(sorted, ts);
    FoundMeansExact(available, targets);
    var k := WhereIs(targets, i);
    assert results[i] == Batches(available, targets)[k];
  }

  lemma BatchesAreDisjoint(available: seq<TreeNode>, targets: seq<nat>, results: seq<seq<TreeNode>>, found: bool)
    requires UniqueIds(available) && IsSelection(available, targets, results, found)
    ensures |results| == |targets| && DisjointBatches(results)
  {
    hide SortBy, Fill, UniqueIds, Value, Found;
    var sorted, ts, all := SortBy(DESCENDING, available), Processing(targets), Batches(available, targets);
    SortUnique(available);
    FillDisjoint(sorted, ts);
    forall i, j, x, y | 0 <= i < |results| && 0 <= j < |results| && i != j && x in results[i] && y in results[j]
      ensures x.id != y.id
    {
      var k := WhereIs(targets, i);
      var l := WhereIs(targets, j);
      assert results[i] == all[k] && results[j] == all[l];
    }
  }
}
