/** The lists the leaf manager extracts from its cache, and what a selection over such a list promises. */
module LeafListing {
  import opened ChainSelection
  import opened CoverSelection
  import opened LeafCache
  import opened LeafRuns
  import opened LeafSelection
  import opened Outcomes
  import opened SelectLeaves
  import opened Sorting

  /** ls lists the cached leaves with this status, each once, in some order. */
  ghost predicate Lists(m: Cache, status: LeafStatus, ls: seq<TreeNode>)
  {
    && UniqueIds(ls)
    && (forall x :: x in ls ==> HasStatus(m, x.id, status) && m[x.id].treeNode == x)
    && (forall id :: HasStatus(m, id, status) ==> m[id].treeNode in ls)
  }

  function IdsOf(ls: seq<TreeNode>): (r: seq<LeafId>)
    ensures |r| == |ls| && forall i :: 0 <= i < |r| ==> r[i] == ls[i].id
    ensures forall id :: id in r <==> exists x :: x in ls && x.id == id
  {
    seq(|ls|, i requires 0 <= i < |ls| => ls[i].id)
  }

  function Flatten(batches: seq<seq<TreeNode>>): (r: seq<TreeNode>)
    ensures forall x :: x in r <==> exists i :: 0 <= i < |batches| && x in batches[i]
  {
    if batches == [] then []
    else
      assert forall x, i :: 0 < i < |batches| && x in batches[i] ==> batches[1..][i - 1] == batches[i];
      batches[0] + Flatten(batches[1..])
  }

  lemma AppendUnique(ls: seq<TreeNode>, x: TreeNode)
    requires UniqueIds(ls) && forall y :: y in ls ==> y.id != x.id
    ensures UniqueIds(ls + [x])
  {
  }

  lemma ListsTail(m: Cache, status: LeafStatus, ls: seq<TreeNode>)
    requires WellFormed(m) && Lists(m, status, ls) && ls != []
    ensures WellFormed(m - {ls[0].id}) && Lists(m - {ls[0].id}, status, ls[1..])
  {
    PairwiseTail(DIFFERENT_IDS, ls);
    forall id | HasStatus(m - {ls[0].id}, id, status) ensures m[id].treeNode in ls[1..] {
      assert HasStatus(m, id, status);
    }
  }

  lemma {:induction false} NothingCounted(m: Cache, status: LeafStatus)
    requires forall id :: !HasStatus(m, id, status)
    ensures Total(m, {status}) == 0
    decreases m.Keys
  {
    if m != map[] {
      var id :| id in m;
      assert !HasStatus(m, id, status);
      TotalRemove(m, id, {status});
      forall other ensures !HasStatus(m - {id}, other, status) {
        assert !HasStatus(m, other, status);
      }
      NothingCounted(m - {id}, status);
    }
  }

  /** The listed leaves are worth exactly what the balance says. */
  lemma {:induction false} ListedValueIsBalance(m: Cache, status: LeafStatus, ls: seq<TreeNode>)
    requires WellFormed(m) && Lists(m, status, ls)
    ensures Value(ls) == Total(m, {status})
  {
    if ls == [] {
      NothingCounted(m, status);
    } else {
      ListsTail(m, status, ls);
      ListedValueIsBalance(m - {ls[0].id}, status, ls[1..]);
      TotalRemove(m, ls[0].id, {status});
    }
  }

  /** Batch i meets target i exactly; no leaf is in two batches or twice in one; all of them are in the
      cache with this status. */
  ghost predicate ExactBatches(m: Cache, status: LeafStatus, targets: seq<nat>, batches: seq<seq<TreeNode>>)
  {
    && |batches| == |targets| && DisjointBatches(batches)
    && (forall i :: 0 <= i < |batches| ==> UniqueIds(batches[i]) && Value(batches[i]) == targets[i])
    && (forall i, x :: 0 <= i < |batches| && x in batches[i] ==> HasStatus(m, x.id, status) && m[x.id].treeNode == x)
  }

  /** Of any two available values, one divides the other. */
  ghost predicate AvailableChain(m: Cache)
  {
    forall id, other | HasStatus(m, id, Available) && HasStatus(m, other, Available) ::
      m[id].treeNode.value >= m[other].treeNode.value ==> DIVISIBLE(m[id].treeNode, m[other].treeNode)
  }

  /** Some disjoint choice of available leaves meets every target exactly. */
  ghost predicate ChoiceExists(m: Cache, targets: seq<nat>)
  {
    exists ls, c :: Lists(m, Available, ls) && ExactChoice(ls, targets, c)
  }

  lemma {:induction false} ServedRemoveAt(b: seq<TreeNode>, i: nat, c: Choice, j: int)
    requires i < |b|
    ensures Served(b, c, j) == Served(b[..i] + b[i + 1..], c, j) + if At(c, b[i].id) == j then b[i].value else 0
  {
    var b' := b[..i] + b[i + 1..];
    if i > 0 {
      ServedRemoveAt(b[1..], i - 1, c, j);
      assert b[1..][..i - 1] + b[1..][i..] == b'[1..];
    } else {
      assert b' == b[1..];
    }
  }

  /** What a target receives does not depend on the order of the leaves. */
  lemma {:induction false} ServedInAnyOrder(a: seq<TreeNode>, b: seq<TreeNode>, c: Choice, j: int)
    requires UniqueIds(a) && UniqueIds(b) && forall x :: x in a <==> x in b
    ensures Served(a, c, j) == Served(b, c, j)
  {
    if b != [] {
      assert b[0] in a;
    }
    if a != [] {
      assert a[0] in b;
      var i :| 0 <= i < |b| && b[i] == a[0];
      var b' := b[..i] + b[i + 1..];
      PairwiseTail(DIFFERENT_IDS, a);
      RemoveAtUnique(b, i);
      forall x ensures x in a[1..] <==> x in b' {
        assert x in a <==> x in a[1..] || x == a[0];
        assert a[0] !in a[1..];
      }
      ServedInAnyOrder(a[1..], b', c, j);
      ServedRemoveAt(b, i, c, j);
    }
  }

  lemma RemoveAtUnique(b: seq<TreeNode>, i: nat)
    requires UniqueIds(b) && i < |b|
    ensures UniqueIds(b[..i] + b[i + 1..])
    ensures forall x :: x in b[..i] + b[i + 1..] <==> x in b && x != b[i]
  {
    var b' := b[..i] + b[i + 1..];
    forall k, l | 0 <= k < l < |b'| ensures DIFFERENT_IDS(b'[k], b'[l]) {
      assert DIFFERENT_IDS(b[if k < i then k else k + 1], b[if l < i then l else l + 1]);
    }
    forall x ensures x in b' <==> x in b && x != b[i] {
      if x in b && x != b[i] {
        var k :| 0 <= k < |b| && b[k] == x;
        assert b'[if k < i then k else k - 1] == x;
      }
      if k :| 0 <= k < |b'| && b'[k] == x {
        assert DIFFERENT_IDS(b[if k < i then k else i], b[if k < i then i else k + 1]);
      }
    }
  }

  /** In whatever order the cache lists its leaves, a reported success is a choice; and when the available
      values form a divisibility chain, success is reported whenever there is one. */
  lemma FoundInAnyOrder(m: Cache, available: seq<TreeNode>, targets: seq<nat>)
    requires Lists(m, Available, available)
    ensures Found(available, targets) ==> ChoiceExists(m, targets)
    ensures AvailableChain(m) ==> (Found(available, targets) <==> ChoiceExists(m, targets))
  {
    hide Found, UniqueIds;
    if Found(available, targets) {
      FoundGivesChoice(available, targets);
    }
    if AvailableChain(m) && ChoiceExists(m, targets) {
      var ls, c :| Lists(m, Available, ls) && ExactChoice(ls, targets, c);
      forall j | 0 <= j < |targets| ensures Served(available, c, j) == targets[j] {
        ServedInAnyOrder(available, ls, c, j);
      }
      assert ExactChoice(available, targets, c);
      FoundExactlyWhenPossible(available, targets);
    }
  }

  lemma FoundIsExact(m: Cache, available: seq<TreeNode>, targets: seq<nat>, batches: seq<seq<TreeNode>>)
    requires Lists(m, Available, available) && IsSelection(available, targets, batches, true)
    ensures ExactBatches(m, Available, targets, batches)
  {
    SelectionIsSound(available, targets, batches, true);
    hide IsSelection, DisjointBatches, UniqueIds;
  }

  lemma BatchIdsAvailable(m: Cache, targets: seq<nat>, batches: seq<seq<TreeNode>>)
    requires ExactBatches(m, Available, targets, batches)
    ensures AllAvailable(m, IdsOf(Flatten(batches)))
    ensures ExactBatches(Lock(m, IdsOf(Flatten(batches))), LocalLocked, targets, batches)
  {
    hide DisjointBatches, UniqueIds, Value;
    var ids := IdsOf(Flatten(batches));
    forall id | id in ids ensures HasStatus(m, id, Available) {
      var x :| x in Flatten(batches) && x.id == id;
      var i :| 0 <= i < |batches| && x in batches[i];
    }
    forall i, x | 0 <= i < |batches| && x in batches[i] ensures HasStatus(Lock(m, ids), x.id, LocalLocked) && Lock(m, ids)[x.id].treeNode == x {
      assert x in Flatten(batches);
    }
  }

  // ----- after a swap

  lemma {:induction false} PositiveRemoveAt(b: seq<TreeNode>, i: nat)
    requires i < |b|
    ensures PositiveValues(b) == PositiveValues(b[..i] + b[i + 1..]) + PositiveValue(b[i])
  {
    hide PositiveValue;
    var b' := b[..i] + b[i + 1..];
    if i > 0 {
      PositiveRemoveAt(b[1..], i - 1);
      assert b[1..][..i - 1] + b[1..][i..] == b'[1..];
      assert PositiveValues(b') == PositiveValues(b'[1..]) + PositiveValue(b[0]);
    } else {
      assert b' == b[1..];
    }
  }

  lemma {:induction false} PositiveMembers(a: seq<TreeNode>, b: seq<TreeNode>)
    requires UniqueIds(a) && forall x :: x in a ==> x in b
    ensures PositiveValues(a) <= PositiveValues(b)
  {
    if a != [] {
      assert a[0] in b;
      var i :| 0 <= i < |b| && b[i] == a[0];
      var b' := b[..i] + b[i + 1..];
      PairwiseTail(DIFFERENT_IDS, a);
      forall x | x in a[1..] ensures x in b' {
        assert x in a;
        var j :| 0 <= j < |b| && b[j] == x;
        assert j != i;
        assert b'[if j < i then j else j - 1] == x;
      }
      PositiveMembers(a[1..], b');
      PositiveRemoveAt(b, i);
    }
  }

  lemma {:induction false} OnlyNode(nodes: seq<TreeNode>, x: TreeNode)
    requires UniqueIds(nodes) && x in nodes
    ensures LastNode(nodes, x.id) == Some(x)
  {
    var i :| 0 <= i < |nodes| && nodes[i] == x;
    if i < |nodes| - 1 {
      assert DIFFERENT_IDS(nodes[i], nodes[|nodes| - 1]);
      assert nodes[..|nodes| - 1][i] == x;
      OnlyNode(nodes[..|nodes| - 1], x);
    }
  }

  /** A swap that returned one leaf per target leaves every target selectable. */
  lemma ReselectionSucceeds(m: Cache, ids: seq<LeafId>, newLeaves: seq<TreeNode>, available: seq<TreeNode>, targets: seq<nat>)
    requires Lists(Swapped(m, ids, newLeaves), Available, available)
    requires UniqueIds(newLeaves) && multiset(targets) <= PositiveValues(newLeaves)
    ensures Found(available, targets)
  {
    var m' := Swapped(m, ids, newLeaves);
    forall x | x in newLeaves ensures x in available {
      OnlyNode(newLeaves, x);
      PutAvailableEffect(Transition(m, ids, Spent, None), newLeaves, NoSource, x.id);
      assert HasStatus(m', x.id, Available) && m'[x.id].treeNode == x;
    }
    PositiveMembers(newLeaves, available);
    OneLeafPerTargetIsEnough(available, targets);
  }

  // ----- leaves locked for a swap

  lemma CoverIsAvailable(m: Cache, available: seq<TreeNode>, amount: int)
    requires Lists(m, Available, available) && LeavesToSwap(available, amount).Ok?
    ensures AllAvailable(m, IdsOf(LeavesToSwap(available, amount).value))
  {
    var sorted := SortBy(ASCENDING, available);
    var k := CoverIsShortestPrefix(sorted, amount);
    SameMembers(ASCENDING, available);
    var nodes := LeavesToSwap(available, amount).value;
    forall id | id in IdsOf(nodes) ensures HasStatus(m, id, Available) {
      var x :| x in nodes && x.id == id;
      assert x in sorted;
    }
  }
}
