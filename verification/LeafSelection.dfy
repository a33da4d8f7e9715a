/** Choosing leaves: the greedy exact fit over several targets, the cheapest cover, and the leaves
    handed to a swap. */
module LeafSelection {
  import opened LeafCache
  import opened Sorting

  const DESCENDING: (TreeNode, TreeNode) -> bool := (a: TreeNode, b: TreeNode) => a.value >= b.value
  const ASCENDING: (TreeNode, TreeNode) -> bool := (a: TreeNode, b: TreeNode) => a.value <= b.value

  function Value(ls: seq<TreeNode>): nat
  {
    if ls == [] then 0 else ls[0].value + Value(ls[1..])
  }

  function Sum(ts: seq<nat>): nat
  {
    if ts == [] then 0 else ts[0] + Sum(ts[1..])
  }

  lemma {:induction false} ValueConcat(a: seq<TreeNode>, b: seq<TreeNode>)
    ensures Value(a + b) == Value(a) + Value(b)
  {
    if a == [] {
      assert a + b == b;
    } else {
      ValueConcat(a[1..], b);
      assert (a + b)[1..] == a[1..] + b;
    }
  }

  const DIFFERENT_IDS: (TreeNode, TreeNode) -> bool := (a: TreeNode, b: TreeNode) => a.id != b.id
  /** b divides a, unless b is worthless. */
  const DIVISIBLE: (TreeNode, TreeNode) -> bool := (a: TreeNode, b: TreeNode) => b.value > 0 ==> a.value % b.value == 0

  ghost predicate UniqueIds(ls: seq<TreeNode>) { Pairwise(DIFFERENT_IDS, ls) }

  // ----- the greedy fill of one target

  /** Scanning in order, a leaf is taken whenever it still fits in r. */
  function Taken(ls: seq<TreeNode>, r: nat): seq<TreeNode>
  {
    if ls == [] then []
    else if r >= ls[0].value then [ls[0]] + Taken(ls[1..], r - ls[0].value)
    else Taken(ls[1..], r)
  }

  function Rest(ls: seq<TreeNode>, r: nat): seq<TreeNode>
  {
    if ls == [] then []
    else if r >= ls[0].value then Rest(ls[1..], r - ls[0].value)
    else [ls[0]] + Rest(ls[1..], r)
  }

  lemma {:induction false} TakenFits(ls: seq<TreeNode>, r: nat)
    ensures Value(Taken(ls, r)) <= r
    ensures multiset(Taken(ls, r)) + multiset(Rest(ls, r)) == multiset(ls)
  {
    if ls != [] {
      assert ls == [ls[0]] + ls[1..];
      TakenFits(ls[1..], if r >= ls[0].value then r - ls[0].value else r);
    }
  }

  lemma {:induction false} RestMembers(ls: seq<TreeNode>, r: nat)
    ensures forall x :: x in Rest(ls, r) ==> x in ls
    ensures forall x :: x in Taken(ls, r) ==> x in ls
  {
    if ls != [] {
      RestMembers(ls[1..], if r >= ls[0].value then r - ls[0].value else r);
    }
  }

  /** A relation that holds between every earlier and later leaf. */
  ghost predicate Pairwise(p: (TreeNode, TreeNode) -> bool, ls: seq<TreeNode>)
  {
    forall i, j :: 0 <= i < j < |ls| ==> p(ls[i], ls[j])
  }

  lemma PairwiseTail(p: (TreeNode, TreeNode) -> bool, ls: seq<TreeNode>)
    requires ls != []
    ensures Pairwise(p, ls) <==> Pairwise(p, ls[1..]) && forall y :: y in ls[1..] ==> p(ls[0], y)
  {
    if Pairwise(p, ls[1..]) && forall y :: y in ls[1..] ==> p(ls[0], y) {
      forall i, j | 0 <= i < j < |ls| ensures p(ls[i], ls[j]) {
        assert ls[j] == ls[1..][j - 1];
        if i > 0 {
          assert ls[i] == ls[1..][i - 1];
        }
      }
    }
  }

  lemma {:induction false} RestPairwise(p: (TreeNode, TreeNode) -> bool, ls: seq<TreeNode>, r: nat)
    requires Pairwise(p, ls)
    ensures Pairwise(p, Rest(ls, r))
  {
    if ls != [] {
      var r' := if r >= ls[0].value then r - ls[0].value else r;
      PairwiseTail(p, ls);
      RestPairwise(p, ls[1..], r');
      RestMembers(ls[1..], r');
      if r < ls[0].value {
        PairwiseTail(p, Rest(ls, r));
      }
    }
  }

  lemma {:induction false} TakenPairwise(p: (TreeNode, TreeNode) -> bool, ls: seq<TreeNode>, r: nat)
    requires Pairwise(p, ls)
    ensures Pairwise(p, Taken(ls, r))
  {
    if ls != [] {
      var r' := if r >= ls[0].value then r - ls[0].value else r;
      PairwiseTail(p, ls);
      TakenPairwise(p, ls[1..], r');
      RestMembers(ls[1..], r');
      if r >= ls[0].value {
        PairwiseTail(p, Taken(ls, r));
      }
    }
  }

  lemma {:induction false} TakenApartFromRest(ls: seq<TreeNode>, r: nat)
    requires Pairwise(DIFFERENT_IDS, ls)
    ensures forall x, y :: x in Taken(ls, r) && y in Rest(ls, r) ==> x.id != y.id
  {
    if ls != [] {
      var r' := if r >= ls[0].value then r - ls[0].value else r;
      PairwiseTail(DIFFERENT_IDS, ls);
      TakenApartFromRest(ls[1..], r');
      RestMembers(ls[1..], r');
    }
  }

  // ----- all targets

  datatype Target = Target(amount: nat, index: nat)

  const SMALLER_TARGET: (Target, Target) -> bool := (a: Target, b: Target) => a.amount <= b.amount

  function Indexed(targets: seq<nat>): (r: seq<Target>)
    ensures |r| == |targets| && forall i :: 0 <= i < |r| ==> r[i] == Target(targets[i], i)
  {
    seq(|targets|, i requires 0 <= i < |targets| => Target(targets[i], i))
  }

  /** The batches in processing order. */
  function Fill(ls: seq<TreeNode>, ts: seq<Target>): (r: seq<seq<TreeNode>>)
    ensures |r| == |ts|
    decreases ts
  {
    if ts == [] then [] else [Taken(ls, ts[0].amount)] + Fill(Rest(ls, ts[0].amount), ts[1..])
  }

  function Processing(targets: seq<nat>): (r: seq<Target>)
    ensures |r| == |targets|
  {
    SortBy(SMALLER_TARGET, Indexed(targets))
  }

  /** The targets of one amount, in order. */
  function OfAmount(ts: seq<Target>, amount: nat): seq<Target>
  {
    if ts == [] then [] else (if ts[0].amount == amount then [ts[0]] else []) + OfAmount(ts[1..], amount)
  }

  lemma {:induction false} TiesAreOfAmount(ts: seq<Target>, t: Target)
    ensures Ties(SMALLER_TARGET, t, ts) == OfAmount(ts, t.amount)
  {
    if ts != [] {
      TiesAreOfAmount(ts[1..], t);
    }
  }

  /** Targets are processed from the smallest to the largest, equal ones in the order they were given. */
  lemma ProcessingOrder(targets: seq<nat>, amount: nat)
    ensures multiset(Processing(targets)) == multiset(Indexed(targets))
    ensures forall i, j :: 0 <= i < j < |targets| ==> Processing(targets)[i].amount <= Processing(targets)[j].amount
    ensures OfAmount(Processing(targets), amount) == OfAmount(Indexed(targets), amount)
  {
    SortIsSorted(SMALLER_TARGET, Indexed(targets));
    SortKeepsTies(SMALLER_TARGET, Target(amount, 0), Indexed(targets));
    TiesAreOfAmount(Indexed(targets), Target(amount, 0));
    TiesAreOfAmount(Processing(targets), Target(amount, 0));
    assert forall i, j :: 0 <= i < j < |targets| ==> SMALLER_TARGET(Processing(targets)[i], Processing(targets)[j]);
  }

  function Batches(available: seq<TreeNode>, targets: seq<nat>): (r: seq<seq<TreeNode>>)
    ensures |r| == |targets|
  {
    Fill(SortBy(DESCENDING, available), Processing(targets))
  }

  function BatchTotal(batches: seq<seq<TreeNode>>): nat
  {
    if batches == [] then 0 else Value(batches[0]) + BatchTotal(batches[1..])
  }

  function AmountTotal(ts: seq<Target>): nat
  {
    if ts == [] then 0 else ts[0].amount + AmountTotal(ts[1..])
  }

  /** The flag `selectLeaves` returns: the selected total is the requested total. */
  predicate Found(available: seq<TreeNode>, targets: seq<nat>)
  {
    BatchTotal(Batches(available, targets)) == Sum(targets)
  }

  // ----- permuting sums

  lemma {:induction false} InsertAmount(t: Target, ts: seq<Target>)
    ensures AmountTotal(InsertBy(SMALLER_TARGET, t, ts)) == t.amount + AmountTotal(ts)
  {
    if ts != [] && !SMALLER_TARGET(t, ts[0]) {
      InsertAmount(t, ts[1..]);
    }
  }

  lemma {:induction false} SortAmount(ts: seq<Target>)
    ensures AmountTotal(SortBy(SMALLER_TARGET, ts)) == AmountTotal(ts)
  {
    if ts != [] {
      SortAmount(ts[1..]);
      InsertAmount(ts[0], SortBy(SMALLER_TARGET, ts[1..]));
    }
  }

  lemma {:induction false} AmountsAreSum(ts: seq<Target>, amounts: seq<nat>)
    requires |ts| == |amounts| && forall i :: 0 <= i < |ts| ==> ts[i].amount == amounts[i]
    ensures AmountTotal(ts) == Sum(amounts)
  {
    if ts != [] {
      AmountsAreSum(ts[1..], amounts[1..]);
    }
  }

  lemma ProcessingTotal(targets: seq<nat>)
    ensures AmountTotal(Processing(targets)) == Sum(targets)
  {
    SortAmount(Indexed(targets));
    AmountsAreSum(Indexed(targets), targets);
  }

  // ----- the flag is true exactly when every batch meets its target

  ghost predicate EachExact(batches: seq<seq<TreeNode>>, ts: seq<Target>)
    requires |batches| == |ts|
  {
    forall k :: 0 <= k < |ts| ==> Value(batches[k]) == ts[k].amount
  }

  lemma {:induction false} FillExactly(ls: seq<TreeNode>, ts: seq<Target>)
    ensures BatchTotal(Fill(ls, ts)) <= AmountTotal(ts)
    ensures BatchTotal(Fill(ls, ts)) == AmountTotal(ts) <==> EachExact(Fill(ls, ts), ts)
    decreases ts
  {
    if ts != [] {
      var rest, tail := Rest(ls, ts[0].amount), ts[1..];
      TakenFits(ls, ts[0].amount);
      FillExactly(rest, tail);
      assert Fill(ls, ts)[1..] == Fill(rest, tail);
      if EachExact(Fill(ls, ts), ts) {
        assert Value(Fill(ls, ts)[0]) == ts[0].amount;
        assert forall k :: 0 <= k < |tail| ==> Fill(rest, tail)[k] == Fill(ls, ts)[k + 1];
      }
    }
  }

  lemma FoundMeansExact(available: seq<TreeNode>, targets: seq<nat>)
    ensures Found(available, targets) <==> EachExact(Batches(available, targets), Processing(targets))
  {
    FillExactly(SortBy(DESCENDING, available), Processing(targets));
    ProcessingTotal(targets);
  }

  // ----- batches are disjoint and drawn from the available leaves

  lemma {:induction false} FillMembers(ls: seq<TreeNode>, ts: seq<Target>)
    ensures forall k, x :: 0 <= k < |ts| && x in Fill(ls, ts)[k] ==> x in ls
    decreases ts
  {
    if ts != [] {
      RestMembers(ls, ts[0].amount);
      FillMembers(Rest(ls, ts[0].amount), ts[1..]);
    }
  }

  lemma {:induction false} FillDisjoint(ls: seq<TreeNode>, ts: seq<Target>)
    requires UniqueIds(ls)
    ensures forall k, l, x, y :: 0 <= k < l < |ts| && x in Fill(ls, ts)[k] && y in Fill(ls, ts)[l] ==> x.id != y.id
    decreases ts
  {
    if ts != [] {
      var rest := Rest(ls, ts[0].amount);
      RestPairwise(DIFFERENT_IDS, ls, ts[0].amount);
      TakenApartFromRest(ls, ts[0].amount);
      FillDisjoint(rest, ts[1..]);
      FillMembers(rest, ts[1..]);
    }
  }

  lemma {:induction false} FillUnique(ls: seq<TreeNode>, ts: seq<Target>)
    requires UniqueIds(ls)
    ensures forall k :: 0 <= k < |ts| ==> UniqueIds(Fill(ls, ts)[k])
    decreases ts
  {
    if ts != [] {
      RestPairwise(DIFFERENT_IDS, ls, ts[0].amount);
      TakenPairwise(DIFFERENT_IDS, ls, ts[0].amount);
      FillUnique(Rest(ls, ts[0].amount), ts[1..]);
    }
  }
}
