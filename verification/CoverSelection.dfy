/** Covering one amount: the read-only selection uses the fewest leaves, the swap selection takes
    the smallest leaves, and a swap that returns one leaf per target makes re-selection succeed. */
module CoverSelection {
  import opened LeafCache
  import opened LeafSelection
  import opened Outcomes
  import opened Sorting

  ghost predicate Descending(ls: seq<TreeNode>)
  {
    forall i, j :: 0 <= i < j < |ls| ==> ls[i].value >= ls[j].value
  }

  /** Leaves in order until the amount is reached. */
  function CoverFrom(ls: seq<TreeNode>, need: int): seq<TreeNode>
  {
    if ls == [] || need <= 0 then [] else [ls[0]] + CoverFrom(ls[1..], need - ls[0].value)
  }

  /** `selectLeavesReadOnly` */
  function ReadOnlySelection(available: seq<TreeNode>, targetAmount: int): seq<TreeNode>
  {
    CoverFrom(SortBy(DESCENDING, available), targetAmount)
  }

  datatype SwapSelectionError = NotEnoughLeaves

  /** `determineLeavesToSwap` */
  function LeavesToSwap(available: seq<TreeNode>, targetAmount: int): Result<seq<TreeNode>, SwapSelectionError>
  {
    var nodes := CoverFrom(SortBy(ASCENDING, available), targetAmount);
    if Value(nodes) < targetAmount then Err(NotEnoughLeaves) else Ok(nodes)
  }

  /** The cover is the shortest prefix that reaches the amount, or everything. */
  lemma {:induction false} CoverIsShortestPrefix(ls: seq<TreeNode>, need: int) returns (k: nat)
    ensures k <= |ls| && CoverFrom(ls, need) == ls[..k]
    ensures Value(ls[..k]) >= need || k == |ls|
    ensures k > 0 ==> Value(ls[..k - 1]) < need
  {
    if ls == [] || need <= 0 {
      k := 0;
    } else {
      var k' := CoverIsShortestPrefix(ls[1..], need - ls[0].value);
      k := k' + 1;
      assert ls[..k][1..] == ls[1..][..k'];
      if k' > 0 {
        assert ls[..k'][1..] == ls[1..][..k' - 1];
      }
    }
  }

  lemma {:induction false} ValueInsert(before: (TreeNode, TreeNode) -> bool, x: TreeNode, s: seq<TreeNode>)
    ensures Value(InsertBy(before, x, s)) == x.value + Value(s)
  {
    if s != [] && !before(x, s[0]) {
      ValueInsert(before, x, s[1..]);
    }
  }

  lemma {:induction false} ValueSort(before: (TreeNode, TreeNode) -> bool, s: seq<TreeNode>)
    ensures Value(SortBy(before, s)) == Value(s)
  {
    if s != [] {
      ValueSort(before, s[1..]);
      ValueInsert(before, s[0], SortBy(before, s[1..]));
    }
  }

  // ----- fewest leaves

  lemma {:induction false} ValueRemoveAt(s: seq<TreeNode>, i: nat)
    requires i < |s|
    ensures Value(s) == s[i].value + Value(s[..i] + s[i + 1..])
  {
    if i == 0 {
      assert s[..0] + s[1..] == s[1..];
    } else {
      ValueRemoveAt(s[1..], i - 1);
      assert (s[..i] + s[i + 1..])[1..] == s[1..][..i - 1] + s[1..][i..];
    }
  }

  lemma MultisetRemoveAt(s: seq<TreeNode>, i: nat)
    requires i < |s|
    ensures multiset(s) == multiset(s[..i] + s[i + 1..]) + multiset{s[i]}
  {
    assert s == s[..i] + ([s[i]] + s[i + 1..]);
  }

  lemma PrefixGrows(ls: seq<TreeNode>, k: nat)
    requires Descending(ls) && ls != [] && k <= |ls| - 1
    ensures Value(ls[1..][..k]) <= Value(ls[..k])
    decreases k
  {
    if k > 0 {
      PrefixGrows(ls, k - 1);
      assert ls[..k] == ls[..k - 1] + [ls[k - 1]];
      assert ls[1..][..k] == ls[1..][..k - 1] + [ls[k]];
      ValueConcat(ls[..k - 1], [ls[k - 1]]);
      ValueConcat(ls[1..][..k - 1], [ls[k]]);
    }
  }

  lemma HeadShared(ls: seq<TreeNode>, sub: seq<TreeNode>) returns (sub': seq<TreeNode>)
    requires ls != [] && ls[0] in sub && multiset(sub) <= multiset(ls)
    ensures |sub'| == |sub| - 1 && Value(sub) == ls[0].value + Value(sub')
    ensures multiset(sub') <= multiset(ls[1..])
  {
    var i :| 0 <= i < |sub| && sub[i] == ls[0];
    sub' := sub[..i] + sub[i + 1..];
    ValueRemoveAt(sub, i);
    MultisetRemoveAt(sub, i);
    assert ls == [ls[0]] + ls[1..];
    forall y ensures multiset(sub')[y] <= multiset(ls[1..])[y] {
      assert multiset(sub)[y] <= multiset(ls)[y];
    }
  }

  lemma HeadNotShared(ls: seq<TreeNode>, sub: seq<TreeNode>)
    requires ls != [] && ls[0] !in sub && multiset(sub) <= multiset(ls)
    ensures multiset(sub) <= multiset(ls[1..])
  {
    assert ls == [ls[0]] + ls[1..];
    forall y ensures multiset(sub)[y] <= multiset(ls[1..])[y] {
      assert multiset(sub)[y] <= multiset(ls)[y];
      assert y == ls[0] ==> y !in multiset(sub);
    }
  }

  /** No k leaves are worth more than the first k of the descending list. */
  lemma {:induction false} TopLeavesAreWorthMost(ls: seq<TreeNode>, sub: seq<TreeNode>)
    requires Descending(ls) && multiset(sub) <= multiset(ls)
    ensures |sub| <= |ls| && Value(sub) <= Value(ls[..|sub|])
    decreases ls
  {
    if sub != [] {
      assert sub[0] in multiset(ls);
      if ls[0] in sub {
        var sub' := HeadShared(ls, sub);
        TopLeavesAreWorthMost(ls[1..], sub');
        assert ls[..|sub|][1..] == ls[1..][..|sub'|];
      } else {
        HeadNotShared(ls, sub);
        TopLeavesAreWorthMost(ls[1..], sub);
        PrefixGrows(ls, |sub|);
      }
    }
  }

  /** The read-only selection covers a covered amount with as few leaves as possible, and returns
      everything when the balance falls short. */
  lemma ReadOnlySelectionIsSmallest(available: seq<TreeNode>, targetAmount: int)
    ensures var selected := ReadOnlySelection(available, targetAmount);
      && multiset(selected) <= multiset(available)
      && (Value(available) < targetAmount ==> multiset(selected) == multiset(available))
      && (Value(available) >= targetAmount ==>
            && Value(selected) >= targetAmount
            && forall other :: multiset(other) <= multiset(available) && Value(other) >= targetAmount ==> |selected| <= |other|)
  {
    var ls := SortBy(DESCENDING, available);
    DescendingFromSort(available);
    ValueSort(DESCENDING, available);
    var k := CoverIsShortestPrefix(ls, targetAmount);
    PrefixOf(ls, k);
    forall other | multiset(other) <= multiset(available) && Value(other) >= targetAmount ensures k <= |other| {
      NoSmallerCover(ls, k, other, targetAmount);
    }
  }

  lemma PrefixOf(ls: seq<TreeNode>, k: nat)
    requires k <= |ls|
    ensures Value(ls[..k]) <= Value(ls) && multiset(ls[..k]) <= multiset(ls)
    ensures Value(ls[..k]) == Value(ls) - Value(ls[k..])
    ensures k == |ls| ==> ls[..k] == ls
  {
    assert ls == ls[..k] + ls[k..];
    ValueConcat(ls[..k], ls[k..]);
  }

  lemma NoSmallerCover(ls: seq<TreeNode>, k: nat, other: seq<TreeNode>, need: int)
    requires Descending(ls) && k <= |ls| && (k > 0 ==> Value(ls[..k - 1]) < need)
    requires multiset(other) <= multiset(ls) && Value(other) >= need
    ensures k <= |other|
  {
    hide *;
    TopLeavesAreWorthMost(ls, other);
    if |other| < k {
      PrefixMonotone(ls, |other|, k - 1);
    }
  }

  lemma PrefixMonotone(ls: seq<TreeNode>, i: nat, j: nat)
    requires i <= j <= |ls|
    ensures Value(ls[..i]) <= Value(ls[..j])
  {
    assert ls[..j] == ls[..i] + ls[i..j];
    ValueConcat(ls[..i], ls[i..j]);
  }

  lemma DescendingFromSort(available: seq<TreeNode>)
    ensures Descending(SortBy(DESCENDING, available))
  {
    SortIsSorted(DESCENDING, available);
    var ls := SortBy(DESCENDING, available);
    forall i, j | 0 <= i < j < |ls| ensures ls[i].value >= ls[j].value {
      assert DESCENDING(ls[i], ls[j]);
    }
  }

  // ----- leaves for a swap

  /** For a positive amount, choosing leaves to swap succeeds exactly when the balance covers it. */
  lemma SwapSelectionSucceedsWhenCovered(available: seq<TreeNode>, targetAmount: int)
    ensures LeavesToSwap(available, targetAmount).Ok? <==> Value(available) >= targetAmount
  {
    var ls := SortBy(ASCENDING, available);
    ValueSort(ASCENDING, available);
    var k := CoverIsShortestPrefix(ls, targetAmount);
    PrefixOf(ls, k);
  }

  /** The chosen leaves are available, cover the amount, do not without their largest, and no leaf left out
      is smaller than any of them. */
  lemma SwapSelectionIsMinimal(available: seq<TreeNode>, targetAmount: int)
    requires targetAmount > 0 && LeavesToSwap(available, targetAmount).Ok?
    ensures var nodes := LeavesToSwap(available, targetAmount).value;
      && nodes != [] && multiset(nodes) <= multiset(available) && Value(nodes) >= targetAmount
      && Value(nodes[..|nodes| - 1]) < targetAmount
      && (forall x :: x in nodes ==> x.value <= nodes[|nodes| - 1].value)
      && forall x :: x in multiset(available) - multiset(nodes) ==> x.value >= nodes[|nodes| - 1].value
  {
    var ls := SortBy(ASCENDING, available);
    SortIsSorted(ASCENDING, available);
    assert LeavesToSwap(available, targetAmount) == Ok(CoverFrom(ls, targetAmount)) && Ascending(ls);
    hide *;
    AscendingCover(ls, targetAmount);
  }

  ghost predicate Ascending(ls: seq<TreeNode>)
  {
    forall i, j :: 0 <= i < j < |ls| ==> ASCENDING(ls[i], ls[j])
  }

  lemma AscendingCover(ls: seq<TreeNode>, need: int)
    requires Ascending(ls) && need > 0 && Value(CoverFrom(ls, need)) >= need
    ensures var nodes := CoverFrom(ls, need);
      && nodes != [] && multiset(nodes) <= multiset(ls) && Value(nodes[..|nodes| - 1]) < need
      && (forall x :: x in nodes ==> x.value <= nodes[|nodes| - 1].value)
      && forall x :: x in multiset(ls) - multiset(nodes) ==> x.value >= nodes[|nodes| - 1].value
  {
    assert Value([]) == 0;
    hide *;
    var k := CoverIsShortestPrefix(ls, need);
    PrefixOf(ls, k);
    assert ls[..0] == [];
    SortedAround(ls, k);
    assert ls[..k][..k - 1] == ls[..k - 1];
  }

  lemma AscendingAt(ls: seq<TreeNode>, i: nat, j: nat)
    requires Ascending(ls) && i <= j < |ls|
    ensures ls[i].value <= ls[j].value
  {
    assert i < j ==> ASCENDING(ls[i], ls[j]);
  }

  lemma SortedAround(ls: seq<TreeNode>, k: nat)
    requires 0 < k <= |ls| && Ascending(ls)
    ensures forall x :: x in ls[..k] ==> x.value <= ls[k - 1].value
    ensures forall x :: x in multiset(ls) - multiset(ls[..k]) ==> x.value >= ls[k - 1].value
  {
    hide Ascending;
    assert ls == ls[..k] + ls[k..];
    forall x | x in multiset(ls) - multiset(ls[..k]) ensures x.value >= ls[k - 1].value {
      assert x in multiset(ls[k..]);
      var i :| 0 <= i < |ls[k..]| && ls[k..][i] == x;
      AscendingAt(ls, k - 1, k + i);
    }
    forall x | x in ls[..k] ensures x.value <= ls[k - 1].value {
      var i :| 0 <= i < k && ls[i] == x;
      AscendingAt(ls, i, k - 1);
    }
  }

  // ----- re-selection after a swap

  /** The positive leaf values, with multiplicity. */
  function PositiveValues(ls: seq<TreeNode>): multiset<nat>
  {
    if ls == [] then multiset{}
    else PositiveValues(ls[1..]) + PositiveValue(ls[0])
  }

  function PositiveValue(x: TreeNode): multiset<nat>
  {
    if x.value > 0 then multiset{x.value} else multiset{}
  }

  lemma {:induction false} PositiveInsert(x: TreeNode, s: seq<TreeNode>)
    ensures PositiveValues(InsertBy(DESCENDING, x, s)) == PositiveValues(s) + PositiveValue(x)
  {
    if s != [] && !DESCENDING(x, s[0]) {
      PositiveInsert(x, s[1..]);
    } else {
      assert ([x] + s)[1..] == s;
    }
  }

  lemma {:induction false} PositiveSort(s: seq<TreeNode>)
    ensures PositiveValues(SortBy(DESCENDING, s)) == PositiveValues(s)
  {
    if s != [] {
      PositiveSort(s[1..]);
      PositiveInsert(s[0], SortBy(DESCENDING, s[1..]));
    }
  }

  lemma {:induction false} NothingMoreTaken(ls: seq<TreeNode>)
    ensures Value(Taken(ls, 0)) == 0 && PositiveValues(Rest(ls, 0)) == PositiveValues(ls)
  {
    if ls != [] {
      NothingMoreTaken(ls[1..]);
    }
  }

  lemma {:induction false} LargestPositive(ls: seq<TreeNode>, v: nat)
    requires Descending(ls) && v in PositiveValues(ls)
    ensures v > 0 && ls != [] && v <= ls[0].value
  {
    if v in PositiveValues(ls[1..]) {
      LargestPositive(ls[1..], v);
      assert ls[1..][0] == ls[1];
    }
  }

  lemma RemoveThenAdd(m: multiset<nat>, v: nat, more: multiset<nat>)
    requires v in m
    ensures (m - multiset{v}) + more == (m + more) - multiset{v}
  {
  }

  /** A leaf worth exactly the target is what the descending scan takes first. */
  lemma {:induction false} ExactLeafIsTaken(ls: seq<TreeNode>, v: nat)
    requires Descending(ls) && v in PositiveValues(ls)
    ensures Value(Taken(ls, v)) == v && PositiveValues(Rest(ls, v)) == PositiveValues(ls) - multiset{v}
  {
    LargestPositive(ls, v);
    if ls[0].value == v {
      NothingMoreTaken(ls[1..]);
    } else {
      ExactLeafIsTaken(ls[1..], v);
      var r := Rest(ls[1..], v);
      assert Rest(ls, v) == [ls[0]] + r && ([ls[0]] + r)[1..] == r;
      RemoveThenAdd(PositiveValues(ls[1..]), v, multiset{ls[0].value});
    }
  }

  lemma {:induction false} FillOneLeafEach(ls: seq<TreeNode>, ts: seq<Target>)
    requires Descending(ls) && Amounts(ts) <= PositiveValues(ls)
    ensures EachExact(Fill(ls, ts), ts)
    decreases ts
  {
    if ts != [] {
      var v := ts[0].amount;
      assert v in Amounts(ts);
      ExactLeafIsTaken(ls, v);
      DescendingRest(ls, v);
      FillOneLeafEach(Rest(ls, v), ts[1..]);
    }
  }

  function Amounts(ts: seq<Target>): multiset<nat>
  {
    if ts == [] then multiset{} else Amounts(ts[1..]) + multiset{ts[0].amount}
  }

  lemma DescendingRest(ls: seq<TreeNode>, v: nat)
    requires Descending(ls)
    ensures Descending(Rest(ls, v))
  {
    assert Pairwise(DESCENDING, ls);
    RestPairwise(DESCENDING, ls, v);
    assert forall i, j :: 0 <= i < j < |Rest(ls, v)| ==> DESCENDING(Rest(ls, v)[i], Rest(ls, v)[j]);
  }

  lemma {:induction false} AmountsInsert(t: Target, ts: seq<Target>)
    ensures Amounts(InsertBy(SMALLER_TARGET, t, ts)) == Amounts(ts) + multiset{t.amount}
  {
    if ts != [] && !SMALLER_TARGET(t, ts[0]) {
      AmountsInsert(t, ts[1..]);
    }
  }

  lemma {:induction false} AmountsSort(ts: seq<Target>)
    ensures Amounts(SortBy(SMALLER_TARGET, ts)) == Amounts(ts)
  {
    if ts != [] {
      AmountsSort(ts[1..]);
      AmountsInsert(ts[0], SortBy(SMALLER_TARGET, ts[1..]));
    }
  }

  lemma {:induction false} AmountsAreTargets(ts: seq<Target>, targets: seq<nat>)
    requires |ts| == |targets| && forall i :: 0 <= i < |ts| ==> ts[i].amount == targets[i]
    ensures Amounts(ts) == multiset(targets)
  {
    if ts != [] {
      AmountsAreTargets(ts[1..], targets[1..]);
      assert targets == [targets[0]] + targets[1..];
    }
  }

  /** With one available leaf per target, whatever else is available, selection succeeds. */
  lemma OneLeafPerTargetIsEnough(available: seq<TreeNode>, targets: seq<nat>)
    requires multiset(targets) <= PositiveValues(available)
    ensures Found(available, targets)
  {
    PositiveSort(available);
    AmountsSort(Indexed(targets));
    AmountsAreTargets(Indexed(targets), targets);
    DescendingFromSort(available);
    FillOneLeafEach(SortBy(DESCENDING, available), Processing(targets));
    FoundMeansExact(available, targets);
  }
}
