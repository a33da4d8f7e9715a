/** When the leaf values form a divisibility chain, the greedy selection misses no exact solution. */
module ChainSelection {
  import opened LeafCache
  import opened LeafSelection
  import opened ModArith
  import opened Sorting

  /** A disjoint choice of leaves: each leaf serves at most one target index. */
  type Choice = map<LeafId, int>

  function At(c: Choice, id: LeafId): int
  {
    if id in c then c[id] else -1
  }

  /** The value of the leaves that serve j. */
  function Served(ls: seq<TreeNode>, c: Choice, j: int): nat
  {
    if ls == [] then 0 else (if At(c, ls[0].id) == j then ls[0].value else 0) + Served(ls[1..], c, j)
  }

  ghost predicate ExactChoice(ls: seq<TreeNode>, targets: seq<nat>, c: Choice)
  {
    forall j :: 0 <= j < |targets| ==> Served(ls, c, j) == targets[j]
  }

  /** Of any two values, one divides the other (zero is divided by everything). */
  ghost predicate DivisibilityChain(ls: seq<TreeNode>)
  {
    forall x, y :: x in ls && y in ls && x.value >= y.value ==> DIVISIBLE(x, y)
  }

  /** The two choices agree outside ls. */
  ghost predicate SameElsewhere(c: Choice, d: Choice, ls: seq<TreeNode>)
  {
    forall id :: (forall x :: x in ls ==> x.id != id) ==> At(c, id) == At(d, id)
  }

  lemma {:induction false} ServedDependsOnMembers(ls: seq<TreeNode>, c: Choice, d: Choice, j: int)
    requires forall x :: x in ls ==> At(c, x.id) == At(d, x.id)
    ensures Served(ls, c, j) == Served(ls, d, j)
  {
    if ls != [] {
      ServedDependsOnMembers(ls[1..], c, d, j);
    }
  }

  lemma DividesDifference(v: int, w: int, y: int)
    requires y > 0 && v % y == 0 && w % y == 0
    ensures (v - w) % y == 0
  {
    assert v - w == y * (v / y - w / y) by {
      assert v == y * (v / y) && w == y * (w / y);
      assert y * (v / y - w / y) == y * (v / y) - y * (w / y);
    }
    MultipleIsZero(v / y - w / y, y);
  }

  /** The worth of every leaf divides v. */
  ghost predicate AllDivide(ls: seq<TreeNode>, v: int)
  {
    forall x :: x in ls && x.value > 0 ==> v % x.value == 0
  }

  /** Taking the head of a chain of divisors off v leaves a value the tail divides. */
  lemma TailDivides(ls: seq<TreeNode>, v: nat)
    requires ls != [] && Pairwise(DIVISIBLE, ls) && AllDivide(ls, v)
    ensures AllDivide(ls[1..], v)
    ensures v > 0 && ls[0].value > 0 ==> ls[0].value <= v && AllDivide(ls[1..], v - ls[0].value)
  {
    if v > 0 && ls[0].value > 0 {
      assert ls[0] in ls;
      forall y | y in ls[1..] && y.value > 0 ensures (v - ls[0].value) % y.value == 0 {
        assert y in ls && DIVISIBLE(ls[0], y);
        DividesDifference(v, ls[0].value, y.value);
      }
    }
  }

  /** Leaves that serve j and whose values divide v in a descending chain: some of them are worth
      exactly v, and can be handed over to k. */
  lemma {:induction false} HandOver(ls: seq<TreeNode>, c: Choice, j: int, k: int, v: nat) returns (d: Choice)
    requires UniqueIds(ls) && Pairwise(DIVISIBLE, ls) && j != k
    requires AllDivide(ls, v) && Served(ls, c, j) >= v
    ensures Served(ls, d, j) == Served(ls, c, j) - v
    ensures Served(ls, d, k) == Served(ls, c, k) + v
    ensures forall i :: i != j && i != k ==> Served(ls, d, i) == Served(ls, c, i)
    ensures SameElsewhere(c, d, ls)
  {
    hide AllDivide;
    if ls == [] || v == 0 {
      d := c;
    } else {
      var x, tail := ls[0], ls[1..];
      PairwiseTail(DIFFERENT_IDS, ls);
      PairwiseTail(DIVISIBLE, ls);
      TailDivides(ls, v);
      if At(c, x.id) == j && x.value > 0 {
        var c1 := c[x.id := k];
        forall i ensures Served(tail, c1, i) == Served(tail, c, i) {
          ServedDependsOnMembers(tail, c, c1, i);
        }
        d := HandOver(tail, c1, j, k, v - x.value);
      } else {
        d := HandOver(tail, c, j, k, v);
      }
      assert At(d, x.id) == if At(c, x.id) == j && x.value > 0 then k else At(c, x.id);
    }
  }

  /** The exchange at the head of the list: the head serves j exactly when the scan takes it. */
  lemma ExchangeFirst(ls: seq<TreeNode>, c: Choice, j: int) returns (d: Choice)
    requires ls != [] && UniqueIds(ls) && Pairwise(DIVISIBLE, ls)
    ensures At(d, ls[0].id) == j <==> Served(ls, c, j) >= ls[0].value
    ensures forall i :: Served(ls, d, i) == Served(ls, c, i)
    ensures SameElsewhere(c, d, ls)
  {
    var x, tail := ls[0], ls[1..];
    if Served(ls, c, j) >= x.value && At(c, x.id) != j {
      PairwiseTail(DIFFERENT_IDS, ls);
      PairwiseTail(DIVISIBLE, ls);
      forall y | y in tail && y.value > 0 ensures x.value % y.value == 0 {
        assert DIVISIBLE(x, y);
      }
      var c0 := HandOver(tail, c, j, At(c, x.id), x.value);
      assert At(c0, x.id) == At(c, x.id);
      d := c0[x.id := j];
      forall i ensures Served(ls, d, i) == Served(ls, c, i) {
        ServedDependsOnMembers(tail, c0, d, i);
      }
    } else {
      d := c;
    }
  }

  /** The exchange argument: a choice that serves j exactly can be rearranged, without changing what
      any target receives, so that j is served by precisely the leaves the greedy scan takes. */
  lemma {:induction false} Exchange(ls: seq<TreeNode>, c: Choice, j: int) returns (d: Choice)
    requires UniqueIds(ls) && Pairwise(DIVISIBLE, ls)
    ensures forall i :: Served(ls, d, i) == Served(ls, c, i)
    ensures forall x :: x in ls ==> (At(d, x.id) == j <==> x in Taken(ls, Served(ls, c, j)))
    ensures SameElsewhere(c, d, ls)
  {
    if ls == [] {
      d := c;
    } else {
      var r := Served(ls, c, j);
      var c1 := ExchangeFirst(ls, c, j);
      PairwiseTail(DIFFERENT_IDS, ls);
      PairwiseTail(DIVISIBLE, ls);
      assert Served(ls[1..], c1, j) == if r >= ls[0].value then r - ls[0].value else r by {
        assert Served(ls, c1, j) == r;
      }
      d := Exchange(ls[1..], c1, j);
      ExchangeHead(ls, c1, d, j, r);
    }
  }

  lemma ExchangeHead(ls: seq<TreeNode>, c: Choice, d: Choice, j: int, r: nat)
    requires ls != [] && UniqueIds(ls) && SameElsewhere(c, d, ls[1..])
    requires At(c, ls[0].id) == j <==> r >= ls[0].value
    requires forall i :: Served(ls[1..], d, i) == Served(ls[1..], c, i)
    requires forall x :: x in ls[1..] ==> (At(d, x.id) == j <==> x in Taken(ls[1..], if r >= ls[0].value then r - ls[0].value else r))
    ensures forall i :: Served(ls, d, i) == Served(ls, c, i)
    ensures forall x :: x in ls ==> (At(d, x.id) == j <==> x in Taken(ls, r))
  {
    PairwiseTail(DIFFERENT_IDS, ls);
    assert At(d, ls[0].id) == At(c, ls[0].id);
    RestMembers(ls[1..], if r >= ls[0].value then r - ls[0].value else r);
    assert ls[0] !in ls[1..];
  }

  /** Once j is served by exactly the taken leaves, the other targets are served from the rest. */
  lemma {:induction false} RestServes(ls: seq<TreeNode>, d: Choice, j: int, r: nat, i: int)
    requires UniqueIds(ls) && i != j
    requires forall x :: x in ls ==> (At(d, x.id) == j <==> x in Taken(ls, r))
    ensures Served(Rest(ls, r), d, i) == Served(ls, d, i)
  {
    if ls != [] {
      TailTaken(ls, d, j, r);
      RestServes(ls[1..], d, j, if r >= ls[0].value then r - ls[0].value else r, i);
    }
  }

  lemma {:induction false} TakenServes(ls: seq<TreeNode>, d: Choice, j: int, r: nat)
    requires UniqueIds(ls)
    requires forall x :: x in ls ==> (At(d, x.id) == j <==> x in Taken(ls, r))
    ensures Value(Taken(ls, r)) == Served(ls, d, j)
  {
    if ls != [] {
      TailTaken(ls, d, j, r);
      TakenServes(ls[1..], d, j, if r >= ls[0].value then r - ls[0].value else r);
    }
  }

  lemma TailTaken(ls: seq<TreeNode>, d: Choice, j: int, r: nat)
    requires ls != [] && UniqueIds(ls)
    requires forall x :: x in ls ==> (At(d, x.id) == j <==> x in Taken(ls, r))
    ensures UniqueIds(ls[1..])
    ensures At(d, ls[0].id) == j <==> r >= ls[0].value
    ensures var r' := if r >= ls[0].value then r - ls[0].value else r;
      forall x :: x in ls[1..] ==> (At(d, x.id) == j <==> x in Taken(ls[1..], r'))
  {
    var r' := if r >= ls[0].value then r - ls[0].value else r;
    PairwiseTail(DIFFERENT_IDS, ls);
    RestMembers(ls[1..], r');
    assert ls[0] !in ls[1..];
    assert forall x :: x in ls[1..] ==> x in ls && x != ls[0];
  }

  lemma {:induction false} FillFindsChoice(ls: seq<TreeNode>, ts: seq<Target>, c: Choice)
    requires UniqueIds(ls) && Pairwise(DIVISIBLE, ls)
    requires forall k :: 0 <= k < |ts| ==> Served(ls, c, ts[k].index) == ts[k].amount
    requires forall k, l :: 0 <= k < l < |ts| ==> ts[k].index != ts[l].index
    ensures EachExact(Fill(ls, ts), ts)
    decreases ts
  {
    if ts != [] {
      var j, r, tail := ts[0].index, ts[0].amount, ts[1..];
      var d := Exchange(ls, c, j);
      assert Served(ls, c, j) == r;
      forall k | 0 <= k < |tail| ensures Served(Rest(ls, r), d, tail[k].index) == tail[k].amount {
        assert tail[k] == ts[k + 1];
        RestServes(ls, d, j, r, tail[k].index);
      }
      TakenServes(ls, d, j, r);
      RestPairwise(DIFFERENT_IDS, ls, r);
      RestPairwise(DIVISIBLE, ls, r);
      FillFindsChoice(Rest(ls, r), tail, d);
    }
  }

  // ----- from the processing order back to the caller's lists

  lemma {:induction false} InsertUnique(x: TreeNode, s: seq<TreeNode>)
    requires UniqueIds(s) && forall y :: y in s ==> y.id != x.id
    ensures UniqueIds(InsertBy(DESCENDING, x, s))
  {
    if s == [] || DESCENDING(x, s[0]) {
      PairwiseTail(DIFFERENT_IDS, [x] + s);
    } else {
      PairwiseTail(DIFFERENT_IDS, s);
      InsertUnique(x, s[1..]);
      var r := InsertBy(DESCENDING, x, s[1..]);
      forall y | y in r ensures DIFFERENT_IDS(s[0], y) {
        assert y in multiset(r);
      }
      assert InsertBy(DESCENDING, x, s)[1..] == r;
      PairwiseTail(DIFFERENT_IDS, InsertBy(DESCENDING, x, s));
    }
  }

  lemma {:induction false} SortUnique(s: seq<TreeNode>)
    requires UniqueIds(s)
    ensures UniqueIds(SortBy(DESCENDING, s))
  {
    if s != [] {
      PairwiseTail(DIFFERENT_IDS, s);
      SortUnique(s[1..]);
      SameMembers(DESCENDING, s[1..]);
      InsertUnique(s[0], SortBy(DESCENDING, s[1..]));
    }
  }

  lemma {:induction false} InsertServed(x: TreeNode, s: seq<TreeNode>, c: Choice, j: int)
    ensures Served(InsertBy(DESCENDING, x, s), c, j) == Served([x] + s, c, j)
  {
    if s != [] && !DESCENDING(x, s[0]) {
      InsertServed(x, s[1..], c, j);
      assert ([x] + s)[1..] == s && ([x] + s[1..])[1..] == s[1..];
    }
  }

  lemma {:induction false} SortServed(s: seq<TreeNode>, c: Choice, j: int)
    ensures Served(SortBy(DESCENDING, s), c, j) == Served(s, c, j)
  {
    if s != [] {
      var t := SortBy(DESCENDING, s[1..]);
      SortServed(s[1..], c, j);
      InsertServed(s[0], t, c, j);
      assert ([s[0]] + t)[1..] == t;
    }
  }

  lemma SortChain(s: seq<TreeNode>)
    requires DivisibilityChain(s)
    ensures Pairwise(DIVISIBLE, SortBy(DESCENDING, s))
  {
    var t := SortBy(DESCENDING, s);
    SortIsSorted(DESCENDING, s);
    SameMembers(DESCENDING, s);
    forall i, j | 0 <= i < j < |t| ensures DIVISIBLE(t[i], t[j]) {
      assert DESCENDING(t[i], t[j]);
      assert t[i] in s && t[j] in s;
    }
  }

  ghost predicate DistinctTargets(ts: seq<Target>)
  {
    forall k, l :: 0 <= k < l < |ts| ==> ts[k].index != ts[l].index
  }

  lemma {:induction false} InsertDistinct(t: Target, ts: seq<Target>)
    requires DistinctTargets(ts) && forall u :: u in ts ==> u.index != t.index
    ensures DistinctTargets(InsertBy(SMALLER_TARGET, t, ts))
  {
    if ts != [] && !SMALLER_TARGET(t, ts[0]) {
      InsertDistinct(t, ts[1..]);
      var r := InsertBy(SMALLER_TARGET, t, ts[1..]);
      forall u | u in r ensures u.index != ts[0].index {
        assert u in multiset(r);
      }
    }
  }

  lemma {:induction false} SortDistinct(ts: seq<Target>)
    requires DistinctTargets(ts)
    ensures DistinctTargets(SortBy(SMALLER_TARGET, ts))
  {
    if ts != [] {
      SortDistinct(ts[1..]);
      SameMembers(SMALLER_TARGET, ts[1..]);
      InsertDistinct(ts[0], SortBy(SMALLER_TARGET, ts[1..]));
    }
  }

  /** The processing order holds each target exactly once, under its own index. */
  lemma ProcessingIsPermutation(targets: seq<nat>)
    ensures DistinctTargets(Processing(targets))
    ensures forall k :: 0 <= k < |targets| ==>
      Processing(targets)[k].index < |targets| && Processing(targets)[k].amount == targets[Processing(targets)[k].index]
    ensures forall j :: 0 <= j < |targets| ==> Target(targets[j], j) in Processing(targets)
  {
    var ts := Indexed(targets);
    SortDistinct(ts);
    SameMembers(SMALLER_TARGET, ts);
    forall j | 0 <= j < |targets| ensures Target(targets[j], j) in ts {
      assert ts[j] == Target(targets[j], j);
    }
    forall k | 0 <= k < |targets| ensures Processing(targets)[k] in ts {
      assert Processing(targets)[k] in Processing(targets);
    }
  }

  /** Conversely, exact batches are a disjoint choice. */
  lemma {:induction false} ChoiceFromFill(ls: seq<TreeNode>, ts: seq<Target>) returns (c: Choice)
    requires UniqueIds(ls) && DistinctTargets(ts)
    ensures forall k :: 0 <= k < |ts| ==> Served(ls, c, ts[k].index) == Value(Fill(ls, ts)[k])
    ensures forall id :: At(c, id) == -1 || exists k :: 0 <= k < |ts| && ts[k].index == At(c, id)
    decreases ts
  {
    hide Served, Value, Taken, Rest, Pairwise;
    if ts == [] {
      c := map[];
    } else {
      var j, r, tail, rest := ts[0].index, ts[0].amount, ts[1..], Rest(ls, ts[0].amount);
      RestPairwise(DIFFERENT_IDS, ls, r);
      var c0 := ChoiceFromFill(rest, tail);
      var taken := set x | x in Taken(ls, r) :: x.id;
      c := map id | id in c0.Keys + taken :: if id in taken then j as int else c0[id];
      TakenServedBy(ls, r, c0, c, j, taken);
      TakenServes(ls, c, j, r);
      forall k | 1 <= k < |ts| ensures Served(ls, c, ts[k].index) == Value(Fill(ls, ts)[k]) {
        assert tail[k - 1] == ts[k];
        TakenApartFromRest(ls, r);
        RestServes(ls, c, j, r, ts[k].index);
        ServedDependsOnMembers(rest, c0, c, ts[k].index);
      }
      forall id ensures At(c, id) == -1 || exists k :: 0 <= k < |ts| && ts[k].index == At(c, id) {
        if id !in taken && At(c, id) != -1 {
          var k :| 0 <= k < |tail| && tail[k].index == At(c0, id);
          assert ts[k + 1].index == At(c, id);
        }
      }
    }
  }

  lemma TakenServedBy(ls: seq<TreeNode>, r: nat, c0: Choice, c: Choice, j: nat, taken: set<LeafId>)
    requires UniqueIds(ls) && forall id :: At(c0, id) != j
    requires forall id :: id in taken <==> exists x :: x in Taken(ls, r) && x.id == id
    requires forall id :: At(c, id) == if id in taken then j else At(c0, id)
    ensures forall x :: x in ls ==> (At(c, x.id) == j <==> x in Taken(ls, r))
  {
    RestMembers(ls, r);
    forall x | x in ls && x.id in taken ensures x in Taken(ls, r) {
      var y :| y in Taken(ls, r) && y.id == x.id;
      assert y in ls;
      SameIdSameLeaf(ls, x, y);
    }
  }

  lemma SameIdSameLeaf(ls: seq<TreeNode>, x: TreeNode, y: TreeNode)
    requires UniqueIds(ls) && x in ls && y in ls && x.id == y.id
    ensures x == y
  {
    var i :| 0 <= i < |ls| && ls[i] == x;
    var j :| 0 <= j < |ls| && ls[j] == y;
    assert i == j;
  }

  /** On a divisibility chain, `selectLeaves` reports success exactly when some disjoint choice of
      available leaves meets every target exactly. */
  lemma FoundExactlyWhenPossible(available: seq<TreeNode>, targets: seq<nat>)
    requires UniqueIds(available) && DivisibilityChain(available)
    ensures Found(available, targets) <==> exists c :: ExactChoice(available, targets, c)
  {
    var ls, ts := SortBy(DESCENDING, available), Processing(targets);
    SortUnique(available);
    ProcessingIsPermutation(targets);
    FoundMeansExact(available, targets);
    if c :| ExactChoice(available, targets, c) {
      SortChain(available);
      forall k | 0 <= k < |ts| ensures Served(ls, c, ts[k].index) == ts[k].amount {
        SortServed(available, c, ts[k].index);
      }
      FillFindsChoice(ls, ts, c);
    }
    if Found(available, targets) {
      FoundGivesChoice(available, targets);
    }
  }

  /** A reported success is a disjoint exact choice, chain or not. */
  lemma FoundGivesChoice(available: seq<TreeNode>, targets: seq<nat>)
    requires UniqueIds(available) && Found(available, targets)
    ensures exists c :: ExactChoice(available, targets, c)
  {
    var ls, ts := SortBy(DESCENDING, available), Processing(targets);
    SortUnique(available);
    ProcessingIsPermutation(targets);
    FoundMeansExact(available, targets);
    var c := ChoiceFromFill(ls, ts);
    forall j | 0 <= j < |targets| ensures Served(available, c, j) == targets[j] {
      var k :| 0 <= k < |ts| && ts[k] == Target(targets[j], j);
      SortServed(available, c, j);
    }
    assert ExactChoice(available, targets, c);
  }

  lemma SingleTarget(available: seq<TreeNode>, amount: nat)
    ensures Found(available, [amount]) <==> Value(Taken(SortBy(DESCENDING, available), amount)) == amount
  {
    var t, taken := Target(amount, 0), Taken(SortBy(DESCENDING, available), amount);
    assert Indexed([amount]) == [t] && [t][1..] == [] && [amount][1..] == [];
    assert Processing([amount]) == [t];
    assert Batches(available, [amount]) == [taken] + Fill(Rest(SortBy(DESCENDING, available), amount), [t][1..]) == [taken];
    assert [taken][1..] == [];
    assert BatchTotal([taken]) == Value(taken);
    assert Sum([amount]) == amount;
  }
}
