/** Exactly when the greedy selection finds an exact choice whenever there is one: for every list over a
    set of allowed values, and for every single target over one list. */
module GreedyExactness {
  import opened ChainSelection
  import opened LeafCache
  import opened LeafSelection
  import opened Sorting

  /** Some disjoint choice of the leaves meets every target exactly. */
  ghost predicate Possible(ls: seq<TreeNode>, targets: seq<nat>)
  {
    exists c :: ExactChoice(ls, targets, c)
  }

  // ----- over allowed values

  ghost predicate HasValuesIn(ls: seq<TreeNode>, values: iset<nat>)
  {
    forall x :: x in ls ==> x.value in values
  }

  /** Of any two allowed values, the smaller one divides the larger one, unless it is worthless. */
  ghost predicate ChainOfValues(values: iset<nat>)
  {
    forall a, b :: a in values && b in values && a >= b > 0 ==> a % b == 0
  }

  /** No leaves of allowed values, and no targets, for which selection misses an exact choice. */
  ghost predicate NeverMisses(values: iset<nat>)
  {
    forall ls, targets :: UniqueIds(ls) && HasValuesIn(ls, values) && Possible(ls, targets) ==> Found(ls, targets)
  }

  function Name(i: nat): (r: LeafId)
    ensures |r| == i
  {
    seq(i, _ => 'l')
  }

  function Leaf(i: nat, value: nat): TreeNode { TreeNode(Name(i), value, NodeAvailable, 0) }

  function Copies(n: nat, value: nat): (r: seq<TreeNode>)
    ensures |r| == n && forall k :: 0 <= k < n ==> r[k] == Leaf(k + 1, value)
  {
    seq(n, k requires 0 <= k < n => Leaf(k + 1, value))
  }

  /** One leaf worth a, and one leaf worth b more than fits into it. */
  function OneAndCopies(a: nat, b: nat): seq<TreeNode>
    requires b > 0
  {
    [Leaf(0, a)] + Copies(a / b + 1, b)
  }

  lemma {:induction false} CopiesTooLarge(ls: seq<TreeNode>, value: nat, r: nat)
    requires r < value && forall x :: x in ls ==> x.value == value
    ensures Taken(ls, r) == []
  {
    if ls != [] {
      assert ls[0] in ls;
      CopiesTooLarge(ls[1..], value, r);
    }
  }

  lemma {:induction false} CopiesServe(ls: seq<TreeNode>, value: nat, c: Choice, j: int)
    requires forall x :: x in ls ==> x.value == value && At(c, x.id) == j
    ensures Served(ls, c, j) == |ls| * value
  {
    if ls != [] {
      assert ls[0] in ls;
      CopiesServe(ls[1..], value, c, j);
      assert |ls| * value == value + (|ls| - 1) * value;
    }
  }

  /** All the copies serve the first target. */
  function CopiesChosen(n: nat, value: nat): (c: Choice)
    ensures forall x :: x in Copies(n, value) ==> At(c, x.id) == 0
    ensures Leaf(0, value).id !in c
  {
    map x | x in Copies(n, value) :: x.id := 0
  }

  lemma CopiesServeTarget(a: nat, b: nat, target: nat)
    requires b > 0 && target == (a / b + 1) * b
    ensures Possible(OneAndCopies(a, b), [target])
  {
    var ls, c := OneAndCopies(a, b), CopiesChosen(a / b + 1, b);
    CopiesServe(Copies(a / b + 1, b), b, c, 0);
    hide CopiesChosen, Copies;
    assert ls[1..] == Copies(a / b + 1, b);
    assert Served(ls, c, 0) == target;
    hide *;
    OneServed(ls, target, c);
  }

  lemma OneServed(ls: seq<TreeNode>, target: nat, c: Choice)
    requires Served(ls, c, 0) == target
    ensures Possible(ls, [target])
  {
    assert ExactChoice(ls, [target], c);
  }

  lemma OneAndCopiesSorted(a: nat, b: nat)
    requires a >= b > 0
    ensures UniqueIds(OneAndCopies(a, b)) && SortBy(DESCENDING, OneAndCopies(a, b)) == OneAndCopies(a, b)
  {
    var ls := OneAndCopies(a, b);
    assert forall k :: 0 <= k < |ls| ==> ls[k] == Leaf(k, if k == 0 then a else b);
    SortedStays(DESCENDING, ls);
  }

  lemma NextMultiple(a: nat, b: nat)
    requires b > 0 && a % b != 0
    ensures a < (a / b + 1) * b < a + b
  {
    assert a == (a / b) * b + a % b;
    assert (a / b + 1) * b == (a / b) * b + b;
  }

  lemma TakesOnlyTheOne(a: nat, b: nat, target: nat)
    requires b > 0 && a <= target < a + b
    ensures Value(Taken(OneAndCopies(a, b), target)) == a
  {
    var ls, copies := OneAndCopies(a, b), Copies(a / b + 1, b);
    assert ls[1..] == copies;
    CopiesTooLarge(copies, b, target - a);
    assert [ls[0]][1..] == [];
  }

  /** Without divisibility the greedy scan misses: it takes the one leaf worth a first, and then no leaf
      worth b fits into what is left of the next multiple of b, which those leaves alone would meet. */
  lemma GreedyMissesWithoutChain(a: nat, b: nat, target: nat)
    requires a > b > 0 && a % b != 0 && target == (a / b + 1) * b
    ensures UniqueIds(OneAndCopies(a, b)) && forall x :: x in OneAndCopies(a, b) ==> x.value == a || x.value == b
    ensures Possible(OneAndCopies(a, b), [target]) && !Found(OneAndCopies(a, b), [target])
  {
    OneAndCopiesSorted(a, b);
    CopiesServeTarget(a, b, target);
    NextMultiple(a, b);
    TakesOnlyTheOne(a, b, target);
    SingleTarget(OneAndCopies(a, b), target);
    hide SortBy, Found, Possible, Taken, Value, UniqueIds;
  }

  /** Over a set of allowed values, selection finds every exact choice, whatever the leaves and the
      targets, exactly when the values form a divisibility chain. */
  lemma NeverMissesExactly(values: iset<nat>)
    ensures NeverMisses(values) <==> ChainOfValues(values)
  {
    if ChainOfValues(values) {
      forall ls, targets | UniqueIds(ls) && HasValuesIn(ls, values) && Possible(ls, targets) ensures Found(ls, targets) {
        FoundExactlyWhenPossible(ls, targets);
      }
    }
    if NeverMisses(values) {
      forall a, b | a in values && b in values && a >= b > 0 ensures a % b == 0 {
        if a % b != 0 {
          GreedyMissesWithoutChain(a, b, (a / b + 1) * b);
          assert HasValuesIn(OneAndCopies(a, b), values);
          assert false;
        }
      }
    }
  }

  // ----- over one list, for a single target

  /** Some of the leaves are worth exactly s. */
  predicate SubSum(ls: seq<TreeNode>, s: int)
  {
    if ls == [] then s == 0 else SubSum(ls[1..], s) || SubSum(ls[1..], s - ls[0].value)
  }

  /** Whatever the smaller leaves are worth together, if it is enough for a leaf's own worth then they can
      also be worth that much less: taking the leaf first never does harm. */
  ghost predicate Exchangeable(ls: seq<TreeNode>)
  {
    ls == [] || (Exchangeable(ls[1..]) && Spares(ls[1..], ls[0].value))
  }

  ghost predicate Spares(ls: seq<TreeNode>, v: nat)
  {
    forall s: nat :: s >= v && SubSum(ls, s) ==> SubSum(ls, s - v)
  }

  /** Scanning this list meets every amount that some of its leaves are worth. */
  ghost predicate ScanMeetsAll(ls: seq<TreeNode>)
  {
    forall t: nat :: SubSum(ls, t) ==> Value(Taken(ls, t)) == t
  }

  lemma {:induction false} SubSumNonNegative(ls: seq<TreeNode>, s: int)
    requires SubSum(ls, s)
    ensures s >= 0
  {
    if ls != [] {
      if SubSum(ls[1..], s) { SubSumNonNegative(ls[1..], s); } else { SubSumNonNegative(ls[1..], s - ls[0].value); }
    }
  }

  lemma {:induction false} TakenIsSubSum(ls: seq<TreeNode>, r: nat)
    ensures SubSum(ls, Value(Taken(ls, r)))
  {
    if ls != [] {
      TakenIsSubSum(ls[1..], if r >= ls[0].value then r - ls[0].value else r);
    }
  }

  lemma {:induction false} ScanMeetsAllExactly(ls: seq<TreeNode>)
    ensures ScanMeetsAll(ls) <==> Exchangeable(ls)
  {
    if ls != [] {
      ScanMeetsAllExactly(ls[1..]);
      if Exchangeable(ls) { ExchangeableMeets(ls); }
      if ScanMeetsAll(ls) { MeetsExchangeable(ls); }
    }
  }

  lemma FirstOrLater(ls: seq<TreeNode>, s: int)
    requires ls != []
    ensures SubSum(ls, s) <==> SubSum(ls[1..], s) || SubSum(ls[1..], s - ls[0].value)
    ensures s >= ls[0].value ==> Value(Taken(ls, s)) == ls[0].value + Value(Taken(ls[1..], s - ls[0].value))
    ensures 0 <= s < ls[0].value ==> Value(Taken(ls, s)) == Value(Taken(ls[1..], s))
  {
  }

  lemma SparesOne(ls: seq<TreeNode>, v: nat, s: int)
    requires Spares(ls, v) && s >= v && SubSum(ls, s)
    ensures SubSum(ls, s - v)
  {
  }

  lemma MeetsOne(ls: seq<TreeNode>, t: nat)
    requires ScanMeetsAll(ls) && SubSum(ls, t)
    ensures Value(Taken(ls, t)) == t
  {
  }

  lemma ExchangeableMeets(ls: seq<TreeNode>)
    requires ls != [] && Exchangeable(ls) && ScanMeetsAll(ls[1..])
    ensures ScanMeetsAll(ls)
  {
    var v, tail := ls[0].value, ls[1..];
    forall t: nat | SubSum(ls, t) ensures Value(Taken(ls, t)) == t {
      assert Spares(tail, v);
      hide *;
      FirstOrLater(ls, t);
      if t >= v {
        if SubSum(tail, t) { SparesOne(tail, v, t); }
        MeetsOne(tail, t - v);
      } else {
        if SubSum(tail, t - v) { SubSumNonNegative(tail, t - v); }
        MeetsOne(tail, t);
      }
    }
  }

  lemma MeetsExchangeable(ls: seq<TreeNode>)
    requires ls != [] && ScanMeetsAll(ls) && (ScanMeetsAll(ls[1..]) <==> Exchangeable(ls[1..]))
    ensures Exchangeable(ls)
  {
    hide SubSum, Taken, Value;
    var v, tail := ls[0].value, ls[1..];
    forall t: nat | SubSum(tail, t) ensures Value(Taken(tail, t)) == t {
      FirstOrLater(ls, t + v);
      MeetsOne(ls, t + v);
    }
    forall s: nat | s >= v && SubSum(tail, s) ensures SubSum(tail, s - v) {
      FirstOrLater(ls, s);
      MeetsOne(ls, s);
      TakenIsSubSum(tail, s - v);
    }
  }

  lemma {:induction false} ChoiceIsSubSum(ls: seq<TreeNode>, c: Choice, j: int)
    ensures SubSum(ls, Served(ls, c, j))
  {
    if ls != [] {
      ChoiceIsSubSum(ls[1..], c, j);
    }
  }

  lemma {:induction false} SubSumIsChoice(ls: seq<TreeNode>, s: int, j: int) returns (c: Choice)
    requires UniqueIds(ls) && SubSum(ls, s) && j != -1
    ensures Served(ls, c, j) == s
    ensures forall id :: id in c ==> exists x :: x in ls && x.id == id
  {
    if ls == [] {
      c := map[];
    } else {
      var x, tail := ls[0], ls[1..];
      PairwiseTail(DIFFERENT_IDS, ls);
      if SubSum(tail, s) {
        c := SubSumIsChoice(tail, s, j);
        assert x.id !in c;
      } else {
        var rest := SubSumIsChoice(tail, s - x.value, j);
        c := rest[x.id := j];
        ServedDependsOnMembers(tail, c, rest, j);
      }
    }
  }

  lemma PossibleIsSubSum(available: seq<TreeNode>, t: nat)
    requires UniqueIds(available)
    ensures Possible(available, [t]) <==> SubSum(SortBy(DESCENDING, available), t)
  {
    var sorted := SortBy(DESCENDING, available);
    SortUnique(available);
    hide SortBy, SubSum, UniqueIds;
    if c :| ExactChoice(available, [t], c) {
      SortServed(available, c, 0);
      ChoiceIsSubSum(sorted, c, 0);
    }
    if SubSum(sorted, t) {
      var c := SubSumIsChoice(sorted, t, 0);
      SortServed(available, c, 0);
      OneServed(available, t, c);
    }
  }

  /** For a single target over these leaves: selection finds every exact choice, whatever the amount,
      exactly when every leaf can be exchanged for smaller ones. */
  lemma NeverMissesOneTargetExactly(available: seq<TreeNode>)
    requires UniqueIds(available)
    ensures (forall t: nat :: Possible(available, [t]) ==> Found(available, [t])) <==> Exchangeable(SortBy(DESCENDING, available))
  {
    var sorted := SortBy(DESCENDING, available);
    ScanMeetsAllExactly(sorted);
    hide SortBy, Possible, Found, SubSum, Exchangeable, UniqueIds;
    forall t: nat ensures (Possible(available, [t]) ==> Found(available, [t])) <==> (SubSum(sorted, t) ==> Value(Taken(sorted, t)) == t) {
      PossibleIsSubSum(available, t);
      SingleTarget(available, t);
    }
  }

  // ----- over one list, for several targets

  ghost predicate FourToOne(ls: seq<TreeNode>)
  {
    |ls| == 4 && UniqueIds(ls) && forall i :: 0 <= i < 4 ==> ls[i].value == 4 - i
  }

  lemma FourExchange(ls: seq<TreeNode>)
    requires FourToOne(ls)
    ensures Exchangeable(ls)
  {
    var three, two, one := ls[1..], ls[2..], ls[3..];
    assert three[1..] == two && two[1..] == one && one[1..] == [];
    forall s: int ensures SubSum(one, s) <==> s == 0 || s == 1 { }
    forall s: int ensures SubSum(two, s) <==> 0 <= s <= 3 { }
    forall s: int ensures SubSum(three, s) <==> 0 <= s <= 6 { }
    assert Exchangeable([]) && Spares([], 1);
    assert Exchangeable(one) && Spares(one, 2);
    assert Exchangeable(two) && Spares(two, 3);
    assert Exchangeable(three) && Spares(three, 4);
  }

  lemma FourTaken(ls: seq<TreeNode>, small: nat, large: nat)
    requires FourToOne(ls) && small == 1 && large == 5
    ensures Taken(ls, small) == [ls[3]] && Rest(ls, small) == ls[..3]
    ensures Taken(ls[..3], large) == [ls[0]]
  {
    var three, two, one := ls[1..], ls[2..], ls[3..];
    assert three[1..] == two && two[1..] == one && one[1..] == [];
    assert Taken(one, 1) == one && Rest(one, 1) == [];
    assert Taken(two, 1) == one && Rest(two, 1) == [ls[2]];
    assert Taken(three, 1) == one && Rest(three, 1) == [ls[1], ls[2]];
    assert ls[..3] == [ls[0], ls[1], ls[2]] && ls[..3][1..] == [ls[1], ls[2]] && ls[..3][1..][1..] == [ls[2]];
    assert Taken([ls[2]], 1) == [];
    assert Taken(ls[..3][1..], 1) == [];
  }

  lemma FourFilled(ls: seq<TreeNode>, small: nat, large: nat)
    requires FourToOne(ls) && small == 1 && large == 5
    ensures BatchTotal(Fill(ls, [Target(small, 0), Target(large, 1)])) == 5
  {
    var ts, batches := [Target(small, 0), Target(large, 1)], [[ls[3]], [ls[0]]];
    FourTaken(ls, small, large);
    hide Taken, Rest;
    assert ts[1..] == [Target(large, 1)] && ts[1..][1..] == [];
    assert Fill(ls[..3], ts[1..]) == [[ls[0]]];
    assert Fill(ls, ts) == [[ls[3]]] + [[ls[0]]] == batches;
    assert batches[1..] == [[ls[0]]] && batches[1..][1..] == [];
    assert [ls[3]][1..] == [] && [ls[0]][1..] == [];
    assert ls[0].value == 4 && ls[3].value == 1;
    assert Value([ls[3]]) == 1 && Value([ls[0]]) == 4;
    assert BatchTotal(batches[1..]) == 4;
  }

  lemma FourServe(ls: seq<TreeNode>, small: nat, large: nat)
    requires FourToOne(ls) && small == 1 && large == 5
    ensures Possible(ls, [small, large])
  {
    assert forall i, j :: 0 <= i < j < 4 ==> DIFFERENT_IDS(ls[i], ls[j]);
    var c: Choice := map[ls[3].id := 0, ls[1].id := 1, ls[2].id := 1];
    var three, two, one := ls[1..], ls[2..], ls[3..];
    assert three[1..] == two && two[1..] == one && one[1..] == [];
    assert At(c, ls[0].id) == -1 && At(c, ls[1].id) == At(c, ls[2].id) == 1 && At(c, ls[3].id) == 0;
    assert Served([], c, 0) == 0 && Served([], c, 1) == 0;
    assert Served(one, c, 0) == 1 && Served(one, c, 1) == 0;
    assert Served(two, c, 0) == 1 && Served(two, c, 1) == 2;
    assert Served(three, c, 0) == 1 && Served(three, c, 1) == 5;
    assert ExactChoice(ls, [small, large], c);
  }

  lemma TwoTargets(small: nat, large: nat)
    requires small <= large
    ensures Processing([small, large]) == [Target(small, 0), Target(large, 1)]
    ensures Sum([small, large]) == small + large
  {
    var ts := [Target(small, 0), Target(large, 1)];
    assert Indexed([small, large]) == ts;
    SortedStays(SMALLER_TARGET, ts);
    var sums := [small, large];
    assert sums[1..] == [large] && sums[1..][1..] == [];
    assert Sum(sums[1..]) == large;
  }

  /** Over one list the exchange condition does not reach beyond a single target: leaves worth 4, 3, 2 and
      1 satisfy it, but for 1 and 5 the scan spends the 1 and then lacks it beside the 4. */
  lemma ExchangeableMissesTwoTargets(ls: seq<TreeNode>, small: nat, large: nat)
    requires FourToOne(ls) && small == 1 && large == 5
    ensures Exchangeable(SortBy(DESCENDING, ls)) && Possible(ls, [small, large]) && !Found(ls, [small, large])
  {
    SortedStays(DESCENDING, ls);
    FourExchange(ls);
    FourServe(ls, small, large);
    TwoTargets(small, large);
    FourFilled(ls, small, large);
    hide SortBy, Fill, Possible, Exchangeable, Processing, BatchTotal, Sum, FourToOne;
  }
}
