/** Turning an optimisation plan, which only names values, into batches of cached leaves: leaves are
    bucketed by value and each planned value takes the next leaf of its bucket. */
module OptimizationPlan {
  import opened ChainSelection
  import opened LeafCache
  import opened LeafListing
  import opened LeafRuns
  import opened LeafSelection

  datatype PlannedSwap = PlannedSwap(inLeaves: seq<nat>, outLeaves: seq<nat>)

  type Buckets = map<nat, seq<TreeNode>>

  function ValuesOf(ls: seq<TreeNode>): (r: seq<nat>)
    ensures |r| == |ls| && forall i :: 0 <= i < |r| ==> r[i] == ls[i].value
  {
    seq(|ls|, i requires 0 <= i < |ls| => ls[i].value)
  }

  function Bucket(b: Buckets, v: nat): seq<TreeNode> { if v in b then b[v] else [] }

  /** The available leaves of one value, in cache order. */
  function OfValue(ls: seq<TreeNode>, v: nat): (r: seq<TreeNode>)
    ensures forall x :: x in r ==> x in ls && x.value == v
  {
    if ls == [] then []
    else
      var last := ls[|ls| - 1];
      OfValue(ls[..|ls| - 1], v) + (if last.value == v then [last] else [])
  }

  predicate InStock(ls: seq<TreeNode>, served: multiset<nat>, v: nat) { served[v] < |OfValue(ls, v)| }

  /** The next leaf of a value, when so many of each value are already taken. */
  function ServeOne(ls: seq<TreeNode>, served: multiset<nat>, v: nat): seq<TreeNode>
  {
    if InStock(ls, served, v) then [OfValue(ls, v)[served[v]]] else []
  }

  function CountOne(ls: seq<TreeNode>, served: multiset<nat>, v: nat): multiset<nat>
  {
    if InStock(ls, served, v) then served + multiset{v} else served
  }

  /** The leaves that serve a list of wanted values. */
  function Serve(ls: seq<TreeNode>, served: multiset<nat>, wanted: seq<nat>): seq<TreeNode>
    decreases wanted
  {
    if wanted == [] then [] else ServeOne(ls, served, wanted[0]) + Serve(ls, CountOne(ls, served, wanted[0]), wanted[1..])
  }

  function ServedAfter(ls: seq<TreeNode>, served: multiset<nat>, wanted: seq<nat>): multiset<nat>
    decreases wanted
  {
    if wanted == [] then served else ServedAfter(ls, CountOne(ls, served, wanted[0]), wanted[1..])
  }

  function AllWanted(swaps: seq<PlannedSwap>): seq<nat>
  {
    if swaps == [] then [] else swaps[0].inLeaves + AllWanted(swaps[1..])
  }

  function PlanBatches(ls: seq<TreeNode>, served: multiset<nat>, swaps: seq<PlannedSwap>): (r: seq<seq<TreeNode>>)
    ensures |r| == |swaps|
    decreases swaps
  {
    if swaps == [] then []
    else [Serve(ls, served, swaps[0].inLeaves)] + PlanBatches(ls, ServedAfter(ls, served, swaps[0].inLeaves), swaps[1..])
  }

  // ----- the bucket loops compute the plan

  ghost predicate Stock(b: Buckets, ls: seq<TreeNode>, served: multiset<nat>)
  {
    forall v: nat :: served[v] <= |OfValue(ls, v)| && Bucket(b, v) == OfValue(ls, v)[served[v]..]
  }

  /** `valueToNodes` */
  method FillBuckets(available: seq<TreeNode>) returns (buckets: Buckets)
    ensures Stock(buckets, available, multiset{})
  {
    buckets := map[];
    var i := 0;
    while i < |available|
      invariant i <= |available| && Stock(buckets, available[..i], multiset{})
    {
      var leaf := available[i];
      assert available[..i + 1][..i] == available[..i];
      ghost var before := buckets;
      buckets := buckets[leaf.value := Bucket(buckets, leaf.value) + [leaf]];
      assert forall v :: v != leaf.value ==> Bucket(buckets, v) == Bucket(before, v);
      i := i + 1;
    }
    assert available[..i] == available;
  }

  /** The batch so far and what remains to be wanted add up to the whole batch. */
  ghost predicate Taking(ls: seq<TreeNode>, served: multiset<nat>, wanted: seq<nat>, i: nat, sent: seq<TreeNode>, taken: multiset<nat>)
  {
    && i <= |wanted|
    && sent + Serve(ls, taken, wanted[i..]) == Serve(ls, served, wanted)
    && ServedAfter(ls, taken, wanted[i..]) == ServedAfter(ls, served, wanted)
  }

  lemma TakingStep(ls: seq<TreeNode>, served: multiset<nat>, wanted: seq<nat>, i: nat, sent: seq<TreeNode>, taken: multiset<nat>)
    requires Taking(ls, served, wanted, i, sent, taken) && i < |wanted|
    ensures Taking(ls, served, wanted, i + 1, sent + ServeOne(ls, taken, wanted[i]), CountOne(ls, taken, wanted[i]))
  {
    hide ServeOne, CountOne;
    assert wanted[i..][0] == wanted[i] && wanted[i..][1..] == wanted[i + 1..];
  }

  /** One planned swap: a value whose bucket is empty is skipped. */
  method TakeBatch(buckets: Buckets, inLeaves: seq<nat>, ghost ls: seq<TreeNode>, ghost served: multiset<nat>)
    returns (leavesToSend: seq<TreeNode>, buckets': Buckets)
    requires Stock(buckets, ls, served)
    ensures leavesToSend == Serve(ls, served, inLeaves) && Stock(buckets', ls, ServedAfter(ls, served, inLeaves))
  {
    hide OfValue, Stock;
    leavesToSend, buckets' := [], buckets;
    ghost var taken := served;
    assert inLeaves[0..] == inLeaves;
    var i := 0;
    while i < |inLeaves|
      invariant Stock(buckets', ls, taken) && Taking(ls, served, inLeaves, i, leavesToSend, taken)
    {
      var v := inLeaves[i];
      TakingStep(ls, served, inLeaves, i, leavesToSend, taken);
      StockTake(buckets', ls, taken, v);
      taken := CountOne(ls, taken, v);
      if v in buckets' && |buckets'[v]| > 0 {
        leavesToSend := leavesToSend + [buckets'[v][0]];
        buckets' := buckets'[v := buckets'[v][1..]];
      }
      i := i + 1;
    }
    assert inLeaves[i..] == [];
  }

  lemma StockTake(b: Buckets, ls: seq<TreeNode>, served: multiset<nat>, v: nat)
    requires Stock(b, ls, served)
    ensures InStock(ls, served, v) <==> v in b && |b[v]| > 0
    ensures InStock(ls, served, v) ==>
      ServeOne(ls, served, v) == [b[v][0]] && Stock(b[v := b[v][1..]], ls, CountOne(ls, served, v))
  {
    hide OfValue;
    assert Bucket(b, v) == OfValue(ls, v)[served[v]..];
    if InStock(ls, served, v) {
      var b', more := b[v := b[v][1..]], CountOne(ls, served, v);
      forall w: nat ensures more[w] <= |OfValue(ls, w)| && Bucket(b', w) == OfValue(ls, w)[more[w]..] {
        assert Bucket(b, w) == OfValue(ls, w)[served[w]..];
      }
    }
  }

  // ----- what the plan promises

  lemma {:induction false} OfValueUnique(ls: seq<TreeNode>, v: nat)
    requires UniqueIds(ls)
    ensures UniqueIds(OfValue(ls, v))
  {
    if ls != [] {
      var front, last := ls[..|ls| - 1], ls[|ls| - 1];
      OfValueUnique(front, v);
      forall y | y in OfValue(front, v) ensures y.id != last.id {
        var i :| 0 <= i < |front| && front[i] == y;
        assert DIFFERENT_IDS(ls[i], ls[|ls| - 1]);
      }
      AppendUnique(OfValue(front, v), last);
    }
  }

  /** x comes, among the leaves of its value, after those already served. */
  ghost predicate Later(ls: seq<TreeNode>, served: multiset<nat>, x: TreeNode)
  {
    exists k :: served[x.value] <= k < |OfValue(ls, x.value)| && OfValue(ls, x.value)[k] == x
  }

  lemma ServedBefore(ls: seq<TreeNode>, served: multiset<nat>, v: nat, y: TreeNode)
    requires UniqueIds(ls) && InStock(ls, served, v) && Later(ls, served + multiset{v}, y)
    ensures Later(ls, served, y) && y in ls && OfValue(ls, v)[served[v]].id != y.id
  {
    hide OfValue;
    var x := OfValue(ls, v)[served[v]];
    assert x in OfValue(ls, v);
    var k :| (served + multiset{v})[y.value] <= k < |OfValue(ls, y.value)| && OfValue(ls, y.value)[k] == y;
    assert y in OfValue(ls, y.value);
    if y.value == v {
      OfValueUnique(ls, v);
      assert DIFFERENT_IDS(OfValue(ls, v)[served[v]], OfValue(ls, v)[k]);
    } else if x.id == y.id {
      SameIdSameLeaf(ls, x, y);
    }
  }

  /** No leaf is planned twice, whatever the plan asks for. */
  lemma {:induction false} ServedOnce(ls: seq<TreeNode>, served: multiset<nat>, wanted: seq<nat>)
    requires UniqueIds(ls)
    ensures UniqueIds(Serve(ls, served, wanted))
    ensures forall x :: x in Serve(ls, served, wanted) ==> Later(ls, served, x)
    decreases wanted
  {
    hide OfValue, Later;
    if wanted != [] {
      var v := wanted[0];
      var rest := Serve(ls, CountOne(ls, served, v), wanted[1..]);
      ServedOnce(ls, CountOne(ls, served, v), wanted[1..]);
      if InStock(ls, served, v) {
        var x := OfValue(ls, v)[served[v]];
        IsLater(ls, served, v);
        forall y | y in rest ensures x.id != y.id && Later(ls, served, y) {
          ServedBefore(ls, served, v, y);
        }
        assert ([x] + rest)[1..] == rest;
        PairwiseTail(DIFFERENT_IDS, [x] + rest);
      }
    }
  }

  lemma IsLater(ls: seq<TreeNode>, served: multiset<nat>, v: nat)
    requires InStock(ls, served, v)
    ensures Later(ls, served, OfValue(ls, v)[served[v]])
  {
    assert OfValue(ls, v)[served[v]] in OfValue(ls, v);
  }

  /** The available leaves cover this many of every value. */
  ghost predicate Enough(ls: seq<TreeNode>, need: multiset<nat>)
  {
    forall v: nat :: need[v] <= |OfValue(ls, v)|
  }

  lemma WantedStep(served: multiset<nat>, wanted: seq<nat>)
    requires wanted != []
    ensures served + multiset(wanted) == served + multiset{wanted[0]} + multiset(wanted[1..])
    ensures (served + multiset(wanted))[wanted[0]] > served[wanted[0]]
  {
    assert wanted == [wanted[0]] + wanted[1..];
  }

  lemma OneServedExactly(ls: seq<TreeNode>, served: multiset<nat>, v: nat)
    requires served[v] < |OfValue(ls, v)|
    ensures CountOne(ls, served, v) == served + multiset{v}
    ensures |ServeOne(ls, served, v)| == 1 && ServeOne(ls, served, v)[0].value == v
  {
    assert OfValue(ls, v)[served[v]] in OfValue(ls, v);
  }

  lemma ValuesConcat(x: seq<TreeNode>, rest: seq<TreeNode>)
    ensures ValuesOf(x + rest) == ValuesOf(x) + ValuesOf(rest)
  {
  }

  /** With enough leaves of every value, each wanted value is served by a leaf of that value. */
  lemma {:induction false} ServedExactly(ls: seq<TreeNode>, served: multiset<nat>, wanted: seq<nat>)
    requires Enough(ls, served + multiset(wanted))
    ensures ValuesOf(Serve(ls, served, wanted)) == wanted
    ensures ServedAfter(ls, served, wanted) == served + multiset(wanted)
    decreases wanted
  {
    hide OfValue, ServeOne, CountOne, ValuesOf;
    if wanted != [] {
      var v, rest := wanted[0], wanted[1..];
      WantedStep(served, wanted);
      assert (served + multiset(wanted))[v] <= |OfValue(ls, v)|;
      hide Enough;
      ServedExactly(ls, served + multiset{v}, rest);
      OneServedExactly(ls, served, v);
      ValuesConcat(ServeOne(ls, served, v), Serve(ls, served + multiset{v}, rest));
      assert ValuesOf(ServeOne(ls, served, v)) == [v];
      assert [v] + rest == wanted;
    } else {
      assert ValuesOf([]) == [];
    }
  }

  // ----- with too few leaves

  /** How many of the leaves are worth v. */
  function Stocked(ls: seq<TreeNode>, v: nat): nat { multiset(ValuesOf(ls))[v] }

  function Least(a: int, b: int): int { if a < b then a else b }

  lemma {:induction false} OfValueIsStock(ls: seq<TreeNode>, v: nat)
    ensures |OfValue(ls, v)| == Stocked(ls, v)
    ensures forall x :: x in ls && x.value == v ==> x in OfValue(ls, v)
  {
    if ls != [] {
      var front, last := ls[..|ls| - 1], ls[|ls| - 1];
      OfValueIsStock(front, v);
      assert ls == front + [last];
      ValuesConcat(front, [last]);
      assert ValuesOf([last]) == [last.value];
    }
  }

  lemma OneServedCount(ls: seq<TreeNode>, served: multiset<nat>, w: nat, v: nat)
    requires served[v] <= |OfValue(ls, v)|
    ensures var one := if w == v && served[v] < |OfValue(ls, v)| then 1 else 0;
      Stocked(ServeOne(ls, served, w), v) == one && CountOne(ls, served, w)[v] == served[v] + one
  {
    if InStock(ls, served, w) {
      var x := OfValue(ls, w)[served[w]];
      assert x in OfValue(ls, w);
      assert ValuesOf([x]) == [w];
    } else {
      assert ValuesOf([]) == [];
    }
  }

  /** Of each value as many leaves are taken as are wanted, or as are left of it. */
  lemma {:induction false} ServesWhatIsLeft(ls: seq<TreeNode>, served: multiset<nat>, wanted: seq<nat>, v: nat)
    requires served[v] <= |OfValue(ls, v)|
    ensures Stocked(Serve(ls, served, wanted), v) == Least(multiset(wanted)[v], |OfValue(ls, v)| - served[v])
    ensures ServedAfter(ls, served, wanted)[v] == served[v] + Stocked(Serve(ls, served, wanted), v)
    decreases wanted
  {
    hide OfValue, ServeOne, CountOne, ValuesOf;
    if wanted == [] {
      assert ValuesOf([]) == [];
    } else {
      OneServedCount(ls, served, wanted[0], v);
      ServesWhatIsLeft(ls, CountOne(ls, served, wanted[0]), wanted[1..], v);
      ValuesConcat(ServeOne(ls, served, wanted[0]), Serve(ls, CountOne(ls, served, wanted[0]), wanted[1..]));
      assert wanted == [wanted[0]] + wanted[1..];
    }
  }

  /** Whatever the plan wants: over all its batches it takes of each value the lesser of what it wants and
      what is available. */
  lemma PlanTakesWhatThereIs(ls: seq<TreeNode>, swaps: seq<PlannedSwap>, v: nat)
    ensures Stocked(Flatten(PlanBatches(ls, multiset{}, swaps)), v) == Least(multiset(AllWanted(swaps))[v], Stocked(ls, v))
  {
    hide Serve, PlanBatches, Flatten, OfValue, AllWanted, ServedAfter, ValuesOf;
    PlanIsOneServing(ls, multiset{}, swaps);
    OfValueIsStock(ls, v);
    ServesWhatIsLeft(ls, multiset{}, AllWanted(swaps), v);
  }

  lemma {:induction false} ServeConcat(ls: seq<TreeNode>, served: multiset<nat>, a: seq<nat>, b: seq<nat>)
    ensures Serve(ls, served, a + b) == Serve(ls, served, a) + Serve(ls, ServedAfter(ls, served, a), b)
    decreases a
  {
    hide ServeOne, CountOne;
    if a == [] {
      assert a + b == b;
    } else {
      assert (a + b)[1..] == a[1..] + b;
      ServeConcat(ls, CountOne(ls, served, a[0]), a[1..], b);
    }
  }

  lemma {:induction false} PlanIsOneServing(ls: seq<TreeNode>, served: multiset<nat>, swaps: seq<PlannedSwap>)
    ensures Flatten(PlanBatches(ls, served, swaps)) == Serve(ls, served, AllWanted(swaps))
    decreases swaps
  {
    if swaps != [] {
      ServeConcat(ls, served, swaps[0].inLeaves, AllWanted(swaps[1..]));
      PlanIsOneServing(ls, ServedAfter(ls, served, swaps[0].inLeaves), swaps[1..]);
    }
  }

  lemma {:induction false} FlattenUnique(batches: seq<seq<TreeNode>>)
    requires UniqueIds(Flatten(batches))
    ensures forall i, j, x, y :: 0 <= i < j < |batches| && x in batches[i] && y in batches[j] ==> x.id != y.id
    decreases batches
  {
    if batches != [] {
      var all, head, tail := Flatten(batches), batches[0], Flatten(batches[1..]);
      forall x, y | x in head && y in tail ensures x.id != y.id {
        var i :| 0 <= i < |head| && head[i] == x;
        var j :| 0 <= j < |tail| && tail[j] == y;
        assert DIFFERENT_IDS(all[i], all[|head| + j]);
      }
      assert Pairwise(DIFFERENT_IDS, tail) by {
        forall i, j | 0 <= i < j < |tail| ensures DIFFERENT_IDS(tail[i], tail[j]) {
          assert all[|head| + i] == tail[i] && all[|head| + j] == tail[j];
        }
      }
      FlattenUnique(batches[1..]);
    }
  }

  /** Each batch holds exactly its planned values when the cache holds enough of each. */
  lemma {:induction false} PlanIsExact(ls: seq<TreeNode>, served: multiset<nat>, swaps: seq<PlannedSwap>, i: nat)
    requires i < |swaps| && Enough(ls, served + multiset(AllWanted(swaps)))
    ensures ValuesOf(PlanBatches(ls, served, swaps)[i]) == swaps[i].inLeaves
    decreases swaps
  {
    hide OfValue, Serve, ServedAfter;
    var now: seq<nat>, later: seq<nat> := swaps[0].inLeaves, AllWanted(swaps[1..]);
    assert served + multiset(AllWanted(swaps)) == served + multiset(now) + multiset(later);
    forall v: nat ensures (served + multiset(now))[v] <= |OfValue(ls, v)| {
      assert (served + multiset(AllWanted(swaps)))[v] <= |OfValue(ls, v)|;
    }
    ServedExactly(ls, served, now);
    if i > 0 {
      PlanIsExact(ls, served + multiset(now), swaps[1..], i - 1);
    }
  }

  function BatchIds(batches: seq<seq<TreeNode>>): (r: seq<seq<LeafId>>)
    ensures |r| == |batches| && forall i :: 0 <= i < |r| ==> r[i] == IdsOf(batches[i])
  {
    seq(|batches|, i requires 0 <= i < |batches| => IdsOf(batches[i]))
  }

  lemma PlanIsAvailable(m: Cache, available: seq<TreeNode>, swaps: seq<PlannedSwap>)
    requires Lists(m, Available, available)
    ensures AllAvailable(m, Join(BatchIds(PlanBatches(available, multiset{}, swaps))))
  {
    var batches := PlanBatches(available, multiset{}, swaps);
    PlanIsOneServing(available, multiset{}, swaps);
    ServedOnce(available, multiset{}, AllWanted(swaps));
    hide Serve, PlanBatches, OfValue, Flatten, Later, UniqueIds, Lists, IdsOf;
    forall id | id in Join(BatchIds(batches)) ensures HasStatus(m, id, Available) {
      var i :| 0 <= i < |batches| && id in BatchIds(batches)[i];
      var x: TreeNode :| x in batches[i] && x.id == id;
      assert x in Flatten(batches);
      assert Later(available, multiset{}, x);
      LaterIsListed(available, multiset{}, x);
    }
  }

  /** A plan over the listed leaves locks each of them at most once, and only available ones. */
  lemma PlanIsLockable(m: Cache, available: seq<TreeNode>, swaps: seq<PlannedSwap>)
    requires Lists(m, Available, available)
    ensures var ids := BatchIds(PlanBatches(available, multiset{}, swaps)); AllAvailable(m, Join(ids)) && NoneTwice(ids)
  {
    var batches := PlanBatches(available, multiset{}, swaps);
    PlanIsAvailable(m, available, swaps);
    PlanIsOneServing(available, multiset{}, swaps);
    ServedOnce(available, multiset{}, AllWanted(swaps));
    FlattenUnique(batches);
    hide Serve, PlanBatches, OfValue, Flatten, Later, UniqueIds, Lists, IdsOf, AllAvailable, Join;
    forall i, j, id | 0 <= i < j < |batches| && id in BatchIds(batches)[i] ensures id !in BatchIds(batches)[j] {
      var x: TreeNode :| x in batches[i] && x.id == id;
    }
  }

  lemma LaterIsListed(ls: seq<TreeNode>, served: multiset<nat>, x: TreeNode)
    requires Later(ls, served, x)
    ensures x in ls
  {
    var k :| served[x.value] <= k < |OfValue(ls, x.value)| && OfValue(ls, x.value)[k] == x;
    assert x in OfValue(ls, x.value);
  }

  /** Locking one list after another locks both. */
  lemma LockMore(m: Cache, a: seq<LeafId>, b: seq<LeafId>, c: seq<LeafId>)
    requires forall id :: id in c <==> id in a || id in b
    ensures Lock(Lock(m, a), b) == Lock(m, c)
  {
  }

  lemma JoinMore(batches: seq<seq<LeafId>>, batch: seq<LeafId>)
    ensures forall id :: id in Join(batches + [batch]) <==> id in Join(batches) || id in batch
  {
    var all := batches + [batch];
    forall id ensures id in Join(all) <==> id in Join(batches) || id in batch {
      if id in Join(batches) {
        var i :| 0 <= i < |batches| && id in batches[i];
        assert all[i] == batches[i];
      }
      if id in batch {
        assert all[|batches|] == batch;
      }
    }
  }
}
