/** Requesting a swap: validation, splitting more than 64 leaves into batches, distributing the target
    amounts over them first-fit, and what the service returns for what it was given. */
module SwapBatching {
  import opened ChainSelection
  import opened CoverSelection
  import opened LeafCache
  import LeafListing
  import opened LeafSelection
  import opened Outcomes
  import opened Sorting

  const MAX_BATCH_SIZE: nat := 64
  const MAX_SAFE_INTEGER: int := 9007199254740991

  datatype SwapError =
    | NoTargets
    | TargetsExceedLeaves
    | NonPositiveTarget
    | UnsafeTarget
    | TargetExceedsBatch
    | Unassigned(target: nat)
    | SendFailed
    | RequestFailed

  // ----- validation

  function Total(ts: seq<int>): int
  {
    if ts == [] then 0 else ts[0] + Total(ts[1..])
  }

  function MaxOf(ts: seq<int>): (r: int)
    requires ts != []
    ensures r in ts && forall t :: t in ts ==> t <= r
  {
    if |ts| == 1 then ts[0]
    else
      assert ts == [ts[0]] + ts[1..];
      var rest := MaxOf(ts[1..]);
      if ts[0] >= rest then ts[0] else rest
  }

  function LargestFirst(leaves: seq<TreeNode>): (r: seq<TreeNode>)
    ensures |r| == |leaves| && multiset(r) == multiset(leaves)
  {
    SortBy(DESCENDING, leaves)
  }

  /** `validateSwapInputs` */
  function Validate(leaves: seq<TreeNode>, targets: seq<int>): Result<(), SwapError>
  {
    if targets == [] then Err(NoTargets)
    else if Total(targets) > Value(leaves) then Err(TargetsExceedLeaves)
    else if exists t :: t in targets && t <= 0 then Err(NonPositiveTarget)
    else if exists t :: t in targets && !(-MAX_SAFE_INTEGER <= t <= MAX_SAFE_INTEGER) then Err(UnsafeTarget)
    else if |leaves| > MAX_BATCH_SIZE && MaxOf(targets) > Value(LargestFirst(leaves)[..MAX_BATCH_SIZE]) then Err(TargetExceedsBatch)
    else Ok(())
  }

  /** Some leaves that fit one batch are worth this much. */
  ghost predicate FitsOneBatch(leaves: seq<TreeNode>, target: int)
  {
    exists some: seq<TreeNode> :: |some| <= 64 && multiset(some) <= multiset(leaves) && target <= Value(some)
  }

  lemma {:induction false} TargetBelowTotal(targets: seq<int>)
    requires forall u :: u in targets ==> u > 0
    ensures Total(targets) >= 0 && forall t :: t in targets ==> t <= Total(targets)
  {
    if targets != [] {
      assert targets[0] in targets;
      forall u | u in targets[1..] ensures u > 0 {
        assert u in targets;
      }
      TargetBelowTotal(targets[1..]);
      forall t | t in targets ensures t <= Total(targets) {
        assert t == targets[0] || t in targets[1..];
      }
    }
  }

  /** The capacity check compares with the best batch there is. */
  lemma BestBatch(leaves: seq<TreeNode>, target: int)
    requires |leaves| > MAX_BATCH_SIZE
    ensures FitsOneBatch(leaves, target) <==> target <= Value(LargestFirst(leaves)[..MAX_BATCH_SIZE])
  {
    var sorted := LargestFirst(leaves);
    DescendingFromSort(leaves);
    PrefixOf(sorted, MAX_BATCH_SIZE);
    if some: seq<TreeNode> :| |some| <= MAX_BATCH_SIZE && multiset(some) <= multiset(leaves) && target <= Value(some) {
      TopLeavesAreWorthMost(sorted, some);
      PrefixMonotone(sorted, |some|, MAX_BATCH_SIZE);
    }
  }

  lemma EachTargetFits(leaves: seq<TreeNode>, targets: seq<int>, t: int)
    requires t in targets && Total(targets) <= Value(leaves) && forall u :: u in targets ==> u > 0
    ensures |leaves| <= MAX_BATCH_SIZE ==> FitsOneBatch(leaves, t)
    ensures |leaves| > MAX_BATCH_SIZE && MaxOf(targets) <= Value(LargestFirst(leaves)[..MAX_BATCH_SIZE]) ==> FitsOneBatch(leaves, t)
  {
    TargetBelowTotal(targets);
    if |leaves| > MAX_BATCH_SIZE {
      BestBatch(leaves, t);
    } else {
      assert multiset(leaves) <= multiset(leaves);
    }
  }

  /** Validation accepts exactly the requests in which every target is a positive safe integer that
      some batch of the leaves could serve, and the leaves are worth all targets together. */
  lemma ValidatesExactly(leaves: seq<TreeNode>, targets: seq<int>)
    ensures Validate(leaves, targets).Ok? <==>
      && targets != [] && Total(targets) <= Value(leaves)
      && forall t :: t in targets ==> 0 < t <= 9007199254740991 && FitsOneBatch(leaves, t)
  {
    hide FitsOneBatch, Value, Total, LargestFirst;
    if targets != [] && Total(targets) <= Value(leaves) && forall t :: t in targets ==> t > 0 {
      forall t | t in targets
        ensures |leaves| <= MAX_BATCH_SIZE ==> FitsOneBatch(leaves, t)
        ensures |leaves| > MAX_BATCH_SIZE && MaxOf(targets) <= Value(LargestFirst(leaves)[..MAX_BATCH_SIZE]) ==> FitsOneBatch(leaves, t)
      {
        EachTargetFits(leaves, targets, t);
      }
      if |leaves| > MAX_BATCH_SIZE {
        BestBatch(leaves, MaxOf(targets));
      }
    }
  }

  /** Each refusal has its own reason, checked in this order. */
  lemma RefusesExactly(leaves: seq<TreeNode>, targets: seq<int>)
    ensures targets == [] ==> Validate(leaves, targets) == Err(NoTargets)
    ensures targets != [] && Total(targets) > Value(leaves) ==> Validate(leaves, targets) == Err(TargetsExceedLeaves)
    ensures targets != [] && Total(targets) <= Value(leaves) && (exists t :: t in targets && t <= 0) ==>
      Validate(leaves, targets) == Err(NonPositiveTarget)
    ensures targets != [] && Total(targets) <= Value(leaves) && (forall t :: t in targets ==> t > 0) ==>
      && ((exists t :: t in targets && t > 9007199254740991) ==> Validate(leaves, targets) == Err(UnsafeTarget))
      && ((forall t :: t in targets ==> t <= 9007199254740991) && (exists t :: t in targets && !FitsOneBatch(leaves, t)) ==>
            Validate(leaves, targets) == Err(TargetExceedsBatch))
  {
    ValidatesExactly(leaves, targets);
    hide FitsOneBatch, Value, Total, LargestFirst, MaxOf;
  }

  // ----- batches of leaves

  function Chunks(s: seq<TreeNode>, size: nat): (r: seq<seq<TreeNode>>)
    requires size > 0
    ensures s != [] ==> r != [] && r[0] == s[..if |s| < size then |s| else size]
    ensures forall c :: c in r ==> 0 < |c| <= size
    decreases |s|
  {
    if s == [] then [] else if |s| <= size then [s] else [s[..size]] + Chunks(s[size..], size)
  }

  /** The chunks still to be cut off at position i. */
  function ChunksFrom(s: seq<TreeNode>, i: nat, size: nat): seq<seq<TreeNode>>
    requires size > 0
  {
    if i < |s| then Chunks(s[i..], size) else []
  }

  function Min(a: nat, b: nat): nat { if a < b then a else b }

  lemma OneMoreChunk(front: seq<seq<TreeNode>>, chunk: seq<TreeNode>, rest: seq<seq<TreeNode>>)
    ensures front + ([chunk] + rest) == front + [chunk] + rest
  {
  }

  lemma ChunksStep(s: seq<TreeNode>, i: nat, size: nat)
    requires size > 0 && i < |s|
    ensures ChunksFrom(s, i, size) == [s[i..Min(i + size, |s|)]] + ChunksFrom(s, i + size, size)
  {
    if i + size < |s| {
      assert s[i..][..size] == s[i..i + size] && s[i..][size..] == s[i + size..];
    } else {
      assert s[i..] == s[i..|s|];
    }
  }

  /** `chunkArray` */
  method ChunkArray(arr: seq<TreeNode>, size: nat) returns (chunks: seq<seq<TreeNode>>)
    requires size > 0
    ensures chunks == Chunks(arr, size)
  {
    hide Chunks, ChunksFrom;
    chunks := [];
    ChunksEnds(arr, size);
    var i := 0;
    while i < |arr|
      invariant chunks + ChunksFrom(arr, i, size) == Chunks(arr, size)
    {
      ChunksStep(arr, i, size);
      OneMoreChunk(chunks, arr[i..Min(i + size, |arr|)], ChunksFrom(arr, i + size, size));
      chunks := chunks + [arr[i..Min(i + size, |arr|)]];
      i := i + size;
    }
  }

  lemma ChunksEnds(s: seq<TreeNode>, size: nat)
    requires size > 0
    ensures ChunksFrom(s, 0, size) == Chunks(s, size)
    ensures forall i: nat :: i >= |s| ==> ChunksFrom(s, i, size) == []
  {
    assert s[0..] == s;
  }

  function Worth(batches: seq<seq<TreeNode>>): nat
  {
    if batches == [] then 0 else Value(batches[0]) + Worth(batches[1..])
  }

  lemma {:induction false} ChunksWorth(s: seq<TreeNode>, size: nat)
    requires size > 0
    ensures Worth(Chunks(s, size)) == Value(s)
    decreases |s|
  {
    if |s| > size {
      ChunksWorth(s[size..], size);
      ValueConcat(s[..size], s[size..]);
      assert s == s[..size] + s[size..];
      hide Value;
    }
  }

  // ----- distributing the targets

  const LARGER: (nat, nat) -> bool := (a: nat, b: nat) => a >= b

  /** The first batch with room for the target, or the number of batches. */
  function FirstFit(remaining: seq<nat>, target: nat): (i: nat)
    ensures i <= |remaining| && (i < |remaining| ==> remaining[i] >= target)
    ensures forall j :: 0 <= j < i ==> remaining[j] < target
  {
    if remaining == [] || remaining[0] >= target then 0 else 1 + FirstFit(remaining[1..], target)
  }

  datatype Shares = Shares(byBatch: seq<seq<nat>>, remaining: seq<nat>)
  {
    predicate Matched() { |byBatch| == |remaining| }
  }

  function PlaceOne(s: Shares, target: nat): Result<Shares, SwapError>
    requires s.Matched()
  {
    var i := FirstFit(s.remaining, target);
    if i == |s.remaining| then Err(Unassigned(target))
    else Ok(Shares(s.byBatch[i := s.byBatch[i] + [target]], s.remaining[i := s.remaining[i] - target]))
  }

  function Place(s: Shares, targets: seq<nat>): (r: Result<Shares, SwapError>)
    requires s.Matched()
    ensures r.Ok? ==> r.value.Matched() && |r.value.byBatch| == |s.byBatch|
    decreases targets
  {
    if targets == [] then Ok(s)
    else
      var next :- PlaceOne(s, targets[0]);
      Place(next, targets[1..])
  }

  function Values(batches: seq<seq<TreeNode>>): (r: seq<nat>)
    ensures |r| == |batches| && forall i :: 0 <= i < |r| ==> r[i] == Value(batches[i])
  {
    seq(|batches|, i requires 0 <= i < |batches| => Value(batches[i]))
  }

  function NoShares(batches: seq<seq<TreeNode>>): (r: Shares)
    ensures r.Matched() && |r.byBatch| == |batches|
  {
    Shares(seq(|batches|, i => []), Values(batches))
  }

  /** `distributeTargetAmounts` */
  function Distribution(targets: seq<nat>, batches: seq<seq<TreeNode>>): (r: Result<seq<seq<nat>>, SwapError>)
    ensures r.Ok? ==> |r.value| == |batches|
  {
    var placed :- Place(NoShares(batches), SortBy(LARGER, targets));
    Ok(placed.byBatch)
  }

  method FindRoom(remaining: seq<nat>, target: nat) returns (i: nat)
    ensures i == FirstFit(remaining, target)
  {
    i := 0;
    while i < |remaining|
      invariant i <= |remaining| && FirstFit(remaining, target) == i + FirstFit(remaining[i..], target)
    {
      if remaining[i] >= target {
        return;
      }
      assert remaining[i..][1..] == remaining[i + 1..];
      i := i + 1;
    }
  }

  method DistributeTargetAmounts(targetAmounts: seq<nat>, leafBatches: seq<seq<TreeNode>>) returns (r: Result<seq<seq<nat>>, SwapError>)
    ensures r == Distribution(targetAmounts, leafBatches)
  {
    hide Place, FirstFit, SortBy;
    var shares := NoShares(leafBatches);
    var remainingTargets := SortBy(LARGER, targetAmounts);
    assert remainingTargets[0..] == remainingTargets;
    var k := 0;
    while k < |remainingTargets|
      invariant k <= |remainingTargets| && shares.Matched()
      invariant Place(shares, remainingTargets[k..]) == Place(NoShares(leafBatches), remainingTargets)
    {
      var target := remainingTargets[k];
      PlaceStep(shares, remainingTargets, k);
      var i := FindRoom(shares.remaining, target);
      if i == |shares.remaining| {
        return Err(Unassigned(target));
      }
      shares := Shares(shares.byBatch[i := shares.byBatch[i] + [target]], shares.remaining[i := shares.remaining[i] - target]);
      k := k + 1;
    }
    PlaceStep(shares, remainingTargets, k);
    r := Ok(shares.byBatch);
  }

  lemma PlaceStep(s: Shares, targets: seq<nat>, k: nat)
    requires s.Matched() && k <= |targets|
    ensures if k == |targets| then Place(s, targets[k..]) == Ok(s)
      else match PlaceOne(s, targets[k])
           case Err(e) => Place(s, targets[k..]) == Err(e)
           case Ok(next) => Place(s, targets[k..]) == Place(next, targets[k + 1..])
  {
    if k < |targets| {
      assert targets[k..][0] == targets[k] && targets[k..][1..] == targets[k + 1..];
    }
  }

  // ----- what the distribution promises

  function Flat(ts: seq<seq<nat>>): seq<nat>
  {
    if ts == [] then [] else ts[0] + Flat(ts[1..])
  }

  lemma {:induction false} FlatUpdate(ts: seq<seq<nat>>, i: nat, t: nat)
    requires i < |ts|
    ensures multiset(Flat(ts[i := ts[i] + [t]])) == multiset(Flat(ts)) + multiset{t}
  {
    var ts' := ts[i := ts[i] + [t]];
    if i > 0 {
      FlatUpdate(ts[1..], i - 1, t);
      assert ts'[1..] == ts[1..][i - 1 := ts[1..][i - 1] + [t]];
    } else {
      assert ts'[1..] == ts[1..];
    }
  }

  lemma {:induction false} SumAppend(ts: seq<nat>, t: nat)
    ensures Sum(ts + [t]) == Sum(ts) + t
  {
    if ts != [] {
      SumAppend(ts[1..], t);
      assert (ts + [t])[1..] == ts[1..] + [t];
    }
  }

  /** p continues s after placing these targets: same capacity per batch, shares only appended. */
  ghost predicate Continues(s: Shares, p: Shares, placed: seq<nat>)
  {
    && s.Matched() && p.Matched() && |p.byBatch| == |s.byBatch|
    && multiset(Flat(p.byBatch)) == multiset(Flat(s.byBatch)) + multiset(placed)
    && (forall i :: 0 <= i < |s.byBatch| ==> Sum(p.byBatch[i]) + p.remaining[i] == Sum(s.byBatch[i]) + s.remaining[i])
    && (forall i :: 0 <= i < |s.byBatch| ==> s.byBatch[i] <= p.byBatch[i])
  }

  lemma PlaceOneContinues(s: Shares, target: nat)
    requires s.Matched() && PlaceOne(s, target).Ok?
    ensures Continues(s, PlaceOne(s, target).value, [target])
  {
    hide Flat, Sum, FirstFit;
    var i := FirstFit(s.remaining, target);
    FlatUpdate(s.byBatch, i, target);
    SumAppend(s.byBatch[i], target);
  }

  lemma ContinuesOn(s: Shares, p: Shares, q: Shares, first: seq<nat>, second: seq<nat>)
    requires Continues(s, p, first) && Continues(p, q, second)
    ensures Continues(s, q, first + second)
  {
    hide Flat, Sum;
    forall i | 0 <= i < |s.byBatch| ensures s.byBatch[i] <= q.byBatch[i] {
      assert s.byBatch[i] <= p.byBatch[i] <= q.byBatch[i];
    }
  }

  lemma {:induction false} PlaceContinues(s: Shares, targets: seq<nat>)
    requires s.Matched() && Place(s, targets).Ok?
    ensures Continues(s, Place(s, targets).value, targets)
    decreases targets
  {
    if targets == [] {
    } else {
      var next := PlaceOne(s, targets[0]).value;
      PlaceOneContinues(s, targets[0]);
      PlaceContinues(next, targets[1..]);
      ContinuesOn(s, next, Place(s, targets).value, [targets[0]], targets[1..]);
      assert targets == [targets[0]] + targets[1..];
    }
  }

  /** The distribution fails with the first target, largest first, that no batch has room for any more. */
  lemma {:induction false} UnassignedHasNoRoom(s: Shares, targets: seq<nat>) returns (k: nat)
    requires s.Matched() && Place(s, targets).Err?
    ensures k < |targets| && Place(s, targets) == Err(Unassigned(targets[k])) && Place(s, targets[..k]).Ok?
    ensures forall j :: 0 <= j < |s.remaining| == |Place(s, targets[..k]).value.remaining| ==>
      Place(s, targets[..k]).value.remaining[j] < targets[k]
    decreases targets
  {
    if PlaceOne(s, targets[0]).Err? {
      k := 0;
    } else {
      var l := UnassignedHasNoRoom(PlaceOne(s, targets[0]).value, targets[1..]);
      k := l + 1;
      assert targets[..k][1..] == targets[1..][..l] && targets[..k][0] == targets[0];
    }
  }

  lemma {:induction false} NothingShared(ts: seq<seq<nat>>)
    requires forall i :: 0 <= i < |ts| ==> ts[i] == []
    ensures Flat(ts) == []
  {
    if ts != [] {
      NothingShared(ts[1..]);
    }
  }

  /** The shares are a partition of the targets, and no batch is given more than its leaves are worth. */
  lemma DistributionPartitions(targets: seq<nat>, batches: seq<seq<TreeNode>>)
    requires Distribution(targets, batches).Ok?
    ensures var shares := Distribution(targets, batches).value;
      && multiset(Flat(shares)) == multiset(targets)
      && forall i :: 0 <= i < |batches| ==> Sum(shares[i]) <= Value(batches[i])
  {
    var none := NoShares(batches);
    PlaceContinues(none, SortBy(LARGER, targets));
    NothingShared(none.byBatch);
    forall i | 0 <= i < |batches| ensures Sum(Distribution(targets, batches).value[i]) <= Value(batches[i]) {
      assert Sum(none.byBatch[i]) == 0;
    }
  }

  lemma LargestIsFirst(targets: seq<nat>)
    requires targets != []
    ensures var sorted := SortBy(LARGER, targets); sorted[0] in targets && forall t :: t in targets ==> t <= sorted[0]
  {
    var sorted := SortBy(LARGER, targets);
    SortIsSorted(LARGER, targets);
    SameMembers(LARGER, targets);
    assert sorted[0] in sorted;
    forall t | t in targets ensures t <= sorted[0] {
      assert t in sorted;
      var i :| 0 <= i < |sorted| && sorted[i] == t;
      assert i > 0 ==> LARGER(sorted[0], sorted[i]);
    }
  }

  /** For validated inputs the largest target opens the first batch, so something is always swapped. */
  lemma LargestTargetOpensFirstBatch(leaves: seq<TreeNode>, targets: seq<nat>)
    requires Validate(leaves, targets).Ok? && |leaves| > MAX_BATCH_SIZE
    requires Distribution(targets, Chunks(LargestFirst(leaves), MAX_BATCH_SIZE)).Ok?
    ensures var shares := Distribution(targets, Chunks(LargestFirst(leaves), MAX_BATCH_SIZE)).value;
      shares != [] && shares[0] != [] && shares[0][0] == MaxOf(targets)
  {
    var batches := Chunks(LargestFirst(leaves), MAX_BATCH_SIZE);
    var sorted, none := SortBy(LARGER, targets), NoShares(batches);
    LargestIsFirst(targets);
    assert sorted[0] == MaxOf(targets);
    assert none.remaining[0] == Value(batches[0]) >= sorted[0];
    assert FirstFit(none.remaining, sorted[0]) == 0;
    var next := PlaceOne(none, sorted[0]).value;
    assert next.byBatch[0] == [sorted[0]];
    PlaceContinues(next, sorted[1..]);
  }

  lemma {:induction false} TotalIsSum(ts: seq<nat>)
    ensures Total(ts) == Sum(ts)
  {
    if ts != [] { TotalIsSum(ts[1..]); }
  }

  lemma {:induction false} FlatMembers(ts: seq<seq<nat>>, i: nat)
    requires i < |ts|
    ensures forall t :: t in ts[i] ==> t in Flat(ts)
  {
    if i > 0 { FlatMembers(ts[1..], i - 1); }
  }

  lemma ShareIsValid(leaves: seq<TreeNode>, targets: seq<nat>, batch: seq<TreeNode>, share: seq<nat>)
    requires Validate(leaves, targets).Ok? && share != [] && |batch| <= MAX_BATCH_SIZE
    requires Sum(share) <= Value(batch) && forall t :: t in share ==> t in targets
    ensures Validate(batch, share).Ok?
  {
    hide Value, Sum, LargestFirst, MaxOf;
    TotalIsSum(share);
    hide Total;
  }

  /** Validating a batch again before it is swapped cannot fail. */
  lemma RevalidationSucceeds(leaves: seq<TreeNode>, targets: seq<nat>, i: nat)
    requires Validate(leaves, targets).Ok?
    requires var batches := Chunks(LargestFirst(leaves), MAX_BATCH_SIZE);
      i < |batches| && Distribution(targets, batches).Ok? && Distribution(targets, batches).value[i] != []
    ensures var batches := Chunks(LargestFirst(leaves), MAX_BATCH_SIZE);
      Validate(batches[i], Distribution(targets, batches).value[i]).Ok?
  {
    hide Chunks, Distribution, Flat, Value, Sum, Total, LargestFirst, Validate;
    var batches := Chunks(LargestFirst(leaves), MAX_BATCH_SIZE);
    var shares := Distribution(targets, batches).value;
    DistributionPartitions(targets, batches);
    FlatMembers(shares, i);
    assert batches[i] in batches;
    forall t | t in shares[i] ensures t in targets {
      assert t in multiset(Flat(shares));
    }
    ShareIsValid(leaves, targets, batches[i], shares[i]);
  }

  // ----- requesting the swap

  type Service = (seq<TreeNode>, seq<nat>) -> Result<seq<TreeNode>, SwapError>

  /** `executeSingleSwap`: validation, then whatever the service answers. */
  function ExecuteSingle(leaves: seq<TreeNode>, targets: seq<int>, service: Service): Result<seq<TreeNode>, SwapError>
  {
    var _ :- Validate(leaves, targets);
    assert forall i :: 0 <= i < |targets| ==> targets[i] in targets;
    service(leaves, targets)
  }

  function ExecuteAll(batches: seq<seq<TreeNode>>, shares: seq<seq<nat>>, service: Service): Result<seq<TreeNode>, SwapError>
    requires |batches| == |shares|
  {
    if batches == [] then Ok([])
    else if shares[0] == [] then ExecuteAll(batches[1..], shares[1..], service)
    else
      var received :- ExecuteSingle(batches[0], shares[0], service);
      var rest :- ExecuteAll(batches[1..], shares[1..], service);
      Ok(received + rest)
  }

  /** `requestLeavesSwap` */
  function RequestSwap(leaves: seq<TreeNode>, targets: seq<int>, service: Service): Result<seq<TreeNode>, SwapError>
  {
    var _ :- Validate(leaves, targets);
    if |leaves| <= MAX_BATCH_SIZE then ExecuteSingle(leaves, targets, service)
    else
      assert forall i :: 0 <= i < |targets| ==> targets[i] in targets;
      var batches := Chunks(LargestFirst(leaves), MAX_BATCH_SIZE);
      var shares :- Distribution(targets, batches);
      ExecuteAll(batches, shares, service)
  }

  // ----- the callbacks of a request

  /** A batch's transfer id is registered before it is sent; its leaves are reported once it was sent. */
  datatype Callback = Registered | Initiated(leafIds: seq<LeafId>)

  function CallsOf(leaves: seq<TreeNode>, targets: seq<int>, service: Service): seq<Callback>
  {
    if Validate(leaves, targets).Err? then []
    else if ExecuteSingle(leaves, targets, service) == Err(SendFailed) then [Registered]
    else [Registered, Initiated(LeafListing.IdsOf(leaves))]
  }

  function AllCalls(batches: seq<seq<TreeNode>>, shares: seq<seq<nat>>, service: Service): seq<Callback>
    requires |batches| == |shares|
  {
    if batches == [] then []
    else if shares[0] == [] then AllCalls(batches[1..], shares[1..], service)
    else
      var later := if ExecuteSingle(batches[0], shares[0], service).Ok? then AllCalls(batches[1..], shares[1..], service) else [];
      CallsOf(batches[0], shares[0], service) + later
  }

  function SwapCalls(leaves: seq<TreeNode>, targets: seq<int>, service: Service): seq<Callback>
  {
    if Validate(leaves, targets).Err? then []
    else if |leaves| <= MAX_BATCH_SIZE then CallsOf(leaves, targets, service)
    else
      assert forall i :: 0 <= i < |targets| ==> targets[i] in targets;
      var batches := Chunks(LargestFirst(leaves), MAX_BATCH_SIZE);
      var shares := Distribution(targets, batches);
      if shares.Err? then [] else AllCalls(batches, shares.value, service)
  }

  method RequestLeavesSwap(leaves: seq<TreeNode>, targetAmounts: seq<int>, service: Service)
    returns (r: Result<seq<TreeNode>, SwapError>, calls: seq<Callback>)
    ensures r == RequestSwap(leaves, targetAmounts, service)
    ensures calls == SwapCalls(leaves, targetAmounts, service)
  {
    hide Chunks, Distribution;
    calls := [];
    var _ :- Validate(leaves, targetAmounts);
    if |leaves| <= MAX_BATCH_SIZE {
      r, calls := ExecuteSingleSwap(leaves, targetAmounts, service);
      return;
    }
    assert forall i :: 0 <= i < |targetAmounts| ==> targetAmounts[i] in targetAmounts;
    var leafBatches := ChunkArray(LargestFirst(leaves), MAX_BATCH_SIZE);
    var targetAmountsByBatch :- DistributeTargetAmounts(targetAmounts, leafBatches);
    r, calls := ExecuteBatches(leafBatches, targetAmountsByBatch, service);
  }

  method ExecuteSingleSwap(leaves: seq<TreeNode>, targetAmounts: seq<int>, service: Service)
    returns (r: Result<seq<TreeNode>, SwapError>, calls: seq<Callback>)
    ensures r == ExecuteSingle(leaves, targetAmounts, service)
    ensures calls == CallsOf(leaves, targetAmounts, service)
  {
    calls := [];
    var _ :- Validate(leaves, targetAmounts);
    calls := [Registered];
    assert forall i :: 0 <= i < |targetAmounts| ==> targetAmounts[i] in targetAmounts;
    r := service(leaves, targetAmounts);
    if r != Err(SendFailed) {
      calls := calls + [Initiated(LeafListing.IdsOf(leaves))];
    }
  }

  method ExecuteBatches(leafBatches: seq<seq<TreeNode>>, targetAmountsByBatch: seq<seq<nat>>, service: Service)
    returns (r: Result<seq<TreeNode>, SwapError>, calls: seq<Callback>)
    requires |leafBatches| == |targetAmountsByBatch|
    ensures r == ExecuteAll(leafBatches, targetAmountsByBatch, service)
    ensures calls == AllCalls(leafBatches, targetAmountsByBatch, service)
  {
    hide ExecuteAll, AllCalls, ExecuteSingle, CallsOf, Prepend;
    var results: seq<TreeNode> := [];
    calls := [];
    ExecuteEnds(leafBatches, targetAmountsByBatch, service);
    var i := 0;
    while i < |leafBatches|
      invariant i <= |leafBatches|
      invariant Prepend(results, ExecuteAll(leafBatches[i..], targetAmountsByBatch[i..], service))
        == ExecuteAll(leafBatches, targetAmountsByBatch, service)
      invariant calls + AllCalls(leafBatches[i..], targetAmountsByBatch[i..], service)
        == AllCalls(leafBatches, targetAmountsByBatch, service)
    {
      ExecuteStep(results, leafBatches, targetAmountsByBatch, i, service);
      CallsStep(calls, leafBatches, targetAmountsByBatch, i, service);
      if targetAmountsByBatch[i] != [] {
        var answer, made := ExecuteSingleSwap(leafBatches[i], targetAmountsByBatch[i], service);
        calls := calls + made;
        var received :- answer;
        results := results + received;
      }
      i := i + 1;
    }
    PrependEnd(results);
    r := Ok(results);
  }

  lemma CallsStep(calls: seq<Callback>, batches: seq<seq<TreeNode>>, shares: seq<seq<nat>>, i: nat, service: Service)
    requires |batches| == |shares| && i < |batches|
    ensures var all := calls + AllCalls(batches[i..], shares[i..], service);
      var rest := AllCalls(batches[i + 1..], shares[i + 1..], service);
      var made := CallsOf(batches[i], shares[i], service);
      if shares[i] == [] then all == calls + rest
      else if ExecuteSingle(batches[i], shares[i], service).Ok? then all == calls + made + rest
      else all == calls + made
  {
    hide CallsOf, ExecuteSingle;
    assert batches[i..][1..] == batches[i + 1..] && shares[i..][1..] == shares[i + 1..];
    var made, rest := CallsOf(batches[i], shares[i], service), AllCalls(batches[i + 1..], shares[i + 1..], service);
    assert calls + (made + rest) == calls + made + rest;
    assert made + [] == made;
  }

  lemma ExecuteEnds(batches: seq<seq<TreeNode>>, shares: seq<seq<nat>>, service: Service)
    requires |batches| == |shares|
    ensures Prepend([], ExecuteAll(batches[0..], shares[0..], service)) == ExecuteAll(batches, shares, service)
    ensures ExecuteAll(batches[|batches|..], shares[|shares|..], service) == Ok([])
    ensures AllCalls(batches[0..], shares[0..], service) == AllCalls(batches, shares, service)
    ensures AllCalls(batches[|batches|..], shares[|shares|..], service) == []
  {
    assert batches[0..] == batches && shares[0..] == shares;
    var all := ExecuteAll(batches, shares, service);
    if all.Ok? { assert [] + all.value == all.value; }
  }

  lemma PrependEnd(results: seq<TreeNode>)
    ensures Prepend(results, Ok([])) == Ok(results)
  {
    assert results + [] == results;
  }

  lemma ExecuteStep(results: seq<TreeNode>, batches: seq<seq<TreeNode>>, shares: seq<seq<nat>>, i: nat, service: Service)
    requires |batches| == |shares| && i < |batches|
    ensures var all := Prepend(results, ExecuteAll(batches[i..], shares[i..], service));
      var rest := ExecuteAll(batches[i + 1..], shares[i + 1..], service);
      if shares[i] == [] then all == Prepend(results, rest)
      else match ExecuteSingle(batches[i], shares[i], service)
           case Err(e) => all == Err(e)
           case Ok(received) => all == Prepend(results + received, rest)
  {
    assert batches[i..][1..] == batches[i + 1..] && shares[i..][1..] == shares[i + 1..];
    var single, rest := ExecuteSingle(batches[i], shares[i], service), ExecuteAll(batches[i + 1..], shares[i + 1..], service);
    if single.Ok? && rest.Ok? {
      assert results + single.value + rest.value == results + (single.value + rest.value);
    }
  }

  ghost function Prepend(front: seq<TreeNode>, r: Result<seq<TreeNode>, SwapError>): Result<seq<TreeNode>, SwapError>
  {
    if r.Ok? then Ok(front + r.value) else r
  }

  // ----- what comes back

  /** Every answer is worth what was sent. */
  ghost predicate ReturnsValue(service: Service)
  {
    forall leaves, targets :: service(leaves, targets).Ok? ==> Value(service(leaves, targets).value) == Value(leaves)
  }

  /** Every answer holds one leaf for each target. */
  ghost predicate ReturnsTargets(service: Service)
  {
    forall leaves, targets :: service(leaves, targets).Ok? ==> multiset(targets) <= PositiveValues(service(leaves, targets).value)
  }

  /** The leaves of batches that were given no target: never sent, never returned. */
  function Skipped(batches: seq<seq<TreeNode>>, shares: seq<seq<nat>>): nat
    requires |batches| == |shares|
  {
    if batches == [] then 0 else (if shares[0] == [] then Value(batches[0]) else 0) + Skipped(batches[1..], shares[1..])
  }

  function SkippedValue(leaves: seq<TreeNode>, targets: seq<nat>): nat
  {
    var batches := Chunks(LargestFirst(leaves), MAX_BATCH_SIZE);
    if |leaves| <= MAX_BATCH_SIZE || Distribution(targets, batches).Err? then 0 else Skipped(batches, Distribution(targets, batches).value)
  }

  lemma {:induction false} ExecutedValue(batches: seq<seq<TreeNode>>, shares: seq<seq<nat>>, service: Service)
    requires |batches| == |shares| && ReturnsValue(service) && ExecuteAll(batches, shares, service).Ok?
    ensures Value(ExecuteAll(batches, shares, service).value) + Skipped(batches, shares) == Worth(batches)
  {
    if batches != [] {
      ExecutedValue(batches[1..], shares[1..], service);
      if shares[0] != [] {
        var received := ExecuteSingle(batches[0], shares[0], service).value;
        assert Value(received) == Value(batches[0]);
        ValueConcat(received, ExecuteAll(batches[1..], shares[1..], service).value);
      }
    }
  }

  /** What comes back is worth what was handed over, less the batches that were skipped. */
  lemma SwapReturnsAllButSkipped(leaves: seq<TreeNode>, targets: seq<nat>, service: Service)
    requires ReturnsValue(service) && RequestSwap(leaves, targets, service).Ok?
    ensures Value(RequestSwap(leaves, targets, service).value) + SkippedValue(leaves, targets) == Value(leaves)
  {
    if |leaves| <= MAX_BATCH_SIZE {
      assert ReturnsValue(service);
    } else {
      hide Chunks, Distribution;
      var batches := Chunks(LargestFirst(leaves), MAX_BATCH_SIZE);
      ExecutedValue(batches, Distribution(targets, batches).value, service);
      ChunksWorth(LargestFirst(leaves), MAX_BATCH_SIZE);
      ValueSort(DESCENDING, leaves);
    }
  }

  lemma {:induction false} SkippedIsZero(batches: seq<seq<TreeNode>>, shares: seq<seq<nat>>)
    requires |batches| == |shares|
    ensures Skipped(batches, shares) == 0 <==> forall i :: 0 <= i < |batches| && shares[i] == [] ==> Value(batches[i]) == 0
  {
    if batches != [] {
      SkippedIsZero(batches[1..], shares[1..]);
      assert forall i :: 0 < i < |batches| ==> batches[i] == batches[1..][i - 1] && shares[i] == shares[1..][i - 1];
    }
  }

  /** Every batch that is worth something was given a target. */
  ghost predicate EveryBatchServed(leaves: seq<TreeNode>, targets: seq<nat>)
  {
    var batches := Chunks(LargestFirst(leaves), MAX_BATCH_SIZE);
    |leaves| > MAX_BATCH_SIZE && Distribution(targets, batches).Ok? ==>
      forall i :: 0 <= i < |batches| && Distribution(targets, batches).value[i] == [] ==> Value(batches[i]) == 0
  }

  /** A request returns everything exactly when no batch of worth is left without a target. */
  lemma NothingIsLostExactly(leaves: seq<TreeNode>, targets: seq<nat>, service: Service)
    requires ReturnsValue(service) && RequestSwap(leaves, targets, service).Ok?
    ensures Value(RequestSwap(leaves, targets, service).value) == Value(leaves) <==> EveryBatchServed(leaves, targets)
  {
    hide Chunks, Distribution, RequestSwap, ReturnsValue, Skipped, Value;
    SwapReturnsAllButSkipped(leaves, targets, service);
    var batches := Chunks(LargestFirst(leaves), MAX_BATCH_SIZE);
    if |leaves| > MAX_BATCH_SIZE && Distribution(targets, batches).Ok? {
      SkippedIsZero(batches, Distribution(targets, batches).value);
    }
  }

  lemma {:induction false} SumConcat(a: seq<nat>, b: seq<nat>)
    ensures Sum(a + b) == Sum(a) + Sum(b)
  {
    if a == [] {
      assert a + b == b;
    } else {
      SumConcat(a[1..], b);
      assert (a + b)[1..] == a[1..] + b;
    }
  }

  lemma SumRemoveAt(b: seq<nat>, i: nat)
    requires i < |b|
    ensures var b' := b[..i] + b[i + 1..]; Sum(b) == b[i] + Sum(b') && multiset(b') == multiset(b) - multiset{b[i]}
  {
    assert b == b[..i] + [b[i]] + b[i + 1..];
    SumConcat(b[..i], b[i + 1..]);
    SumConcat(b[..i] + [b[i]], b[i + 1..]);
    SumConcat(b[..i], [b[i]]);
  }

  lemma {:induction false} SameSum(a: seq<nat>, b: seq<nat>)
    requires multiset(a) == multiset(b)
    ensures Sum(a) == Sum(b)
    decreases |a|
  {
    if a == [] {
      assert b == [] by { assert |multiset(b)| == 0; }
    } else {
      assert a[0] in multiset(b);
      var i :| 0 <= i < |b| && b[i] == a[0];
      SumRemoveAt(b, i);
      assert a == [a[0]] + a[1..];
      SameSum(a[1..], b[..i] + b[i + 1..]);
    }
  }

  lemma {:induction false} SkippedIsSlack(batches: seq<seq<TreeNode>>, shares: seq<seq<nat>>)
    requires |batches| == |shares| && forall i :: 0 <= i < |batches| ==> Sum(shares[i]) <= Value(batches[i])
    ensures Skipped(batches, shares) + Sum(Flat(shares)) <= Worth(batches)
  {
    if batches != [] {
      SkippedIsSlack(batches[1..], shares[1..]);
      SumConcat(shares[0], Flat(shares[1..]));
    }
  }

  /** At most what the targets leave over is skipped: nothing when the targets ask for everything, and
      nothing when the leaves fit one batch. */
  lemma SkippedAtMostTheRest(leaves: seq<TreeNode>, targets: seq<nat>)
    requires Sum(targets) <= Value(leaves)
    ensures SkippedValue(leaves, targets) <= Value(leaves) - Sum(targets)
    ensures |leaves| <= MAX_BATCH_SIZE ==> SkippedValue(leaves, targets) == 0
  {
    var batches := Chunks(LargestFirst(leaves), MAX_BATCH_SIZE);
    if |leaves| > MAX_BATCH_SIZE && Distribution(targets, batches).Ok? {
      var shares := Distribution(targets, batches).value;
      DistributionPartitions(targets, batches);
      SkippedIsSlack(batches, shares);
      SameSum(Flat(shares), targets);
      ChunksWorth(LargestFirst(leaves), MAX_BATCH_SIZE);
      ValueSort(DESCENDING, leaves);
    }
  }

  lemma {:induction false} PositiveConcat(a: seq<TreeNode>, b: seq<TreeNode>)
    ensures PositiveValues(a + b) == PositiveValues(a) + PositiveValues(b)
  {
    hide PositiveValue;
    if a == [] {
      assert a + b == b;
    } else {
      PositiveConcat(a[1..], b);
      assert (a + b)[1..] == a[1..] + b && (a + b)[0] == a[0];
      assert PositiveValues(a + b) == PositiveValues(a[1..] + b) + PositiveValue(a[0]);
    }
  }

  lemma {:induction false} ExecutedTargets(batches: seq<seq<TreeNode>>, shares: seq<seq<nat>>, service: Service)
    requires |batches| == |shares| && ReturnsTargets(service) && ExecuteAll(batches, shares, service).Ok?
    ensures multiset(Flat(shares)) <= PositiveValues(ExecuteAll(batches, shares, service).value)
  {
    if batches != [] {
      ExecutedTargets(batches[1..], shares[1..], service);
      if shares[0] != [] {
        var received := ExecuteSingle(batches[0], shares[0], service).value;
        assert multiset(shares[0]) <= PositiveValues(received);
        PositiveConcat(received, ExecuteAll(batches[1..], shares[1..], service).value);
      }
    }
  }

  /** However the request is split, it comes back with one leaf per target: what re-selection needs. */
  lemma SwapReturnsEveryTarget(leaves: seq<TreeNode>, targets: seq<nat>, service: Service)
    requires ReturnsTargets(service) && RequestSwap(leaves, targets, service).Ok?
    ensures multiset(targets) <= PositiveValues(RequestSwap(leaves, targets, service).value)
  {
    if |leaves| > MAX_BATCH_SIZE {
      hide Chunks, Distribution;
      var batches := Chunks(LargestFirst(leaves), MAX_BATCH_SIZE);
      DistributionPartitions(targets, batches);
      ExecutedTargets(batches, Distribution(targets, batches).value, service);
    }
  }

  // ----- a request that loses a leaf

  lemma {:induction false} OnesValue(leaves: seq<TreeNode>)
    requires forall x :: x in leaves ==> x.value == 1
    ensures Value(leaves) == |leaves|
  {
    if leaves != [] {
      assert leaves[0] in leaves;
      OnesValue(leaves[1..]);
    }
  }

  lemma {:induction false} LastComesFirst(ones: seq<TreeNode>, big: TreeNode)
    requires big.value > 1 && forall x :: x in ones ==> x.value == 1
    ensures SortBy(DESCENDING, ones + [big]) == [big] + ones
  {
    if ones != [] {
      forall x | x in ones[1..] ensures x.value == 1 {
        assert x in ones;
      }
      LastComesFirst(ones[1..], big);
      InsertOne(ones, big);
      assert (ones + [big])[1..] == ones[1..] + [big];
    } else {
      assert ones + [big] == [big] && [big] + ones == [big];
    }
  }

  lemma InsertOne(ones: seq<TreeNode>, big: TreeNode)
    requires big.value > 1 && ones != [] && forall x :: x in ones ==> x.value == 1
    ensures InsertBy(DESCENDING, ones[0], [big] + ones[1..]) == [big] + ones
  {
    var s := [big] + ones[1..];
    assert s[1..] == ones[1..];
    assert ones[0].value == 1 && (|ones| > 1 ==> ones[1].value == 1);
    assert InsertBy(DESCENDING, ones[0], ones[1..]) == [ones[0]] + ones[1..] == ones;
  }

  lemma {:induction false} TakesAll(ls: seq<TreeNode>, r: nat)
    requires Value(ls) <= r
    ensures Taken(ls, r) == ls
  {
    if ls != [] {
      TakesAll(ls[1..], r - ls[0].value);
    }
  }

  /** The manager finds no exact selection: the large leaf is too large and the others are too little. */
  lemma NoExactSelection(ones: seq<TreeNode>, big: TreeNode, target: nat)
    requires 1 <= |ones| == target - 1 && target < big.value && forall x :: x in ones ==> x.value == 1
    ensures !Found(ones + [big], [target])
  {
    hide Found, SortBy;
    OnesValue(ones);
    LastComesFirst(ones, big);
    SingleTarget(ones + [big], target);
    assert ([big] + ones)[1..] == ones;
    TakesAll(ones, target);
  }

  lemma CoverTakesAll(ls: seq<TreeNode>, need: int)
    requires ls != [] && Value(ls[..|ls| - 1]) < need
    ensures CoverFrom(ls, need) == ls
  {
    var k := CoverIsShortestPrefix(ls, need);
    if k < |ls| {
      PrefixMonotone(ls, k, |ls| - 1);
    }
    assert ls[..|ls|] == ls;
  }

  lemma AscendingStays(ones: seq<TreeNode>, big: TreeNode)
    requires big.value > 1 && forall x :: x in ones ==> x.value == 1
    ensures SortBy(ASCENDING, ones + [big]) == ones + [big]
  {
    SortedStays(ASCENDING, ones + [big]);
  }

  /** So it asks for a swap of all of them. */
  lemma AllLeavesAreSwapped(ones: seq<TreeNode>, big: TreeNode, target: nat)
    requires 1 <= |ones| == target - 1 && target < big.value && forall x :: x in ones ==> x.value == 1
    ensures LeavesToSwap(ones + [big], target) == Ok(ones + [big])
  {
    var available := ones + [big];
    hide SortBy, CoverFrom, Value;
    AscendingStays(ones, big);
    assert available[..|available| - 1] == ones;
    OnesValue(ones);
    CoverTakesAll(available, target);
    SwapSelectionSucceedsWhenCovered(available, target);
    LastIsWorth(ones, big);
  }

  lemma LastIsWorth(ones: seq<TreeNode>, big: TreeNode)
    ensures Value(ones + [big]) == Value(ones) + big.value
  {
    ValueConcat(ones, [big]);
  }

  /** A full batch of leaves worth 1 and a large one, for a target of one more than the small ones are
      worth: all are handed over, and the last small leaf is neither swapped nor returned, although
      every answer returns what was sent. */
  lemma SkippedBatchIsLost(ones: seq<TreeNode>, big: TreeNode, target: nat, service: Service)
    requires |ones| == MAX_BATCH_SIZE && target == MAX_BATCH_SIZE + 1 && forall x :: x in ones ==> x.value == 1
    requires target < big.value && ReturnsValue(service)
    ensures var available := ones + [big];
      && !Found(available, [target]) && LeavesToSwap(available, target) == Ok(available)
      && (RequestSwap(available, [target], service).Ok? ==>
            Value(RequestSwap(available, [target], service).value) == Value(available) - 1)
  {
    hide Found, LeavesToSwap, Chunks, Distribution, RequestSwap, Skipped, ReturnsValue, SortBy;
    var available, n := ones + [big], MAX_BATCH_SIZE;
    NoExactSelection(ones, big, target);
    AllLeavesAreSwapped(ones, big, target);
    if RequestSwap(available, [target], service).Ok? {
      SwapReturnsAllButSkipped(available, [target], service);
      LastComesFirst(ones, big);
      var sorted := [big] + ones;
      assert sorted[n..] == [ones[n - 1]];
      assert ones[n - 1] in ones;
      OneTargetSkipsTail(sorted, n, target);
    }
  }

  lemma OneTargetSkipsTail(sorted: seq<TreeNode>, n: nat, target: nat)
    requires 0 < n && |sorted| == n + 1 && target <= Value(sorted[..n])
    ensures Distribution([target], Chunks(sorted, n)) == Ok([[target], []])
    ensures Skipped(Chunks(sorted, n), [[target], []]) == Value(sorted[n..])
  {
    var batches := Chunks(sorted, n);
    assert batches == [sorted[..n]] + Chunks(sorted[n..], n);
    assert batches == [sorted[..n], sorted[n..]];
    assert SortBy(LARGER, [target]) == [target];
    PlaceInFirst(batches, target);
    SkipsSecond(sorted[..n], sorted[n..], target);
  }

  lemma PlaceInFirst(batches: seq<seq<TreeNode>>, target: nat)
    requires |batches| == 2 && target <= Value(batches[0])
    ensures Place(NoShares(batches), [target]).Ok? && Place(NoShares(batches), [target]).value.byBatch == [[target], []]
  {
    var none := NoShares(batches);
    assert FirstFit(none.remaining, target) == 0;
    var next := PlaceOne(none, target).value;
    assert next.byBatch[0] == [target] && next.byBatch[1] == [];
    assert next.byBatch == [[target], []];
    assert [target][1..] == [];
    assert Place(none, [target]) == Place(next, []) == Ok(next);
  }

  lemma SkipsSecond(first: seq<TreeNode>, second: seq<TreeNode>, n: nat)
    ensures Skipped([first, second], [[n], []]) == Value(second)
  {
    assert [first, second][1..] == [second] && [[n], []][1..] == [[]];
    var none: seq<seq<nat>> := [[]];
    assert none[0] == [];
    assert Skipped([second], none) == Value(second) + Skipped([second][1..], none[1..]);
  }
}
