/** A swap request in terms of the service's answers: which batches are reached, what is reported of them,
    how the request ends, and what a refusal after sending leaves behind. */
module SwapAnswers {
  import opened LeafCache
  import opened LeafConservation
  import opened LeafListing
  import opened LeafRuns
  import opened Outcomes
  import opened SwapBatching
  import opened SwapCallbacks
  import opened SwapOutcomes

  /** A batch with targets is reached when every earlier batch with targets was answered with leaves. */
  ghost predicate Reached(batches: seq<seq<TreeNode>>, shares: seq<seq<nat>>, service: Service, i: int)
  {
    && 0 <= i < |batches| == |shares| && shares[i] != []
    && forall j :: 0 <= j < i && shares[j] != [] ==> service(batches[j], shares[j]).Ok?
  }

  /** It was reached and its transfer left the wallet, whatever became of it afterwards. */
  ghost predicate WasSent(batches: seq<seq<TreeNode>>, shares: seq<seq<nat>>, service: Service, i: int)
  {
    Reached(batches, shares, service, i) && service(batches[i], shares[i]) != Err(SendFailed)
  }

  ghost predicate Reports(batches: seq<seq<TreeNode>>, shares: seq<seq<nat>>, service: Service, i: int, id: LeafId)
  {
    WasSent(batches, shares, service, i) && id in IdsOf(batches[i])
  }

  /** It was reached and is not answered with leaves. */
  ghost predicate Stops(batches: seq<seq<TreeNode>>, shares: seq<seq<nat>>, service: Service, i: int)
  {
    Reached(batches, shares, service, i) && service(batches[i], shares[i]).Err?
  }

  ghost predicate AllValid(batches: seq<seq<TreeNode>>, shares: seq<seq<nat>>)
  {
    |batches| == |shares| && forall i :: 0 <= i < |shares| && shares[i] != [] ==> Validate(batches[i], shares[i]).Ok?
  }

  lemma ReachedLater(batches: seq<seq<TreeNode>>, shares: seq<seq<nat>>, service: Service, i: int)
    requires |batches| == |shares| > 0 && i >= 0 && (shares[0] != [] ==> service(batches[0], shares[0]).Ok?)
    ensures Reached(batches[1..], shares[1..], service, i) <==> Reached(batches, shares, service, i + 1)
  {
    assert forall j :: 0 <= j < |shares| - 1 ==> batches[1..][j] == batches[j + 1] && shares[1..][j] == shares[j + 1];
    if Reached(batches[1..], shares[1..], service, i) {
      forall j | 0 <= j < i + 1 && shares[j] != [] ensures service(batches[j], shares[j]).Ok? {
        if j > 0 {
          assert shares[1..][j - 1] != [];
        }
      }
    }
  }

  lemma ValidLater(batches: seq<seq<TreeNode>>, shares: seq<seq<nat>>)
    requires AllValid(batches, shares) && shares != []
    ensures AllValid(batches[1..], shares[1..])
  {
  }

  lemma SingleIsAnswer(batch: seq<TreeNode>, share: seq<nat>, service: Service)
    requires Validate(batch, share).Ok?
    ensures ExecuteSingle(batch, share, service) == service(batch, share)
    ensures CallsOf(batch, share, service) ==
      if service(batch, share) == Err(SendFailed) then [Registered] else [Registered, Initiated(IdsOf(batch))]
  {
  }

  // ----- how a request ends

  /** The first reached batch that is not answered with leaves decides the request. */
  lemma {:induction false} FailsAsReached(batches: seq<seq<TreeNode>>, shares: seq<seq<nat>>, service: Service, i: int)
    requires AllValid(batches, shares) && Stops(batches, shares, service, i)
    ensures ExecuteAll(batches, shares, service) == Err(service(batches[i], shares[i]).error)
  {
    hide Validate, ExecuteSingle;
    if shares[0] != [] {
      SingleIsAnswer(batches[0], shares[0], service);
    }
    if i > 0 {
      ReachedLater(batches, shares, service, i - 1);
      ValidLater(batches, shares);
      FailsAsReached(batches[1..], shares[1..], service, i - 1);
    }
  }

  lemma {:induction false} FailureIsReached(batches: seq<seq<TreeNode>>, shares: seq<seq<nat>>, service: Service) returns (i: int)
    requires AllValid(batches, shares) && ExecuteAll(batches, shares, service).Err?
    ensures Stops(batches, shares, service, i)
  {
    hide Validate, ExecuteSingle;
    if shares[0] != [] {
      SingleIsAnswer(batches[0], shares[0], service);
    }
    if shares[0] != [] && service(batches[0], shares[0]).Err? {
      i := 0;
    } else {
      ValidLater(batches, shares);
      var j := FailureIsReached(batches[1..], shares[1..], service);
      ReachedLater(batches, shares, service, j);
      i := j + 1;
    }
  }

  // ----- what is reported

  /** The ids reported as sent are those of the batches that were reached and left the wallet. */
  lemma {:induction false} SentExactly(batches: seq<seq<TreeNode>>, shares: seq<seq<nat>>, service: Service, id: LeafId)
    requires AllValid(batches, shares)
    ensures id in SentIds(AllCalls(batches, shares, service)) <==> exists i :: Reports(batches, shares, service, i, id)
  {
    if batches == [] {
      NothingSentUnannounced([]);
      hide AllValid;
      forall i ensures !Reports(batches, shares, service, i, id) { }
    } else {
      ValidLater(batches, shares);
      SentExactly(batches[1..], shares[1..], service, id);
      if shares[0] == [] {
        NoneSentFirst(batches, shares, service);
        LaterReports(batches, shares, service, id);
        assert !Reports(batches, shares, service, 0, id);
      } else {
        SentFirst(batches, shares, service);
        FirstReports(batches, shares, service, id);
        if service(batches[0], shares[0]).Ok? {
          LaterReports(batches, shares, service, id);
        }
      }
      hide *;
    }
  }

  lemma FirstReports(batches: seq<seq<TreeNode>>, shares: seq<seq<nat>>, service: Service, id: LeafId)
    requires |batches| == |shares| > 0 && shares[0] != []
    ensures Reports(batches, shares, service, 0, id) <==> service(batches[0], shares[0]) != Err(SendFailed) && id in IdsOf(batches[0])
    ensures service(batches[0], shares[0]).Err? ==> forall i :: Reports(batches, shares, service, i, id) ==> i == 0
  {
    hide IdsOf;
  }

  lemma LaterReports(batches: seq<seq<TreeNode>>, shares: seq<seq<nat>>, service: Service, id: LeafId)
    requires |batches| == |shares| > 0 && (shares[0] != [] ==> service(batches[0], shares[0]).Ok?)
    ensures (exists i :: Reports(batches[1..], shares[1..], service, i, id))
      <==> exists i :: i != 0 && Reports(batches, shares, service, i, id)
  {
    hide IdsOf;
    if i :| Reports(batches[1..], shares[1..], service, i, id) {
      ReachedLater(batches, shares, service, i);
      assert Reports(batches, shares, service, i + 1, id);
    }
    if i :| i != 0 && Reports(batches, shares, service, i, id) {
      ReachedLater(batches, shares, service, i - 1);
      assert Reports(batches[1..], shares[1..], service, i - 1, id);
    }
  }

  lemma SentFirst(batches: seq<seq<TreeNode>>, shares: seq<seq<nat>>, service: Service)
    requires AllValid(batches, shares) && shares != [] && shares[0] != []
    ensures var answer := service(batches[0], shares[0]);
      SentIds(AllCalls(batches, shares, service)) ==
        (if answer == Err(SendFailed) then [] else IdsOf(batches[0]))
        + if answer.Ok? then SentIds(AllCalls(batches[1..], shares[1..], service)) else []
  {
    hide Validate, ExecuteSingle, IdsOf;
    var answer, made := service(batches[0], shares[0]), CallsOf(batches[0], shares[0], service);
    SingleIsAnswer(batches[0], shares[0], service);
    hide CallsOf;
    SentPair(made, IdsOf(batches[0]));
    SentConcat(made, if answer.Ok? then AllCalls(batches[1..], shares[1..], service) else []);
    NothingSentUnannounced([]);
  }

  lemma SentPair(made: seq<Callback>, ids: seq<LeafId>)
    ensures made == [Registered] ==> SentIds(made) == []
    ensures made == [Registered, Initiated(ids)] ==> SentIds(made) == ids
  {
    if made == [Registered, Initiated(ids)] {
      assert made[1..] == [Initiated(ids)] && made[1..][1..] == [];
      assert SentIds(made[1..]) == ids + [] == ids;
    }
  }

  lemma NoneSentFirst(batches: seq<seq<TreeNode>>, shares: seq<seq<nat>>, service: Service)
    requires |batches| == |shares| > 0 && shares[0] == []
    ensures AllCalls(batches, shares, service) == AllCalls(batches[1..], shares[1..], service)
  {
  }

  /** Every reached batch is registered, and reported right after that when it left the wallet. */
  lemma {:induction false} RegisteredThenInitiated(batches: seq<seq<TreeNode>>, shares: seq<seq<nat>>, service: Service, i: int)
      returns (p: int)
    requires AllValid(batches, shares) && Reached(batches, shares, service, i)
    ensures var calls := AllCalls(batches, shares, service);
      && 0 <= p < |calls| && calls[p] == Registered
      && (WasSent(batches, shares, service, i) ==> p + 1 < |calls| && calls[p + 1] == Initiated(IdsOf(batches[i])))
  {
    hide Validate, ExecuteSingle, CallsOf, IdsOf;
    if shares[0] != [] {
      SingleIsAnswer(batches[0], shares[0], service);
    }
    if i == 0 {
      p := 0;
    } else {
      ReachedLater(batches, shares, service, i - 1);
      ValidLater(batches, shares);
      var q := RegisteredThenInitiated(batches[1..], shares[1..], service, i - 1);
      p := if shares[0] == [] then q else q + 2;
    }
  }

  // ----- the whole request

  /** One batch for at most 64 leaves, and the chunks of the leaves, largest first, otherwise. */
  function BatchesOf(leaves: seq<TreeNode>): seq<seq<TreeNode>>
  {
    if |leaves| <= MAX_BATCH_SIZE then [leaves] else Chunks(LargestFirst(leaves), MAX_BATCH_SIZE)
  }

  /** The targets of each batch, when they can be distributed. */
  function SharesOf(leaves: seq<TreeNode>, targets: seq<nat>): seq<seq<nat>>
  {
    if |leaves| <= MAX_BATCH_SIZE then [targets]
    else match Distribution(targets, BatchesOf(leaves)) case Ok(shares) => shares case Err(_) => []
  }

  /** The request is accepted and its targets are distributed. */
  predicate Runs(leaves: seq<TreeNode>, targets: seq<nat>)
  {
    Validate(leaves, targets).Ok? && (|leaves| > MAX_BATCH_SIZE ==> Distribution(targets, BatchesOf(leaves)).Ok?)
  }

  lemma BatchesAreValid(leaves: seq<TreeNode>, targets: seq<nat>)
    requires Runs(leaves, targets)
    ensures AllValid(BatchesOf(leaves), SharesOf(leaves, targets))
  {
    if |leaves| > MAX_BATCH_SIZE {
      hide Chunks, Distribution, Validate, LargestFirst;
      var shares := SharesOf(leaves, targets);
      forall i | 0 <= i < |shares| && shares[i] != [] ensures Validate(BatchesOf(leaves)[i], shares[i]).Ok? {
        RevalidationSucceeds(leaves, targets, i);
      }
    }
  }

  lemma RequestIsExecution(leaves: seq<TreeNode>, targets: seq<nat>, service: Service)
    requires Runs(leaves, targets)
    ensures |BatchesOf(leaves)| == |SharesOf(leaves, targets)|
    ensures RequestSwap(leaves, targets, service) == ExecuteAll(BatchesOf(leaves), SharesOf(leaves, targets), service)
    ensures SwapCalls(leaves, targets, service) == AllCalls(BatchesOf(leaves), SharesOf(leaves, targets), service)
  {
    if |leaves| <= MAX_BATCH_SIZE {
      var batches, shares := [leaves], [targets];
      assert batches[1..] == [] && shares[1..] == [];
      assert targets != [];
      hide Validate, ExecuteSingle, CallsOf;
      var single := ExecuteSingle(leaves, targets, service);
      if single.Ok? {
        assert single.value + [] == single.value;
      }
      assert CallsOf(leaves, targets, service) + [] == CallsOf(leaves, targets, service);
    } else {
      hide Chunks, Distribution, LargestFirst, ExecuteAll, AllCalls;
    }
  }

  /** A request that is refused or cannot be distributed calls back nothing and fails with that error. */
  lemma RefusedRequest(leaves: seq<TreeNode>, targets: seq<nat>, service: Service)
    requires !Runs(leaves, targets)
    ensures SwapCalls(leaves, targets, service) == []
    ensures RequestSwap(leaves, targets, service) ==
      Err(if Validate(leaves, targets).Err? then Validate(leaves, targets).error else Distribution(targets, BatchesOf(leaves)).error)
  {
    hide Chunks, Distribution, LargestFirst, ExecuteAll, AllCalls, ExecuteSingle, CallsOf;
  }

  /** For every outcome: the ids reported as sent are exactly those of the batches that were reached and
      left the wallet, whether or not the service then refused. */
  lemma RequestReportsExactly(leaves: seq<TreeNode>, targets: seq<nat>, service: Service, id: LeafId)
    requires Runs(leaves, targets)
    ensures id in SentIds(SwapCalls(leaves, targets, service)) <==>
      exists i :: Reports(BatchesOf(leaves), SharesOf(leaves, targets), service, i, id)
  {
    hide *;
    BatchesAreValid(leaves, targets);
    RequestIsExecution(leaves, targets, service);
    SentExactly(BatchesOf(leaves), SharesOf(leaves, targets), service, id);
  }

  /** It succeeds exactly when no batch stops it, and otherwise fails with the answer of the one that does. */
  lemma RequestEndsExactly(leaves: seq<TreeNode>, targets: seq<nat>, service: Service)
    requires Runs(leaves, targets)
    ensures var batches, shares, r := BatchesOf(leaves), SharesOf(leaves, targets), RequestSwap(leaves, targets, service);
      && (r.Ok? <==> forall i :: !Stops(batches, shares, service, i))
      && (forall i :: Stops(batches, shares, service, i) ==> r == Err(service(batches[i], shares[i]).error))
  {
    var batches, shares := BatchesOf(leaves), SharesOf(leaves, targets);
    BatchesAreValid(leaves, targets);
    RequestIsExecution(leaves, targets, service);
    hide Reached, AllValid, RequestSwap, BatchesOf, SharesOf, ExecuteAll, Runs;
    forall i | Stops(batches, shares, service, i) ensures ExecuteAll(batches, shares, service) == Err(service(batches[i], shares[i]).error) {
      FailsAsReached(batches, shares, service, i);
    }
    if ExecuteAll(batches, shares, service).Err? {
      var i := FailureIsReached(batches, shares, service);
    }
  }

  // ----- a refusal after sending

  /** Once some batch left the wallet, a failed request restores nothing: every leaf handed over is pending,
      also those the service refused after they were sent. */
  lemma SentLeavesStayPending(s: State, op: OpId, o: Op, leaves: seq<TreeNode>, targets: seq<nat>, service: Service, i: int)
    requires Runs(leaves, targets) && WasSent(BatchesOf(leaves), SharesOf(leaves, targets), service, i)
    requires o.Swapping? && !o.initiated && Hands(o, leaves)
    requires SwapsIntact(s) && op in s.ops && s.ops[op] == OpAfter(o, SwapCalls(leaves, targets, service))
    ensures forall x :: x in leaves ==> HasStatus(Next(s, Do(SwapFailed(op))).cache, x.id, SwapPending)
  {
    SentIsAnnounced(leaves, targets, service, i);
    hide *;
    forall x | x in leaves ensures HasStatus(Next(s, Do(SwapFailed(op))).cache, x.id, SwapPending) {
      FailureRestoresAllOrNone(s, op, o, SwapCalls(leaves, targets, service), leaves, x);
    }
  }

  lemma SentIsAnnounced(leaves: seq<TreeNode>, targets: seq<nat>, service: Service, i: int)
    requires Runs(leaves, targets) && WasSent(BatchesOf(leaves), SharesOf(leaves, targets), service, i)
    ensures Announced(SwapCalls(leaves, targets, service))
  {
    var calls := SwapCalls(leaves, targets, service);
    BatchesAreValid(leaves, targets);
    RequestIsExecution(leaves, targets, service);
    hide BatchesOf, SharesOf, AllCalls, SwapCalls, AllValid, Runs, IdsOf;
    var p := RegisteredThenInitiated(BatchesOf(leaves), SharesOf(leaves, targets), service, i);
    assert calls[p + 1].Initiated?;
  }

  /** In particular when the service refuses: a request that ends in its refusal had sent that batch. */
  lemma RefusalLeavesPending(s: State, op: OpId, o: Op, leaves: seq<TreeNode>, targets: seq<nat>, service: Service)
    requires RequestSwap(leaves, targets, service) == Err(RequestFailed)
    requires o.Swapping? && !o.initiated && Hands(o, leaves)
    requires SwapsIntact(s) && op in s.ops && s.ops[op] == OpAfter(o, SwapCalls(leaves, targets, service))
    ensures forall x :: x in leaves ==> HasStatus(Next(s, Do(SwapFailed(op))).cache, x.id, SwapPending)
  {
    var i := RefusalWasSent(leaves, targets, service);
    hide *;
    SentLeavesStayPending(s, op, o, leaves, targets, service, i);
  }

  lemma RefusalWasSent(leaves: seq<TreeNode>, targets: seq<nat>, service: Service) returns (i: int)
    requires RequestSwap(leaves, targets, service) == Err(RequestFailed)
    ensures Runs(leaves, targets) && WasSent(BatchesOf(leaves), SharesOf(leaves, targets), service, i)
  {
    RefusalRan(leaves, targets, service);
    BatchesAreValid(leaves, targets);
    RequestIsExecution(leaves, targets, service);
    hide Runs, AllValid, BatchesOf, SharesOf, RequestSwap, ExecuteAll, AllCalls, SwapCalls, Reached;
    i := FailureIsReached(BatchesOf(leaves), SharesOf(leaves, targets), service);
    FailsAsReached(BatchesOf(leaves), SharesOf(leaves, targets), service, i);
  }

  lemma RefusalRan(leaves: seq<TreeNode>, targets: seq<nat>, service: Service)
    requires RequestSwap(leaves, targets, service) == Err(RequestFailed)
    ensures Runs(leaves, targets)
  {
    if Validate(leaves, targets).Ok? && |leaves| > MAX_BATCH_SIZE {
      DistributionFails(targets, BatchesOf(leaves));
      hide Chunks, Distribution, LargestFirst, ExecuteAll;
    }
  }
}
