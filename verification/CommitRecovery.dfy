/** Telling a committed save from a failed one when the reply may be lost. */
module CommitRecovery {
  import opened Bytes
  import opened SecretModel
  import opened SecretStore

  /** What the transport does with one request. */
  datatype Delivery = Delivered | RequestLost | ReplyLost

  /** What the status query reports. */
  datatype StatusReply = Truthful | RecoveryPending | Unreachable

  datatype Ending = Returned | ThrewRejection | ThrewRecoveryRequired | ThrewFailure | ThrewWhileReading

  /** The receipt says that exactly this batch, for exactly this change, was published. */
  ghost predicate Committed(store: Store, batch: Batch, identity: string) {
    && batch.operationId in store.operations
    && store.operations[batch.operationId] == Receipt(batch, identity, true)
  }

  /** The identifier has not been used for anything else. */
  ghost predicate OwnIdentifier(store: Store, batch: Batch, identity: string) {
    batch.operationId in store.operations ==>
      store.operations[batch.operationId].batch == batch && store.operations[batch.operationId].identity == identity
  }

  lemma CommittedWhenAccepted(store: Store, request: Request)
    ensures Outcome(store, request).Published? || Outcome(store, request).Replayed? <==>
      Committed(After(store, request), request.batch, request.identity)
    ensures Outcome(store, request) == Rejected(OperationConflict) <==>
      !OwnIdentifier(store, request.batch, request.identity)
    ensures OwnIdentifier(store, request.batch, request.identity) ==>
      OwnIdentifier(After(store, request), request.batch, request.identity)
  {
    ComplaintIsNoConflict(store.vault, request.batch.mutations);
  }

  lemma {:induction false} ComplaintIsNoConflict(vault: Vault, mutations: seq<Mutation>)
    ensures Complaint(vault, mutations) != Some(OperationConflict)
  {
    if mutations != [] {
      ComplaintIsNoConflict(vault, mutations[..|mutations| - 1]);
    }
  }

  /** The request as the server saw it. */
  function Arrived(store: Store, request: Request, delivery: Delivery): Store {
    if delivery.RequestLost? then store else After(store, request)
  }

  /** How a commit of its own identifier ends, given the state it left behind. It ends
      normally only when committed; it ends in a failure only when not committed, except
      that reading the committed state back may itself fail after a lost reply. */
  ghost predicate Settled(after: Store, batch: Batch, identity: string,
                          delivery: Delivery, status: StatusReply, readable: bool, ending: Ending)
  {
    var committed := Committed(after, batch, identity);
    && (ending.Returned? <==> committed && (delivery.Delivered? || (status.Truthful? && readable)))
    && (ending.ThrewWhileReading? <==> committed && !delivery.Delivered? && status.Truthful? && !readable)
    && (ending.ThrewRecoveryRequired? <==> !status.Truthful? && !(delivery.Delivered? && committed))
    && (ending.ThrewFailure? <==> !committed && status.Truthful?)
  }

  /** A commit whose reply is lost and whose state cannot be read back ends in an ordinary error although it took
      place: here, a save without secrets. */
  lemma UnreadableCommitThrows(ending: Ending)
    ensures
      var batch := Batch("save", []);
      var after := Arrived(Store(Vault(map[], map[]), map[]), Request(batch, "files", true), ReplyLost);
      && Committed(after, batch, "files")
      && (Settled(after, batch, "files", ReplyLost, Truthful, false, ending) ==> ending == ThrewWhileReading)
  {
    AcceptedExactly(Vault(map[], map[]), []);
  }

  /** Sends one commit and settles whether it took effect. `readable` says whether the
      committed state can be read back afterwards. */
  method CommitConfirmed(server: MemorySecureStore, cache: CachedSecureStore, batch: Batch, identity: string,
                         publishes: bool, delivery: Delivery, status: StatusReply, readable: bool)
    returns (ending: Ending)
    modifies server, cache`cached
    ensures server.State() == Arrived(old(server.State()), Request(batch, identity, publishes), delivery)
    ensures cache.cached == map[]
    ensures OwnIdentifier(old(server.State()), batch, identity) ==>
      Settled(server.State(), batch, identity, delivery, status, readable, ending)
    ensures delivery.Delivered? && !OwnIdentifier(old(server.State()), batch, identity) ==> ending.ThrewRejection?
  {
    ending := Attempt(server, batch, identity, publishes, delivery, status, readable);
    cache.Clear();
  }

  method Attempt(server: MemorySecureStore, batch: Batch, identity: string,
                 publishes: bool, delivery: Delivery, status: StatusReply, readable: bool)
    returns (ending: Ending)
    modifies server
    ensures server.State() == Arrived(old(server.State()), Request(batch, identity, publishes), delivery)
    ensures OwnIdentifier(old(server.State()), batch, identity) ==>
      Settled(server.State(), batch, identity, delivery, status, readable, ending)
    ensures delivery.Delivered? && !OwnIdentifier(old(server.State()), batch, identity) ==> ending.ThrewRejection?
  {
    hide Outcome, After, OwnIdentifier, Committed;
    CommittedWhenAccepted(server.State(), Request(batch, identity, publishes));
    if !delivery.RequestLost? {
      var result := server.CommitWith(batch, publishes, identity);
      if delivery.Delivered? {
        if !result.Rejected? {
          return Returned;
        }
        if result.error.OperationConflict? {
          return ThrewRejection;
        }
      }
    }
    if status.Unreachable? || status.RecoveryPending? {
      return ThrewRecoveryRequired;
    }
    var committed := server.OperationStatus(batch.operationId);
    if committed == Some(true) {
      ending := if readable then Returned else ThrewWhileReading;
    } else {
      ending := ThrewFailure;
    }
    StatusTells(server.State(), batch, identity);
  }

  lemma StatusTells(store: Store, batch: Batch, identity: string)
    ensures OwnIdentifier(store, batch, identity) ==>
      (Status(store, batch.operationId) == Some(true) <==> Committed(store, batch, identity))
  {
  }

  // ------------------------------------------------------------------ retries

  datatype Try = Try(request: Request, delivery: Delivery)

  /** The server after a series of attempts, some of which never arrived. */
  function ArrivedAll(store: Store, tries: seq<Try>): Store {
    if tries == [] then store
    else
      var last := tries[|tries| - 1];
      Arrived(ArrivedAll(store, tries[..|tries| - 1]), last.request, last.delivery)
  }

  /** The requests that arrived. */
  function Sent(tries: seq<Try>): seq<Request> {
    if tries == [] then []
    else
      var last := tries[|tries| - 1];
      Sent(tries[..|tries| - 1]) + if last.delivery.RequestLost? then [] else [last.request]
  }

  ghost predicate TakesEffect(store: Store, tries: seq<Try>, i: nat)
    requires i < |tries|
  {
    && !tries[i].delivery.RequestLost?
    && Outcome(ArrivedAll(store, tries[..i]), tries[i].request).Published?
  }

  lemma {:induction false} ArrivedIsSent(store: Store, tries: seq<Try>)
    ensures ArrivedAll(store, tries) == AfterAll(store, Sent(tries))
  {
    hide After;
    if tries == [] {
    } else {
      var front, last := tries[..|tries| - 1], tries[|tries| - 1];
      ArrivedIsSent(store, front);
      if last.delivery.RequestLost? {
        assert Sent(tries) == Sent(front);
      } else {
        assert Sent(tries)[..|Sent(tries)| - 1] == Sent(front);
      }
    }
  }

  lemma {:induction false} SentPrefix(tries: seq<Try>, i: nat)
    requires i < |tries| && !tries[i].delivery.RequestLost?
    ensures |Sent(tries[..i])| < |Sent(tries)|
    ensures Sent(tries)[..|Sent(tries[..i])|] == Sent(tries[..i]) && Sent(tries)[|Sent(tries[..i])|] == tries[i].request
    decreases |tries|
  {
    var front := tries[..|tries| - 1];
    if i < |front| {
      assert front[..i] == tries[..i];
      SentPrefix(front, i);
    } else {
      assert tries[..i] == front;
    }
  }

  lemma {:induction false} SentGrows(tries: seq<Try>, i: nat, j: nat)
    requires i < j <= |tries| && !tries[i].delivery.RequestLost?
    ensures |Sent(tries[..i])| < |Sent(tries[..j])|
  {
    SentPrefix(tries[..j], i);
    assert tries[..j][..i] == tries[..i];
  }

  /** However often one prepared save is sent, under whatever identifiers, with requests
      and replies lost anywhere and other commits in between, its mutations take effect
      at most once. */
  lemma SavedAtMostOnce(store: Store, tries: seq<Try>, prepared: seq<Mutation>, i: nat, j: nat)
    requires i < |tries| && j < |tries| && prepared != []
    requires forall mutation <- prepared ::
      mutation in tries[i].request.batch.mutations && mutation in tries[j].request.batch.mutations
    requires TakesEffect(store, tries, i) && TakesEffect(store, tries, j)
    ensures i == j
  {
    ArrivedIsSent(store, tries[..i]);
    ArrivedIsSent(store, tries[..j]);
    SentPrefix(tries, i);
    SentPrefix(tries, j);
    ForkedRetriesApplyOnce(store, Sent(tries), prepared, |Sent(tries[..i])|, |Sent(tries[..j])|);
    if i < j {
      SentGrows(tries, i, j);
    } else if j < i {
      SentGrows(tries, j, i);
    }
  }
}
