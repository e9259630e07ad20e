/** Secrets are kept under references that name their owner. A commit carries
    the revision each value had when it was read, and leaves a receipt under its
    operation identifier. SecretModel says what a commit does; SecretStore holds
    the stores that do it in place. */
module SecretModel {
  import opened Bytes

  type Ref = string

  const MAX_SAFE_INTEGER: int := 0x1F_FFFF_FFFF_FFFF

  datatype ScopeKind = Credentials | RuntimeState

  datatype Scope = Global(kind: ScopeKind) | Workspace(workspaceId: string, kind: ScopeKind)

  datatype Mutation = Mutation(ref: Ref, scope: Scope, expectedRevision: int, value: Option<string>)

  datatype Batch = Batch(operationId: string, mutations: seq<Mutation>)

  datatype Snapshot = Snapshot(value: Option<string>, revision: int)

  datatype Vault = Vault(values: map<Ref, string>, revisions: map<Ref, int>)

  /** What a receipt remembers: the batch, the serialised identity of the
      change it belongs to, and whether it was published. */
  datatype Receipt = Receipt(batch: Batch, identity: string, committed: bool)

  datatype Store = Store(vault: Vault, operations: map<string, Receipt>)

  datatype CommitError =
    | OperationConflict
    | AlreadyAborted
    | InvalidOperation
    | InvalidScope
    | InvalidChanges
    | ChangedExternally
    | PublicationFailed

  datatype Commit = Published | Replayed | Rejected(error: CommitError)

  /** One call of commitWith: publication is the caller's own callback and may throw. */
  datatype Request = Request(batch: Batch, identity: string, publishes: bool)

  // --------------------------------------------------- references and scopes

  predicate RefCharacter(c: char) {
    'a' <= c <= 'z' || 'A' <= c <= 'Z' || '0' <= c <= '9' || c == '_' || c == '/' || c == '-'
  }

  predicate WellFormedRef(ref: Ref) {
    && 5 < |ref| <= 512
    && ref[..5] == "purr/"
    && forall c <- ref[5..] :: RefCharacter(c)
  }

  function Segments(text: string): (parts: seq<string>)
    ensures |parts| > 0
  {
    if text == "" then [""]
    else if text[0] == '/' then [""] + Segments(text[1..])
    else
      var rest := Segments(text[1..]);
      [[text[0]] + rest[0]] + rest[1..]
  }

  function ScopeOf(ref: Ref): Option<Scope> {
    if !WellFormedRef(ref) then None
    else
      var parts := Segments(ref);
      if |parts| < 4 || parts[1] == "" || parts[1] == "__global__" then None
      else if exists segment <- parts[3..] :: segment == "" then None
      else if parts[2] != "credentials" && parts[2] != "runtime" then None
      else
        var kind := if parts[2] == "credentials" then Credentials else RuntimeState;
        Some(if parts[1] == "global" then Global(kind) else Workspace(parts[1], kind))
  }

  function KindName(kind: ScopeKind): string {
    if kind.Credentials? then "credentials" else "runtime"
  }

  lemma {:induction false} SegmentsAfter(front: string, rest: string)
    requires '/' !in front
    ensures Segments(front + "/" + rest) == [front] + Segments(rest)
  {
    var text := front + "/" + rest;
    if front == "" {
      assert text[0] == '/' && text[1..] == rest;
    } else {
      assert text[0] == front[0] && text[1..] == front[1..] + "/" + rest;
      SegmentsAfter(front[1..], rest);
      assert [front[0]] + front[1..] == front;
    }
  }

  /** Letters, digits, underscores, slashes and hyphens. */
  ghost predicate Simple(text: string) {
    forall c <- text :: 'a' <= c <= 'z' || 'A' <= c <= 'Z' || '0' <= c <= '9' || c in "_/-"
  }

  /** A well-formed reference built from an owner, a kind and a path without empty segments is
      protected by that owner's scope; one with an empty segment has none. */
  lemma BuiltRefScope(owner: string, kind: ScopeKind, path: string)
    requires owner != "" && owner != "__global__" && '/' !in owner
    requires |"purr/" + owner + "/" + KindName(kind) + "/" + path| <= 512
    requires Simple(owner) && Simple(path)
    ensures ScopeOf("purr/" + owner + "/" + KindName(kind) + "/" + path) ==
      if exists segment <- Segments(path) :: segment == "" then None
      else Some(if owner == "global" then Global(kind) else Workspace(owner, kind))
  {
    hide WellFormedRef, Segments, ScopeOf;
    BuiltRefIsWellFormed(owner, kind, path);
    WellFormedRefScope(owner, kind, path);
  }

  lemma WellFormedRefScope(owner: string, kind: ScopeKind, path: string)
    requires owner != "" && owner != "__global__" && '/' !in owner
    requires WellFormedRef("purr/" + owner + "/" + KindName(kind) + "/" + path)
    ensures ScopeOf("purr/" + owner + "/" + KindName(kind) + "/" + path) ==
      if exists segment <- Segments(path) :: segment == "" then None
      else Some(if owner == "global" then Global(kind) else Workspace(owner, kind))
  {
    hide WellFormedRef, Segments;
    var ref := "purr/" + owner + "/" + KindName(kind) + "/" + path;
    SegmentsAfter(KindName(kind), path);
    SegmentsAfter(owner, KindName(kind) + "/" + path);
    SegmentsAfter("purr", owner + "/" + KindName(kind) + "/" + path);
    assert owner + "/" + KindName(kind) + "/" + path == owner + "/" + (KindName(kind) + "/" + path);
    assert ref == "purr" + "/" + (owner + "/" + KindName(kind) + "/" + path);
    assert Segments(ref) == ["purr", owner, KindName(kind)] + Segments(path);
    assert Segments(ref)[3..] == Segments(path);
    assert Segments(ref)[1] == owner && Segments(ref)[2] == KindName(kind);
  }

  lemma BuiltRefIsWellFormed(owner: string, kind: ScopeKind, path: string)
    requires |"purr/" + owner + "/" + KindName(kind) + "/" + path| <= 512
    requires Simple(owner) && Simple(path)
    ensures WellFormedRef("purr/" + owner + "/" + KindName(kind) + "/" + path)
  {
    hide Simple, KindName, WellFormedRef;
    var rest := owner + "/" + KindName(kind) + "/" + path;
    assert "purr/" + owner + "/" + KindName(kind) + "/" + path == "purr/" + rest;
    NamesAreSimple(kind);
    SimpleConcat(owner, "/");
    SimpleConcat(owner + "/", KindName(kind));
    SimpleConcat(owner + "/" + KindName(kind), "/");
    SimpleConcat(owner + "/" + KindName(kind) + "/", path);
    SimpleIsWellFormed(rest);
  }

  lemma SimpleIsWellFormed(rest: string)
    requires Simple(rest) && rest != "" && |"purr/" + rest| <= 512
    ensures WellFormedRef("purr/" + rest)
  {
    var ref := "purr/" + rest;
    assert ref[..5] == "purr/" && ref[5..] == rest;
  }

  lemma NamesAreSimple(kind: ScopeKind)
    ensures Simple(KindName(kind)) && Simple("/")
  {
  }

  lemma SimpleConcat(a: string, b: string)
    requires Simple(a) && Simple(b)
    ensures Simple(a + b)
  {
  }

  /** The owner of a protected reference is the first name after its prefix. */
  lemma ScopeOwner(ref: Ref, owner: string)
    requires '/' !in owner && "purr/" + owner + "/" <= ref && ScopeOf(ref).Some?
    ensures if owner == "global" then ScopeOf(ref).value.Global?
            else ScopeOf(ref).value.Workspace? && ScopeOf(ref).value.workspaceId == owner
  {
    hide WellFormedRef, Segments;
    var prefix := "purr/" + owner + "/";
    var rest := ref[|prefix|..];
    SegmentsAfter(owner, rest);
    SegmentsAfter("purr", owner + "/" + rest);
    assert ref == "purr" + "/" + (owner + "/" + rest);
    assert Segments(ref)[1] == owner;
  }

  function Joined(parts: seq<string>): string
    requires parts != []
  {
    if |parts| == 1 then parts[0] else parts[0] + "/" + Joined(parts[1..])
  }

  lemma {:induction false} JoinSegments(text: string)
    ensures Joined(Segments(text)) == text
    ensures forall part <- Segments(text) :: '/' !in part
  {
    if text != "" {
      var rest := Segments(text[1..]);
      JoinSegments(text[1..]);
      if text[0] == '/' {
        assert ([""] + rest)[1..] == rest;
        assert text == "" + "/" + text[1..];
      } else {
        var parts := [[text[0]] + rest[0]] + rest[1..];
        assert parts[1..] == rest[1..];
        assert Joined(parts) == [text[0]] + Joined(rest);
        assert text == [text[0]] + text[1..];
      }
    }
  }

  /** Every reference that has a scope is built from an owner, a kind and a path without empty segments. */
  lemma ScopedRefIsBuilt(ref: Ref) returns (owner: string, kind: ScopeKind, path: string)
    requires ScopeOf(ref).Some?
    ensures ref == "purr/" + owner + "/" + KindName(kind) + "/" + path && |ref| <= 512
    ensures owner != "" && owner != "__global__" && '/' !in owner && "" !in Segments(path)
    ensures Simple(ref)
  {
    hide Segments, Joined, Simple, ScopeOf, WellFormedRef, KindName;
    ScopeParts(ref);
    var parts := Segments(ref);
    JoinSegments(ref);
    FirstSegment(ref);
    owner, kind := parts[1], if parts[2] == "credentials" then Credentials else RuntimeState;
    path := Joined(parts[3..]);
    assert parts[1] in parts;
    JoinFour(parts);
    assert ref == "purr" + "/" + (owner + "/" + (KindName(kind) + "/" + path));
    PartsOfPath(ref, owner, kind, path);
    WellFormedIsSimple(ref);
  }

  lemma ScopeParts(ref: Ref)
    requires ScopeOf(ref).Some?
    ensures
      var parts := Segments(ref);
      && WellFormedRef(ref) && |ref| <= 512
      && |parts| >= 4 && parts[1] != "" && parts[1] != "__global__" && "" !in parts[3..]
      && parts[2] == KindName(if parts[2] == "credentials" then Credentials else RuntimeState)
  {
    hide Segments;
  }

  lemma WellFormedIsSimple(ref: Ref)
    requires WellFormedRef(ref)
    ensures Simple(ref)
  {
    assert ref == "purr/" + ref[5..];
  }

  lemma JoinFour(parts: seq<string>)
    requires |parts| >= 4
    ensures Joined(parts) == parts[0] + "/" + (parts[1] + "/" + (parts[2] + "/" + Joined(parts[3..])))
  {
    assert parts[1..][1..] == parts[2..] && parts[2..][1..] == parts[3..];
    assert Joined(parts[2..]) == parts[2] + "/" + Joined(parts[3..]);
    assert Joined(parts[1..]) == parts[1] + "/" + Joined(parts[2..]);
  }

  lemma FirstSegment(ref: Ref)
    requires WellFormedRef(ref)
    ensures Segments(ref)[0] == "purr"
  {
    hide Segments;
    SegmentsAfter("purr", ref[5..]);
    assert ref == "purr" + "/" + ref[5..];
  }

  lemma PartsOfPath(ref: Ref, owner: string, kind: ScopeKind, path: string)
    requires '/' !in owner && ref == "purr" + "/" + (owner + "/" + (KindName(kind) + "/" + path))
    ensures |Segments(ref)| >= 3 && Segments(ref)[3..] == Segments(path)
  {
    hide Segments;
    SegmentsAfter(KindName(kind), path);
    SegmentsAfter(owner, KindName(kind) + "/" + path);
    SegmentsAfter("purr", owner + "/" + KindName(kind) + "/" + path);
    assert owner + "/" + KindName(kind) + "/" + path == owner + "/" + (KindName(kind) + "/" + path);
    assert KindName(kind) + "/" + path == KindName(kind) + "/" + path;
    assert Segments(ref) == ["purr", owner, KindName(kind)] + Segments(path);
  }

  // --------------------------------------------------------------- the vault

  function Revision(vault: Vault, ref: Ref): int {
    if ref in vault.revisions then vault.revisions[ref] else 0
  }

  function Value(vault: Vault, ref: Ref): Option<string> {
    if ref in vault.values then Some(vault.values[ref]) else None
  }

  function Read(vault: Vault, ref: Ref): Snapshot {
    Snapshot(Value(vault, ref), Revision(vault, ref))
  }

  function Put(vault: Vault, mutation: Mutation): Vault {
    Vault(
      if mutation.value.None? then vault.values - {mutation.ref}
      else vault.values[mutation.ref := mutation.value.value],
      vault.revisions[mutation.ref := mutation.expectedRevision + 1])
  }

  function PutAll(vault: Vault, mutations: seq<Mutation>): Vault {
    if mutations == [] then vault
    else Put(PutAll(vault, mutations[..|mutations| - 1]), mutations[|mutations| - 1])
  }

  // -------------------------------------------------------- checking a batch

  function RefsOf(mutations: seq<Mutation>): set<Ref> {
    set mutation <- mutations :: mutation.ref
  }

  function Judge(vault: Vault, seen: set<Ref>, mutation: Mutation): Option<CommitError> {
    if ScopeOf(mutation.ref) != Some(mutation.scope) then Some(InvalidScope)
    else if mutation.ref in seen || !(0 <= mutation.expectedRevision <= MAX_SAFE_INTEGER) then Some(InvalidChanges)
    else if Revision(vault, mutation.ref) != mutation.expectedRevision then Some(ChangedExternally)
    else None
  }

  /** The first complaint about a list of mutations, in order. */
  function Complaint(vault: Vault, mutations: seq<Mutation>): Option<CommitError> {
    if mutations == [] then None
    else
      var front := mutations[..|mutations| - 1];
      var earlier := Complaint(vault, front);
      if earlier.Some? then earlier else Judge(vault, RefsOf(front), mutations[|mutations| - 1])
  }

  ghost predicate Distinct(mutations: seq<Mutation>) {
    forall i, j :: 0 <= i < j < |mutations| ==> mutations[i].ref != mutations[j].ref
  }

  ghost predicate Current(vault: Vault, mutation: Mutation) {
    && ScopeOf(mutation.ref) == Some(mutation.scope)
    && 0 <= mutation.expectedRevision <= MAX_SAFE_INTEGER
    && Revision(vault, mutation.ref) == mutation.expectedRevision
  }

  ghost predicate Acceptable(vault: Vault, mutations: seq<Mutation>) {
    && Distinct(mutations)
    && forall mutation <- mutations :: Current(vault, mutation)
  }

  function Outcome(store: Store, request: Request): Commit {
    var batch := request.batch;
    if batch.operationId in store.operations then
      var prior := store.operations[batch.operationId];
      if prior.batch != batch || prior.identity != request.identity then Rejected(OperationConflict)
      else if prior.committed then Replayed
      else Rejected(AlreadyAborted)
    else if batch.operationId == "" then Rejected(InvalidOperation)
    else
      var complaint := Complaint(store.vault, batch.mutations);
      if complaint.Some? then Rejected(complaint.value)
      else if !request.publishes then Rejected(PublicationFailed)
      else Published
  }

  function After(store: Store, request: Request): Store {
    var batch := request.batch;
    if batch.operationId in store.operations then store
    else
      var published := Outcome(store, request).Published?;
      Store(
        if published then PutAll(store.vault, batch.mutations) else store.vault,
        store.operations[batch.operationId := Receipt(batch, request.identity, published)])
  }

  function AfterAll(store: Store, requests: seq<Request>): Store {
    if requests == [] then store
    else After(AfterAll(store, requests[..|requests| - 1]), requests[|requests| - 1])
  }

  function Status(store: Store, operationId: string): Option<bool> {
    if operationId in store.operations then Some(store.operations[operationId].committed) else None
  }

  /** A commit takes place exactly when every mutation, each of a different
      reference, names the revision the vault holds. */
  lemma {:induction false} AcceptedExactly(vault: Vault, mutations: seq<Mutation>)
    ensures Complaint(vault, mutations).None? <==> Acceptable(vault, mutations)
  {
    hide ScopeOf, Acceptable;
    if mutations == [] {
      AcceptableEmpty(vault);
    } else {
      var front, last := mutations[..|mutations| - 1], mutations[|mutations| - 1];
      AcceptedExactly(vault, front);
      assert mutations == front + [last];
      AcceptableSnoc(vault, front, last);
    }
  }

  /** What is wrong with the mutation at `i`, when nothing is with those before it. */
  ghost predicate Blamed(vault: Vault, mutations: seq<Mutation>, i: nat, error: CommitError)
    requires i < |mutations|
  {
    var mutation := mutations[i];
    var scoped := ScopeOf(mutation.ref) == Some(mutation.scope);
    var unseen := forall j :: 0 <= j < i ==> mutations[j].ref != mutation.ref;
    var safe := 0 <= mutation.expectedRevision <= MAX_SAFE_INTEGER;
    && Acceptable(vault, mutations[..i])
    && (error.InvalidScope? || error.InvalidChanges? || error.ChangedExternally?)
    && (error.InvalidScope? <==> !scoped)
    && (error.InvalidChanges? <==> scoped && !(unseen && safe))
    && (error.ChangedExternally? ==> Revision(vault, mutation.ref) != mutation.expectedRevision)
  }

  /** A complaint is about the first mutation that is not acceptable, and says what is wrong with it. */
  lemma {:induction false} ComplaintBlames(vault: Vault, mutations: seq<Mutation>)
    ensures Complaint(vault, mutations).Some? ==>
      exists i :: 0 <= i < |mutations| && Blamed(vault, mutations, i, Complaint(vault, mutations).value)
  {
    hide ScopeOf, Acceptable;
    if mutations != [] {
      var n := |mutations| - 1;
      var front := mutations[..n];
      ComplaintBlames(vault, front);
      if Complaint(vault, front).Some? {
        var i :| 0 <= i < n && Blamed(vault, front, i, Complaint(vault, front).value);
        assert front[..i] == mutations[..i];
        assert Blamed(vault, mutations, i, Complaint(vault, front).value);
      } else if Complaint(vault, mutations).Some? {
        AcceptedExactly(vault, front);
        assert (forall j :: 0 <= j < n ==> mutations[j].ref != mutations[n].ref) <==> mutations[n].ref !in RefsOf(front) by {
          forall j | 0 <= j < n ensures mutations[j].ref in RefsOf(front) {
            assert front[j] in front;
          }
        }
        assert Blamed(vault, mutations, n, Complaint(vault, mutations).value);
      }
    }
  }

  lemma RefsOfSnoc(front: seq<Mutation>, last: Mutation)
    ensures RefsOf(front + [last]) == RefsOf(front) + {last.ref}
  {
    forall ref | ref in RefsOf(front) + {last.ref} ensures ref in RefsOf(front + [last]) {
      if ref == last.ref {
        assert last in front + [last];
      } else {
        var mutation :| mutation in front && mutation.ref == ref;
        assert mutation in front + [last];
      }
    }
  }

  /** As many references as mutations means that no two mutations share one. */
  lemma {:induction false} CountedDistinct(mutations: seq<Mutation>)
    ensures |RefsOf(mutations)| <= |mutations|
    ensures |RefsOf(mutations)| == |mutations| ==> Distinct(mutations)
  {
    if mutations == [] {
    } else {
      var front, last := mutations[..|mutations| - 1], mutations[|mutations| - 1];
      assert mutations == front + [last];
      CountedDistinct(front);
      RefsOfSnoc(front, last);
      if |RefsOf(mutations)| == |mutations| {
        assert last.ref !in RefsOf(front);
        forall i | 0 <= i < |front| ensures front[i].ref != last.ref {
          assert front[i] in front;
        }
      }
    }
  }

  lemma {:induction false} DistinctCounted(mutations: seq<Mutation>)
    requires Distinct(mutations)
    ensures |RefsOf(mutations)| == |mutations|
  {
    if mutations == [] {
      assert RefsOf(mutations) == {};
    } else {
      var front, last := mutations[..|mutations| - 1], mutations[|mutations| - 1];
      assert mutations == front + [last];
      DistinctCounted(front);
      RefsOfSnoc(front, last);
    }
  }

  lemma AcceptableEmpty(vault: Vault)
    ensures Acceptable(vault, [])
  {
  }

  lemma AcceptableSnoc(vault: Vault, front: seq<Mutation>, last: Mutation)
    ensures Acceptable(vault, front + [last]) <==>
      Acceptable(vault, front) && last.ref !in RefsOf(front) && Current(vault, last)
  {
    hide Current;
    var all := front + [last];
    if Acceptable(vault, all) {
      forall mutation <- front ensures Current(vault, mutation) && mutation.ref != last.ref {
        var i :| 0 <= i < |front| && front[i] == mutation;
        assert all[i] == mutation && all[|front|] == last;
      }
      assert last in all;
      forall i, j | 0 <= i < j < |front| ensures front[i].ref != front[j].ref {
        assert all[i].ref != all[j].ref;
      }
    }
    if Acceptable(vault, front) && last.ref !in RefsOf(front) && Current(vault, last) {
      forall i, j | 0 <= i < j < |all| ensures all[i].ref != all[j].ref {
        assert front[i] in front;
      }
    }
  }

  lemma NoComplaint(vault: Vault, mutations: seq<Mutation>)
    ensures Complaint(vault, mutations[..0]).None? && RefsOf(mutations[..0]) == {}
  {
  }

  lemma NextComplaint(vault: Vault, mutations: seq<Mutation>, i: nat)
    requires i < |mutations| && Complaint(vault, mutations[..i]).None?
    ensures Complaint(vault, mutations[..i + 1]) == Judge(vault, RefsOf(mutations[..i]), mutations[i])
    ensures RefsOf(mutations[..i + 1]) == RefsOf(mutations[..i]) + {mutations[i].ref}
  {
    hide Judge, RefsOf;
    assert mutations[..i + 1][..i] == mutations[..i];
    RefsOfSnoc(mutations[..i], mutations[i]);
    assert mutations[..i + 1] == mutations[..i] + [mutations[i]];
  }

  lemma {:induction false} ComplaintStays(vault: Vault, mutations: seq<Mutation>, i: nat)
    requires i <= |mutations| && Complaint(vault, mutations[..i]).Some?
    ensures Complaint(vault, mutations) == Complaint(vault, mutations[..i])
    decreases |mutations|
  {
    if i == |mutations| {
      assert mutations[..i] == mutations;
    } else {
      var front := mutations[..|mutations| - 1];
      assert front[..i] == mutations[..i];
      ComplaintStays(vault, front, i);
    }
  }

  lemma PutRead(vault: Vault, mutation: Mutation, ref: Ref)
    ensures Read(Put(vault, mutation), ref) ==
      if ref == mutation.ref then Snapshot(mutation.value, mutation.expectedRevision + 1) else Read(vault, ref)
  {
  }

  /** What a published batch leaves behind, reference by reference. */
  lemma {:induction false} PutAllReads(vault: Vault, mutations: seq<Mutation>, ref: Ref)
    requires Distinct(mutations)
    ensures ref !in RefsOf(mutations) ==> Read(PutAll(vault, mutations), ref) == Read(vault, ref)
    ensures forall mutation <- mutations :: mutation.ref == ref ==>
      Read(PutAll(vault, mutations), ref) == Snapshot(mutation.value, mutation.expectedRevision + 1)
  {
    hide Put, Read;
    if mutations == [] {
    } else {
      var front, last := mutations[..|mutations| - 1], mutations[|mutations| - 1];
      PutAllReads(vault, front, ref);
      PutRead(PutAll(vault, front), last, ref);
      forall i | 0 <= i < |mutations| ensures mutations[i].ref in RefsOf(mutations) {
        assert mutations[i] in mutations;
      }
      forall i | 0 <= i < |front| ensures front[i].ref in RefsOf(mutations) {
        assert mutations[i].ref in RefsOf(mutations);
      }
      forall mutation <- mutations | mutation.ref == ref
        ensures Read(PutAll(vault, mutations), ref) == Snapshot(mutation.value, mutation.expectedRevision + 1)
      {
        if ref != last.ref {
          assert mutation in front;
        } else {
          var i :| 0 <= i < |mutations| && mutations[i] == mutation;
        }
      }
    }
  }

  lemma PublishedMeansAcceptable(store: Store, request: Request)
    ensures Outcome(store, request).Published? <==>
      && request.batch.operationId !in store.operations && request.batch.operationId != ""
      && Acceptable(store.vault, request.batch.mutations) && request.publishes
    ensures !Outcome(store, request).Published? ==> After(store, request).vault == store.vault
  {
    AcceptedExactly(store.vault, request.batch.mutations);
  }

  /** A revision never goes back, and a value never changes under one revision. */
  lemma StepRevises(store: Store, request: Request, ref: Ref)
    ensures Revision(store.vault, ref) <= Revision(After(store, request).vault, ref)
    ensures Read(After(store, request).vault, ref) != Read(store.vault, ref) ==>
      Revision(store.vault, ref) < Revision(After(store, request).vault, ref)
  {
    PublishedMeansAcceptable(store, request);
    if Outcome(store, request).Published? {
      PutAllReads(store.vault, request.batch.mutations, ref);
      if ref in RefsOf(request.batch.mutations) {
        var mutation :| mutation in request.batch.mutations && mutation.ref == ref;
        assert Current(store.vault, mutation);
      }
    }
  }

  lemma {:induction false} RunRevises(store: Store, requests: seq<Request>, ref: Ref)
    ensures Revision(store.vault, ref) <= Revision(AfterAll(store, requests).vault, ref)
    ensures Read(AfterAll(store, requests).vault, ref) != Read(store.vault, ref) ==>
      Revision(store.vault, ref) < Revision(AfterAll(store, requests).vault, ref)
  {
    if requests == [] {
    } else {
      var front := requests[..|requests| - 1];
      RunRevises(store, front, ref);
      StepRevises(AfterAll(store, front), requests[|requests| - 1], ref);
    }
  }

  lemma {:induction false} AfterAllSplit(store: Store, requests: seq<Request>, i: nat)
    requires i <= |requests|
    ensures AfterAll(store, requests) == AfterAll(AfterAll(store, requests[..i]), requests[i..])
    decreases |requests|
  {
    if i == |requests| {
      assert requests[..i] == requests;
    } else {
      var front := requests[..|requests| - 1];
      AfterAllSplit(store, front, i);
      assert front[..i] == requests[..i];
      assert requests[i..][..|requests[i..]| - 1] == front[i..];
    }
  }

  ghost predicate Publishes(store: Store, requests: seq<Request>, i: nat, ref: Ref, revision: int)
    requires i < |requests|
  {
    && Outcome(AfterAll(store, requests[..i]), requests[i]).Published?
    && exists mutation <- requests[i].batch.mutations :: mutation.ref == ref && mutation.expectedRevision == revision
  }

  /** Whatever is sent, in whatever order and however often: of all requests
      that change one reference from one revision, at most one takes effect. */
  lemma AppliedAtMostOnce(store: Store, requests: seq<Request>, i: nat, j: nat, ref: Ref, revision: int)
    requires i < |requests| && j < |requests|
    requires Publishes(store, requests, i, ref, revision) && Publishes(store, requests, j, ref, revision)
    ensures i == j
  {
    if i < j {
      NotTwice(store, requests, i, j, ref, revision);
    } else if j < i {
      NotTwice(store, requests, j, i, ref, revision);
    }
  }

  lemma PublishRevises(store: Store, requests: seq<Request>, i: nat, ref: Ref, revision: int)
    requires i < |requests| && Publishes(store, requests, i, ref, revision)
    ensures Revision(AfterAll(store, requests[..i]).vault, ref) == revision
    ensures Revision(AfterAll(store, requests[..i + 1]).vault, ref) == revision + 1
  {
    var before := AfterAll(store, requests[..i]);
    assert requests[..i + 1][..i] == requests[..i];
    PublishedMeansAcceptable(before, requests[i]);
    PutAllReads(before.vault, requests[i].batch.mutations, ref);
    assert forall mutation <- requests[i].batch.mutations :: Current(before.vault, mutation);
  }

  lemma NotTwice(store: Store, requests: seq<Request>, i: nat, j: nat, ref: Ref, revision: int)
    requires i < j < |requests|
    requires Publishes(store, requests, i, ref, revision)
    ensures !Publishes(store, requests, j, ref, revision)
  {
    PublishRevises(store, requests, i, ref, revision);
    AfterAllSplit(store, requests[..j], i + 1);
    assert requests[..j][..i + 1] == requests[..i + 1];
    RunRevises(AfterAll(store, requests[..i + 1]), requests[..j][i + 1..], ref);
    if Publishes(store, requests, j, ref, revision) {
      PublishRevises(store, requests, j, ref, revision);
    }
  }

  /** A prepared save and its forked retries, each under its own identifier and
      perhaps with more mutations of its own, take effect at most once. */
  lemma ForkedRetriesApplyOnce(store: Store, requests: seq<Request>, prepared: seq<Mutation>, i: nat, j: nat)
    requires i < |requests| && j < |requests| && prepared != []
    requires forall mutation <- prepared :: mutation in requests[i].batch.mutations && mutation in requests[j].batch.mutations
    requires Outcome(AfterAll(store, requests[..i]), requests[i]).Published?
    requires Outcome(AfterAll(store, requests[..j]), requests[j]).Published?
    ensures i == j
  {
    var mutation := prepared[0];
    assert mutation in prepared;
    AppliedAtMostOnce(store, requests, i, j, mutation.ref, mutation.expectedRevision);
  }

  /** Once published, an operation stays published, and sending it again
      changes nothing. */
  lemma {:induction false} ReceiptsStay(store: Store, requests: seq<Request>, operationId: string)
    requires operationId in store.operations
    ensures operationId in AfterAll(store, requests).operations
    ensures AfterAll(store, requests).operations[operationId] == store.operations[operationId]
  {
    if requests != [] {
      ReceiptsStay(store, requests[..|requests| - 1], operationId);
    }
  }

  lemma ReplayChangesNothing(store: Store, request: Request, later: seq<Request>, again: Request)
    requires Outcome(store, request).Published?
    requires again.batch == request.batch && again.identity == request.identity
    ensures
      var now := AfterAll(After(store, request), later);
      Outcome(now, again) == Replayed && After(now, again) == now
  {
    ReceiptsStay(After(store, request), later, request.batch.operationId);
  }

  /** A refused operation stays refused: nothing is ever published under its identifier. */
  lemma RefusalStays(store: Store, request: Request, later: seq<Request>, again: Request)
    requires request.batch.operationId !in store.operations && !Outcome(store, request).Published?
    requires again.batch.operationId == request.batch.operationId
    ensures
      var now := AfterAll(After(store, request), later);
      && Outcome(now, again) ==
           Rejected(if again.batch == request.batch && again.identity == request.identity then AlreadyAborted else OperationConflict)
      && After(now, again) == now && Status(now, request.batch.operationId) == Some(false)
  {
    ReceiptsStay(After(store, request), later, request.batch.operationId);
  }

  // ---- preparation: baselines read from the source and values staged on top

  ghost predicate Prepared(baselines: map<Ref, Snapshot>, staged: map<Ref, Option<string>>, order: seq<Ref>) {
    && (forall i, j :: 0 <= i < j < |order| ==> order[i] != order[j])
    && (forall ref :: ref in order <==> ref in staged)
    && (forall ref <- staged :: ref in baselines && ScopeOf(ref).Some?)
  }

  /** The mutations a prepared save sends: staged values that differ from what
      was read, in the order they were first staged. */
  function MutationsOf(baselines: map<Ref, Snapshot>, staged: map<Ref, Option<string>>, order: seq<Ref>): seq<Mutation>
    requires forall ref <- order :: ref in staged && ref in baselines && ScopeOf(ref).Some?
  {
    if order == [] then []
    else
      var front, ref := order[..|order| - 1], order[|order| - 1];
      var earlier := MutationsOf(baselines, staged, front);
      if baselines[ref].value == staged[ref] then earlier
      else earlier + [Mutation(ref, ScopeOf(ref).value, baselines[ref].revision, staged[ref])]
  }

  lemma {:induction false} MutationsMean(baselines: map<Ref, Snapshot>, staged: map<Ref, Option<string>>, order: seq<Ref>)
    requires forall ref <- order :: ref in staged && ref in baselines && ScopeOf(ref).Some?
    requires forall i, j :: 0 <= i < j < |order| ==> order[i] != order[j]
    ensures Distinct(MutationsOf(baselines, staged, order))
    ensures forall mutation <- MutationsOf(baselines, staged, order) ::
      && mutation.ref in order
      && mutation == Mutation(mutation.ref, ScopeOf(mutation.ref).value, baselines[mutation.ref].revision, staged[mutation.ref])
  {
    hide ScopeOf;
    if order == [] {
    } else {
      var front, last := order[..|order| - 1], order[|order| - 1];
      assert order == front + [last];
      MutationsMean(baselines, staged, front);
      var earlier := MutationsOf(baselines, staged, front);
      forall i | 0 <= i < |earlier| ensures earlier[i].ref != last {
        assert earlier[i] in earlier;
      }
    }
  }

  lemma {:induction false} MutationsCover(baselines: map<Ref, Snapshot>, staged: map<Ref, Option<string>>, order: seq<Ref>, ref: Ref)
    requires forall ref <- order :: ref in staged && ref in baselines && ScopeOf(ref).Some?
    requires ref in order && baselines[ref].value != staged[ref]
    ensures exists mutation <- MutationsOf(baselines, staged, order) :: mutation.ref == ref
  {
    hide ScopeOf;
    var front, last := order[..|order| - 1], order[|order| - 1];
    var all := MutationsOf(baselines, staged, order);
    if ref == last {
      assert all[|all| - 1].ref == ref;
    } else {
      assert order == front + [last];
      MutationsCover(baselines, staged, front, ref);
      var mutation :| mutation in MutationsOf(baselines, staged, front) && mutation.ref == ref;
      assert mutation in all;
    }
  }

  /** How a reference reads through a preparation store over the vault. */
  function ReadThrough(vault: Vault, baselines: map<Ref, Snapshot>, staged: map<Ref, Option<string>>, ref: Ref): Option<string> {
    if ref in staged then staged[ref]
    else if ref in baselines then baselines[ref].value
    else Value(vault, ref)
  }

  ghost predicate Unchanged(vault: Vault, baselines: map<Ref, Snapshot>) {
    forall ref <- baselines :: Read(vault, ref) == baselines[ref]
  }

  ghost predicate Countable(mutations: seq<Mutation>) {
    forall mutation <- mutations :: 0 <= mutation.expectedRevision <= MAX_SAFE_INTEGER
  }

  /** A save whose baselines still hold is accepted, unless a revision has outgrown
      the safe integers, and then every reference reads from the vault as it read
      through the preparation store. */
  lemma SaveReadsBack(store: Store, baselines: map<Ref, Snapshot>, staged: map<Ref, Option<string>>, order: seq<Ref>,
                      operationId: string, identity: string)
    requires Prepared(baselines, staged, order) && Unchanged(store.vault, baselines)
    requires operationId != "" && operationId !in store.operations
    ensures
      var request := Request(Batch(operationId, MutationsOf(baselines, staged, order)), identity, true);
      && (Outcome(store, request) == Published <==> Countable(request.batch.mutations))
      && (Outcome(store, request) == Published ==>
            forall ref :: Value(After(store, request).vault, ref) == ReadThrough(store.vault, baselines, staged, ref))
  {
    var mutations := MutationsOf(baselines, staged, order);
    var request := Request(Batch(operationId, mutations), identity, true);
    MutationsMean(baselines, staged, order);
    assert Acceptable(store.vault, mutations) <==> Countable(mutations) by {
      forall mutation <- mutations
        ensures Current(store.vault, mutation) <==> 0 <= mutation.expectedRevision <= MAX_SAFE_INTEGER
      {
        assert Read(store.vault, mutation.ref) == baselines[mutation.ref];
      }
    }
    PublishedMeansAcceptable(store, request);
    if Outcome(store, request) == Published {
      forall ref ensures Value(After(store, request).vault, ref) == ReadThrough(store.vault, baselines, staged, ref) {
        SavedRefReadsBack(store, baselines, staged, order, ref);
        assert After(store, request).vault == PutAll(store.vault, mutations);
      }
    }
  }

  lemma SavedRefReadsBack(store: Store, baselines: map<Ref, Snapshot>, staged: map<Ref, Option<string>>, order: seq<Ref>, ref: Ref)
    requires Prepared(baselines, staged, order) && Unchanged(store.vault, baselines)
    ensures Value(PutAll(store.vault, MutationsOf(baselines, staged, order)), ref) ==
      ReadThrough(store.vault, baselines, staged, ref)
  {
    hide ScopeOf;
    var mutations := MutationsOf(baselines, staged, order);
    MutationsMean(baselines, staged, order);
    PutAllReads(store.vault, mutations, ref);
    if ref in RefsOf(mutations) {
      var mutation :| mutation in mutations && mutation.ref == ref;
      assert Read(PutAll(store.vault, mutations), ref).value == mutation.value;
    } else {
      assert Read(PutAll(store.vault, mutations), ref) == Read(store.vault, ref);
      if ref in staged && baselines[ref].value != staged[ref] {
        MutationsCover(baselines, staged, order, ref);
      }
    }
  }

  /** If a reference the save means to change was changed by any run of other
      commits since it was read, the save is rejected and the vault is untouched. */
  lemma StaleSaveRejected(store: Store, between: seq<Request>, baselines: map<Ref, Snapshot>,
                          staged: map<Ref, Option<string>>, order: seq<Ref>, ref: Ref,
                          operationId: string, identity: string, publishes: bool)
    requires Prepared(baselines, staged, order)
    requires ref in staged && baselines[ref] == Read(store.vault, ref) && baselines[ref].value != staged[ref]
    requires Read(AfterAll(store, between).vault, ref) != Read(store.vault, ref)
    ensures
      var now := AfterAll(store, between);
      var request := Request(Batch(operationId, MutationsOf(baselines, staged, order)), identity, publishes);
      Outcome(now, request) != Published && After(now, request).vault == now.vault
  {
    var now := AfterAll(store, between);
    var mutations := MutationsOf(baselines, staged, order);
    var request := Request(Batch(operationId, mutations), identity, publishes);
    RunRevises(store, between, ref);
    MutationsMean(baselines, staged, order);
    MutationsCover(baselines, staged, order, ref);
    PublishedMeansAcceptable(now, request);
    var mutation :| mutation in mutations && mutation.ref == ref;
    assert !Current(now.vault, mutation);
  }
}

module SecretStore {
  import opened Bytes
  import opened SecretModel

  /** The store everything else is measured against: values, revisions and
      receipts, all changed by commitWith alone. */
  class MemorySecureStore {
    var values: map<Ref, string>
    var revisions: map<Ref, int>
    var operations: map<string, Receipt>

    constructor ()
      ensures State() == Store(Vault(map[], map[]), map[])
    {
      values, revisions, operations := map[], map[], map[];
    }

    function State(): Store
      reads this
    {
      Store(Vault(values, revisions), operations)
    }

    method ReadRef(ref: Ref) returns (result: Option<Snapshot>)
      ensures result == if WellFormedRef(ref) then Some(Read(State().vault, ref)) else None
    {
      if !WellFormedRef(ref) {
        return None;
      }
      result := Some(Snapshot(if ref in values then Some(values[ref]) else None,
                              if ref in revisions then revisions[ref] else 0));
    }

    method CommitWith(batch: Batch, publishes: bool, identity: string) returns (result: Commit)
      modifies this
      ensures result == Outcome(old(State()), Request(batch, identity, publishes))
      ensures State() == After(old(State()), Request(batch, identity, publishes))
    {
      if batch.operationId in operations {
        var prior := operations[batch.operationId];
        if prior.batch != batch || prior.identity != identity {
          return Rejected(OperationConflict);
        }
        return if prior.committed then Replayed else Rejected(AlreadyAborted);
      }
      var failure := Validate(batch);
      if failure.None? && !publishes {
        failure := Some(PublicationFailed);
      }
      if failure.Some? {
        operations := operations[batch.operationId := Receipt(batch, identity, false)];
        return Rejected(failure.value);
      }
      Apply(batch.mutations);
      operations := operations[batch.operationId := Receipt(batch, identity, true)];
      result := Published;
    }

    method Validate(batch: Batch) returns (failure: Option<CommitError>)
      ensures failure ==
        if batch.operationId == "" then Some(InvalidOperation) else Complaint(State().vault, batch.mutations)
    {
      hide Judge, Complaint, RefsOf;
      if batch.operationId == "" {
        return Some(InvalidOperation);
      }
      var mutations := batch.mutations;
      var seen: set<Ref> := {};
      var i := 0;
      NoComplaint(State().vault, mutations);
      while i < |mutations|
        invariant 0 <= i <= |mutations|
        invariant seen == RefsOf(mutations[..i])
        invariant Complaint(State().vault, mutations[..i]).None?
      {
        NextComplaint(State().vault, mutations, i);
        failure := Judge(Vault(values, revisions), seen, mutations[i]);
        if failure.Some? {
          ComplaintStays(State().vault, mutations, i + 1);
          return;
        }
        seen := seen + {mutations[i].ref};
        i := i + 1;
      }
      assert mutations[..i] == mutations;
      failure := None;
    }

    method Apply(mutations: seq<Mutation>)
      modifies `values, `revisions
      ensures State().vault == PutAll(old(State().vault), mutations)
    {
      var i := 0;
      assert mutations[..0] == [];
      while i < |mutations|
        invariant 0 <= i <= |mutations|
        invariant State().vault == PutAll(old(State().vault), mutations[..i])
      {
        assert mutations[..i + 1][..i] == mutations[..i];
        var mutation := mutations[i];
        values := if mutation.value.None? then values - {mutation.ref} else values[mutation.ref := mutation.value.value];
        revisions := revisions[mutation.ref := mutation.expectedRevision + 1];
        i := i + 1;
      }
      assert mutations[..i] == mutations;
    }

    method OperationStatus(operationId: string) returns (committed: Option<bool>)
      ensures committed == Status(State(), operationId)
    {
      committed := if operationId in operations then Some(operations[operationId].committed) else None;
    }
  }

  /** A read-through cache. It is consulted before the source and emptied by
      every change that goes through it, whether or not the change succeeds. */
  class CachedSecureStore {
    const source: MemorySecureStore
    var cached: map<Ref, Snapshot>

    constructor (source: MemorySecureStore)
      ensures this.source == source && Faithful()
    {
      this.source := source;
      cached := map[];
    }

    /** Every cached snapshot is what the source holds. */
    ghost predicate Faithful()
      reads this, source
    {
      forall ref <- cached :: WellFormedRef(ref) && cached[ref] == Read(source.State().vault, ref)
    }

    method ReadRef(ref: Ref) returns (result: Option<Snapshot>)
      modifies this`cached
      ensures old(ref in cached) ==> result == Some(old(cached)[ref])
      ensures cached == if result.Some? then old(cached)[ref := result.value] else old(cached)
      ensures old(Faithful()) ==>
        Faithful() && result == if WellFormedRef(ref) then Some(Read(source.State().vault, ref)) else None
    {
      if ref !in cached {
        result := source.ReadRef(ref);
        if result.None? {
          return;
        }
        cached := cached[ref := result.value];
      }
      result := Some(cached[ref]);
    }

    method CommitBatch(batch: Batch) returns (result: Commit)
      modifies this`cached, source
      ensures cached == map[] && Faithful()
      ensures result == Outcome(old(source.State()), Request(batch, "batch", true))
      ensures source.State() == After(old(source.State()), Request(batch, "batch", true))
    {
      result := source.CommitWith(batch, true, "batch");
      Clear();
    }

    method Clear()
      modifies this`cached
      ensures cached == map[]
    {
      cached := map[];
    }
  }

  /** A read-only source with private staged changes; `order` keeps the order
      in which references were first staged. */
  class SecretPreparationStore {
    const source: MemorySecureStore
    const operationId: string
    var snapshots: map<Ref, Snapshot>
    var staged: map<Ref, Option<string>>
    var order: seq<Ref>

    constructor (source: MemorySecureStore, operationId: string)
      ensures this.source == source && this.operationId == operationId
      ensures snapshots == map[] && staged == map[] && Valid()
    {
      this.source, this.operationId := source, operationId;
      snapshots, staged, order := map[], map[], [];
    }

    ghost predicate Valid()
      reads this
    {
      Prepared(snapshots, staged, order)
    }

    method Baseline(ref: Ref) returns (result: Option<Snapshot>)
      requires Valid()
      modifies `snapshots
      ensures Valid()
      ensures snapshots == if WellFormedRef(ref) && ref !in old(snapshots)
                           then old(snapshots)[ref := Read(source.State().vault, ref)] else old(snapshots)
      ensures result == if WellFormedRef(ref) then Some(snapshots[ref]) else None
    {
      if !WellFormedRef(ref) {
        return None;
      }
      if ref !in snapshots {
        var snapshot := source.ReadRef(ref);
        snapshots := snapshots[ref := snapshot.value];
      }
      result := Some(snapshots[ref]);
    }

    method ReadRef(ref: Ref) returns (result: Option<Snapshot>)
      requires Valid()
      modifies `snapshots
      ensures Valid() && (forall known <- old(snapshots) :: known in snapshots && snapshots[known] == old(snapshots)[known])
      ensures result.Some? <==> WellFormedRef(ref)
      ensures result.Some? ==>
        && ref in snapshots && result.value.revision == snapshots[ref].revision
        && result.value.value == ReadThrough(source.State().vault, old(snapshots), staged, ref)
    {
      var baseline := Baseline(ref);
      if baseline.None? {
        return None;
      }
      result := Some(Snapshot(if ref in staged then staged[ref] else baseline.value.value, baseline.value.revision));
    }

    /** Both set and delete: a missing value stages a removal. */
    method Stage(ref: Ref, value: Option<string>) returns (ok: bool)
      requires Valid()
      modifies `snapshots, `staged, `order
      ensures Valid()
      ensures ok == ScopeOf(ref).Some?
      ensures staged == if ok then old(staged)[ref := value] else old(staged)
      ensures snapshots == if ok && ref !in old(snapshots)
                           then old(snapshots)[ref := Read(source.State().vault, ref)] else old(snapshots)
      ensures order == if ok && ref !in old(staged) then old(order) + [ref] else old(order)
    {
      if ScopeOf(ref).None? {
        return false;
      }
      var _ := Baseline(ref);
      if ref !in staged {
        order := order + [ref];
      }
      staged := staged[ref := value];
      ok := true;
    }

    /** The batch of this attempt. */
    method MakeBatch() returns (batch: Batch)
      requires Valid()
      ensures batch == Batch(operationId, MutationsOf(snapshots, staged, order))
    {
      var mutations: seq<Mutation> := [];
      var i := 0;
      assert order[..0] == [];
      while i < |order|
        invariant 0 <= i <= |order|
        invariant mutations == MutationsOf(snapshots, staged, order[..i])
      {
        assert order[..i + 1][..i] == order[..i];
        var ref := order[i];
        if snapshots[ref].value != staged[ref] {
          mutations := mutations + [Mutation(ref, ScopeOf(ref).value, snapshots[ref].revision, staged[ref])];
        }
        i := i + 1;
      }
      assert order[..i] == order;
      batch := Batch(operationId, mutations);
    }

    /** A new attempt keeps the baselines and the staged values under a new identifier. */
    method Fork(newId: string) returns (attempt: SecretPreparationStore)
      requires Valid()
      ensures fresh(attempt) && attempt.Valid()
      ensures attempt.source == source && attempt.operationId == newId
      ensures attempt.snapshots == snapshots && attempt.staged == staged && attempt.order == order
    {
      attempt := new SecretPreparationStore(source, newId);
      attempt.snapshots, attempt.staged, attempt.order := snapshots, staged, order;
    }
  }
}
