/** The browser database: what one publication does, and what a commit made of separate
    reads and one publication amounts to. */
module BrowserModel {
  import opened Bytes
  import opened SecretModel

  datatype File = File(content: string, revision: string)

  /** A stored value: in the open, sealed for one context, or an envelope nothing opens any more. */
  datatype Stored = Open(value: string) | Sealed(value: string, context: RowContext, nonce: string) | Broken(envelope: string)

  datatype RowKey = RowKey(table: string, id: string)

  datatype RowContext = RowContext(owner: string, key: RowKey)

  datatype Row = Row(key: RowKey, stored: Stored)

  datatype Data = Files(files: map<string, File>) | Rows(rows: seq<Row>) | Ids(ids: seq<string>) | Text(text: string)

  datatype Slot = Projects(id: string) | Local(id: string) | App(key: string)

  /** Secrets written before revisions existed carry none. */
  datatype SecretRow = SecretRow(value: Option<string>, revision: Option<int>)

  datatype FileChange = FileChange(path: string, content: Option<string>, expectedRevision: Option<string>)

  datatype LocalChange = LocalChange(key: RowKey, value: Option<string>, open: bool)

  /** What a receipt is for, besides the secrets themselves. */
  datatype Identity =
    | SecretsOnly
    | WorkspaceChange(id: string, changes: seq<FileChange>, local: seq<LocalChange>)
    | Deletion(slots: seq<Change>, prefixes: seq<string>)

  datatype OperationReceipt = OperationReceipt(batch: Batch, identity: Identity, committed: bool)

  datatype Database = Database(slots: map<Slot, Data>, secrets: map<Ref, SecretRow>, operations: map<string, OperationReceipt>)

  datatype Change = Change(slot: Slot, value: Option<Data>)

  /** The keys of one store that begin with a prefix. */
  datatype Membership = AppKeys(prefix: string, keys: set<string>) | SecretKeys(prefix: string, keys: set<string>)

  datatype Publication = Publication(changes: seq<Change>, batch: Option<Batch>, checks: seq<Change>,
                                     identity: Identity, memberships: seq<Membership>)

  datatype Verdict = Written | AlreadyDone | Malformed | Spent | Changed | Conflict

  predicate StartsWith(text: string, prefix: string) {
    prefix <= text
  }

  function Got(slots: map<Slot, Data>, slot: Slot): Option<Data> {
    if slot in slots then Some(slots[slot]) else None
  }

  function Get(db: Database, slot: Slot): Option<Data> {
    Got(db.slots, slot)
  }

  function SecretRevision(db: Database, ref: Ref): int {
    if ref !in db.secrets then 0
    else if db.secrets[ref].revision.Some? then db.secrets[ref].revision.value else 1
  }

  function SecretValue(db: Database, ref: Ref): Option<string> {
    if ref in db.secrets then db.secrets[ref].value else None
  }

  function Members(db: Database, membership: Membership): set<string> {
    match membership
    case AppKeys(prefix, _) => set slot <- db.slots | slot.App? && StartsWith(slot.key, prefix) :: slot.key
    case SecretKeys(prefix, _) => set ref <- db.secrets | StartsWith(ref, prefix)
  }

  // -------------------------------------------------------------- publication

  function Mutations(p: Publication): seq<Mutation> {
    if p.batch.Some? then p.batch.value.mutations else []
  }

  predicate WellFormedBatch(batch: Batch) {
    && batch.operationId != ""
    && |RefsOf(batch.mutations)| == |batch.mutations|
    && forall mutation <- batch.mutations ::
         ScopeOf(mutation.ref) == Some(mutation.scope) && 0 <= mutation.expectedRevision < MAX_SAFE_INTEGER
  }

  /** One thing a publication insists on. */
  datatype Probe = SlotIs(expected: Change) | SecretIs(mutation: Mutation) | KeysAre(membership: Membership)

  predicate Passes(db: Database, probe: Probe) {
    match probe
    case SlotIs(expected) => Get(db, expected.slot) == expected.value
    case SecretIs(mutation) => SecretRevision(db, mutation.ref) == mutation.expectedRevision
    case KeysAre(membership) => Members(db, membership) == membership.keys
  }

  function Probes(p: Publication): seq<Probe> {
    seq(|p.checks|, i requires 0 <= i < |p.checks| => SlotIs(p.checks[i]))
    + seq(|Mutations(p)|, i requires 0 <= i < |Mutations(p)| => SecretIs(Mutations(p)[i]))
    + seq(|p.memberships|, i requires 0 <= i < |p.memberships| => KeysAre(p.memberships[i]))
  }

  predicate Holds(db: Database, p: Publication) {
    && (forall check <- p.checks :: Get(db, check.slot) == check.value)
    && (forall mutation <- Mutations(p) :: SecretRevision(db, mutation.ref) == mutation.expectedRevision)
    && (forall membership <- p.memberships :: Members(db, membership) == membership.keys)
  }

  function PutSlot(slots: map<Slot, Data>, change: Change): map<Slot, Data> {
    if change.value.None? then slots - {change.slot} else slots[change.slot := change.value.value]
  }

  function PutSlots(slots: map<Slot, Data>, changes: seq<Change>): map<Slot, Data> {
    if changes == [] then slots
    else PutSlot(PutSlots(slots, changes[..|changes| - 1]), changes[|changes| - 1])
  }

  function Renewed(mutation: Mutation): SecretRow {
    SecretRow(mutation.value, Some(mutation.expectedRevision + 1))
  }

  function PutSecrets(secrets: map<Ref, SecretRow>, mutations: seq<Mutation>): map<Ref, SecretRow> {
    if mutations == [] then secrets
    else
      var last := mutations[|mutations| - 1];
      PutSecrets(secrets, mutations[..|mutations| - 1])[last.ref := Renewed(last)]
  }

  function Receipted(db: Database, p: Publication, committed: bool): map<string, OperationReceipt> {
    if p.batch.None? then db.operations
    else db.operations[p.batch.value.operationId := OperationReceipt(p.batch.value, p.identity, committed)]
  }

  /** The outcome when the operation identifier has been used before. */
  function Prior(receipt: OperationReceipt, batch: Batch, identity: Identity): Verdict {
    if !receipt.committed then Spent
    else if receipt.batch == batch && receipt.identity == identity then AlreadyDone
    else Conflict
  }

  function PublishVerdict(db: Database, p: Publication): Verdict {
    if p.batch.Some? && !WellFormedBatch(p.batch.value) then Malformed
    else if p.batch.Some? && p.batch.value.operationId in db.operations then
      Prior(db.operations[p.batch.value.operationId], p.batch.value, p.identity)
    else if Holds(db, p) then Written
    else Changed
  }

  function Publish(db: Database, p: Publication): Database {
    match PublishVerdict(db, p)
    case Written =>
      Database(PutSlots(db.slots, p.changes), PutSecrets(db.secrets, Mutations(p)), Receipted(db, p, true))
    case Changed => db.(operations := Receipted(db, p, false))
    case _ => db
  }

  lemma ProbesMeanHolds(db: Database, p: Publication)
    ensures Holds(db, p) <==> forall probe <- Probes(p) :: Passes(db, probe)
  {
    var probes := Probes(p);
    if forall probe <- probes :: Passes(db, probe) {
      forall check <- p.checks ensures Get(db, check.slot) == check.value {
        var i :| 0 <= i < |p.checks| && p.checks[i] == check;
        assert Passes(db, probes[i]);
      }
      forall mutation <- Mutations(p) ensures SecretRevision(db, mutation.ref) == mutation.expectedRevision {
        var i :| 0 <= i < |Mutations(p)| && Mutations(p)[i] == mutation;
        assert Passes(db, probes[|p.checks| + i]);
      }
      forall membership <- p.memberships ensures Members(db, membership) == membership.keys {
        var i :| 0 <= i < |p.memberships| && p.memberships[i] == membership;
        assert Passes(db, probes[|p.checks| + |Mutations(p)| + i]);
      }
    }
  }

  function LastFor(changes: seq<Change>, slot: Slot): Option<Change> {
    if changes == [] then None
    else
      var last := changes[|changes| - 1];
      if last.slot == slot then Some(last) else LastFor(changes[..|changes| - 1], slot)
  }

  /** What a list of changes leaves in one slot: its last change, or what was there. */
  lemma {:induction false} PutSlotsGet(slots: map<Slot, Data>, changes: seq<Change>, slot: Slot)
    ensures Got(PutSlots(slots, changes), slot) ==
      if LastFor(changes, slot).Some? then LastFor(changes, slot).value.value else Got(slots, slot)
  {
    if changes == [] {
    } else {
      PutSlotsGet(slots, changes[..|changes| - 1], slot);
    }
  }

  lemma {:induction false} PutSecretsOther(secrets: map<Ref, SecretRow>, mutations: seq<Mutation>, ref: Ref)
    requires ref !in RefsOf(mutations)
    ensures ref in PutSecrets(secrets, mutations) <==> ref in secrets
    ensures ref in secrets ==> PutSecrets(secrets, mutations)[ref] == secrets[ref]
  {
    if mutations != [] {
      var front, last := mutations[..|mutations| - 1], mutations[|mutations| - 1];
      assert mutations == front + [last];
      RefsOfSnoc(front, last);
      PutSecretsOther(secrets, front, ref);
    }
  }

  /** Of different references, each mutated one holds its new value one revision on. */
  lemma {:induction false} PutSecretsGet(secrets: map<Ref, SecretRow>, mutations: seq<Mutation>, mutation: Mutation)
    requires Distinct(mutations) && mutation in mutations
    ensures mutation.ref in PutSecrets(secrets, mutations)
    ensures PutSecrets(secrets, mutations)[mutation.ref] == Renewed(mutation)
  {
    var front, last := mutations[..|mutations| - 1], mutations[|mutations| - 1];
    assert mutations == front + [last];
    if mutation in front {
      var i :| 0 <= i < |front| && front[i] == mutation;
      assert mutations[i].ref != mutations[|front|].ref;
      PutSecretsGet(secrets, front, mutation);
    }
  }

  // ------------------------------------------------------------- file changes

  function Revision(files: map<string, File>, path: string): Option<string> {
    if path in files then Some(files[path].revision) else None
  }

  /** The digest of a content stands for the content itself: no two contents share one. */
  function ContentRevision(content: string): string {
    "sha-256:" + content
  }

  predicate FilesCurrent(files: map<string, File>, changes: seq<FileChange>) {
    forall change <- changes :: Revision(files, change.path) == change.expectedRevision
  }

  function PutFile(files: map<string, File>, change: FileChange): map<string, File> {
    if change.content.None? then files - {change.path}
    else files[change.path := File(change.content.value, ContentRevision(change.content.value))]
  }

  function PutFiles(files: map<string, File>, changes: seq<FileChange>): map<string, File> {
    if changes == [] then files
    else PutFile(PutFiles(files, changes[..|changes| - 1]), changes[|changes| - 1])
  }

  function LastFile(changes: seq<FileChange>, path: string): Option<FileChange> {
    if changes == [] then None
    else
      var last := changes[|changes| - 1];
      if last.path == path then Some(last) else LastFile(changes[..|changes| - 1], path)
  }

  /** Each path ends up with the content of its last change; a path without one keeps its file. */
  lemma {:induction false} PutFilesGet(files: map<string, File>, changes: seq<FileChange>, path: string)
    ensures
      var after, last := PutFiles(files, changes), LastFile(changes, path);
      if last.None? then
        (path in after <==> path in files) && (path in files ==> after[path] == files[path])
      else
        (path in after <==> last.value.content.Some?)
        && (path in after ==> after[path] == File(last.value.content.value, ContentRevision(last.value.content.value)))
  {
    if changes == [] {
    } else {
      PutFilesGet(files, changes[..|changes| - 1], path);
    }
  }

  // ------------------------------------------------------------ local records

  function Find(rows: seq<Row>, key: RowKey): Option<Row> {
    if rows == [] then None
    else if rows[0].key == key then Some(rows[0])
    else Find(rows[1..], key)
  }

  predicate DistinctRows(rows: seq<Row>) {
    rows == [] || (Find(rows[1..], rows[0].key).None? && DistinctRows(rows[1..]))
  }

  const TABLES := {"workspace_local_state", "drafts", "document_session_state", "request_executions", "cookie_jar",
                   "schema_cache", "recent_items", "attachments"}

  predicate Named(key: RowKey) {
    key.id != "" && key.table in TABLES
  }

  /** A container that can be read at all: every row is named, and no two alike. */
  predicate SoundRows(rows: seq<Row>) {
    DistinctRows(rows) && forall row <- rows :: Named(row.key)
  }

  /** What a record reads as. A sealed value opens only under the context it was sealed for. */
  function Unpack(row: Row, owner: string): Option<string> {
    match row.stored
    case Open(value) => Some(value)
    case Sealed(value, context, _) => if context == RowContext(owner, row.key) then Some(value) else None
    case Broken(_) => None
  }

  /** A record opens exactly when it is in the open, or sealed for this owner and this record. */
  lemma OpensOnlyForItself(row: Row, owner: string, value: string)
    ensures Unpack(row, owner) == Some(value) <==>
      || row.stored == Open(value)
      || (exists nonce :: row.stored == Sealed(value, RowContext(owner, row.key), nonce))
  {
    if row.stored.Sealed? {
      assert row.stored == Sealed(row.stored.value, row.stored.context, row.stored.nonce);
    }
  }

  predicate Readable(row: Row, owner: string) {
    Unpack(row, owner).Some?
  }

  function WithRow(rows: seq<Row>, row: Row): seq<Row> {
    if rows == [] then [row]
    else if rows[0].key == row.key then [row] + rows[1..]
    else [rows[0]] + WithRow(rows[1..], row)
  }

  function WithoutRow(rows: seq<Row>, key: RowKey): seq<Row> {
    if rows == [] then []
    else if rows[0].key == key then rows[1..]
    else [rows[0]] + WithoutRow(rows[1..], key)
  }

  function RowFor(change: LocalChange, owner: string, nonce: string): Row
    requires change.value.Some?
  {
    Row(change.key,
        if change.open then Open(change.value.value)
        else Sealed(change.value.value, RowContext(owner, change.key), nonce))
  }

  function PutRow(rows: seq<Row>, change: LocalChange, owner: string, nonce: string): Option<seq<Row>> {
    var previous := Find(rows, change.key);
    if previous.Some? && !Readable(previous.value, owner) then None
    else if change.value.None? then Some(WithoutRow(rows, change.key))
    else Some(WithRow(rows, RowFor(change, owner, nonce)))
  }

  function PutRows(rows: seq<Row>, changes: seq<LocalChange>, owner: string, nonce: string): Option<seq<Row>> {
    if changes == [] then Some(rows)
    else
      var earlier := PutRows(rows, changes[..|changes| - 1], owner, nonce);
      if earlier.None? then None else PutRow(earlier.value, changes[|changes| - 1], owner, nonce)
  }

  function LastLocal(changes: seq<LocalChange>, key: RowKey): Option<LocalChange> {
    if changes == [] then None
    else
      var last := changes[|changes| - 1];
      if last.key == key then Some(last) else LastLocal(changes[..|changes| - 1], key)
  }

  lemma {:induction false} WithRowFind(rows: seq<Row>, row: Row, key: RowKey)
    ensures Find(WithRow(rows, row), key) == if key == row.key then Some(row) else Find(rows, key)
    ensures DistinctRows(rows) ==> DistinctRows(WithRow(rows, row))
  {
    if rows == [] {
    } else if rows[0].key == row.key {
    } else {
      WithRowFind(rows[1..], row, key);
      WithRowFind(rows[1..], row, rows[0].key);
    }
  }

  lemma {:induction false} WithoutRowFind(rows: seq<Row>, gone: RowKey, key: RowKey)
    requires DistinctRows(rows)
    ensures Find(WithoutRow(rows, gone), key) == if key == gone then None else Find(rows, key)
    ensures DistinctRows(WithoutRow(rows, gone))
  {
    if rows == [] {
    } else if rows[0].key == gone {
    } else {
      WithoutRowFind(rows[1..], gone, key);
      WithoutRowFind(rows[1..], gone, rows[0].key);
    }
  }

  /** Each record ends up as its last change says; the others stay; a protected value that
      cannot be read is never replaced or removed. */
  lemma {:induction false} PutRowsFind(rows: seq<Row>, changes: seq<LocalChange>, owner: string, nonce: string, key: RowKey)
    requires DistinctRows(rows) && PutRows(rows, changes, owner, nonce).Some?
    ensures
      var after, last := PutRows(rows, changes, owner, nonce).value, LastLocal(changes, key);
      && DistinctRows(after)
      && Find(after, key) == (if last.None? then Find(rows, key)
                              else if last.value.value.None? then None
                              else Some(RowFor(last.value, owner, nonce)))
      && (Find(rows, key).Some? && !Readable(Find(rows, key).value, owner) ==> last.None?)
  {
    if changes == [] {
    } else {
      var last := changes[|changes| - 1];
      var front := changes[..|changes| - 1];
      PutRowsFind(rows, front, owner, nonce, key);
      PutRowsFind(rows, front, owner, nonce, last.key);
      var earlier := PutRows(rows, front, owner, nonce).value;
      if last.value.None? {
        WithoutRowFind(earlier, last.key, key);
      } else {
        WithRowFind(earlier, RowFor(last, owner, nonce), key);
      }
    }
  }

  /** Membership and `Find` say the same of distinct rows. */
  lemma {:induction false} FindMeans(rows: seq<Row>, key: RowKey)
    ensures Find(rows, key).Some? ==> Find(rows, key).value in rows && Find(rows, key).value.key == key
    ensures Find(rows, key).None? ==> forall row <- rows :: row.key != key
  {
    if rows != [] && rows[0].key != key {
      FindMeans(rows[1..], key);
    }
  }

  ghost predicate AllDistinct(rows: seq<Row>) {
    forall i, j :: 0 <= i < j < |rows| ==> rows[i].key != rows[j].key
  }

  lemma {:induction false} DistinctMeans(rows: seq<Row>)
    ensures DistinctRows(rows) <==> AllDistinct(rows)
  {
    if rows != [] {
      var rest := rows[1..];
      DistinctMeans(rest);
      FindMeans(rest, rows[0].key);
      assert forall i :: 0 <= i < |rest| ==> rest[i] == rows[i + 1];
      if DistinctRows(rows) {
        forall i, j | 0 <= i < j < |rows| ensures rows[i].key != rows[j].key {
          assert rows[j] == rest[j - 1];
          if i > 0 {
            assert rows[i] == rest[i - 1];
          }
        }
      }
      if AllDistinct(rows) {
        forall i, j | 0 <= i < j < |rest| ensures rest[i].key != rest[j].key {
          assert rest[i] == rows[i + 1] && rest[j] == rows[j + 1];
        }
        forall row <- rest ensures row.key != rows[0].key {
          var i :| 0 <= i < |rest| && rest[i] == row;
          assert rest[i] == rows[i + 1];
        }
      }
    }
  }

  lemma {:induction false} LastLocalAt(changes: seq<LocalChange>, i: nat)
    requires i < |changes| && forall j :: i < j < |changes| ==> changes[j].key != changes[i].key
    ensures LastLocal(changes, changes[i].key) == Some(changes[i])
    decreases |changes|
  {
    if i < |changes| - 1 {
      LastLocalAt(changes[..|changes| - 1], i);
    }
  }

  lemma {:induction false} LastLocalIn(changes: seq<LocalChange>, key: RowKey)
    ensures LastLocal(changes, key).None? <==> forall change <- changes :: change.key != key
  {
    if changes != [] {
      LastLocalIn(changes[..|changes| - 1], key);
      assert changes == changes[..|changes| - 1] + [changes[|changes| - 1]];
    }
  }

  lemma {:induction false} LastFileAt(changes: seq<FileChange>, i: nat)
    requires i < |changes| && forall j :: i < j < |changes| ==> changes[j].path != changes[i].path
    ensures LastFile(changes, changes[i].path) == Some(changes[i])
    decreases |changes|
  {
    if i < |changes| - 1 {
      LastFileAt(changes[..|changes| - 1], i);
    }
  }

  lemma {:induction false} LastFileIn(changes: seq<FileChange>, path: string)
    ensures LastFile(changes, path).None? <==> forall change <- changes :: change.path != path
    ensures LastFile(changes, path).Some? ==> LastFile(changes, path).value in changes
  {
    if changes != [] {
      LastFileIn(changes[..|changes| - 1], path);
      assert changes == changes[..|changes| - 1] + [changes[|changes| - 1]];
    }
  }

  /** Changes to records fail exactly over a protected value that cannot be read. */
  lemma {:induction false} PutRowsSucceeds(rows: seq<Row>, changes: seq<LocalChange>, owner: string, nonce: string)
    requires DistinctRows(rows)
    ensures PutRows(rows, changes, owner, nonce).Some? <==>
      forall change <- changes :: Find(rows, change.key).Some? ==> Readable(Find(rows, change.key).value, owner)
  {
    hide Find, WithRow, WithoutRow, DistinctRows, LastLocal;
    if changes == [] {
    } else {
      var front, last := changes[..|changes| - 1], changes[|changes| - 1];
      assert changes == front + [last];
      PutRowsSucceeds(rows, front, owner, nonce);
      if PutRows(rows, front, owner, nonce).Some? {
        PutRowsFind(rows, front, owner, nonce, last.key);
        assert Find(rows, last.key).Some? && !Readable(Find(rows, last.key).value, owner) ==>
          LastLocal(front, last.key).None?;
        WrittenIsReadable(front, last.key, owner, nonce);
      }
    }
  }

  /** Whatever was written before can be read by its owner. */
  lemma WrittenIsReadable(changes: seq<LocalChange>, key: RowKey, owner: string, nonce: string)
    ensures var last := LastLocal(changes, key);
            last.Some? && last.value.value.Some? ==> Readable(RowFor(last.value, owner, nonce), owner)
  {
  }

  // ------------------------------------------------------------------ commits

  datatype CommitRequest = CommitRequest(id: string, changes: seq<FileChange>, local: seq<LocalChange>,
                                         batch: Option<Batch>, nonce: string)

  /** What a commit read before publishing, one read at a time. */
  datatype Seen = Seen(files: Option<Data>, local: Option<Data>, ids: Option<Data>)

  datatype Refusal = ForeignSecret | DamagedContainer | FileChanged | UnreadableRecord | NotPublished(verdict: Verdict)

  datatype Reply = Saved(files: map<string, File>) | Refused(refusal: Refusal)

  function FilesOf(data: Option<Data>): map<string, File> {
    if data.Some? && data.value.Files? then data.value.files else map[]
  }

  function RowsOf(data: Option<Data>): seq<Row> {
    if data.Some? && data.value.Rows? then data.value.rows else []
  }

  function IdsOf(data: Option<Data>): seq<string> {
    if data.Some? && data.value.Ids? then data.value.ids else []
  }

  function OwnerName(id: string): string {
    if id == "__global__" then "global" else id
  }

  predicate OwnsSecrets(request: CommitRequest) {
    request.batch.Some? ==>
      forall mutation <- request.batch.value.mutations :: StartsWith(mutation.ref, "purr/" + OwnerName(request.id) + "/")
  }

  function IdentityOf(request: CommitRequest): Identity {
    WorkspaceChange(request.id, request.changes, request.local)
  }

  function WithId(ids: seq<string>, id: string): seq<string> {
    if id == "__global__" || id in ids then ids else ids + [id]
  }

  function SeenNow(db: Database, id: string): Seen {
    Seen(Get(db, Projects(id)), Get(db, Local(id)), Get(db, App("workspaces")))
  }

  function Prepare(request: CommitRequest, seen: Seen): Result<Publication, Refusal> {
    if !SoundRows(RowsOf(seen.local)) then Err(DamagedContainer)
    else if !FilesCurrent(FilesOf(seen.files), request.changes) then Err(FileChanged)
    else
      var rows := PutRows(RowsOf(seen.local), request.local, request.id, request.nonce);
      if rows.None? then Err(UnreadableRecord)
      else Ok(Prepared(request, seen, PutFiles(FilesOf(seen.files), request.changes), rows.value))
  }

  function Prepared(request: CommitRequest, seen: Seen, files: map<string, File>, rows: seq<Row>): Publication {
    Publication(
      [Change(Projects(request.id), Some(Files(files))),
       Change(Local(request.id), Some(Rows(rows))),
       Change(App("workspaces"), Some(Ids(WithId(IdsOf(seen.ids), request.id))))],
      request.batch,
      [Change(Projects(request.id), seen.files), Change(Local(request.id), seen.local), Change(App("workspaces"), seen.ids)],
      IdentityOf(request),
      [])
  }

  /** The receipt of an earlier, committed call of the same operation. */
  predicate AlreadyCommitted(db: Database, request: CommitRequest) {
    && request.batch.Some? && request.batch.value.operationId in db.operations
    && db.operations[request.batch.value.operationId].committed
  }

  function ReplayReply(db: Database, request: CommitRequest): Reply
    requires AlreadyCommitted(db, request)
  {
    var verdict := Prior(db.operations[request.batch.value.operationId], request.batch.value, IdentityOf(request));
    if verdict.AlreadyDone? then Saved(FilesOf(Get(db, Projects(request.id)))) else Refused(NotPublished(verdict))
  }

  function PublishReply(db: Database, request: CommitRequest, seen: Seen, p: Publication): Reply {
    var verdict := PublishVerdict(db, p);
    if verdict.Written? || verdict.AlreadyDone? then Saved(PutFiles(FilesOf(seen.files), request.changes))
    else Refused(NotPublished(verdict))
  }

  /** A commit run at one moment: read, compute, compare and publish without interruption. */
  function CommitNow(db: Database, request: CommitRequest): (Database, Reply) {
    if !OwnsSecrets(request) then (db, Refused(ForeignSecret))
    else if AlreadyCommitted(db, request) then (db, ReplayReply(db, request))
    else
      var seen := SeenNow(db, request.id);
      var prepared := Prepare(request, seen);
      if prepared.Err? then (db, Refused(prepared.error))
      else (Publish(db, prepared.value), PublishReply(db, request, seen, prepared.value))
  }

  /** Whatever was read, and whenever: if it is published, it was read as it stands now. */
  lemma PublishedReadsAreCurrent(db: Database, request: CommitRequest, seen: Seen)
    requires Prepare(request, seen).Ok? && PublishVerdict(db, Prepare(request, seen).value).Written?
    ensures seen == SeenNow(db, request.id)
  {
    hide SoundRows, FilesCurrent, PutRows, PutFiles, WellFormedBatch;
    var p := Prepare(request, seen).value;
    assert p.checks[0] in p.checks && p.checks[1] in p.checks && p.checks[2] in p.checks;
  }

  lemma CommitIsAtomic(db: Database, request: CommitRequest, seen: Seen)
    requires OwnsSecrets(request)
    requires Prepare(request, seen).Ok? && PublishVerdict(db, Prepare(request, seen).value).Written?
    ensures CommitNow(db, request) ==
      (Publish(db, Prepare(request, seen).value), Saved(PutFiles(FilesOf(seen.files), request.changes)))
  {
    hide SoundRows, FilesCurrent, PutRows, PutFiles, WellFormedBatch, Holds, Publish, OwnsSecrets;
    PublishedReadsAreCurrent(db, request, seen);
  }

  /** A publication that does not take place changes nothing but its own receipt, and
      that only where there was none. */
  ghost predicate OnlyReceipt(before: Database, after: Database, operationId: Option<string>) {
    && after.slots == before.slots && after.secrets == before.secrets
    && (forall other <- before.operations :: other in after.operations && after.operations[other] == before.operations[other])
    && (forall other <- after.operations :: other in before.operations
         || (Some(other) == operationId && !after.operations[other].committed))
  }

  function OperationOf(batch: Option<Batch>): Option<string> {
    if batch.Some? then Some(batch.value.operationId) else None
  }

  /** The operation is known and has failed. */
  predicate Aborted(db: Database, operationId: string) {
    operationId in db.operations && !db.operations[operationId].committed
  }

  lemma FailedPublicationKeeps(db: Database, p: Publication)
    requires !PublishVerdict(db, p).Written?
    ensures OnlyReceipt(db, Publish(db, p), OperationOf(p.batch))
    ensures PublishVerdict(db, p).AlreadyDone? ==> Publish(db, p) == db
    ensures PublishVerdict(db, p).Changed? && p.batch.Some? ==> Aborted(Publish(db, p), p.batch.value.operationId)
  {
    hide WellFormedBatch, Holds;
  }
}

/** Any number of clients, each in the middle of its own commit. */
module BrowserClients {
  import opened Bytes
  import opened SecretModel
  import opened BrowserModel

  /** What a client has read so far; every read is a transaction of its own. */
  datatype Phase =
    | Starting
    | BeforeFiles
    | BeforeLocal(files: Option<Data>)
    | BeforeIds(files: Option<Data>, local: Option<Data>)
    | BeforePublish(seen: Seen)
    | Ended(reply: Reply)

  datatype Client = Client(request: CommitRequest, phase: Phase)

  datatype World = World(db: Database, clients: map<nat, Client>)

  /** `Other` is any other writer: history, other stores, deletion. */
  datatype Step = Begin(client: nat, request: CommitRequest) | Advance(client: nat) | Other(db: Database)

  function Next(db: Database, client: Client): (Database, Client) {
    var request := client.request;
    match client.phase
    case Starting =>
      (db, client.(phase :=
        if !OwnsSecrets(request) then Ended(Refused(ForeignSecret))
        else if AlreadyCommitted(db, request) then Ended(ReplayReply(db, request))
        else BeforeFiles))
    case BeforeFiles => (db, client.(phase := BeforeLocal(Get(db, Projects(request.id)))))
    case BeforeLocal(files) => (db, client.(phase := BeforeIds(files, Get(db, Local(request.id)))))
    case BeforeIds(files, local) =>
      var seen := Seen(files, local, Get(db, App("workspaces")));
      var prepared := Prepare(request, seen);
      (db, client.(phase := if prepared.Err? then Ended(Refused(prepared.error)) else BeforePublish(seen)))
    case BeforePublish(seen) =>
      var prepared := Prepare(request, seen);
      if prepared.Err? then (db, client)
      else (Publish(db, prepared.value), client.(phase := Ended(PublishReply(db, request, seen, prepared.value))))
    case Ended(_) => (db, client)
  }

  function Do(w: World, step: Step): World {
    match step
    case Begin(client, request) => w.(clients := w.clients[client := Client(request, Starting)])
    case Advance(client) =>
      if client !in w.clients then w
      else
        var next := Next(w.db, w.clients[client]);
        World(next.0, w.clients[client := next.1])
    case Other(db) => w.(db := db)
  }

  function Run(w: World, steps: seq<Step>): World {
    if steps == [] then w else Do(Run(w, steps[..|steps| - 1]), steps[|steps| - 1])
  }

  ghost predicate Good(w: World) {
    forall client <- w.clients :: !w.clients[client].phase.Starting? && !w.clients[client].phase.Ended? ==>
      OwnsSecrets(w.clients[client].request)
  }

  /** What one step means for the database. */
  datatype Effect =
    | Nothing
    | Committed(request: CommitRequest)
    | Repeated(request: CommitRequest)
    | Failed(request: CommitRequest)
    | Overwritten(db: Database)

  function EffectOf(w: World, step: Step): Effect {
    match step
    case Begin(_, _) => Nothing
    case Advance(client) =>
      if client !in w.clients || !w.clients[client].phase.BeforePublish? then Nothing
      else
        var request := w.clients[client].request;
        var prepared := Prepare(request, w.clients[client].phase.seen);
        if prepared.Err? then Nothing
        else
          var verdict := PublishVerdict(w.db, prepared.value);
          if verdict.Written? then Committed(request)
          else if verdict.AlreadyDone? then Repeated(request)
          else Failed(request)
    case Other(db) => Overwritten(db)
  }

  function Effects(w: World, steps: seq<Step>): seq<Effect> {
    if steps == [] then []
    else
      var front := steps[..|steps| - 1];
      Effects(w, front) + [EffectOf(Run(w, front), steps[|steps| - 1])]
  }

  /** A failed commit leaves a receipt of the failure under an identifier that had none. */
  function FailedReceipt(db: Database, request: CommitRequest): map<string, OperationReceipt> {
    if request.batch.None? || !WellFormedBatch(request.batch.value) || request.batch.value.operationId in db.operations
    then db.operations
    else db.operations[request.batch.value.operationId := OperationReceipt(request.batch.value, IdentityOf(request), false)]
  }

  function Perform(db: Database, effect: Effect): Database {
    match effect
    case Nothing | Repeated(_) => db
    case Committed(request) => CommitNow(db, request).0
    case Failed(request) => db.(operations := FailedReceipt(db, request))
    case Overwritten(other) => other
  }

  function PerformAll(db: Database, effects: seq<Effect>): Database {
    if effects == [] then db else Perform(PerformAll(db, effects[..|effects| - 1]), effects[|effects| - 1])
  }

  lemma StepKeepsGood(w: World, step: Step)
    requires Good(w)
    ensures Good(Do(w, step))
  {
    hide OwnsSecrets, Prepare, Publish, AlreadyCommitted, ReplayReply, PublishReply;
  }

  /** The reply an ended client has. */
  predicate Replied(w: World, client: nat, reply: Reply) {
    client in w.clients && w.clients[client].phase == Ended(reply)
  }

  /** One step of one client is invisible, or its whole commit run at this moment with the reply the client gets, or
      a repetition of a commit that already took place, or a receipt of its own failure. */
  lemma StepIsAtomic(w: World, step: Step)
    requires Good(w)
    ensures Do(w, step).db == Perform(w.db, EffectOf(w, step))
    ensures EffectOf(w, step).Committed? ==>
      && Acting(w, step, EffectOf(w, step).request)
      && Replied(Do(w, step), step.client, CommitNow(w.db, EffectOf(w, step).request).1)
      && CommitNow(w.db, EffectOf(w, step).request).1.Saved?
    ensures EffectOf(w, step).Repeated? ==>
      var request := EffectOf(w, step).request;
      && Acting(w, step, request) && CommittedBefore(w.db, request)
      && CommitNow(w.db, request) == (w.db, Saved(FilesOf(Get(w.db, Projects(request.id)))))
      && w.clients[step.client].phase.BeforePublish?
      && Replied(Do(w, step), step.client,
                 Saved(PutFiles(FilesOf(w.clients[step.client].phase.seen.files), request.changes)))
    ensures EffectOf(w, step).Failed? ==>
      && Acting(w, step, EffectOf(w, step).request)
      && exists verdict: Verdict :: !verdict.Written? && !verdict.AlreadyDone?
           && Replied(Do(w, step), step.client, Refused(NotPublished(verdict)))
  {
    hide OwnsSecrets, Publish, Prepare, PublishVerdict, CommitNow, AlreadyCommitted, ReplayReply, FailedReceipt, CommittedBefore;
    if step.Advance? && step.client in w.clients && w.clients[step.client].phase.BeforePublish? {
      var client := w.clients[step.client];
      var prepared := Prepare(client.request, client.phase.seen);
      if prepared.Ok? {
        var verdict := PublishVerdict(w.db, prepared.value);
        if verdict.Written? {
          CommitIsAtomic(w.db, client.request, client.phase.seen);
        } else if verdict.AlreadyDone? {
          RepeatedCommit(w.db, client.request, client.phase.seen);
        } else {
          FailedCommit(w.db, client.request, client.phase.seen);
        }
      }
    }
  }

  /** A commit that ends before it reads anything is answered as the same commit run at this moment. */
  lemma EarlyReplyIsCurrent(db: Database, client: Client)
    requires client.phase.Starting? && Next(db, client).1.phase.Ended?
    ensures Next(db, client).0 == db
    ensures Next(db, client).1.phase.reply == CommitNow(db, client.request).1 && CommitNow(db, client.request).0 == db
  {
    hide OwnsSecrets, Prepare, Publish, ReplayReply, PublishReply;
  }

  ghost predicate Acting(w: World, step: Step, request: CommitRequest) {
    step.Advance? && step.client in w.clients && w.clients[step.client].request == request
  }

  /** The receipt of exactly this request, committed. */
  predicate CommittedBefore(db: Database, request: CommitRequest) {
    && request.batch.Some? && request.batch.value.operationId in db.operations
    && db.operations[request.batch.value.operationId] == OperationReceipt(request.batch.value, IdentityOf(request), true)
  }

  /** A receipt is of one request only: of the same workspace, changes, records and secrets. */
  lemma ReceiptNamesRequest(db: Database, a: CommitRequest, b: CommitRequest)
    requires CommittedBefore(db, a) && CommittedBefore(db, b)
    requires a.batch.value.operationId == b.batch.value.operationId
    ensures a.id == b.id && a.changes == b.changes && a.local == b.local && a.batch == b.batch
  {
  }

  lemma PreparedRequest(request: CommitRequest, seen: Seen)
    requires Prepare(request, seen).Ok?
    ensures Prepare(request, seen).value.batch == request.batch
    ensures Prepare(request, seen).value.identity == IdentityOf(request)
  {
    hide SoundRows, FilesCurrent, PutRows, PutFiles;
  }

  lemma RepeatedCommit(db: Database, request: CommitRequest, seen: Seen)
    requires OwnsSecrets(request) && Prepare(request, seen).Ok?
    requires PublishVerdict(db, Prepare(request, seen).value).AlreadyDone?
    ensures CommittedBefore(db, request) && Publish(db, Prepare(request, seen).value) == db
    ensures CommitNow(db, request) == (db, Saved(FilesOf(Get(db, Projects(request.id)))))
  {
    hide Prepare, Holds, WellFormedBatch, OwnsSecrets;
    PreparedRequest(request, seen);
  }

  lemma FailedCommit(db: Database, request: CommitRequest, seen: Seen)
    requires Prepare(request, seen).Ok?
    requires !PublishVerdict(db, Prepare(request, seen).value).Written?
    requires !PublishVerdict(db, Prepare(request, seen).value).AlreadyDone?
    ensures Publish(db, Prepare(request, seen).value) == db.(operations := FailedReceipt(db, request))
  {
    hide Prepare, Holds, WellFormedBatch;
    PreparedRequest(request, seen);
  }

  // ------------------------------------------------------------ repeated commits

  function FileAt(files: map<string, File>, path: string): Option<File> {
    if path in files then Some(files[path]) else None
  }

  /** What a client believes a path to hold: what it wrote last, or else what it read. */
  function Believed(seen: Seen, changes: seq<FileChange>, path: string): Option<File> {
    var last := LastFile(changes, path);
    if last.None? then FileAt(FilesOf(seen.files), path)
    else if last.value.content.None? then None
    else Some(File(last.value.content.value, ContentRevision(last.value.content.value)))
  }

  /** A repeated commit that is noticed only while publishing is answered with the files as the client computed them.
      That is the answer of the same commit run at this moment exactly when every path still holds what the client
      believes. */
  lemma RepeatedReplyIsCurrent(db: Database, request: CommitRequest, seen: Seen)
    requires OwnsSecrets(request) && Prepare(request, seen).Ok?
    requires PublishVerdict(db, Prepare(request, seen).value).AlreadyDone?
    ensures Saved(PutFiles(FilesOf(seen.files), request.changes)) == CommitNow(db, request).1 <==>
      forall path :: FileAt(FilesOf(Get(db, Projects(request.id))), path) == Believed(seen, request.changes, path)
  {
    hide Prepare, PublishVerdict, OwnsSecrets, CommitNow, PutFiles, LastFile, FilesOf;
    RepeatedCommit(db, request, seen);
    var computed, stored := PutFiles(FilesOf(seen.files), request.changes), FilesOf(Get(db, Projects(request.id)));
    forall path ensures FileAt(computed, path) == Believed(seen, request.changes, path) {
      PutFilesGet(FilesOf(seen.files), request.changes, path);
    }
    SameFiles(computed, stored);
  }

  lemma SameFiles(a: map<string, File>, b: map<string, File>)
    ensures a == b <==> forall path :: FileAt(a, path) == FileAt(b, path)
  {
    if forall path :: FileAt(a, path) == FileAt(b, path) {
      forall path ensures path in a <==> path in b {
        assert FileAt(a, path) == FileAt(b, path);
      }
      forall path | path in a ensures a[path] == b[path] {
        assert FileAt(a, path) == FileAt(b, path);
      }
    }
  }

  /** Such an answer can be out of date: here another client has added a second file since. */
  lemma RepeatedReplyCanBeStale()
    ensures
      var mine, theirs := File("1", ContentRevision("1")), File("2", ContentRevision("2"));
      var request := CommitRequest("w", [FileChange("a", Some("1"), None)], [], Some(Batch("op", [])), "n");
      var db := Database(map[Projects("w") := Files(map["a" := mine, "b" := theirs])], map[],
                         map["op" := OperationReceipt(Batch("op", []), IdentityOf(request), true)]);
      var w := World(db, map[0 := Client(request, BeforePublish(Seen(None, None, None)))]);
      && EffectOf(w, Advance(0)) == Repeated(request)
      && Replied(Do(w, Advance(0)), 0, Saved(map["a" := mine]))
      && CommitNow(db, request).1 == Saved(map["a" := mine, "b" := theirs])
  {
    var request := CommitRequest("w", [FileChange("a", Some("1"), None)], [], Some(Batch("op", [])), "n");
    var seen := Seen(None, None, None);
    assert request.changes[..0] == [];
    assert PutFiles(map[], []) == map[];
    assert PutFiles(map[], request.changes) == map["a" := File("1", ContentRevision("1"))];
    assert PutRows([], [], "w", "n") == Some([]);
  }

  ghost predicate OnlyClients(steps: seq<Step>) {
    forall step <- steps :: !step.Other?
  }

  lemma StepKeepsReceipts(w: World, step: Step, operationId: string)
    requires Good(w) && !step.Other? && operationId in w.db.operations
    ensures operationId in Do(w, step).db.operations
    ensures Do(w, step).db.operations[operationId] == w.db.operations[operationId]
  {
    hide Good, OwnsSecrets, Prepare, WellFormedBatch, Holds, PutSlots, PutSecrets, PublishReply, ReplayReply;
    if step.Advance? && step.client in w.clients && w.clients[step.client].phase.BeforePublish? {
      var client := w.clients[step.client];
      if Prepare(client.request, client.phase.seen).Ok? {
        PublishKeepsReceipts(w.db, Prepare(client.request, client.phase.seen).value, operationId);
      }
    }
  }

  lemma PublishKeepsReceipts(db: Database, p: Publication, operationId: string)
    requires operationId in db.operations
    ensures operationId in Publish(db, p).operations
    ensures Publish(db, p).operations[operationId] == db.operations[operationId]
  {
    hide WellFormedBatch, Holds, PutSlots, PutSecrets;
  }

  /** Through any run of clients a committed operation keeps its receipt, and repeating it is answered without a
      change. */
  lemma {:induction false} RepetitionChangesNothing(w: World, steps: seq<Step>, request: CommitRequest)
    requires Good(w) && OnlyClients(steps) && CommittedBefore(w.db, request) && OwnsSecrets(request)
    ensures CommittedBefore(Run(w, steps).db, request)
    ensures
      var db := Run(w, steps).db;
      CommitNow(db, request) == (db, Saved(FilesOf(Get(db, Projects(request.id)))))
  {
    hide Good, Do, OwnsSecrets;
    if steps == [] {
    } else {
      var front := steps[..|steps| - 1];
      RepetitionChangesNothing(w, front, request);
      RunIsSerial(w, front);
      StepKeepsReceipts(Run(w, front), steps[|steps| - 1], request.batch.value.operationId);
    }
  }

  /** Through any run of clients a failed operation stays failed: under its identifier nothing is committed any more. */
  lemma {:induction false} FailureIsFinal(w: World, steps: seq<Step>, request: CommitRequest)
    requires Good(w) && OnlyClients(steps) && request.batch.Some? && Aborted(w.db, request.batch.value.operationId)
    ensures
      var db := Run(w, steps).db;
      && Aborted(db, request.batch.value.operationId)
      && CommitNow(db, request).0 == db && CommitNow(db, request).1.Refused?
  {
    hide Good, Do, OwnsSecrets;
    if steps == [] {
      AbortedRefuses(w.db, request);
    } else {
      var front := steps[..|steps| - 1];
      FailureIsFinal(w, front, request);
      RunIsSerial(w, front);
      StepKeepsReceipts(Run(w, front), steps[|steps| - 1], request.batch.value.operationId);
      AbortedRefuses(Run(w, steps).db, request);
    }
  }

  lemma AbortedRefuses(db: Database, request: CommitRequest)
    requires request.batch.Some? && Aborted(db, request.batch.value.operationId)
    ensures CommitNow(db, request).0 == db && CommitNow(db, request).1.Refused?
  {
    hide SoundRows, FilesCurrent, PutRows, PutFiles, WellFormedBatch, Holds, OwnsSecrets;
  }

  /** Every interleaving of reads and publications leaves the database as the successful
      commits leave it when each runs alone, in the order of their publications. */
  lemma {:induction false} RunIsSerial(w: World, steps: seq<Step>)
    requires Good(w)
    ensures Good(Run(w, steps))
    ensures Run(w, steps).db == PerformAll(w.db, Effects(w, steps))
  {
    hide Good, Do, EffectOf, Perform;
    if steps == [] {
    } else {
      var front := steps[..|steps| - 1];
      RunIsSerial(w, front);
      StepKeepsGood(Run(w, front), steps[|steps| - 1]);
      StepIsAtomic(Run(w, front), steps[|steps| - 1]);
      assert Effects(w, steps)[..|Effects(w, steps)| - 1] == Effects(w, front);
    }
  }
}

/** What a commit and a deletion leave behind. */
module BrowserEffects {
  import opened Bytes
  import opened SecretModel
  import opened BrowserModel

  ghost predicate Publishable(db: Database, request: CommitRequest) {
    && OwnsSecrets(request) && !AlreadyCommitted(db, request)
    && Prepare(request, SeenNow(db, request.id)).Ok?
    && PublishVerdict(db, Prepare(request, SeenNow(db, request.id)).value).Written?
  }

  predicate Touches(request: CommitRequest, slot: Slot) {
    slot == Projects(request.id) || slot == Local(request.id) || slot == App("workspaces")
  }

  /** What a commit asks of the database it is run on, in terms of what is stored there. */
  ghost predicate Admissible(db: Database, request: CommitRequest) {
    && AdmissibleBatch(db, request)
    && AllDistinct(RowsOf(Get(db, Local(request.id)))) && (forall row <- RowsOf(Get(db, Local(request.id))) :: Named(row.key))
    && (forall change <- request.changes ::
          BrowserModel.Revision(FilesOf(Get(db, Projects(request.id))), change.path) == change.expectedRevision)
    && (forall change <- request.local, row <- RowsOf(Get(db, Local(request.id))) ::
          row.key == change.key ==> Unpack(row, request.id).Some?)
  }

  ghost predicate AdmissibleBatch(db: Database, request: CommitRequest) {
    request.batch.Some? ==>
      var batch := request.batch.value;
      && batch.operationId != "" && batch.operationId !in db.operations
      && (forall i, j :: 0 <= i < j < |batch.mutations| ==> batch.mutations[i].ref != batch.mutations[j].ref)
      && (forall mutation <- batch.mutations ::
            && "purr/" + (if request.id == "__global__" then "global" else request.id) + "/" <= mutation.ref
            && ScopeOf(mutation.ref) == Some(mutation.scope)
            && 0 <= mutation.expectedRevision < MAX_SAFE_INTEGER
            && SecretRevision(db, mutation.ref) == mutation.expectedRevision)
  }

  /** A commit that is no repetition is published exactly when it asks for what is there. */
  lemma CommitSucceedsExactly(db: Database, request: CommitRequest)
    requires !AlreadyCommitted(db, request)
    ensures CommitNow(db, request).1.Saved? <==> Admissible(db, request)
    ensures Admissible(db, request) <==> Publishable(db, request)
    ensures !Admissible(db, request) ==>
      OnlyReceipt(db, CommitNow(db, request).0, OperationOf(request.batch))
  {
    hide SoundRows, PutRows, PutFiles, PutSlots, PutSecrets, WellFormedBatch, AdmissibleBatch, OnlyReceipt, Unpack, Named;
    hide AllDistinct, BrowserModel.Revision;
    hide Publish, Holds, FilesCurrent;
    PreparedExactly(db, request);
    PublishableExactly(db, request);
    var prepared := Prepare(request, SeenNow(db, request.id));
    if OwnsSecrets(request) && prepared.Ok? && !PublishVerdict(db, prepared.value).Written? {
      FailedPublicationKeeps(db, prepared.value);
    } else {
      NothingChanged(db, OperationOf(request.batch));
    }
  }

  lemma NothingChanged(db: Database, operationId: Option<string>)
    ensures OnlyReceipt(db, db, operationId)
  {
  }

  lemma PreparedExactly(db: Database, request: CommitRequest)
    ensures Prepare(request, SeenNow(db, request.id)).Ok? <==>
      && AllDistinct(RowsOf(Get(db, Local(request.id)))) && (forall row <- RowsOf(Get(db, Local(request.id))) :: Named(row.key))
      && (forall change <- request.changes ::
            BrowserModel.Revision(FilesOf(Get(db, Projects(request.id))), change.path) == change.expectedRevision)
      && (forall change <- request.local, row <- RowsOf(Get(db, Local(request.id))) ::
            row.key == change.key ==> Unpack(row, request.id).Some?)
  {
    hide PutRows, PutFiles, Find, DistinctRows, Named;
    var rows := RowsOf(Get(db, Local(request.id)));
    DistinctMeans(rows);
    if SoundRows(rows) {
      PutRowsSucceeds(rows, request.local, request.id, request.nonce);
      forall change <- request.local
        ensures (Find(rows, change.key).Some? ==> Readable(Find(rows, change.key).value, request.id)) <==>
                forall row <- rows :: row.key == change.key ==> Unpack(row, request.id).Some?
      {
        FindMeans(rows, change.key);
      }
    }
  }

  lemma PublishableExactly(db: Database, request: CommitRequest)
    requires !AlreadyCommitted(db, request)
    ensures Publishable(db, request) <==>
      AdmissibleBatch(db, request) && Prepare(request, SeenNow(db, request.id)).Ok?
  {
    hide SoundRows, PutRows, PutFiles, FilesCurrent, ScopeOf;
    if Prepare(request, SeenNow(db, request.id)).Ok? {
      var p := Prepare(request, SeenNow(db, request.id)).value;
      assert forall check <- p.checks :: Get(db, check.slot) == check.value;
      if request.batch.Some? {
        CountedDistinct(request.batch.value.mutations);
        if Distinct(request.batch.value.mutations) {
          DistinctCounted(request.batch.value.mutations);
        }
      }
    }
  }

  /** A commit writes its own three records and nothing else: it lists its workspace, unless that is the global one,
      behind the ones that were listed, and answers with the files it leaves. */
  lemma CommitWrites(db: Database, request: CommitRequest, slot: Slot)
    requires Publishable(db, request)
    ensures
      var after := CommitNow(db, request);
      var before, ids := IdsOf(Get(db, App("workspaces"))), IdsOf(Get(after.0, App("workspaces")));
      && after.1 == Saved(FilesOf(Get(after.0, Projects(request.id))))
      && before <= ids && |ids| <= |before| + 1
      && (forall id :: id in ids <==> id in before || (id == request.id && id != "__global__"))
      && (!Touches(request, slot) ==> Get(after.0, slot) == Get(db, slot))
  {
    hide SoundRows, FilesCurrent, PutRows, PutFiles, WellFormedBatch, Holds, OwnsSecrets, PutSecrets, PutSlots;
    var p := Prepare(request, SeenNow(db, request.id)).value;
    PutThree(db.slots, p.changes, slot);
    PutThree(db.slots, p.changes, Projects(request.id));
    PutThree(db.slots, p.changes, App("workspaces"));
  }

  /** In the files a commit leaves, each path has the content of the last change to it, under that content's revision,
      or is gone; other paths keep their file. */
  lemma CommitSettlesFiles(db: Database, request: CommitRequest, path: string)
    requires Publishable(db, request)
    ensures
      var before, after := FilesOf(Get(db, Projects(request.id))), FilesOf(Get(CommitNow(db, request).0, Projects(request.id)));
      var changes := request.changes;
      && (forall i :: 0 <= i < |changes| && changes[i].path == path
                      && (forall j :: i < j < |changes| ==> changes[j].path != path) ==>
            if changes[i].content.None? then path !in after
            else path in after && after[path].content == changes[i].content.value
                 && after[path].revision == ContentRevision(changes[i].content.value))
      && ((forall change <- changes :: change.path != path) ==>
            (path in after <==> path in before) && (path in before ==> after[path] == before[path]))
  {
    hide SoundRows, FilesCurrent, PutRows, PutFiles, WellFormedBatch, Holds, OwnsSecrets, PutSecrets, PutSlots, LastFile;
    var p := Prepare(request, SeenNow(db, request.id)).value;
    PutThree(db.slots, p.changes, Projects(request.id));
    PutFilesGet(FilesOf(Get(db, Projects(request.id))), request.changes, path);
    LastFileIn(request.changes, path);
    forall i | 0 <= i < |request.changes| && request.changes[i].path == path
               && (forall j :: i < j < |request.changes| ==> request.changes[j].path != path)
      ensures LastFile(request.changes, path) == Some(request.changes[i])
    {
      LastFileAt(request.changes, i);
    }
  }

  /** Files whose revision is that of their content. */
  ghost predicate Honest(files: map<string, File>) {
    forall path <- files :: files[path].revision == ContentRevision(files[path].content)
  }

  lemma RevisionTells(a: string, b: string)
    ensures ContentRevision(a) == ContentRevision(b) ==> a == b
  {
    if ContentRevision(a) == ContentRevision(b) {
      assert ContentRevision(a)[8..] == a && ContentRevision(b)[8..] == b;
    }
  }

  /** No lost update: a change is published only over the very content it was based on, or over none if it was. */
  lemma CommitReplacesWhatWasRead(db: Database, request: CommitRequest, change: FileChange, content: string)
    requires Publishable(db, request) && Honest(FilesOf(Get(db, Projects(request.id)))) && change in request.changes
    ensures
      var before := FilesOf(Get(db, Projects(request.id)));
      && (change.expectedRevision == Some(ContentRevision(content)) ==>
            change.path in before && before[change.path].content == content)
      && (change.expectedRevision.None? ==> change.path !in before)
    ensures Honest(FilesOf(Get(CommitNow(db, request).0, Projects(request.id))))
  {
    hide SoundRows, PutRows, PutFiles, WellFormedBatch, Holds, OwnsSecrets, PutSecrets, PutSlots, ContentRevision, LastFile;
    var before, after := FilesOf(Get(db, Projects(request.id))), FilesOf(Get(CommitNow(db, request).0, Projects(request.id)));
    if change.path in before {
      RevisionTells(before[change.path].content, content);
    }
    var p := Prepare(request, SeenNow(db, request.id)).value;
    PutThree(db.slots, p.changes, Projects(request.id));
    forall path <- after ensures after[path].revision == ContentRevision(after[path].content) {
      PutFilesGet(before, request.changes, path);
    }
  }

  /** A record that ends as a change says: gone, or reading back for its owner as the value of the change, in the open
      only when the change says so and otherwise sealed for that owner and record. */
  ghost predicate EndsAs(rows: seq<Row>, change: LocalChange, owner: string) {
    match change.value
    case None => forall row <- rows :: row.key != change.key
    case Some(value) =>
      exists row <- rows ::
        && row.key == change.key && Unpack(row, owner) == Some(value)
        && (if change.open then row.stored == Open(value)
            else row.stored.Sealed? && row.stored.value == value && row.stored.context == RowContext(owner, change.key))
  }

  /** In the records a commit leaves, each is as the last change to it says; the others, and with them all protected
      values that cannot be read, are as they were; and no two are alike. */
  lemma CommitSettlesRows(db: Database, request: CommitRequest, row: Row)
    requires Publishable(db, request)
    ensures
      var before, after := RowsOf(Get(db, Local(request.id))), RowsOf(Get(CommitNow(db, request).0, Local(request.id)));
      var changes := request.local;
      && (forall i :: 0 <= i < |changes| && (forall j :: i < j < |changes| ==> changes[j].key != changes[i].key) ==>
            EndsAs(after, changes[i], request.id))
      && ((forall change <- changes :: change.key != row.key) ==> (row in after <==> row in before))
      && (row in before && Unpack(row, request.id).None? ==> row in after && forall change <- changes :: change.key != row.key)
      && AllDistinct(after)
  {
    hide FilesCurrent, PutFiles, WellFormedBatch, Holds, OwnsSecrets, PutSecrets, PutSlots, PutRows, DistinctRows;
    hide Find, EndsAs, LastLocal;
    var p := Prepare(request, SeenNow(db, request.id)).value;
    PutThree(db.slots, p.changes, Local(request.id));
    var before, after := RowsOf(Get(db, Local(request.id))), RowsOf(Get(CommitNow(db, request).0, Local(request.id)));
    var changes := request.local;
    assert PutRows(before, changes, request.id, request.nonce) == Some(after);
    PutRowsFind(before, changes, request.id, request.nonce, row.key);
    DistinctMeans(before);
    DistinctMeans(after);
    LastLocalIn(changes, row.key);
    FindsRow(before, row);
    FindsRow(after, row);
    forall i | 0 <= i < |changes| && (forall j :: i < j < |changes| ==> changes[j].key != changes[i].key)
      ensures EndsAs(after, changes[i], request.id)
    {
      LastLocalAt(changes, i);
      PutRowsFind(before, changes, request.id, request.nonce, changes[i].key);
      RowEnds(after, changes[i], request.id, request.nonce);
    }
  }

  lemma FindsRow(rows: seq<Row>, row: Row)
    requires DistinctRows(rows)
    ensures row in rows <==> Find(rows, row.key) == Some(row)
  {
    FindMeans(rows, row.key);
    DistinctMeans(rows);
  }

  lemma RowEnds(rows: seq<Row>, change: LocalChange, owner: string, nonce: string)
    requires Find(rows, change.key) == if change.value.None? then None else Some(RowFor(change, owner, nonce))
    ensures EndsAs(rows, change, owner)
  {
    hide Find;
    FindMeans(rows, change.key);
  }

  lemma PutThree(slots: map<Slot, Data>, changes: seq<Change>, slot: Slot)
    requires |changes| == 3
    ensures Got(PutSlots(slots, changes), slot) ==
      if changes[2].slot == slot then changes[2].value
      else if changes[1].slot == slot then changes[1].value
      else if changes[0].slot == slot then changes[0].value
      else Got(slots, slot)
  {
    var one, two := changes[..1], changes[..2];
    assert changes[..|changes| - 1] == two && two[..|two| - 1] == one && one[..|one| - 1] == [];
    assert PutSlots(slots, []) == slots;
    assert PutSlots(slots, one) == PutSlot(slots, changes[0]);
    assert PutSlots(slots, two) == PutSlot(PutSlots(slots, one), changes[1]);
    assert PutSlots(slots, changes) == PutSlot(PutSlots(slots, two), changes[2]);
  }

  /** The container of local records stays one that can be read. */
  lemma CommitKeepsContainerSound(db: Database, request: CommitRequest)
    requires Publishable(db, request)
    requires forall change <- request.local :: Named(change.key)
    ensures
      var after := CommitNow(db, request).0;
      && PutRows(RowsOf(Get(db, Local(request.id))), request.local, request.id, request.nonce).Some?
      && Get(after, Local(request.id)) ==
           Some(Rows(PutRows(RowsOf(Get(db, Local(request.id))), request.local, request.id, request.nonce).value))
      && SoundRows(RowsOf(Get(after, Local(request.id))))
  {
    hide FilesCurrent, PutRows, PutFiles, WellFormedBatch, Holds, OwnsSecrets, PutSecrets, DistinctRows;
    var p := Prepare(request, SeenNow(db, request.id)).value;
    PutThree(db.slots, p.changes, Local(request.id));
    PutRowsSound(RowsOf(Get(db, Local(request.id))), request.local, request.id, request.nonce);
  }

  lemma {:induction false} PutRowsSound(rows: seq<Row>, changes: seq<LocalChange>, owner: string, nonce: string)
    requires SoundRows(rows) && PutRows(rows, changes, owner, nonce).Some?
    requires forall change <- changes :: Named(change.key)
    ensures SoundRows(PutRows(rows, changes, owner, nonce).value)
  {
    hide DistinctRows;
    if changes == [] {
    } else {
      var front, last := changes[..|changes| - 1], changes[|changes| - 1];
      PutRowsSound(rows, front, owner, nonce);
      var earlier := PutRows(rows, front, owner, nonce).value;
      assert last in changes;
      if last.value.None? {
        WithoutRowFind(earlier, last.key, last.key);
        WithoutRowNames(earlier, last.key);
      } else {
        WithRowFind(earlier, RowFor(last, owner, nonce), last.key);
        WithRowNames(earlier, RowFor(last, owner, nonce));
      }
    }
  }

  lemma {:induction false} WithRowNames(rows: seq<Row>, row: Row)
    ensures forall other <- WithRow(rows, row) :: other == row || other in rows
  {
    if rows != [] && rows[0].key != row.key {
      WithRowNames(rows[1..], row);
    }
  }

  lemma {:induction false} WithoutRowNames(rows: seq<Row>, key: RowKey)
    ensures forall other <- WithoutRow(rows, key) :: other in rows
  {
    if rows != [] && rows[0].key != key {
      WithoutRowNames(rows[1..], key);
    }
  }

  /** A commit gives every secret it names its new value, one revision on from the revision it names, and leaves all
      others; from then on its receipt answers every repetition without a change. */
  lemma CommitSettlesSecrets(db: Database, request: CommitRequest, ref: Ref)
    requires Publishable(db, request) && request.batch.Some?
    ensures
      var after, mutations := CommitNow(db, request).0, request.batch.value.mutations;
      && Distinct(mutations)
      && (forall mutation <- mutations :: mutation.ref == ref ==>
            && SecretRevision(db, ref) == mutation.expectedRevision
            && SecretRevision(after, ref) == mutation.expectedRevision + 1
            && SecretValue(after, ref) == mutation.value)
      && (ref !in RefsOf(mutations) ==>
            SecretValue(after, ref) == SecretValue(db, ref) && SecretRevision(after, ref) == SecretRevision(db, ref))
      && AlreadyCommitted(after, request) && ReplayReply(after, request).Saved?
      && CommitNow(after, request).0 == after
  {
    hide SoundRows, FilesCurrent, PutRows, PutFiles, OwnsSecrets, PutSlots, PutSecrets, Distinct, ScopeOf;
    var p := Prepare(request, SeenNow(db, request.id)).value;
    var mutations := request.batch.value.mutations;
    CountedDistinct(mutations);
    if ref !in RefsOf(mutations) {
      PutSecretsOther(db.secrets, mutations, ref);
    }
    forall mutation <- mutations | mutation.ref == ref
      ensures SecretRevision(db, ref) == mutation.expectedRevision
      ensures ref in PutSecrets(db.secrets, mutations) && PutSecrets(db.secrets, mutations)[ref] == Renewed(mutation)
    {
      assert mutation in Mutations(p);
      PutSecretsGet(db.secrets, mutations, mutation);
    }
  }

  /** Every secret that carries a revision is at least at its first. */
  ghost predicate Numbered(secrets: map<Ref, SecretRow>) {
    forall ref <- secrets :: secrets[ref].revision.Some? ==> secrets[ref].revision.value >= 1
  }

  /** A secret that is meant to be new replaces none, also none from before revisions existed. */
  lemma NewSecretReplacesNone(db: Database, request: CommitRequest, mutation: Mutation)
    requires Publishable(db, request) && request.batch.Some? && mutation in request.batch.value.mutations
    requires Numbered(db.secrets)
    ensures mutation.expectedRevision == 0 ==> mutation.ref !in db.secrets
    ensures Numbered(CommitNow(db, request).0.secrets)
  {
    hide SoundRows, PutRows, PutFiles, PutSlots, FilesCurrent, ScopeOf;
    var p := Prepare(request, SeenNow(db, request.id)).value;
    assert mutation in Mutations(p);
    PutSecretsNumbered(db.secrets, Mutations(p));
  }

  lemma {:induction false} PutSecretsNumbered(secrets: map<Ref, SecretRow>, mutations: seq<Mutation>)
    requires Numbered(secrets) && forall mutation <- mutations :: mutation.expectedRevision >= 0
    ensures Numbered(PutSecrets(secrets, mutations))
  {
    if mutations != [] {
      PutSecretsNumbered(secrets, mutations[..|mutations| - 1]);
    }
  }

  /** A commit changes secrets of its own scope only. */
  lemma CommitStaysInScope(db: Database, request: CommitRequest, mutation: Mutation)
    requires Publishable(db, request) && request.batch.Some? && mutation in request.batch.value.mutations
    requires '/' !in request.id
    ensures if request.id == "__global__" || request.id == "global" then mutation.scope.Global?
            else mutation.scope.Workspace? && mutation.scope.workspaceId == request.id
  {
    hide SoundRows, FilesCurrent, PutRows, PutFiles, PutSlots, PutSecrets, Holds, ScopeOf;
    var p := Prepare(request, SeenNow(db, request.id)).value;
    assert mutation in Mutations(p) && ScopeOf(mutation.ref) == Some(mutation.scope);
    ScopeOwner(mutation.ref, OwnerName(request.id));
  }

  // ----------------------------------------------------------------- deletion

  /** What a deletion read: every record and every secret revision in a read of its own. */
  datatype Found = Found(files: Option<Data>, local: Option<Data>, ids: Option<Data>, active: Option<Data>,
                         keys: seq<string>, history: seq<Option<Data>>, refs: seq<Ref>, revisions: seq<int>)

  function HistoryPrefix(id: string): string { "history/" + id + "/" }

  function SecretPrefix(id: string): string { "purr/" + id + "/" }

  predicate WellFound(id: string, found: Found) {
    && |found.history| == |found.keys| && |found.revisions| == |found.refs|
    && (forall key <- found.keys :: StartsWith(key, HistoryPrefix(id)))
    && (forall ref <- found.refs :: StartsWith(ref, SecretPrefix(id)) && ScopeOf(ref).Some?)
  }

  function WithoutId(ids: seq<string>, id: string): seq<string> {
    if ids == [] then []
    else (if ids[0] == id then [] else [ids[0]]) + WithoutId(ids[1..], id)
  }

  function Removals(keys: seq<string>): seq<Change> {
    seq(|keys|, i requires 0 <= i < |keys| => Change(App(keys[i]), None))
  }

  function Tombstones(refs: seq<Ref>, revisions: seq<int>): seq<Mutation>
    requires |refs| == |revisions| && forall ref <- refs :: ScopeOf(ref).Some?
  {
    seq(|refs|, i requires 0 <= i < |refs| => Mutation(refs[i], ScopeOf(refs[i]).value, revisions[i], None))
  }

  function DeletionChanges(id: string, found: Found): seq<Change> {
    [Change(Projects(id), None), Change(Local(id), None), Change(App("workspaces"), Some(Ids(WithoutId(IdsOf(found.ids), id))))]
    + Removals(found.keys)
    + if found.active == Some(Text(id)) then [Change(App("active"), None)] else []
  }

  function DeletionOf(id: string, found: Found, operationId: string): Publication
    requires WellFound(id, found)
  {
    Publication(
      DeletionChanges(id, found),
      Some(Batch(operationId, Tombstones(found.refs, found.revisions))),
      [Change(Projects(id), found.files), Change(Local(id), found.local),
       Change(App("workspaces"), found.ids), Change(App("active"), found.active)]
      + seq(|found.keys|, i requires 0 <= i < |found.keys| => Change(App(found.keys[i]), found.history[i])),
      Deletion(DeletionChanges(id, found), [SecretPrefix(id)]),
      [AppKeys(HistoryPrefix(id), set key <- found.keys), SecretKeys(SecretPrefix(id), set ref <- found.refs)])
  }

  /** The records a workspace owns. */
  predicate Owned(id: string, slot: Slot) {
    slot == Projects(id) || slot == Local(id) || (slot.App? && "history/" + id + "/" <= slot.key)
  }

  lemma {:induction false} WithoutIdMeans(ids: seq<string>, id: string)
    ensures forall other :: other in WithoutId(ids, id) <==> other in ids && other != id
  {
    if ids == [] {
    } else {
      WithoutIdMeans(ids[1..], id);
    }
  }

  lemma {:induction false} LastForAppend(front: seq<Change>, back: seq<Change>, slot: Slot)
    ensures LastFor(front + back, slot) == if LastFor(back, slot).Some? then LastFor(back, slot) else LastFor(front, slot)
  {
    if back == [] {
      assert front + back == front;
    } else {
      assert (front + back)[..|front + back| - 1] == front + back[..|back| - 1];
      LastForAppend(front, back[..|back| - 1], slot);
    }
  }

  lemma {:induction false} LastForRemovals(keys: seq<string>, slot: Slot)
    ensures LastFor(Removals(keys), slot) ==
      if slot.App? && slot.key in keys then Some(Change(slot, None)) else None
  {
    if keys == [] {
    } else {
      var front, last := keys[..|keys| - 1], keys[|keys| - 1];
      assert Removals(keys)[..|keys| - 1] == Removals(front);
      assert keys == front + [last];
      LastForRemovals(front, slot);
    }
  }

  lemma LastForThree(changes: seq<Change>, slot: Slot)
    requires |changes| == 3
    ensures LastFor(changes, slot) ==
      if changes[2].slot == slot then Some(changes[2])
      else if changes[1].slot == slot then Some(changes[1])
      else if changes[0].slot == slot then Some(changes[0])
      else None
  {
    var two, one := changes[..2], changes[..1];
    assert two[..|two| - 1] == one && one[..|one| - 1] == [];
    assert LastFor(one, slot) == if changes[0].slot == slot then Some(changes[0]) else None;
    assert LastFor(two, slot) == if changes[1].slot == slot then Some(changes[1]) else LastFor(one, slot);
  }

  lemma DeletionLast(id: string, found: Found, slot: Slot)
    ensures LastFor(DeletionChanges(id, found), slot) ==
      if slot == App("active") && found.active == Some(Text(id)) then Some(Change(slot, None))
      else if slot.App? && slot.key in found.keys then Some(Change(slot, None))
      else if slot == App("workspaces") then Some(Change(slot, Some(Ids(WithoutId(IdsOf(found.ids), id)))))
      else if slot == Projects(id) || slot == Local(id) then Some(Change(slot, None))
      else None
  {
    hide WithoutId, LastFor;
    var first := [Change(Projects(id), None), Change(Local(id), None),
                  Change(App("workspaces"), Some(Ids(WithoutId(IdsOf(found.ids), id))))];
    var final := if found.active == Some(Text(id)) then [Change(App("active"), None)] else [];
    assert DeletionChanges(id, found) == first + Removals(found.keys) + final;
    LastForThree(first, slot);
    LastForRemovals(found.keys, slot);
    LastForAppend(first, Removals(found.keys), slot);
    LastForAppend(first + Removals(found.keys), final, slot);
    LastForOne(final, slot);
  }

  lemma LastForOne(changes: seq<Change>, slot: Slot)
    requires |changes| <= 1
    ensures LastFor(changes, slot) == if |changes| == 1 && changes[0].slot == slot then Some(changes[0]) else None
  {
  }

  /** A deletion that is published leaves no record of the workspace, whatever was created between its reads; every
      other workspace stays listed, another active one stays active, and no other record changes. */
  lemma DeletionIsComplete(db: Database, id: string, found: Found, operationId: string, slot: Slot)
    requires WellFound(id, found) && PublishVerdict(db, DeletionOf(id, found, operationId)).Written?
    ensures
      var after := Publish(db, DeletionOf(id, found, operationId));
      && (Owned(id, slot) ==> Get(after, slot).None?)
      && (forall other :: other in IdsOf(Get(after, App("workspaces"))) <==>
            other in IdsOf(Get(db, App("workspaces"))) && other != id)
      && Get(after, App("active")) == (if Get(db, App("active")) == Some(Text(id)) then None else Get(db, App("active")))
      && (!Owned(id, slot) && slot != App("workspaces") && slot != App("active") ==> Get(after, slot) == Get(db, slot))
  {
    hide WellFormedBatch, PutSecrets, PutSlots, WithoutId, LastFor, Tombstones;
    var p := DeletionOf(id, found, operationId);
    DeletionSaw(db, id, found, operationId);
    WithoutIdMeans(IdsOf(found.ids), id);
    PutSlotsGet(db.slots, p.changes, slot);
    PutSlotsGet(db.slots, p.changes, App("workspaces"));
    PutSlotsGet(db.slots, p.changes, App("active"));
    DeletionLast(id, found, slot);
    DeletionLast(id, found, App("workspaces"));
    DeletionLast(id, found, App("active"));
    NotHistory(id);
  }

  /** What was found is what is there: every record, every key, every secret and its revision. */
  ghost predicate FoundNow(db: Database, id: string, found: Found)
    requires WellFound(id, found)
  {
    && Get(db, Projects(id)) == found.files && Get(db, Local(id)) == found.local
    && Get(db, App("workspaces")) == found.ids && Get(db, App("active")) == found.active
    && (forall i :: 0 <= i < |found.keys| ==> Get(db, App(found.keys[i])) == found.history[i])
    && (forall key :: App(key) in db.slots && StartsWith(key, HistoryPrefix(id)) <==> key in found.keys)
    && (forall ref :: ref in db.secrets && StartsWith(ref, SecretPrefix(id)) <==> ref in found.refs)
    && (forall i :: 0 <= i < |found.refs| ==> SecretRevision(db, found.refs[i]) == found.revisions[i])
  }

  /** A deletion is published exactly when nothing has changed since it looked, under an identifier of its own. */
  lemma DeletionSucceedsExactly(db: Database, id: string, found: Found, operationId: string)
    requires WellFound(id, found) && operationId != "" && operationId !in db.operations
    requires forall i, j :: 0 <= i < j < |found.refs| ==> found.refs[i] != found.refs[j]
    requires forall revision <- found.revisions :: 0 <= revision < MAX_SAFE_INTEGER
    ensures PublishVerdict(db, DeletionOf(id, found, operationId)).Written? <==> FoundNow(db, id, found)
  {
    hide StartsWith, ScopeOf, DeletionChanges, WellFormedBatch, Holds, RefsOf;
    DeletionWellFormed(id, found, operationId);
    DeletionHolds(db, id, found, operationId);
  }

  lemma DeletionWellFormed(id: string, found: Found, operationId: string)
    requires WellFound(id, found) && operationId != ""
    requires forall i, j :: 0 <= i < j < |found.refs| ==> found.refs[i] != found.refs[j]
    requires forall revision <- found.revisions :: 0 <= revision < MAX_SAFE_INTEGER
    ensures WellFormedBatch(Batch(operationId, Tombstones(found.refs, found.revisions)))
  {
    hide ScopeOf, RefsOf;
    var mutations := Tombstones(found.refs, found.revisions);
    DistinctCounted(mutations);
    forall mutation <- mutations
      ensures ScopeOf(mutation.ref) == Some(mutation.scope) && 0 <= mutation.expectedRevision < MAX_SAFE_INTEGER
    {
      var i :| 0 <= i < |mutations| && mutations[i] == mutation;
      assert found.refs[i] in found.refs && found.revisions[i] in found.revisions;
    }
  }

  lemma DeletionHolds(db: Database, id: string, found: Found, operationId: string)
    requires WellFound(id, found)
    ensures Holds(db, DeletionOf(id, found, operationId)) <==> FoundNow(db, id, found)
  {
    hide StartsWith, ScopeOf, DeletionChanges;
    KeysAreMembers(db, id, found.keys);
    RefsAreMembers(db, id, found.refs);
    DeletionChecks(db, id, found, operationId);
    TombstonesCurrent(db, found.refs, found.revisions);
    var p := DeletionOf(id, found, operationId);
    assert p.memberships[0] in p.memberships && p.memberships[1] in p.memberships;
    hide Tombstones, Members, Get;
  }

  lemma DeletionChecks(db: Database, id: string, found: Found, operationId: string)
    requires WellFound(id, found)
    ensures (forall check <- DeletionOf(id, found, operationId).checks :: Get(db, check.slot) == check.value) <==>
      && Get(db, Projects(id)) == found.files && Get(db, Local(id)) == found.local
      && Get(db, App("workspaces")) == found.ids && Get(db, App("active")) == found.active
      && (forall i :: 0 <= i < |found.keys| ==> Get(db, App(found.keys[i])) == found.history[i])
  {
    hide StartsWith, ScopeOf, DeletionChanges, Get, Tombstones;
    var checks := DeletionOf(id, found, operationId).checks;
    assert checks[0] in checks && checks[1] in checks && checks[2] in checks && checks[3] in checks;
    forall i | 0 <= i < |found.keys|
      ensures checks[4 + i] == Change(App(found.keys[i]), found.history[i]) && checks[4 + i] in checks {}
  }

  lemma TombstonesCurrent(db: Database, refs: seq<Ref>, revisions: seq<int>)
    requires |refs| == |revisions| && forall ref <- refs :: ScopeOf(ref).Some?
    ensures (forall mutation <- Tombstones(refs, revisions) :: SecretRevision(db, mutation.ref) == mutation.expectedRevision)
            <==> forall i :: 0 <= i < |refs| ==> SecretRevision(db, refs[i]) == revisions[i]
  {
    hide ScopeOf;
    var mutations := Tombstones(refs, revisions);
    forall i | 0 <= i < |refs|
      ensures mutations[i].ref == refs[i] && mutations[i].expectedRevision == revisions[i] && mutations[i] in mutations {}
  }

  lemma KeysAreMembers(db: Database, id: string, keys: seq<string>)
    ensures Members(db, AppKeys(HistoryPrefix(id), set key <- keys)) == (set key <- keys) <==>
      forall key :: App(key) in db.slots && StartsWith(key, HistoryPrefix(id)) <==> key in keys
  {
    hide StartsWith;
    var all := set key <- keys;
    var members := Members(db, AppKeys(HistoryPrefix(id), all));
    forall key ensures key in members <==> App(key) in db.slots && StartsWith(key, HistoryPrefix(id)) {
      if App(key) in db.slots && StartsWith(key, HistoryPrefix(id)) {
        var slot := App(key);
        assert slot in db.slots && slot.App? && StartsWith(slot.key, HistoryPrefix(id));
      }
    }
    hide Members;
    assert forall key :: key in all <==> key in keys;
    assert members == all <==> forall key :: key in members <==> key in all;
  }

  lemma RefsAreMembers(db: Database, id: string, refs: seq<Ref>)
    ensures Members(db, SecretKeys(SecretPrefix(id), set ref <- refs)) == (set ref <- refs) <==>
      forall ref :: ref in db.secrets && StartsWith(ref, SecretPrefix(id)) <==> ref in refs
  {
    hide StartsWith;
    var all := set ref <- refs;
    var members := Members(db, SecretKeys(SecretPrefix(id), all));
    forall ref ensures ref in members <==> ref in db.secrets && StartsWith(ref, SecretPrefix(id)) {}
    hide Members;
    assert forall ref :: ref in all <==> ref in refs;
    assert members == all <==> forall ref :: ref in members <==> ref in all;
  }

  lemma NotHistory(id: string)
    ensures !StartsWith("workspaces", HistoryPrefix(id)) && !StartsWith("active", HistoryPrefix(id))
  {
    assert HistoryPrefix(id)[0] == 'h';
  }

  lemma DeletionSaw(db: Database, id: string, found: Found, operationId: string)
    requires WellFound(id, found) && PublishVerdict(db, DeletionOf(id, found, operationId)).Written?
    ensures Get(db, App("active")) == found.active && Get(db, App("workspaces")) == found.ids
    ensures forall key :: App(key) in db.slots && StartsWith(key, HistoryPrefix(id)) <==> key in found.keys
    ensures forall ref :: ref in db.secrets && StartsWith(ref, SecretPrefix(id)) <==> ref in found.refs
  {
    hide WellFormedBatch, StartsWith;
    var p := DeletionOf(id, found, operationId);
    assert p.checks[3] in p.checks && p.checks[3] == Change(App("active"), found.active);
    assert p.checks[2] in p.checks && p.checks[2] == Change(App("workspaces"), found.ids);
    assert p.memberships[0] in p.memberships && p.memberships[1] in p.memberships;
    assert Members(db, p.memberships[0]) == p.memberships[0].keys;
    assert Members(db, p.memberships[1]) == p.memberships[1].keys;
    forall ref ensures ref in db.secrets && StartsWith(ref, SecretPrefix(id)) <==> ref in found.refs {
      assert ref in Members(db, p.memberships[1]) <==> ref in db.secrets && StartsWith(ref, SecretPrefix(id));
    }
    forall key ensures App(key) in db.slots && StartsWith(key, HistoryPrefix(id)) <==> key in found.keys {
      assert key in Members(db, p.memberships[0]) <==> App(key) in db.slots && StartsWith(key, HistoryPrefix(id)) by {
        if App(key) in db.slots && StartsWith(key, HistoryPrefix(id)) {
          var slot := App(key);
          assert slot in db.slots && slot.App? && StartsWith(slot.key, HistoryPrefix(id));
        }
      }
    }
  }

  lemma DeletionEmptiesSecrets(db: Database, id: string, found: Found, operationId: string, ref: Ref)
    requires WellFound(id, found) && PublishVerdict(db, DeletionOf(id, found, operationId)).Written?
    ensures
      var after := Publish(db, DeletionOf(id, found, operationId));
      && ("purr/" + id + "/" <= ref ==> SecretValue(after, ref).None?)
      && (!("purr/" + id + "/" <= ref) ==>
            SecretValue(after, ref) == SecretValue(db, ref) && SecretRevision(after, ref) == SecretRevision(db, ref))
  {
    hide WellFormedBatch, PutSecrets, PutSlots, WithoutId, LastFor;
    DeletionSaw(db, id, found, operationId);
    var mutations := Tombstones(found.refs, found.revisions);
    assert Mutations(DeletionOf(id, found, operationId)) == mutations;
    TombstoneRefs(found.refs, found.revisions);
    if ref in RefsOf(mutations) {
      var mutation :| mutation in mutations && mutation.ref == ref;
      DeletionDistinct(db, id, found, operationId);
      PutSecretsGet(db.secrets, mutations, mutation);
    } else {
      PutSecretsOther(db.secrets, mutations, ref);
    }
  }

  /** In terms of protection: all secrets of the workspace's scopes are gone, and none of any other scope is touched. */
  lemma DeletionStaysInScope(db: Database, id: string, found: Found, operationId: string, ref: Ref)
    requires WellFound(id, found) && PublishVerdict(db, DeletionOf(id, found, operationId)).Written?
    requires id != "global" && '/' !in id && ScopeOf(ref).Some?
    ensures
      var after, scope := Publish(db, DeletionOf(id, found, operationId)), ScopeOf(ref).value;
      if scope.Workspace? && scope.workspaceId == id then SecretValue(after, ref).None?
      else SecretValue(after, ref) == SecretValue(db, ref) && SecretRevision(after, ref) == SecretRevision(db, ref)
  {
    hide WellFound, PublishVerdict, Publish, ScopeOf, DeletionOf;
    DeletionEmptiesSecrets(db, id, found, operationId, ref);
    if "purr/" + id + "/" <= ref {
      ScopeOwner(ref, id);
    } else {
      var owner, kind, path := ScopedRefIsBuilt(ref);
      var rest := KindName(kind) + "/" + path;
      assert ref == "purr/" + owner + "/" + rest;
      assert "purr/" + owner + "/" <= ref;
      ScopeOwner(ref, owner);
    }
  }

  lemma DeletionDistinct(db: Database, id: string, found: Found, operationId: string)
    requires WellFound(id, found) && PublishVerdict(db, DeletionOf(id, found, operationId)).Written?
    ensures Distinct(Tombstones(found.refs, found.revisions))
  {
    hide Holds, Tombstones, DeletionChanges, ScopeOf, StartsWith;
    CountedDistinct(Tombstones(found.refs, found.revisions));
  }

  lemma TombstoneRefs(refs: seq<Ref>, revisions: seq<int>)
    requires |refs| == |revisions| && forall ref <- refs :: ScopeOf(ref).Some?
    ensures forall ref :: ref in RefsOf(Tombstones(refs, revisions)) <==> ref in refs
    ensures forall mutation <- Tombstones(refs, revisions) :: mutation.value.None?
  {
    hide ScopeOf;
    var mutations := Tombstones(refs, revisions);
    forall ref | ref in refs ensures ref in RefsOf(mutations) {
      var i :| 0 <= i < |refs| && refs[i] == ref;
      assert mutations[i] in mutations;
    }
  }
}

/** The database itself, and the commit as it runs. */
module BrowserBackend {
  import opened Bytes
  import opened SecretModel
  import opened BrowserModel

  class BrowserDatabase {
    var slots: map<Slot, Data>
    var secrets: map<Ref, SecretRow>
    var operations: map<string, OperationReceipt>

    constructor ()
      ensures State() == Database(map[], map[], map[])
    {
      slots, secrets, operations := map[], map[], map[];
    }

    function State(): Database
      reads this
    {
      Database(slots, secrets, operations)
    }

    /** All checks and all writes in one transaction. */
    method PublishAll(p: Publication) returns (verdict: Verdict)
      modifies this
      ensures verdict == PublishVerdict(old(State()), p)
      ensures State() == Publish(old(State()), p)
    {
      hide WellFormedBatch, Holds, PutSlots, PutSecrets;
      if p.batch.Some? {
        if !WellFormedBatch(p.batch.value) {
          return Malformed;
        }
        if p.batch.value.operationId in operations {
          return Prior(operations[p.batch.value.operationId], p.batch.value, p.identity);
        }
      }
      var ok := Verify(p);
      ProbesMeanHolds(old(State()), p);
      verdict := if ok then Written else Changed;
    }

    /** Answers arrive one by one; the first mismatch fails the transaction, the last match applies it. */
    method Verify(p: Publication) returns (ok: bool)
      modifies this
      ensures ok <==> forall probe <- Probes(p) :: Passes(old(State()), probe)
      ensures State() == if ok then Applied(old(State()), p) else Failed(old(State()), p)
    {
      hide PutSlots, PutSecrets, Passes, Probes, Receipted;
      var probes := Probes(p);
      var remaining := |probes|;
      var failed := false;
      if remaining == 0 {
        Apply(p);
        return true;
      }
      var i := 0;
      while i < |probes|
        invariant 0 <= i <= |probes|
        invariant !failed ==> remaining == |probes| - i
        invariant !failed ==> forall j :: 0 <= j < i ==> Passes(old(State()), probes[j])
        invariant failed ==> exists j :: 0 <= j < i && !Passes(old(State()), probes[j])
        invariant State() ==
          if failed then Failed(old(State()), p) else if remaining == 0 then Applied(old(State()), p) else old(State())
      {
        if !failed {
          if !Passes(State(), probes[i]) {
            failed := true;
            Fail(p);
          } else {
            remaining := remaining - 1;
            if remaining == 0 {
              Apply(p);
            }
          }
        }
        i := i + 1;
      }
      ok := !failed;
      if failed {
        ghost var j :| 0 <= j < |probes| && !Passes(old(State()), probes[j]);
        assert probes[j] in probes;
      }
    }

    method Fail(p: Publication)
      modifies `operations
      ensures State() == Failed(old(State()), p)
    {
      if p.batch.Some? {
        operations := operations[p.batch.value.operationId := OperationReceipt(p.batch.value, p.identity, false)];
      }
    }

    method Apply(p: Publication)
      modifies this
      ensures State() == Applied(old(State()), p)
    {
      var changes := p.changes;
      var i := 0;
      assert changes[..0] == [];
      while i < |changes|
        invariant 0 <= i <= |changes|
        invariant slots == PutSlots(old(slots), changes[..i])
        invariant secrets == old(secrets) && operations == old(operations)
      {
        assert changes[..i + 1][..i] == changes[..i];
        slots := if changes[i].value.None? then slots - {changes[i].slot} else slots[changes[i].slot := changes[i].value.value];
        i := i + 1;
      }
      assert changes[..i] == changes;
      ApplySecrets(Mutations(p));
      if p.batch.Some? {
        operations := operations[p.batch.value.operationId := OperationReceipt(p.batch.value, p.identity, true)];
      }
    }

    method ApplySecrets(mutations: seq<Mutation>)
      modifies `secrets
      ensures secrets == PutSecrets(old(secrets), mutations)
    {
      var i := 0;
      assert mutations[..0] == [];
      while i < |mutations|
        invariant 0 <= i <= |mutations|
        invariant secrets == PutSecrets(old(secrets), mutations[..i])
      {
        assert mutations[..i + 1][..i] == mutations[..i];
        secrets := secrets[mutations[i].ref := SecretRow(mutations[i].value, Some(mutations[i].expectedRevision + 1))];
        i := i + 1;
      }
      assert mutations[..i] == mutations;
    }

    /** A commit that nobody interrupts. */
    method Commit(request: CommitRequest) returns (reply: Reply)
      modifies this
      ensures (State(), reply) == CommitNow(old(State()), request)
    {
      hide PutFiles, PutRows, FilesCurrent, SoundRows, OwnsSecrets, PublishVerdict, Publish, Prepare;
      if !OwnsSecrets(request) {
        return Refused(ForeignSecret);
      }
      if request.batch.Some? && request.batch.value.operationId in operations {
        var receipt := operations[request.batch.value.operationId];
        if receipt.committed {
          return ReplayReply(State(), request);
        }
      }
      var seen := SeenNow(State(), request.id);
      var prepared := PrepareCommit(request, seen);
      if prepared.Err? {
        return Refused(prepared.error);
      }
      var verdict := PublishAll(prepared.value);
      var files := PutFiles(FilesOf(seen.files), request.changes);
      reply := if verdict.Written? || verdict.AlreadyDone? then Saved(files) else Refused(NotPublished(verdict));
    }
  }

  function Applied(db: Database, p: Publication): Database {
    Database(PutSlots(db.slots, p.changes), PutSecrets(db.secrets, Mutations(p)), Receipted(db, p, true))
  }

  function Failed(db: Database, p: Publication): Database {
    db.(operations := Receipted(db, p, false))
  }

  /** Turns what was read into what is to be published. */
  method PrepareCommit(request: CommitRequest, seen: Seen) returns (prepared: Result<Publication, Refusal>)
    ensures prepared == Prepare(request, seen)
  {
    hide PutFiles, PutRows, FilesCurrent, SoundRows, BrowserModel.Prepared;
    if !SoundRows(RowsOf(seen.local)) {
      return Err(DamagedContainer);
    }
    var files := EditFiles(FilesOf(seen.files), request.changes);
    if files.None? {
      return Err(FileChanged);
    }
    var rows := EditRows(RowsOf(seen.local), request.local, request.id, request.nonce);
    if rows.None? {
      return Err(UnreadableRecord);
    }
    prepared := Ok(BrowserModel.Prepared(request, seen, files.value, rows.value));
  }

  /** Every change is compared before any is made. */
  method EditFiles(before: map<string, File>, changes: seq<FileChange>) returns (result: Option<map<string, File>>)
    ensures result == if FilesCurrent(before, changes) then Some(PutFiles(before, changes)) else None
  {
    var files := before;
    var i := 0;
    while i < |changes|
      invariant 0 <= i <= |changes|
      invariant forall j :: 0 <= j < i ==> BrowserModel.Revision(before, changes[j].path) == changes[j].expectedRevision
    {
      var found := if changes[i].path in files then Some(files[changes[i].path].revision) else None;
      if found != changes[i].expectedRevision {
        assert changes[i] in changes;
        return None;
      }
      i := i + 1;
    }
    i := 0;
    assert changes[..0] == [];
    while i < |changes|
      invariant 0 <= i <= |changes|
      invariant files == PutFiles(before, changes[..i])
    {
      assert changes[..i + 1][..i] == changes[..i];
      var change := changes[i];
      if change.content.None? {
        files := files - {change.path};
      } else {
        files := files[change.path := File(change.content.value, ContentRevision(change.content.value))];
      }
      i := i + 1;
    }
    assert changes[..i] == changes;
    result := Some(files);
  }

  method EditRows(before: seq<Row>, changes: seq<LocalChange>, owner: string, nonce: string)
    returns (result: Option<seq<Row>>)
    ensures result == PutRows(before, changes, owner, nonce)
  {
    hide Find, WithRow, WithoutRow, Readable, RowFor;
    var rows := before;
    var i := 0;
    assert changes[..0] == [];
    while i < |changes|
      invariant 0 <= i <= |changes|
      invariant PutRows(before, changes[..i], owner, nonce) == Some(rows)
    {
      assert changes[..i + 1][..i] == changes[..i];
      var change := changes[i];
      var previous := Find(rows, change.key);
      if previous.Some? && !Readable(previous.value, owner) {
        UnreadableStays(before, changes, i + 1, owner, nonce);
        return None;
      }
      rows := if change.value.None? then WithoutRow(rows, change.key) else WithRow(rows, RowFor(change, owner, nonce));
      i := i + 1;
    }
    assert changes[..i] == changes;
    result := Some(rows);
  }

  lemma {:induction false} UnreadableStays(before: seq<Row>, changes: seq<LocalChange>, i: nat, owner: string, nonce: string)
    requires i <= |changes| && PutRows(before, changes[..i], owner, nonce).None?
    ensures PutRows(before, changes, owner, nonce).None?
    decreases |changes|
  {
    if i == |changes| {
      assert changes[..i] == changes;
    } else {
      var front := changes[..|changes| - 1];
      assert front[..i] == changes[..i];
      UnreadableStays(before, front, i, owner, nonce);
    }
  }
}
