/** The response store: content rows, chunk rows, and the byte sequence each content stands for. */
module ContentModel {
  import opened Bytes
  import opened ContentRows

  datatype ContentState = Staging | Ready | Adopted

  datatype Limits = Limits(chunkBytes: nat, maxWindowBytes: nat, maxContentBytes: nat, maxRetainedBytes: Option<nat>,
                           stagingTtlSeconds: int)

  /** A row of `response_contents`. */
  datatype ContentRow = ContentRow(workspace: string, execution: Option<string>, state: ContentState, byteLength: nat,
                                   expiresAt: Option<int>, protection: Protection)

  /** What a content is to everybody but the store: its state and its bytes. */
  datatype Content = Content(state: ContentState, bytes: seq<byte>)

  type View = map<string, Content>

  datatype StoreError =
    | InvalidIdentifier | InvalidWorkspace | NoKey | Missing | NotWritable | TooLarge | QuotaExceeded | StorageFailed
    | NotStaging | Incomplete | WindowTooLarge | BeyondContent | DamagedContent | AlreadyExists | NotAdoptable
    | InvalidCursor | NotUtf8 | PatternTooLong | Cancelled

  predicate Alphanumeric(c: char) {
    'a' <= c <= 'z' || 'A' <= c <= 'Z' || '0' <= c <= '9'
  }

  predicate ValidId(id: string) {
    && |id| <= 128
    && "content-" <= id
    && forall c <- id :: Alphanumeric(c) || c == '-'
  }

  predicate ValidWorkspace(workspace: string) {
    && 0 < |workspace| <= 128
    && forall c <- workspace :: Alphanumeric(c) || c == '-' || c == '_'
  }

  /** Stored bytes over all contents: the quota's measure. */
  ghost function Retained(contents: map<string, ContentRow>): nat
    decreases |contents|
  {
    if contents == map[] then 0
    else
      var id :| id in contents;
      contents[id].byteLength + Retained(contents - {id})
  }

  lemma {:induction false} RetainedSplit(contents: map<string, ContentRow>, id: string)
    requires id in contents
    ensures Retained(contents) == contents[id].byteLength + Retained(contents - {id})
    decreases |contents|
  {
    var pick :| pick in contents && Retained(contents) == contents[pick].byteLength + Retained(contents - {pick});
    if pick != id {
      RetainedSplit(contents - {pick}, id);
      RetainedSplit(contents - {id}, pick);
      assert contents - {pick} - {id} == contents - {id} - {pick};
    }
  }

  lemma RetainedUpdate(contents: map<string, ContentRow>, id: string, row: ContentRow)
    ensures Retained(contents[id := row])
         == Retained(contents) + row.byteLength - (if id in contents then contents[id].byteLength else 0)
  {
    RetainedSplit(contents[id := row], id);
    if id in contents {
      RetainedSplit(contents, id);
      assert contents[id := row] - {id} == contents - {id};
    } else {
      assert contents[id := row] - {id} == contents;
    }
  }

  lemma {:induction false} RetainedRemove(contents: map<string, ContentRow>, gone: set<string>)
    ensures Retained(contents - gone) <= Retained(contents)
    decreases |gone|
  {
    if gone == {} {
      assert contents - gone == contents;
    } else {
      var id :| id in gone;
      RetainedRemove(contents - {id}, gone - {id});
      assert contents - {id} - (gone - {id}) == contents - gone;
      if id in contents {
        RetainedSplit(contents, id);
      } else {
        assert contents - {id} == contents;
      }
    }
  }

  // ---------------------------------------------------- what the operations do to the contents

  predicate IsStaging(view: View, id: string) {
    id in view && view[id].state == Staging
  }

  function Appended(view: View, id: string, bytes: seq<byte>): View
    requires id in view
  {
    view[id := Content(Staging, view[id].bytes + bytes)]
  }

  function Finished(view: View, id: string): View {
    if IsStaging(view, id) then view[id := view[id].(state := Ready)] else view
  }

  function Released(view: View, id: string): View {
    if id in view && view[id].state != Adopted then view - {id} else view
  }

  // ------------------------------------------------------------- runs of the store

  /** What one store operation may do to the contents that exist before and after it. */
  ghost predicate Evolves(before: View, after: View) {
    forall id | id in before && id in after ::
      && before[id].bytes <= after[id].bytes
      && (before[id].state != Staging ==> after[id].state != Staging && after[id].bytes == before[id].bytes)
      && (before[id].state == Adopted ==> after[id].state == Adopted)
  }

  lemma RemovalEvolves(view: View, gone: set<string>)
    ensures Evolves(view, view - gone) && Evolves(view, view)
  {
  }

  lemma FreshEvolves(view: View, gone: set<string>, id: string, content: Content)
    requires id !in view
    ensures Evolves(view, (view - gone)[id := content])
  {
  }

  lemma UpdateEvolves(view: View, id: string, content: Content)
    requires id in view ==>
      && view[id].bytes <= content.bytes
      && (view[id].state != Staging ==> content.state != Staging && content.bytes == view[id].bytes)
      && (view[id].state == Adopted ==> content.state == Adopted)
    ensures Evolves(view, view[id := content])
  {
  }

  /** Over any run, the bytes of a content that has become ready never change while its row exists. */
  lemma {:induction false} ReadyBytesNeverChange(run: seq<View>, id: string, i: nat, j: nat)
    requires i <= j < |run|
    requires forall k :: i <= k < j ==> Evolves(run[k], run[k + 1])
    requires forall k :: i <= k <= j ==> id in run[k]
    requires run[i][id].state != Staging
    ensures run[j][id].state != Staging && run[j][id].bytes == run[i][id].bytes
    ensures run[i][id].state == Adopted ==> run[j][id] == run[i][id]
    decreases j - i
  {
    if i < j {
      assert Evolves(run[i], run[i + 1]);
      ReadyBytesNeverChange(run, id, i + 1, j);
    }
  }
}

module ContentStore {
  import opened Bytes
  import opened ContentRows
  import opened ContentModel

  function OwnerOf(id: string, row: ContentRow): Owner {
    Owner(row.workspace, id, row.protection)
  }

  /** Content rows are public metadata or sealed under a workspace key that may be unavailable. */
  predicate Unlocked(row: ContentRow, keys: set<string>) {
    row.protection == Plaintext || row.workspace in keys
  }

  /** One content's rows agree with each other and with the bytes captured for it. */
  ghost predicate Sound(limits: Limits, id: string, row: ContentRow, rows: seq<ChunkRow>, bytes: seq<byte>) {
    && ValidId(id) && ValidWorkspace(row.workspace)
    && row.byteLength == |bytes| <= limits.maxContentBytes
    && Tile(OwnerOf(id, row), rows, bytes)
    && (row.expiresAt.None? <==> row.state == Adopted)
  }

  ghost predicate Good(limits: Limits, contents: map<string, ContentRow>, chunks: map<string, seq<ChunkRow>>,
                       captured: map<string, seq<byte>>)
  {
    && limits.chunkBytes > 0
    && contents.Keys == chunks.Keys == captured.Keys
    && (forall id <- contents :: Sound(limits, id, contents[id], chunks[id], captured[id]))
    && (limits.maxRetainedBytes.Some? ==> Retained(contents) <= limits.maxRetainedBytes.value)
  }

  ghost function ViewOf(contents: map<string, ContentRow>, captured: map<string, seq<byte>>): (v: View)
    requires contents.Keys == captured.Keys
  {
    map id | id in contents :: Content(contents[id].state, captured[id])
  }

  /** The store accepts the identifiers it draws: sixteen bytes in hexadecimal. */
  lemma DrawnIdIsValid(digits: string)
    requires |digits| == 32 && forall c <- digits :: '0' <= c <= '9' || 'a' <= c <= 'f'
    ensures ValidId("content-" + digits)
  {
    var id := "content-" + digits;
    forall c <- id ensures Alphanumeric(c) || c == '-' {
      assert c in "content-" || c in digits;
    }
  }

  /** Names the store accepts keep the associated data of chunks apart. */
  lemma AcceptedNamesTell(a: ChunkContext, b: ChunkContext)
    requires ValidWorkspace(a.workspace) && ValidId(a.id) && ValidWorkspace(b.workspace) && ValidId(b.id)
    ensures ContextText(a) == ContextText(b) <==> a == b
  {
    hide ContextText;
    if ContextText(a) == ContextText(b) {
      ContextTextTells(a, b);
    }
  }

  lemma GoodAt(limits: Limits, contents: map<string, ContentRow>, chunks: map<string, seq<ChunkRow>>,
               captured: map<string, seq<byte>>, id: string)
    requires Good(limits, contents, chunks, captured)
    ensures limits.chunkBytes > 0 && contents.Keys == chunks.Keys == captured.Keys
    ensures limits.maxRetainedBytes.Some? ==> Retained(contents) <= limits.maxRetainedBytes.value
    ensures id in ViewOf(contents, captured) <==> id in contents
    ensures id in contents ==>
      && Sound(limits, id, contents[id], chunks[id], captured[id])
      && ViewOf(contents, captured)[id] == Content(contents[id].state, captured[id])
      && ValidId(id) && contents[id].byteLength == |captured[id]| <= limits.maxContentBytes
      && (contents[id].expiresAt.None? <==> contents[id].state == Adopted)
      && Tile(OwnerOf(id, contents[id]), chunks[id], captured[id])
  {
    hide Tile;
  }

  lemma PutGood(limits: Limits, contents: map<string, ContentRow>, chunks: map<string, seq<ChunkRow>>,
                captured: map<string, seq<byte>>, id: string, row: ContentRow, rows: seq<ChunkRow>, bytes: seq<byte>)
    requires Good(limits, contents, chunks, captured) && Sound(limits, id, row, rows, bytes)
    requires limits.maxRetainedBytes.Some? ==>
      Retained(contents) + row.byteLength - (if id in contents then contents[id].byteLength else 0)
        <= limits.maxRetainedBytes.value
    ensures Good(limits, contents[id := row], chunks[id := rows], captured[id := bytes])
  {
    hide Sound;
    var contents', chunks', captured' := contents[id := row], chunks[id := rows], captured[id := bytes];
    forall other <- contents'
      ensures Sound(limits, other, contents'[other], chunks'[other], captured'[other])
    {
      assert other == id || Sound(limits, other, contents[other], chunks[other], captured[other]);
    }
    RetainedUpdate(contents, id, row);
  }

  lemma ViewUpdates(contents: map<string, ContentRow>, captured: map<string, seq<byte>>, id: string, row: ContentRow,
                    bytes: seq<byte>, gone: set<string>)
    requires contents.Keys == captured.Keys
    ensures ViewOf(contents[id := row], captured[id := bytes]) == ViewOf(contents, captured)[id := Content(row.state, bytes)]
    ensures ViewOf(contents - gone, captured - gone) == ViewOf(contents, captured) - gone
  {
  }

  lemma RemoveGood(limits: Limits, contents: map<string, ContentRow>, chunks: map<string, seq<ChunkRow>>,
                   captured: map<string, seq<byte>>, gone: set<string>)
    requires Good(limits, contents, chunks, captured)
    ensures Good(limits, contents - gone, chunks - gone, captured - gone)
  {
    hide Sound;
    var contents', chunks', captured' := contents - gone, chunks - gone, captured - gone;
    forall other <- contents'
      ensures Sound(limits, other, contents'[other], chunks'[other], captured'[other])
    {
      assert Sound(limits, other, contents[other], chunks[other], captured[other]);
    }
    RetainedRemove(contents, gone);
  }

  /** The rows one transaction writes: the old rows, then `bytes` in chunks of at most `chunkBytes`. */
  method SealChunks(chunkBytes: nat, owner: Owner, rows: seq<ChunkRow>, bytes: seq<byte>, ghost before: seq<byte>)
    returns (rows': seq<ChunkRow>)
    requires chunkBytes > 0 && Tile(owner, rows, before)
    ensures Tile(owner, rows', before + bytes)
    ensures rows <= rows' && forall i :: |rows| <= i < |rows'| ==> rows'[i].length <= chunkBytes
  {
    rows' := rows;
    var offset := if rows == [] then 0 else RowEnd(rows[|rows| - 1]);
    TileEnd(owner, rows, before);
    var done := 0;
    assert before + bytes[..0] == before;
    while done < |bytes|
      invariant 0 <= done <= |bytes| && offset == |before| + done
      invariant rows <= rows' && forall i :: |rows| <= i < |rows'| ==> rows'[i].length <= chunkBytes
      invariant Tile(owner, rows', before + bytes[..done])
    {
      var next := Min(done + chunkBytes, |bytes|);
      var chunk := bytes[done..next];
      TileAppend(owner, rows', before + bytes[..done], chunk);
      assert before + bytes[..done] + chunk == before + bytes[..next];
      TileEnd(owner, rows', before + bytes[..done]);
      var index := if rows' == [] then 0 else rows'[|rows'| - 1].index + 1;
      rows' := rows' + [Seal(owner, index, offset, chunk)];
      offset, done := offset + |chunk|, next;
    }
    assert bytes[..done] == bytes;
  }

  /** Reads the rows that overlap a window one after the other. */
  method AssembleRows(owner: Owner, rows: seq<ChunkRow>, offset: nat, end: nat) returns (r: Result<seq<byte>, ReadError>)
    requires offset <= end
    ensures r == Assemble(owner, rows, offset, offset, end)
  {
    hide Open;
    var bytes, expected, k := [], offset, 0;
    ghost var whole := Assemble(owner, rows, offset, offset, end);
    assert rows[0..] == rows;
    assert whole.Ok? ==> [] + whole.value == whole.value;
    while k < |rows|
      invariant 0 <= k <= |rows| && offset <= expected <= end
      invariant var rest := Assemble(owner, rows[k..], offset, expected, end);
                whole == if rest.Ok? then Ok(bytes + rest.value) else rest
    {
      var chunk := rows[k];
      assert rows[k..][0] == chunk && rows[k..][1..] == rows[k + 1..];
      if Overlaps(chunk, offset, end) {
        var plain := Open(owner, chunk);
        if plain.None? { return Err(Damaged); }
        var from := if chunk.offset <= expected then expected - chunk.offset else 0;
        var to := Min(end - chunk.offset, chunk.length);
        if chunk.offset + from != expected || to < from { return Err(MissingChunk); }
        ghost var rest := Assemble(owner, rows[k + 1..], offset, chunk.offset + to, end);
        assert rest.Ok? ==> bytes + (plain.value[from..to] + rest.value) == bytes + plain.value[from..to] + rest.value;
        bytes := bytes + plain.value[from..to];
        expected := chunk.offset + to;
      }
      k := k + 1;
    }
    assert rows[k..] == [] && bytes + [] == bytes;
    r := if expected != end then Err(MissingChunk) else Ok(bytes);
  }

  lemma SoundAppended(limits: Limits, id: string, row: ContentRow, rows: seq<ChunkRow>, bytes: seq<byte>, more: seq<byte>,
                      rows': seq<ChunkRow>)
    requires Sound(limits, id, row, rows, bytes) && Tile(OwnerOf(id, row), rows', bytes + more)
    requires row.byteLength + |more| <= limits.maxContentBytes
    ensures Sound(limits, id, row.(byteLength := row.byteLength + |more|), rows', bytes + more)
  {
    hide Tile;
  }

  lemma EmptySound(limits: Limits, id: string, row: ContentRow)
    requires ValidId(id) && ValidWorkspace(row.workspace) && row.byteLength == 0 && row.state == Staging && row.expiresAt.Some?
    ensures Sound(limits, id, row, [], [])
  {
    hide ValidId, ValidWorkspace;
  }

  lemma FreshUnlocked(row: ContentRow, keys: set<string>)
    ensures Unlocked(row, keys) <==> row.protection == Plaintext || row.workspace in keys
  {
  }

  lemma SoundAfter(limits: Limits, id: string, row: ContentRow, row': ContentRow, rows: seq<ChunkRow>, bytes: seq<byte>)
    requires Sound(limits, id, row, rows, bytes)
    requires row'.workspace == row.workspace && row'.protection == row.protection && row'.byteLength == row.byteLength
    requires row'.expiresAt.None? <==> row'.state == Adopted
    ensures Sound(limits, id, row', rows, bytes)
  {
  }

  class ResponseContentStore {
    const limits: Limits
    /** Workspaces whose runtime key can be used. */
    const keys: set<string>
    var contents: map<string, ContentRow>
    var chunks: map<string, seq<ChunkRow>>
    ghost var captured: map<string, seq<byte>>

    ghost predicate Valid()
      reads this
    {
      Good(limits, contents, chunks, captured)
    }

    ghost function View(): (v: View)
      reads this
      requires contents.Keys == captured.Keys
    {
      ViewOf(contents, captured)
    }

    constructor (limits: Limits, keys: set<string>)
      requires limits.chunkBytes > 0
      ensures Valid() && View() == map[] && this.limits == limits && this.keys == keys
    {
      this.limits := limits;
      this.keys := keys;
      contents, chunks, captured := map[], map[], map[];
    }

    /** The row behind a reference, if its metadata can be opened. */
    function Reference(id: string): (r: Result<ContentRow, StoreError>)
      reads this
      ensures r.Ok? <==> ValidId(id) && id in contents && Unlocked(contents[id], keys)
      ensures r.Ok? ==> r.value == contents[id]
    {
      if !ValidId(id) then Err(InvalidIdentifier)
      else if id !in contents then Err(Missing)
      else if !Unlocked(contents[id], keys) then Err(NoKey)
      else Ok(contents[id])
    }

    method RemoveRows(gone: set<string>)
      requires Valid()
      modifies this`contents, this`chunks, this`captured
      ensures Valid()
      ensures View() == old(View()) - gone && contents == old(contents) - gone && chunks == old(chunks) - gone
    {
      RemoveGood(limits, contents, chunks, captured, gone);
      ViewUpdates(contents, captured, "", ContentRow("", None, Staging, 0, None, Plaintext), [], gone);
      contents, chunks, captured := contents - gone, chunks - gone, captured - gone;
    }

    /** Writes one content row with its chunk rows. */
    method PutRow(id: string, row: ContentRow, rows: seq<ChunkRow>, ghost bytes: seq<byte>)
      requires Valid() && Sound(limits, id, row, rows, bytes)
      requires limits.maxRetainedBytes.Some? ==>
        Retained(contents) + row.byteLength - (if id in contents then contents[id].byteLength else 0)
          <= limits.maxRetainedBytes.value
      modifies this`contents, this`chunks, this`captured
      ensures Valid()
      ensures View() == old(View())[id := Content(row.state, bytes)] && contents == old(contents)[id := row]
      ensures chunks == old(chunks)[id := rows]
    {
      PutGood(limits, contents, chunks, captured, id, row, rows, bytes);
      ViewUpdates(contents, captured, id, row, bytes, {});
      contents, chunks, captured := contents[id := row], chunks[id := rows], captured[id := bytes];
    }

    /** Staging and ready rows past their expiry disappear, with their chunk rows. */
    method CleanupExpired(now: int) returns (removed: set<string>)
      requires Valid()
      modifies this`contents, this`chunks, this`captured
      ensures Valid() && Evolves(old(View()), View())
      ensures View() == old(View()) - removed && contents == old(contents) - removed && chunks == old(chunks) - removed
      ensures forall id :: id in removed <==>
        id in old(contents) && old(contents[id]).state != Adopted && old(contents[id]).expiresAt.value <= now
    {
      removed := set id | id in contents && contents[id].state != Adopted
                        && contents[id].expiresAt.Some? && contents[id].expiresAt.value <= now;
      assert forall id <- contents :: Sound(limits, id, contents[id], chunks[id], captured[id]);
      RemoveRows(removed);
    }

    /** `id` is the random identifier drawn by the store; it has not been drawn before. */
    method CreateStaging(now: int, id: string, workspace: string, protection: Protection)
      returns (r: Result<ContentRow, StoreError>, removed: set<string>)
      requires Valid() && ValidId(id) && id !in contents
      modifies this`contents, this`chunks, this`captured
      ensures Valid() && Evolves(old(View()), View())
      ensures r.Ok? <==> ValidWorkspace(workspace) && (protection == Plaintext || workspace in keys)
      ensures View() == if r.Ok? then (old(View()) - removed)[id := Content(Staging, [])] else old(View())
      ensures contents ==
        if r.Ok?
        then (old(contents) - removed)[id :=
               ContentRow(workspace, None, Staging, 0, Some(now + limits.stagingTtlSeconds), protection)]
        else old(contents)
      ensures r.Ok? ==> r.value == contents[id]
      ensures forall gone :: gone in removed <==>
        r.Ok? && gone in old(contents) && old(contents[gone]).state != Adopted && old(contents[gone]).expiresAt.value <= now
    {
      hide Good, Sound, Tile, Retained, ViewOf, Evolves, ValidWorkspace, ValidId, Unlocked;
      GoodAt(limits, contents, chunks, captured, id);
      RemovalEvolves(View(), {});
      removed := {};
      if !ValidWorkspace(workspace) { return Err(InvalidWorkspace), {}; }
      if protection == Encrypted && workspace !in keys { return Err(NoKey), {}; }
      removed := CleanupExpired(now);
      FreshEvolves(old(View()), removed, id, Content(Staging, []));
      GoodAt(limits, contents, chunks, captured, id);
      var row := ContentRow(workspace, None, Staging, 0, Some(now + limits.stagingTtlSeconds), protection);
      EmptySound(limits, id, row);
      PutRow(id, row, [], []);
      FreshUnlocked(row, keys);
      r := Reference(id);
    }

    /** At rest, every chunk of an encrypted content is sealed for that content and its place in it. */
    lemma StoredSealed(id: string, i: nat)
      requires Valid() && id in contents && i < |chunks[id]| && contents[id].protection == Encrypted
      ensures chunks[id][i].payload.Sealed?
      ensures chunks[id][i].payload.context ==
        ChunkContext(contents[id].workspace, id, i, chunks[id][i].offset, chunks[id][i].length)
    {
      hide Tile;
      assert Sound(limits, id, contents[id], chunks[id], captured[id]);
      TileSealed(OwnerOf(id, contents[id]), chunks[id], captured[id], i);
    }

    method RetainedBytes() returns (total: nat)
      ensures total == Retained(contents)
    {
      total := 0;
      var rest := contents;
      while rest != map[]
        invariant total + Retained(rest) == Retained(contents)
        decreases |rest|
      {
        var id :| id in rest;
        RetainedSplit(rest, id);
        total := total + rest[id].byteLength;
        rest := rest - {id};
      }
    }

    ghost predicate Appendable(id: string, bytes: seq<byte>)
      reads this
    {
      && ValidId(id) && id in contents && Unlocked(contents[id], keys) && contents[id].state == Staging
      && contents[id].byteLength + |bytes| <= limits.maxContentBytes
      && (limits.maxRetainedBytes.Some? ==> Retained(contents) + |bytes| <= limits.maxRetainedBytes.value)
    }

    /** Chunks of at most `chunkBytes` are inserted in one transaction; `commits` says whether it commits. */
    method Append(id: string, bytes: seq<byte>, commits: bool) returns (r: Result<(), StoreError>)
      requires Valid()
      modifies this`contents, this`chunks, this`captured
      ensures Valid() && Evolves(old(View()), View())
      ensures r.Ok? <==> ValidId(id) && (bytes == [] || (old(Appendable(id, bytes)) && commits))
      ensures r.Ok? && bytes != [] ==> IsStaging(old(View()), id)
      ensures View() == if r.Ok? && bytes != [] then Appended(old(View()), id, bytes) else old(View())
      ensures r.Err? || bytes == [] ==> contents == old(contents) && chunks == old(chunks)
      ensures r.Ok? && bytes != [] ==>
        && contents == old(contents)[id := old(contents[id]).(byteLength := old(contents[id]).byteLength + |bytes|)]
        && id in chunks && chunks == old(chunks)[id := chunks[id]] && old(chunks[id]) <= chunks[id]
        && (forall i :: |old(chunks[id])| <= i < |chunks[id]| ==> chunks[id][i].length <= limits.chunkBytes)
    {
      hide Good, Sound, Tile, Retained, ViewOf, Evolves, ValidId, Unlocked;
      GoodAt(limits, contents, chunks, captured, id);
      RemovalEvolves(View(), {});
      if !ValidId(id) { return Err(InvalidIdentifier); }
      if bytes == [] { return Ok(()); }
      if id !in contents { return Err(Missing); }
      var row := contents[id];
      if !Unlocked(row, keys) { return Err(NoKey); }
      if row.state != Staging { return Err(NotWritable); }
      if row.byteLength + |bytes| > limits.maxContentBytes { return Err(TooLarge); }
      if limits.maxRetainedBytes.Some? {
        var retained := RetainedBytes();
        if retained + |bytes| > limits.maxRetainedBytes.value { return Err(QuotaExceeded); }
      }
      var rows := SealChunks(limits.chunkBytes, OwnerOf(id, row), chunks[id], bytes, captured[id]);
      if !commits { return Err(StorageFailed); }
      SoundAppended(limits, id, row, chunks[id], captured[id], bytes, rows);
      UpdateEvolves(View(), id, Content(Staging, captured[id] + bytes));
      PutRow(id, row.(byteLength := row.byteLength + |bytes|), rows, captured[id] + bytes);
      r := Ok(());
    }

    /** The row becomes ready before its reference is read back: a locked row is ready although the call fails. */
    method Finish(id: string) returns (r: Result<ContentRow, StoreError>)
      requires Valid()
      modifies this`contents, this`chunks, this`captured
      ensures Valid() && Evolves(old(View()), View())
      ensures View() == Finished(old(View()), id)
      ensures r.Ok? <==> IsStaging(old(View()), id) && Unlocked(old(contents[id]), keys)
      ensures contents == if IsStaging(old(View()), id) then old(contents)[id := old(contents[id]).(state := Ready)] else old(contents)
      ensures r.Ok? ==> r.value == contents[id]
    {
      hide Good, Sound, Tile, Retained, ViewOf, Evolves, ValidId;
      GoodAt(limits, contents, chunks, captured, id);
      RemovalEvolves(View(), {});
      if !ValidId(id) { return Err(InvalidIdentifier); }
      if id !in contents || contents[id].state != Staging { return Err(NotStaging); }
      var row := contents[id].(state := Ready);
      SoundAfter(limits, id, contents[id], row, chunks[id], captured[id]);
      UpdateEvolves(View(), id, Content(Ready, captured[id]));
      PutRow(id, row, chunks[id], captured[id]);
      r := Reference(id);
    }

    /** Everything but adopted content can be released; releasing twice is harmless. */
    method Release(id: string) returns (r: Result<(), StoreError>)
      requires Valid()
      modifies this`contents, this`chunks, this`captured
      ensures Valid() && Evolves(old(View()), View())
      ensures r.Ok? <==> ValidId(id)
      ensures View() == Released(old(View()), id)
      ensures contents == old(contents) || (contents == old(contents) - {id} && chunks == old(chunks) - {id})
    {
      hide Good, Sound, Tile, Retained, ViewOf, Evolves, ValidId;
      GoodAt(limits, contents, chunks, captured, id);
      RemovalEvolves(View(), {});
      RemovalEvolves(View(), {id});
      if !ValidId(id) { return Err(InvalidIdentifier); }
      if id in contents && contents[id].state != Adopted {
        RemoveRows({id});
      }
      r := Ok(());
    }

    /** Same workspace and length, and either ready with no other content of that execution, or adopted by it. */
    predicate Adoptable(workspace: string, execution: string, id: string, expectedLength: nat)
      reads this
    {
      && id in contents && contents[id].workspace == workspace && contents[id].byteLength == expectedLength
      && ((contents[id].state == Adopted && contents[id].execution == Some(execution))
          || (contents[id].state == Ready && contents[id].execution.None?
              && forall other <- contents :: contents[other].workspace == workspace ==> contents[other].execution != Some(execution)))
    }

    /** A committed execution takes over a ready content; adopting again for the same execution is harmless. */
    method Adopt(workspace: string, execution: string, id: string, expectedLength: nat) returns (r: Result<(), StoreError>)
      requires Valid()
      modifies this`contents, this`chunks, this`captured
      ensures Valid() && Evolves(old(View()), View())
      ensures r.Ok? <==> old(Adoptable(workspace, execution, id, expectedLength))
      ensures View() == if id in old(View()) && old(View())[id].state == Ready && r.Ok?
                        then old(View())[id := old(View())[id].(state := Adopted)]
                        else old(View())
      ensures r.Ok? ==> id in View() && View()[id].state == Adopted && |View()[id].bytes| == expectedLength
      ensures contents ==
        if r.Ok? && old(contents[id]).state == Ready
        then old(contents)[id := old(contents[id]).(state := Adopted, execution := Some(execution), expiresAt := None)]
        else old(contents)
    {
      hide Good, Sound, Tile, Retained, ViewOf, Evolves, ValidId;
      GoodAt(limits, contents, chunks, captured, id);
      RemovalEvolves(View(), {});
      if id !in contents { return Err(NotAdoptable); }
      var row := contents[id];
      if row.workspace != workspace || row.byteLength != expectedLength { return Err(NotAdoptable); }
      if row.execution == Some(execution) && row.state == Adopted { return Ok(()); }
      if row.execution.Some? || row.state != Ready { return Err(NotAdoptable); }
      if exists other <- contents :: contents[other].workspace == workspace && contents[other].execution == Some(execution) {
        return Err(NotAdoptable);
      }
      var row' := row.(state := Adopted, execution := Some(execution), expiresAt := None);
      SoundAfter(limits, id, row, row', chunks[id], captured[id]);
      UpdateEvolves(View(), id, Content(Adopted, captured[id]));
      PutRow(id, row', chunks[id], captured[id]);
      r := Ok(());
    }

    // ---------------------------------------------------------------- reads

    ghost predicate Readable(id: string)
      reads this
    {
      ValidId(id) && id in contents && Unlocked(contents[id], keys) && contents[id].state != Staging
    }

    /** One window, computed from the tables as they are, whether or not rows have been lost. */
    ghost function Window(id: string, offset: nat, length: nat): (r: Result<seq<byte>, StoreError>)
      reads this
      requires id in contents && id in chunks && offset <= contents[id].byteLength
    {
      var end := Min(offset + length, contents[id].byteLength);
      match Assemble(OwnerOf(id, contents[id]), chunks[id], offset, offset, end)
      case Ok(bytes) => Ok(bytes)
      case Err(_) => Err(DamagedContent)
    }

    method ReadPlainRange(id: string, offset: nat, length: nat) returns (r: Result<seq<byte>, StoreError>)
      requires contents.Keys == chunks.Keys
      ensures r.Ok? ==> Readable(id) && length <= limits.maxWindowBytes && offset <= contents[id].byteLength
      ensures Readable(id) && length <= limits.maxWindowBytes && offset <= contents[id].byteLength
              ==> r == Window(id, offset, length)
      ensures Valid() && Readable(id) && length <= limits.maxWindowBytes && offset <= |captured[id]|
              ==> r == Ok(captured[id][offset..Min(offset + length, |captured[id]|)])
    {
      hide Good, Sound, Tile, Retained, ViewOf, ValidId, Assemble, Unlocked;
      var reference := Reference(id);
      if reference.Err? { return Err(reference.error); }
      var row := reference.value;
      if Valid() {
        GoodAt(limits, contents, chunks, captured, id);
      }
      if row.state == Staging { return Err(Incomplete); }
      if length > limits.maxWindowBytes { return Err(WindowTooLarge); }
      if offset > row.byteLength { return Err(BeyondContent); }
      var end := Min(offset + length, row.byteLength);
      if Valid() {
        AssembleIntact(OwnerOf(id, row), chunks[id], captured[id], offset, end);
      }
      var bytes := AssembleRows(OwnerOf(id, row), chunks[id], offset, end);
      r := if bytes.Ok? then Ok(bytes.value) else Err(DamagedContent);
    }

    /** The bytes captured for a content. */
    ghost function BytesOf(id: string): (bytes: seq<byte>)
      reads this
      requires Valid() && id in contents
      ensures |bytes| == contents[id].byteLength
    {
      assert Sound(limits, id, contents[id], chunks[id], captured[id]);
      captured[id]
    }

    /** One window of an intact store. */
    method ReadWindow(id: string, offset: nat, length: nat) returns (r: Result<seq<byte>, StoreError>)
      requires Valid()
      ensures r.Ok? <==> Readable(id) && length <= limits.maxWindowBytes && offset <= contents[id].byteLength
      ensures r.Ok? ==> r.value == BytesOf(id)[offset..Min(offset + length, contents[id].byteLength)]
    {
      r := ReadPlainRange(id, offset, length);
    }

    /** Reading window after window gives the whole content, unless windows are empty. */
    method ReadOperationContent(id: string) returns (r: Result<seq<byte>, StoreError>)
      requires Valid()
      ensures Readable(id) && (limits.maxWindowBytes > 0 || BytesOf(id) == []) ==> r == Ok(BytesOf(id))
      ensures Readable(id) && limits.maxWindowBytes == 0 ==> r == Ok([])
    {
      hide Tile, Retained, ValidWorkspace, ValidId, Assemble;
      var reference := Reference(id);
      if reference.Err? { return Err(reference.error); }
      var size := reference.value.byteLength;
      var output, offset := [], 0;
      assert Sound(limits, id, contents[id], chunks[id], captured[id]);
      while offset < size
        invariant 0 <= offset <= size
        invariant output == captured[id][..offset]
        invariant limits.maxWindowBytes == 0 ==> offset == 0
      {
        var window := ReadPlainRange(id, offset, Min(size - offset, limits.maxWindowBytes));
        if window.Err? { return window; }
        if window.value == [] { break; }
        output := output + window.value;
        offset := offset + |window.value|;
      }
      assert captured[id][..size] == captured[id];
      r := Ok(output);
    }
  }
}
