/** Rows of `response_content_chunks` and the bytes they stand for. */
module ContentRows {
  import opened Bytes

  datatype Protection = Plaintext | Encrypted

  /** The associated data a chunk is sealed under. */
  datatype ChunkContext = ChunkContext(workspace: string, id: string, index: nat, offset: nat, length: nat)

  /** A stored payload. A sealed one opens only under the context it was sealed for. */
  datatype Payload = Public(bytes: seq<byte>) | Sealed(context: ChunkContext, bytes: seq<byte>)

  datatype ChunkRow = ChunkRow(index: nat, offset: nat, length: nat, payload: Payload)

  /** The content a row belongs to, as far as protection is concerned. */
  datatype Owner = Owner(workspace: string, id: string, protection: Protection)

  datatype ReadError = Damaged | MissingChunk

  function Context(owner: Owner, row: ChunkRow): ChunkContext {
    ChunkContext(owner.workspace, owner.id, row.index, row.offset, row.length)
  }

  /** The associated data as the text it is written as. */
  function ContextText(context: ChunkContext): string {
    "purr:response-content:v2|" + context.workspace + "|" + context.id + "|" + Decimal(context.index)
    + "|" + Decimal(context.offset) + "|" + Decimal(context.length)
  }

  function Decimal(n: nat): (text: string)
    ensures text != "" && forall c <- text :: '0' <= c <= '9'
  {
    (if n < 10 then "" else Decimal(n / 10)) + [Digit(n % 10)]
  }

  function Digit(d: nat): char
    requires d < 10
  {
    '0' + d as char
  }

  lemma {:induction false} DecimalTells(a: nat, b: nat)
    requires Decimal(a) == Decimal(b)
    ensures a == b
  {
    var front, back := Decimal(a)[..|Decimal(a)| - 1], Decimal(b)[..|Decimal(b)| - 1];
    assert Decimal(a)[|Decimal(a)| - 1] == Digit(a % 10) && Decimal(b)[|Decimal(b)| - 1] == Digit(b % 10);
    assert front == if a < 10 then "" else Decimal(a / 10);
    assert back == if b < 10 then "" else Decimal(b / 10);
    if a >= 10 && b >= 10 {
      DecimalTells(a / 10, b / 10);
    }
  }

  /** Text before the first bar, and text behind it. */
  lemma {:induction false} BarTells(a: string, b: string, restA: string, restB: string)
    requires '|' !in a && '|' !in b && a + "|" + restA == b + "|" + restB
    ensures a == b && restA == restB
  {
    var text := a + "|" + restA;
    assert text[|a|] == '|' && text[|b|] == '|';
    assert forall i :: 0 <= i < |a| ==> text[i] == a[i];
    assert forall i :: 0 <= i < |b| ==> text[i] == (b + "|" + restB)[i] == b[i];
    assert |a| == |b|;
    assert a == text[..|a|] == b && restA == text[|a| + 1..] == restB;
  }

  /** As long as names contain no bar, no two contexts are written alike. */
  lemma ContextTextTells(a: ChunkContext, b: ChunkContext)
    requires '|' !in a.workspace && '|' !in a.id && '|' !in b.workspace && '|' !in b.id
    requires ContextText(a) == ContextText(b)
    ensures a == b
  {
    hide Decimal;
    var lengthA, lengthB := Decimal(a.length), Decimal(b.length);
    var offsetA, offsetB := Decimal(a.offset) + "|" + lengthA, Decimal(b.offset) + "|" + lengthB;
    var indexA, indexB := Decimal(a.index) + "|" + offsetA, Decimal(b.index) + "|" + offsetB;
    var idA, idB := a.id + "|" + indexA, b.id + "|" + indexB;
    ContextInParts(a);
    ContextInParts(b);
    BarTells("purr:response-content:v2", "purr:response-content:v2", a.workspace + "|" + idA, b.workspace + "|" + idB);
    BarTells(a.workspace, b.workspace, idA, idB);
    BarTells(a.id, b.id, indexA, indexB);
    BarTells(Decimal(a.index), Decimal(b.index), offsetA, offsetB);
    BarTells(Decimal(a.offset), Decimal(b.offset), lengthA, lengthB);
    DecimalTells(a.index, b.index);
    DecimalTells(a.offset, b.offset);
    DecimalTells(a.length, b.length);
  }

  lemma ContextInParts(c: ChunkContext)
    ensures ContextText(c) == "purr:response-content:v2" + "|" + (c.workspace + "|" + (c.id + "|" +
      (Decimal(c.index) + "|" + (Decimal(c.offset) + "|" + Decimal(c.length)))))
  {
    hide Decimal;
  }

  function Seal(owner: Owner, index: nat, offset: nat, chunk: seq<byte>): (row: ChunkRow)
    ensures row.index == index && row.offset == offset && row.length == |chunk|
    ensures Open(owner, row) == Some(chunk)
    ensures owner.protection == Encrypted ==>
      row.payload == Sealed(ChunkContext(owner.workspace, owner.id, index, offset, |chunk|), chunk)
    ensures owner.protection == Plaintext ==> row.payload == Public(chunk)
  {
    var context := ChunkContext(owner.workspace, owner.id, index, offset, |chunk|);
    ChunkRow(index, offset, |chunk|,
             if owner.protection == Encrypted then Sealed(context, chunk) else Public(chunk))
  }

  function Open(owner: Owner, row: ChunkRow): (plain: Option<seq<byte>>)
    ensures plain.Some? ==> |plain.value| == row.length
    ensures plain.Some? && owner.protection == Encrypted ==>
      row.payload == Sealed(ChunkContext(owner.workspace, owner.id, row.index, row.offset, row.length), plain.value)
    ensures plain.Some? && owner.protection == Plaintext ==> row.payload == Public(plain.value)
  {
    match row.payload
    case Public(bytes) =>
      if owner.protection == Plaintext && |bytes| == row.length then Some(bytes) else None
    case Sealed(context, bytes) =>
      if owner.protection == Encrypted && context == Context(owner, row) && |bytes| == row.length
      then Some(bytes) else None
  }

  function RowEnd(row: ChunkRow): nat {
    row.offset + row.length
  }

  predicate Overlaps(row: ChunkRow, from: nat, end: nat) {
    row.offset < end && from < RowEnd(row)
  }

  /** The row opens to the slice of `bytes` it claims to be. */
  ghost predicate Holds(owner: Owner, row: ChunkRow, bytes: seq<byte>) {
    && row.length > 0
    && RowEnd(row) <= |bytes|
    && Open(owner, row) == Some(bytes[row.offset..RowEnd(row)])
  }

  /** Rows 0, 1, 2, ... lie end to end and hold exactly `bytes`. */
  ghost predicate Tile(owner: Owner, rows: seq<ChunkRow>, bytes: seq<byte>) {
    if rows == [] then bytes == []
    else
      var row := rows[|rows| - 1];
      && row.index == |rows| - 1
      && RowEnd(row) == |bytes|
      && Holds(owner, row, bytes)
      && Tile(owner, rows[..|rows| - 1], bytes[..row.offset])
  }

  lemma TileEnd(owner: Owner, rows: seq<ChunkRow>, bytes: seq<byte>)
    requires Tile(owner, rows, bytes)
    ensures |bytes| == if rows == [] then 0 else RowEnd(rows[|rows| - 1])
    ensures rows != [] ==> rows[|rows| - 1].index == |rows| - 1
  {
  }

  lemma {:induction false} TileAt(owner: Owner, rows: seq<ChunkRow>, bytes: seq<byte>, i: nat)
    requires Tile(owner, rows, bytes) && i < |rows|
    ensures rows[i].index == i && Holds(owner, rows[i], bytes)
    ensures rows[i].offset == if i == 0 then 0 else RowEnd(rows[i - 1])
    decreases |rows|
  {
    var row := rows[|rows| - 1];
    var front := rows[..|rows| - 1];
    TileEnd(owner, front, bytes[..row.offset]);
    if i < |front| {
      TileAt(owner, front, bytes[..row.offset], i);
      assert bytes[..row.offset][rows[i].offset..RowEnd(rows[i])] == bytes[rows[i].offset..RowEnd(rows[i])];
    }
  }

  /** Chunks of encrypted content are sealed, each for its own place. */
  lemma TileSealed(owner: Owner, rows: seq<ChunkRow>, bytes: seq<byte>, i: nat)
    requires Tile(owner, rows, bytes) && i < |rows| && owner.protection == Encrypted
    ensures RowEnd(rows[i]) <= |bytes|
    ensures rows[i].payload == Sealed(ChunkContext(owner.workspace, owner.id, i, rows[i].offset, rows[i].length),
                                      bytes[rows[i].offset..RowEnd(rows[i])])
  {
    hide Tile, Open;
    TileAt(owner, rows, bytes, i);
  }

  lemma {:induction false} TileOrder(owner: Owner, rows: seq<ChunkRow>, bytes: seq<byte>, i: nat, j: nat)
    requires Tile(owner, rows, bytes) && i < j < |rows|
    ensures RowEnd(rows[i]) <= rows[j].offset
    decreases j
  {
    TileAt(owner, rows, bytes, j);
    if i < j - 1 {
      TileAt(owner, rows, bytes, j - 1);
      TileOrder(owner, rows, bytes, i, j - 1);
    }
  }

  /** Every byte position lies in some row. */
  lemma {:induction false} RowAt(owner: Owner, rows: seq<ChunkRow>, bytes: seq<byte>, position: nat) returns (i: nat)
    requires Tile(owner, rows, bytes) && position < |bytes|
    ensures i < |rows| && rows[i].offset <= position < RowEnd(rows[i])
    decreases |rows|
  {
    var last := |rows| - 1;
    TileEnd(owner, rows, bytes);
    if position < rows[last].offset {
      i := RowAt(owner, rows[..last], bytes[..rows[last].offset], position);
    } else {
      i := last;
    }
  }

  lemma TileAppend(owner: Owner, rows: seq<ChunkRow>, bytes: seq<byte>, chunk: seq<byte>)
    requires Tile(owner, rows, bytes) && |chunk| > 0
    ensures Tile(owner, rows + [Seal(owner, |rows|, |bytes|, chunk)], bytes + chunk)
  {
    var rows' := rows + [Seal(owner, |rows|, |bytes|, chunk)];
    assert rows'[..|rows'| - 1] == rows;
    assert (bytes + chunk)[..|bytes|] == bytes && (bytes + chunk)[|bytes|..|bytes + chunk|] == chunk;
  }

  // ------------------------------------------------------------ window reads

  /** What a window read makes of the rows still to come: bytes `expected..end` or an error. */
  function Assemble(owner: Owner, rows: seq<ChunkRow>, from: nat, expected: nat, end: nat): Result<seq<byte>, ReadError>
    requires from <= expected <= end
  {
    if rows == [] then
      if expected == end then Ok([]) else Err(MissingChunk)
    else
      var row := rows[0];
      if !Overlaps(row, from, end) then Assemble(owner, rows[1..], from, expected, end)
      else match Open(owner, row)
        case None => Err(Damaged)
        case Some(plain) =>
          var start := if row.offset <= expected then expected - row.offset else 0;
          var stop := Min(end - row.offset, row.length);
          if row.offset + start != expected || stop < start then Err(MissingChunk)
          else
            match Assemble(owner, rows[1..], from, row.offset + stop, end)
            case Err(e) => Err(e)
            case Ok(rest) => Ok(plain[start..stop] + rest)
  }

  /** Some rows of a full table, in order: a table from which rows may have been lost. */
  ghost predicate SubTable(rows: seq<ChunkRow>, full: seq<ChunkRow>) {
    && (forall i :: 0 <= i < |rows| ==> rows[i].index < |full| && rows[i] == full[rows[i].index])
    && (forall i, j :: 0 <= i < j < |rows| ==> rows[i].index < rows[j].index)
  }

  ghost predicate Present(rows: seq<ChunkRow>, full: seq<ChunkRow>, from: nat, end: nat) {
    forall i :: 0 <= i < |full| && Overlaps(full[i], from, end) ==> full[i] in rows
  }

  /** Rows that a read positioned at `expected` may still meet. */
  ghost predicate Ahead(rows: seq<ChunkRow>, from: nat, expected: nat) {
    forall i :: 0 <= i < |rows| ==> MayFollow(rows[i], from, expected)
  }

  ghost predicate MayFollow(row: ChunkRow, from: nat, expected: nat) {
    RowEnd(row) <= from || expected <= row.offset || (expected == from && row.offset <= from)
  }

  lemma {:induction false} AssembleSound(owner: Owner, rows: seq<ChunkRow>, full: seq<ChunkRow>, bytes: seq<byte>,
                                         from: nat, expected: nat, end: nat)
    requires Tile(owner, full, bytes) && SubTable(rows, full) && Ahead(rows, from, expected)
    requires from <= expected <= end <= |bytes|
    ensures var r := Assemble(owner, rows, from, expected, end);
            && (r.Ok? ==> r.value == bytes[expected..end])
            && (expected < end ==> (r.Ok? <==> Present(rows, full, expected, end)))
            && (from < expected == end ==> r.Ok?)
    decreases |rows|
  {
    hide Tile, Open;
    if rows == [] {
      if expected < end {
        var i := RowAt(owner, full, bytes, expected);
        assert Overlaps(full[i], expected, end);
      }
    } else {
      var row := rows[0];
      var rest := rows[1..];
      TileAt(owner, full, bytes, row.index);
      assert MayFollow(row, from, expected);
      assert Ahead(rest, from, expected);
      if !Overlaps(row, from, end) {
        AssembleSound(owner, rest, full, bytes, from, expected, end);
        SkipStep(rows, full, expected, end);
      } else if row.offset <= expected {
        var next := Min(end, RowEnd(row));
        TakeStep(owner, rows, bytes, from, expected, end);
        hide Assemble, Ahead, Present;
        AheadStep(owner, rows, full, bytes, from, next);
        SubTableTail(rows, full);
        AssembleSound(owner, rest, full, bytes, from, next, end);
        assert bytes[expected..next] + bytes[next..end] == bytes[expected..end];
        PresentStep(owner, rows, full, bytes, expected, end);
      } else if expected < end {
        MissingAhead(owner, rows, full, bytes, from, expected, end);
      }
    }
  }

  /** An overlapping row at the read position contributes its share and the rest follows. */
  lemma TakeStep(owner: Owner, rows: seq<ChunkRow>, bytes: seq<byte>, from: nat, expected: nat, end: nat)
    requires rows != [] && Holds(owner, rows[0], bytes) && Overlaps(rows[0], from, end)
    requires from <= expected <= end <= |bytes| && rows[0].offset <= expected <= RowEnd(rows[0])
    ensures var next := Min(end, RowEnd(rows[0]));
            var rest := Assemble(owner, rows[1..], from, next, end);
            Assemble(owner, rows, from, expected, end) == if rest.Ok? then Ok(bytes[expected..next] + rest.value) else rest
  {
    var row := rows[0];
    var a, b := expected - row.offset, Min(end - row.offset, row.length);
    SliceInSlice(bytes, row.offset, RowEnd(row), a, b);
    assert row.offset + a == expected && row.offset + b == Min(end, RowEnd(row));
  }

  lemma SliceInSlice(bytes: seq<byte>, from: nat, to: nat, a: nat, b: nat)
    requires from <= to <= |bytes| && a <= b <= to - from
    ensures bytes[from..to][a..b] == bytes[from + a..from + b]
  {
    var middle, one, other := bytes[from..to], bytes[from..to][a..b], bytes[from + a..from + b];
    forall i | 0 <= i < b - a ensures one[i] == other[i] {
      assert one[i] == middle[a + i] == bytes[from + a + i];
    }
    assert one == other;
  }

  lemma SubTableTail(rows: seq<ChunkRow>, full: seq<ChunkRow>)
    requires SubTable(rows, full) && rows != []
    ensures SubTable(rows[1..], full)
  {
  }

  lemma AheadStep(owner: Owner, rows: seq<ChunkRow>, full: seq<ChunkRow>, bytes: seq<byte>, from: nat, next: nat)
    requires Tile(owner, full, bytes) && rows != [] && SubTable(rows, full) && next <= RowEnd(rows[0])
    ensures Ahead(rows[1..], from, next)
  {
    hide Tile;
    forall i | 0 <= i < |rows[1..]| ensures MayFollow(rows[1..][i], from, next) {
      TileOrder(owner, full, bytes, rows[0].index, rows[i + 1].index);
    }
  }

  lemma SkipStep(rows: seq<ChunkRow>, full: seq<ChunkRow>, expected: nat, end: nat)
    requires rows != [] && !Overlaps(rows[0], expected, end)
    ensures Present(rows, full, expected, end) <==> Present(rows[1..], full, expected, end)
  {
    assert forall r <- rows :: r == rows[0] || r in rows[1..];
  }

  lemma PresentStep(owner: Owner, rows: seq<ChunkRow>, full: seq<ChunkRow>, bytes: seq<byte>, expected: nat, end: nat)
    requires Tile(owner, full, bytes) && rows != [] && SubTable(rows, full)
    requires rows[0].offset <= expected <= RowEnd(rows[0]) && expected <= end <= |bytes| && rows[0].offset < end
    ensures if RowEnd(rows[0]) < end
            then Present(rows, full, expected, end) <==> Present(rows[1..], full, RowEnd(rows[0]), end)
            else Present(rows, full, expected, end)
  {
    var row := rows[0];
    assert row == full[row.index];
    forall i | 0 <= i < |full| && Overlaps(full[i], expected, end)
      ensures full[i] == row || (RowEnd(row) < end && Overlaps(full[i], RowEnd(row), end))
    {
      TileAt(owner, full, bytes, i);
      if i < row.index { TileOrder(owner, full, bytes, i, row.index); }
      if row.index < i { TileOrder(owner, full, bytes, row.index, i); }
    }
    assert forall r <- rows :: r == row || r in rows[1..];
    assert forall r <- rows[1..] :: r in rows;
  }

  lemma MissingAhead(owner: Owner, rows: seq<ChunkRow>, full: seq<ChunkRow>, bytes: seq<byte>,
                     from: nat, expected: nat, end: nat)
    requires Tile(owner, full, bytes) && rows != [] && SubTable(rows, full) && Ahead(rows, from, expected)
    requires from <= expected < end <= |bytes| && Overlaps(rows[0], from, end) && expected < rows[0].offset
    ensures !Present(rows, full, expected, end)
  {
    var i := RowAt(owner, full, bytes, expected);
    assert Overlaps(full[i], expected, end);
    if full[i] in rows {
      var k :| 0 <= k < |rows| && rows[k] == full[i];
      assert k != 0;
      TileOrder(owner, full, bytes, rows[0].index, rows[k].index);
    }
  }

  lemma TileSubTable(owner: Owner, rows: seq<ChunkRow>, bytes: seq<byte>)
    requires Tile(owner, rows, bytes)
    ensures SubTable(rows, rows)
  {
    forall i | 0 <= i < |rows| ensures rows[i].index == i { TileAt(owner, rows, bytes, i); }
  }

  /** Reading an intact table returns exactly the requested slice. */
  lemma AssembleIntact(owner: Owner, rows: seq<ChunkRow>, bytes: seq<byte>, from: nat, end: nat)
    requires Tile(owner, rows, bytes) && from <= end <= |bytes|
    ensures Assemble(owner, rows, from, from, end) == Ok(bytes[from..end])
  {
    hide Assemble;
    TileSubTable(owner, rows, bytes);
    forall r <- rows ensures MayFollow(r, from, from) {}
    if from < end {
      AssembleSound(owner, rows, rows, bytes, from, from, end);
    } else {
      AssembleEmpty(owner, rows, rows, bytes, from);
      assert bytes[from..end] == [];
    }
  }

  lemma {:induction false} AssembleEmpty(owner: Owner, rows: seq<ChunkRow>, full: seq<ChunkRow>, bytes: seq<byte>, from: nat)
    requires Tile(owner, full, bytes) && SubTable(rows, full) && from <= |bytes|
    ensures Assemble(owner, rows, from, from, from) == Ok([])
  {
    if rows != [] {
      TileAt(owner, full, bytes, rows[0].index);
      AssembleEmpty(owner, rows[1..], full, bytes, from);
      if Overlaps(rows[0], from, from) {
        var start := from - rows[0].offset;
        var plain := Open(owner, rows[0]).value;
        assert Min(from - rows[0].offset, rows[0].length) == start;
        assert plain[start..start] + [] == [];
      }
    }
  }

  /** After any loss of rows, a non-empty read succeeds exactly when no overlapped row is lost,
      and then it returns the requested slice: never short, never shifted. */
  lemma AssembleDamaged(owner: Owner, rows: seq<ChunkRow>, full: seq<ChunkRow>, bytes: seq<byte>, from: nat, end: nat)
    requires Tile(owner, full, bytes) && SubTable(rows, full) && from < end <= |bytes|
    ensures var r := Assemble(owner, rows, from, from, end);
            && (r.Ok? <==> Present(rows, full, from, end))
            && (r.Ok? ==> r.value == bytes[from..end])
  {
    AssembleSound(owner, rows, full, bytes, from, from, end);
  }
}
