/** Collapsed preview rows: one row per line, with a short prefix and suffix of its text. */
module PreviewModel {
  import opened Bytes
  import opened Utf8
  import opened LineModel

  const PREFIX := 96
  const SUFFIX := 32
  const SHOWN_BYTES := LINE_PAGE_BYTES - PREFIX - SUFFIX

  datatype PreviewRow = PreviewRow(byteOffset: nat, byteLength: nat, lineStart: Option<nat>, hiddenBytes: Option<nat>,
                                   suffix: Option<seq<byte>>, text: seq<byte>, continuesFromPrevious: bool)

  datatype PreviewPage = PreviewPage(offset: nat, bytesRead: nat, rows: seq<PreviewRow>, nextCursor: Option<nat>,
                                     complete: bool)

  /** Start of the line after the one `from` lies in, or the end. */
  function NextLine(content: seq<byte>, from: nat): (next: nat)
    requires from <= |content|
    ensures from <= next <= |content| && (from < |content| ==> from < next)
  {
    Min(NextNewline(content, from) + 1, |content|)
  }

  /** The lines of `content[from..]`; a newline ends a line rather than starting another. */
  function Lines(content: seq<byte>, from: nat): seq<seq<byte>>
    requires from <= |content|
    decreases |content| - from
  {
    if from == |content| then []
    else [content[from..NextNewline(content, from)]] + Lines(content, NextLine(content, from))
  }

  function OptionalBytes(o: Option<seq<byte>>): seq<byte> {
    if o.None? then [] else o.value
  }

  function OptionalNat(o: Option<nat>): nat {
    if o.None? then 0 else o.value
  }

  /** The first character border in `from..to`. */
  ghost predicate FirstBorder(content: seq<byte>, from: int, to: nat, border: nat) {
    from <= border <= to && Boundary(content, border) && forall k :: from <= k < border ==> !Boundary(content, k)
  }

  /** The row shows its line as text, a number of hidden bytes, and a suffix, all cut on character borders. */
  ghost predicate RowOk(content: seq<byte>, row: PreviewRow) {
    var from := row.byteOffset;
    && from <= |content|
    && var end := NextNewline(content, from);
    var suffix := OptionalBytes(row.suffix);
    var textEnd := from + |row.text|;
    var suffixStart := textEnd + OptionalNat(row.hiddenBytes);
    && from + row.byteLength == end
    && textEnd <= suffixStart && suffixStart + |suffix| == end
    && row.text == content[from..textEnd] && suffix == content[suffixStart..end]
    && LastBorder(content, from, Min(from + PREFIX, end), textEnd)
    && FirstBorder(content, Max(Min(from + PREFIX, end), end - SUFFIX), end, suffixStart)
    && |row.text| <= PREFIX && |suffix| <= SUFFIX
    && (row.byteLength <= PREFIX ==> row.text == content[from..end])
    && row.continuesFromPrevious == (from > 0 && content[from - 1] != NEWLINE)
    && row.lineStart == (if row.continuesFromPrevious then None else Some(from))
    && row.suffix != Some([]) && row.hiddenBytes != Some(0)
  }

  /** One row per line of `content[from..next]`, in order. */
  ghost predicate RowsOk(content: seq<byte>, rows: seq<PreviewRow>, from: nat, next: nat)
    decreases |rows|
  {
    if rows == [] then from == next <= |content|
    else
      && rows[0].byteOffset == from < |content|
      && RowOk(content, rows[0])
      && RowsOk(content, rows[1..], NextLine(content, from), next)
  }

  function ShownBy(row: PreviewRow): nat {
    |row.text| + |OptionalBytes(row.suffix)|
  }

  function Shown(rows: seq<PreviewRow>): nat {
    if rows == [] then 0 else Shown(rows[..|rows| - 1]) + ShownBy(rows[|rows| - 1])
  }

  ghost predicate PageOk(content: seq<byte>, from: nat, limit: nat, page: PreviewPage) {
    var next := from + page.bytesRead;
    && page.offset == from && RowsOk(content, page.rows, from, next)
    && |page.rows| <= Clamp(limit) && Shown(page.rows) < LINE_PAGE_BYTES
    && (from < |content| ==> from < next)
    && page.complete == (next == |content|)
    && page.nextCursor == (if page.complete then None else Some(next))
    && (page.complete || |page.rows| == Clamp(limit) || Shown(page.rows) >= SHOWN_BYTES)
  }

  // ------------------------------------------------------------------ chains

  ghost predicate Chain(content: seq<byte>, cursor: nat, pages: seq<PreviewPage>, limits: seq<nat>)
    decreases |pages|
  {
    if pages == [] || limits == [] then pages == [] && limits == []
    else
      && PageOk(content, cursor, limits[0], pages[0])
      && (|pages| > 1 ==> pages[0].nextCursor.Some?)
      && Chain(content, cursor + pages[0].bytesRead, pages[1..], limits[1..])
  }

  function AllRows(pages: seq<PreviewPage>): seq<PreviewRow> {
    if pages == [] then [] else pages[0].rows + AllRows(pages[1..])
  }

  function Reached(cursor: nat, pages: seq<PreviewPage>): nat
    decreases |pages|
  {
    if pages == [] then cursor else Reached(cursor + pages[0].bytesRead, pages[1..])
  }

  /** The lines that rows stand for. */
  function LinesOf(content: seq<byte>, rows: seq<PreviewRow>): seq<seq<byte>> {
    if rows == [] then []
    else
      var end := rows[0].byteOffset + rows[0].byteLength;
      [if end <= |content| then content[rows[0].byteOffset..end] else []] + LinesOf(content, rows[1..])
  }

  lemma {:induction false} RowsConcat(content: seq<byte>, a: seq<PreviewRow>, b: seq<PreviewRow>, from: nat, mid: nat, next: nat)
    requires RowsOk(content, a, from, mid) && RowsOk(content, b, mid, next)
    ensures RowsOk(content, a + b, from, next)
    decreases |a|
  {
    hide RowOk;
    if a == [] {
      assert a + b == b;
    } else {
      assert (a + b)[1..] == a[1..] + b;
      RowsConcat(content, a[1..], b, NextLine(content, from), mid, next);
    }
  }

  lemma {:induction false} RowsBounds(content: seq<byte>, rows: seq<PreviewRow>, from: nat, next: nat)
    requires RowsOk(content, rows, from, next)
    ensures from <= next <= |content|
    decreases |rows|
  {
    hide RowOk;
    if rows != [] {
      RowsBounds(content, rows[1..], NextLine(content, from), next);
    }
  }

  lemma RowsHead(content: seq<byte>, rows: seq<PreviewRow>, from: nat, next: nat)
    requires RowsOk(content, rows, from, next) && rows != []
    ensures rows[0].byteOffset == from < |content| && from + rows[0].byteLength == NextNewline(content, from)
    ensures RowsOk(content, rows[1..], NextLine(content, from), next)
  {
  }

  lemma LinesStep(content: seq<byte>, rows: seq<PreviewRow>, from: nat)
    requires from < |content| && rows != [] && rows[0].byteOffset == from
    requires from + rows[0].byteLength == NextNewline(content, from)
    ensures NextLine(content, from) <= |content|
    ensures LinesOf(content, rows[1..]) == Lines(content, NextLine(content, from)) ==> LinesOf(content, rows) == Lines(content, from)
  {
  }

  lemma {:induction false} RowsAreLines(content: seq<byte>, rows: seq<PreviewRow>, from: nat)
    requires RowsOk(content, rows, from, |content|) && from <= |content|
    ensures LinesOf(content, rows) == Lines(content, from)
    decreases |rows|
  {
    if rows == [] {
      assert from == |content|;
    } else {
      hide *;
      RowsHead(content, rows, from, |content|);
      LinesStep(content, rows, from);
      RowsAreLines(content, rows[1..], NextLine(content, from));
    }
  }

  lemma {:induction false} RowsElement(content: seq<byte>, rows: seq<PreviewRow>, from: nat, next: nat, i: nat)
    requires RowsOk(content, rows, from, next) && i < |rows|
    ensures RowOk(content, rows[i])
    decreases |rows|
  {
    hide RowOk;
    if i > 0 {
      RowsElement(content, rows[1..], NextLine(content, from), next, i - 1);
    }
  }

  lemma {:induction false} ChainRows(content: seq<byte>, cursor: nat, pages: seq<PreviewPage>, limits: seq<nat>)
    requires Chain(content, cursor, pages, limits) && cursor <= |content|
    ensures RowsOk(content, AllRows(pages), cursor, Reached(cursor, pages))
    ensures pages != [] && pages[|pages| - 1].nextCursor.None? ==> Reached(cursor, pages) == |content|
    decreases |pages|
  {
    if pages == [] {
      assert RowsOk(content, [], cursor, cursor);
    } else {
      hide RowsOk, Shown;
      var mid := cursor + pages[0].bytesRead;
      RowsBounds(content, pages[0].rows, cursor, mid);
      ChainRows(content, mid, pages[1..], limits[1..]);
      RowsConcat(content, pages[0].rows, AllRows(pages[1..]), cursor, mid, Reached(cursor, pages));
    }
  }

  lemma LineEndBorder(content: seq<byte>, lineStart: nat, position: nat)
    requires WellFormed(content) && lineStart <= |content| && position == NextNewline(content, lineStart)
    ensures Boundary(content, position) && Boundary(content, NextLine(content, lineStart))
  {
    hide WellFormed;
    if position < |content| { BoundaryAfterNewline(content, position); }
  }

  /** Rows from a character border end at one. */
  lemma {:induction false} RowsEndAtBorder(content: seq<byte>, rows: seq<PreviewRow>, from: nat, next: nat)
    requires WellFormed(content) && Boundary(content, from) && RowsOk(content, rows, from, next)
    ensures from <= next <= |content| && Boundary(content, next)
    decreases |rows|
  {
    hide RowOk, WellFormed, Boundary, NextLine;
    if rows != [] {
      LineEndBorder(content, from, NextNewline(content, from));
      RowsEndAtBorder(content, rows[1..], NextLine(content, from), next);
    }
  }

  /** The cursor of a page read from a character border is one, ahead of where the page started. */
  lemma NextCursorIsBorder(content: seq<byte>, from: nat, limit: nat, page: PreviewPage)
    requires WellFormed(content) && Boundary(content, from) && PageOk(content, from, limit, page)
    ensures from + page.bytesRead <= |content| && Boundary(content, from + page.bytesRead)
    ensures page.nextCursor.Some? ==>
      page.nextCursor.value == from + page.bytesRead && from < page.nextCursor.value < |content|
  {
    hide RowsOk, WellFormed, Boundary, Shown;
    RowsEndAtBorder(content, page.rows, from, from + page.bytesRead);
    assert Boundary(content, from) ==> from <= |content| by { BorderInside(content, from); }
  }

  lemma BorderInside(content: seq<byte>, p: nat)
    requires Boundary(content, p)
    ensures p <= |content|
  {
  }

  /** A preview chain read to its end yields every line exactly once, in order, whatever the limits of its pages. */
  lemma ChainYieldsEveryLine(content: seq<byte>, pages: seq<PreviewPage>, limits: seq<nat>)
    requires Chain(content, 0, pages, limits) && pages != [] && pages[|pages| - 1].nextCursor.None?
    ensures LinesOf(content, AllRows(pages)) == Lines(content, 0)
    ensures forall i :: 0 <= i < |AllRows(pages)| ==> RowOk(content, AllRows(pages)[i])
  {
    hide *;
    var rows := AllRows(pages);
    ChainRows(content, 0, pages, limits);
    RowsAreLines(content, rows, 0);
    forall i | 0 <= i < |rows| ensures RowOk(content, rows[i]) { RowsElement(content, rows, 0, |content|, i); }
  }

  /** Joined with newlines, the lines of a finished chain are the content again. */
  lemma PreviewedLinesJoin(content: seq<byte>, pages: seq<PreviewPage>, limits: seq<nat>)
    requires Chain(content, 0, pages, limits) && pages != [] && pages[|pages| - 1].nextCursor.None?
    ensures
      var final := if content == [] || content[|content| - 1] == NEWLINE then [[]] else [];
      LinesOf(content, AllRows(pages)) + final != [] && JoinLines(LinesOf(content, AllRows(pages)) + final) == content
  {
    hide Chain, LinesOf, AllRows, JoinLines, SplitLines, Lines;
    ChainYieldsEveryLine(content, pages, limits);
    LinesAreSplit(content, 0);
    JoinSplit(content);
    assert content[0..] == content;
  }

  /** Those lines are the pieces between newlines, without the empty piece behind a final newline. */
  lemma {:induction false} LinesAreSplit(content: seq<byte>, from: nat)
    requires from <= |content|
    ensures SplitLines(content[from..])
         == Lines(content, from) + (if from == |content| || content[|content| - 1] == NEWLINE then [[]] else [])
    decreases |content| - from
  {
    hide SplitLines, Lines, NextNewline;
    var end := NextNewline(content, from);
    LinesUnfold(content, from);
    if end == |content| {
      NoNewlineAhead(content, from);
      SplitNone(content[from..]);
      LinesUnfold(content, |content|);
      assert content[from..end] == content[from..];
      if from < |content| {
        assert content[|content| - 1] != NEWLINE;
      }
    } else {
      LinesAreSplit(content, end + 1);
      SplitAt(content, from, end);
      var line, lines := content[from..end], Lines(content, end + 1);
      var final := if end + 1 == |content| || content[|content| - 1] == NEWLINE then [[]] else [];
      assert [line] + (lines + final) == [line] + lines + final;
    }
  }

  lemma LinesUnfold(content: seq<byte>, from: nat)
    requires from <= |content|
    ensures Lines(content, from) ==
      if from == |content| then [] else [content[from..NextNewline(content, from)]] + Lines(content, NextLine(content, from))
  {
    hide NextNewline;
  }

  lemma NoNewlineAhead(content: seq<byte>, from: nat)
    requires from <= |content| && NextNewline(content, from) == |content|
    ensures NEWLINE !in content[from..]
  {
    hide NextNewline;
    var rest := content[from..];
    forall i | 0 <= i < |rest| ensures rest[i] != NEWLINE {
      assert rest[i] == content[from + i];
    }
  }

  lemma SplitNone(s: seq<byte>)
    requires NEWLINE !in s
    ensures SplitLines(s) == [s]
  {
    NextNewlineUnique(s, 0, |s|);
  }

  lemma SplitAt(content: seq<byte>, from: nat, end: nat)
    requires from <= end < |content| && end == NextNewline(content, from)
    ensures SplitLines(content[from..]) == [content[from..end]] + SplitLines(content[end + 1..])
  {
    hide NextNewline;
    var rest := content[from..];
    var k := end - from;
    NextInRest(content, from);
    assert rest[..k] == content[from..end];
    assert rest[k + 1..] == content[end + 1..];
    assert SplitLines(rest) == [rest[..k]] + SplitLines(rest[k + 1..]);
  }

  lemma NextInRest(content: seq<byte>, from: nat)
    requires from <= |content|
    ensures NextNewline(content[from..], 0) == NextNewline(content, from) - from
  {
    hide NextNewline;
    var rest, k := content[from..], NextNewline(content, from) - from;
    forall j | 0 <= j < k ensures rest[j] != NEWLINE {
      assert rest[j] == content[from + j];
    }
    NextNewlineUnique(rest, 0, k);
  }
}

module ContentPreview {
  import opened Bytes
  import opened Utf8
  import opened ContentModel
  import opened ContentStore
  import L = LineModel
  import opened ContentLines
  import opened PreviewModel

  /** What is kept of the line being scanned: its first bytes, and the last bytes behind those. */
  ghost predicate Partial(content: seq<byte>, lineStart: nat, position: nat, prefix: seq<byte>, tail: seq<byte>) {
    && lineStart <= position <= |content|
    && |prefix| == Min(PREFIX, position - lineStart) && WindowAt(content, lineStart, prefix)
    && |tail| == Min(SUFFIX, position - lineStart - |prefix|) && WindowAt(content, position - |tail|, tail)
  }

  function ExtendPrefix(prefix: seq<byte>, part: seq<byte>): seq<byte>
    requires |prefix| <= PREFIX
  {
    prefix + part[..Min(PREFIX - |prefix|, |part|)]
  }

  function ExtendTail(prefix: seq<byte>, tail: seq<byte>, part: seq<byte>): seq<byte>
    requires |prefix| <= PREFIX
  {
    var longer := tail + part[Min(PREFIX - |prefix|, |part|)..];
    longer[SaturatingSub(|longer|, SUFFIX)..]
  }

  lemma PartialExtends(content: seq<byte>, lineStart: nat, position: nat, prefix: seq<byte>, tail: seq<byte>, part: seq<byte>)
    requires Partial(content, lineStart, position, prefix, tail) && WindowAt(content, position, part)
    ensures Partial(content, lineStart, position + |part|, ExtendPrefix(prefix, part), ExtendTail(prefix, tail, part))
  {
    var taken := Min(PREFIX - |prefix|, |part|);
    var longer := tail + part[taken..];
    if |tail| > 0 || taken < |part| {
      assert WindowAt(content, position + |part| - |longer|, longer) by {
        if |tail| > 0 { assert |prefix| == PREFIX; }
      }
    }
  }

  /** Behind at most three continuation bytes the tail starts on a character border. */
  lemma SuffixBorder(content: seq<byte>, from: nat, tail: seq<byte>)
    requires WellFormed(content) && WindowAt(content, from, tail) && Boundary(content, from + |tail|)
    ensures FirstBorder(content, from, from + |tail|, from + Leading(tail, 3)) && WellFormed(tail[Leading(tail, 3)..])
  {
    hide WellFormed;
    var n := Leading(tail, 3);
    forall k | from <= k < from + n ensures !Boundary(content, k) { assert tail[k - from] == content[k]; }
    if n < 3 && n < |tail| { assert tail[n] == content[from + n]; }
    if n == 3 {
      var b := BoundaryBelow(content, from + 3);
      assert b == from + 3;
    }
    PieceWellFormed(content, from + n, from + |tail|);
    WindowSlice(content, from, tail, n, |tail|);
    assert tail[n..] == tail[n..|tail|];
  }

  /** The row of a line of which `text` and `suffix` are shown, with `hidden` bytes between them. */
  function RowOf(lineStart: nat, position: nat, text: seq<byte>, suffix: seq<byte>, hidden: nat, continued: bool): PreviewRow
    requires lineStart <= position
  {
    PreviewRow(lineStart, position - lineStart, if continued then None else Some(lineStart),
               if hidden > 0 then Some(hidden) else None, if suffix == [] then None else Some(suffix), text, continued)
  }

  lemma RowShows(content: seq<byte>, lineStart: nat, position: nat, textEnd: nat, suffixStart: nat)
    requires lineStart <= textEnd <= suffixStart <= position <= |content| && position == NextNewline(content, lineStart)
    requires L.LastBorder(content, lineStart, Min(lineStart + PREFIX, position), textEnd)
    requires FirstBorder(content, Max(Min(lineStart + PREFIX, position), position - SUFFIX), position, suffixStart)
    requires position <= lineStart + PREFIX ==> textEnd == position
    ensures var row := RowOf(lineStart, position, content[lineStart..textEnd], content[suffixStart..position],
                             suffixStart - textEnd, Continued(content, lineStart));
            RowOk(content, row) && ShownBy(row) <= PREFIX + SUFFIX
  {
    hide Boundary, NextNewline;
  }

  lemma PrefixSlice(content: seq<byte>, from: nat, bytes: seq<byte>, length: nat)
    requires WindowAt(content, from, bytes) && length <= |bytes|
    ensures from + length <= |content| && bytes[..length] == content[from..from + length]
  {
    hide WindowAt;
    WindowBound(content, from, bytes);
    WindowSlice(content, from, bytes, 0, length);
    assert bytes[..length] == bytes[0..length];
  }

  lemma SuffixSlice(content: seq<byte>, from: nat, bytes: seq<byte>, skipped: nat)
    requires WindowAt(content, from, bytes) && skipped <= |bytes|
    ensures from + |bytes| <= |content| && bytes[skipped..] == content[from + skipped..from + |bytes|]
  {
    hide WindowAt;
    WindowBound(content, from, bytes);
    WindowSlice(content, from, bytes, skipped, |bytes|);
    assert bytes[skipped..] == bytes[skipped..|bytes|];
  }

  /** Where the two cuts of a row lie. */
  lemma CutsOrdered(content: seq<byte>, lineStart: nat, position: nat, prefix: seq<byte>, tail: seq<byte>, textEnd: nat)
    requires Partial(content, lineStart, position, prefix, tail) && textEnd <= |prefix|
    requires lineStart + textEnd == L.Floor(content, lineStart, lineStart + |prefix|)
    requires Boundary(content, lineStart) && Boundary(content, position)
    requires |tail| <= position && FirstBorder(content, position - |tail|, position, position - |tail| + Leading(tail, 3))
    ensures
      var suffixStart := position - |tail| + Leading(tail, 3);
      && lineStart + textEnd <= suffixStart <= position <= |content|
      && L.LastBorder(content, lineStart, Min(lineStart + PREFIX, position), lineStart + textEnd)
      && FirstBorder(content, Max(Min(lineStart + PREFIX, position), position - SUFFIX), position, suffixStart)
      && (position <= lineStart + PREFIX ==> lineStart + textEnd == position)
  {
    hide Leading, L.Floor, WindowAt, Boundary;
  }

  lemma PartialParts(content: seq<byte>, lineStart: nat, position: nat, prefix: seq<byte>, tail: seq<byte>)
    requires Partial(content, lineStart, position, prefix, tail)
    ensures lineStart <= position <= |content| && |tail| <= position && |prefix| == Min(PREFIX, position - lineStart)
    ensures |tail| == Min(SUFFIX, position - lineStart - |prefix|)
    ensures WindowAt(content, lineStart, prefix) && WindowAt(content, position - |tail|, tail)
  {
    hide WindowAt;
  }

  lemma RowMade(content: seq<byte>, lineStart: nat, position: nat, prefix: seq<byte>, tail: seq<byte>, textEnd: nat)
    requires Partial(content, lineStart, position, prefix, tail) && position == NextNewline(content, lineStart)
    requires textEnd <= |prefix| && lineStart + textEnd == L.Floor(content, lineStart, lineStart + |prefix|)
    requires Boundary(content, lineStart) && Boundary(content, position)
    requires lineStart <= position && |tail| <= position
    requires FirstBorder(content, position - |tail|, position, position - |tail| + Leading(tail, 3))
    ensures var suffix := tail[Leading(tail, 3)..];
            var row := RowOf(lineStart, position, prefix[..textEnd], suffix,
                             SaturatingSub(position - lineStart, textEnd + |suffix|), Continued(content, lineStart));
            RowOk(content, row) && ShownBy(row) <= PREFIX + SUFFIX
  {
    hide Partial, Leading, L.Floor, NextNewline, WindowAt, Boundary, RowOk, ShownBy, RowOf, Continued, L.LastBorder, FirstBorder;
    CutsOrdered(content, lineStart, position, prefix, tail, textEnd);
    PartialParts(content, lineStart, position, prefix, tail);
    var skipped := Leading(tail, 3);
    PrefixSlice(content, lineStart, prefix, textEnd);
    SuffixSlice(content, position - |tail|, tail, skipped);
    RowShows(content, lineStart, position, lineStart + textEnd, position - |tail| + skipped);
  }

  /** The row of the line `lineStart..position`, made from what was kept of it. */
  method FinishLine(prefix: seq<byte>, tail: seq<byte>, lineStart: nat, position: nat, continued: bool,
                    ghost content: seq<byte>)
    returns (r: Result<PreviewRow, StoreError>)
    requires Partial(content, lineStart, position, prefix, tail) && continued == Continued(content, lineStart)
    ensures r.Ok? ==> ShownBy(r.value) <= PREFIX + SUFFIX
    ensures WellFormed(content) && Boundary(content, lineStart) && position == NextNewline(content, lineStart) ==>
              r.Ok? && r.value.byteOffset == lineStart && RowOk(content, r.value)
  {
    hide WellFormed, L.Floor, Leading, RowOk, Boundary, WindowAt, Partial, NextNewline, Continued, FirstBorder;
    PartialParts(content, lineStart, position, prefix, tail);
    ghost var good := WellFormed(content) && Boundary(content, lineStart) && position == NextNewline(content, lineStart);
    if good {
      LineEndBorder(content, lineStart, position);
      SuffixBorder(content, position - |tail|, tail);
    }
    var textEnd := ValidEnd(prefix, 0, |prefix|, content, lineStart);
    if textEnd == 0 && prefix != [] {
      if good { FirstCharFits(content, lineStart, |prefix|); }
      return Err(NotUtf8);
    }
    var suffix := tail[Leading(tail, 3)..];
    if !WellFormed(suffix) { return Err(NotUtf8); }
    var text := prefix[..textEnd];
    var length := position - lineStart;
    var hidden := SaturatingSub(length, |text| + |suffix|);
    r := Ok(RowOf(lineStart, position, text, suffix, hidden, continued));
    if good { RowMade(content, lineStart, position, prefix, tail, textEnd); }
  }

  lemma FirstCharFits(content: seq<byte>, lineStart: nat, length: nat)
    requires WellFormed(content) && Boundary(content, lineStart) && 0 < length && lineStart + length <= |content|
    requires length == PREFIX || Boundary(content, lineStart + length)
    ensures L.Floor(content, lineStart, lineStart + length) > lineStart
  {
    hide WellFormed;
    var b := BoundaryBelow(content, lineStart + length);
  }

  /** A preview under way: rows made so far, and the line being scanned. */
  datatype Scan = Scan(position: nat, lineStart: nat, prefix: seq<byte>, tail: seq<byte>, continued: bool,
                       rows: seq<PreviewRow>, displayed: nat)

  /** At the end of the content there is no line left for the flag to be about. */
  ghost predicate ContinuedFlag(content: seq<byte>, scan: Scan) {
    scan.lineStart < |content| ==> scan.continued == Continued(content, scan.lineStart)
  }

  ghost predicate Scanning(content: seq<byte>, from: nat, scan: Scan) {
    && Partial(content, scan.lineStart, scan.position, scan.prefix, scan.tail)
    && scan.position <= NextNewline(content, scan.lineStart)
    && ContinuedFlag(content, scan)
    && Boundary(content, scan.lineStart)
    && RowsOk(content, scan.rows, from, scan.lineStart)
    && scan.displayed == Shown(scan.rows)
  }

  predicate Full(scan: Scan, maximum: nat) {
    |scan.rows| >= maximum || scan.displayed >= SHOWN_BYTES
  }

  /** Takes the part of `bytes[consumed..]` up to its first newline; makes a row when that ends a line. */
  method TakePart(scan: Scan, bytes: seq<byte>, consumed: nat, size: nat, ghost content: seq<byte>, ghost from: nat)
    returns (r: Result<Scan, StoreError>, ended: bool)
    requires consumed < |bytes| && |content| == size && WindowAt(content, scan.position, bytes[consumed..])
    requires |scan.prefix| <= PREFIX
    requires Partial(content, scan.lineStart, scan.position, scan.prefix, scan.tail)
    requires ContinuedFlag(content, scan)
    ensures r.Ok? ==>
      && scan.position < r.value.position <= scan.position + |bytes| - consumed
      && (if ended then r.value.lineStart == r.value.position && |r.value.rows| == |scan.rows| + 1
                        && r.value.displayed <= scan.displayed + PREFIX + SUFFIX
          else r.value.position == scan.position + |bytes| - consumed < size && r.value.lineStart == scan.lineStart
               && r.value.rows == scan.rows && r.value.displayed == scan.displayed)
      && |r.value.prefix| <= PREFIX
      && Partial(content, r.value.lineStart, r.value.position, r.value.prefix, r.value.tail)
      && ContinuedFlag(content, r.value)
    ensures WellFormed(content) && Scanning(content, from, scan) ==> r.Ok? && Scanning(content, from, r.value)
  {
    hide WellFormed, RowsOk, RowOk, Boundary, WindowAt, Partial;
    ghost var good := WellFormed(content) && Scanning(content, from, scan);
    ended := false;
    PartialBounds(content, scan.lineStart, scan.position, scan.prefix, scan.tail);
    var remainder := bytes[consumed..];
    var newline := NextNewline(remainder, 0);
    var part := remainder[..newline];
    WindowPrefix(content, scan.position, remainder, newline);
    PartialExtends(content, scan.lineStart, scan.position, scan.prefix, scan.tail, part);
    var prefix, tail := ExtendPrefix(scan.prefix, part), ExtendTail(scan.prefix, scan.tail, part);
    var position := scan.position + newline;
    PartialBounds(content, scan.lineStart, position, prefix, tail);
    if good { NewlineAhead(content, scan.lineStart, scan.position, remainder); }
    if newline == |remainder| && position < size {
      return Ok(scan.(position := position, prefix := prefix, tail := tail)), false;
    }
    var row := FinishLine(prefix, tail, scan.lineStart, position, scan.continued, content);
    if row.Err? { return Err(row.error), false; }
    ended := true;
    var next := if newline < |remainder| then position + 1 else position;
    r := Ok(Scan(next, next, [], [], false, scan.rows + [row.value], scan.displayed + ShownBy(row.value)));
    FreshLine(content, position, next, remainder, scan.position);
    if good {
      LineEndBorder(content, scan.lineStart, position);
      AddRow(content, scan.rows, from, scan.lineStart, row.value, next);
    }
  }

  lemma WindowPrefix(content: seq<byte>, position: nat, bytes: seq<byte>, length: nat)
    requires WindowAt(content, position, bytes) && length <= |bytes|
    ensures WindowAt(content, position, bytes[..length]) && position + |bytes| <= |content|
  {
  }

  lemma PartialBounds(content: seq<byte>, lineStart: nat, position: nat, prefix: seq<byte>, tail: seq<byte>)
    requires Partial(content, lineStart, position, prefix, tail)
    ensures lineStart <= position <= |content| && |prefix| <= PREFIX
  {
  }

  lemma NewlineAhead(content: seq<byte>, lineStart: nat, position: nat, remainder: seq<byte>)
    requires WindowAt(content, position, remainder) && lineStart <= position <= NextNewline(content, lineStart)
    ensures var newline := NextNewline(remainder, 0);
            && position + newline <= NextNewline(content, lineStart)
            && (newline < |remainder| || position + newline == |content| ==> position + newline == NextNewline(content, lineStart))
            && (newline < |remainder| ==> position + newline < |content|)
  {
    var newline := NextNewline(remainder, 0);
    forall j | lineStart <= j < position + newline ensures content[j] != NEWLINE {
      if j >= position { assert remainder[j - position] != NEWLINE; }
    }
    if newline < |remainder| { assert content[position + newline] == NEWLINE; }
  }

  /** Right behind a newline, or at the end of content without one, nothing of a line has been scanned. */
  lemma FreshLine(content: seq<byte>, position: nat, next: nat, remainder: seq<byte>, from: nat)
    requires WindowAt(content, from, remainder) && position == from + NextNewline(remainder, 0)
    requires next == if NextNewline(remainder, 0) < |remainder| then position + 1 else position
    requires remainder != [] && (NextNewline(remainder, 0) == |remainder| ==> position == |content|)
    ensures next <= |content| && Partial(content, next, next, [], [])
    ensures NextNewline(remainder, 0) < |remainder| ==> !Continued(content, next)
  {
  }

  lemma AddRow(content: seq<byte>, rows: seq<PreviewRow>, from: nat, mid: nat, row: PreviewRow, next: nat)
    requires RowsOk(content, rows, from, mid) && row.byteOffset == mid < |content| && RowOk(content, row)
    requires next == NextLine(content, mid)
    ensures RowsOk(content, rows + [row], from, next) && Shown(rows + [row]) == Shown(rows) + ShownBy(row)
  {
    hide RowOk;
    assert [row][1..] == [];
    assert RowsOk(content, [row], mid, next);
    RowsConcat(content, rows, [row], from, mid, next);
    assert (rows + [row])[..|rows|] == rows;
  }

  /** Takes parts of one window until it is used up, the page is full, or it ends inside a line. */
  method TakeWindow(start: Scan, bytes: seq<byte>, size: nat, maximum: nat, ghost content: seq<byte>, ghost from: nat)
    returns (r: Result<Scan, StoreError>)
    requires bytes != [] && |content| == size && WindowAt(content, start.position, bytes)
    requires Holding(content, start) && !Full(start, maximum) && start.displayed < L.LINE_PAGE_BYTES
    ensures r.Ok? ==>
      && Holding(content, r.value) && start.position < r.value.position && |r.value.rows| <= maximum
      && r.value.displayed < L.LINE_PAGE_BYTES
      && (r.value.position == r.value.lineStart || (!Full(r.value, maximum) && r.value.position < size))
    ensures WellFormed(content) && Scanning(content, from, start) ==> r.Ok? && Scanning(content, from, r.value)
  {
    hide WellFormed, Scanning, WindowAt, Holding;
    var scan := start;
    var consumed := 0;
    assert bytes[0..] == bytes;
    WindowBound(content, start.position, bytes);
    var open := true;
    while consumed < |bytes| && open
      invariant 0 <= consumed <= |bytes| && scan.position == start.position + consumed
      invariant consumed < |bytes| ==> WindowAt(content, scan.position, bytes[consumed..])
      invariant Holding(content, scan) && |scan.rows| <= maximum && scan.displayed < L.LINE_PAGE_BYTES
      invariant open && consumed < |bytes| ==> !Full(scan, maximum)
      invariant consumed > 0 ==> scan.position == scan.lineStart || (!Full(scan, maximum) && scan.position < size)
      invariant open || consumed > 0
      invariant WellFormed(content) && Scanning(content, from, start) ==> Scanning(content, from, scan)
      decreases |bytes| - consumed
    {
      HoldingParts(content, scan);
      ScanningHolds(content, from, scan);
      var part, ended := TakePart(scan, bytes, consumed, size, content, from);
      if part.Err? { return part; }
      consumed := part.value.position - start.position;
      scan := part.value;
      HoldingFrom(content, scan);
      WindowRest(content, start.position, bytes, consumed);
      open := ended && !Full(scan, maximum);
    }
    r := Ok(scan);
  }

  ghost predicate Holding(content: seq<byte>, scan: Scan) {
    && |scan.prefix| <= PREFIX
    && Partial(content, scan.lineStart, scan.position, scan.prefix, scan.tail)
    && ContinuedFlag(content, scan)
  }

  lemma HoldingParts(content: seq<byte>, scan: Scan)
    requires Holding(content, scan)
    ensures |scan.prefix| <= PREFIX && Partial(content, scan.lineStart, scan.position, scan.prefix, scan.tail)
    ensures ContinuedFlag(content, scan)
  {
  }

  lemma HoldingFrom(content: seq<byte>, scan: Scan)
    requires |scan.prefix| <= PREFIX && Partial(content, scan.lineStart, scan.position, scan.prefix, scan.tail)
    requires ContinuedFlag(content, scan)
    ensures Holding(content, scan)
  {
  }

  lemma ScanningHolds(content: seq<byte>, from: nat, scan: Scan)
    ensures Scanning(content, from, scan) ==> scan.displayed == Shown(scan.rows)
  {
  }

  lemma WindowRest(content: seq<byte>, position: nat, bytes: seq<byte>, consumed: nat)
    requires WindowAt(content, position, bytes) && consumed <= |bytes|
    ensures WindowAt(content, position + consumed, bytes[consumed..])
  {
  }

  lemma ScanStart(content: seq<byte>, offset: nat, continued: bool)
    requires offset <= |content| && (offset < |content| ==> continued == Continued(content, offset))
    ensures var scan := Scan(offset, offset, [], [], continued, [], 0);
            && Holding(content, scan)
            && (Boundary(content, offset) ==> Scanning(content, offset, scan))
  {
  }

  lemma ScanDone(content: seq<byte>, offset: nat, limit: nat, scan: Scan, page: PreviewPage)
    requires Scanning(content, offset, scan) && scan.position == scan.lineStart
    requires |scan.rows| <= L.Clamp(limit) && scan.displayed < L.LINE_PAGE_BYTES
    requires scan.position == |content| || Full(scan, L.Clamp(limit))
    requires offset < |content| ==> offset < scan.position
    requires page == PreviewPage(offset, scan.position - offset, scan.rows,
                                 if scan.position < |content| then Some(scan.position) else None, scan.position >= |content|)
    ensures PageOk(content, offset, limit, page)
  {
    hide RowsOk, Shown;
    RowsBounds(content, scan.rows, offset, scan.lineStart);
  }

  /** What a preview request promises of valid text, from a character border, given windows of a page's size. */
  ghost predicate PreviewResult(maxWindow: nat, content: seq<byte>, offset: nat, limit: nat, r: Result<PreviewPage, StoreError>) {
    WellFormed(content) && Boundary(content, offset) && maxWindow >= L.LINE_PAGE_BYTES ==>
      r.Ok? && PageOk(content, offset, limit, r.value)
  }

  /** Replies to a client that starts at `cursor`, goes on with the cursor of each page, and asks with any limits. */
  ghost predicate Replies(maxWindow: nat, content: seq<byte>, cursor: nat, limits: seq<nat>,
                          replies: seq<Result<PreviewPage, StoreError>>)
    decreases |replies|
  {
    if replies == [] || limits == [] then replies == [] && limits == []
    else
      && PreviewResult(maxWindow, content, cursor, limits[0], replies[0])
      && (|replies| > 1 ==>
            && replies[0].Ok? && replies[0].value.nextCursor.Some?
            && Replies(maxWindow, content, replies[0].value.nextCursor.value, limits[1..], replies[1..]))
      && (|replies| == 1 ==> |limits| == 1)
  }

  function Pages(replies: seq<Result<PreviewPage, StoreError>>): seq<PreviewPage>
    requires forall reply <- replies :: reply.Ok?
  {
    seq(|replies|, i requires 0 <= i < |replies| => replies[i].value)
  }

  lemma {:induction false} RepliesFrom(maxWindow: nat, content: seq<byte>, cursor: nat, limits: seq<nat>,
                                       replies: seq<Result<PreviewPage, StoreError>>)
    requires WellFormed(content) && Boundary(content, cursor) && maxWindow >= L.LINE_PAGE_BYTES
    requires Replies(maxWindow, content, cursor, limits, replies)
    ensures forall reply <- replies :: reply.Ok?
    ensures Chain(content, cursor, Pages(replies), limits)
    ensures |replies| <= Max(1, |content| - cursor)
    decreases |replies|
  {
    hide WellFormed, PageOk, Boundary;
    if replies != [] {
      var page := replies[0].value;
      NextCursorIsBorder(content, cursor, limits[0], page);
      if |replies| > 1 {
        RepliesFrom(maxWindow, content, page.nextCursor.value, limits[1..], replies[1..]);
        assert Pages(replies)[1..] == Pages(replies[1..]);
        assert forall reply <- replies :: reply == replies[0] || reply in replies[1..];
      } else {
        assert Pages(replies)[1..] == [] && limits[1..] == [];
      }
    }
  }

  /** On valid text no preview from the start ever fails: whatever limits a client asks with, every reply is a page,
      the pages are a chain, and there are no more of them than bytes. */
  lemma PreviewNeverFails(maxWindow: nat, content: seq<byte>, limits: seq<nat>, replies: seq<Result<PreviewPage, StoreError>>)
    requires WellFormed(content) && maxWindow >= L.LINE_PAGE_BYTES
    requires Replies(maxWindow, content, 0, limits, replies)
    ensures forall reply <- replies :: reply.Ok?
    ensures Chain(content, 0, Pages(replies), limits)
    ensures |replies| <= Max(1, |content|)
  {
    hide WellFormed, Replies, Chain;
    StartIsBorder(content);
    RepliesFrom(maxWindow, content, 0, limits, replies);
  }

  lemma StartIsBorder(content: seq<byte>)
    requires WellFormed(content)
    ensures Boundary(content, 0)
  {
    if content != [] {
      var n := FirstChar(content);
    }
  }

  /** Scans window after window until the page is full or the content is used up. */
  method ScanLines(store: ResponseContentStore, id: string, start: Scan, size: nat, maximum: nat, ghost from: nat)
    returns (r: Result<Scan, StoreError>)
    requires store.Valid() && store.Readable(id) && size == |store.BytesOf(id)| && start.position <= size
    requires Holding(store.BytesOf(id), start) && start.position == start.lineStart
    requires !Full(start, maximum) && start.displayed < L.LINE_PAGE_BYTES
    ensures r.Ok? ==>
      && start.position <= r.value.position <= size && r.value.position == r.value.lineStart
      && (start.position < size ==> start.position < r.value.position)
      && |r.value.rows| <= maximum && r.value.displayed < L.LINE_PAGE_BYTES
      && (r.value.position == size || Full(r.value, maximum))
    ensures store.limits.maxWindowBytes >= L.LINE_PAGE_BYTES
            && WellFormed(store.BytesOf(id)) && Scanning(store.BytesOf(id), from, start) ==>
              r.Ok? && Scanning(store.BytesOf(id), from, r.value)
  {
    hide WellFormed, Good, Scanning, WindowAt, Holding, Partial, ContinuedFlag;
    ghost var content := store.BytesOf(id);
    var scan := start;
    while scan.position < size && !Full(scan, maximum)
      invariant start.position <= scan.position <= size && Holding(content, scan) && |scan.rows| <= maximum
      invariant scan.displayed < L.LINE_PAGE_BYTES
      invariant scan.position == scan.lineStart || (!Full(scan, maximum) && scan.position < size)
      invariant scan.position == start.position ==> scan == start
      invariant WellFormed(content) && Scanning(content, from, start) ==> Scanning(content, from, scan)
      decreases size - scan.position
    {
      var window := store.ReadWindow(id, scan.position, Min(size - scan.position, L.LINE_PAGE_BYTES));
      if window.Err? { return Err(window.error); }
      DropWindow(content, scan.position, window.value, 0);
      assert window.value[0..] == window.value;
      var next := TakeWindow(scan, window.value, size, maximum, content, from);
      if next.Err? { return Err(next.error); }
      scan := next.value;
      HoldingParts(content, scan);
      PartialBounds(content, scan.lineStart, scan.position, scan.prefix, scan.tail);
    }
    r := Ok(scan);
  }

  /** On valid text and from a character border a preview page never fails, given windows of a page's size. */
  method ReadPreviewLines(store: ResponseContentStore, id: string, offset: nat, limit: nat)
    returns (r: Result<PreviewPage, StoreError>)
    requires store.Valid()
    ensures r.Ok? ==> store.Readable(id) && offset <= |store.BytesOf(id)|
    ensures store.Readable(id) ==> PreviewResult(store.limits.maxWindowBytes, store.BytesOf(id), offset, limit, r)
  {
    hide WellFormed, Good, Scanning, WindowAt, Holding, PageOk, Partial, ContinuedFlag, Shown, Continued;
    var reference := store.Reference(id);
    if reference.Err? { return Err(reference.error); }
    var size := reference.value.byteLength;
    if offset > size || reference.value.state == Staging { return Err(InvalidCursor); }
    ghost var content := store.BytesOf(id);
    hide Boundary;
    ghost var good := WellFormed(content) && Boundary(content, offset) && store.limits.maxWindowBytes >= L.LINE_PAGE_BYTES;
    var inside := ContinuesLine(store, id, offset);
    if inside.Err? { return Err(inside.error); }
    var continued := inside.value;
    var maximum := L.Clamp(limit);
    var scan := Scan(offset, offset, [], [], continued, [], 0);
    ScanStart(content, offset, continued);
    var scanned := ScanLines(store, id, scan, size, maximum, offset);
    if scanned.Err? { return Err(scanned.error); }
    scan := scanned.value;
    r := Ok(PreviewPage(offset, scan.position - offset, scan.rows,
                        if scan.position < size then Some(scan.position) else None, scan.position >= size));
    if good { ScanDone(content, offset, limit, scan, r.value); }
  }
}
