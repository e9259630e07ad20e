/** Line pages over one content, and what chains of pages add up to. */
module LineModel {
  import opened Bytes
  import opened Utf8

  const LINE_PAGE_BYTES := 192 * 1024
  const LINE_SEGMENT_BYTES := 16 * 1024

  datatype LineSegment = LineSegment(byteOffset: nat, byteLength: nat, lineStart: Option<nat>, text: seq<byte>,
                                     continuesFromPrevious: bool, continuesToNext: bool)

  datatype LinePage = LinePage(offset: nat, bytesRead: nat, segments: seq<LineSegment>, previousCursor: Option<nat>,
                               nextCursor: Option<nat>, complete: bool)

  function Clamp(limit: nat): (r: nat)
    ensures 1 <= r <= 1000 && (r == limit || (limit == 0 && r == 1) || (limit > 1000 && r == 1000))
  {
    Max(1, Min(limit, 1000))
  }

  /** Start of the line that position `p` belongs to. */
  function LineStart(content: seq<byte>, p: nat): (l: nat)
    requires p <= |content|
    ensures l <= p
    ensures l == 0 || content[l - 1] == NEWLINE
    ensures forall k :: l <= k < p ==> content[k] != NEWLINE
  {
    if p == 0 || content[p - 1] == NEWLINE then p else LineStart(content, p - 1)
  }

  /** The next character border at or after `p`. */
  function AlignUp(content: seq<byte>, p: nat): (q: nat)
    requires p <= |content|
    ensures p <= q && Boundary(content, q)
    ensures forall k :: p <= k < q ==> !Boundary(content, k)
    decreases |content| - p
  {
    if Boundary(content, p) then p else AlignUp(content, p + 1)
  }

  /** The last character border in `low..i`, or `low`. */
  function Floor(content: seq<byte>, low: nat, i: nat): (b: nat)
    requires low <= i <= |content|
    ensures low <= b <= i && (b == low || Boundary(content, b))
    ensures forall k :: b < k <= i ==> !Boundary(content, k)
    decreases i - low
  {
    if i == low || Boundary(content, i) then i else Floor(content, low, i - 1)
  }

  /** The last character border in `from..to`. */
  ghost predicate LastBorder(content: seq<byte>, from: nat, to: nat, border: nat) {
    from <= border <= to && Boundary(content, border) && forall k :: border < k <= to ==> !Boundary(content, k)
  }

  function End(segment: LineSegment): nat {
    segment.byteOffset + segment.byteLength
  }

  /** A segment is a piece of one line; what follows it starts right behind it or behind one newline. */
  ghost predicate SegmentOk(content: seq<byte>, segment: LineSegment, after: nat) {
    var from, end := segment.byteOffset, End(segment);
    && from <= end <= after <= |content| && from < after
    && segment.byteLength <= LINE_SEGMENT_BYTES
    && Boundary(content, from) && Boundary(content, end)
    && NEWLINE !in content[from..end]
    && (after == end || (after == end + 1 && content[end] == NEWLINE))
    && segment.continuesToNext == (after == end < |content|)
    && segment.continuesFromPrevious == (from > 0 && content[from - 1] != NEWLINE)
    && (segment.lineStart.Some? ==> segment.lineStart.value == LineStart(content, from))
    && segment.text == content[from..if after > end > from && content[end - 1] == CARRIAGE_RETURN then end - 1 else end]
  }

  function After(segments: seq<LineSegment>, next: nat): nat
    requires segments != []
  {
    if |segments| == 1 then next else segments[1].byteOffset
  }

  /** The segments follow one another from `from` to `next`. */
  ghost predicate Tiles(content: seq<byte>, segments: seq<LineSegment>, from: nat, next: nat)
    decreases |segments|
  {
    if segments == [] then from == next <= |content| && Boundary(content, next)
    else
      && segments[0].byteOffset == from
      && SegmentOk(content, segments[0], After(segments, next))
      && Tiles(content, segments[1..], After(segments, next), next)
  }

  /** A page that starts at character border `from`: a line start is given when the line starts in the page. */
  ghost predicate PageOk(content: seq<byte>, from: nat, page: LinePage) {
    var next := from + page.bytesRead;
    && page.offset == from
    && page.bytesRead <= LINE_PAGE_BYTES && |page.segments| <= 1000
    && Tiles(content, page.segments, from, next)
    && (forall s <- page.segments :: s.byteOffset <= |content|
         && (s.lineStart.Some? <==> from <= LineStart(content, s.byteOffset)))
    && page.complete == (next == |content|)
    && page.nextCursor == (if page.complete then None else Some(next))
    && page.previousCursor == (if from == 0 then None else Some(SaturatingSub(from, LINE_PAGE_BYTES)))
    && (from < |content| ==> from < next)
  }

  /** Every segment reaches as far as it may: to its line's end, its longest length, or `stop`, less a character that
      straddles that point. */
  ghost predicate Full(content: seq<byte>, segments: seq<LineSegment>, stop: nat) {
    forall s <- segments ::
      && s.byteOffset <= |content|
      && LastBorder(content, s.byteOffset,
                    Min(NextNewline(content, s.byteOffset), Min(s.byteOffset + LINE_SEGMENT_BYTES, stop)), End(s))
  }

  /** How many segments a page from `from` holds before `stop`, where no character may straddle `stop`. */
  function SegmentsBefore(content: seq<byte>, from: nat, stop: nat): nat
    requires stop <= |content|
    decreases stop - from
  {
    if from >= stop then 0
    else
      var available := Min(NextNewline(content, from), Min(from + LINE_SEGMENT_BYTES, stop));
      var end := Floor(content, from, available);
      if end == from < available then 0
      else 1 + SegmentsBefore(content, if end < stop && content[end] == NEWLINE then end + 1 else end, stop)
  }

  // ------------------------------------------------------------------ chains

  /** Pages as a client reads them: each from the cursor the previous one gave, with any limits. */
  ghost predicate Chain(content: seq<byte>, cursor: nat, pages: seq<LinePage>)
    decreases |pages|
  {
    pages == [] ||
    (&& PageOk(content, cursor, pages[0])
     && (|pages| > 1 ==> pages[0].nextCursor.Some?)
     && Chain(content, cursor + pages[0].bytesRead, pages[1..]))
  }

  function AllSegments(pages: seq<LinePage>): seq<LineSegment> {
    if pages == [] then [] else pages[0].segments + AllSegments(pages[1..])
  }

  /** Where reading stands after the pages. */
  function Reached(cursor: nat, pages: seq<LinePage>): nat
    decreases |pages|
  {
    if pages == [] then cursor else Reached(cursor + pages[0].bytesRead, pages[1..])
  }

  function Range(content: seq<byte>, segment: LineSegment): seq<byte> {
    if End(segment) <= |content| then content[segment.byteOffset..End(segment)] else []
  }

  /** Bytes of the segments' ranges, with one newline byte in each gap. */
  function Rebuild(content: seq<byte>, segments: seq<LineSegment>, next: nat): seq<byte>
    decreases |segments|
  {
    if segments == [] then []
    else
      var s := segments[0];
      Range(content, s) + (if After(segments, next) == End(s) then [] else [NEWLINE]) + Rebuild(content, segments[1..], next)
  }

  lemma {:induction false} TilesConcat(content: seq<byte>, a: seq<LineSegment>, b: seq<LineSegment>, from: nat, mid: nat, next: nat)
    requires Tiles(content, a, from, mid) && Tiles(content, b, mid, next)
    ensures Tiles(content, a + b, from, next)
    decreases |a|
  {
    hide SegmentOk;
    if a == [] {
      assert a + b == b;
    } else {
      assert (a + b)[1..] == a[1..] + b;
      TilesConcat(content, a[1..], b, After(a, mid), mid, next);
      if |a| == 1 && b != [] {
        assert b[0].byteOffset == mid;
      }
    }
  }

  lemma {:induction false} TilesElement(content: seq<byte>, segments: seq<LineSegment>, from: nat, next: nat, i: nat)
    requires Tiles(content, segments, from, next) && i < |segments|
    ensures SegmentOk(content, segments[i], if i + 1 < |segments| then segments[i + 1].byteOffset else next)
    decreases |segments|
  {
    if i > 0 {
      TilesElement(content, segments[1..], After(segments, next), next, i - 1);
    }
  }

  lemma TilesNone(content: seq<byte>, from: nat)
    requires from <= |content| && Boundary(content, from)
    ensures Tiles(content, [], from, from)
  {
  }

  lemma {:induction false} ChainTiles(content: seq<byte>, cursor: nat, pages: seq<LinePage>)
    requires Chain(content, cursor, pages) && cursor <= |content| && Boundary(content, cursor)
    ensures Tiles(content, AllSegments(pages), cursor, Reached(cursor, pages))
    ensures pages != [] && pages[|pages| - 1].nextCursor.None? ==> Reached(cursor, pages) == |content|
    decreases |pages|
  {
    hide Tiles;
    if pages == [] {
      TilesNone(content, cursor);
    } else {
      var mid := cursor + pages[0].bytesRead;
      TilesBounds(content, pages[0].segments, cursor, mid);
      ChainTiles(content, mid, pages[1..]);
      TilesConcat(content, pages[0].segments, AllSegments(pages[1..]), cursor, mid, Reached(cursor, pages));
    }
  }

  lemma {:induction false} TilesBounds(content: seq<byte>, segments: seq<LineSegment>, from: nat, next: nat)
    requires Tiles(content, segments, from, next)
    ensures from <= next <= |content| && Boundary(content, next)
    ensures forall s <- segments :: from <= s.byteOffset <= End(s) <= next
    decreases |segments|
  {
    if segments != [] {
      TilesBounds(content, segments[1..], After(segments, next), next);
      assert forall s <- segments :: s == segments[0] || s in segments[1..];
    }
  }

  lemma {:induction false} RebuildSlice(content: seq<byte>, segments: seq<LineSegment>, from: nat, next: nat)
    requires Tiles(content, segments, from, next)
    ensures from <= next <= |content| && forall s <- segments :: End(s) <= |content|
    ensures Rebuild(content, segments, next) == content[from..next]
    decreases |segments|
  {
    TilesBounds(content, segments, from, next);
    if segments != [] {
      var s, after := segments[0], After(segments, next);
      RebuildSlice(content, segments[1..], after, next);
      SliceInThree(content, from, End(s), after, next);
    }
  }

  lemma SliceInThree(content: seq<byte>, from: nat, end: nat, after: nat, next: nat)
    requires from <= end <= after <= next <= |content|
    requires after == end || (after == end + 1 && content[end] == NEWLINE)
    ensures content[from..next]
         == content[from..end] + (if after == end then [] else [NEWLINE]) + content[after..next]
  {
  }

  /** A chain read to its end rebuilds the whole content from its ranges and the newlines between them. */
  lemma ChainRebuilds(content: seq<byte>, pages: seq<LinePage>)
    requires Chain(content, 0, pages) && pages != [] && pages[|pages| - 1].nextCursor.None?
    requires Boundary(content, 0)
    ensures var all := AllSegments(pages);
            (forall s <- all :: End(s) <= |content|) && Rebuild(content, all, |content|) == content
  {
    ChainTiles(content, 0, pages);
    RebuildSlice(content, AllSegments(pages), 0, |content|);
  }

  lemma NeighbourFlags(content: seq<byte>, a: LineSegment, b: LineSegment, after: nat)
    requires SegmentOk(content, a, b.byteOffset) && SegmentOk(content, b, after)
    ensures a.continuesToNext == b.continuesFromPrevious
  {
    var from, end := a.byteOffset, End(a);
    if from < end {
      assert content[from..end][end - from - 1] == content[end - 1];
    }
  }

  /** Across segments and page borders: one continues exactly when the next one is continued. */
  lemma FlagsPair(content: seq<byte>, cursor: nat, pages: seq<LinePage>, i: nat)
    requires Chain(content, cursor, pages) && cursor <= |content| && Boundary(content, cursor)
    requires i + 1 < |AllSegments(pages)|
    ensures var all := AllSegments(pages); all[i].continuesToNext == all[i + 1].continuesFromPrevious
  {
    hide *;
    var all := AllSegments(pages);
    var next := Reached(cursor, pages);
    ChainTiles(content, cursor, pages);
    TilesElement(content, all, cursor, next, i);
    TilesElement(content, all, cursor, next, i + 1);
    NeighbourFlags(content, all[i], all[i + 1], if i + 2 < |all| then all[i + 2].byteOffset else next);
  }

  /** The cursor strictly increases from page to page, so every chain ends. */
  lemma {:induction false} CursorsIncrease(content: seq<byte>, cursor: nat, pages: seq<LinePage>, i: nat)
    requires Chain(content, cursor, pages) && cursor <= |content| && i + 1 < |pages|
    ensures pages[i].nextCursor == Some(pages[i + 1].offset) && pages[i].offset < pages[i + 1].offset
    decreases i
  {
    hide Tiles;
    TilesBounds(content, pages[0].segments, cursor, cursor + pages[0].bytesRead);
    if i > 0 {
      CursorsIncrease(content, cursor + pages[0].bytesRead, pages[1..], i - 1);
    }
  }

  /** A page read from the cursor of the last one extends the chain. */
  lemma {:induction false} NextPage(content: seq<byte>, cursor: nat, pages: seq<LinePage>, page: LinePage)
    requires Chain(content, cursor, pages) && pages != [] && cursor <= |content| && Boundary(content, cursor)
    requires pages[|pages| - 1].nextCursor.Some? && pages[|pages| - 1].nextCursor.value <= |content|
    requires PageOk(content, AlignUp(content, pages[|pages| - 1].nextCursor.value), page)
    ensures Chain(content, cursor, pages + [page])
    decreases |pages|
  {
    hide Tiles;
    var mid := cursor + pages[0].bytesRead;
    TilesBounds(content, pages[0].segments, cursor, mid);
    assert (pages + [page])[1..] == pages[1..] + [page];
    if |pages| == 1 {
      assert AlignUp(content, mid) == mid;
      assert pages[1..] + [page] == [page] && [page][1..] == [];
      assert Chain(content, mid, [page]);
    } else {
      NextPage(content, mid, pages[1..], page);
    }
  }
}

module ContentLines {
  import opened Bytes
  import opened Utf8
  import opened ContentModel
  import opened ContentStore
  import opened LineModel

  /** Continuation bytes at the front, looking at no more than `most`. */
  function Leading(bytes: seq<byte>, most: nat): (n: nat)
    ensures n <= most && n <= |bytes|
    ensures forall i :: 0 <= i < n ==> IsContinuation(bytes[i])
    ensures n < most && n < |bytes| ==> !IsContinuation(bytes[n])
  {
    if most == 0 || bytes == [] || !IsContinuation(bytes[0]) then 0 else 1 + Leading(bytes[1..], most - 1)
  }

  lemma LeadingAligns(content: seq<byte>, cursor: nat, length: nat)
    requires WellFormed(content) && cursor + length <= |content| && (length >= 3 || cursor + length == |content|)
    ensures cursor + Leading(content[cursor..cursor + length], 3) == AlignUp(content, cursor)
  {
    var window := content[cursor..cursor + length];
    var n := Leading(window, 3);
    forall k | cursor <= k < cursor + n ensures !Boundary(content, k) {
      assert window[k - cursor] == content[k];
    }
    if n < 3 && n < length { assert window[n] == content[cursor + n]; }
    if n == 3 && cursor + 3 < |content| {
      var b := BoundaryBelow(content, cursor + 3);
      assert b == cursor + 3;
    }
    assert Boundary(content, cursor + n);
  }

  /** `bytes` are the bytes of `content` from `page` on. */
  ghost predicate WindowAt(content: seq<byte>, page: nat, bytes: seq<byte>) {
    && page + |bytes| <= |content|
    && forall i :: 0 <= i < |bytes| ==> bytes[i] == content[page + i]
  }

  lemma WindowBound(content: seq<byte>, page: nat, bytes: seq<byte>)
    requires WindowAt(content, page, bytes)
    ensures page + |bytes| <= |content|
  {
  }

  lemma DropWindow(content: seq<byte>, offset: nat, window: seq<byte>, leading: nat)
    requires offset + |window| <= |content| && window == content[offset..offset + |window|] && leading <= |window|
    ensures WindowAt(content, offset + leading, window[leading..])
  {
  }

  lemma WindowSlice(content: seq<byte>, page: nat, bytes: seq<byte>, from: nat, to: nat)
    requires WindowAt(content, page, bytes) && from <= to <= |bytes|
    ensures bytes[from..to] == content[page + from..page + to]
  {
  }

  /** From a character border, valid text is what ends at a character border. */
  lemma PieceWellFormed(content: seq<byte>, p: nat, e: nat)
    requires WellFormed(content) && Boundary(content, p) && p <= e <= |content|
    ensures WellFormed(content[p..e]) <==> Boundary(content, e)
  {
    hide WellFormed;
    CutAtBoundary(content, p);
    var tail := content[p..];
    assert tail[..e - p] == content[p..e];
    assert Boundary(tail, e - p) <==> Boundary(content, e);
    if Boundary(content, e) {
      CutAtBoundary(tail, e - p);
    } else if WellFormed(content[p..e]) {
      PrefixEndsAtBoundary(tail, e - p);
    }
  }

  lemma {:induction false} LineStartAfter(content: seq<byte>, p: nat, e: nat)
    requires p <= e <= |content| && NEWLINE !in content[p..e]
    ensures LineStart(content, e) == LineStart(content, p)
    decreases e
  {
    if p < e {
      assert content[p..e][e - 1 - p] == content[e - 1];
      assert content[p..e - 1] <= content[p..e];
      LineStartAfter(content, p, e - 1);
    }
  }

  function LineStartIn(content: seq<byte>, page: nat, p: nat): Option<nat>
    requires p <= |content|
  {
    if LineStart(content, p) < page then None else Some(LineStart(content, p))
  }

  predicate Continued(content: seq<byte>, p: nat)
    requires p <= |content|
  {
    p > 0 && content[p - 1] != NEWLINE
  }

  /** The state of a page under way: `position` is the content position reached. */
  ghost predicate Paging(content: seq<byte>, page: nat, stop: nat, position: nat, segments: seq<LineSegment>,
                         continuation: bool, lineStart: Option<nat>)
  {
    && page <= position <= stop <= |content|
    && Boundary(content, position)
    && Tiles(content, segments, page, position)
    && (segments == [] <==> page == position)
    && continuation == Continued(content, position)
    && lineStart == LineStartIn(content, page, position)
    && (forall s <- segments :: s.byteOffset <= |content| && (s.lineStart.Some? <==> page <= LineStart(content, s.byteOffset)))
    && |segments| + SegmentsBefore(content, position, stop) == SegmentsBefore(content, page, stop)
    && Full(content, segments, stop)
  }

  /** Where the next segment ends when no newline, segment limit or stop comes first. */
  function Available(content: seq<byte>, position: nat, stop: nat): nat
    requires position <= |content|
  {
    Min(NextNewline(content, position), Min(position + LINE_SEGMENT_BYTES, stop))
  }

  lemma PagingBorder(content: seq<byte>, page: nat, stop: nat, position: nat, segments: seq<LineSegment>,
                     continuation: bool, lineStart: Option<nat>)
    requires Paging(content, page, stop, position, segments, continuation, lineStart)
    ensures position <= stop <= |content| && Boundary(content, position)
    ensures |segments| + SegmentsBefore(content, position, stop) == SegmentsBefore(content, page, stop)
  {
  }

  /** No character border lies between `position` and where the next segment would have to end. */
  ghost predicate Stuck(content: seq<byte>, position: nat, stop: nat) {
    && position < stop <= |content|
    && position < Available(content, position, stop)
    && Floor(content, position, Available(content, position, stop)) == position
  }

  /** A page can only get stuck at a character that straddles its stop. */
  lemma StuckAtStop(content: seq<byte>, position: nat, stop: nat, count: nat, before: nat)
    requires WellFormed(content) && Boundary(content, position) && Stuck(content, position, stop)
    requires count + SegmentsBefore(content, position, stop) == before
    ensures !Boundary(content, stop) && before == count
  {
    hide WellFormed;
    var available := Available(content, position, stop);
    var b := BoundaryBelow(content, available);
  }

  /** Dropping a carriage return from valid text leaves valid text. */
  lemma TextValid(content: seq<byte>, position: nat, end: nat, textEnd: nat)
    requires WellFormed(content) && Boundary(content, position) && Boundary(content, end)
    requires position <= textEnd <= end <= |content|
    requires textEnd == end || (textEnd == end - 1 && content[textEnd] == CARRIAGE_RETURN)
    ensures WellFormed(content[position..textEnd])
  {
    PieceWellFormed(content, position, textEnd);
  }

  /** The segment the page cuts next. */
  ghost predicate NextSegment(content: seq<byte>, stop: nat, position: nat, continuation: bool, lineStart: Option<nat>,
                              segment: LineSegment, after: nat)
    requires position <= stop <= |content|
  {
    var available := Available(content, position, stop);
    var end := Floor(content, position, available);
    && segment.byteOffset == position && End(segment) == end
    && (end == position ==> available == position)
    && after == (if end < stop && content[end] == NEWLINE then end + 1 else end)
    && segment.lineStart == lineStart && segment.continuesFromPrevious == continuation
    && segment.continuesToNext == (after == end < |content|)
    && segment.text == content[position..if after > end > position && content[end - 1] == CARRIAGE_RETURN then end - 1 else end]
  }

  lemma NextSegmentOk(content: seq<byte>, page: nat, stop: nat, position: nat, segment: LineSegment, after: nat)
    requires WellFormed(content) && Boundary(content, position) && page <= position < stop <= |content|
    requires NextSegment(content, stop, position, Continued(content, position), LineStartIn(content, page, position), segment, after)
    ensures SegmentOk(content, segment, after) && Boundary(content, after) && position < after <= stop
  {
    hide WellFormed, LineStart;
    var end := End(segment);
    assert NEWLINE !in content[position..end];
    if after > end { BoundaryAfterNewline(content, end); }
  }

  lemma NextState(content: seq<byte>, page: nat, position: nat, segment: LineSegment, after: nat)
    requires SegmentOk(content, segment, after) && page <= position == segment.byteOffset
    requires segment.lineStart == LineStartIn(content, page, position)
    ensures Continued(content, after) == (after == End(segment))
    ensures LineStartIn(content, page, after) == if after == End(segment) then segment.lineStart else Some(after)
  {
    hide Boundary;
    var end := End(segment);
    if after == end {
      assert content[position..end][end - 1 - position] == content[end - 1];
      LineStartAfter(content, position, end);
    }
  }

  lemma OneMoreSegment(content: seq<byte>, stop: nat, position: nat, continuation: bool, lineStart: Option<nat>,
                       segment: LineSegment, after: nat)
    requires position < stop <= |content| && NextSegment(content, stop, position, continuation, lineStart, segment, after)
    ensures SegmentsBefore(content, position, stop) == 1 + SegmentsBefore(content, after, stop)
  {
    hide NextNewline, Floor;
  }

  lemma AddSegment(content: seq<byte>, page: nat, stop: nat, position: nat, segments: seq<LineSegment>,
                   continuation: bool, lineStart: Option<nat>, segment: LineSegment, after: nat)
    requires WellFormed(content) && Paging(content, page, stop, position, segments, continuation, lineStart)
    requires position < stop && NextSegment(content, stop, position, continuation, lineStart, segment, after)
    ensures Paging(content, page, stop, after, segments + [segment], after == End(segment),
                   if after == End(segment) then lineStart else Some(after))
  {
    hide WellFormed, SegmentOk, Boundary, Floor, LineStart, Tiles, NextSegment, SegmentsBefore, Available, Continued, Full;
    NextSegmentFull(content, stop, position, segments, continuation, lineStart, segment, after);
    NextSegmentOk(content, page, stop, position, segment, after);
    OneMoreSegment(content, stop, position, continuation, lineStart, segment, after);
    LineStartOfNext(content, page, stop, position, segment, continuation, lineStart, after);
    NextState(content, page, position, segment, after);
    TilesOne(content, segment, after);
    TilesConcat(content, segments, [segment], page, position, after);
    forall s <- segments + [segment]
      ensures s.byteOffset <= |content| && (s.lineStart.Some? <==> page <= LineStart(content, s.byteOffset)) {}
  }

  lemma NextSegmentFull(content: seq<byte>, stop: nat, position: nat, segments: seq<LineSegment>, continuation: bool,
                        lineStart: Option<nat>, segment: LineSegment, after: nat)
    requires position < stop <= |content| && Boundary(content, position) && Full(content, segments, stop)
    requires NextSegment(content, stop, position, continuation, lineStart, segment, after)
    ensures Full(content, segments + [segment], stop)
  {
    hide NextNewline, Floor, Boundary;
  }

  lemma LineStartOfNext(content: seq<byte>, page: nat, stop: nat, position: nat, segment: LineSegment,
                        continuation: bool, lineStart: Option<nat>, after: nat)
    requires position <= stop <= |content|
    requires NextSegment(content, stop, position, continuation, lineStart, segment, after)
    ensures segment.byteOffset == position && segment.lineStart == lineStart
  {
  }

  lemma TilesOne(content: seq<byte>, segment: LineSegment, after: nat)
    requires SegmentOk(content, segment, after) && Boundary(content, after)
    ensures Tiles(content, [segment], segment.byteOffset, after)
  {
    TilesNone(content, after);
    assert [segment][1..] == [];
  }

  lemma PagingStart(content: seq<byte>, page: nat, stop: nat)
    requires page <= stop <= |content| && Boundary(content, page)
    ensures Paging(content, page, stop, page, [], Continued(content, page), if Continued(content, page) then None else Some(page))
  {
  }

  lemma PagingDone(content: seq<byte>, page: nat, stop: nat, position: nat, segments: seq<LineSegment>,
                   continuation: bool, lineStart: Option<nat>, maximum: nat, r: LinePage)
    requires Paging(content, page, stop, position, segments, continuation, lineStart)
    requires position >= stop || |segments| >= maximum
    requires |segments| <= maximum <= 1000 && maximum > 0 && stop <= page + LINE_PAGE_BYTES && (page < |content| ==> page < stop)
    requires r == LinePage(page, position - page, segments, if page > 0 then Some(SaturatingSub(page, LINE_PAGE_BYTES)) else None,
                           if position >= |content| then None else Some(position), position >= |content|)
    ensures PageOk(content, page, r) && EndsAt(content, page, stop, maximum, r)
    ensures Boundary(content, stop) || SegmentsBefore(content, page, stop) >= maximum
  {
    hide Tiles, LineStart, Boundary, SegmentsBefore, Continued, LineStartIn, Full;
  }

  /** A page ends only at its stop or when it holds as many segments as asked for. */
  ghost predicate EndsAt(content: seq<byte>, page: nat, stop: nat, maximum: nat, r: LinePage) {
    && Full(content, r.segments, stop)
    && |r.segments| <= maximum && (page + r.bytesRead == stop || |r.segments| == maximum)
  }

  /** The longest valid piece of `bytes[from..to]` that starts at `from`. */
  method ValidEnd(bytes: seq<byte>, from: nat, to: nat, ghost content: seq<byte>, ghost page: nat) returns (end: nat)
    requires from <= to <= |bytes| && WindowAt(content, page, bytes)
    ensures from <= end <= to
    ensures WellFormed(content) && Boundary(content, page + from) ==> page + end == Floor(content, page + from, page + to)
  {
    hide WellFormed;
    end := to;
    while end > from && !WellFormed(bytes[from..end])
      invariant from <= end <= to
      invariant WellFormed(content) && Boundary(content, page + from) ==>
        Floor(content, page + from, page + end) == Floor(content, page + from, page + to)
    {
      if WellFormed(content) && Boundary(content, page + from) {
        PieceWellFormed(content, page + from, page + end);
        WindowSlice(content, page, bytes, from, end);
      }
      end := end - 1;
    }
    if WellFormed(content) && Boundary(content, page + from) {
      PieceWellFormed(content, page + from, page + end);
      WindowSlice(content, page, bytes, from, end);
    }
  }

  /** Whether the piece up to `end` is ended by a newline inside the page's budget. */
  predicate Reaches(bytes: seq<byte>, budget: nat, consumed: nat, end: nat)
    requires consumed <= budget <= |bytes|
  {
    var newline := NextNewline(bytes[..budget], consumed);
    newline < budget && newline == end
  }

  function Piece(bytes: seq<byte>, budget: nat, page: nat, size: nat, consumed: nat, end: nat, continuation: bool,
                 lineStart: Option<nat>): LineSegment
    requires consumed <= end <= budget <= |bytes|
  {
    var reaches := Reaches(bytes, budget, consumed, end);
    var textEnd := if reaches && end > consumed && bytes[end - 1] == CARRIAGE_RETURN then end - 1 else end;
    LineSegment(page + consumed, end - consumed, lineStart, bytes[consumed..textEnd], continuation,
                !reaches && page + end < size)
  }

  lemma WindowByte(content: seq<byte>, page: nat, bytes: seq<byte>, i: nat)
    requires WindowAt(content, page, bytes) && i < |bytes|
    ensures page + i < |content| && bytes[i] == content[page + i]
  {
  }

  /** The piece is ended by a newline exactly when one follows it inside the budget. */
  lemma ReachesNewline(content: seq<byte>, page: nat, bytes: seq<byte>, budget: nat, consumed: nat, end: nat)
    requires WindowAt(content, page, bytes) && consumed < budget <= |bytes| && consumed <= end <= budget
    requires page + budget <= |content| && page + end <= Available(content, page + consumed, page + budget)
    ensures Reaches(bytes, budget, consumed, end) <==> end < budget && content[page + end] == NEWLINE
  {
    hide WindowAt;
    NewlineInWindow(content, page, bytes, budget, consumed);
    if end < budget {
      WindowByte(content, page, bytes, end);
      assert bytes[..budget][end] == bytes[end];
    }
  }

  lemma PieceIsNext(content: seq<byte>, page: nat, bytes: seq<byte>, budget: nat, consumed: nat, end: nat,
                    continuation: bool, lineStart: Option<nat>)
    requires WindowAt(content, page, bytes) && consumed < budget <= |bytes| && consumed <= end <= budget
    requires WellFormed(content) && Boundary(content, page + consumed)
    requires page + end == Floor(content, page + consumed, Available(content, page + consumed, page + budget))
    requires end == consumed ==> Available(content, page + consumed, page + budget) == page + consumed
    ensures NextSegment(content, page + budget, page + consumed, continuation, lineStart,
                        Piece(bytes, budget, page, |content|, consumed, end, continuation, lineStart),
                        page + if Reaches(bytes, budget, consumed, end) then end + 1 else end)
  {
    hide Floor, WellFormed, Boundary, Available, Reaches, WindowAt;
    WindowBound(content, page, bytes);
    ReachesNewline(content, page, bytes, budget, consumed, end);
    if end > consumed {
      WindowByte(content, page, bytes, end - 1);
    }
    var reaches := Reaches(bytes, budget, consumed, end);
    var textEnd := if reaches && end > consumed && bytes[end - 1] == CARRIAGE_RETURN then end - 1 else end;
    WindowSlice(content, page, bytes, consumed, textEnd);
  }

  lemma PieceValid(content: seq<byte>, page: nat, bytes: seq<byte>, budget: nat, consumed: nat, end: nat,
                   continuation: bool, lineStart: Option<nat>)
    requires WindowAt(content, page, bytes) && consumed < budget <= |bytes| && consumed <= end <= budget
    requires WellFormed(content) && Boundary(content, page + consumed)
    requires page + end == Floor(content, page + consumed, Available(content, page + consumed, page + budget))
    ensures WellFormed(Piece(bytes, budget, page, |content|, consumed, end, continuation, lineStart).text)
  {
    hide WellFormed, Reaches, Available;
    var reaches := Reaches(bytes, budget, consumed, end);
    var textEnd := if reaches && end > consumed && bytes[end - 1] == CARRIAGE_RETURN then end - 1 else end;
    WindowSlice(content, page, bytes, consumed, textEnd);
    TextValid(content, page + consumed, page + end, page + textEnd);
  }

  /** The next segment of a page, and where the one after it starts. */
  method CutSegment(bytes: seq<byte>, budget: nat, page: nat, size: nat, consumed: nat, continuation: bool,
                    lineStart: Option<nat>, ghost content: seq<byte>)
    returns (r: Result<LineSegment, StoreError>, next: nat)
    requires WindowAt(content, page, bytes) && |content| == size && consumed < budget <= |bytes|
    ensures r.Ok? ==> consumed < next <= budget
    ensures WellFormed(content) && Boundary(content, page + consumed) ==>
              if r.Ok? then NextSegment(content, page + budget, page + consumed, continuation, lineStart, r.value, page + next)
              else Stuck(content, page + consumed, page + budget)
    ensures r.Err? ==> r.error == NotUtf8
  {
    hide WellFormed, Floor, Boundary, NextSegment, Piece, WindowAt;
    next := consumed;
    WindowBound(content, page, bytes);
    var available := Min(NextNewline(bytes[..budget], consumed) - consumed, LINE_SEGMENT_BYTES);
    NewlineInWindow(content, page, bytes, budget, consumed);
    var end := ValidEnd(bytes, consumed, consumed + available, content, page);
    if end == consumed && available > 0 { return Err(NotUtf8), next; }
    var segment := Piece(bytes, budget, page, size, consumed, end, continuation, lineStart);
    if WellFormed(content) && Boundary(content, page + consumed) {
      PieceValid(content, page, bytes, budget, consumed, end, continuation, lineStart);
      PieceIsNext(content, page, bytes, budget, consumed, end, continuation, lineStart);
    }
    if !WellFormed(segment.text) { return Err(NotUtf8), next; }
    next := if Reaches(bytes, budget, consumed, end) then end + 1 else end;
    r := Ok(segment);
  }

  method CutSegments(bytes: seq<byte>, budget: nat, page: nat, size: nat, maximum: nat, continued: bool,
                     ghost content: seq<byte>, ghost good: bool) returns (r: Result<LinePage, StoreError>)
    requires WindowAt(content, page, bytes) && |content| == size
    requires budget <= |bytes| && budget <= LINE_PAGE_BYTES && 0 < maximum <= 1000
    requires good ==> WellFormed(content) && Boundary(content, page) && (page < size ==> 0 < budget)
                      && continued == Continued(content, page)
    ensures r.Ok? ==> |r.value.segments| <= maximum
    ensures good ==> (r.Ok? <==> Boundary(content, page + budget) || SegmentsBefore(content, page, page + budget) >= maximum)
    ensures good && r.Ok? ==> PageOk(content, page, r.value) && EndsAt(content, page, page + budget, maximum, r.value)
    ensures r.Err? ==> r.error == NotUtf8
  {
    hide *;
    ghost var stop := page + budget;
    var continuation := continued;
    var lineStart: Option<nat> := if continuation then None else Some(page);
    var segments: seq<LineSegment> := [];
    var consumed := 0;
    WindowBound(content, page, bytes);
    if good { PagingStart(content, page, stop); }
    while consumed < budget && |segments| < maximum
      invariant 0 <= consumed <= budget && |segments| <= maximum
      invariant good ==> Paging(content, page, stop, page + consumed, segments, continuation, lineStart)
      decreases budget - consumed
    {
      if good { PagingBorder(content, page, stop, page + consumed, segments, continuation, lineStart); }
      var segment, next := CutSegment(bytes, budget, page, size, consumed, continuation, lineStart, content);
      if segment.Err? {
        if good { StuckAtStop(content, page + consumed, stop, |segments|, SegmentsBefore(content, page, stop)); }
        return Err(segment.error);
      }
      if good {
        AddSegment(content, page, stop, page + consumed, segments, continuation, lineStart, segment.value, page + next);
      }
      continuation := page + next == End(segment.value);
      lineStart := if continuation then lineStart else Some(page + next);
      segments := segments + [segment.value];
      consumed := next;
    }
    var next := page + consumed;
    var complete := next >= size;
    r := Ok(LinePage(page, consumed, segments, if page > 0 then Some(SaturatingSub(page, LINE_PAGE_BYTES)) else None,
                     if complete then None else Some(next), complete));
    if good { PagingDone(content, page, stop, next, segments, continuation, lineStart, maximum, r.value); }
  }

  /** The bytes of a page start at the next character border and reach the page's stop. */
  ghost predicate Opened(limits: Limits, content: seq<byte>, offset: nat, page: nat, bytes: seq<byte>) {
    && offset <= |content| && page == AlignUp(content, offset) && Boundary(content, page)
    && (page < |content| ==> bytes != [])
    && page + Min(|bytes|, LINE_PAGE_BYTES) == StopOf(limits, |content|, offset, page)
  }

  lemma OpenedBy(limits: Limits, content: seq<byte>, offset: nat, window: seq<byte>)
    requires WellFormed(content) && limits.maxWindowBytes >= 4 && offset < |content|
    requires var requested := Min(|content| - offset, Min(LINE_PAGE_BYTES + 4, limits.maxWindowBytes));
             window == content[offset..Min(offset + requested, |content|)]
    ensures Opened(limits, content, offset, offset + Leading(window, 3), window[Leading(window, 3)..])
  {
    hide WellFormed, Leading, AlignUp, Boundary;
    LeadingAligns(content, offset, |window|);
    assert offset + |window| <= |content|;
  }

  lemma PreviousByte(content: seq<byte>, page: nat, previous: seq<byte>)
    requires 0 < page <= |content| && previous == content[page - 1..Min(page, |content|)]
    ensures (previous != [] && previous[0] != NEWLINE) == Continued(content, page)
  {
  }

  /** Whether a page at `offset` begins inside a line. */
  method ContinuesLine(store: ResponseContentStore, id: string, offset: nat) returns (r: Result<bool, StoreError>)
    requires store.Valid() && store.Readable(id) && offset <= |store.BytesOf(id)|
    ensures r.Ok? ==> r.value == Continued(store.BytesOf(id), offset)
    ensures offset == 0 || store.limits.maxWindowBytes > 0 ==> r.Ok?
  {
    hide Good;
    if offset == 0 { return Ok(false); }
    var previous := store.ReadWindow(id, offset - 1, 1);
    if previous.Err? { return Err(previous.error); }
    PreviousByte(store.BytesOf(id), offset, previous.value);
    r := Ok(previous.value != [] && previous.value[0] != NEWLINE);
  }

  /** Reads the bytes of a page, from the first character border in them, and whether its first line is continued. */
  method OpenPage(store: ResponseContentStore, id: string, offset: nat)
    returns (r: Result<seq<byte>, StoreError>, page: nat, continuation: bool)
    requires store.Valid() && store.Readable(id) && offset < store.contents[id].byteLength
    ensures r.Ok? ==> page <= |store.BytesOf(id)| && WindowAt(store.BytesOf(id), page, r.value)
                      && continuation == Continued(store.BytesOf(id), page)
    ensures WellFormed(store.BytesOf(id)) && store.limits.maxWindowBytes >= 4 ==>
              r.Ok? && Opened(store.limits, store.BytesOf(id), offset, page, r.value)
  {
    hide WellFormed, AlignUp, Good, Leading, WindowAt, Opened, Continued;
    page, continuation := offset, false;
    var size := store.contents[id].byteLength;
    ghost var content := store.BytesOf(id);
    var requested := Min(size - offset, Min(LINE_PAGE_BYTES + 4, store.limits.maxWindowBytes));
    var window := store.ReadWindow(id, offset, requested);
    if window.Err? { return window, page, continuation; }
    var leading := Leading(window.value, 3);
    page := offset + leading;
    if WellFormed(content) && store.limits.maxWindowBytes >= 4 { OpenedBy(store.limits, content, offset, window.value); }
    DropWindow(content, offset, window.value, leading);
    var inside := ContinuesLine(store, id, page);
    if inside.Err? { return Err(inside.error), page, continuation; }
    continuation := inside.value;
    r := Ok(window.value[leading..]);
  }

  /** A page request on valid text: it succeeds exactly when no character straddles the page's stop, or the
      segment limit is reached before that matters; then the page starts at the next character border. */
  ghost predicate LinesResult(limits: Limits, content: seq<byte>, offset: nat, limit: nat, r: Result<LinePage, StoreError>) {
    if offset > |content| then r == Err(InvalidCursor)
    else
      var from := AlignUp(content, offset);
      var stop := StopOf(limits, |content|, offset, from);
      && from <= stop <= |content|
      && (r.Ok? <==> Boundary(content, stop) || SegmentsBefore(content, from, stop) >= Clamp(limit))
      && (r.Ok? ==> PageOk(content, from, r.value) && EndsAt(content, from, stop, Clamp(limit), r.value))
      && (r.Err? ==> r.error == NotUtf8)
  }

  lemma LastPage(limits: Limits, content: seq<byte>, limit: nat)
    ensures LinesResult(limits, content, |content|, limit,
                        Ok(LinePage(|content|, 0, [], if |content| > 0 then Some(SaturatingSub(|content|, LINE_PAGE_BYTES)) else None,
                                    None, true)))
  {
    TilesNone(content, |content|);
  }

  lemma LinesDone(limits: Limits, content: seq<byte>, offset: nat, limit: nat, page: nat, bytes: seq<byte>, budget: nat,
                  r: Result<LinePage, StoreError>)
    requires WindowAt(content, page, bytes) && Opened(limits, content, offset, page, bytes)
    requires budget == Min(|bytes|, LINE_PAGE_BYTES)
    requires r.Ok? <==> Boundary(content, page + budget) || SegmentsBefore(content, page, page + budget) >= Clamp(limit)
    requires r.Ok? ==> PageOk(content, page, r.value) && EndsAt(content, page, page + budget, Clamp(limit), r.value)
    requires r.Err? ==> r.error == NotUtf8
    ensures LinesResult(limits, content, offset, limit, r)
  {
    hide PageOk, SegmentsBefore, EndsAt;
  }

  method ReadLines(store: ResponseContentStore, id: string, cursor: Option<nat>, limit: nat)
    returns (r: Result<LinePage, StoreError>)
    requires store.Valid()
    ensures r.Ok? ==> store.Readable(id) && |r.value.segments| <= Clamp(limit)
    ensures store.Readable(id) && WellFormed(store.BytesOf(id)) && store.limits.maxWindowBytes >= 4 ==>
      LinesResult(store.limits, store.BytesOf(id), if cursor.None? then 0 else cursor.value, limit, r)
  {
    hide LinesResult, WellFormed, Good, PageOk, EndsAt, AlignUp, StopOf, SegmentsBefore, WindowAt, Continued;
    var offset := if cursor.None? then 0 else cursor.value;
    var reference := store.Reference(id);
    if reference.Err? { return Err(reference.error); }
    if reference.value.state == Staging { return Err(Incomplete); }
    var size := reference.value.byteLength;
    ghost var content := store.BytesOf(id);
    ghost var good := WellFormed(content) && store.limits.maxWindowBytes >= 4;
    if offset > size {
      BeyondEnd(store.limits, content, offset, limit);
      return Err(InvalidCursor);
    }
    if offset == size {
      LastPage(store.limits, content, limit);
      return Ok(LinePage(offset, 0, [], if offset > 0 then Some(SaturatingSub(offset, LINE_PAGE_BYTES)) else None, None, true));
    }
    var bytes, page, continuation := OpenPage(store, id, offset);
    if bytes.Err? { return Err(bytes.error); }
    var budget := Min(|bytes.value|, LINE_PAGE_BYTES);
    WindowBound(content, page, bytes.value);
    r := CutSegments(bytes.value, budget, page, size, Clamp(limit), continuation, content, good);
    if good { LinesDone(store.limits, content, offset, limit, page, bytes.value, budget, r); }
  }

  lemma BeyondEnd(limits: Limits, content: seq<byte>, offset: nat, limit: nat)
    requires offset > |content|
    ensures LinesResult(limits, content, offset, limit, Err(InvalidCursor))
  {
  }

  /** Where a page stops at the latest. */
  function StopOf(limits: Limits, size: nat, offset: nat, page: nat): int
    requires offset <= size
  {
    var requested := Min(size - offset, Min(LINE_PAGE_BYTES + 4, limits.maxWindowBytes));
    page + Min(requested - (page - offset), LINE_PAGE_BYTES)
  }

  lemma NewlineInWindow(content: seq<byte>, page: nat, bytes: seq<byte>, budget: nat, consumed: nat)
    requires WindowAt(content, page, bytes)
    requires consumed < budget <= |bytes|
    ensures Min(page + NextNewline(bytes[..budget], consumed), page + consumed + LINE_SEGMENT_BYTES)
         == Available(content, page + consumed, page + budget)
    ensures NextNewline(bytes[..budget], consumed) < budget ==>
              page + NextNewline(bytes[..budget], consumed) == NextNewline(content, page + consumed)
  {
    var window := bytes[..budget];
    var k := NextNewline(window, consumed);
    var n := NextNewline(content, page + consumed);
    assert forall j :: page + consumed <= j < page + k ==> content[j] == window[j - page];
    if k < budget {
      assert content[page + k] == NEWLINE;
      NextNewlineUnique(content, page + consumed, page + k);
    } else {
      assert forall j :: page + consumed <= j < page + budget ==> content[j] != NEWLINE;
    }
  }
}

/** Well-formed text that a line page cannot be read from. */
module ContentLinesLimit {
  import opened Bytes
  import opened Utf8
  import opened ContentModel
  import opened LineModel
  import opened ContentLines

  /** Letters up to one byte before the page budget, then a character of two bytes. */
  function Straddling(): seq<byte> {
    seq(LINE_PAGE_BYTES - 1, _ => 0x61) + [0xC3, 0xA9]
  }

  lemma LetterIsCharacter()
    ensures CharLength([0x61]) == 1 && CharLength([0xC3, 0xA9]) == 2
  {
  }

  lemma {:induction false} LettersWellFormed(n: nat, tail: seq<byte>)
    requires WellFormed(tail)
    ensures WellFormed(seq(n, _ => 0x61 as byte) + tail)
  {
    hide WellFormed, CharLength;
    LetterIsCharacter();
    if n == 0 {
      assert seq(n, _ => 0x61 as byte) + tail == tail;
    } else {
      LettersWellFormed(n - 1, tail);
      PrependChar([0x61], seq(n - 1, _ => 0x61 as byte) + tail);
      assert seq(n, _ => 0x61 as byte) + tail == [0x61] + (seq(n - 1, _ => 0x61 as byte) + tail);
    }
  }

  lemma StraddlingShape()
    ensures |Straddling()| == LINE_PAGE_BYTES + 1
    ensures forall i :: 0 <= i < LINE_PAGE_BYTES ==> Boundary(Straddling(), i) && Straddling()[i] != NEWLINE
    ensures !Boundary(Straddling(), LINE_PAGE_BYTES)
  {
  }

  /** Segments are full, but for the last one, which stops before the straddling character. */
  lemma CutEnd(from: nat)
    requires from < LINE_PAGE_BYTES
    ensures |Straddling()| == LINE_PAGE_BYTES + 1
    ensures NextNewline(Straddling(), from) >= LINE_PAGE_BYTES
    ensures
      var end := Min(from + LINE_SEGMENT_BYTES, LINE_PAGE_BYTES - 1);
      Floor(Straddling(), from, Min(from + LINE_SEGMENT_BYTES, LINE_PAGE_BYTES)) == end && Straddling()[end] != NEWLINE
  {
    hide Straddling;
    StraddlingShape();
    hide Boundary;
    var content := Straddling();
    assert NextNewline(content, from) >= LINE_PAGE_BYTES;
    var end := Min(from + LINE_SEGMENT_BYTES, LINE_PAGE_BYTES - 1);
    assert Boundary(content, end);
  }

  lemma NextCut(from: nat)
    requires from < LINE_PAGE_BYTES
    ensures |Straddling()| == LINE_PAGE_BYTES + 1
    ensures SegmentsBefore(Straddling(), from, LINE_PAGE_BYTES) ==
      if from == LINE_PAGE_BYTES - 1 then 0
      else 1 + SegmentsBefore(Straddling(), Min(from + LINE_SEGMENT_BYTES, LINE_PAGE_BYTES - 1), LINE_PAGE_BYTES)
  {
    hide Straddling, NextNewline, Floor;
    CutEnd(from);
  }

  lemma {:induction false} FewSegments(from: nat)
    requires from < LINE_PAGE_BYTES
    ensures |Straddling()| == LINE_PAGE_BYTES + 1
    ensures SegmentsBefore(Straddling(), from, LINE_PAGE_BYTES) * LINE_SEGMENT_BYTES < LINE_PAGE_BYTES - from + LINE_SEGMENT_BYTES
    decreases LINE_PAGE_BYTES - from
  {
    hide Straddling, SegmentsBefore;
    NextCut(from);
    if from + LINE_SEGMENT_BYTES < LINE_PAGE_BYTES - 1 {
      FewSegments(from + LINE_SEGMENT_BYTES);
    } else if from < LINE_PAGE_BYTES - 1 {
      NextCut(LINE_PAGE_BYTES - 1);
    }
  }

  lemma StraddlingWellFormed()
    ensures WellFormed(Straddling())
  {
    hide WellFormed, CharLength;
    LetterIsCharacter();
    EmptyWellFormed();
    PrependChar([0xC3, 0xA9], []);
    assert [0xC3, 0xA9] + [] == [0xC3, 0xA9 as byte];
    LettersWellFormed(LINE_PAGE_BYTES - 1, [0xC3, 0xA9]);
    assert Straddling() == seq(LINE_PAGE_BYTES - 1, _ => 0x61 as byte) + [0xC3, 0xA9];
  }

  lemma StraddlingStop(limits: Limits)
    requires limits.maxWindowBytes >= LINE_PAGE_BYTES
    ensures AlignUp(Straddling(), 0) == 0 && |Straddling()| == LINE_PAGE_BYTES + 1
    ensures StopOf(limits, |Straddling()|, 0, 0) == LINE_PAGE_BYTES
    ensures SegmentsBefore(Straddling(), 0, LINE_PAGE_BYTES) <= 12
  {
    hide SegmentsBefore, Straddling;
    StraddlingShape();
    FewSegments(0);
  }

  /** Reading lines is not total on well-formed text: this page fails for every usual limit. */
  lemma WellFormedTextCanFail(limits: Limits, limit: nat, r: Result<LinePage, StoreError>)
    requires limits.maxWindowBytes >= LINE_PAGE_BYTES && limit > 12
    requires LinesResult(limits, Straddling(), 0, limit, r)
    ensures WellFormed(Straddling()) && r == Err(NotUtf8)
  {
    hide PageOk, SegmentsBefore, Straddling, AlignUp, StopOf, WellFormed, Boundary;
    StraddlingWellFormed();
    StraddlingShape();
    StraddlingStop(limits);
  }
}
