/** Paged literal search over windows of a content. */
module SearchModel {
  import opened Bytes

  const SEARCH_WINDOW_BYTES := 4 * 1024 * 1024
  const SEARCH_MAX_PATTERN_BYTES := 4 * 1024
  const SEARCH_MAX_MATCH_BYTES := 64 * 1024
  const SEARCH_PAGE_MATCHES := 1000

  datatype SearchPage = SearchPage(matches: seq<nat>, nextCursor: Option<nat>, totalKnown: Option<nat>)

  predicate Occurs(s: seq<byte>, pattern: seq<byte>, p: nat) {
    p + |pattern| <= |s| && s[p..p + |pattern|] == pattern
  }

  /** The leftmost occurrence at or after `from`: what the expression engine finds next. */
  function FindNext(s: seq<byte>, pattern: seq<byte>, from: nat): (found: Option<nat>)
    ensures found.Some? ==> from <= found.value && Occurs(s, pattern, found.value)
    ensures forall p :: from <= p < (if found.Some? then found.value else |s| + 1) ==> !Occurs(s, pattern, p)
    decreases |s| - from
  {
    if from + |pattern| > |s| then None
    else if Occurs(s, pattern, from) then Some(from)
    else FindNext(s, pattern, from + 1)
  }

  /** No proper prefix of the pattern is also its suffix. */
  ghost predicate BorderFree(pattern: seq<byte>) {
    forall k :: 0 < k < |pattern| ==> pattern[..k] != pattern[|pattern| - k..]
  }

  predicate Increasing(matches: seq<nat>) {
    forall i, j :: 0 <= i < j < |matches| ==> matches[i] < matches[j]
  }

  ghost predicate AllOccur(content: seq<byte>, pattern: seq<byte>, start: nat, matches: seq<nat>) {
    forall i :: 0 <= i < |matches| ==> start <= matches[i] && Occurs(content, pattern, matches[i])
  }

  /** Position `p` is reported, or overlaps a reported position. */
  ghost predicate Covered(pattern: seq<byte>, matches: seq<nat>, p: nat) {
    exists i :: 0 <= i < |matches| && matches[i] < p + |pattern| && p < matches[i] + |pattern|
  }

  ghost predicate CoversUpTo(content: seq<byte>, pattern: seq<byte>, start: nat, matches: seq<nat>, bound: nat) {
    forall p :: start <= p < bound && Occurs(content, pattern, p) ==> Covered(pattern, matches, p)
  }

  ghost predicate PageOk(content: seq<byte>, pattern: seq<byte>, start: nat, limit: nat, page: SearchPage) {
    && Increasing(page.matches) && |page.matches| <= limit
    && AllOccur(content, pattern, start, page.matches)
    && (match page.nextCursor
        case None => CoversUpTo(content, pattern, start, page.matches, |content|)
        case Some(next) =>
          && 0 < |page.matches| == limit && start < next <= |content|
          && next == page.matches[|page.matches| - 1] + |pattern|
          && CoversUpTo(content, pattern, start, page.matches, next))
    && page.totalKnown == (if start == 0 && page.nextCursor.None? then Some(|page.matches|) else None)
  }

  // ------------------------------------------------------------------ chains

  ghost predicate Chain(content: seq<byte>, pattern: seq<byte>, start: nat, limit: nat, pages: seq<SearchPage>)
    decreases |pages|
  {
    && pages != []
    && PageOk(content, pattern, start, limit, pages[0])
    && (pages[0].nextCursor.None? <==> |pages| == 1)
    && (|pages| > 1 ==> limit > 0 && Chain(content, pattern, pages[0].nextCursor.value, limit, pages[1..]))
  }

  function AllMatches(pages: seq<SearchPage>): seq<nat> {
    if pages == [] then [] else pages[0].matches + AllMatches(pages[1..])
  }

  lemma CoveredMore(pattern: seq<byte>, a: seq<nat>, b: seq<nat>, p: nat)
    requires Covered(pattern, a, p) || Covered(pattern, b, p)
    ensures Covered(pattern, a + b, p)
  {
    if Covered(pattern, a, p) {
      var i :| 0 <= i < |a| && a[i] < p + |pattern| && p < a[i] + |pattern|;
      assert (a + b)[i] == a[i];
    } else {
      var i :| 0 <= i < |b| && b[i] < p + |pattern| && p < b[i] + |pattern|;
      assert (a + b)[|a| + i] == b[i];
    }
  }

  /** A chain of pages reports strictly increasing true occurrences, and every occurrence is reported or
      overlaps a reported one. */
  lemma {:induction false} ChainCovers(content: seq<byte>, pattern: seq<byte>, start: nat, limit: nat, pages: seq<SearchPage>)
    requires pattern != [] && Chain(content, pattern, start, limit, pages)
    ensures Increasing(AllMatches(pages)) && AllOccur(content, pattern, start, AllMatches(pages))
    ensures CoversUpTo(content, pattern, start, AllMatches(pages), |content|)
    decreases |pages|
  {
    var first := pages[0].matches;
    if |pages| == 1 {
      assert pages[1..] == [] && AllMatches(pages) == first;
    } else {
      var next := pages[0].nextCursor.value;
      var rest := AllMatches(pages[1..]);
      ChainCovers(content, pattern, next, limit, pages[1..]);
      ConcatCovers(content, pattern, start, next, first, rest);
    }
  }

  lemma ConcatIncreases(content: seq<byte>, pattern: seq<byte>, start: nat, next: nat, a: seq<nat>, b: seq<nat>)
    requires Increasing(a) && Increasing(b) && AllOccur(content, pattern, start, a) && AllOccur(content, pattern, next, b)
    requires start < next && a != [] && next == a[|a| - 1] + |pattern| && pattern != []
    ensures Increasing(a + b) && AllOccur(content, pattern, start, a + b)
  {
    hide Occurs;
    forall i, j | 0 <= i < j < |a + b| ensures (a + b)[i] < (a + b)[j] {
      if i < |a| <= j {
        assert a[i] <= a[|a| - 1] && next <= b[j - |a|];
      }
    }
  }

  lemma ConcatCovers(content: seq<byte>, pattern: seq<byte>, start: nat, next: nat, a: seq<nat>, b: seq<nat>)
    requires Increasing(a) && Increasing(b) && AllOccur(content, pattern, start, a) && AllOccur(content, pattern, next, b)
    requires start < next && a != [] && next == a[|a| - 1] + |pattern| && pattern != []
    requires CoversUpTo(content, pattern, start, a, next) && CoversUpTo(content, pattern, next, b, |content|)
    ensures Increasing(a + b) && AllOccur(content, pattern, start, a + b)
    ensures CoversUpTo(content, pattern, start, a + b, |content|)
  {
    hide Occurs, Increasing, AllOccur, Covered;
    ConcatIncreases(content, pattern, start, next, a, b);
    forall p | start <= p < |content| && Occurs(content, pattern, p) ensures Covered(pattern, a + b, p) {
      CoveredMore(pattern, a, b, p);
    }
  }

  /** Two different occurrences that overlap show a border of the pattern. */
  lemma OverlapIsBorder(content: seq<byte>, pattern: seq<byte>, p: nat, q: nat)
    requires Occurs(content, pattern, p) && Occurs(content, pattern, q) && p < q < p + |pattern|
    ensures !BorderFree(pattern)
  {
    var k := p + |pattern| - q;
    assert pattern[..k] == content[q..q + |pattern|][..k] == content[q..q + k];
    assert pattern[|pattern| - k..] == content[p..p + |pattern|][|pattern| - k..] == content[q..q + k];
  }

  /** For a pattern without a border the reports are exactly all occurrences, each once. */
  lemma ChainIsExact(content: seq<byte>, pattern: seq<byte>, limit: nat, pages: seq<SearchPage>, p: nat)
    requires pattern != [] && BorderFree(pattern) && Chain(content, pattern, 0, limit, pages)
    ensures Occurs(content, pattern, p) <==> p in AllMatches(pages)
  {
    hide Occurs, BorderFree, Chain, AllMatches;
    ChainCovers(content, pattern, 0, limit, pages);
    var all := AllMatches(pages);
    if Occurs(content, pattern, p) {
      OccursInside(content, pattern, p);
      assert Covered(pattern, all, p);
      var i :| 0 <= i < |all| && all[i] < p + |pattern| && p < all[i] + |pattern|;
      if all[i] < p {
        OverlapIsBorder(content, pattern, all[i], p);
      } else if p < all[i] {
        OverlapIsBorder(content, pattern, p, all[i]);
      }
    }
  }

  lemma OccursInside(content: seq<byte>, pattern: seq<byte>, p: nat)
    requires pattern != [] && Occurs(content, pattern, p)
    ensures p < |content|
  {
  }

  /** What one window reports: leftmost occurrences that do not overlap, shifted by where the window starts. */
  function NonOverlapping(hay: seq<byte>, pattern: seq<byte>, at: nat, base: nat): seq<nat>
    decreases |hay| + 1 - at
  {
    if pattern == [] || at > |hay| then []
    else
      match FindNext(hay, pattern, at)
      case None => []
      case Some(found) => [base + found] + NonOverlapping(hay, pattern, found + |pattern|, base)
  }

  /** What a window still carries over from before `offset`: all that a match may start in. */
  function Carry(pattern: seq<byte>, start: nat, offset: nat): nat
    requires pattern != [] && start <= offset
  {
    Min(|pattern| - 1, offset - start)
  }

  /** What the windows from `offset` on report, one after the other; each starts matching again in what it carries. */
  function Reports(content: seq<byte>, pattern: seq<byte>, start: nat, offset: nat, windowBytes: nat): seq<nat>
    requires pattern != [] && windowBytes > 0 && start <= offset <= |content|
    decreases |content| - offset
  {
    if offset == |content| then []
    else
      var base, end := offset - Carry(pattern, start, offset), Min(offset + windowBytes, |content|);
      NonOverlapping(content[base..end], pattern, 0, base) + Reports(content, pattern, start, end, windowBytes)
  }

  /** The page: the first `limit` reports, and a cursor behind the last of them when the page is full. */
  function PageFrom(reports: seq<nat>, pattern: seq<byte>, start: nat, limit: nat): SearchPage
    requires limit > 0
  {
    if |reports| < limit then SearchPage(reports, None, if start == 0 then Some(|reports|) else None)
    else SearchPage(reports[..limit], Some(reports[limit - 1] + |pattern|), None)
  }

  function PageAt(content: seq<byte>, pattern: seq<byte>, start: nat, windowBytes: nat, limit: nat): SearchPage
    requires pattern != [] && windowBytes > 0 && limit > 0 && start <= |content|
  {
    PageFrom(Reports(content, pattern, start, start, windowBytes), pattern, start, limit)
  }

  lemma ReportsStep(content: seq<byte>, pattern: seq<byte>, start: nat, offset: nat, windowBytes: nat)
    requires pattern != [] && windowBytes > 0 && start <= offset < |content|
    ensures
      var base, end := offset - Carry(pattern, start, offset), Min(offset + windowBytes, |content|);
      Reports(content, pattern, start, offset, windowBytes) ==
        NonOverlapping(content[base..end], pattern, 0, base) + Reports(content, pattern, start, end, windowBytes)
  {
    hide NonOverlapping;
  }

  // -------------------------------------------------------------- one window

  /** Progress inside one window: `hay` is `content[base..end]`, searched up to `base + at`. */
  ghost predicate Searching(content: seq<byte>, pattern: seq<byte>, start: nat, offset: nat, base: nat, at: nat,
                            matches: seq<nat>)
  {
    && Increasing(matches) && AllOccur(content, pattern, start, matches)
    && CoversUpTo(content, pattern, start, matches, base + at)
    && (forall i :: 0 <= i < |matches| ==> matches[i] + |pattern| <= offset || matches[i] + |pattern| <= base + at)
  }

  /** Everything that ends at or before `offset` is accounted for. */
  ghost predicate Carried(content: seq<byte>, pattern: seq<byte>, start: nat, offset: nat, matches: seq<nat>)
    requires pattern != []
  {
    start <= offset <= |content| && Searching(content, pattern, start, offset, offset - Carry(pattern, start, offset), 0, matches)
  }

  lemma OccursInWindow(content: seq<byte>, pattern: seq<byte>, base: nat, hay: seq<byte>, p: nat)
    requires base + |hay| <= |content| && hay == content[base..base + |hay|] && base <= p
    ensures Occurs(hay, pattern, p - base) <==> Occurs(content, pattern, p) && p + |pattern| <= base + |hay|
  {
    if p + |pattern| <= base + |hay| {
      var inHay, inContent := hay[p - base..p - base + |pattern|], content[p..p + |pattern|];
      forall i | 0 <= i < |pattern| ensures inHay[i] == inContent[i] {
        assert hay[p - base + i] == content[base + (p - base + i)];
      }
    }
  }

  lemma ReportNext(content: seq<byte>, pattern: seq<byte>, start: nat, offset: nat, base: nat, hay: seq<byte>, at: nat,
                   matches: seq<nat>, found: nat)
    requires pattern != [] && Searching(content, pattern, start, offset, base, at, matches)
    requires base + |hay| <= |content| && hay == content[base..base + |hay|] && start <= base
    requires at <= found && Occurs(hay, pattern, found) && FindNext(hay, pattern, at) == Some(found)
    requires offset < base + |pattern|
    ensures Searching(content, pattern, start, offset, base, found + |pattern|, matches + [base + found])
  {
    hide Occurs, FindNext, Covered;
    OccursInWindow(content, pattern, base, hay, base + found);
    var more := matches + [base + found];
    forall p | start <= p < base + found + |pattern| && Occurs(content, pattern, p) ensures Covered(pattern, more, p) {
      ReportCovers(content, pattern, base, hay, at, matches, found, p);
    }
  }

  lemma ReportCovers(content: seq<byte>, pattern: seq<byte>, base: nat, hay: seq<byte>, at: nat, matches: seq<nat>,
                     found: nat, p: nat)
    requires base + |hay| <= |content| && hay == content[base..base + |hay|] && FindNext(hay, pattern, at) == Some(found)
    requires p < base + found + |pattern| && Occurs(content, pattern, p)
    requires p < base + at ==> Covered(pattern, matches, p)
    ensures Covered(pattern, matches + [base + found], p)
  {
    if p < base + at {
      CoveredMore(pattern, matches, [base + found], p);
    } else if p < base + found {
      NoneBetween(content, pattern, base, hay, at, found, p);
    } else {
      assert (matches + [base + found])[|matches|] == base + found;
    }
  }

  lemma NoneBetween(content: seq<byte>, pattern: seq<byte>, base: nat, hay: seq<byte>, at: nat, found: nat, p: nat)
    requires base + |hay| <= |content| && hay == content[base..base + |hay|]
    requires FindNext(hay, pattern, at) == Some(found) && base + at <= p < base + found
    ensures !Occurs(content, pattern, p)
  {
    OccursInWindow(content, pattern, base, hay, p);
  }

  lemma NoneLeft(hay: seq<byte>, pattern: seq<byte>, at: nat, base: nat)
    requires FindNext(hay, pattern, at).None?
    ensures NonOverlapping(hay, pattern, at, base) == []
  {
  }

  lemma FoundInside(hay: seq<byte>, pattern: seq<byte>, at: nat, found: nat, base: nat)
    requires pattern != [] && FindNext(hay, pattern, at) == Some(found)
    ensures found + |pattern| <= |hay| && at <= found
    ensures NonOverlapping(hay, pattern, at, base) == [base + found] + NonOverlapping(hay, pattern, found + |pattern|, base)
  {
    hide FindNext;
  }

  lemma OccursEnds(content: seq<byte>, pattern: seq<byte>, p: nat)
    requires Occurs(content, pattern, p)
    ensures p + |pattern| <= |content|
  {
  }

  /** A window with no further match: everything that ends in it is accounted for. */
  lemma WindowDone(content: seq<byte>, pattern: seq<byte>, start: nat, offset: nat, base: nat, hay: seq<byte>, at: nat,
                   matches: seq<nat>)
    requires pattern != [] && Searching(content, pattern, start, offset, base, at, matches)
    requires base + |hay| <= |content| && hay == content[base..base + |hay|]
    requires FindNext(hay, pattern, at).None? && at <= |hay|
    requires start <= offset && base == offset - Carry(pattern, start, offset) && offset <= base + |hay|
    ensures Carried(content, pattern, start, base + |hay|, matches)
  {
    hide Occurs, FindNext, Covered;
    var end := base + |hay|;
    var rest := end - Carry(pattern, start, end);
    forall p | start <= p < rest && Occurs(content, pattern, p) ensures Covered(pattern, matches, p) {
      if p >= base + at {
        NoneAfter(content, pattern, base, hay, at, p);
      }
    }
  }

  lemma NoneAfter(content: seq<byte>, pattern: seq<byte>, base: nat, hay: seq<byte>, at: nat, p: nat)
    requires base + |hay| <= |content| && hay == content[base..base + |hay|]
    requires FindNext(hay, pattern, at).None? && base + at <= p && p + |pattern| <= base + |hay|
    ensures !Occurs(content, pattern, p)
  {
    OccursInWindow(content, pattern, base, hay, p);
  }

  /** A whole window: what it reports accounts for everything that ends in it. */
  lemma {:induction false} WindowCovers(content: seq<byte>, pattern: seq<byte>, start: nat, offset: nat, base: nat,
                                        hay: seq<byte>, at: nat, matches: seq<nat>)
    requires pattern != [] && Searching(content, pattern, start, offset, base, at, matches)
    requires base + |hay| <= |content| && hay == content[base..base + |hay|] && at <= |hay|
    requires start <= offset && base == offset - Carry(pattern, start, offset) && offset <= base + |hay|
    ensures Carried(content, pattern, start, base + |hay|, matches + NonOverlapping(hay, pattern, at, base))
    decreases |hay| - at
  {
    hide Searching, Occurs, FindNext, NonOverlapping, Carried;
    var found := FindNext(hay, pattern, at);
    if found.None? {
      NoneLeft(hay, pattern, at, base);
      assert matches + [] == matches;
      WindowDone(content, pattern, start, offset, base, hay, at, matches);
    } else {
      FoundInside(hay, pattern, at, found.value, base);
      ReportNext(content, pattern, start, offset, base, hay, at, matches, found.value);
      var rest := NonOverlapping(hay, pattern, found.value + |pattern|, base);
      WindowCovers(content, pattern, start, offset, base, hay, found.value + |pattern|, matches + [base + found.value]);
      assert matches + ([base + found.value] + rest) == matches + [base + found.value] + rest;
    }
  }

  /** All windows together. */
  lemma {:induction false} ReportsCover(content: seq<byte>, pattern: seq<byte>, start: nat, offset: nat, windowBytes: nat,
                                        matches: seq<nat>)
    requires pattern != [] && windowBytes > 0 && Carried(content, pattern, start, offset, matches)
    requires start <= offset <= |content|
    ensures Carried(content, pattern, start, |content|, matches + Reports(content, pattern, start, offset, windowBytes))
    decreases |content| - offset
  {
    hide Searching, NonOverlapping;
    if offset == |content| {
      assert matches + [] == matches;
    } else {
      var base, end := offset - Carry(pattern, start, offset), Min(offset + windowBytes, |content|);
      var hay := content[base..end];
      var here := NonOverlapping(hay, pattern, 0, base);
      WindowCovers(content, pattern, start, offset, base, hay, 0, matches);
      ReportsCover(content, pattern, start, end, windowBytes, matches + here);
      var rest := Reports(content, pattern, start, end, windowBytes);
      assert matches + (here + rest) == matches + here + rest;
    }
  }

  lemma NothingBefore(content: seq<byte>, pattern: seq<byte>, start: nat)
    requires pattern != [] && start <= |content|
    ensures Carried(content, pattern, start, start, [])
  {
  }

  /** All reports from a start on: increasing true occurrences that leave nothing uncovered. */
  lemma ReportsMean(content: seq<byte>, pattern: seq<byte>, start: nat, windowBytes: nat)
    requires pattern != [] && windowBytes > 0 && start <= |content|
    ensures
      var reports := Reports(content, pattern, start, start, windowBytes);
      && Increasing(reports) && AllOccur(content, pattern, start, reports)
      && CoversUpTo(content, pattern, start, reports, |content|)
  {
    hide Occurs, Reports, Covered;
    NothingBefore(content, pattern, start);
    ReportsCover(content, pattern, start, start, windowBytes, []);
    var reports := Reports(content, pattern, start, start, windowBytes);
    assert [] + reports == reports;
    forall p | start <= p < |content| && Occurs(content, pattern, p) ensures Covered(pattern, reports, p) {
      OccursEnds(content, pattern, p);
    }
  }

  /** A prefix of such reports leaves nothing uncovered up to the end of its last occurrence. */
  lemma PrefixCovers(content: seq<byte>, pattern: seq<byte>, start: nat, reports: seq<nat>, n: nat)
    requires pattern != [] && 0 < n <= |reports| && Increasing(reports) && AllOccur(content, pattern, start, reports)
    requires CoversUpTo(content, pattern, start, reports, |content|)
    ensures CoversUpTo(content, pattern, start, reports[..n], reports[n - 1] + |pattern|)
  {
    hide Occurs;
    var last := reports[n - 1];
    forall p | start <= p < last + |pattern| && Occurs(content, pattern, p) ensures Covered(pattern, reports[..n], p) {
      OccursEnds(content, pattern, p);
      var i :| 0 <= i < |reports| && reports[i] < p + |pattern| && p < reports[i] + |pattern|;
      if i < n {
        assert reports[..n][i] == reports[i];
      } else {
        assert reports[..n][n - 1] == last;
      }
    }
  }

  /** The page of any start, window and page size is what a page has to be. */
  lemma PageAtOk(content: seq<byte>, pattern: seq<byte>, start: nat, windowBytes: nat, limit: nat)
    requires pattern != [] && windowBytes > 0 && limit > 0 && start <= |content|
    ensures PageOk(content, pattern, start, limit, PageAt(content, pattern, start, windowBytes, limit))
  {
    hide Occurs, Reports, CoversUpTo;
    ReportsMean(content, pattern, start, windowBytes);
    var reports := Reports(content, pattern, start, start, windowBytes);
    if |reports| >= limit {
      PrefixCovers(content, pattern, start, reports, limit);
      OccursEnds(content, pattern, reports[limit - 1]);
    }
  }

  // ----------------------------------------------------------- the whole search

  /** The pages a client gets that follows the cursors from the start to the end. */
  function Follow(content: seq<byte>, pattern: seq<byte>, start: nat, windowBytes: nat, limit: nat): seq<SearchPage>
    requires pattern != [] && windowBytes > 0 && limit > 0 && start <= |content|
    decreases |content| - start
  {
    PageAtOk(content, pattern, start, windowBytes, limit);
    var page := PageAt(content, pattern, start, windowBytes, limit);
    [page] + if page.nextCursor.None? then []
             else Follow(content, pattern, page.nextCursor.value, windowBytes, limit)
  }

  lemma {:induction false} FollowIsChain(content: seq<byte>, pattern: seq<byte>, start: nat, windowBytes: nat, limit: nat)
    requires pattern != [] && windowBytes > 0 && limit > 0 && start <= |content|
    ensures Chain(content, pattern, start, limit, Follow(content, pattern, start, windowBytes, limit))
    decreases |content| - start
  {
    hide PageAt, PageOk;
    PageAtOk(content, pattern, start, windowBytes, limit);
    PageCursor(content, pattern, start, limit, PageAt(content, pattern, start, windowBytes, limit));
    var page := PageAt(content, pattern, start, windowBytes, limit);
    var pages := Follow(content, pattern, start, windowBytes, limit);
    if page.nextCursor.Some? {
      FollowIsChain(content, pattern, page.nextCursor.value, windowBytes, limit);
      assert pages[1..] == Follow(content, pattern, page.nextCursor.value, windowBytes, limit);
    }
  }

  lemma PageCursor(content: seq<byte>, pattern: seq<byte>, start: nat, limit: nat, page: SearchPage)
    requires PageOk(content, pattern, start, limit, page)
    ensures page.nextCursor.Some? ==> start < page.nextCursor.value <= |content|
  {
  }

  /** What a whole search reports. */
  function Found(content: seq<byte>, pattern: seq<byte>, windowBytes: nat, limit: nat): seq<nat>
    requires pattern != [] && windowBytes > 0 && limit > 0
  {
    AllMatches(Follow(content, pattern, 0, windowBytes, limit))
  }

  /** Every occurrence is reported, and nothing else. */
  ghost predicate Exact(content: seq<byte>, pattern: seq<byte>, windowBytes: nat, limit: nat)
    requires pattern != [] && windowBytes > 0 && limit > 0
  {
    forall p :: Occurs(content, pattern, p) <==> p in Found(content, pattern, windowBytes, limit)
  }

  /** With one border, the pattern overlaps itself in a content that fits one window, and the second of the two
      occurrences is never reported. */
  lemma BorderHidesOccurrence(pattern: seq<byte>, k: nat, windowBytes: nat, limit: nat) returns (content: seq<byte>, p: nat)
    requires 0 < k < |pattern| && pattern[..k] == pattern[|pattern| - k..]
    requires 2 * |pattern| <= windowBytes && limit > 0
    ensures |content| < 2 * |pattern| && Occurs(content, pattern, p)
    ensures p !in Found(content, pattern, windowBytes, limit)
  {
    hide Chain, AllMatches, Follow;
    p := |pattern| - k;
    content := pattern[..p] + pattern;
    OverlapContent(pattern, k);
    var page := PageAt(content, pattern, 0, windowBytes, limit);
    OneReport(pattern, k, windowBytes, limit);
    var pages := Follow(content, pattern, 0, windowBytes, limit);
    FollowIsChain(content, pattern, 0, windowBytes, limit);
    LaterPages(content, pattern, windowBytes, limit, p);
  }

  lemma OverlapContent(pattern: seq<byte>, k: nat)
    requires 0 < k < |pattern| && pattern[..k] == pattern[|pattern| - k..]
    ensures
      var p := |pattern| - k;
      var content := pattern[..p] + pattern;
      && Occurs(content, pattern, p) && Occurs(content, pattern, 0)
      && NonOverlapping(content, pattern, 0, 0) == [0]
  {
    hide NonOverlapping, FindNext, Occurs;
    var p := |pattern| - k;
    var content := pattern[..p] + pattern;
    OverlapOccurs(pattern, p);
    OnlyTheFirst(content, pattern);
  }

  lemma OverlapOccurs(pattern: seq<byte>, p: nat)
    requires 0 < p < |pattern| && pattern[..|pattern| - p] == pattern[p..]
    ensures Occurs(pattern[..p] + pattern, pattern, p) && Occurs(pattern[..p] + pattern, pattern, 0)
  {
    var content := pattern[..p] + pattern;
    assert content[p..p + |pattern|] == pattern;
    OverlapPrefix(pattern, p);
    assert content[0..|pattern|] == content[..|pattern|];
  }

  lemma OverlapPrefix(pattern: seq<byte>, p: nat)
    requires 0 < p < |pattern| && pattern[..|pattern| - p] == pattern[p..]
    ensures (pattern[..p] + pattern)[..|pattern|] == pattern
  {
    assert (pattern[..p] + pattern)[..|pattern|] == pattern[..p] + pattern[..|pattern| - p];
    assert pattern == pattern[..p] + pattern[p..];
  }

  /** A window shorter than two patterns reports an occurrence at its start and nothing else. */
  lemma OnlyTheFirst(content: seq<byte>, pattern: seq<byte>)
    requires pattern != [] && Occurs(content, pattern, 0) && |content| < 2 * |pattern|
    ensures NonOverlapping(content, pattern, 0, 0) == [0]
  {
    hide Occurs;
    assert FindNext(content, pattern, 0) == Some(0);
    assert FindNext(content, pattern, |pattern|).None?;
    NoneLeft(content, pattern, |pattern|, 0);
  }

  lemma OneReport(pattern: seq<byte>, k: nat, windowBytes: nat, limit: nat)
    requires 0 < k < |pattern| && pattern[..k] == pattern[|pattern| - k..]
    requires 2 * |pattern| <= windowBytes && limit > 0
    ensures
      var page := PageAt(pattern[..|pattern| - k] + pattern, pattern, 0, windowBytes, limit);
      page.matches == [0] && (page.nextCursor.Some? ==> page.nextCursor.value == |pattern|)
  {
    hide Occurs, NonOverlapping;
    OverlapContent(pattern, k);
    var content := pattern[..|pattern| - k] + pattern;
    assert content[0..|content|] == content;
    assert Reports(content, pattern, 0, |content|, windowBytes) == [];
    assert Reports(content, pattern, 0, 0, windowBytes) == [0] + [];
  }

  /** Pages behind the first report only what lies behind its cursor. */
  lemma LaterPages(content: seq<byte>, pattern: seq<byte>, windowBytes: nat, limit: nat, p: nat)
    requires pattern != [] && windowBytes > 0 && limit > 0
    requires
      var page := PageAt(content, pattern, 0, windowBytes, limit);
      p !in page.matches && (page.nextCursor.Some? ==> p < page.nextCursor.value)
    ensures p !in Found(content, pattern, windowBytes, limit)
  {
    hide PageAt, Chain;
    var page := PageAt(content, pattern, 0, windowBytes, limit);
    var pages := Follow(content, pattern, 0, windowBytes, limit);
    PageAtOk(content, pattern, 0, windowBytes, limit);
    PageCursor(content, pattern, 0, limit, page);
    if page.nextCursor.Some? {
      var next := page.nextCursor.value;
      var rest := Follow(content, pattern, next, windowBytes, limit);
      FollowIsChain(content, pattern, next, windowBytes, limit);
      ChainCovers(content, pattern, next, limit, rest);
      assert pages[1..] == rest;
    } else {
      assert pages[1..] == [];
      assert AllMatches([]) == [];
    }
  }

  /** Searching is exact on every content exactly for patterns without a border, for any page size and any window of
      at least twice the pattern. */
  lemma ExactExactlyWithoutBorder(pattern: seq<byte>, windowBytes: nat, limit: nat)
    requires pattern != [] && 2 * |pattern| <= windowBytes && limit > 0
    ensures BorderFree(pattern) <==> forall content :: Exact(content, pattern, windowBytes, limit)
  {
    hide Occurs, Follow, Chain, AllMatches;
    if BorderFree(pattern) {
      forall content ensures Exact(content, pattern, windowBytes, limit) {
        FollowIsChain(content, pattern, 0, windowBytes, limit);
        forall p ensures Occurs(content, pattern, p) <==> p in Found(content, pattern, windowBytes, limit) {
          ChainIsExact(content, pattern, limit, Follow(content, pattern, 0, windowBytes, limit), p);
        }
      }
    } else {
      var k :| 0 < k < |pattern| && pattern[..k] == pattern[|pattern| - k..];
      var content, p := BorderHidesOccurrence(pattern, k, windowBytes, limit);
      assert !Exact(content, pattern, windowBytes, limit);
    }
  }

  /** The program's own sizes are among them, for every pattern it accepts. */
  lemma SearchExactExactlyWithoutBorder(pattern: seq<byte>)
    requires pattern != [] && |pattern| <= SEARCH_MAX_PATTERN_BYTES
    ensures BorderFree(pattern) <==>
      forall content :: Exact(content, pattern, SEARCH_WINDOW_BYTES, SEARCH_PAGE_MATCHES)
  {
    ExactExactlyWithoutBorder(pattern, SEARCH_WINDOW_BYTES, SEARCH_PAGE_MATCHES);
  }
}

module ContentSearch {
  import opened Bytes
  import opened ContentModel
  import opened ContentStore
  import opened SearchModel

  /** The matches of one window behind those of the windows before, or as many as still fit the page. */
  method SearchWindow(hay: seq<byte>, pattern: seq<byte>, start: nat, offset: nat, base: nat, limit: nat, before: seq<nat>)
    returns (matches: seq<nat>, at: nat)
    requires pattern != [] && |before| < limit && start <= base <= offset && offset < base + |pattern|
    ensures |matches| <= limit && matches <= before + NonOverlapping(hay, pattern, 0, base)
    ensures |matches| == limit ==> matches[limit - 1] + |pattern| == base + at && at > 0
    ensures |matches| < limit ==> matches == before + NonOverlapping(hay, pattern, 0, base)
  {
    hide NonOverlapping;
    matches, at := before, 0;
    var found := FindNext(hay, pattern, at);
    while found.Some? && |matches| < limit
      invariant at <= |hay| && |matches| <= limit
      invariant |matches| == limit ==> matches[limit - 1] + |pattern| == base + at && at > 0
      invariant found == FindNext(hay, pattern, at)
      invariant matches + NonOverlapping(hay, pattern, at, base) == before + NonOverlapping(hay, pattern, 0, base)
      decreases limit - |matches|
    {
      FoundInside(hay, pattern, at, found.value, base);
      var globalStart, globalEnd := base + found.value, base + found.value + |pattern|;
      assert !(globalEnd <= offset || globalStart < start);
      if !(globalEnd <= offset || globalStart < start) {
        ghost var rest := NonOverlapping(hay, pattern, found.value + |pattern|, base);
        assert matches + ([globalStart] + rest) == matches + [globalStart] + rest;
        matches := matches + [globalStart];
      }
      at := found.value + |pattern|;
      found := FindNext(hay, pattern, at);
    }
    if found.None? { NoneLeft(hay, pattern, at, base); assert matches + [] == matches; }
  }

  /** One page of search, for any window size and page size; `cancelAt` is the window before which the flag is seen set. */
  method SearchPages(store: ResponseContentStore, id: string, pattern: seq<byte>, cursor: Option<nat>, cancelAt: Option<nat>,
                     windowBytes: nat, limit: nat) returns (r: Result<SearchPage, StoreError>)
    requires store.Valid() && 0 < windowBytes && 0 < limit
    ensures pattern == [] ==> r == Ok(SearchPage([], None, Some(0)))
    ensures var start := if cursor.None? then 0 else cursor.value;
            pattern != [] && store.Readable(id) && r.Ok? ==>
              && start <= |store.BytesOf(id)|
              && r.value == PageAt(store.BytesOf(id), pattern, start, windowBytes, limit)
              && PageOk(store.BytesOf(id), pattern, start, limit, r.value)
    ensures (store.Readable(id) && |pattern| <= SEARCH_MAX_PATTERN_BYTES && windowBytes <= store.limits.maxWindowBytes
             && (cursor.None? || cursor.value <= |store.BytesOf(id)|) && cancelAt.None?) ==> r.Ok?
  {
    hide Good, Occurs, PageOk, FindNext, NonOverlapping, PageAt, Progress;
    if pattern == [] { return Ok(SearchPage([], None, Some(0))); }
    if |pattern| > SEARCH_MAX_PATTERN_BYTES { return Err(PatternTooLong); }
    var start := if cursor.None? then 0 else cursor.value;
    var reference := store.Reference(id);
    if reference.Err? { return Err(reference.error); }
    var size := reference.value.byteLength;
    if start > size { return Err(InvalidCursor); }
    ghost var content := store.BytesOf(id);
    PageAtOk(content, pattern, start, windowBytes, limit);
    var overlap := Min(|pattern| - 1, SEARCH_MAX_MATCH_BYTES);
    var offset, carry, matches: seq<nat>, windows := start, [], [], 0;
    NoProgress(content, pattern, start, windowBytes);
    while offset < size
      invariant start <= offset <= size && |matches| < limit
      invariant Progress(content, pattern, start, windowBytes, offset, carry, matches)
      decreases size - offset
    {
      if cancelAt == Some(windows) { return Err(Cancelled); }
      var window := store.ReadWindow(id, offset, Min(size - offset, windowBytes));
      if window.Err? { return Err(window.error); }
      if window.value == [] { break; }
      var base := SaturatingSub(offset, |carry|);
      var hay := carry + window.value;
      ghost var before := matches;
      ProgressBounds(content, pattern, start, windowBytes, offset, carry, matches);
      var at;
      matches, at := SearchWindow(hay, pattern, start, offset, base, limit, matches);
      if |matches| == limit {
        ProgressFull(content, pattern, start, windowBytes, offset, carry, before, window.value, matches, limit);
        return Ok(SearchPage(matches, Some(Max(base + at, matches[limit - 1] + 1)), None));
      }
      ProgressStep(content, pattern, start, windowBytes, offset, carry, before, window.value);
      offset := offset + |window.value|;
      carry := if overlap == 0 then [] else hay[SaturatingSub(|hay|, overlap)..];
      assert carry == hay[SaturatingSub(|hay|, |pattern| - 1)..];
      windows := windows + 1;
    }
    ProgressDone(content, pattern, start, windowBytes, carry, matches, limit);
    r := Ok(SearchPage(matches, None, if start == 0 then Some(|matches|) else None));
  }

  /** Before a window: what it carries over, and the matches so far as the first of all reports. */
  ghost predicate Progress(content: seq<byte>, pattern: seq<byte>, start: nat, windowBytes: nat, offset: nat, carry: seq<byte>,
                           matches: seq<nat>)
  {
    && pattern != [] && windowBytes > 0 && start <= offset <= |content|
    && |carry| == Carry(pattern, start, offset) && carry == content[offset - |carry|..offset]
    && matches + Reports(content, pattern, start, offset, windowBytes) == Reports(content, pattern, start, start, windowBytes)
  }

  lemma NoProgress(content: seq<byte>, pattern: seq<byte>, start: nat, windowBytes: nat)
    requires pattern != [] && windowBytes > 0 && start <= |content|
    ensures Progress(content, pattern, start, windowBytes, start, [], [])
  {
  }

  lemma ProgressBounds(content: seq<byte>, pattern: seq<byte>, start: nat, windowBytes: nat, offset: nat, carry: seq<byte>,
                       matches: seq<nat>)
    requires Progress(content, pattern, start, windowBytes, offset, carry, matches)
    ensures start <= offset - |carry| && offset < offset - |carry| + |pattern|
  {
    hide Reports;
  }

  /** The bytes searched in one window are what is carried and what is read. */
  lemma WindowReports(content: seq<byte>, pattern: seq<byte>, start: nat, windowBytes: nat, offset: nat, carry: seq<byte>,
                      matches: seq<nat>, window: seq<byte>)
    requires Progress(content, pattern, start, windowBytes, offset, carry, matches) && offset < |content|
    requires window == content[offset..Min(offset + windowBytes, |content|)]
    ensures Reports(content, pattern, start, start, windowBytes) ==
      matches + NonOverlapping(carry + window, pattern, 0, offset - |carry|)
      + Reports(content, pattern, start, offset + |window|, windowBytes)
  {
    hide NonOverlapping, Reports;
    var base, end := offset - |carry|, offset + |window|;
    assert carry + window == content[base..end];
    ReportsStep(content, pattern, start, offset, windowBytes);
    var here, rest := NonOverlapping(carry + window, pattern, 0, base), Reports(content, pattern, start, end, windowBytes);
    assert matches + (here + rest) == matches + here + rest;
  }

  lemma ProgressStep(content: seq<byte>, pattern: seq<byte>, start: nat, windowBytes: nat, offset: nat, carry: seq<byte>,
                     matches: seq<nat>, window: seq<byte>)
    requires Progress(content, pattern, start, windowBytes, offset, carry, matches) && offset < |content|
    requires window == content[offset..Min(offset + windowBytes, |content|)]
    ensures
      var hay := carry + window;
      Progress(content, pattern, start, windowBytes, offset + |window|, hay[SaturatingSub(|hay|, |pattern| - 1)..],
               matches + NonOverlapping(hay, pattern, 0, offset - |carry|))
  {
    hide NonOverlapping, Reports;
    WindowReports(content, pattern, start, windowBytes, offset, carry, matches, window);
    var hay, end := carry + window, offset + |window|;
    assert hay == content[offset - |carry|..end];
    var next := hay[SaturatingSub(|hay|, |pattern| - 1)..];
    assert |next| == Carry(pattern, start, end);
    assert next == content[end - |next|..end];
  }

  lemma ProgressFull(content: seq<byte>, pattern: seq<byte>, start: nat, windowBytes: nat, offset: nat, carry: seq<byte>,
                     before: seq<nat>, window: seq<byte>, matches: seq<nat>, limit: nat)
    requires Progress(content, pattern, start, windowBytes, offset, carry, before) && offset < |content|
    requires window == content[offset..Min(offset + windowBytes, |content|)]
    requires 0 < limit == |matches| && matches <= before + NonOverlapping(carry + window, pattern, 0, offset - |carry|)
    ensures PageAt(content, pattern, start, windowBytes, limit) ==
      SearchPage(matches, Some(matches[limit - 1] + |pattern|), None)
  {
    hide NonOverlapping, Reports;
    WindowReports(content, pattern, start, windowBytes, offset, carry, before, window);
    assert Reports(content, pattern, start, start, windowBytes)[..limit] == matches;
  }

  lemma ProgressDone(content: seq<byte>, pattern: seq<byte>, start: nat, windowBytes: nat, carry: seq<byte>,
                     matches: seq<nat>, limit: nat)
    requires Progress(content, pattern, start, windowBytes, |content|, carry, matches) && |matches| < limit
    ensures PageAt(content, pattern, start, windowBytes, limit) ==
      SearchPage(matches, None, if start == 0 then Some(|matches|) else None)
  {
    assert Reports(content, pattern, start, |content|, windowBytes) == [];
    assert matches + [] == matches;
  }

  /** The page the application serves: 4 MiB windows and at most 1000 matches. */
  method Search(store: ResponseContentStore, id: string, pattern: seq<byte>, cursor: Option<nat>, cancelAt: Option<nat>)
    returns (r: Result<SearchPage, StoreError>)
    requires store.Valid()
    ensures pattern == [] ==> r == Ok(SearchPage([], None, Some(0)))
    ensures var start := if cursor.None? then 0 else cursor.value;
            pattern != [] && store.Readable(id) && r.Ok? ==>
              && start <= |store.BytesOf(id)|
              && r.value == PageAt(store.BytesOf(id), pattern, start, SEARCH_WINDOW_BYTES, SEARCH_PAGE_MATCHES)
              && PageOk(store.BytesOf(id), pattern, start, SEARCH_PAGE_MATCHES, r.value)
    ensures (store.Readable(id) && |pattern| <= SEARCH_MAX_PATTERN_BYTES && SEARCH_WINDOW_BYTES <= store.limits.maxWindowBytes
             && (cursor.None? || cursor.value <= |store.BytesOf(id)|) && cancelAt.None?) ==> r.Ok?
  {
    r := SearchPages(store, id, pattern, cursor, cancelAt, SEARCH_WINDOW_BYTES, SEARCH_PAGE_MATCHES);
  }
}
