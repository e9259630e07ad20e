/** Request history: its index, and listing it page by page. */
module HistoryModel {
  import opened Bytes

  /** What the index keeps of an entry; `text` is the lower-cased text that a search looks through. */
  datatype Summary = Summary(id: string, documentId: string, startedAt: int, status: Option<int>, text: string, pinned: bool)

  datatype Cursor = Cursor(startedAt: int, id: string)

  /** `search` is trimmed and lower-cased; empty strings do not restrict. */
  datatype Query = Query(documentId: string, search: string, cursor: Option<Cursor>, limit: Option<int>)

  datatype Page = Page(items: seq<Summary>, cursor: Option<Cursor>)

  // -------------------------------------------------------------------- order

  /** Order of strings, character by character. */
  predicate Below(a: string, b: string) {
    b != "" && (a == "" || a[0] < b[0] || (a[0] == b[0] && Below(a[1..], b[1..])))
  }

  lemma {:induction false} BelowIsTotal(a: string, b: string)
    ensures Below(a, b) || Below(b, a) || a == b
    ensures !(Below(a, b) && Below(b, a)) && !Below(a, a)
  {
    if a != "" && b != "" {
      BelowIsTotal(a[1..], b[1..]);
      BelowIsTotal(a[1..], a[1..]);
      if a[0] == b[0] && a[1..] == b[1..] {
        assert a == [a[0]] + a[1..] == [b[0]] + b[1..] == b;
      }
    } else if a != "" {
      BelowIsTotal(a[1..], a[1..]);
    }
  }

  lemma {:induction false} BelowIsTransitive(a: string, b: string, c: string)
    requires Below(a, b) && Below(b, c)
    ensures Below(a, c)
  {
    if a != "" && a[0] == b[0] == c[0] {
      BelowIsTransitive(a[1..], b[1..], c[1..]);
    }
  }

  /** At the first difference `a` has the smaller character, or it ends there. */
  ghost predicate Differs(a: string, b: string, k: nat) {
    && k <= |a| && k < |b| && a[..k] == b[..k]
    && (k == |a| || a[k] < b[k])
  }

  lemma {:induction false} BelowMeans(a: string, b: string)
    ensures Below(a, b) <==> exists k :: Differs(a, b, k)
  {
    if a != "" && b != "" && a[0] == b[0] {
      BelowMeans(a[1..], b[1..]);
      if Below(a[1..], b[1..]) {
        var k: nat :| Differs(a[1..], b[1..], k);
        assert a[..k + 1] == [a[0]] + a[1..][..k] && b[..k + 1] == [b[0]] + b[1..][..k];
        assert Differs(a, b, k + 1);
      }
      if k: nat :| Differs(a, b, k) {
        assert a[1..][..k - 1] == a[..k][1..] && b[1..][..k - 1] == b[..k][1..];
        assert Differs(a[1..], b[1..], k - 1);
      }
    } else {
      forall k: nat | Differs(a, b, k) ensures k == 0 {
        if k > 0 {
          SameFirst(a, b, k);
        }
      }
      if Below(a, b) {
        assert Differs(a, b, 0);
      }
    }
  }

  lemma SameFirst(a: string, b: string, k: nat)
    requires Differs(a, b, k) && k > 0
    ensures a[0] == b[0]
  {
    assert a[..k][0] == b[..k][0];
  }

  function CursorOf(item: Summary): Cursor {
    Cursor(item.startedAt, item.id)
  }

  /** Strictly later in the listing than the cursor. */
  predicate Past(item: Summary, cursor: Cursor) {
    item.startedAt < cursor.startedAt || (item.startedAt == cursor.startedAt && Below(item.id, cursor.id))
  }

  predicate Before(a: Summary, b: Summary) {
    Past(b, CursorOf(a))
  }

  lemma BeforeIsTotal(a: Summary, b: Summary)
    ensures Before(a, b) || Before(b, a) || a.id == b.id
    ensures !(Before(a, b) && Before(b, a)) && !Before(a, a)
  {
    BelowIsTotal(a.id, b.id);
    BelowIsTotal(a.id, a.id);
  }

  lemma BeforeIsTransitive(a: Summary, b: Summary, c: Summary)
    requires Before(a, b) && Before(b, c)
    ensures Before(a, c)
  {
    if a.startedAt == b.startedAt == c.startedAt {
      BelowIsTransitive(c.id, b.id, a.id);
    }
  }

  // ------------------------------------------------------------------ listing

  predicate Contains(text: string, part: string) {
    part <= text || (text != "" && Contains(text[1..], part))
  }

  lemma {:induction false} ContainsMeans(text: string, part: string)
    ensures Contains(text, part) <==> exists i :: 0 <= i <= |text| && part <= text[i..]
  {
    if part <= text {
      assert text[0..] == text;
    } else if text != "" {
      ContainsMeans(text[1..], part);
      if Contains(text[1..], part) {
        var i :| 0 <= i <= |text[1..]| && part <= text[1..][i..];
        assert text[i + 1..] == text[1..][i..];
      }
      if i :| 0 <= i <= |text| && part <= text[i..] {
        assert text[0..] == text;
        assert text[i..] == text[1..][i - 1..];
      }
    }
  }

  predicate Selected(item: Summary, query: Query) {
    && (query.documentId == "" || item.documentId == query.documentId)
    && (query.search == "" || Contains(item.text, query.search))
  }

  predicate Listed(item: Summary, query: Query) {
    Selected(item, query) && (query.cursor.None? || Past(item, query.cursor.value))
  }

  function Filter(items: seq<Summary>, query: Query): seq<Summary> {
    if items == [] then []
    else (if Listed(items[0], query) then [items[0]] else []) + Filter(items[1..], query)
  }

  function Insert(item: Summary, sorted: seq<Summary>): seq<Summary> {
    if sorted == [] || Before(item, sorted[0]) then [item] + sorted else [sorted[0]] + Insert(item, sorted[1..])
  }

  function Sort(items: seq<Summary>): seq<Summary> {
    if items == [] then [] else Insert(items[0], Sort(items[1..]))
  }

  function Limit(query: Query): int {
    Max(1, Min(if query.limit.Some? then query.limit.value else 50, 100))
  }

  function Matched(index: seq<Summary>, query: Query): seq<Summary> {
    Sort(Filter(index, query))
  }

  function ListPage(index: seq<Summary>, query: Query): Page {
    var matched := Matched(index, query);
    var count := Min(Limit(query), |matched|);
    Page(matched[..count], if |matched| > Limit(query) then Some(CursorOf(matched[count - 1])) else None)
  }

  // ------------------------------------------------------------------ meaning

  predicate UniqueIds(items: seq<Summary>) {
    forall i, j :: 0 <= i < j < |items| ==> items[i].id != items[j].id
  }

  ghost predicate Ordered(items: seq<Summary>) {
    forall i, j :: 0 <= i < j < |items| ==> Before(items[i], items[j])
  }

  lemma {:induction false} FilterMeans(items: seq<Summary>, query: Query)
    ensures forall item :: item in Filter(items, query) <==> item in items && Listed(item, query)
    ensures UniqueIds(items) ==> UniqueIds(Filter(items, query))
  {
    hide Listed;
    if items != [] {
      var rest := Filter(items[1..], query);
      FilterMeans(items[1..], query);
      if UniqueIds(items) {
        forall i, j | 0 <= i < j < |items[1..]| ensures items[1..][i].id != items[1..][j].id {}
        forall i | 0 <= i < |rest| ensures rest[i].id != items[0].id {
          assert rest[i] in items[1..];
        }
      }
      assert items == [items[0]] + items[1..];
    }
  }

  lemma {:induction false} InsertMeans(item: Summary, sorted: seq<Summary>)
    requires Ordered(sorted) && forall other <- sorted :: other.id != item.id
    ensures Ordered(Insert(item, sorted))
    ensures forall other :: other in Insert(item, sorted) <==> other == item || other in sorted
  {
    hide Before;
    if sorted == [] {
    } else if Before(item, sorted[0]) {
      forall i | 0 <= i < |sorted| ensures Before(item, sorted[i]) {
        if i > 0 {
          BeforeIsTransitive(item, sorted[0], sorted[i]);
        }
      }
    } else {
      InsertMeans(item, sorted[1..]);
      BeforeIsTotal(item, sorted[0]);
      var rest := Insert(item, sorted[1..]);
      forall i | 0 <= i < |rest| ensures Before(sorted[0], rest[i]) {
        assert rest[i] == item || rest[i] in sorted[1..];
      }
      assert sorted == [sorted[0]] + sorted[1..];
    }
  }

  lemma {:induction false} SortMeans(items: seq<Summary>)
    requires UniqueIds(items)
    ensures Ordered(Sort(items))
    ensures forall item :: item in Sort(items) <==> item in items
  {
    hide Insert, Before;
    if items != [] {
      forall i, j | 0 <= i < j < |items[1..]| ensures items[1..][i].id != items[1..][j].id {}
      SortMeans(items[1..]);
      forall other <- Sort(items[1..]) ensures other.id != items[0].id {
        assert other in items[1..];
      }
      InsertMeans(items[0], Sort(items[1..]));
      assert items == [items[0]] + items[1..];
    }
  }

  /** What a query asks for: a document, a piece of the text, and to come after the cursor. */
  ghost predicate Asked(item: Summary, query: Query) {
    && (query.documentId != "" ==> item.documentId == query.documentId)
    && (query.search != "" ==> exists i :: 0 <= i <= |item.text| && query.search <= item.text[i..])
    && (query.cursor.Some? ==>
          item.startedAt < query.cursor.value.startedAt
          || (item.startedAt == query.cursor.value.startedAt && Below(item.id, query.cursor.value.id)))
  }

  lemma ListedMeans(item: Summary, query: Query)
    ensures Listed(item, query) <==> Asked(item, query)
  {
    ContainsMeans(item.text, query.search);
  }

  /** The whole listing holds every entry asked for exactly once, newest first and by falling ids within a moment. */
  lemma ListingMeans(index: seq<Summary>, query: Query)
    requires UniqueIds(index)
    ensures
      var listing := Matched(index, query);
      && (forall item :: item in listing <==> item in index && Asked(item, query))
      && (forall i, j :: 0 <= i < j < |listing| ==>
            listing[i].startedAt > listing[j].startedAt
            || (listing[i].startedAt == listing[j].startedAt && Below(listing[j].id, listing[i].id)))
  {
    hide Listed, Asked, Matched, Below;
    MatchedMeans(index, query);
    forall item ensures Listed(item, query) <==> Asked(item, query) {
      ListedMeans(item, query);
    }
  }

  lemma MatchedMeans(index: seq<Summary>, query: Query)
    requires UniqueIds(index)
    ensures Ordered(Matched(index, query))
    ensures forall item :: item in Matched(index, query) <==> item in index && Listed(item, query)
  {
    hide Listed, Sort, Filter, Before;
    FilterMeans(index, query);
    SortMeans(Filter(index, query));
  }

  /** An order has only one listing. */
  lemma {:induction false} OrderedIsUnique(a: seq<Summary>, b: seq<Summary>)
    requires Ordered(a) && Ordered(b) && forall item :: item in a <==> item in b
    ensures a == b
  {
    hide Before;
    if a != [] {
      assert a[0] in b;
    }
    if b != [] {
      assert b[0] in a;
      BeforeIsTotal(a[0], b[0]);
      assert a[0] == b[0];
      forall item ensures item in a[1..] <==> item in b[1..] {
        TailMeans(a, item);
        TailMeans(b, item);
      }
      OrderedIsUnique(a[1..], b[1..]);
    }
  }

  lemma TailMeans(items: seq<Summary>, item: Summary)
    requires items != [] && Ordered(items)
    ensures item in items[1..] <==> item in items && item != items[0]
  {
    hide Before;
    BeforeIsTotal(items[0], items[0]);
    assert items == [items[0]] + items[1..];
    if item in items[1..] {
      var i :| 0 <= i < |items[1..]| && items[1..][i] == item;
      assert items[i + 1] == item;
    }
  }

  /** Continuing from an entry's cursor lists exactly what follows that entry. */
  lemma CursorContinues(index: seq<Summary>, query: Query, k: nat)
    requires UniqueIds(index) && 0 < k <= |Matched(index, query)|
    ensures
      var matched := Matched(index, query);
      Matched(index, query.(cursor := Some(CursorOf(matched[k - 1])))) == matched[k..]
  {
    hide Matched, Before, Listed, Selected;
    var matched := Matched(index, query);
    var next := query.(cursor := Some(CursorOf(matched[k - 1])));
    MatchedMeans(index, query);
    MatchedMeans(index, next);
    forall item ensures item in Matched(index, next) <==> item in matched[k..] {
      FollowersMean(index, query, matched, k, item);
    }
    OrderedIsUnique(Matched(index, next), matched[k..]);
  }

  lemma FollowersMean(index: seq<Summary>, query: Query, matched: seq<Summary>, k: nat, item: Summary)
    requires 0 < k <= |matched| && Ordered(matched)
    requires forall other :: other in matched <==> other in index && Listed(other, query)
    ensures item in index && Listed(item, query.(cursor := Some(CursorOf(matched[k - 1])))) <==> item in matched[k..]
  {
    hide Contains, Past, Ordered;
    var last := matched[k - 1];
    assert last in matched;
    if item in matched[k..] {
      var i :| 0 <= i < |matched[k..]| && matched[k..][i] == item;
      assert matched[k + i] == item;
      OrderedPair(matched, k - 1, k + i);
    }
    if item in index && Listed(item, query.(cursor := Some(CursorOf(last)))) {
      if query.cursor.Some? {
        PastTransitive(item, last, query.cursor.value);
      }
      var i :| 0 <= i < |matched| && matched[i] == item;
      if i < k {
        BeforeIsTotal(last, item);
        if i < k - 1 {
          OrderedPair(matched, i, k - 1);
        }
      } else {
        assert matched[k..][i - k] == item;
      }
    }
  }

  lemma OrderedPair(items: seq<Summary>, i: nat, j: nat)
    requires Ordered(items) && i < j < |items|
    ensures Before(items[i], items[j])
  {
  }

  lemma PastTransitive(item: Summary, middle: Summary, cursor: Cursor)
    requires Past(item, CursorOf(middle)) && Past(middle, cursor)
    ensures Past(item, cursor)
  {
    if item.startedAt == middle.startedAt == cursor.startedAt {
      BelowIsTransitive(item.id, middle.id, cursor.id);
    }
  }

  // ------------------------------------------------------------------- paging

  /** Following cursors, with a page size of the caller's choice each time. */
  function Follow(index: seq<Summary>, query: Query, limits: seq<Option<int>>): seq<Page>
    decreases |limits|
  {
    if limits == [] then []
    else
      var page := ListPage(index, query.(limit := limits[0]));
      [page] + if page.cursor.None? then [] else Follow(index, query.(cursor := page.cursor), limits[1..])
  }

  function Items(pages: seq<Page>): seq<Summary> {
    if pages == [] then [] else pages[0].items + Items(pages[1..])
  }

  predicate Finished(pages: seq<Page>) {
    pages != [] && pages[|pages| - 1].cursor.None?
  }

  lemma LimitIsFree(index: seq<Summary>, query: Query, limit: Option<int>)
    ensures Matched(index, query.(limit := limit)) == Matched(index, query)
  {
    FilterIgnoresLimit(index, query, limit);
  }

  lemma {:induction false} FilterIgnoresLimit(items: seq<Summary>, query: Query, limit: Option<int>)
    ensures Filter(items, query.(limit := limit)) == Filter(items, query)
  {
    if items != [] {
      FilterIgnoresLimit(items[1..], query, limit);
    }
  }

  lemma NoPages(index: seq<Summary>, query: Query)
    ensures Items(Follow(index, query, [])) == [] && !Finished(Follow(index, query, []))
  {
  }

  lemma FollowStep(index: seq<Summary>, query: Query, limits: seq<Option<int>>)
    requires limits != []
    ensures
      var pages, page := Follow(index, query, limits), ListPage(index, query.(limit := limits[0]));
      && (page.cursor.None? ==> Items(pages) == page.items && Finished(pages))
      && (page.cursor.Some? ==>
            var rest := Follow(index, query.(cursor := page.cursor), limits[1..]);
            Items(pages) == page.items + Items(rest) && (Finished(pages) <==> Finished(rest)))
  {
    hide ListPage;
    var page := ListPage(index, query.(limit := limits[0]));
    if page.cursor.None? {
      assert [page][1..] == [];
    } else {
      var rest := Follow(index, query.(cursor := page.cursor), limits[1..]);
      assert ([page] + rest)[1..] == rest;
    }
  }

  /** Following cursors over a fixed index lists the selected entries in order, each once, whatever the page
      sizes; it ends, after at most one page an entry, and has then listed them all. */
  lemma {:induction false} PagesListEverything(index: seq<Summary>, query: Query, limits: seq<Option<int>>)
    requires UniqueIds(index)
    ensures
      var pages, matched := Follow(index, query, limits), Matched(index, query);
      && Items(pages) <= matched
      && (Finished(pages) ==> Items(pages) == matched)
      && (0 < |limits| && |matched| <= |limits| ==> Finished(pages))
    decreases |limits|
  {
    hide Matched, Limit, Follow, Items, Finished, ListPage;
    if limits == [] {
      NoPages(index, query);
    } else {
      FollowStep(index, query, limits);
      var first := query.(limit := limits[0]);
      LimitIsFree(index, query, limits[0]);
      var matched := Matched(index, query);
      var page := ListPage(index, first);
      PageShape(index, first);
      if page.cursor.Some? {
        var k := |page.items|;
        CursorContinues(index, query, k);
        PagesListEverything(index, query.(cursor := page.cursor), limits[1..]);
        assert matched == matched[..k] + matched[k..];
      }
    }
  }

  /** A page holds at most a hundred entries, and one that is not the last holds as many as were asked for, within
      one and a hundred; fifty when no number was. */
  lemma PageSize(index: seq<Summary>, query: Query)
    ensures
      var page := ListPage(index, query);
      && |page.items| <= 100
      && (page.cursor.Some? && query.limit.None? ==> |page.items| == 50)
      && (page.cursor.Some? && query.limit.Some? ==>
            |page.items| == if query.limit.value < 1 then 1 else if query.limit.value > 100 then 100 else query.limit.value)
  {
    hide Matched;
  }

  lemma PageShape(index: seq<Summary>, query: Query)
    ensures
      var page, matched := ListPage(index, query), Matched(index, query);
      && page.items <= matched
      && (page.cursor.None? ==> page.items == matched)
      && (page.cursor.Some? ==>
            0 < |page.items| < |matched| && page.cursor == Some(CursorOf(matched[|page.items| - 1])))
  {
    hide Matched;
  }
}

/** The stored index and entries. */
module History {
  import opened Bytes
  import opened HistoryModel

  predicate HasId(items: seq<Summary>, id: string) {
    exists item <- items :: item.id == id
  }

  predicate Expired(item: Summary, cutoff: int) {
    !item.pinned && item.startedAt < cutoff
  }

  function ExpiredIds(items: seq<Summary>, cutoff: int): set<string> {
    set item <- items | Expired(item, cutoff) :: item.id
  }

  /** The items whose ids are not removed, in order. */
  function Without(items: seq<Summary>, ids: set<string>): seq<Summary> {
    if items == [] then []
    else (if items[0].id in ids then [] else [items[0]]) + Without(items[1..], ids)
  }

  function WithPin(items: seq<Summary>, id: string, pinned: bool): seq<Summary> {
    seq(|items|, i requires 0 <= i < |items| => if items[i].id == id then items[i].(pinned := pinned) else items[i])
  }

  lemma {:induction false} WithoutMeans(items: seq<Summary>, ids: set<string>)
    ensures forall item :: item in Without(items, ids) <==> item in items && item.id !in ids
    ensures UniqueIds(items) ==> UniqueIds(Without(items, ids))
  {
    if items != [] {
      var rest := Without(items[1..], ids);
      WithoutMeans(items[1..], ids);
      if UniqueIds(items) {
        forall i, j | 0 <= i < j < |items[1..]| ensures items[1..][i].id != items[1..][j].id {}
        forall i | 0 <= i < |rest| ensures rest[i].id != items[0].id {
          assert rest[i] in items[1..];
        }
      }
      assert items == [items[0]] + items[1..];
    }
  }

  /** Newest first; entries of the same moment stay in index order. */
  function InsertByStart(item: Summary, sorted: seq<Summary>): seq<Summary> {
    if sorted == [] || item.startedAt >= sorted[0].startedAt then [item] + sorted
    else [sorted[0]] + InsertByStart(item, sorted[1..])
  }

  function SortByStart(items: seq<Summary>): seq<Summary> {
    if items == [] then [] else InsertByStart(items[0], SortByStart(items[1..]))
  }

  predicate Descending(items: seq<Summary>) {
    forall i, j :: 0 <= i < j < |items| ==> items[i].startedAt >= items[j].startedAt
  }

  lemma {:induction false} InsertByStartMeans(item: Summary, sorted: seq<Summary>)
    requires Descending(sorted)
    ensures Descending(InsertByStart(item, sorted))
    ensures forall other :: other in InsertByStart(item, sorted) <==> other == item || other in sorted
  {
    if sorted != [] && item.startedAt < sorted[0].startedAt {
      InsertByStartMeans(item, sorted[1..]);
      var rest := InsertByStart(item, sorted[1..]);
      forall i | 0 <= i < |rest| ensures sorted[0].startedAt >= rest[i].startedAt {
        assert rest[i] == item || rest[i] in sorted[1..];
      }
      assert sorted == [sorted[0]] + sorted[1..];
    }
  }

  lemma {:induction false} SortByStartMeans(items: seq<Summary>)
    ensures Descending(SortByStart(items))
    ensures forall item :: item in SortByStart(items) <==> item in items
  {
    if items != [] {
      SortByStartMeans(items[1..]);
      InsertByStartMeans(items[0], SortByStart(items[1..]));
      assert items == [items[0]] + items[1..];
    }
  }

  /** The entries of one moment, in order. */
  function AtMoment(items: seq<Summary>, moment: int): seq<Summary> {
    if items == [] then []
    else (if items[0].startedAt == moment then [items[0]] else []) + AtMoment(items[1..], moment)
  }

  /** Sorting leaves entries of one moment in the order of the index. */
  lemma {:induction false} SortIsStable(items: seq<Summary>, moment: int)
    ensures AtMoment(SortByStart(items), moment) == AtMoment(items, moment)
  {
    if items != [] {
      SortIsStable(items[1..], moment);
      InsertIsStable(items[0], SortByStart(items[1..]), moment);
    }
  }

  lemma {:induction false} InsertIsStable(item: Summary, sorted: seq<Summary>, moment: int)
    ensures AtMoment(InsertByStart(item, sorted), moment) ==
      (if item.startedAt == moment then [item] else []) + AtMoment(sorted, moment)
  {
    hide AtMoment;
    if sorted == [] || item.startedAt >= sorted[0].startedAt {
      MomentFirst(item, sorted, moment);
    } else {
      var rest := InsertByStart(item, sorted[1..]);
      assert sorted == [sorted[0]] + sorted[1..];
      InsertIsStable(item, sorted[1..], moment);
      MomentFirst(sorted[0], rest, moment);
      MomentFirst(sorted[0], sorted[1..], moment);
    }
  }

  lemma MomentFirst(first: Summary, rest: seq<Summary>, moment: int)
    ensures AtMoment([first] + rest, moment) == (if first.startedAt == moment then [first] else []) + AtMoment(rest, moment)
  {
    assert ([first] + rest)[1..] == rest;
  }

  function Executed(items: seq<Summary>): seq<Summary> {
    if items == [] then []
    else (if items[0].status.Some? then [items[0]] else []) + Executed(items[1..])
  }

  lemma {:induction false} ExecutedMeans(items: seq<Summary>)
    ensures forall item :: item in Executed(items) <==> item in items && item.status.Some?
  {
    if items != [] {
      ExecutedMeans(items[1..]);
      assert items == [items[0]] + items[1..];
    }
  }

  class BrowserHistory<Entry> {
    var index: seq<Summary>
    var entries: map<string, Entry>

    constructor ()
      ensures Valid() && index == []
    {
      index, entries := [], map[];
    }

    /** Ids are unique, and exactly the listed entries are kept. */
    ghost predicate Valid()
      reads this
    {
      UniqueIds(index) && forall id :: id in entries <==> HasId(index, id)
    }

    /** Appending an id that is already there changes nothing; retention runs afterwards and may fail. */
    method Append(summary: Summary, entry: Entry, cutoff: int, pruned: bool)
      requires Valid()
      modifies this
      ensures Valid()
      ensures old(HasId(index, summary.id)) ==> index == old(index) && entries == old(entries)
      ensures !old(HasId(index, summary.id)) ==>
        && (var all := old(index) + [summary];
            index == if pruned then Without(all, ExpiredIds(all, cutoff)) else all)
        && (forall item :: item in index <==>
              (item in old(index) || item == summary) && !(pruned && !item.pinned && item.startedAt < cutoff))
        && (summary in index ==> summary.id in entries && entries[summary.id] == entry)
        && (forall id <- entries :: id != summary.id ==> id in old(entries) && entries[id] == old(entries)[id])
    {
      if HasId(index, summary.id) {
        return;
      }
      AppendUnique(index, summary);
      index, entries := index + [summary], entries[summary.id := entry];
      forall id ensures id in entries <==> HasId(index, id) {
        HasIdSnoc(old(index), summary, id);
      }
      if pruned {
        Prune(cutoff);
      }
    }

    /** Removes what retention no longer covers; pinned entries stay. */
    method Prune(cutoff: int)
      requires Valid()
      modifies this
      ensures Valid()
      ensures index == Without(old(index), ExpiredIds(old(index), cutoff))
      ensures entries == old(entries) - ExpiredIds(old(index), cutoff)
      ensures forall item :: item in index <==> item in old(index) && (item.pinned || item.startedAt >= cutoff)
    {
      var ids := ExpiredIds(index, cutoff);
      forall item <- index ensures item.id in ids <==> Expired(item, cutoff) {
        if item.id in ids {
          var other :| other in index && Expired(other, cutoff) && other.id == item.id;
          SameId(index, item, other);
        }
      }
      RemoveItems(ids);
    }

    /** One page of what retention leaves. */
    method List(query: Query, cutoff: int) returns (page: Page)
      requires Valid()
      modifies this
      ensures Valid() && page == ListPage(index, query)
      ensures forall item :: item in index <==> item in old(index) && (item.pinned || item.startedAt >= cutoff)
    {
      Prune(cutoff);
      page := ListPage(index, query);
    }

    method RemoveItems(ids: set<string>)
      requires Valid()
      modifies this
      ensures Valid() && index == Without(old(index), ids) && entries == old(entries) - ids
      ensures forall item :: item in index <==> item in old(index) && item.id !in ids
    {
      WithoutMeans(index, ids);
      index, entries := Without(index, ids), entries - ids;
      forall id ensures id in entries <==> HasId(index, id) {
        if HasId(old(index), id) && id !in ids {
          var item :| item in old(index) && item.id == id;
          assert item in index;
        }
      }
    }

    method Pin(id: string, pinned: bool)
      requires Valid()
      modifies `index
      ensures Valid() && |index| == |old(index)|
      ensures forall i :: 0 <= i < |index| ==>
        index[i] == if old(index)[i].id == id then old(index)[i].(pinned := pinned) else old(index)[i]
    {
      index := WithPin(index, id, pinned);
      forall other ensures HasId(index, other) <==> HasId(old(index), other) {
        if HasId(old(index), other) {
          var i :| 0 <= i < |index| && old(index)[i].id == other;
          assert index[i].id == other;
        }
      }
    }

    /** Prunes, then loads the newest response of each document, once, as far as its entry is there. An entry that
        cannot be read ends the call, unless the caller collects such ids. */
    method LatestExecutions(cutoff: int, unreadable: set<string>, collect: bool)
      returns (latest: Option<seq<Summary>>, reported: seq<string>)
      requires Valid()
      modifies this
      ensures Valid() && index == Without(old(index), ExpiredIds(old(index), cutoff))
      ensures entries == old(entries) - ExpiredIds(old(index), cutoff)
      ensures
        var newest := FirstOfEach(SortByStart(Executed(index)));
        && (latest.None? <==> !collect && exists item <- newest :: item.id in unreadable)
        && (latest.Some? ==>
              && latest.value == Loaded(newest, entries.Keys - unreadable)
              && reported == Unread(newest, unreadable))
    {
      hide SortByStart, Executed, FirstOfEach, Loaded, Unread, Without, ExpiredIds, Expired;
      Prune(cutoff);
      latest, reported := NewestEntries(unreadable, collect);
    }

    method NewestEntries(unreadable: set<string>, collect: bool) returns (latest: Option<seq<Summary>>, reported: seq<string>)
      ensures
        var newest := FirstOfEach(SortByStart(Executed(index)));
        && (latest.None? <==> !collect && exists item <- newest :: item.id in unreadable)
        && (latest.Some? ==>
              && latest.value == Loaded(newest, entries.Keys - unreadable)
              && reported == Unread(newest, unreadable))
    {
      hide SortByStart, Executed, HasDocument;
      var items := SortByStart(Executed(index));
      var records: seq<Summary> := [];
      reported := [];
      ghost var newest: seq<Summary> := [];
      var seen: set<string> := {};
      var i := 0;
      assert items[..0] == [];
      NoDocument();
      while i < |items|
        invariant 0 <= i <= |items|
        invariant newest == FirstOfEach(items[..i])
        invariant records == Loaded(newest, entries.Keys - unreadable) && reported == Unread(newest, unreadable)
        invariant !collect ==> forall item <- newest :: item.id !in unreadable
        invariant forall document :: document in seen <==> HasDocument(newest, document)
      {
        var item := items[i];
        assert items[..i + 1][..i] == items[..i];
        if item.documentId !in seen {
          seen := seen + {item.documentId};
          HasDocumentSnoc(newest, item);
          LoadedSnoc(newest, item, entries.Keys - unreadable, unreadable);
          newest := newest + [item];
          if item.id in unreadable {
            if !collect {
              FirstOfEachPrefix(items, i + 1);
              assert item in newest;
              return None, [];
            }
            reported := reported + [item.id];
          } else if item.id in entries {
            records := records + [item];
          }
        }
        i := i + 1;
      }
      assert items[..i] == items;
      latest := Some(records);
    }
  }

  /** The items whose entry is there and can be read. */
  function Loaded(items: seq<Summary>, ids: set<string>): seq<Summary> {
    if items == [] then []
    else Loaded(items[..|items| - 1], ids) + if items[|items| - 1].id in ids then [items[|items| - 1]] else []
  }

  function Unread(items: seq<Summary>, unreadable: set<string>): seq<string> {
    if items == [] then []
    else Unread(items[..|items| - 1], unreadable) + if items[|items| - 1].id in unreadable then [items[|items| - 1].id] else []
  }

  lemma LoadedSnoc(items: seq<Summary>, item: Summary, ids: set<string>, unreadable: set<string>)
    ensures Loaded(items + [item], ids) == Loaded(items, ids) + if item.id in ids then [item] else []
    ensures Unread(items + [item], unreadable) == Unread(items, unreadable) + if item.id in unreadable then [item.id] else []
  {
    assert (items + [item])[..|items|] == items;
  }

  lemma {:induction false} LoadedMeans(items: seq<Summary>, ids: set<string>)
    ensures forall item :: item in Loaded(items, ids) <==> item in items && item.id in ids
  {
    if items != [] {
      var front, last := items[..|items| - 1], items[|items| - 1];
      assert items == front + [last];
      LoadedMeans(front, ids);
    }
  }

  ghost predicate OnePerDocument(items: seq<Summary>) {
    forall i, j :: 0 <= i < j < |items| ==> items[i].documentId != items[j].documentId
  }

  lemma {:induction false} LoadedDistinct(items: seq<Summary>, ids: set<string>)
    requires OnePerDocument(items)
    ensures OnePerDocument(Loaded(items, ids))
  {
    if items != [] {
      var front, last := items[..|items| - 1], items[|items| - 1];
      LoadedDistinct(front, ids);
      LoadedMeans(front, ids);
      var earlier := Loaded(front, ids);
      if last.id in ids {
        OtherDocuments(items, earlier);
      }
    }
  }

  lemma OtherDocuments(items: seq<Summary>, earlier: seq<Summary>)
    requires items != [] && OnePerDocument(items) && OnePerDocument(earlier)
    requires forall item <- earlier :: item in items[..|items| - 1]
    ensures OnePerDocument(earlier + [items[|items| - 1]])
  {
    var last := items[|items| - 1];
    forall i | 0 <= i < |earlier| ensures earlier[i].documentId != last.documentId {
      assert earlier[i] in earlier;
      var j :| 0 <= j < |items| - 1 && items[..|items| - 1][j] == earlier[i];
      assert items[j].documentId != items[|items| - 1].documentId;
    }
  }

  lemma {:induction false} FirstOfEachPrefix(items: seq<Summary>, n: nat)
    requires n <= |items|
    ensures FirstOfEach(items[..n]) <= FirstOfEach(items)
    decreases |items| - n
  {
    if n == |items| {
      assert items[..n] == items;
    } else {
      FirstOfEachPrefix(items, n + 1);
      assert items[..n + 1][..n] == items[..n];
    }
  }

  predicate HasDocument(items: seq<Summary>, document: string) {
    exists item <- items :: item.documentId == document
  }

  function FirstOfEach(items: seq<Summary>): seq<Summary> {
    if items == [] then []
    else
      var earlier, last := FirstOfEach(items[..|items| - 1]), items[|items| - 1];
      if HasDocument(earlier, last.documentId) then earlier else earlier + [last]
  }

  lemma NoDocument()
    ensures forall document :: !HasDocument([], document)
  {
  }

  lemma HasDocumentSnoc(items: seq<Summary>, item: Summary)
    ensures forall document :: HasDocument(items + [item], document) <==> HasDocument(items, document) || document == item.documentId
  {
    forall document ensures HasDocument(items + [item], document) <==> HasDocument(items, document) || document == item.documentId {
      if HasDocument(items, document) {
        var other :| other in items && other.documentId == document;
        assert other in items + [item];
      }
      assert item in items + [item];
    }
  }

  ghost predicate NewestIn(latest: seq<Summary>, item: Summary) {
    exists newest <- latest :: newest.documentId == item.documentId && newest.startedAt >= item.startedAt
  }

  lemma {:induction false} FirstOfEachMeans(items: seq<Summary>, i: nat)
    requires Descending(items) && i < |items|
    ensures NewestIn(FirstOfEach(items), items[i])
    ensures forall item <- FirstOfEach(items) :: item in items
    decreases |items|
  {
    var front, last := items[..|items| - 1], items[|items| - 1];
    assert items == front + [last];
    var earlier := FirstOfEach(front);
    if i < |front| {
      FirstOfEachMeans(front, i);
      var newest :| newest in earlier && newest.documentId == items[i].documentId && newest.startedAt >= items[i].startedAt;
      assert newest in FirstOfEach(items);
    } else {
      FirstOfEachIn(front);
      if HasDocument(earlier, last.documentId) {
        var newest :| newest in earlier && newest.documentId == last.documentId;
        var j :| 0 <= j < |front| && front[j] == newest;
        assert items[j] == newest;
      } else {
        assert last in FirstOfEach(items);
      }
    }
    FirstOfEachIn(items);
  }

  lemma {:induction false} FirstOfEachIn(items: seq<Summary>)
    ensures forall item <- FirstOfEach(items) :: item in items
  {
    if items != [] {
      var front, last := items[..|items| - 1], items[|items| - 1];
      assert items == front + [last];
      FirstOfEachIn(front);
    }
  }

  lemma {:induction false} FirstOfEachDistinct(items: seq<Summary>, i: nat, j: nat)
    requires i < j < |FirstOfEach(items)|
    ensures FirstOfEach(items)[i].documentId != FirstOfEach(items)[j].documentId
    decreases |items|
  {
    var front, last := items[..|items| - 1], items[|items| - 1];
    var earlier := FirstOfEach(front);
    if j < |earlier| {
      FirstOfEachDistinct(front, i, j);
    } else {
      assert earlier[i] in earlier;
    }
  }

  /** The latest executions: at most one for each document, each with an entry; and a document with a response is
      missing only when the entry of its newest response is. */
  lemma LatestMeans(index: seq<Summary>, ids: set<string>, item: Summary)
    ensures
      var newest := FirstOfEach(SortByStart(Executed(index)));
      var latest := Loaded(newest, ids);
      && (item in latest ==> item in index && item.status.Some? && item.id in ids)
      && OnePerDocument(latest)
      && (item in index && item.status.Some? ==>
            NewestIn(newest, item)
            && ((forall other <- newest :: other.documentId == item.documentId ==> other.id in ids) ==> NewestIn(latest, item)))
  {
    hide Executed, SortByStart, FirstOfEach, Loaded;
    var items := SortByStart(Executed(index));
    ExecutedMeans(index);
    SortByStartMeans(Executed(index));
    FirstOfEachIn(items);
    var newest := FirstOfEach(items);
    LoadedMeans(newest, ids);
    if item in index && item.status.Some? {
      var i :| 0 <= i < |items| && items[i] == item;
      FirstOfEachMeans(items, i);
    }
    forall i, j | 0 <= i < j < |newest| ensures newest[i].documentId != newest[j].documentId {
      FirstOfEachDistinct(items, i, j);
    }
    LoadedDistinct(newest, ids);
  }

  lemma AppendUnique(items: seq<Summary>, item: Summary)
    requires UniqueIds(items) && !HasId(items, item.id)
    ensures UniqueIds(items + [item])
  {
    forall i | 0 <= i < |items| ensures items[i].id != item.id {
      assert items[i] in items;
    }
  }

  lemma HasIdSnoc(items: seq<Summary>, item: Summary, id: string)
    ensures HasId(items + [item], id) <==> HasId(items, id) || id == item.id
  {
    if HasId(items, id) {
      var other :| other in items && other.id == id;
      assert other in items + [item];
    }
    assert item in items + [item];
  }

  lemma SameId(items: seq<Summary>, a: Summary, b: Summary)
    requires UniqueIds(items) && a in items && b in items && a.id == b.id
    ensures a == b
  {
  }
}
