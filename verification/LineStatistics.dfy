/** Line counts and longest lines: while capturing, over stored windows, and by definition. */
module LineStatistics {
  import opened Bytes
  import opened ContentModel
  import opened ContentStore

  /** A non-empty body has one more line than newlines; an empty one has none. */
  function LineCount(s: seq<byte>): nat {
    if s == [] then 0 else |SplitLines(s)|
  }

  function Longest(lines: seq<seq<byte>>): nat {
    if lines == [] then 0 else Max(|lines[0]|, Longest(lines[1..]))
  }

  function LongestLine(s: seq<byte>): nat {
    Longest(SplitLines(s))
  }

  /** Newlines seen, bytes since the last one, and the longest line ended so far. */
  datatype Counters = Counters(newlines: nat, current: nat, longest: nat)

  function Step(c: Counters, b: byte): Counters {
    if b == NEWLINE then Counters(c.newlines + 1, 0, Max(c.longest, c.current)) else c.(current := c.current + 1)
  }

  function Scan(s: seq<byte>): Counters {
    if s == [] then Counters(0, 0, 0) else Step(Scan(s[..|s| - 1]), s[|s| - 1])
  }

  /** What one more byte does to the lines so far. */
  function Extend(lines: seq<seq<byte>>, b: byte): seq<seq<byte>>
    requires |lines| > 0
  {
    var last := |lines| - 1;
    if b == NEWLINE then lines + [[]] else lines[..last] + [lines[last] + [b]]
  }

  lemma ExtendBehind(line: seq<byte>, rest: seq<seq<byte>>, b: byte)
    requires |rest| > 0
    ensures Extend([line] + rest, b) == [line] + Extend(rest, b)
  {
    assert ([line] + rest)[..|rest|] == [line] + rest[..|rest| - 1];
  }

  lemma {:induction false} SplitSnoc(s: seq<byte>, b: byte)
    ensures SplitLines(s + [b]) == Extend(SplitLines(s), b)
    decreases |s|
  {
    var k := NextNewline(s, 0);
    var t := s + [b];
    if k < |s| {
      SplitSnoc(s[k + 1..], b);
      ExtendBehind(s[..k], SplitLines(s[k + 1..]), b);
      NextNewlineUnique(t, 0, k);
      hide Extend;
      assert t[..k] == s[..k] && t[k + 1..] == s[k + 1..] + [b];
    } else if b == NEWLINE {
      NextNewlineUnique(t, 0, |s|);
      assert t[..|s|] == s && t[|s| + 1..] == [];
    } else {
      NextNewlineUnique(t, 0, |t|);
    }
  }

  lemma {:induction false} LongestConcat(a: seq<seq<byte>>, b: seq<seq<byte>>)
    ensures Longest(a + b) == Max(Longest(a), Longest(b))
    decreases |a|
  {
    if a == [] {
      assert a + b == b;
    } else {
      assert (a + b)[1..] == a[1..] + b;
      LongestConcat(a[1..], b);
    }
  }

  /** The counters mean what splitting at newlines says. */
  lemma {:induction false} ScanMeaning(s: seq<byte>)
    ensures var lines := SplitLines(s);
            var last := |lines| - 1;
            && Scan(s).newlines == last
            && Scan(s).current == |lines[last]|
            && Scan(s).longest == Longest(lines[..last])
    decreases |s|
  {
    if s == [] {
      assert SplitLines(s) == [[]];
    } else {
      var front, b := s[..|s| - 1], s[|s| - 1];
      assert s == front + [b];
      ScanMeaning(front);
      SplitSnoc(front, b);
      var lines := SplitLines(front);
      var last := |lines| - 1;
      LongestConcat(lines[..last], [lines[last]]);
      assert lines[..last] + [lines[last]] == lines;
      assert (lines + [[]])[..last + 1] == lines;
      assert (lines[..last] + [lines[last] + [b]])[..last] == lines[..last];
    }
  }

  lemma ScanResult(s: seq<byte>)
    ensures (if s == [] then 0 else Scan(s).newlines + 1) == LineCount(s)
    ensures Max(Scan(s).longest, Scan(s).current) == LongestLine(s)
  {
    ScanMeaning(s);
    var lines := SplitLines(s);
    var last := |lines| - 1;
    LongestConcat(lines[..last], [lines[last]]);
    assert lines[..last] + [lines[last]] == lines;
  }

  /** The counters a capture keeps while network chunks arrive. */
  class LineStatistics {
    var bytes: nat
    var newlineCount: nat
    var currentLineBytes: nat
    var maxLineBytes: nat
    ghost var observed: seq<byte>

    ghost predicate Valid()
      reads this
    {
      bytes == |observed| && Counters(newlineCount, currentLineBytes, maxLineBytes) == Scan(observed)
    }

    constructor ()
      ensures Valid() && observed == []
    {
      bytes, newlineCount, currentLineBytes, maxLineBytes := 0, 0, 0, 0;
      observed := [];
    }

    method Observe(chunk: seq<byte>)
      requires Valid()
      modifies this
      ensures Valid() && observed == old(observed) + chunk
    {
      bytes := bytes + |chunk|;
      ghost var before := observed;
      assert before + chunk[..0] == before;
      for i := 0 to |chunk|
        invariant bytes == |before| + |chunk|
        invariant Counters(newlineCount, currentLineBytes, maxLineBytes) == Scan(before + chunk[..i])
      {
        ghost var seen := before + chunk[..i + 1];
        assert seen[..|seen| - 1] == before + chunk[..i];
        if chunk[i] == NEWLINE {
          maxLineBytes := Max(maxLineBytes, currentLineBytes);
          currentLineBytes := 0;
          newlineCount := newlineCount + 1;
        } else {
          currentLineBytes := currentLineBytes + 1;
        }
      }
      assert chunk[..|chunk|] == chunk;
      observed := before + chunk;
    }

    /** What the finished capture reports. */
    method Apply() returns (lineCount: nat, maxLine: nat)
      requires Valid()
      ensures lineCount == LineCount(observed) && maxLine == LongestLine(observed)
    {
      ScanResult(observed);
      lineCount := if bytes == 0 then 0 else newlineCount + 1;
      maxLine := Max(maxLineBytes, currentLineBytes);
    }
  }

  function Flatten(chunks: seq<seq<byte>>): seq<byte> {
    if chunks == [] then [] else Flatten(chunks[..|chunks| - 1]) + chunks[|chunks| - 1]
  }

  /** The report over any split of a body into chunks is the report over the body. */
  method ObserveAll(chunks: seq<seq<byte>>) returns (lineCount: nat, maxLine: nat)
    ensures lineCount == LineCount(Flatten(chunks)) && maxLine == LongestLine(Flatten(chunks))
  {
    var statistics := new LineStatistics();
    for i := 0 to |chunks|
      invariant statistics.Valid() && fresh(statistics) && statistics.observed == Flatten(chunks[..i])
    {
      assert chunks[..i + 1][..i] == chunks[..i];
      statistics.Observe(chunks[i]);
    }
    assert chunks[..|chunks|] == chunks;
    lineCount, maxLine := statistics.Apply();
  }

  /** The same report, computed window by window from a stored content. */
  method StoredLineStatistics(store: ResponseContentStore, id: string)
    returns (r: Result<(nat, nat), StoreError>)
    requires store.Valid()
    ensures store.Readable(id) && store.limits.maxWindowBytes > 0 ==>
              r == Ok((LineCount(store.BytesOf(id)), LongestLine(store.BytesOf(id))))
  {
    hide Good, Scan;
    var reference := store.Reference(id);
    if reference.Err? { return Err(reference.error); }
    var size := reference.value.byteLength;
    ghost var content := store.BytesOf(id);
    ScanResult(content);
    if size == 0 {
      ScanNothing(content);
      assert content[..0] == content;
      return Ok((0, 0));
    }
    var offset, lineCount, currentLine, maximumLine := 0, 1, 0, 0;
    ScanNothing(content);
    while offset < size
      invariant 0 <= offset <= size && lineCount > 0 && currentLine >= 0 && maximumLine >= 0
      invariant Counters(lineCount - 1, currentLine, maximumLine) == Scan(content[..offset])
      decreases size - offset
    {
      var window := store.ReadWindow(id, offset, Min(size - offset, store.limits.maxWindowBytes));
      if window.Err? { return Err(window.error); }
      if window.value == [] { break; }
      for i := 0 to |window.value|
        invariant lineCount > 0 && currentLine >= 0 && maximumLine >= 0
        invariant Counters(lineCount - 1, currentLine, maximumLine) == Scan(content[..offset + i])
      {
        ScanNext(content, offset + i);
        if window.value[i] == NEWLINE {
          maximumLine := Max(maximumLine, currentLine);
          currentLine := 0;
          lineCount := lineCount + 1;
        } else {
          currentLine := currentLine + 1;
        }
      }
      offset := offset + |window.value|;
    }
    assert content[..size] == content;
    r := Ok((lineCount, Max(maximumLine, currentLine)));
  }

  lemma ScanNothing(content: seq<byte>)
    ensures Scan(content[..0]) == Counters(0, 0, 0)
  {
  }

  lemma ScanNext(content: seq<byte>, i: nat)
    requires i < |content|
    ensures Scan(content[..i + 1]) == Step(Scan(content[..i]), content[i])
  {
    assert content[..i + 1][..i] == content[..i];
  }
}
