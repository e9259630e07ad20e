/** Variable references in text: the editor's scanner, and the native check that must agree with it. */
module Template {
  import opened Bytes

  /** `from` and `to` delimit the whole reference; `name` is what it names. */
  datatype Token = Token(from: nat, to: nat, text: string, name: string)

  datatype Segment = Segment(text: string, variable: bool)

  const MASK := '\U{2022}'

  /** White space and line terminators, sections 12.2 and 12.3 of ECMA-262. */
  predicate Whitespace(c: char) {
    c in {'\t', '\U{000B}', '\U{000C}', '\U{FEFF}', '\n', '\r', '\U{2028}', '\U{2029}'} || SpaceSeparator(c)
  }

  /** Unicode general category Zs. */
  predicate SpaceSeparator(c: char) {
    c in {' ', '\U{00A0}', '\U{1680}', '\U{202F}', '\U{205F}', '\U{3000}'} || '\U{2000}' <= c <= '\U{200A}'
  }

  /** The native list, as ranges. */
  predicate NativeWhitespace(c: char) {
    '\U{0009}' <= c <= '\U{000D}' || c == '\U{0020}' || c == '\U{00A0}' || c == '\U{1680}'
    || '\U{2000}' <= c <= '\U{200A}' || c == '\U{2028}' || c == '\U{2029}' || c == '\U{202F}' || c == '\U{205F}'
    || c == '\U{3000}' || c == '\U{FEFF}'
  }

  predicate Brace(c: char) { c == '{' || c == '}' }

  predicate Blank(s: string) { forall c <- s :: Whitespace(c) }

  predicate BraceFree(s: string) { forall c <- s :: !Brace(c) }

  function TrimStart(s: string): string {
    if s != "" && Whitespace(s[0]) then TrimStart(s[1..]) else s
  }

  function TrimEnd(s: string): string {
    if s != "" && Whitespace(s[|s| - 1]) then TrimEnd(s[..|s| - 1]) else s
  }

  function Trim(s: string): string {
    TrimEnd(TrimStart(s))
  }

  // ------------------------------------------------------------------- tokens

  /** The expression of a reference: two opening braces, white space, at least one character that is no brace,
      white space, two closing braces. */
  ghost predicate Matches(s: string, from: nat, to: nat, start: nat, end: nat) {
    && from + 2 <= start < end && end + 2 <= to <= |s|
    && s[from..from + 2] == "{{" && Blank(s[from + 2..start]) && BraceFree(s[start..end])
    && Blank(s[end..to - 2]) && s[to - 2..to] == "}}"
  }

  function NextBrace(s: string, from: nat): (k: nat)
    requires from <= |s|
    ensures from <= k <= |s| && (k < |s| ==> Brace(s[k]))
    ensures forall j :: from <= j < k ==> !Brace(s[j])
    decreases |s| - from
  {
    if from == |s| || Brace(s[from]) then from else NextBrace(s, from + 1)
  }

  /** Where the reference that begins here ends. */
  function MatchEnd(s: string, from: nat): (end: Option<nat>)
    requires from <= |s|
    ensures end.Some? ==> from + 4 < end.value <= |s|
  {
    if from + 2 > |s| || s[from] != '{' || s[from + 1] != '{' then None
    else
      var k := NextBrace(s, from + 2);
      if k == from + 2 || k + 2 > |s| || s[k] != '}' || s[k + 1] != '}' then None else Some(k + 2)
  }

  function Tokens(s: string): seq<Token> {
    Scan(s, 0)
  }

  function Scan(s: string, from: nat): seq<Token>
    requires from <= |s|
    decreases |s| - from
  {
    if from == |s| then []
    else
      var end := MatchEnd(s, from);
      if end.None? then Scan(s, from + 1)
      else [TokenAt(s, from)] + Scan(s, end.value)
  }

  lemma BlankIsBraceFree(s: string)
    requires Blank(s)
    ensures BraceFree(s)
  {
  }

  /** The expression matches from one place to at most one end, and the scanner finds it. */
  lemma MatchEndIsMatch(s: string, from: nat, to: nat)
    requires from <= |s|
    ensures MatchEnd(s, from) == Some(to) <==> exists start: nat, end: nat :: Matches(s, from, to, start, end)
  {
    if MatchEnd(s, from) == Some(to) {
      var start: nat, end: nat := from + 2, to - 2;
      assert s[start..start] == "" && s[end..to - 2] == "";
      assert Matches(s, from, to, start, end);
    }
    if start: nat, end: nat :| Matches(s, from, to, start, end) {
      BlankIsBraceFree(s[from + 2..start]);
      BlankIsBraceFree(s[end..to - 2]);
      forall j | from + 2 <= j < to - 2 ensures !Brace(s[j]) {
        if j < start {
          assert s[j] in s[from + 2..start] by { assert s[from + 2..start][j - from - 2] == s[j]; }
        } else if j < end {
          assert s[j] in s[start..end] by { assert s[start..end][j - start] == s[j]; }
        } else {
          assert s[j] in s[end..to - 2] by { assert s[end..to - 2][j - end] == s[j]; }
        }
      }
      assert s[from] == s[from..from + 2][0] && s[from + 1] == s[from..from + 2][1];
      assert s[to - 2] == s[to - 2..to][0] && s[to - 1] == s[to - 2..to][1];
    }
  }

  /** However the expression divides the inside, its trimmed group is the trimmed inside. */
  lemma GroupNames(s: string, from: nat, to: nat, start: nat, end: nat)
    requires Matches(s, from, to, start, end)
    ensures Trim(s[start..end]) == Trim(s[from + 2..to - 2])
  {
    TrimPadded(s[from + 2..start], s[start..end], s[end..to - 2]);
    assert s[from + 2..to - 2] == s[from + 2..start] + s[start..end] + s[end..to - 2];
  }

  lemma {:induction false} TrimStartBlank(front: string, s: string)
    requires Blank(front)
    ensures TrimStart(front + s) == TrimStart(s)
  {
    if front == "" {
      assert front + s == s;
    } else {
      assert (front + s)[1..] == front[1..] + s;
      TrimStartBlank(front[1..], s);
    }
  }

  lemma {:induction false} TrimEndBlank(s: string, back: string)
    requires Blank(back)
    ensures TrimEnd(s + back) == TrimEnd(s)
  {
    if back == "" {
      assert s + back == s;
    } else {
      assert (s + back)[..|s + back| - 1] == s + back[..|back| - 1];
      TrimEndBlank(s, back[..|back| - 1]);
    }
  }

  lemma {:induction false} TrimStartOf(s: string, back: string)
    requires Blank(back)
    ensures TrimEnd(TrimStart(s + back)) == TrimEnd(TrimStart(s))
  {
    if s == "" {
      assert s + back == back;
      TrimStartBlank(back, "");
      assert back + "" == back;
    } else if Whitespace(s[0]) {
      assert (s + back)[1..] == s[1..] + back;
      TrimStartOf(s[1..], back);
    } else {
      TrimEndBlank(s, back);
    }
  }

  lemma TrimPadded(front: string, s: string, back: string)
    requires Blank(front) && Blank(back)
    ensures Trim(front + s + back) == Trim(s)
  {
    TrimStartBlank(front, s + back);
    assert front + s + back == front + (s + back);
    TrimStartOf(s, back);
  }

  lemma TrimSolid(s: string)
    requires s != "" && !Whitespace(s[0]) && !Whitespace(s[|s| - 1])
    ensures Trim(s) == s
  {
  }

  lemma {:induction false} TrimEmpty(s: string)
    ensures Trim(s) == "" <==> Blank(s)
  {
    if s == "" {
    } else if Whitespace(s[0]) {
      TrimEmpty(s[1..]);
      assert s == [s[0]] + s[1..];
    } else {
      TrimEndKeeps(s);
      assert s[0] in s;
    }
  }

  lemma {:induction false} TrimEndKeeps(s: string)
    requires s != "" && !Whitespace(s[0])
    ensures TrimEnd(s) != ""
  {
    if Whitespace(s[|s| - 1]) {
      TrimEndKeeps(s[..|s| - 1]);
    }
  }

  // ------------------------------------------------------ what the scanner finds

  ghost predicate NoMatchIn(s: string, from: nat, to: nat) {
    forall i :: from <= i < to <= |s| ==> MatchEnd(s, i).None?
  }

  /** Leftmost matches from a position on: each is one, none overlap, and none begins in between. */
  ghost predicate Leftmost(s: string, from: nat, tokens: seq<Token>)
    requires from <= |s|
    decreases |tokens|
  {
    if tokens == [] then NoMatchIn(s, from, |s|)
    else
      var token := tokens[0];
      && from <= token.from < token.to <= |s| && NoMatchIn(s, from, token.from)
      && MatchEnd(s, token.from) == Some(token.to)
      && token.text == s[token.from..token.to] && token.name == Trim(s[token.from + 2..token.to - 2])
      && Leftmost(s, token.to, tokens[1..])
  }

  /** The scanner finds the leftmost matches, and nothing else is such a list. */
  lemma {:induction false} ScanIsLeftmost(s: string, from: nat, tokens: seq<Token>)
    requires from <= |s|
    ensures Leftmost(s, from, tokens) <==> tokens == Scan(s, from)
    decreases |s| - from
  {
    hide MatchEnd, Trim, Leftmost, NoMatchIn;
    if from == |s| {
      LeftmostAtEnd(s, tokens);
    } else if MatchEnd(s, from).None? {
      LeftmostSkips(s, from, tokens);
      ScanIsLeftmost(s, from + 1, tokens);
    } else {
      LeftmostFirst(s, from, tokens);
      if tokens != [] {
        ScanIsLeftmost(s, MatchEnd(s, from).value, tokens[1..]);
        assert tokens == [tokens[0]] + tokens[1..];
      }
    }
  }

  lemma LeftmostAtEnd(s: string, tokens: seq<Token>)
    ensures Leftmost(s, |s|, tokens) <==> tokens == []
  {
    hide MatchEnd, Trim;
  }

  /** The token of the match that begins here. */
  function TokenAt(s: string, from: nat): Token
    requires from <= |s| && MatchEnd(s, from).Some?
  {
    var to := MatchEnd(s, from).value;
    Token(from, to, s[from..to], Trim(s[from + 2..to - 2]))
  }

  lemma LeftmostSkips(s: string, from: nat, tokens: seq<Token>)
    requires from < |s| && MatchEnd(s, from).None?
    ensures Leftmost(s, from, tokens) <==> Leftmost(s, from + 1, tokens)
  {
    hide MatchEnd, Trim;
  }

  lemma LeftmostFirst(s: string, from: nat, tokens: seq<Token>)
    requires from < |s| && MatchEnd(s, from).Some?
    ensures Leftmost(s, from, tokens) <==>
      tokens != [] && tokens[0] == TokenAt(s, from) && Leftmost(s, MatchEnd(s, from).value, tokens[1..])
  {
    hide Trim, MatchEnd;
  }

  /** Tokens are ordered and disjoint, and lie inside the text. */
  lemma {:induction false} TokensOrdered(s: string, from: nat, i: nat)
    requires from <= |s| && i < |Scan(s, from)|
    ensures from <= Scan(s, from)[i].from < Scan(s, from)[i].to <= |s|
    ensures i + 1 < |Scan(s, from)| ==> Scan(s, from)[i].to <= Scan(s, from)[i + 1].from
    decreases |s| - from
  {
    hide Trim, MatchEnd;
    var end := MatchEnd(s, from);
    if end.None? {
      TokensOrdered(s, from + 1, i);
    } else if i > 0 {
      TokensOrdered(s, end.value, i - 1);
    } else if |Scan(s, from)| > 1 {
      TokensOrdered(s, end.value, 0);
    }
  }

  /** The name is the text without the white space around it. */
  ghost predicate NameOf(text: string, name: string) {
    && (exists front, back :: Blank(front) && Blank(back) && text == front + name + back)
    && (name != "" ==> !Whitespace(name[0]) && !Whitespace(name[|name| - 1]))
  }

  /** Where the expression matches. */
  ghost predicate MatchesAt(s: string, from: nat, to: nat) {
    exists start: nat, end: nat :: Matches(s, from, to, start, end)
  }

  /** A match of the expression, under its trimmed name. */
  ghost predicate TokenOk(s: string, token: Token) {
    && token.from + 4 < token.to <= |s| && MatchesAt(s, token.from, token.to)
    && token.text == s[token.from..token.to] && NameOf(s[token.from + 2..token.to - 2], token.name)
  }

  /** Every token is a match of the expression under its trimmed name, they are in order without overlap, and wherever
      the expression matches, the place lies in a token. */
  lemma TokensMean(s: string)
    ensures forall i :: 0 <= i < |Tokens(s)| ==> TokenOk(s, Tokens(s)[i])
    ensures forall i :: 0 < i < |Tokens(s)| ==> Tokens(s)[i - 1].to <= Tokens(s)[i].from
    ensures forall p: nat, to: nat :: MatchesAt(s, p, to) ==> exists token <- Tokens(s) :: token.from <= p < token.to
  {
    hide MatchEnd, Trim, MatchesAt, TokenOk;
    forall i | 0 <= i < |Tokens(s)| ensures TokenOk(s, Tokens(s)[i]) {
      TokenMeans(s, 0, i);
    }
    forall i | 0 < i < |Tokens(s)| ensures Tokens(s)[i - 1].to <= Tokens(s)[i].from {
      TokensOrdered(s, 0, i - 1);
    }
    forall p: nat, to: nat | MatchesAt(s, p, to) ensures exists token <- Tokens(s) :: token.from <= p < token.to {
      MatchInside(s, p, to);
      FoundMatches(s, p, to);
      NoneMissed(s, 0, p, to);
    }
  }

  lemma {:induction false} TokenMeans(s: string, from: nat, i: nat)
    requires from <= |s| && i < |Scan(s, from)|
    ensures TokenOk(s, Scan(s, from)[i])
    decreases |s| - from
  {
    hide MatchEnd, Trim, MatchesAt, NameOf;
    var end := MatchEnd(s, from);
    if end.None? {
      TokenMeans(s, from + 1, i);
    } else if i > 0 {
      TokenMeans(s, end.value, i - 1);
    } else {
      FoundMatches(s, from, end.value);
      TrimNames(s[from + 2..end.value - 2]);
    }
  }

  lemma MatchInside(s: string, from: nat, to: nat)
    requires MatchesAt(s, from, to)
    ensures from + 4 < to <= |s|
  {
  }

  lemma FoundMatches(s: string, from: nat, to: nat)
    requires from <= |s|
    ensures MatchesAt(s, from, to) <==> MatchEnd(s, from) == Some(to)
  {
    hide MatchEnd, Matches;
    MatchEndIsMatch(s, from, to);
  }

  lemma TrimNames(text: string)
    ensures NameOf(text, Trim(text))
  {
    hide Trim, Whitespace, Blank;
    TrimParts(text);
  }

  lemma {:induction false} NoneMissed(s: string, from: nat, p: nat, to: nat)
    requires from <= p <= |s| && MatchEnd(s, p) == Some(to)
    ensures exists token <- Scan(s, from) :: token.from <= p < token.to
    decreases |s| - from
  {
    hide MatchEnd, Trim;
    var end := MatchEnd(s, from);
    if from == |s| {
      AtTheEnd(s);
    } else if end.None? {
      NoneMissed(s, from + 1, p, to);
    } else if p < end.value {
      assert TokenAt(s, from) in Scan(s, from);
    } else {
      NoneMissed(s, end.value, p, to);
      var token :| token in Scan(s, end.value) && token.from <= p < token.to;
      assert token in Scan(s, from);
    }
  }

  lemma AtTheEnd(s: string)
    ensures MatchEnd(s, |s|).None?
  {
  }

  // ---------------------------------------------------------- pure references

  /** The editor's check: one reference, named, with only white space around it. */
  predicate IsPureTemplateReference(value: string) {
    var tokens := Tokens(value);
    if |tokens| != 1 || tokens[0].name == "" then false
    else
      var token := tokens[0];
      TokensOrdered(value, 0, 0);
      Trim(value[..token.from]) == "" && Trim(value[token.to..]) == ""
  }

  function StripPrefix(s: string): Option<string> {
    if |s| >= 2 && s[..2] == "{{" then Some(s[2..]) else None
  }

  function StripSuffix(s: string): Option<string> {
    if |s| >= 2 && s[|s| - 2..] == "}}" then Some(s[..|s| - 2]) else None
  }

  function NativeTrim(s: string): string {
    if s != "" && NativeWhitespace(s[0]) then NativeTrim(s[1..])
    else if s != "" && NativeWhitespace(s[|s| - 1]) then NativeTrim(s[..|s| - 1])
    else s
  }

  /** The native check. */
  predicate TemplateOnly(value: string) {
    var rest := StripPrefix(NativeTrim(value));
    if rest.None? then false
    else
      var name := StripSuffix(rest.value);
      name.Some? && NativeTrim(name.value) != "" && BraceFree(name.value)
  }

  lemma SameWhitespace(c: char)
    ensures NativeWhitespace(c) <==> Whitespace(c)
  {
  }

  lemma {:induction false} SameTrim(s: string)
    ensures NativeTrim(s) == Trim(s)
  {
    hide Whitespace, NativeWhitespace;
    if s != "" {
      SameWhitespace(s[0]);
      SameWhitespace(s[|s| - 1]);
      if Whitespace(s[0]) {
        SameTrim(s[1..]);
      } else if Whitespace(s[|s| - 1]) {
        SameTrim(s[..|s| - 1]);
      }
    }
  }

  /** What both checks look for. */
  ghost predicate Shape(value: string, from: nat, to: nat) {
    && from + 4 <= to <= |value|
    && Blank(value[..from]) && Blank(value[to..])
    && value[from..from + 2] == "{{" && value[to - 2..to] == "}}"
    && BraceFree(value[from + 2..to - 2]) && !Blank(value[from + 2..to - 2])
  }

  lemma {:induction false} TrimParts(s: string)
    ensures exists front, back :: Blank(front) && Blank(back) && s == front + Trim(s) + back
    ensures Trim(s) != "" ==> !Whitespace(Trim(s)[0]) && !Whitespace(Trim(s)[|Trim(s)| - 1])
  {
    TrimStartParts(s);
    var rest := TrimStart(s);
    TrimEndParts(rest);
    var front :| Blank(front) && s == front + rest;
    var back :| Blank(back) && rest == TrimEnd(rest) + back;
    assert s == front + Trim(s) + back;
  }

  lemma {:induction false} TrimStartParts(s: string)
    ensures exists front :: Blank(front) && s == front + TrimStart(s)
    ensures TrimStart(s) != "" ==> !Whitespace(TrimStart(s)[0])
  {
    if s != "" && Whitespace(s[0]) {
      TrimStartParts(s[1..]);
      var front :| Blank(front) && s[1..] == front + TrimStart(s[1..]);
      assert s == ([s[0]] + front) + TrimStart(s);
    } else {
      assert s == "" + TrimStart(s);
    }
  }

  lemma {:induction false} TrimEndParts(s: string)
    ensures exists back :: Blank(back) && s == TrimEnd(s) + back
    ensures TrimEnd(s) != "" ==> !Whitespace(TrimEnd(s)[|TrimEnd(s)| - 1]) && TrimEnd(s)[0] == s[0]
  {
    hide Whitespace, Blank;
    NothingIsBlank();
    if s != "" && Whitespace(s[|s| - 1]) {
      TrimEndParts(s[..|s| - 1]);
      var back :| Blank(back) && s[..|s| - 1] == TrimEnd(s[..|s| - 1]) + back;
      BlankSnoc(back, s[|s| - 1]);
      assert s == TrimEnd(s) + (back + [s[|s| - 1]]);
    } else {
      assert s == TrimEnd(s) + "";
    }
  }

  lemma BlankSnoc(s: string, c: char)
    requires Blank(s) && Whitespace(c)
    ensures Blank(s + [c])
  {
  }

  lemma NativeMeansShape(value: string)
    requires TemplateOnly(value)
    ensures exists from: nat, to: nat :: Shape(value, from, to)
  {
    hide Trim, NativeTrim, Whitespace, Blank, BraceFree, Shape;
    SameTrim(value);
    TrimParts(value);
    var core := Trim(value);
    var name := StripSuffix(StripPrefix(core).value).value;
    SameTrim(name);
    TrimEmpty(name);
    var front, back :| Blank(front) && Blank(back) && value == front + core + back;
    assert core == "{{" + name + "}}";
    ShapeFrom(front, name, back);
    assert value == front + ("{{" + name + "}}") + back;
  }

  lemma ShapeFrom(front: string, name: string, back: string)
    requires Blank(front) && Blank(back) && BraceFree(name) && !Blank(name)
    ensures Shape(front + ("{{" + name + "}}") + back, |front|, |front| + |name| + 4)
  {
    hide Whitespace, Blank, BraceFree;
    var value := front + ("{{" + name + "}}") + back;
    var from, to := |front|, |front| + |name| + 4;
    assert value[..from] == front && value[to..] == back && value[from + 2..to - 2] == name;
    assert value[from..from + 2] == "{{" && value[to - 2..to] == "}}";
  }

  lemma ShapeMeansNative(value: string, from: nat, to: nat)
    requires Shape(value, from, to)
    ensures TemplateOnly(value)
  {
    hide TemplateOnly, Blank, BraceFree;
    var front, name, back := value[..from], value[from + 2..to - 2], value[to..];
    ShapeParts(value, from, to);
    ReferenceIsNative(front, name, back);
  }

  lemma ShapeParts(value: string, from: nat, to: nat)
    requires Shape(value, from, to)
    ensures value == value[..from] + ("{{" + value[from + 2..to - 2] + "}}") + value[to..]
  {
    hide Blank, BraceFree;
    assert value[from..to] == value[from..from + 2] + value[from + 2..to - 2] + value[to - 2..to];
    assert value == value[..from] + value[from..to] + value[to..];
  }

  lemma ReferenceIsNative(front: string, name: string, back: string)
    requires Blank(front) && Blank(back) && BraceFree(name) && !Blank(name)
    ensures TemplateOnly(front + ("{{" + name + "}}") + back)
  {
    hide Trim, NativeTrim, Whitespace, Blank, BraceFree;
    var core := "{{" + name + "}}";
    TrimPadded(front, core, back);
    SameTrim(front + core + back);
    assert core[0] == '{' && core[|core| - 1] == '}';
    BraceIsSolid();
    TrimSolid(core);
    Stripped(name);
    SameTrim(name);
    TrimEmpty(name);
  }

  lemma Stripped(name: string)
    ensures StripPrefix("{{" + name + "}}") == Some(name + "}}") && StripSuffix(name + "}}") == Some(name)
  {
    var core, rest := "{{" + name + "}}", name + "}}";
    assert core[..2] == "{{" && core[2..] == rest;
    assert rest[|rest| - 2..] == "}}" && rest[..|rest| - 2] == name;
  }

  lemma BraceIsSolid()
    ensures !Whitespace('{') && !Whitespace('}')
  {
  }

  lemma {:induction false} BlankHasNoToken(s: string, from: nat, to: nat)
    requires from <= to <= |s| && Blank(s[from..to])
    ensures Scan(s, from) == Scan(s, to)
    decreases |s| - from
  {
    hide Whitespace, Trim;
    if from < to {
      assert s[from] == s[from..to][0];
      assert s[from] in s[from..to];
      BraceIsSolid();
      forall c <- s[from + 1..to] ensures Whitespace(c) {
        assert s[from..to][1..] == s[from + 1..to];
        assert c in s[from..to];
      }
      BlankHasNoToken(s, from + 1, to);
    }
  }

  lemma ShapeMeansPure(value: string, from: nat, to: nat)
    requires Shape(value, from, to)
    ensures IsPureTemplateReference(value)
  {
    hide Trim, MatchEnd, Blank, BraceFree, TemplateOnly;
    ShapeMatches(value, from, to);
    assert value[0..from] == value[..from];
    BlankHasNoToken(value, 0, from);
    assert value[to..|value|] == value[to..];
    BlankHasNoToken(value, to, |value|);
    assert Scan(value, |value|) == [];
    assert Tokens(value) == [TokenAt(value, from)];
    TrimEmpty(value[from + 2..to - 2]);
    TrimEmpty(value[..from]);
    TrimEmpty(value[to..]);
  }

  lemma ShapeMatches(value: string, from: nat, to: nat)
    requires Shape(value, from, to)
    ensures from + 4 < to <= |value| && MatchEnd(value, from) == Some(to)
  {
    hide Whitespace, MatchEnd, BraceFree;
    var start: nat, end: nat := from + 2, to - 2;
    SolidIsSomething(value[start..end]);
    assert value[start..start] == "" && value[end..end] == "";
    NothingIsBlank();
    assert Matches(value, from, to, start, end);
    MatchEndIsMatch(value, from, to);
  }

  lemma SolidIsSomething(s: string)
    requires !Blank(s)
    ensures s != ""
  {
  }

  lemma NothingIsBlank()
    ensures Blank("")
  {
  }

  lemma PureMeansShape(value: string)
    requires IsPureTemplateReference(value)
    ensures exists from: nat, to: nat :: Shape(value, from, to)
  {
    hide Trim, Whitespace, NextBrace, MatchEnd;
    var token := Tokens(value)[0];
    TokensOrdered(value, 0, 0);
    ScanIsLeftmost(value, 0, Tokens(value));
    TrimEmpty(value[..token.from]);
    TrimEmpty(value[token.to..]);
    InsideIsBraceFree(value, token.from, token.to);
    TrimEmpty(value[token.from + 2..token.to - 2]);
    assert Shape(value, token.from, token.to);
  }

  lemma InsideIsBraceFree(s: string, from: nat, to: nat)
    requires from <= |s| && MatchEnd(s, from) == Some(to)
    ensures from + 4 < to <= |s| && s[from..from + 2] == "{{" && s[to - 2..to] == "}}" && BraceFree(s[from + 2..to - 2])
  {
  }

  /** The two checks agree on every text. */
  lemma ChecksAgree(value: string)
    ensures IsPureTemplateReference(value) <==> TemplateOnly(value)
  {
    hide IsPureTemplateReference, TemplateOnly, Shape;
    if IsPureTemplateReference(value) {
      PureMeansShape(value);
      var from: nat, to: nat :| Shape(value, from, to);
      ShapeMeansNative(value, from, to);
    }
    if TemplateOnly(value) {
      NativeMeansShape(value);
      var from: nat, to: nat :| Shape(value, from, to);
      ShapeMeansPure(value, from, to);
    }
  }

  // ----------------------------------------------------------------- segments

  function Masked(s: string): string {
    seq(|s|, i requires 0 <= i < |s| => if Whitespace(s[i]) then s[i] else MASK)
  }

  function Joined(segments: seq<Segment>): string {
    if segments == [] then "" else Joined(segments[..|segments| - 1]) + segments[|segments| - 1].text
  }

  function References(segments: seq<Segment>): seq<string> {
    if segments == [] then []
    else
      var last := segments[|segments| - 1];
      References(segments[..|segments| - 1]) + if last.variable then [last.text] else []
  }

  ghost predicate InToken(tokens: seq<Token>, i: nat) {
    exists token <- tokens :: token.from <= i < token.to
  }

  /** What the segments show of a text: its references, and its literals as they are or masked. */
  ghost predicate Shows(s: string, tokens: seq<Token>, mask: bool, shown: string) {
    && |shown| <= |s|
    && forall i :: 0 <= i < |shown| ==>
         shown[i] == if mask && !InToken(tokens, i) && !Whitespace(s[i]) then MASK else s[i]
  }

  lemma JoinedSnoc(segments: seq<Segment>, segment: Segment)
    ensures Joined(segments + [segment]) == Joined(segments) + segment.text
    ensures References(segments + [segment]) == References(segments) + if segment.variable then [segment.text] else []
  {
    assert (segments + [segment])[..|segments|] == segments;
  }

  function TextsOf(tokens: seq<Token>): seq<string> {
    seq(|tokens|, i requires 0 <= i < |tokens| => tokens[i].text)
  }

  ghost predicate Ordered(s: string, tokens: seq<Token>) {
    forall i :: 0 <= i < |tokens| ==>
      && tokens[i].from < tokens[i].to <= |s| && tokens[i].text == s[tokens[i].from..tokens[i].to]
      && forall j :: 0 <= j < i ==> tokens[j].to <= tokens[i].from
  }

  /** The segments made so far show the text up to `from`, with the first `i` references behind them. */
  ghost predicate Built(s: string, tokens: seq<Token>, mask: bool, segments: seq<Segment>, i: nat, from: nat) {
    && Ordered(s, tokens) && i <= |tokens| && from <= |s|
    && (forall j :: 0 <= j < i ==> tokens[j].to <= from)
    && (i < |tokens| ==> from <= tokens[i].from)
    && |Joined(segments)| == from && Shows(s, tokens, mask, Joined(segments))
    && References(segments) == TextsOf(tokens[..i])
    && forall segment <- segments :: segment.text != ""
  }

  function Literal(text: string, mask: bool): Segment {
    Segment(if mask then Masked(text) else text, false)
  }

  /** Segments of a text: unmasked they join to the text itself, masked they keep its length, its white space and
      its references; the variable segments are the references in order, and no segment is empty. */
  method TemplateSegments(value: string, mask: bool) returns (segments: seq<Segment>)
    ensures !mask ==> Joined(segments) == value
    ensures |Joined(segments)| == |value| && Shows(value, Tokens(value), mask, Joined(segments))
    ensures References(segments) == TextsOf(Tokens(value))
    ensures forall segment <- segments :: segment.text != ""
  {
    hide Tokens, Literal, Built, Shows, Joined, References, TextsOf;
    segments := [];
    var from: nat := 0;
    var tokens := Tokens(value);
    BuiltNothing(value, mask);
    var i: nat := 0;
    while i < |tokens|
      invariant 0 <= i <= |tokens|
      invariant Built(value, tokens, mask, segments, i, from)
    {
      var token := tokens[i];
      BuiltBounds(value, tokens, mask, segments, i, from);
      if token.from > from {
        BuiltLiteral(value, tokens, mask, segments, i, from, token.from);
        segments := segments + [Literal(value[from..token.from], mask)];
      }
      BuiltToken(value, tokens, mask, segments, i);
      segments := segments + [Segment(token.text, true)];
      from := token.to;
      i := i + 1;
    }
    BuiltBounds(value, tokens, mask, segments, i, from);
    if from < |value| {
      BuiltLiteral(value, tokens, mask, segments, i, from, |value|);
      assert value[from..] == value[from..|value|];
      segments := segments + [Literal(value[from..], mask)];
    }
    BuiltAll(value, mask, segments);
  }

  lemma BuiltNothing(s: string, mask: bool)
    ensures Built(s, Tokens(s), mask, [], 0, 0)
  {
    hide Whitespace, Tokens;
    AllOrdered(s);
    assert TextsOf(Tokens(s)[..0]) == [];
  }

  lemma BuiltBounds(s: string, tokens: seq<Token>, mask: bool, segments: seq<Segment>, i: nat, from: nat)
    requires Built(s, tokens, mask, segments, i, from)
    ensures from <= |s| && (i < |tokens| ==> from <= tokens[i].from < tokens[i].to <= |s|)
  {
    hide Shows, Joined, References, TextsOf;
  }

  lemma BuiltLiteral(s: string, tokens: seq<Token>, mask: bool, segments: seq<Segment>, i: nat, from: nat, to: nat)
    requires Built(s, tokens, mask, segments, i, from) && from < to <= |s|
    requires to == if i < |tokens| then tokens[i].from else |s|
    ensures Built(s, tokens, mask, segments + [Literal(s[from..to], mask)], i, to)
  {
    hide Whitespace, Shows, TextsOf;
    ShowsLiteral(s, tokens, mask, Joined(segments), i, to);
    JoinedSnoc(segments, Literal(s[from..to], mask));
  }

  lemma BuiltToken(s: string, tokens: seq<Token>, mask: bool, segments: seq<Segment>, i: nat)
    requires i < |tokens| && Built(s, tokens, mask, segments, i, tokens[i].from)
    ensures Built(s, tokens, mask, segments + [Segment(tokens[i].text, true)], i + 1, tokens[i].to)
  {
    hide Whitespace, Shows;
    ShowsToken(s, tokens, mask, Joined(segments), i);
    JoinedSnoc(segments, Segment(tokens[i].text, true));
    assert TextsOf(tokens[..i + 1]) == TextsOf(tokens[..i]) + [tokens[i].text];
  }

  lemma BuiltAll(s: string, mask: bool, segments: seq<Segment>)
    requires Built(s, Tokens(s), mask, segments, |Tokens(s)|, |s|)
    ensures |Joined(segments)| == |s| && Shows(s, Tokens(s), mask, Joined(segments))
    ensures !mask ==> Joined(segments) == s
    ensures References(segments) == TextsOf(Tokens(s))
    ensures forall segment <- segments :: segment.text != ""
  {
    hide Whitespace, Tokens, Joined, References, TextsOf, InToken;
    assert Tokens(s)[..|Tokens(s)|] == Tokens(s);
  }

  lemma AllOrdered(s: string)
    ensures Ordered(s, Tokens(s))
  {
    ScanOrdered(s, 0);
  }

  lemma {:induction false} ScanOrdered(s: string, from: nat)
    requires from <= |s|
    ensures Ordered(s, Scan(s, from)) && forall i :: 0 <= i < |Scan(s, from)| ==> from <= Scan(s, from)[i].from
    decreases |s| - from
  {
    hide Trim, MatchEnd, Ordered;
    if from == |s| {
      OrderedNone(s);
    } else if MatchEnd(s, from).None? {
      ScanOrdered(s, from + 1);
    } else {
      ScanOrdered(s, MatchEnd(s, from).value);
      OrderedCons(s, TokenAt(s, from), Scan(s, MatchEnd(s, from).value));
    }
  }

  lemma OrderedNone(s: string)
    ensures Ordered(s, [])
  {
  }

  lemma OrderedCons(s: string, first: Token, rest: seq<Token>)
    requires first.from < first.to <= |s| && first.text == s[first.from..first.to]
    requires Ordered(s, rest) && forall i :: 0 <= i < |rest| ==> first.to <= rest[i].from
    ensures Ordered(s, [first] + rest)
  {
    var all := [first] + rest;
    forall i | 0 <= i < |all|
      ensures all[i].from < all[i].to <= |s| && all[i].text == s[all[i].from..all[i].to]
      ensures forall j :: 0 <= j < i ==> all[j].to <= all[i].from
    {
      if i > 0 {
        assert all[i] == rest[i - 1];
      }
    }
  }

  lemma ShowsLiteral(s: string, tokens: seq<Token>, mask: bool, shown: string, i: nat, to: nat)
    requires Ordered(s, tokens) && Shows(s, tokens, mask, shown) && |shown| <= to <= |s|
    requires i <= |tokens| && (forall j :: 0 <= j < i ==> tokens[j].to <= |shown|)
    requires if i < |tokens| then to == tokens[i].from else to == |s|
    ensures Shows(s, tokens, mask, shown + if mask then Masked(s[|shown|..to]) else s[|shown|..to])
  {
    hide Whitespace;
    forall k | |shown| <= k < to ensures !InToken(tokens, k) {
      forall token <- tokens ensures !(token.from <= k < token.to) {
        var j :| 0 <= j < |tokens| && tokens[j] == token;
        if i < j {
          OrderedPair(s, tokens, i, j);
        }
      }
    }
  }

  lemma OrderedPair(s: string, tokens: seq<Token>, i: nat, j: nat)
    requires Ordered(s, tokens) && i < j < |tokens|
    ensures tokens[i].from < tokens[i].to <= tokens[j].from
  {
  }

  lemma ShowsToken(s: string, tokens: seq<Token>, mask: bool, shown: string, i: nat)
    requires Ordered(s, tokens) && Shows(s, tokens, mask, shown)
    requires i < |tokens| && |shown| == tokens[i].from
    ensures Shows(s, tokens, mask, shown + tokens[i].text)
  {
    hide Whitespace;
    forall k | tokens[i].from <= k < tokens[i].to ensures InToken(tokens, k) {
      assert tokens[i] in tokens;
    }
  }
}
