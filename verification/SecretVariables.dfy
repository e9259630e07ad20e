/** Which variables refer to which, which of them are secret, and the walk that resolves them. */
module VariableGraph {
  import opened Bytes
  import Template

  const MAX_DEPTH := 32
  const REDACTED := "********"

  /** Where a secret variable's value comes from: an edit in progress, a value already read, or the store,
      which may not have it. */
  datatype FieldState = EditedTo(value: string) | EditedAway | Ready | Stored(found: Option<string>)

  datatype Input = Input(variables: map<string, string>, states: map<string, FieldState>, marked: set<string>, redacted: bool)

  datatype Failure = Circular | Unavailable

  function ResolveField(value: string, state: Option<FieldState>, redacted: bool): Option<string> {
    if redacted then Some(REDACTED)
    else
      match state
      case None => Some(value)
      case Some(EditedTo(edited)) => Some(edited)
      case Some(EditedAway) => None
      case Some(Ready) => Some(value)
      case Some(Stored(found)) => found
  }

  function StateOf(input: Input, name: string): Option<FieldState> {
    if name in input.states then Some(input.states[name]) else None
  }

  function Given(input: Input, name: string): string {
    if name in input.variables then input.variables[name] else ""
  }

  predicate NeedsResolving(input: Input, name: string) {
    name in input.states || (input.redacted && name in input.marked)
  }

  /** The text a variable stands for; nothing when its secret cannot be had. */
  function Content(input: Input, name: string): Option<string> {
    if NeedsResolving(input, name) then ResolveField(Given(input, name), StateOf(input, name), input.redacted)
    else Some(Given(input, name))
  }

  /** Each name once, in order of first use. */
  function Names(tokens: seq<Template.Token>): (names: seq<string>)
    ensures forall i, j :: 0 <= i < j < |names| ==> names[i] != names[j]
  {
    if tokens == [] then []
    else
      var earlier := Names(tokens[..|tokens| - 1]);
      var name := tokens[|tokens| - 1].name;
      if name in earlier then earlier else earlier + [name]
  }

  /** The variables a variable's text refers to. */
  function Children(input: Input, name: string): seq<string> {
    var content := Content(input, name);
    if content.None? then [] else Names(Template.Tokens(content.value))
  }

  /** The secret of the variable is not to be had. */
  ghost predicate Lost(input: Input, name: string) {
    && !input.redacted && name in input.states
    && (input.states[name].EditedAway? || input.states[name] == Stored(None))
  }

  /** What a variable's value has to be: masked where secrets are to be hidden, otherwise the edit, what the store
      found, or what was given. */
  ghost predicate ValueMeans(input: Input, name: string, value: string) {
    var given := if name in input.variables then input.variables[name] else "";
    if input.redacted && (name in input.states || name in input.marked) then value == "********"
    else if name !in input.states then value == given
    else
      match input.states[name]
      case EditedTo(edited) => value == edited
      case EditedAway => false
      case Ready => value == given
      case Stored(found) => found == Some(value)
  }

  lemma ContentMeans(input: Input, name: string)
    ensures Content(input, name).None? <==> Lost(input, name)
    ensures Content(input, name).Some? ==> ValueMeans(input, name, Content(input, name).value)
  {
  }

  ghost predicate Mentions(text: string, name: string) {
    exists token <- Template.Tokens(text) :: token.name == name
  }

  lemma {:induction false} NamesMean(tokens: seq<Template.Token>, name: string)
    ensures name in Names(tokens) <==> exists token <- tokens :: token.name == name
  {
    if tokens != [] {
      var front, last := tokens[..|tokens| - 1], tokens[|tokens| - 1];
      assert tokens == front + [last];
      NamesMean(front, name);
    }
  }

  // -------------------------------------------------------------------- paths

  ghost predicate Path(input: Input, p: seq<string>) {
    p != [] && forall i :: 0 <= i < |p| - 1 ==> p[i + 1] in Children(input, p[i])
  }

  ghost predicate Repeats(p: seq<string>) {
    exists i, j :: 0 <= i < j < |p| && p[i] == p[j]
  }

  ghost predicate Mark(input: Input, name: string) {
    name in input.states || name in input.marked
  }

  ghost predicate LeadsToMark(input: Input, name: string, p: seq<string>) {
    Path(input, p) && p[0] == name && Mark(input, p[|p| - 1])
  }

  /** A variable is sensitive when it reaches one that has a state or an initial mark. */
  ghost predicate Sensitive(input: Input, name: string) {
    exists p :: LeadsToMark(input, name, p)
  }

  lemma SensitiveSteps(input: Input, name: string)
    ensures Sensitive(input, name) <==>
      Mark(input, name) || exists child <- Children(input, name) :: Sensitive(input, child)
  {
    hide Children, Mark;
    if Mark(input, name) {
      assert LeadsToMark(input, name, [name]);
    }
    if child :| child in Children(input, name) && Sensitive(input, child) {
      var p :| LeadsToMark(input, child, p);
      var longer := [name] + p;
      assert forall i :: 0 < i < |longer| ==> longer[i] == p[i - 1];
      assert Path(input, longer) by {
        forall i | 0 <= i < |longer| - 1 ensures longer[i + 1] in Children(input, longer[i]) {
          if i > 0 {
            assert p[i - 1 + 1] in Children(input, p[i - 1]);
          }
        }
      }
      assert LeadsToMark(input, name, longer);
    }
    if Sensitive(input, name) && !Mark(input, name) {
      var p :| LeadsToMark(input, name, p);
      PathTail(input, p);
      assert LeadsToMark(input, p[1], p[1..]);
    }
  }

  lemma PathTail(input: Input, p: seq<string>)
    requires Path(input, p) && |p| > 1
    ensures Path(input, p[1..]) && p[1] in Children(input, p[0])
  {
    hide Children;
    assert p[0 + 1] in Children(input, p[0]);
    forall i | 0 <= i < |p[1..]| - 1 ensures p[1..][i + 1] in Children(input, p[1..][i]) {
      assert p[i + 1 + 1] in Children(input, p[i + 1]);
    }
  }

  lemma PathSnoc(input: Input, p: seq<string>, next: string)
    requires Path(input, p) && next in Children(input, p[|p| - 1])
    ensures Path(input, p + [next])
  {
    hide Children;
    var longer := p + [next];
    forall i | 0 <= i < |longer| - 1 ensures longer[i + 1] in Children(input, longer[i]) {
      if i < |p| - 1 {
        assert p[i + 1] in Children(input, p[i]);
      }
    }
  }

  // -------------------------------------------------------------------- order

  /** Names in an order in which each comes after everything it refers to. */
  ghost predicate Ranked(input: Input, order: seq<string>) {
    order == []
    || var front, last := order[..|order| - 1], order[|order| - 1];
       last !in front && (forall child <- Children(input, last) :: child in front) && Ranked(input, front)
  }

  lemma {:induction false} RankedPath(input: Input, order: seq<string>, p: seq<string>)
    requires Ranked(input, order) && Path(input, p) && p[0] in order
    ensures !Repeats(p)
    ensures forall name <- p :: name in order
    decreases |order|
  {
    hide Children;
    var front, last := order[..|order| - 1], order[|order| - 1];
    assert order == front + [last];
    if p[0] in front {
      RankedPath(input, front, p);
      forall name <- p ensures name in order {}
    } else if |p| > 1 {
      PathTail(input, p);
      RankedPath(input, front, p[1..]);
      forall i | 0 < i < |p| ensures p[i] in front {
        assert p[i] == p[1..][i - 1];
        assert p[i] in p[1..];
      }
      forall i, j | 0 <= i < j < |p| ensures p[i] != p[j] {
        if i > 0 {
          assert p[i] == p[1..][i - 1] && p[j] == p[1..][j - 1];
        }
      }
    }
  }

  /** A path that shows why the walk may give up: it comes back to a name, or it is long. */
  ghost predicate Excuse(input: Input, root: string, p: seq<string>) {
    Path(input, p) && p[0] == root && (Repeats(p) || |p| > 32)
  }

  ghost predicate Unreadable(input: Input, root: string, p: seq<string>) {
    Path(input, p) && p[0] == root && Lost(input, p[|p| - 1])
  }

  ghost predicate Explained(input: Input, root: string, failure: Failure) {
    match failure
    case Circular => exists p :: Excuse(input, root, p)
    case Unavailable => exists p :: Unreadable(input, root, p)
  }

  // --------------------------------------------------------------------- memo

  /** What the walk has worked out so far; `order` lists the visited names as their visits ended. */
  datatype Memo = Memo(values: map<string, string>, sensitive: set<string>, visited: set<string>,
                       dependencies: map<string, seq<string>>, order: seq<string>)

  function Value(memo: Memo, name: string): string {
    if name in memo.values then memo.values[name] else ""
  }

  /** A visited name has its content, its dependencies, and a mark exactly when it is sensitive. */
  ghost predicate Settled(input: Input, memo: Memo, name: string) {
    && Some(Value(memo, name)) == Content(input, name)
    && name in memo.dependencies && memo.dependencies[name] == Children(input, name)
    && (name in memo.sensitive <==> Sensitive(input, name))
  }

  /** The same in the terms of a reader: the value is what it has to be, the dependencies are the names its text
      mentions, and it is marked exactly when it reaches a mark. */
  ghost predicate Means(input: Input, memo: Memo, name: string) {
    && ValueMeans(input, name, Value(memo, name))
    && name in memo.dependencies
    && (forall child :: child in memo.dependencies[name] <==> Mentions(Value(memo, name), child))
    && (name in memo.sensitive <==> Sensitive(input, name))
  }

  lemma SettledMeans(input: Input, memo: Memo, name: string)
    requires Settled(input, memo, name)
    ensures Means(input, memo, name)
  {
    hide Sensitive, Content, Names;
    ContentMeans(input, name);
    forall child ensures child in memo.dependencies[name] <==> Mentions(Value(memo, name), child) {
      NamesMean(Template.Tokens(Value(memo, name)), child);
    }
  }

  ghost predicate Untouched(input: Input, memo: Memo, name: string) {
    && (name in memo.values <==> name in input.variables)
    && (name in memo.values ==> memo.values[name] == input.variables[name])
    && (name in memo.sensitive <==> name in input.marked)
  }

  /** Every name is visited, being visited, or as given. */
  ghost predicate Valid(input: Input, memo: Memo, stack: seq<string>) {
    && Ranked(input, memo.order) && (forall name :: name in memo.visited <==> name in memo.order)
    && (forall name <- memo.visited :: Settled(input, memo, name))
    && (forall name :: name in memo.visited || name in stack || Untouched(input, memo, name))
    && (forall name <- stack :: name !in memo.visited)
  }

  ghost predicate Kept(before: Memo, after: Memo, name: string) {
    && (name in after.values <==> name in before.values)
    && (name in after.values ==> after.values[name] == before.values[name])
    && (name in after.sensitive <==> name in before.sensitive)
    && (name in after.dependencies <==> name in before.dependencies)
    && (name in after.dependencies ==> after.dependencies[name] == before.dependencies[name])
  }

  /** A visit changes nothing about names other than those it visits. */
  ghost predicate Grown(before: Memo, after: Memo, name: string) {
    && before.visited <= after.visited
    && forall other :: other in before.visited || (other !in after.visited && other != name) ==> Kept(before, after, other)
  }

  ghost predicate Entered(input: Input, memo: Memo, name: string) {
    && Some(Value(memo, name)) == Content(input, name)
    && name in memo.dependencies && memo.dependencies[name] == Children(input, name)
  }

  ghost predicate MarkedBy(input: Input, memo: Memo, name: string, children: seq<string>) {
    name in memo.sensitive <==> Mark(input, name) || exists child <- children :: Sensitive(input, child)
  }

  /** What is noted on entering a name. */
  lemma EntryMeans(input: Input, before: Memo, after: Memo, name: string, content: string)
    requires Untouched(input, before, name) && Content(input, name) == Some(content)
    requires Value(after, name) == content && after.values - {name} == before.values - {name}
    requires after.sensitive == if name in input.states then before.sensitive + {name} else before.sensitive
    requires after.dependencies == before.dependencies[name := Names(Template.Tokens(content))]
    ensures Entered(input, after, name) && MarkedBy(input, after, name, [])
    ensures forall other :: other != name ==> Kept(before, after, other)
  {
    hide Content, Names, Sensitive;
    forall other | other != name ensures Kept(before, after, other) {
      assert other in (after.values - {name}) <==> other in (before.values - {name});
    }
  }

  /** Work on one name that is not visited yet disturbs no other. */
  lemma WorkKeepsOthers(input: Input, before: Memo, after: Memo, name: string, stack: seq<string>)
    requires Valid(input, before, stack) && name !in before.visited
    requires after.visited == before.visited && after.order == before.order
    requires forall other :: other != name ==> Kept(before, after, other)
    ensures Valid(input, after, stack + [name]) && (name in stack ==> Valid(input, after, stack))
  {
    hide Sensitive, Ranked, Content, Children;
    forall other <- after.visited ensures Settled(input, after, other) {
      assert Settled(input, before, other) && Kept(before, after, other);
    }
    forall other | other !in after.visited && other !in stack && other != name ensures Untouched(input, after, other) {
      assert Untouched(input, before, other) && Kept(before, after, other);
    }
  }

  /** A name whose children are all visited can be left. */
  lemma LeaveSettles(input: Input, memo: Memo, name: string, stack: seq<string>)
    requires Valid(input, memo, stack + [name]) && name !in stack && name !in memo.visited
    requires Entered(input, memo, name) && MarkedBy(input, memo, name, Children(input, name))
    requires forall child <- Children(input, name) :: child in memo.visited
    ensures Valid(input, memo.(visited := memo.visited + {name}, order := memo.order + [name]), stack)
  {
    hide Sensitive, Content, Children, Ranked, Settled, Untouched;
    var after := memo.(visited := memo.visited + {name}, order := memo.order + [name]);
    assert name in stack + [name];
    RankedSnoc(input, memo.order, name);
    forall other <- after.visited ensures Settled(input, after, other) {
      assert other != name ==> Settled(input, memo, other);
      SettledLater(input, memo, after, other);
    }
    forall other | other !in after.visited && other !in stack ensures Untouched(input, after, other) {
      assert other !in stack + [name];
      assert Untouched(input, memo, other);
      UntouchedLater(input, memo, after, other);
    }
  }

  lemma SettledLater(input: Input, memo: Memo, after: Memo, name: string)
    requires after == memo.(visited := after.visited, order := after.order)
    requires Settled(input, memo, name)
      || (Entered(input, memo, name) && MarkedBy(input, memo, name, Children(input, name)))
    ensures Settled(input, after, name)
  {
    hide Sensitive, Content, Children;
    SensitiveSteps(input, name);
  }

  lemma UntouchedLater(input: Input, memo: Memo, after: Memo, name: string)
    requires after == memo.(visited := after.visited, order := after.order)
    requires Untouched(input, memo, name)
    ensures Untouched(input, after, name)
  {
  }

  lemma RankedSnoc(input: Input, order: seq<string>, name: string)
    requires Ranked(input, order) && name !in order && forall child <- Children(input, name) :: child in order
    ensures Ranked(input, order + [name])
  {
    hide Children;
    assert (order + [name])[..|order|] == order;
  }

  lemma GrownVisits(a: Memo, b: Memo, name: string)
    requires Grown(a, b, name)
    ensures a.visited <= b.visited
  {
  }

  lemma GrownRefl(a: Memo, name: string)
    ensures Grown(a, a, name)
  {
  }

  lemma GrownChain(a: Memo, b: Memo, c: Memo, name: string)
    requires Grown(a, b, name) && Grown(b, c, name)
    ensures Grown(a, c, name)
  {
    hide Kept;
    forall other | other in a.visited || (other !in c.visited && other != name) ensures Kept(a, c, other) {
      assert Kept(a, b, other) && Kept(b, c, other);
      KeptTwice(a, b, c, other);
    }
  }

  lemma GrownByChild(a: Memo, b: Memo, name: string, child: string)
    requires Grown(a, b, child) && child in b.visited && name !in b.visited
    ensures Grown(a, b, name) && Kept(a, b, name)
  {
    hide Kept;
  }

  lemma GrownByWork(a: Memo, b: Memo, name: string)
    requires b.visited == a.visited && name !in a.visited
    requires forall other :: other != name ==> Kept(a, b, other)
    ensures Grown(a, b, name)
  {
    hide Kept;
  }

  lemma KeptTwice(a: Memo, b: Memo, c: Memo, name: string)
    requires Kept(a, b, name) && Kept(b, c, name)
    ensures Kept(a, c, name)
  {
  }

  lemma KeptEntered(input: Input, before: Memo, after: Memo, name: string, children: seq<string>)
    requires Kept(before, after, name) && Entered(input, before, name) && MarkedBy(input, before, name, children)
    ensures Entered(input, after, name) && MarkedBy(input, after, name, children)
  {
    hide Sensitive, Content, Children;
  }

  lemma GrownByLeaving(a: Memo, b: Memo, c: Memo, name: string)
    requires Grown(a, b, name) && c == b.(visited := b.visited + {name}, order := c.order)
    ensures Grown(a, c, name)
  {
    forall other | other in a.visited || (other !in c.visited && other != name) ensures Kept(a, c, other) {
      assert Kept(a, b, other);
    }
  }

  /** Passing on a child's mark. */
  lemma MarkPassed(input: Input, before: Memo, after: Memo, name: string, children: seq<string>, child: string)
    requires MarkedBy(input, before, name, children) && Settled(input, before, child)
    requires name in after.sensitive <==> name in before.sensitive || child in before.sensitive
    ensures MarkedBy(input, after, name, children + [child])
  {
    hide Sensitive, Content, Children;
    assert forall other <- children + [child] :: other in children || other == child;
    assert child in children + [child];
  }

  lemma Looped(input: Input, stack: seq<string>, name: string)
    requires Path(input, stack + [name])
    requires name in stack || |stack| >= MAX_DEPTH
    ensures Explained(input, (stack + [name])[0], Circular)
  {
    hide Path;
    var path := stack + [name];
    if name in stack {
      var i :| 0 <= i < |stack| && stack[i] == name;
      assert path[i] == path[|stack|];
      assert Repeats(path);
    }
    assert Excuse(input, path[0], path);
  }

  // ------------------------------------------------------------------- results

  function TokenNames(tokens: seq<Template.Token>): seq<string> {
    seq(|tokens|, i requires 0 <= i < |tokens| => tokens[i].name)
  }

  /** The names the expressions refer to, in order. */
  function Roots(expressions: seq<string>): seq<string> {
    if expressions == [] then []
    else Roots(expressions[..|expressions| - 1]) + TokenNames(Template.Tokens(expressions[|expressions| - 1]))
  }

  /** The name is referred to by one of the expressions. */
  ghost predicate Asked(expressions: seq<string>, name: string) {
    exists expression <- expressions :: Mentions(expression, name)
  }

  /** Nothing the expressions lead to lies on a cycle. */
  ghost predicate Acyclic(input: Input, expressions: seq<string>) {
    forall root, p :: Asked(expressions, root) && Path(input, p) && p[0] == root ==> !Repeats(p)
  }

  /** Everything the expressions lead to is worked out. */
  ghost predicate Understood(input: Input, memo: Memo, expressions: seq<string>) {
    forall root, p :: Asked(expressions, root) && Path(input, p) && p[0] == root ==> forall name <- p :: Means(input, memo, name)
  }

  lemma ResolvedIsUnderstood(input: Input, memo: Memo, expressions: seq<string>)
    requires forall root :: Asked(expressions, root) ==> Resolved(input, memo, root)
    ensures Acyclic(input, expressions) && Understood(input, memo, expressions)
  {
    hide Children, Settled, Means, Repeats, Asked;
    forall root, p | Asked(expressions, root) && Path(input, p) && p[0] == root
      ensures !Repeats(p) && forall name <- p :: Means(input, memo, name)
    {
      assert Resolved(input, memo, root);
      forall name <- p ensures Means(input, memo, name) {
        SettledMeans(input, memo, name);
      }
    }
  }

  lemma {:induction false} RootsMean(expressions: seq<string>, name: string)
    ensures name in Roots(expressions) <==> Asked(expressions, name)
  {
    hide Mentions;
    if expressions != [] {
      var front, last := expressions[..|expressions| - 1], expressions[|expressions| - 1];
      assert expressions == front + [last];
      RootsMean(front, name);
      TokenNamesMean(Template.Tokens(last), name);
      assert Mentions(last, name) <==> name in TokenNames(Template.Tokens(last)) by { MentionsToken(last, name); }
    }
  }

  lemma NoRoots()
    ensures Roots([]) == []
  {
  }

  lemma TokenNamesMean(tokens: seq<Template.Token>, name: string)
    ensures name in TokenNames(tokens) <==> exists token <- tokens :: token.name == name
  {
    forall token <- tokens ensures token.name in TokenNames(tokens) {
      var i :| 0 <= i < |tokens| && tokens[i] == token;
      assert TokenNames(tokens)[i] == token.name;
    }
  }

  lemma MentionsToken(text: string, name: string)
    ensures Mentions(text, name) <==> name in TokenNames(Template.Tokens(text))
  {
    TokenNamesMean(Template.Tokens(text), name);
  }

  /** Everything reachable from the name is free of cycles and settled. */
  ghost predicate Resolved(input: Input, memo: Memo, root: string) {
    forall p :: Path(input, p) && p[0] == root ==> !Repeats(p) && forall name <- p :: Settled(input, memo, name)
  }

  lemma VisitedIsResolved(input: Input, memo: Memo, root: string)
    requires Valid(input, memo, []) && root in memo.visited
    ensures Resolved(input, memo, root)
  {
    hide Settled, Untouched, Children;
    forall p | Path(input, p) && p[0] == root
      ensures !Repeats(p) && forall name <- p :: Settled(input, memo, name)
    {
      RankedPath(input, memo.order, p);
    }
  }
}

module SecretVariables {
  import opened Bytes
  import opened VariableGraph
  import Template

  class VariableWalk {
    const input: Input
    var values: map<string, string>
    var sensitiveNames: set<string>
    var visited: set<string>
    var dependencies: map<string, seq<string>>
    ghost var order: seq<string>

    constructor (input: Input)
      ensures this.input == input && visited == {} && Valid(input, Now(), [])
    {
      this.input := input;
      values, sensitiveNames, visited, dependencies := input.variables, input.marked, {}, map[];
      order := [];
    }

    ghost function Now(): Memo
      reads this
    {
      Memo(values, sensitiveNames, visited, dependencies, order)
    }

    method ResolveVariable(name: string, stack: seq<string>) returns (failure: Option<Failure>)
      requires Valid(input, Now(), stack) && |stack| <= MAX_DEPTH && Path(input, stack + [name])
      modifies this
      ensures failure.None? ==>
        Valid(input, Now(), stack) && name in visited && Grown(old(Now()), Now(), name)
      ensures failure.Some? ==> Explained(input, (stack + [name])[0], failure.value)
      decreases MAX_DEPTH - |stack|, 1
    {
      hide Children, Content, Valid, Path, Entered, MarkedBy, Explained;
      if name in stack || |stack| >= MAX_DEPTH {
        Looped(input, stack, name);
        return Some(Circular);
      }
      if name in visited {
        return None;
      }
      var ok := Enter(name, stack);
      if !ok {
        return Some(Unavailable);
      }
      ghost var before, inside := old(Now()), Now();
      GrownByWork(before, inside, name);
      failure := Visit(name, stack);
      if failure.None? {
        GrownChain(before, inside, Now(), name);
      }
    }

    static lemma CannotRead(input: Input, stack: seq<string>, name: string)
      requires Path(input, stack + [name]) && Content(input, name).None?
      ensures Explained(input, (stack + [name])[0], Unavailable)
    {
      hide Path, Content;
      ContentMeans(input, name);
      assert Unreadable(input, (stack + [name])[0], stack + [name]);
    }

    /** Marks the name, reads its value, and notes what it refers to. */
    method Enter(name: string, stack: seq<string>) returns (ok: bool)
      requires Valid(input, Now(), stack) && name !in visited && name !in stack && Path(input, stack + [name])
      modifies `values, `sensitiveNames, `dependencies
      ensures !ok ==> Explained(input, (stack + [name])[0], Unavailable)
      ensures ok ==>
        && Valid(input, Now(), stack + [name])
        && Entered(input, Now(), name) && MarkedBy(input, Now(), name, [])
        && forall other :: other != name ==> Kept(old(Now()), Now(), other)
    {
      hide Sensitive, Ranked, ResolveField, Path, Explained, Unreadable, Kept, Entered, MarkedBy, Names, Children;
      assert Untouched(input, Now(), name);
      hide Valid;
      var state := if name in input.states then Some(input.states[name]) else None;
      if state.Some? {
        sensitiveNames := sensitiveNames + {name};
      }
      if state.Some? || (input.redacted && name in sensitiveNames) {
        var value := if name in values then values[name] else "";
        var resolved := ResolveField(value, state, input.redacted);
        if resolved.None? {
          CannotRead(input, stack, name);
          return false;
        }
        values := values[name := resolved.value];
      }
      var content := if name in values then values[name] else "";
      dependencies := dependencies[name := Names(Template.Tokens(content))];
      ok := true;
      EntryMeans(input, old(Now()), Now(), name, content);
      WorkKeepsOthers(input, old(Now()), Now(), name, stack);
    }

    /** Visits everything the name refers to, then leaves it. */
    method Visit(name: string, stack: seq<string>) returns (failure: Option<Failure>)
      requires |stack| < MAX_DEPTH && Valid(input, Now(), stack + [name]) && Path(input, stack + [name])
      requires name !in stack && name !in visited && Entered(input, Now(), name) && MarkedBy(input, Now(), name, [])
      modifies this
      ensures failure.None? ==>
        Valid(input, Now(), stack) && name in visited && Grown(old(Now()), Now(), name)
      ensures failure.Some? ==> Explained(input, (stack + [name])[0], failure.value)
      decreases MAX_DEPTH - |stack|, 0
    {
      hide Children, Content, Valid, Path, MarkedBy, Explained, Grown, Kept, Value;
      var children := dependencies[name];
      var i := 0;
      assert children[..0] == [];
      GrownRefl(Now(), name);
      while i < |children|
        invariant 0 <= i <= |children| && children == Children(input, name)
        invariant Valid(input, Now(), stack + [name]) && name !in visited
        invariant Entered(input, Now(), name) && MarkedBy(input, Now(), name, children[..i])
        invariant forall child <- children[..i] :: child in visited
        invariant Grown(old(Now()), Now(), name)
      {
        ghost var before := Now();
        failure := VisitChild(name, stack, children, i);
        if failure.Some? {
          return;
        }
        GrownChain(old(Now()), before, Now(), name);
        assert children[..i + 1] == children[..i] + [children[i]];
        i := i + 1;
      }
      assert children[..i] == children;
      failure := None;
      ghost var before := Now();
      Leave(name, stack);
      GrownByLeaving(old(Now()), before, Now(), name);
    }

    method VisitChild(name: string, stack: seq<string>, children: seq<string>, i: nat) returns (failure: Option<Failure>)
      requires |stack| < MAX_DEPTH && Valid(input, Now(), stack + [name]) && Path(input, stack + [name])
      requires name !in visited && Entered(input, Now(), name)
      requires i < |children| && children == Children(input, name) && MarkedBy(input, Now(), name, children[..i])
      modifies this
      ensures failure.None? ==>
        && Valid(input, Now(), stack + [name]) && name !in visited && children[i] in visited
        && Entered(input, Now(), name) && MarkedBy(input, Now(), name, children[..i + 1])
        && Grown(old(Now()), Now(), name) && old(visited) <= visited
      ensures failure.Some? ==> Explained(input, (stack + [name])[0], failure.value)
      decreases MAX_DEPTH - |stack| - 1, 2
    {
      hide Children, Content, Sensitive, Ranked, Path, Explained, Entered, MarkedBy, Settled, Untouched, Grown, Kept;
      var child := children[i];
      PathSnoc(input, stack + [name], child);
      ghost var before := Now();
      failure := ResolveVariable(child, stack + [name]);
      if failure.Some? {
        assert (stack + [name] + [child])[0] == (stack + [name])[0];
        return;
      }
      assert name in stack + [name];
      ghost var between := Now();
      GrownByChild(before, between, name, child);
      assert before.visited <= between.visited by {
        GrownVisits(before, between, name);
      }
      KeptEntered(input, before, between, name, children[..i]);
      if child in sensitiveNames {
        sensitiveNames := sensitiveNames + {name};
      }
      assert children[..i + 1] == children[..i] + [child];
      MarkPassed(input, between, Now(), name, children[..i], child);
      Passed(before, between, name, stack);
    }

    /** Marking the name itself disturbs no other. */
    ghost method Passed(before: Memo, between: Memo, name: string, stack: seq<string>)
      requires name !in between.visited && Valid(input, between, stack + [name]) && Grown(before, between, name)
      requires Now() == between || Now() == between.(sensitive := between.sensitive + {name})
      requires Entered(input, between, name)
      ensures Valid(input, Now(), stack + [name]) && Grown(before, Now(), name) && Entered(input, Now(), name)
    {
      hide Children, Content, Sensitive, Ranked, Path, Settled, Untouched;
      WorkKeepsOthers(input, between, Now(), name, stack + [name]);
      GrownByWork(between, Now(), name);
      GrownChain(before, between, Now(), name);
    }

    method Leave(name: string, stack: seq<string>)
      requires Valid(input, Now(), stack + [name]) && name !in stack && name !in visited
      requires Entered(input, Now(), name) && MarkedBy(input, Now(), name, Children(input, name))
      requires forall child <- Children(input, name) :: child in visited
      modifies `visited, `order
      ensures Valid(input, Now(), stack)
      ensures Now() == old(Now()).(visited := old(visited) + {name}, order := old(order) + [name])
    {
      hide Children, Content, Valid, Entered, MarkedBy;
      LeaveSettles(input, Now(), name, stack);
      visited := visited + {name};
      order := order + [name];
    }

    /** Resolves what the expressions refer to, directly or not. It succeeds only if nothing reachable lies on a
        cycle, and then everything reachable has its value, masked where secrets are to be hidden, its dependencies,
        and a mark exactly when it is sensitive. It gives up on circularity only for a path that comes back to a name
        or is more than 32 names long, and for want of a secret only when it is to be shown. */
    method ResolveAll(expressions: seq<string>) returns (failure: Option<Failure>)
      requires visited == {} && Valid(input, Now(), [])
      modifies this
      ensures failure.None? ==>
        && Acyclic(input, expressions) && Understood(input, Now(), expressions)
        && (forall root :: Asked(expressions, root) ==> Resolved(input, Now(), root))
      ensures failure.Some? ==> exists root :: Asked(expressions, root) && Explained(input, root, failure.value)
      ensures failure == Some(Unavailable) ==> !input.redacted
    {
      hide Children, Content, Valid, Path, Explained, Resolved, Grown, Asked, Roots, Acyclic, Understood;
      var i := 0;
      assert expressions[..0] == [];
      NoRoots();
      while i < |expressions|
        invariant 0 <= i <= |expressions| && Valid(input, Now(), [])
        invariant forall root <- Roots(expressions[..i]) :: root in visited
      {
        var names := TokenNames(Template.Tokens(expressions[i]));
        RootsSnoc(expressions, i);
        RootsPrefix(expressions, i + 1);
        failure := ResolveEach(names);
        if failure.Some? {
          ghost var root :| root in names && Explained(input, root, failure.value);
          assert root in Roots(expressions);
          RootsMean(expressions, root);
          ShownOnly(input, root, failure.value);
          return;
        }
        i := i + 1;
      }
      assert expressions[..i] == expressions;
      failure := None;
      forall root | Asked(expressions, root) ensures Resolved(input, Now(), root) {
        RootsMean(expressions, root);
        VisitedIsResolved(input, Now(), root);
      }
      ResolvedIsUnderstood(input, Now(), expressions);
    }

    method ResolveEach(names: seq<string>) returns (failure: Option<Failure>)
      requires Valid(input, Now(), [])
      modifies this
      ensures failure.None? ==>
        Valid(input, Now(), []) && old(visited) <= visited && forall name <- names :: name in visited
      ensures failure.Some? ==> exists name <- names :: Explained(input, name, failure.value)
    {
      hide Children, Content, Valid, Explained, Grown;
      var j := 0;
      while j < |names|
        invariant 0 <= j <= |names| && Valid(input, Now(), []) && old(visited) <= visited
        invariant forall name <- names[..j] :: name in visited
      {
        assert [] + [names[j]] == [names[j]];
        ghost var before := Now();
        failure := ResolveVariable(names[j], []);
        if failure.Some? {
          assert names[j] in names;
          return;
        }
        GrownVisits(before, Now(), names[j]);
        assert names[..j + 1] == names[..j] + [names[j]];
        j := j + 1;
      }
      assert names[..j] == names;
      failure := None;
    }
  }

  lemma ShownOnly(input: Input, root: string, failure: Failure)
    requires Explained(input, root, failure)
    ensures failure.Unavailable? ==> !input.redacted
  {
    hide Path;
  }

  lemma {:induction false} RootsPrefix(expressions: seq<string>, i: nat)
    requires i <= |expressions|
    ensures forall root <- Roots(expressions[..i]) :: root in Roots(expressions)
    decreases |expressions| - i
  {
    if i == |expressions| {
      assert expressions[..i] == expressions;
    } else {
      RootsPrefix(expressions, i + 1);
      assert expressions[..i + 1][..i] == expressions[..i];
    }
  }

  // --------------------------------------------------------------- provenance

  ghost predicate Leads(input: Input, from: string, to: string) {
    exists p :: Path(input, p) && p[0] == from && p[|p| - 1] == to
  }

  /** The recorded dependencies of everything reachable. */
  ghost predicate Complete(input: Input, dependencies: map<string, seq<string>>, name: string) {
    forall other :: Leads(input, name, other) ==> other in dependencies && dependencies[other] == Children(input, other)
  }

  lemma LeadsToItself(input: Input, name: string)
    ensures Leads(input, name, name)
  {
    assert Path(input, [name]);
  }

  lemma LeadsThrough(input: Input, name: string, child: string, other: string)
    requires child in Children(input, name) && Leads(input, child, other)
    ensures Leads(input, name, other)
  {
    hide Children;
    var p :| Path(input, p) && p[0] == child && p[|p| - 1] == other;
    var longer := [name] + p;
    forall i | 0 <= i < |longer| - 1 ensures longer[i + 1] in Children(input, longer[i]) {
      if i > 0 {
        assert p[i - 1 + 1] in Children(input, p[i - 1]);
      }
    }
    assert longer[|longer| - 1] == other;
  }

  lemma CompleteChild(input: Input, dependencies: map<string, seq<string>>, name: string, child: string)
    requires Complete(input, dependencies, name) && child in Children(input, name)
    ensures Complete(input, dependencies, child)
  {
    hide Children, Leads;
    forall other | Leads(input, child, other) ensures Leads(input, name, other) {
      LeadsThrough(input, name, child, other);
    }
  }

  lemma ResolvedIsComplete(input: Input, memo: Memo, root: string)
    requires Resolved(input, memo, root)
    ensures Complete(input, memo.dependencies, root)
  {
    hide Children, Content, Sensitive;
    forall other | Leads(input, root, other) ensures Settled(input, memo, other) {
      var p :| Path(input, p) && p[0] == root && p[|p| - 1] == other;
      assert other in p;
    }
  }

  ghost predicate Closed(input: Input, names: set<string>, collected: set<string>) {
    forall other <- names :: forall child <- Children(input, other) :: child in collected
  }

  /** Collects a name and all it depends on. What is added is closed under dependencies, and every added name is
      reached from this one. */
  method Collect(input: Input, dependencies: map<string, seq<string>>, name: string, names: set<string>)
    returns (collected: set<string>)
    requires Complete(input, dependencies, name)
    ensures names <= collected && name in collected
    ensures Closed(input, collected - names, collected)
    ensures forall other <- collected - names :: Leads(input, name, other)
    decreases dependencies.Keys - names
  {
    hide Children, Leads;
    collected := names;
    if name in names {
      return;
    }
    LeadsToItself(input, name);
    collected := names + {name};
    var children := dependencies[name];
    var i := 0;
    while i < |children|
      invariant 0 <= i <= |children| && children == Children(input, name)
      invariant names + {name} <= collected
      invariant forall child <- children[..i] :: child in collected
      invariant Closed(input, collected - names - {name}, collected)
      invariant forall other <- collected - names :: Leads(input, name, other)
    {
      CompleteChild(input, dependencies, name, children[i]);
      ghost var before := collected;
      assert name in dependencies.Keys - names && name !in dependencies.Keys - collected;
      collected := Collect(input, dependencies, children[i], collected);
      forall other <- collected - names ensures Leads(input, name, other) {
        if other !in before {
          LeadsThrough(input, name, children[i], other);
        }
      }
      assert children[..i + 1] == children[..i] + [children[i]];
      i := i + 1;
    }
    assert children[..i] == children;
  }

  /** The names one expression depends on: exactly those its references reach. */
  method CollectAll(input: Input, dependencies: map<string, seq<string>>, tokens: seq<Template.Token>)
    returns (names: set<string>)
    requires forall token <- tokens :: Complete(input, dependencies, token.name)
    ensures forall name :: name in names <==> exists token <- tokens :: Leads(input, token.name, name)
  {
    hide Children, Leads, Complete;
    names := {};
    var i := 0;
    while i < |tokens|
      invariant 0 <= i <= |tokens|
      invariant forall token <- tokens[..i] :: token.name in names
      invariant Closed(input, names, names)
      invariant forall name <- names :: exists token <- tokens :: Leads(input, token.name, name)
    {
      assert tokens[i] in tokens;
      names := Collect(input, dependencies, tokens[i].name, names);
      assert tokens[..i + 1] == tokens[..i] + [tokens[i]];
      i := i + 1;
    }
    assert tokens[..i] == tokens;
    forall name | exists token <- tokens :: Leads(input, token.name, name) ensures name in names {
      var token :| token in tokens && Leads(input, token.name, name);
      LeadsStays(input, names, token.name, name);
    }
  }

  lemma LeadsStays(input: Input, names: set<string>, from: string, to: string)
    requires Closed(input, names, names) && from in names && Leads(input, from, to)
    ensures to in names
  {
    hide Children;
    var p :| Path(input, p) && p[0] == from && p[|p| - 1] == to;
    PathStays(input, names, p);
  }

  lemma {:induction false} PathStays(input: Input, names: set<string>, p: seq<string>)
    requires Closed(input, names, names) && Path(input, p) && p[0] in names
    ensures p[|p| - 1] in names
    decreases |p|
  {
    hide Children;
    if |p| > 1 {
      PathTail(input, p);
      PathStays(input, names, p[1..]);
    }
  }

  // ------------------------------------------------------------------- requests

  /** What an expression depends on, and which of that is secret. */
  datatype Usage = Usage(names: set<string>, secretNames: set<string>)

  ghost predicate Refers(input: Input, expression: string, name: string) {
    exists token <- Template.Tokens(expression) :: Leads(input, token.name, name)
  }

  ghost predicate UsageOk(input: Input, expression: string, usage: Usage) {
    && (forall name :: name in usage.names <==> Refers(input, expression, name))
    && (forall name :: name in usage.secretNames <==> Refers(input, expression, name) && Sensitive(input, name))
  }

  /** Resolves what the expressions of a request refer to and records what each depends on: exactly the names its
      references reach, and of those as secret exactly the ones that reach a mark. Each of these names has the value it
      has to have. */
  method ResolveRequest(input: Input, expressions: seq<string>)
    returns (failure: Option<Failure>, values: map<string, string>, usages: seq<Usage>)
    ensures failure.None? ==>
      && |usages| == |expressions|
      && (forall i :: 0 <= i < |expressions| ==> UsageOk(input, expressions[i], usages[i]))
      && Acyclic(input, expressions)
      && (forall usage <- usages, name <- usage.names ::
            ValueMeans(input, name, if name in values then values[name] else ""))
    ensures failure.Some? ==> exists root :: Asked(expressions, root) && Explained(input, root, failure.value)
    ensures failure == Some(Unavailable) ==> !input.redacted
  {
    hide Asked, Path, Valid, Explained, UsageOk, Resolved, ValueMeans, Acyclic, Understood;
    usages := [];
    var walk := new VariableWalk(input);
    failure := walk.ResolveAll(expressions);
    values := walk.values;
    if failure.Some? {
      return;
    }
    ghost var memo := walk.Now();
    var i := 0;
    while i < |expressions|
      invariant 0 <= i == |usages| <= |expressions| && walk.Now() == memo
      invariant forall j :: 0 <= j < i ==> UsageOk(input, expressions[j], usages[j])
      invariant forall usage <- usages, name <- usage.names :: ValueMeans(input, name, Value(memo, name))
    {
      var usage := UsageOf(walk, expressions, i);
      usages := usages + [usage];
      i := i + 1;
    }
    assert memo.values == values;
    forall usage <- usages, name <- usage.names
      ensures ValueMeans(input, name, if name in values then values[name] else "")
    {
      assert ValueMeans(input, name, Value(memo, name));
    }
  }

  method UsageOf(walk: VariableWalk, expressions: seq<string>, i: nat) returns (usage: Usage)
    requires i < |expressions|
    requires forall root :: Asked(expressions, root) ==> Resolved(walk.input, walk.Now(), root)
    ensures UsageOk(walk.input, expressions[i], usage)
    ensures forall name <- usage.names :: ValueMeans(walk.input, name, Value(walk.Now(), name))
  {
    hide Children, Leads, Complete, Sensitive, Resolved, Settled, Asked, ValueMeans;
    var tokens := Template.Tokens(expressions[i]);
    forall token <- tokens ensures Resolved(walk.input, walk.Now(), token.name) {
      AskedBy(expressions, i, token);
    }
    forall token <- tokens ensures Complete(walk.input, walk.dependencies, token.name) {
      ResolvedIsComplete(walk.input, walk.Now(), token.name);
    }
    var names := CollectAll(walk.input, walk.dependencies, tokens);
    usage := Usage(names, set name <- names | name in walk.sensitiveNames);
    forall name <- names
      ensures name in walk.sensitiveNames <==> Sensitive(walk.input, name)
      ensures ValueMeans(walk.input, name, Value(walk.Now(), name))
    {
      var token :| token in tokens && Leads(walk.input, token.name, name);
      ReachedIsSettled(walk.input, walk.Now(), token.name, name);
    }
  }

  lemma AskedBy(expressions: seq<string>, i: nat, token: Template.Token)
    requires i < |expressions| && token in Template.Tokens(expressions[i])
    ensures Asked(expressions, token.name)
  {
    assert expressions[i] in expressions && Mentions(expressions[i], token.name);
  }

  lemma RootsSnoc(expressions: seq<string>, i: nat)
    requires i < |expressions|
    ensures Roots(expressions[..i + 1]) == Roots(expressions[..i]) + TokenNames(Template.Tokens(expressions[i]))
  {
    hide TokenNames;
    assert expressions[..i + 1][..i] == expressions[..i];
  }

  lemma ReachedIsSettled(input: Input, memo: Memo, root: string, name: string)
    requires Resolved(input, memo, root) && Leads(input, root, name)
    ensures name in memo.sensitive <==> Sensitive(input, name)
    ensures ValueMeans(input, name, Value(memo, name))
  {
    hide Children, Content, Sensitive, Repeats;
    ContentMeans(input, name);
    var p :| Path(input, p) && p[0] == root && p[|p| - 1] == name;
    assert name in p;
    assert Settled(input, memo, name);
  }
}
