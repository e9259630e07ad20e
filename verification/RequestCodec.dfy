/** The compact local form of a request editor: what differs from the defaults of its version. */
module RequestCodec {
  import opened Bytes

  /** Editor values. A file is known by its identity only. */
  datatype Value =
    | Undefined
    | Null
    | NotANumber
    | Bool(flag: bool)
    | Number(number: int)
    | Text(text: string)
    | FileRef(identity: nat)
    | List(items: seq<Value>)
    | Object(fields: map<string, Value>)

  datatype CodecError = InvalidEditor | UnsupportedFormat

  const VERSION_KEY := "__purrRequest"

  function Field(fields: map<string, Value>, key: string): Value {
    if key in fields then fields[key] else Undefined
  }

  // ------------------------------------------------------------------ defaults

  function EmptyRow(id: string, nameKey: string): Value {
    List([Object(map["id" := Text(id), nameKey := Text(""), "value" := Text(""), "enabled" := Bool(false)])])
  }

  function DefaultBody(): map<string, Value> {
    map[
      "type" := Text("none"), "autoConvert" := Bool(false), "json" := Text(""), "xml" := Text(""),
      "text" := Text(""), "binary" := Null, "formData" := EmptyRow("form-data-1", "key"),
      "urlEncoded" := EmptyRow("url-encoded-1", "key")
    ]
  }

  function DefaultOAuth(): map<string, Value> {
    map[
      "grantType" := Text("client_credentials"), "authorizationUrl" := Text(""), "tokenUrl" := Text(""),
      "clientId" := Text(""), "clientSecret" := Text(""), "scopes" := Text(""),
      "redirectUri" := Text("http://127.0.0.1:8976/oauth/callback"), "clientAuthentication" := Text("body"),
      "autoRefresh" := Bool(true), "token" := Null
    ]
  }

  function DefaultAuth(): map<string, Value> {
    map[
      "type" := Text("none"), "bearer" := Object(map["token" := Text(""), "prefix" := Text("Bearer")]),
      "basic" := Object(map["username" := Text(""), "password" := Text("")]),
      "apiKey" := Object(map["name" := Text(""), "value" := Text(""), "placement" := Text("header")]),
      "oauth2" := Object(DefaultOAuth()), "inherit" := Object(map["source" := Text("auto")])
    ]
  }

  function Defaults(): map<string, Value> {
    map[
      "documentation" := Text(""), "params" := EmptyRow("param-1", "key"), "pathParams" := List([]),
      "headers" := EmptyRow("header-1", "name"), "body" := Object(DefaultBody()),
      "auth" := Object(DefaultAuth()), "useCookieJar" := Bool(true),
      "workspace" := Object(map["headersEnabled" := Bool(true), "authEnabled" := Bool(true), "headerOverrides" := Object(map[])])
    ]
  }

  // ----------------------------------------------------------------- the codec

  function Defined(fields: map<string, Value>): set<string> {
    set key <- fields.Keys | fields[key] != Undefined
  }

  predicate Equal(left: Value, right: Value) {
    match (left, right)
    case (List(a), List(b)) => |a| == |b| && forall i :: 0 <= i < |a| ==> Equal(a[i], b[i])
    case (Object(a), Object(b)) =>
      |Defined(a)| == |b.Keys| && forall key <- Defined(a) :: key in b && Equal(a[key], b[key])
    case _ => left == right && left != NotANumber
  }

  /** Keys worth keeping: defined, and not what the defaults say. */
  predicate Differs(fields: map<string, Value>, defaults: map<string, Value>, key: string)
    requires key in fields
  {
    fields[key] != Undefined && !(key in defaults && Equal(fields[key], defaults[key]))
  }

  function Subtract(fields: map<string, Value>, defaults: map<string, Value>): map<string, Value>
    decreases Object(fields)
  {
    map key <- fields.Keys | Differs(fields, defaults, key) ::
      if fields[key].Object? && Field(defaults, key).Object? then
        Object(Subtract(fields[key].fields, defaults[key].fields))
      else fields[key]
  }

  function Expand(fields: map<string, Value>, defaults: map<string, Value>): map<string, Value>
    decreases Object(fields)
  {
    map key <- fields.Keys + defaults.Keys ::
      if key !in fields then defaults[key]
      else if fields[key].Object? && Field(defaults, key).Object? then
        Object(Expand(fields[key].fields, defaults[key].fields))
      else fields[key]
  }

  /** Expansion as it runs: a copy of the defaults, overwritten entry by entry in any order. */
  method ExpandInto(fields: map<string, Value>, defaults: map<string, Value>) returns (result: map<string, Value>)
    ensures result == Expand(fields, defaults)
    decreases Object(fields)
  {
    result := defaults;
    var keys := fields.Keys;
    while keys != {}
      invariant keys <= fields.Keys
      invariant result.Keys == defaults.Keys + (fields.Keys - keys)
      invariant forall key <- result.Keys ::
        result[key] == if key in keys || key !in fields then Field(defaults, key) else Expand(fields, defaults)[key]
    {
      var key :| key in keys;
      if fields[key].Object? && Field(defaults, key).Object? {
        var inner := ExpandInto(fields[key].fields, defaults[key].fields);
        result := result[key := Object(inner)];
      } else {
        result := result[key := fields[key]];
      }
      keys := keys - {key};
    }
  }

  predicate HexDigit(c: char) {
    '0' <= c <= '9' || 'a' <= c <= 'f' || 'A' <= c <= 'F'
  }

  /** A boundary as the program generates them: a prefix and an identifier of five hexadecimal groups. */
  predicate Generated(boundary: string) {
    && |boundary| == 41
    && boundary[0] in {'p', 'P'} && boundary[1] in {'u', 'U'} && boundary[2] in {'r', 'R'} && boundary[3] in {'r', 'R'}
    && forall i :: 4 <= i < 41 ==> if i in {4, 13, 18, 23, 28} then boundary[i] == '-' else HexDigit(boundary[i])
  }

  predicate Hex(group: string) {
    forall c <- group :: HexDigit(c)
  }

  /** Generated boundaries are the prefix, in any case, and groups of 8, 4, 4, 4 and 12 digits, joined by hyphens. */
  lemma GeneratedGroups(prefix: string, a: string, b: string, c: string, d: string, e: string)
    requires |prefix| == 4 && |a| == 8 && |b| == |c| == |d| == 4 && |e| == 12
    ensures Generated(prefix + "-" + a + "-" + b + "-" + c + "-" + d + "-" + e) <==>
      && prefix[0] in {'p', 'P'} && prefix[1] in {'u', 'U'} && prefix[2] in {'r', 'R'} && prefix[3] in {'r', 'R'}
      && Hex(a) && Hex(b) && Hex(c) && Hex(d) && Hex(e)
  {
    hide HexDigit;
    var text := prefix + "-" + a + "-" + b + "-" + c + "-" + d + "-" + e;
    assert text[..4] == prefix && text[4] == '-' && text[13] == '-' && text[18] == '-' && text[23] == '-' && text[28] == '-';
    assert text[5..13] == a && text[14..18] == b && text[19..23] == c && text[24..28] == d && text[29..41] == e;
    GroupAt(text, 5, 13);
    GroupAt(text, 14, 18);
    GroupAt(text, 19, 23);
    GroupAt(text, 24, 28);
    GroupAt(text, 29, 41);
    assert text[0] == prefix[0] && text[1] == prefix[1] && text[2] == prefix[2] && text[3] == prefix[3];
  }

  /** A boundary of that shape, group by group. */
  ghost predicate Shaped(boundary: string) {
    exists prefix: string, a: string, b: string, c: string, d: string, e: string ::
      InGroups(boundary, prefix, a, b, c, d, e)
  }

  ghost predicate InGroups(boundary: string, prefix: string, a: string, b: string, c: string, d: string, e: string) {
    && boundary == prefix + "-" + a + "-" + b + "-" + c + "-" + d + "-" + e
    && |prefix| == 4 && |a| == 8 && |b| == |c| == |d| == 4 && |e| == 12
    && prefix[0] in {'p', 'P'} && prefix[1] in {'u', 'U'} && prefix[2] in {'r', 'R'} && prefix[3] in {'r', 'R'}
    && Hex(a) && Hex(b) && Hex(c) && Hex(d) && Hex(e)
  }

  lemma GeneratedIsShaped(boundary: string)
    ensures Generated(boundary) <==> Shaped(boundary)
  {
    hide Hex, Generated;
    if Generated(boundary) {
      Regroup(boundary);
      var prefix, a, b, c, d, e := boundary[..4], boundary[5..13], boundary[14..18], boundary[19..23], boundary[24..28],
                                   boundary[29..];
      GeneratedGroups(prefix, a, b, c, d, e);
      assert InGroups(boundary, prefix, a, b, c, d, e);
    }
    if Shaped(boundary) {
      var prefix, a, b, c, d, e :| InGroups(boundary, prefix, a, b, c, d, e);
      GeneratedGroups(prefix, a, b, c, d, e);
    }
  }

  lemma Regroup(text: string)
    requires Generated(text)
    ensures |text| == 41
    ensures text == text[..4] + "-" + text[5..13] + "-" + text[14..18] + "-" + text[19..23] + "-" + text[24..28] + "-" + text[29..]
  {
    assert text[4] == '-' && text[13] == '-' && text[18] == '-' && text[23] == '-' && text[28] == '-';
  }

  lemma GroupAt(text: string, from: nat, to: nat)
    requires from <= to <= |text|
    ensures Hex(text[from..to]) <==> forall i :: from <= i < to ==> HexDigit(text[i])
  {
    hide HexDigit;
    forall i | from <= i < to ensures text[i] in text[from..to] {
      assert text[from..to][i - from] == text[i];
    }
  }

  /** The body is the default body under a generated boundary. */
  predicate Regenerates(source: map<string, Value>) {
    var body := Field(source, "body");
    && body.Object? && Field(body.fields, "boundary").Text? && Generated(Field(body.fields, "boundary").text)
    && Equal(Object(body.fields - {"boundary"}), Object(DefaultBody()))
  }

  function Trimmed(source: map<string, Value>): map<string, Value> {
    if Regenerates(source) then source["body" := Object(source["body"].fields - {"boundary"})] else source
  }

  function Compact(value: Value): Result<Value, CodecError> {
    if !value.Object? then Err(InvalidEditor)
    else Ok(Object(map[VERSION_KEY := Number(1)] + Subtract(Trimmed(value.fields), Defaults())))
  }

  function WithBoundary(fields: map<string, Value>, boundary: string): map<string, Value> {
    var body := Field(fields, "body");
    if body.Object? && Field(body.fields, "boundary") == Undefined then
      fields["body" := Object(body.fields["boundary" := Text(boundary)])]
    else fields
  }

  function ExpandLocal(value: Value, boundary: string): Result<Value, CodecError> {
    if !value.Object? || VERSION_KEY !in value.fields then Ok(value)
    else if value.fields[VERSION_KEY] != Number(1) then Err(UnsupportedFormat)
    else Ok(Object(WithBoundary(Expand(value.fields - {VERSION_KEY}, Defaults()), boundary)))
  }

  // ------------------------------------------------------------------- meaning

  /** A value without its undefined keys, at every depth: what survives storing it. */
  function Prune(value: Value): Value {
    match value
    case Object(fields) => Object(map key <- Defined(fields) :: Prune(fields[key]))
    case List(items) => List(seq(|items|, i requires 0 <= i < |items| => Prune(items[i])))
    case _ => value
  }

  ghost predicate Clean(value: Value) {
    match value
    case Object(fields) => forall key <- fields.Keys :: Clean(fields[key])
    case List(items) => forall i :: 0 <= i < |items| ==> Clean(items[i])
    case _ => value != Undefined && value != NotANumber
  }

  /** Every default key is there, and what is an object by default is an object. */
  ghost predicate HasDefaults(fields: map<string, Value>, defaults: map<string, Value>)
    decreases Object(defaults)
  {
    forall key <- defaults.Keys ::
      && key in fields && fields[key] != Undefined
      && (defaults[key].Object? ==> fields[key].Object? && HasDefaults(fields[key].fields, defaults[key].fields))
  }

  lemma SubsetOfSameSize<T>(a: set<T>, b: set<T>)
    requires a <= b && |a| == |b|
    ensures a == b
  {
    assert |b - a| == |b| - |a|;
  }

  lemma {:induction false} CleanPrune(value: Value)
    requires Clean(value)
    ensures Prune(value) == value
  {
    match value
    case Object(fields) =>
      forall key | key in fields ensures key in Defined(fields) && Prune(fields[key]) == fields[key] {
        CleanPrune(fields[key]);
      }
      assert Prune(value).fields == fields;
    case List(items) =>
      forall i | 0 <= i < |items| ensures Prune(items[i]) == items[i] {
        CleanPrune(items[i]);
      }
    case _ =>
  }

  /** Comparing with a clean value means comparing what is left without undefined keys. */
  lemma {:induction false} EqualIsPrune(value: Value, defaults: Value)
    requires Clean(defaults)
    ensures Equal(value, defaults) <==> Prune(value) == defaults
  {
    match (value, defaults)
    case (List(a), List(b)) =>
      forall i | 0 <= i < |a| && i < |b| ensures Equal(a[i], b[i]) <==> Prune(a[i]) == b[i] {
        EqualIsPrune(a[i], b[i]);
      }
      if Prune(value) == defaults {
        assert forall i :: 0 <= i < |a| ==> Prune(value).items[i] == b[i];
      }
    case (Object(a), Object(b)) =>
      forall key | key in Defined(a) && key in b ensures Equal(a[key], b[key]) <==> Prune(a[key]) == b[key] {
        EqualIsPrune(a[key], b[key]);
      }
      ObjectsEqual(a, b);
    case _ =>
  }

  lemma ObjectsEqual(a: map<string, Value>, b: map<string, Value>)
    requires forall key :: key in Defined(a) && key in b ==> (Equal(a[key], b[key]) <==> Prune(a[key]) == b[key])
    ensures Equal(Object(a), Object(b)) <==> Prune(Object(a)) == Object(b)
  {
    var pruned := Prune(Object(a)).fields;
    assert pruned.Keys == Defined(a);
    if Equal(Object(a), Object(b)) {
      SubsetOfSameSize(Defined(a), b.Keys);
      assert pruned == b;
    }
    if pruned == b {
      forall key <- Defined(a) ensures key in b && Equal(a[key], b[key]) {
        assert pruned[key] == b[key];
      }
    }
  }

  // ---------------------------------------------------------------- round trip

  ghost predicate CleanMap(defaults: map<string, Value>) {
    Clean(Object(defaults))
  }

  /** Expanding what was left after subtraction gives every field back, undefined ones aside. */
  lemma {:induction false} FieldsComeBack(fields: map<string, Value>, defaults: map<string, Value>)
    requires HasDefaults(fields, defaults) && CleanMap(defaults)
    ensures
      var back := Expand(Subtract(fields, defaults), defaults);
      && back.Keys == Defined(back) == Defined(fields)
      && Prune(Object(back)) == Prune(Object(fields))
    decreases Object(fields), 1
  {
    hide HasDefaults, Clean, Prune, Expand, Subtract;
    var back := Expand(Subtract(fields, defaults), defaults);
    forall key ensures key in back <==> key in Defined(fields) {
      ExpandKeys(fields, defaults, key);
    }
    forall key | key in back ensures back[key] != Undefined && Prune(back[key]) == Prune(fields[key]) {
      FieldComesBack(fields, defaults, key);
    }
    assert Defined(back) == back.Keys;
    PruneAlike(back, fields);
  }

  lemma PruneAlike(a: map<string, Value>, b: map<string, Value>)
    requires Defined(a) == Defined(b)
    requires forall key <- Defined(a) :: Prune(a[key]) == Prune(b[key])
    ensures Prune(Object(a)) == Prune(Object(b))
  {
    assert Prune(Object(a)).fields == Prune(Object(b)).fields;
  }

  lemma ExpandKeys(fields: map<string, Value>, defaults: map<string, Value>, key: string)
    requires HasDefaults(fields, defaults)
    ensures key in Expand(Subtract(fields, defaults), defaults) <==> key in Defined(fields)
  {
    hide Clean, Prune, Equal;
  }

  /** How a field comes back. */
  lemma ExpandedField(fields: map<string, Value>, defaults: map<string, Value>, key: string)
    requires HasDefaults(fields, defaults) && key in Defined(fields)
    ensures
      var left := Subtract(fields, defaults);
      var back := Expand(left, defaults);
      && key in back && (key in left <==> Differs(fields, defaults, key))
      && (!Differs(fields, defaults, key) ==> key in defaults && back[key] == defaults[key])
      && (Differs(fields, defaults, key) && !(fields[key].Object? && Field(defaults, key).Object?) ==>
            left[key] == back[key] == fields[key])
      && (Differs(fields, defaults, key) && fields[key].Object? && Field(defaults, key).Object? ==>
            && left[key] == Object(Subtract(fields[key].fields, defaults[key].fields))
            && back[key] == Object(Expand(left[key].fields, defaults[key].fields)))
  {
    hide Clean, Prune, Equal, HasDefaults;
  }

  lemma FieldComesBack(fields: map<string, Value>, defaults: map<string, Value>, key: string)
    requires HasDefaults(fields, defaults) && CleanMap(defaults) && key in Defined(fields)
    ensures
      var back := Expand(Subtract(fields, defaults), defaults);
      key in back && back[key] != Undefined && Prune(back[key]) == Prune(fields[key])
    decreases Object(fields), 0
  {
    hide Prune, Expand, Subtract;
    ExpandedField(fields, defaults, key);
    if !Differs(fields, defaults, key) {
      EqualIsPrune(fields[key], defaults[key]);
      CleanPrune(defaults[key]);
    } else if fields[key].Object? && Field(defaults, key).Object? {
      assert fields[key] == Object(fields[key].fields) && defaults[key] == Object(defaults[key].fields);
      FieldsComeBack(fields[key].fields, defaults[key].fields);
    }
  }

  /** Subtracting again from the expanded form leaves what was left before. */
  lemma {:induction false} SubtractAgain(fields: map<string, Value>, defaults: map<string, Value>)
    requires HasDefaults(fields, defaults) && CleanMap(defaults)
    ensures Subtract(Expand(Subtract(fields, defaults), defaults), defaults) == Subtract(fields, defaults)
    decreases Object(fields), 1
  {
    hide HasDefaults, Clean, Prune, Expand, Subtract, Differs;
    var left := Subtract(fields, defaults);
    var again := Subtract(Expand(left, defaults), defaults);
    forall key ensures key in left <==> key in again {
      SubtractAgainField(fields, defaults, key);
    }
    forall key | key in left ensures left[key] == again[key] {
      SubtractAgainField(fields, defaults, key);
    }
  }

  lemma SubtractKeys(fields: map<string, Value>, defaults: map<string, Value>, key: string)
    ensures key in Subtract(fields, defaults) <==> key in fields && Differs(fields, defaults, key)
    ensures key in Subtract(fields, defaults) ==>
      Subtract(fields, defaults)[key] == (
        if fields[key].Object? && Field(defaults, key).Object? then
          Object(Subtract(fields[key].fields, defaults[key].fields))
        else fields[key])
  {
    hide Differs;
  }

  lemma SubtractAgainField(fields: map<string, Value>, defaults: map<string, Value>, key: string)
    requires HasDefaults(fields, defaults) && CleanMap(defaults)
    ensures
      var left := Subtract(fields, defaults);
      var again := Subtract(Expand(left, defaults), defaults);
      && (key in left <==> key in again)
      && (key in left ==> left[key] == again[key])
    decreases Object(fields), 0
  {
    hide Prune, Expand, Subtract, Clean, HasDefaults;
    var left := Subtract(fields, defaults);
    var back := Expand(left, defaults);
    SubtractKeys(fields, defaults, key);
    SubtractKeys(back, defaults, key);
    FieldsComeBack(fields, defaults);
    if key in Defined(fields) {
      FieldComesBack(fields, defaults, key);
      DiffersAgain(fields, back, defaults, key);
      ExpandedField(fields, defaults, key);
      if key in left && fields[key].Object? && Field(defaults, key).Object? {
        InnerDefaults(fields, defaults, key);
        SubtractAgain(fields[key].fields, defaults[key].fields);
      }
    }
  }

  /** Nothing undefined and nothing that says what the defaults say, at any depth where both are objects. */
  ghost predicate Minimal(left: map<string, Value>, defaults: map<string, Value>)
    decreases Object(left)
  {
    forall key <- left.Keys ::
      && left[key] != Undefined
      && (key in defaults ==>
            if left[key].Object? && defaults[key].Object? then Minimal(left[key].fields, defaults[key].fields)
            else Prune(left[key]) != defaults[key])
  }

  lemma {:induction false} SubtractIsMinimal(fields: map<string, Value>, defaults: map<string, Value>)
    requires CleanMap(defaults)
    ensures Minimal(Subtract(fields, defaults), defaults)
    decreases Object(fields)
  {
    hide Subtract, Prune, Clean, Equal;
    var left := Subtract(fields, defaults);
    forall key | key in left
      ensures left[key] != Undefined
      ensures key in defaults ==>
        if left[key].Object? && defaults[key].Object? then Minimal(left[key].fields, defaults[key].fields)
        else Prune(left[key]) != defaults[key]
    {
      SubtractKeys(fields, defaults, key);
      if key in defaults {
        CleanField(defaults, key);
        EqualIsPrune(fields[key], defaults[key]);
        if fields[key].Object? && defaults[key].Object? {
          assert fields[key] == Object(fields[key].fields) && defaults[key] == Object(defaults[key].fields);
          SubtractIsMinimal(fields[key].fields, defaults[key].fields);
        }
      }
    }
  }

  lemma CleanField(defaults: map<string, Value>, key: string)
    requires CleanMap(defaults) && key in defaults
    ensures Clean(defaults[key])
    ensures defaults[key].Object? ==> CleanMap(defaults[key].fields)
  {
  }

  lemma InnerDefaults(fields: map<string, Value>, defaults: map<string, Value>, key: string)
    requires HasDefaults(fields, defaults) && CleanMap(defaults)
    requires key in fields && fields[key].Object? && key in defaults && defaults[key].Object?
    ensures HasDefaults(fields[key].fields, defaults[key].fields) && CleanMap(defaults[key].fields)
  {
    assert defaults[key] == Object(defaults[key].fields);
  }

  /** Fields alike but for undefined keys differ from clean defaults alike. */
  lemma DiffersAgain(a: map<string, Value>, b: map<string, Value>, defaults: map<string, Value>, key: string)
    requires CleanMap(defaults) && key in a && key in b && a[key] != Undefined && b[key] != Undefined
    requires Prune(a[key]) == Prune(b[key])
    ensures Differs(a, defaults, key) <==> Differs(b, defaults, key)
  {
    hide Prune, Equal;
    if key in defaults {
      EqualIsPrune(a[key], defaults[key]);
      EqualIsPrune(b[key], defaults[key]);
    }
  }

  // --------------------------------------------------------- the whole editor

  /** An editor with every default key and a text boundary. */
  ghost predicate Editor(fields: map<string, Value>) {
    && HasDefaults(fields, Defaults())
    && "body" in fields && fields["body"].Object? && Field(fields["body"].fields, "boundary").Text?
  }

  /** A generated boundary of a body in which nothing else was set. */
  ghost predicate UnusedBoundary(fields: map<string, Value>) {
    var body := Field(fields, "body");
    && body.Object? && Field(body.fields, "boundary").Text? && Shaped(Field(body.fields, "boundary").text)
    && Prune(Object(body.fields - {"boundary"})) == Object(DefaultBody())
  }

  lemma RegeneratesExactly(fields: map<string, Value>)
    ensures Regenerates(fields) <==> UnusedBoundary(fields)
  {
    hide Prune, Equal, Generated, Shaped, DefaultBody;
    CleanDefaults();
    var body := Field(fields, "body");
    if body.Object? && Field(body.fields, "boundary").Text? {
      GeneratedIsShaped(Field(body.fields, "boundary").text);
      EqualIsPrune(Object(body.fields - {"boundary"}), Object(DefaultBody()));
    }
  }

  /** The editor as it should come back: with a new boundary when the old one was dropped. */
  ghost function Expected(fields: map<string, Value>, boundary: string): map<string, Value>
    requires "body" in fields && fields["body"].Object?
  {
    if UnusedBoundary(fields) then fields["body" := Object(fields["body"].fields["boundary" := Text(boundary)])] else fields
  }

  ghost predicate RoundTrips(fields: map<string, Value>, boundary: string)
    requires "body" in fields && fields["body"].Object?
  {
    var compact := Compact(Object(fields));
    && compact.Ok? && ExpandLocal(compact.value, boundary).Ok?
    && Prune(ExpandLocal(compact.value, boundary).value) == Prune(Object(Expected(fields, boundary)))
  }

  lemma CleanDefaults()
    ensures CleanMap(Defaults()) && CleanMap(DefaultBody())
    ensures "boundary" !in DefaultBody() && VERSION_KEY !in Defaults()
    ensures "body" in Defaults() && Defaults()["body"] == Object(DefaultBody())
  {
    hide Clean, DefaultBody, DefaultAuth, EmptyRow;
    CleanBody();
    CleanAuth();
    CleanRow("param-1", "key");
    CleanRow("header-1", "name");
    CleanLeaves(map["documentation" := Text(""), "useCookieJar" := Bool(true)]);
    CleanWorkspace();
    forall key <- Defaults().Keys ensures Clean(Defaults()[key]) {
      CleanLeaf(Defaults()[key]);
    }
    CleanFields(Defaults());
  }

  predicate Leaf(value: Value) {
    value.Text? || value.Bool? || value.Null? || value == List([])
  }

  lemma CleanLeaf(value: Value)
    ensures Leaf(value) ==> Clean(value)
  {
  }

  lemma CleanFields(fields: map<string, Value>)
    requires forall key <- fields.Keys :: Clean(fields[key])
    ensures CleanMap(fields)
  {
  }

  lemma CleanLeaves(fields: map<string, Value>)
    requires forall key <- fields.Keys :: Leaf(fields[key])
    ensures CleanMap(fields)
  {
    hide Clean;
    forall key <- fields.Keys ensures Clean(fields[key]) {
      CleanLeaf(fields[key]);
    }
    CleanFields(fields);
  }

  lemma CleanRow(id: string, nameKey: string)
    ensures Clean(EmptyRow(id, nameKey))
  {
    var row := map["id" := Text(id), nameKey := Text(""), "value" := Text(""), "enabled" := Bool(false)];
    CleanLeaves(row);
    assert EmptyRow(id, nameKey) == List([Object(row)]);
  }

  lemma CleanBody()
    ensures CleanMap(DefaultBody()) && "boundary" !in DefaultBody()
  {
    hide Clean, EmptyRow;
    CleanRow("form-data-1", "key");
    CleanRow("url-encoded-1", "key");
    forall key <- DefaultBody().Keys ensures Clean(DefaultBody()[key]) {
      CleanLeaf(DefaultBody()[key]);
    }
    CleanFields(DefaultBody());
  }

  lemma CleanAuth()
    ensures CleanMap(DefaultAuth())
  {
    hide Clean, DefaultOAuth;
    CleanOAuth();
    CleanLeaves(map["token" := Text(""), "prefix" := Text("Bearer")]);
    CleanLeaves(map["username" := Text(""), "password" := Text("")]);
    CleanLeaves(map["name" := Text(""), "value" := Text(""), "placement" := Text("header")]);
    CleanLeaves(map["source" := Text("auto")]);
    forall key <- DefaultAuth().Keys ensures Clean(DefaultAuth()[key]) {
      CleanLeaf(DefaultAuth()[key]);
    }
    CleanFields(DefaultAuth());
  }

  lemma CleanOAuth()
    ensures CleanMap(DefaultOAuth())
  {
    CleanLeaves(DefaultOAuth());
  }

  lemma CleanWorkspace()
    ensures CleanMap(map["headersEnabled" := Bool(true), "authEnabled" := Bool(true), "headerOverrides" := Object(map[])])
  {
    hide Clean;
    var workspace: map<string, Value> :=
      map["headersEnabled" := Bool(true), "authEnabled" := Bool(true), "headerOverrides" := Object(map[])];
    CleanLeaves(map[]);
    forall key <- workspace.Keys ensures Clean(workspace[key]) {
      CleanLeaf(workspace[key]);
    }
    CleanFields(workspace);
  }

  lemma PruneUpdate(fields: map<string, Value>, key: string, value: Value)
    requires value != Undefined
    ensures Prune(Object(fields[key := value])) == Object(Prune(Object(fields)).fields[key := Prune(value)])
  {
    assert Prune(Object(fields[key := value])).fields == Prune(Object(fields)).fields[key := Prune(value)];
  }

  lemma PruneWithout(fields: map<string, Value>, key: string)
    ensures Prune(Object(fields - {key})) == Object(Prune(Object(fields)).fields - {key})
  {
    assert Prune(Object(fields - {key})).fields == Prune(Object(fields)).fields - {key};
  }

  lemma PruneField(fields: map<string, Value>, key: string)
    ensures Prune(Field(fields, key)) == Field(Prune(Object(fields)).fields, key)
  {
  }

  lemma PruneKinds(value: Value)
    ensures Prune(value).Object? <==> value.Object?
    ensures Prune(value).Text? || value.Text? ==> Prune(value) == value
    ensures Prune(value) == Undefined <==> value == Undefined
  {
  }

  /** Editors alike but for undefined keys have the same kind of body. */
  lemma RegeneratesAlike(a: map<string, Value>, b: map<string, Value>)
    requires Prune(Object(a)) == Prune(Object(b))
    ensures Regenerates(a) <==> Regenerates(b)
  {
    hide Prune, Equal, Generated, Defaults, DefaultBody;
    var bodyA, bodyB := Field(a, "body"), Field(b, "body");
    PruneField(a, "body");
    PruneField(b, "body");
    PruneKinds(bodyA);
    PruneKinds(bodyB);
    if bodyA.Object? {
      assert bodyA == Object(bodyA.fields) && bodyB == Object(bodyB.fields);
      PruneField(bodyA.fields, "boundary");
      PruneField(bodyB.fields, "boundary");
      PruneKinds(Field(bodyA.fields, "boundary"));
      PruneKinds(Field(bodyB.fields, "boundary"));
      PruneWithout(bodyA.fields, "boundary");
      PruneWithout(bodyB.fields, "boundary");
      CleanDefaults();
      EqualIsPrune(Object(bodyA.fields - {"boundary"}), Object(DefaultBody()));
      EqualIsPrune(Object(bodyB.fields - {"boundary"}), Object(DefaultBody()));
    }
  }

  lemma TrimmedHasDefaults(fields: map<string, Value>)
    requires Editor(fields)
    ensures HasDefaults(Trimmed(fields), Defaults())
    ensures Field(Trimmed(fields), VERSION_KEY) == Field(fields, VERSION_KEY)
  {
    hide Equal, Generated, Defaults, DefaultBody, HasDefaults, Clean;
    CleanDefaults();
    if Regenerates(fields) {
      InnerDefaults(fields, Defaults(), "body");
      ExtraIsFree(fields["body"].fields, DefaultBody(), "boundary");
      InnerIsFree(fields, Defaults(), "body", fields["body"].fields - {"boundary"});
    }
  }

  lemma ExtraIsFree(fields: map<string, Value>, defaults: map<string, Value>, key: string)
    requires HasDefaults(fields, defaults) && key !in defaults
    ensures HasDefaults(fields - {key}, defaults)
  {
  }

  lemma InnerIsFree(fields: map<string, Value>, defaults: map<string, Value>, key: string, inner: map<string, Value>)
    requires HasDefaults(fields, defaults) && key in defaults && defaults[key].Object?
    requires HasDefaults(inner, defaults[key].fields)
    ensures HasDefaults(fields[key := Object(inner)], defaults)
  {
  }

  /** The compact form and its expansion, when the version key is free. */
  lemma ExpansionOf(fields: map<string, Value>, boundary: string)
    requires Editor(fields) && Field(fields, VERSION_KEY) == Undefined
    ensures
      var back := Expand(Subtract(Trimmed(fields), Defaults()), Defaults());
      ExpandLocal(Compact(Object(fields)).value, boundary) == Ok(Object(WithBoundary(back, boundary)))
  {
    hide Equal, HasDefaults, Expand, Trimmed, WithBoundary, Regenerates, Editor, Defaults, DefaultBody;
    TrimmedHasDefaults(fields);
    SubtractKeys(Trimmed(fields), Defaults(), VERSION_KEY);
    var left := Subtract(Trimmed(fields), Defaults());
    assert VERSION_KEY !in left;
    assert (map[VERSION_KEY := Number(1)] + left) - {VERSION_KEY} == left;
  }

  lemma ComesBack(fields: map<string, Value>, boundary: string)
    requires Editor(fields)
    ensures
      var back := Expand(Subtract(Trimmed(fields), Defaults()), Defaults());
      && Prune(Object(back)) == Prune(Object(Trimmed(fields)))
      && "body" in back && back["body"].Object?
      && ("boundary" in back["body"].fields <==> !Regenerates(fields))
      && (!Regenerates(fields) ==> WithBoundary(back, boundary) == back)
      && (Regenerates(fields) ==>
            WithBoundary(back, boundary) == back["body" := Object(back["body"].fields["boundary" := Text(boundary)])])
  {
    hide Equal, HasDefaults, Expand, Subtract, Prune, Generated, Defaults, DefaultBody;
    CleanDefaults();
    TrimmedHasDefaults(fields);
    var trimmed := Trimmed(fields);
    var back := Expand(Subtract(trimmed, Defaults()), Defaults());
    FieldsComeBack(trimmed, Defaults());
    assert "body" in Defined(trimmed) && "body" in back;
    PruneField(back, "body");
    PruneField(trimmed, "body");
    PruneKinds(back["body"]);
    PruneKinds(trimmed["body"]);
    BodyComesBack(trimmed);
  }

  lemma BodyComesBack(fields: map<string, Value>)
    requires HasDefaults(fields, Defaults()) && "body" in fields && fields["body"].Object?
    ensures
      var back := Expand(Subtract(fields, Defaults()), Defaults());
      && "body" in back && back["body"].Object?
      && back["body"].fields.Keys == Defined(back["body"].fields) == Defined(fields["body"].fields)
  {
    hide Equal, HasDefaults, Expand, Subtract, Prune, Defaults, DefaultBody;
    CleanDefaults();
    ExpandedField(fields, Defaults(), "body");
    if Differs(fields, Defaults(), "body") {
      InnerDefaults(fields, Defaults(), "body");
      FieldsComeBack(fields["body"].fields, DefaultBody());
    } else {
      var body := fields["body"].fields;
      EqualIsPrune(Object(body), Object(DefaultBody()));
      DefaultBodyKeys(body);
    }
  }

  lemma DefaultBodyKeys(body: map<string, Value>)
    requires Prune(Object(body)) == Object(DefaultBody())
    ensures DefaultBody().Keys == Defined(DefaultBody()) == Defined(body)
  {
    hide Prune, DefaultBody, Defined;
    CleanDefaults();
    PruneKeys(body);
    CleanPrune(Object(DefaultBody()));
    PruneKeys(DefaultBody());
  }

  lemma PruneKeys(fields: map<string, Value>)
    ensures Prune(Object(fields)).Object? && Prune(Object(fields)).fields.Keys == Defined(fields)
  {
  }

  /** An editor comes back from its compact form, exactly when it has no key of its own where the
      format's version is kept. */
  lemma RoundTrip(fields: map<string, Value>, boundary: string)
    requires Editor(fields)
    ensures RoundTrips(fields, boundary) <==> Field(fields, VERSION_KEY) == Undefined
  {
    hide Equal, HasDefaults, Expand, Subtract, Prune, Compact, ExpandLocal, Trimmed, WithBoundary, Expected;
    hide Defaults, DefaultBody;
    if Field(fields, VERSION_KEY) == Undefined {
      ExpansionOf(fields, boundary);
      ComesBack(fields, boundary);
      ExpectedComesBack(fields, boundary);
      CompactIsOk(fields);
    } else {
      VersionKeyIsLost(fields, boundary);
    }
  }

  /** The compact form of any object holds nothing the defaults say, and no boundary that is not used. */
  lemma CompactIsMinimal(fields: map<string, Value>)
    ensures Compact(Object(fields)).Ok? && Compact(Object(fields)).value.Object?
    ensures Minimal(Compact(Object(fields)).value.fields - {VERSION_KEY}, Defaults())
    ensures UnusedBoundary(fields) ==> "body" !in Compact(Object(fields)).value.fields
  {
    hide Subtract, Clean, Defaults, DefaultBody, Prune, UnusedBoundary, Regenerates, Equal;
    RegeneratesExactly(fields);
    SubtractKeys(Trimmed(fields), Defaults(), "body");
    if Regenerates(fields) {
      DefaultBodyLeft(fields);
    }
    CleanDefaults();
    var left := Subtract(Trimmed(fields), Defaults());
    SubtractIsMinimal(Trimmed(fields), Defaults());
    var kept := Compact(Object(fields)).value.fields - {VERSION_KEY};
    assert forall key <- kept.Keys :: key in left && kept[key] == left[key];
  }

  lemma DefaultBodyLeft(fields: map<string, Value>)
    requires Regenerates(fields)
    ensures "body" in Trimmed(fields) && !Differs(Trimmed(fields), Defaults(), "body")
  {
    hide Equal, Generated, DefaultBody, Defaults;
    CleanDefaults();
  }

  /** Only values of this format are expanded: others come back unchanged, and a later format is refused. */
  lemma ExpandsOnlyItsFormat(value: Value, boundary: string)
    ensures (!value.Object? || VERSION_KEY !in value.fields) ==> ExpandLocal(value, boundary) == Ok(value)
    ensures value.Object? && VERSION_KEY in value.fields ==>
      (ExpandLocal(value, boundary).Ok? <==> value.fields[VERSION_KEY] == Number(1))
    ensures Compact(value).Ok? <==> value.Object?
  {
  }

  lemma CompactIsOk(fields: map<string, Value>)
    ensures Compact(Object(fields)).Ok?
  {
    hide Equal, HasDefaults, Subtract, Regenerates, Defaults, DefaultBody;
  }

  lemma ExpectedComesBack(fields: map<string, Value>, boundary: string)
    requires Editor(fields)
    ensures
      var back := Expand(Subtract(Trimmed(fields), Defaults()), Defaults());
      Prune(Object(WithBoundary(back, boundary))) == Prune(Object(Expected(fields, boundary)))
  {
    hide Equal, HasDefaults, Expand, Subtract, Prune, Generated, WithBoundary, Defaults, DefaultBody, UnusedBoundary;
    RegeneratesExactly(fields);
    ComesBack(fields, boundary);
    var back := Expand(Subtract(Trimmed(fields), Defaults()), Defaults());
    if Regenerates(fields) {
      var rest := fields["body"].fields - {"boundary"};
      var body := back["body"].fields;
      PruneField(back, "body");
      PruneField(Trimmed(fields), "body");
      assert back["body"] == Object(body);
      PruneUpdate(back, "body", Object(body["boundary" := Text(boundary)]));
      PruneUpdate(body, "boundary", Text(boundary));
      PruneUpdate(rest, "boundary", Text(boundary));
      PruneUpdate(Trimmed(fields), "body", Object(rest["boundary" := Text(boundary)]));
      assert rest["boundary" := Text(boundary)] == fields["body"].fields["boundary" := Text(boundary)];
      assert Trimmed(fields)["body" := Object(rest["boundary" := Text(boundary)])] == Expected(fields, boundary);
    }
  }

  lemma VersionKeyIsLost(fields: map<string, Value>, boundary: string)
    requires Editor(fields) && Field(fields, VERSION_KEY) != Undefined
    ensures !RoundTrips(fields, boundary)
  {
    hide Equal, HasDefaults, Prune, Generated, Regenerates, Expand, Defaults, DefaultBody, UnusedBoundary;
    CleanDefaults();
    TrimmedHasDefaults(fields);
    var compact := Compact(Object(fields)).value.fields;
    SubtractKeys(Trimmed(fields), Defaults(), VERSION_KEY);
    assert compact[VERSION_KEY] == fields[VERSION_KEY];
    if fields[VERSION_KEY] == Number(1) {
      var back := Expand(compact - {VERSION_KEY}, Defaults());
      NoNewKey(compact - {VERSION_KEY}, VERSION_KEY);
      PruneField(WithBoundary(back, boundary), VERSION_KEY);
      PruneField(Expected(fields, boundary), VERSION_KEY);
      PruneKinds(fields[VERSION_KEY]);
      PruneKinds(Undefined);
    }
  }

  lemma NoNewKey(fields: map<string, Value>, key: string)
    requires key !in fields && key !in Defaults()
    ensures key !in Expand(fields, Defaults())
  {
  }

  /** Compacting the expanded editor again gives the same compact form, exactly when the boundary is kept or the
      new one is of the generated shape. */
  lemma Recompacts(fields: map<string, Value>, boundary: string)
    requires Editor(fields) && Field(fields, VERSION_KEY) == Undefined
    ensures
      Compact(ExpandLocal(Compact(Object(fields)).value, boundary).value) == Compact(Object(fields))
      <==> !UnusedBoundary(fields) || Shaped(boundary)
  {
    hide Equal, HasDefaults, Expand, Subtract, Prune, Compact, ExpandLocal, Trimmed, WithBoundary, Generated;
    hide Regenerates, Defaults, DefaultBody, UnusedBoundary, Shaped;
    RegeneratesExactly(fields);
    GeneratedIsShaped(boundary);
    ExpansionOf(fields, boundary);
    ComesBack(fields, boundary);
    TrimmedHasDefaults(fields);
    CleanDefaults();
    var back := Expand(Subtract(Trimmed(fields), Defaults()), Defaults());
    SubtractAgain(Trimmed(fields), Defaults());
    if Regenerates(fields) {
      RecompactsDefaultBody(fields, boundary);
    } else {
      RecompactsOtherBody(fields, back);
    }
  }

  lemma RecompactsOtherBody(fields: map<string, Value>, back: map<string, Value>)
    requires !Regenerates(fields) && Prune(Object(back)) == Prune(Object(Trimmed(fields)))
    requires Subtract(back, Defaults()) == Subtract(Trimmed(fields), Defaults())
    ensures Compact(Object(back)) == Compact(Object(fields))
  {
    hide Subtract, Regenerates, Prune, Defaults, DefaultBody;
    RegeneratesAlike(fields, back);
  }

  lemma RecompactsDefaultBody(fields: map<string, Value>, boundary: string)
    requires Editor(fields) && Regenerates(fields)
    ensures
      var back := Expand(Subtract(Trimmed(fields), Defaults()), Defaults());
      Compact(Object(WithBoundary(back, boundary))) == Compact(Object(fields)) <==> Generated(boundary)
  {
    hide Equal, HasDefaults, Expand, Prune, WithBoundary, Subtract, Generated, Defaults, DefaultBody;
    CleanDefaults();
    TrimmedHasDefaults(fields);
    ComesBack(fields, boundary);
    var trimmed := Trimmed(fields);
    var back := Expand(Subtract(trimmed, Defaults()), Defaults());
    var body := back["body"].fields;
    var full := WithBoundary(back, boundary);
    assert full["body"].fields - {"boundary"} == body;
    PruneField(back, "body");
    PruneField(trimmed, "body");
    EqualIsPrune(trimmed["body"], Object(DefaultBody()));
    EqualIsPrune(back["body"], Object(DefaultBody()));
    SubtractAgain(trimmed, Defaults());
    SubtractKeys(trimmed, Defaults(), "body");
    SubtractKeys(full, Defaults(), "body");
    if Generated(boundary) {
      assert Trimmed(full) == back;
    } else {
      assert !Regenerates(full);
      BoundaryDiffers(full, boundary);
    }
  }

  lemma BoundaryDiffers(fields: map<string, Value>, boundary: string)
    requires "body" in fields && fields["body"].Object? && Field(fields["body"].fields, "boundary") == Text(boundary)
    ensures !Equal(fields["body"], Object(DefaultBody()))
  {
    hide Prune, Defaults, DefaultBody;
    CleanDefaults();
    EqualIsPrune(fields["body"], Object(DefaultBody()));
    assert fields["body"] == Object(fields["body"].fields);
    PruneField(fields["body"].fields, "boundary");
    PruneKinds(Text(boundary));
  }
}
