/** Merging a project edited both here and outside, against the version both started from. */
module WorkspaceMerge {
  import opened Bytes

  /** `signature` is the serialised form the merge compares; `rest` is what serialisation leaves out. */
  datatype Resource = Resource(id: string, signature: string, rest: string)

  datatype Settings = Settings(signature: string, rest: string)

  datatype Project = Project(settings: Settings, resources: seq<Resource>)

  datatype Conflict = SettingsConflict | ResourceConflict | DraftConflict

  // ------------------------------------------------------------ specification

  function Find(resources: seq<Resource>, id: string): Option<Resource> {
    if resources == [] then None
    else if resources[0].id == id then Some(resources[0])
    else Find(resources[1..], id)
  }

  function Signature(resource: Option<Resource>): Option<string> {
    if resource.Some? then Some(resource.value.signature) else None
  }

  function SignatureOf(resources: seq<Resource>, id: string): Option<string> {
    Signature(Find(resources, id))
  }

  predicate UniqueIds(resources: seq<Resource>) {
    resources == [] || (Find(resources[1..], resources[0].id).None? && UniqueIds(resources[1..]))
  }

  function Without(resources: seq<Resource>, id: string): seq<Resource> {
    if resources == [] then []
    else if resources[0].id == id then Without(resources[1..], id)
    else [resources[0]] + Without(resources[1..], id)
  }

  /** Only one side changed, or both changed alike. */
  ghost predicate Agree<T>(base: T, mine: T, theirs: T) {
    mine == base || theirs == base || mine == theirs
  }

  ghost predicate AgreeOn(base: seq<Resource>, mine: seq<Resource>, theirs: seq<Resource>, id: string) {
    Agree(SignatureOf(base, id), SignatureOf(mine, id), SignatureOf(theirs, id))
  }

  ghost predicate Mergeable(base: Project, mine: Project, theirs: Project) {
    && Agree(base.settings.signature, mine.settings.signature, theirs.settings.signature)
    && forall id :: AgreeOn(base.resources, mine.resources, theirs.resources, id)
  }

  /** The version the merge keeps: mine if I changed it, theirs otherwise. */
  function Kept(base: seq<Resource>, mine: seq<Resource>, theirs: seq<Resource>, id: string): Option<Resource> {
    if SignatureOf(mine, id) != SignatureOf(base, id) then Find(mine, id) else Find(theirs, id)
  }

  ghost predicate IsMerge(base: Project, mine: Project, theirs: Project, merged: Project) {
    && merged.settings == (if mine.settings.signature != base.settings.signature then mine.settings else theirs.settings)
    && UniqueIds(merged.resources)
    && forall id :: Find(merged.resources, id) == Kept(base.resources, mine.resources, theirs.resources, id)
  }

  // ---------------------------------------------------------------- the merge

  /** `drafts` are the saved definitions that still have a working copy. */
  method Merge(base: Project, mine: Project, theirs: Project, drafts: seq<string>) returns (result: Result<Project, Conflict>)
    requires UniqueIds(theirs.resources)
    ensures result.Ok? <==>
      Mergeable(base, mine, theirs)
      && forall id <- drafts :: Kept(base.resources, mine.resources, theirs.resources, id).Some?
    ensures result.Ok? ==> IsMerge(base, mine, theirs, result.value)
    ensures result.Ok? ==>
      Behind(base.resources, mine.resources, theirs.resources, Ids(base.resources + mine.resources), result.value.resources)
    ensures result == Err(SettingsConflict) <==>
      !Agree(base.settings.signature, mine.settings.signature, theirs.settings.signature)
    ensures result == Err(ResourceConflict) <==>
      && Agree(base.settings.signature, mine.settings.signature, theirs.settings.signature)
      && exists id :: !AgreeOn(base.resources, mine.resources, theirs.resources, id)
  {
    var settings := theirs.settings;
    if mine.settings.signature != base.settings.signature {
      if theirs.settings.signature != base.settings.signature && mine.settings.signature != theirs.settings.signature {
        return Err(SettingsConflict);
      }
      settings := mine.settings;
    }
    var resources := MergeResources(base.resources, mine.resources, theirs.resources);
    if resources.None? {
      return Err(ResourceConflict);
    }
    var i := 0;
    while i < |drafts|
      invariant 0 <= i <= |drafts|
      invariant forall j :: 0 <= j < i ==> Kept(base.resources, mine.resources, theirs.resources, drafts[j]).Some?
    {
      if Find(resources.value, drafts[i]).None? {
        assert drafts[i] in drafts;
        return Err(DraftConflict);
      }
      i := i + 1;
    }
    result := Ok(Project(settings, resources.value));
  }

  /** Ids of a list, first occurrences in order. */
  function Ids(resources: seq<Resource>): (ids: seq<string>)
    ensures forall id :: id in ids <==> Find(resources, id).Some?
  {
    if resources == [] then []
    else
      var rest := Ids(resources[1..]);
      [resources[0].id] + Exclude(rest, resources[0].id)
  }

  function Exclude(ids: seq<string>, id: string): (rest: seq<string>)
    ensures forall other :: other in rest <==> other in ids && other != id
  {
    if ids == [] then []
    else if ids[0] == id then Exclude(ids[1..], id)
    else [ids[0]] + Exclude(ids[1..], id)
  }

  method MergeResources(base: seq<Resource>, mine: seq<Resource>, theirs: seq<Resource>)
    returns (result: Option<seq<Resource>>)
    requires UniqueIds(theirs)
    ensures result.Some? <==> forall id :: AgreeOn(base, mine, theirs, id)
    ensures result.Some? ==> UniqueIds(result.value) && forall id :: Find(result.value, id) == Kept(base, mine, theirs, id)
    ensures result.Some? ==> Behind(base, mine, theirs, Ids(base + mine), result.value)
  {
    hide Half, Behind, Without, Kept, AgreeOn;
    var ids := Ids(base + mine);
    var merged := theirs;
    var i := 0;
    assert ids[..0] == [];
    MergeStarts(base, mine, theirs);
    while i < |ids|
      invariant 0 <= i <= |ids|
      invariant Half(base, mine, theirs, ids[..i], merged) && Behind(base, mine, theirs, ids[..i], merged)
      invariant forall id <- ids[..i] :: AgreeOn(base, mine, theirs, id)
    {
      var id := ids[i];
      assert ids[..i + 1] == ids[..i] + [id];
      MergeStep(base, mine, theirs, ids[..i], id, merged);
      var before, local, external := Find(base, id), Find(mine, id), Find(theirs, id);
      if Signature(local) != Signature(before) {
        if Signature(external) != Signature(before) && Signature(external) != Signature(local) {
          return None;
        }
        merged := Without(merged, id);
        if local.Some? {
          merged := merged + [local.value];
        }
      }
      i := i + 1;
    }
    assert ids[..i] == ids;
    MergeEnds(base, mine, theirs, merged);
    result := Some(merged);
  }

  /** The merge as far as these ids go. */
  ghost predicate Half(base: seq<Resource>, mine: seq<Resource>, theirs: seq<Resource>, ids: seq<string>, merged: seq<Resource>) {
    && UniqueIds(merged)
    && forall id :: Find(merged, id) == if id in ids then Kept(base, mine, theirs, id) else Find(theirs, id)
  }

  /** What I did not change stays in its order, and what I changed is put behind. */
  ghost predicate Behind(base: seq<Resource>, mine: seq<Resource>, theirs: seq<Resource>, ids: seq<string>, merged: seq<Resource>) {
    exists changed :: merged == WithoutAll(theirs, ids, base, mine) + changed
  }

  ghost function Replace(resources: seq<Resource>, id: string, local: Option<Resource>): seq<Resource> {
    Without(resources, id) + if local.Some? then [local.value] else []
  }

  lemma MergeStarts(base: seq<Resource>, mine: seq<Resource>, theirs: seq<Resource>)
    requires UniqueIds(theirs)
    ensures Half(base, mine, theirs, [], theirs) && Behind(base, mine, theirs, [], theirs)
  {
    assert theirs == WithoutAll(theirs, [], base, mine) + [];
  }

  /** What one more id does to the merge. */
  lemma MergeStep(base: seq<Resource>, mine: seq<Resource>, theirs: seq<Resource>, ids: seq<string>, id: string, merged: seq<Resource>)
    requires Half(base, mine, theirs, ids, merged) && Behind(base, mine, theirs, ids, merged)
    ensures AgreeOn(base, mine, theirs, id) <==>
      || SignatureOf(mine, id) == SignatureOf(base, id) || SignatureOf(theirs, id) == SignatureOf(base, id)
      || SignatureOf(theirs, id) == SignatureOf(mine, id)
    ensures
      var after := if SignatureOf(mine, id) == SignatureOf(base, id) then merged else Replace(merged, id, Find(mine, id));
      Half(base, mine, theirs, ids + [id], after) && Behind(base, mine, theirs, ids + [id], after)
    ensures Find(mine, id).None? ==> Replace(merged, id, Find(mine, id)) == Without(merged, id)
  {
    hide Without, Find, UniqueIds;
    assert (ids + [id])[..|ids|] == ids;
    FindHasId(mine, id);
    var changed :| merged == WithoutAll(theirs, ids, base, mine) + changed;
    var after := Replace(merged, id, Find(mine, id));
    assert Find(mine, id).None? ==> after == Without(merged, id);
    if SignatureOf(mine, id) != SignatureOf(base, id) {
      Replaced(merged, id, Find(mine, id), after);
      var behind := ReplacedBehind(WithoutAll(theirs, ids, base, mine), changed, id, Find(mine, id), after);
      assert after == WithoutAll(theirs, ids + [id], base, mine) + behind;
    } else {
      assert merged == WithoutAll(theirs, ids + [id], base, mine) + changed;
    }
  }

  lemma MergeEnds(base: seq<Resource>, mine: seq<Resource>, theirs: seq<Resource>, merged: seq<Resource>)
    requires Half(base, mine, theirs, Ids(base + mine), merged)
    requires forall id <- Ids(base + mine) :: AgreeOn(base, mine, theirs, id)
    ensures UniqueIds(merged)
    ensures forall id :: AgreeOn(base, mine, theirs, id) && Find(merged, id) == Kept(base, mine, theirs, id)
  {
    hide Ids, UniqueIds, Find;
    FindInEither(base, mine);
    forall id ensures AgreeOn(base, mine, theirs, id) && Find(merged, id) == Kept(base, mine, theirs, id) {
      if id !in Ids(base + mine) {
        assert Find(base, id).None? && Find(mine, id).None?;
      }
    }
  }

  /** A resource taken out, and its new version, if any, put at the end. */
  lemma Replaced(before: seq<Resource>, id: string, local: Option<Resource>, after: seq<Resource>)
    requires UniqueIds(before) && (local.Some? ==> local.value.id == id)
    requires after == Without(before, id) + if local.Some? then [local.value] else []
    ensures UniqueIds(after)
    ensures forall other :: Find(after, other) == if other == id then local else Find(before, other)
  {
    hide UniqueIds, Without, Find;
    WithoutFinds(before, id);
    if local.Some? {
      AppendFinds(Without(before, id), local.value);
    } else {
      assert after == Without(before, id);
    }
  }

  lemma ReplacedBehind(front: seq<Resource>, back: seq<Resource>, id: string, local: Option<Resource>, after: seq<Resource>)
    returns (behind: seq<Resource>)
    requires after == Without(front + back, id) + if local.Some? then [local.value] else []
    ensures after == Without(front, id) + behind
  {
    hide Without;
    WithoutConcat(front, back, id);
    behind := Without(back, id) + if local.Some? then [local.value] else [];
  }

  /** What is left of a list without the resources I changed, in its order. */
  ghost function WithoutAll(resources: seq<Resource>, ids: seq<string>, base: seq<Resource>, mine: seq<Resource>): seq<Resource> {
    if ids == [] then resources
    else
      var id := ids[|ids| - 1];
      var rest := WithoutAll(resources, ids[..|ids| - 1], base, mine);
      if SignatureOf(mine, id) == SignatureOf(base, id) then rest else Without(rest, id)
  }

  lemma {:induction false} WithoutConcat(front: seq<Resource>, back: seq<Resource>, id: string)
    ensures Without(front + back, id) == Without(front, id) + Without(back, id)
  {
    if front == [] {
      assert front + back == back;
    } else {
      assert (front + back)[1..] == front[1..] + back;
      WithoutConcat(front[1..], back, id);
    }
  }

  lemma {:induction false} FindHasId(resources: seq<Resource>, id: string)
    ensures Find(resources, id).Some? ==> Find(resources, id).value.id == id
  {
    if resources != [] {
      FindHasId(resources[1..], id);
    }
  }

  lemma FindInEither(base: seq<Resource>, mine: seq<Resource>)
    ensures forall id :: Find(base + mine, id).None? <==> Find(base, id).None? && Find(mine, id).None?
  {
    forall id ensures Find(base + mine, id).None? <==> Find(base, id).None? && Find(mine, id).None? {
      FindConcat(base, mine, id);
    }
  }

  lemma {:induction false} FindConcat(front: seq<Resource>, back: seq<Resource>, id: string)
    ensures Find(front + back, id) == if Find(front, id).Some? then Find(front, id) else Find(back, id)
  {
    if front == [] {
      assert front + back == back;
    } else {
      assert (front + back)[1..] == front[1..] + back;
      FindConcat(front[1..], back, id);
    }
  }

  lemma {:induction false} WithoutFind(resources: seq<Resource>, gone: string, id: string)
    ensures Find(Without(resources, gone), id) == if id == gone then None else Find(resources, id)
  {
    if resources != [] {
      WithoutFind(resources[1..], gone, id);
    }
  }

  lemma {:induction false} WithoutUnique(resources: seq<Resource>, gone: string)
    requires UniqueIds(resources)
    ensures UniqueIds(Without(resources, gone))
  {
    if resources != [] {
      WithoutUnique(resources[1..], gone);
      WithoutFind(resources[1..], gone, resources[0].id);
    }
  }

  lemma WithoutFinds(resources: seq<Resource>, gone: string)
    requires UniqueIds(resources)
    ensures UniqueIds(Without(resources, gone))
    ensures forall id :: Find(Without(resources, gone), id) == if id == gone then None else Find(resources, id)
  {
    WithoutUnique(resources, gone);
    forall id ensures Find(Without(resources, gone), id) == if id == gone then None else Find(resources, id) {
      WithoutFind(resources, gone, id);
    }
  }

  lemma {:induction false} AppendUnique(resources: seq<Resource>, resource: Resource)
    requires UniqueIds(resources) && Find(resources, resource.id).None?
    ensures UniqueIds(resources + [resource])
  {
    if resources != [] {
      assert (resources + [resource])[1..] == resources[1..] + [resource];
      AppendUnique(resources[1..], resource);
      FindConcat(resources[1..], [resource], resources[0].id);
    }
  }

  lemma AppendFinds(resources: seq<Resource>, resource: Resource)
    requires UniqueIds(resources) && Find(resources, resource.id).None?
    ensures UniqueIds(resources + [resource])
    ensures forall id :: Find(resources + [resource], id) == if id == resource.id then Some(resource) else Find(resources, id)
  {
    AppendUnique(resources, resource);
    forall id ensures Find(resources + [resource], id) == if id == resource.id then Some(resource) else Find(resources, id) {
      FindConcat(resources, [resource], id);
    }
  }

  // ------------------------------------------------------------------ symmetry

  /** A list up to order and up to what serialisation leaves out. */
  ghost function Content(resources: seq<Resource>): multiset<(string, string)> {
    multiset(seq(|resources|, i requires 0 <= i < |resources| => (resources[i].id, resources[i].signature)))
  }

  lemma {:induction false} ContentCounts(resources: seq<Resource>, id: string, signature: string)
    requires UniqueIds(resources)
    ensures Content(resources)[(id, signature)] == if SignatureOf(resources, id) == Some(signature) then 1 else 0
  {
    if resources == [] {
    } else {
      var first, rest := resources[0], resources[1..];
      ContentCounts(rest, id, signature);
      var pairs := seq(|resources|, i requires 0 <= i < |resources| => (resources[i].id, resources[i].signature));
      var later := seq(|rest|, i requires 0 <= i < |rest| => (rest[i].id, rest[i].signature));
      assert pairs == [(first.id, first.signature)] + later;
    }
  }

  /** Swapping the two sides changes neither whether the merge succeeds nor, up to order, what it holds. */
  lemma MergeIsSymmetric(base: Project, mine: Project, theirs: Project, one: Project, other: Project)
    requires Mergeable(base, mine, theirs)
    requires IsMerge(base, mine, theirs, one) && IsMerge(base, theirs, mine, other)
    ensures Mergeable(base, theirs, mine)
    ensures one.settings.signature == other.settings.signature
    ensures Content(one.resources) == Content(other.resources)
  {
    forall id ensures AgreeOn(base.resources, theirs.resources, mine.resources, id) {
      assert AgreeOn(base.resources, mine.resources, theirs.resources, id);
    }
    forall pair: (string, string) ensures Content(one.resources)[pair] == Content(other.resources)[pair] {
      ContentCounts(one.resources, pair.0, pair.1);
      ContentCounts(other.resources, pair.0, pair.1);
      assert AgreeOn(base.resources, mine.resources, theirs.resources, pair.0);
    }
  }

  /** Each change made on either side is in the result, exactly once. */
  lemma EveryChangeIsKept(base: Project, mine: Project, theirs: Project, merged: Project, id: string, signature: string)
    requires Mergeable(base, mine, theirs) && IsMerge(base, mine, theirs, merged)
    ensures SignatureOf(mine.resources, id) != SignatureOf(base.resources, id) ==>
      Content(merged.resources)[(id, signature)] == if SignatureOf(mine.resources, id) == Some(signature) then 1 else 0
    ensures SignatureOf(theirs.resources, id) != SignatureOf(base.resources, id) ==>
      Content(merged.resources)[(id, signature)] == if SignatureOf(theirs.resources, id) == Some(signature) then 1 else 0
    ensures SignatureOf(mine.resources, id) == SignatureOf(base.resources, id) == SignatureOf(theirs.resources, id) ==>
      Content(merged.resources)[(id, signature)] == if SignatureOf(base.resources, id) == Some(signature) then 1 else 0
  {
    ContentCounts(merged.resources, id, signature);
    assert AgreeOn(base.resources, mine.resources, theirs.resources, id);
  }
}
