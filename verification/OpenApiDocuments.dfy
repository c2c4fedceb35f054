/** The projected document entry by entry, in the terms of the document itself: which operations,
    components, schemes and tags `_project_schema` of `inc/api/openapi.py` lists, and in which order. */
module OpenApiDocuments {
  import opened OpenApiJson
  import opened OpenApiLaws
  import opened OpenApiProjection
  import opened Wrappers

  // ---------------------------------------------------------------- paths

  predicate IsMethod(key: string) {
    || key == "get" || key == "post" || key == "put" || key == "patch" || key == "delete"
    || key == "options" || key == "head"
  }

  /** A path stays exactly when one of its operations is selected. Then it keeps its selected operations
      and every key that is no operation, each unchanged. */
  lemma PathsExactly(doc: Document, selected: Selector, title: string, path: string, key: string)
    requires Projectable(doc, selected)
    ensures var out := Projection(doc, selected, title).paths;
            && out.Some?
            && (path in out.value <==>
                && doc.paths.Some? && path in doc.paths.value
                && exists m :: IsMethod(m) && m in doc.paths.value[path] && selected(path, doc.paths.value[path][m]))
            && (path in out.value ==>
                && (key in out.value[path] <==>
                    && key in doc.paths.value[path]
                    && (IsMethod(key) ==> selected(path, doc.paths.value[path][key])))
                && (key in out.value[path] ==> out.value[path][key] == doc.paths.value[path][key]))
  {
    forall k
      ensures k in HTTP_METHODS <==> IsMethod(k)
    {
    }
    var paths := SourcePaths(doc);
    SelectedAt(paths, selected, path);
    if path in paths {
      forall m | IsMethod(m) && m in paths[path] && selected(path, paths[path][m])
        ensures m in SelectedItem(path, paths[path], selected)
      {
      }
    }
  }

  // ---------------------------------------------------------------- components

  /** The value is an object whose `$ref` is `#/components/<category>/<name>`. */
  predicate Makes(v: Json, r: Ref) {
    && v.Object? && "$ref" in v.fields && '/' !in r.category
    && v.fields["$ref"] == String("#/components/" + r.category + "/" + r.name)
  }

  /** The value is an object with a security requirement for this scheme. */
  predicate Requires(v: Json, scheme: string) {
    && v.Object? && "security" in v.fields && v.fields["security"].Array?
    && exists i :: 0 <= i < |v.fields["security"].items| && Demands(v.fields["security"].items[i], scheme)
  }

  predicate Demands(requirement: Json, scheme: string) {
    requirement.Object? && scheme in requirement.fields
  }

  /** Some value nested in `v` makes the reference. */
  ghost predicate Mentions(v: Json, r: Ref) {
    exists part :: NestedIn(part, v) && Makes(part, r)
  }

  ghost predicate MentionedByPaths(paths: Paths, r: Ref) {
    exists p :: p in paths && Mentions(Object(paths[p]), r)
  }

  ghost predicate RequiredByPaths(paths: Paths, scheme: string) {
    exists p, part :: p in paths && NestedIn(part, Object(paths[p])) && Requires(part, scheme)
  }

  predicate Has(components: Option<Components>, r: Ref) {
    components.Some? && r.category in components.value && r.name in components.value[r.category]
  }

  /** The paths mention the first reference of the trail, and every component on it the next one. */
  ghost predicate Trail(components: Option<Components>, paths: Paths, trail: seq<Ref>) {
    && trail != [] && MentionedByPaths(paths, trail[0])
    && forall i :: 0 <= i < |trail| - 1 ==>
         && Has(components, trail[i])
         && Mentions(components.value[trail[i].category][trail[i].name], trail[i + 1])
  }

  ghost predicate Needed(components: Option<Components>, paths: Paths, r: Ref) {
    exists trail :: Trail(components, paths, trail) && trail[|trail| - 1] == r
  }

  lemma OwnRefsAreMade(v: Json, r: Ref)
    ensures r in OwnRefs(v) <==> Makes(v, r)
  {
    if v.Object? && "$ref" in v.fields && v.fields["$ref"].String? {
      ParseRefMeaning(v.fields["$ref"].s, r);
    }
  }

  lemma RefsAreMentioned(v: Json, r: Ref)
    ensures r in Refs(v) <==> Mentions(v, r)
  {
    RefsAreThoseWithin(v);
    forall part
      ensures r in OwnRefs(part) <==> Makes(part, r)
    {
      OwnRefsAreMade(part, r);
    }
  }

  lemma PathsMention(paths: Paths, r: Ref)
    ensures r in Refs(PathsJson(paths)) <==> MentionedByPaths(paths, r)
  {
    forall p | p in paths
      ensures r in Refs(PathsJson(paths).fields[p]) <==> Mentions(Object(paths[p]), r)
    {
      RefsAreMentioned(Object(paths[p]), r);
    }
    assert r !in OwnRefs(PathsJson(paths));
  }

  lemma PathsRequire(paths: Paths, scheme: string)
    ensures scheme in Schemes(PathsJson(paths)) <==> RequiredByPaths(paths, scheme)
  {
    forall p | p in paths
      ensures scheme in Schemes(PathsJson(paths).fields[p]) <==>
                exists part :: NestedIn(part, Object(paths[p])) && Requires(part, scheme)
    {
      SchemesAreThoseWithin(Object(paths[p]));
      forall part
        ensures scheme in OwnSchemes(part) <==> Requires(part, scheme)
      {
      }
    }
    assert scheme !in OwnSchemes(PathsJson(paths));
  }

  lemma ChainsAreTrails(doc: Document, paths: Paths, chain: seq<Ref>)
    ensures Chain(SourceComponents(doc), Refs(PathsJson(paths)), chain) <==> Trail(doc.components, paths, chain)
  {
    if chain != [] {
      PathsMention(paths, chain[0]);
      forall i | 0 <= i < |chain| - 1
        ensures Resolves(SourceComponents(doc), chain[i]) <==> Has(doc.components, chain[i])
        ensures Has(doc.components, chain[i]) ==>
                  (chain[i + 1] in Refs(Lookup(SourceComponents(doc), chain[i])) <==>
                   Mentions(doc.components.value[chain[i].category][chain[i].name], chain[i + 1]))
      {
        if Has(doc.components, chain[i]) {
          RefsAreMentioned(doc.components.value[chain[i].category][chain[i].name], chain[i + 1]);
        }
      }
    }
  }

  lemma ReachedIsNeeded(doc: Document, paths: Paths, r: Ref)
    ensures Reaches(SourceComponents(doc), Refs(PathsJson(paths)), r) <==> Needed(doc.components, paths, r)
  {
    forall chain
      ensures Chain(SourceComponents(doc), Refs(PathsJson(paths)), chain) <==> Trail(doc.components, paths, chain)
    {
      ChainsAreTrails(doc, paths, chain);
    }
  }

  /** When a document can be projected: every component that the selected paths need is defined, and so is
      every security scheme that they require. */
  lemma ProjectableIff(doc: Document, selected: Selector)
    ensures var paths := SelectedPaths(SourcePaths(doc), selected);
            Projectable(doc, selected) <==>
              && (forall r :: Needed(doc.components, paths, r) ==> Has(doc.components, r))
              && (forall n :: RequiredByPaths(paths, n) ==> Has(doc.components, Ref("securitySchemes", n)))
  {
    var paths := SelectedPaths(SourcePaths(doc), selected);
    forall r {
      ReachedIsNeeded(doc, paths, r);
    }
    forall n {
      PathsRequire(paths, n);
    }
    forall r
      ensures Resolves(SourceComponents(doc), r) <==> Has(doc.components, r)
    {
    }
  }

  /** The components of a projection are those its paths need and the security schemes they require, each
      as in the source. No category is empty, and without components the key is left out. */
  lemma ComponentsExactly(doc: Document, selected: Selector, title: string, r: Ref)
    requires Projectable(doc, selected)
    ensures var out := Projection(doc, selected, title);
            && out.paths.Some?
            && (Has(out.components, r) <==>
                || Needed(doc.components, out.paths.value, r)
                || (r.category == "securitySchemes" && RequiredByPaths(out.paths.value, r.name)))
            && (Has(out.components, r) ==>
                Has(doc.components, r)
                && out.components.value[r.category][r.name] == doc.components.value[r.category][r.name])
            && (out.components.Some? ==>
                out.components.value != map[]
                && forall c :: c in out.components.value ==> out.components.value[c] != map[])
  {
    var out := Projection(doc, selected, title);
    ProjectionKeepsExactlyWhatItNeeds(doc, selected, title, r);
    ReachedIsNeeded(doc, out.paths.value, r);
    PathsRequire(out.paths.value, r.name);
    forall c | out.components.Some? && c in out.components.value
      ensures out.components.value[c] != map[]
    {
      var n :| n in SourceComponents(doc)[c] && Ref(c, n) in Kept(doc, out.paths.value);
      assert n in out.components.value[c];
    }
  }

  // ---------------------------------------------------------------- tags

  /** The value is an object whose `tags` list holds this name as a text. */
  predicate Tagged(operation: Json, name: string) {
    && operation.Object? && "tags" in operation.fields && operation.fields["tags"].Array?
    && String(name) in operation.fields["tags"].items
  }

  /** Some value of some path item carries the name of this tag. */
  ghost predicate Carried(paths: Paths, tag: Tag) {
    tag.name.Some? && exists p, k :: p in paths && k in paths[p] && Tagged(paths[p][k], tag.name.value)
  }

  /** `part` is the entries of `whole` at these positions, in the order of `whole`. */
  predicate InOrder(part: seq<Tag>, whole: seq<Tag>, at: seq<nat>) {
    && |at| == |part|
    && (forall j :: 0 <= j < |at| ==> at[j] < |whole| && part[j] == whole[at[j]])
    && (forall i, j :: 0 <= i < j < |at| ==> at[i] < at[j])
  }

  lemma NamesAreCarried(paths: Paths, tag: Tag)
    ensures tag.name.Some? && tag.name.value in TagNames(paths) <==> Carried(paths, tag)
  {
    if tag.name.Some? {
      var name := tag.name.value;
      forall p, k | p in paths && k in paths[p] && Tagged(paths[p][k], name)
        ensures name in ItemTags(paths[p])
      {
        var items := paths[p][k].fields["tags"].items;
        var i :| 0 <= i < |items| && items[i] == String(name);
        assert paths[p][k].fields["tags"].items[i].s == name;
      }
      forall p | p in paths && name in ItemTags(paths[p])
        ensures exists k :: k in paths[p] && Tagged(paths[p][k], name)
      {
        var k, i :| k in paths[p] && paths[p][k].Object? && "tags" in paths[p][k].fields
          && paths[p][k].fields["tags"].Array? && 0 <= i < |paths[p][k].fields["tags"].items|
          && paths[p][k].fields["tags"].items[i].String? && paths[p][k].fields["tags"].items[i].s == name;
        assert paths[p][k].fields["tags"].items[i] == String(name);
        assert Tagged(paths[p][k], name);
      }
    }
  }

  /** The positions, from one on, of the tags whose name is among these. */
  function Positions(tags: seq<Tag>, names: set<string>, from: nat): seq<nat>
    requires from <= |tags|
    decreases |tags| - from
  {
    if from == |tags| then []
    else if tags[from].name.Some? && tags[from].name.value in names then [from] + Positions(tags, names, from + 1)
    else Positions(tags, names, from + 1)
  }

  lemma {:induction false} PositionsAreThose(tags: seq<Tag>, names: set<string>, from: nat, i: nat)
    requires from <= |tags|
    ensures i in Positions(tags, names, from) <==>
              from <= i < |tags| && tags[i].name.Some? && tags[i].name.value in names
    decreases |tags| - from
  {
    if from < |tags| {
      PositionsAreThose(tags, names, from + 1, i);
    }
  }

  lemma OneBefore(part: seq<Tag>, tags: seq<Tag>, at: seq<nat>, first: nat)
    requires InOrder(part, tags, at) && first < |tags| && forall j :: 0 <= j < |at| ==> first < at[j]
    ensures InOrder([tags[first]] + part, tags, [first] + at)
  {
  }

  lemma {:induction false} KeptInOrder(tags: seq<Tag>, names: set<string>, from: nat)
    requires from <= |tags|
    ensures InOrder(KeepTags(tags[from..], names), tags, Positions(tags, names, from))
    ensures forall j :: 0 <= j < |Positions(tags, names, from)| ==> from <= Positions(tags, names, from)[j]
    decreases |tags| - from
  {
    if from < |tags| {
      KeptInOrder(tags, names, from + 1);
      KeptOneMore(tags, names, from);
      if tags[from].name.Some? && tags[from].name.value in names {
        OneBefore(KeepTags(tags[from + 1..], names), tags, Positions(tags, names, from + 1), from);
      }
    }
  }

  lemma KeptOneMore(tags: seq<Tag>, names: set<string>, from: nat)
    requires from < |tags|
    ensures KeepTags(tags[from..], names)
            == if tags[from].name.Some? && tags[from].name.value in names
               then [tags[from]] + KeepTags(tags[from + 1..], names) else KeepTags(tags[from + 1..], names)
  {
    assert tags[from..][1..] == tags[from + 1..];
  }

  /** The listed tags are the source's, in the source's order; exactly those are left out whose name no
      projected path item carries. */
  lemma TagsInOrder(doc: Document, selected: Selector, title: string) returns (at: seq<nat>)
    requires Projectable(doc, selected)
    ensures var out := Projection(doc, selected, title);
            var source := if doc.tags.Some? then doc.tags.value else [];
            && out.tags.Some? && out.paths.Some? && InOrder(out.tags.value, source, at)
            && forall i: nat :: i < |source| ==> (i in at <==> Carried(out.paths.value, source[i]))
  {
    var out := Projection(doc, selected, title);
    var source := SourceTags(doc);
    at := Positions(source, TagNames(out.paths.value), 0);
    KeptInOrder(source, TagNames(out.paths.value), 0);
    assert source[0..] == source;
    forall i: nat | i < |source|
      ensures i in at <==> Carried(out.paths.value, source[i])
    {
      PositionsAreThose(source, TagNames(out.paths.value), 0, i);
      NamesAreCarried(out.paths.value, source[i]);
    }
  }

  /** A tag is listed exactly when the source lists it and some projected path item carries its name. */
  lemma TagsExactly(doc: Document, selected: Selector, title: string, tag: Tag)
    requires Projectable(doc, selected)
    ensures var out := Projection(doc, selected, title);
            && out.tags.Some? && out.paths.Some?
            && (tag in out.tags.value <==>
                doc.tags.Some? && tag in doc.tags.value && Carried(out.paths.value, tag))
  {
    var at := TagsInOrder(doc, selected, title);
    var out := Projection(doc, selected, title).tags.value;
    var source := if doc.tags.Some? then doc.tags.value else [];
    if tag in out {
      var j :| 0 <= j < |out| && out[j] == tag;
      assert at[j] in at && source[at[j]] == tag;
    }
    if doc.tags.Some? && tag in source && Carried(Projection(doc, selected, title).paths.value, tag) {
      var i: nat :| i < |source| && source[i] == tag;
      assert i in at;
      var j :| 0 <= j < |at| && at[j] == i;
      assert out[j] == tag;
    }
  }

  // ---------------------------------------------------------------- everything else

  /** The title is replaced, the rest of `info` and every other key stay, and the top-level `security` goes. */
  lemma RestExactly(doc: Document, selected: Selector, title: string, key: string)
    requires Projectable(doc, selected)
    ensures var out := Projection(doc, selected, title);
            && out.extras == doc.extras && out.security.None? && out.info.Some?
            && "title" in out.info.value && out.info.value["title"] == String(title)
            && (key != "title" ==>
                && (key in out.info.value <==> doc.info.Some? && key in doc.info.value)
                && (key in out.info.value ==> out.info.value[key] == doc.info.value[key]))
  {
  }
}
