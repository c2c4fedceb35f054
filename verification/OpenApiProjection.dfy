/** `_project_schema` of `inc/api/openapi.py`: keep the selected operations, then exactly the
    components they reach, the security schemes they name and the tags they carry. */
module OpenApiProjection {
  import opened Wrappers
  import opened OpenApiJson

  type PathItem = map<string, Json>
  type Paths = map<string, PathItem>
  type Components = map<string, map<string, Json>>
  type Selector = (string, Json) -> bool

  /** An entry of the document's tag list; an entry whose `name` is not a text matches nothing. */
  datatype Tag = Tag(name: Option<string>, body: Json)

  /** A schema document, one field for each top-level key the projection treats specially; `extras`
      are the keys it copies. `None` means that the key is absent. */
  datatype Document = Document(
    paths: Option<Paths>,
    components: Option<Components>,
    tags: Option<seq<Tag>>,
    security: Option<Json>,
    info: Option<map<string, Json>>,
    extras: map<string, Json>)

  datatype ProjectionError = MissingComponent(ref: Ref) | MissingScheme(name: string)

  const HTTP_METHODS := {"get", "post", "put", "patch", "delete", "options", "head"}
  const SECURITY_SCHEMES := "securitySchemes"

  function SourcePaths(doc: Document): Paths {
    if doc.paths.Some? then doc.paths.value else map[]
  }

  function SourceComponents(doc: Document): Components {
    if doc.components.Some? then doc.components.value else map[]
  }

  function SourceTags(doc: Document): seq<Tag> {
    if doc.tags.Some? then doc.tags.value else []
  }

  // ---------------------------------------------------------------- paths

  /** The keys of a path item that stay: everything but the operations that were not selected. */
  function SelectedItem(path: string, item: PathItem, selected: Selector): PathItem {
    map k | k in item && (k in HTTP_METHODS ==> selected(path, item[k])) :: item[k]
  }

  predicate HasOperation(item: PathItem) {
    exists k :: k in HTTP_METHODS && k in item
  }

  function SelectedPaths(paths: Paths, selected: Selector): Paths {
    map p | p in paths && HasOperation(SelectedItem(p, paths[p], selected))
      :: SelectedItem(p, paths[p], selected)
  }

  /** The `paths` value as the collectors see it. */
  function PathsJson(paths: Paths): Json {
    Object(map p | p in paths :: Object(paths[p]))
  }

  // ---------------------------------------------------------------- reachability

  predicate Resolves(components: Components, r: Ref) {
    r.category in components && r.name in components[r.category]
  }

  function Lookup(components: Components, r: Ref): Json
    requires Resolves(components, r)
  {
    components[r.category][r.name]
  }

  /** A chain of references: it starts at a root, and each component mentions the next. */
  ghost predicate Chain(components: Components, roots: set<Ref>, chain: seq<Ref>) {
    && chain != []
    && chain[0] in roots
    && forall i :: 0 <= i < |chain| - 1 ==>
         Resolves(components, chain[i]) && chain[i + 1] in Refs(Lookup(components, chain[i]))
  }

  ghost predicate Reaches(components: Components, roots: set<Ref>, r: Ref) {
    exists chain :: Chain(components, roots, chain) && chain[|chain| - 1] == r
  }

  /** Every reference that can be reached is defined. */
  ghost predicate ReferencesResolve(components: Components, roots: set<Ref>) {
    forall r :: Reaches(components, roots, r) ==> Resolves(components, r)
  }

  function Defined(components: Components): set<Ref> {
    set c, n | c in components && n in components[c] :: Ref(c, n)
  }

  /** The defined components that can be reached: the least set that holds the defined roots and is
      closed under references. */
  ghost function Reachable(components: Components, roots: set<Ref>): set<Ref> {
    set r | r in Defined(components) && Reaches(components, roots, r)
  }

  lemma RootReaches(components: Components, roots: set<Ref>, r: Ref)
    requires r in roots
    ensures Reaches(components, roots, r)
  {
    assert Chain(components, roots, [r]);
    assert [r][|[r]| - 1] == r;
  }

  lemma StepReaches(components: Components, roots: set<Ref>, r: Ref, next: Ref)
    requires Reaches(components, roots, r) && Resolves(components, r)
    requires next in Refs(Lookup(components, r))
    ensures Reaches(components, roots, next)
  {
    var chain :| Chain(components, roots, chain) && chain[|chain| - 1] == r;
    var longer := chain + [next];
    assert Chain(components, roots, longer);
    assert longer[|longer| - 1] == next;
  }

  /** A set that holds the roots and is closed under references holds everything reachable. */
  lemma {:induction false} ClosedSetHoldsReachable(components: Components, roots: set<Ref>, closed: set<Ref>, r: Ref)
    requires roots <= closed
    requires forall s :: s in closed ==> Resolves(components, s) && Refs(Lookup(components, s)) <= closed
    requires Reaches(components, roots, r)
    ensures r in closed
  {
    var chain :| Chain(components, roots, chain) && chain[|chain| - 1] == r;
    var i := 0;
    while i < |chain| - 1
      invariant 0 <= i < |chain|
      invariant chain[i] in closed
    {
      i := i + 1;
    }
  }

  // ---------------------------------------------------------------- the projected document

  /** The Components Object holding exactly the entries `kept` of the source. */
  function Assemble(components: Components, kept: set<Ref>): Components
    requires forall r :: r in kept ==> Resolves(components, r)
  {
    map c | c in components && (exists n :: n in components[c] && Ref(c, n) in kept)
      :: map n | n in components[c] && Ref(c, n) in kept :: components[c][n]
  }

  /** An entry of the assembled object is an entry of the source that was kept, unchanged. */
  lemma AssembleHolds(components: Components, kept: set<Ref>, r: Ref)
    requires forall s :: s in kept ==> Resolves(components, s)
    ensures Resolves(Assemble(components, kept), r) <==> r in kept
    ensures r in kept ==> Lookup(Assemble(components, kept), r) == Lookup(components, r)
  {
    assert r == Ref(r.category, r.name);
  }

  function SchemeRefs(names: set<string>): set<Ref> {
    set n | n in names :: Ref(SECURITY_SCHEMES, n)
  }

  /** The tag names of a path item's own values. */
  function ItemTags(item: PathItem): set<string> {
    set k, i | k in item && item[k].Object? && "tags" in item[k].fields
               && item[k].fields["tags"].Array?
               && 0 <= i < |item[k].fields["tags"].items|
               && item[k].fields["tags"].items[i].String? :: item[k].fields["tags"].items[i].s
  }

  function TagNames(paths: Paths): set<string> {
    set p, t | p in paths && t in ItemTags(paths[p]) :: t
  }

  function KeepTags(tags: seq<Tag>, names: set<string>): seq<Tag> {
    if tags == [] then []
    else if tags[0].name.Some? && tags[0].name.value in names then [tags[0]] + KeepTags(tags[1..], names)
    else KeepTags(tags[1..], names)
  }

  /** The components a projection of `doc` to `paths` must keep. */
  ghost function Kept(doc: Document, paths: Paths): set<Ref> {
    Reachable(SourceComponents(doc), Refs(PathsJson(paths))) + SchemeRefs(Schemes(PathsJson(paths)))
  }

  /** Everything these paths need is defined. */
  ghost predicate Complete(doc: Document, paths: Paths) {
    && ReferencesResolve(SourceComponents(doc), Refs(PathsJson(paths)))
    && forall n :: n in Schemes(PathsJson(paths)) ==> Resolves(SourceComponents(doc), Ref(SECURITY_SCHEMES, n))
  }

  /** The document cut down to `paths`. */
  ghost function CutDown(doc: Document, paths: Paths, title: string): Document
    requires Complete(doc, paths)
  {
    var components := Assemble(SourceComponents(doc), Kept(doc, paths));
    Document(
      Some(paths),
      if components == map[] then None else Some(components),
      Some(KeepTags(SourceTags(doc), TagNames(paths))),
      None,
      Some((if doc.info.Some? then doc.info.value else map[])["title" := String(title)]),
      doc.extras)
  }

  ghost predicate Projectable(doc: Document, selected: Selector) {
    Complete(doc, SelectedPaths(SourcePaths(doc), selected))
  }

  ghost function Projection(doc: Document, selected: Selector, title: string): Document
    requires Projectable(doc, selected)
  {
    CutDown(doc, SelectedPaths(SourcePaths(doc), selected), title)
  }
}
