/** Laws of the projection: what it keeps, and how two projections compose. */
module OpenApiLaws {
  import opened Wrappers
  import opened OpenApiJson
  import opened OpenApiProjection

  function Both(first: Selector, second: Selector): Selector {
    (path, operation) => first(path, operation) && second(path, operation)
  }

  ghost predicate SubItem(part: PathItem, whole: PathItem) {
    forall k :: k in part ==> k in whole && part[k] == whole[k]
  }

  ghost predicate SubPaths(part: Paths, whole: Paths) {
    forall p :: p in part ==> p in whole && SubItem(part[p], whole[p])
  }

  // ---------------------------------------------------------------- fewer paths mention less

  lemma SubObjectMentionsLess(part: map<string, Json>, whole: map<string, Json>)
    requires SubItem(part, whole)
    ensures Refs(Object(part)) <= Refs(Object(whole))
    ensures Schemes(Object(part)) <= Schemes(Object(whole))
  {
    forall r | r in Refs(Object(part))
      ensures r in Refs(Object(whole))
    {
      if r !in OwnRefs(Object(part)) {
        var k :| k in part && r in Refs(part[k]);
        assert k in whole && r in Refs(whole[k]);
      }
    }
    forall n | n in Schemes(Object(part))
      ensures n in Schemes(Object(whole))
    {
      if n !in OwnSchemes(Object(part)) {
        var k :| k in part && n in Schemes(part[k]);
        assert k in whole && n in Schemes(whole[k]);
      }
    }
  }

  lemma SubPathsMentionLess(part: Paths, whole: Paths)
    requires SubPaths(part, whole)
    ensures Refs(PathsJson(part)) <= Refs(PathsJson(whole))
    ensures Schemes(PathsJson(part)) <= Schemes(PathsJson(whole))
    ensures TagNames(part) <= TagNames(whole)
  {
    forall r | r in Refs(PathsJson(part))
      ensures r in Refs(PathsJson(whole))
    {
      var p :| p in part && r in Refs(Object(part[p]));
      SubObjectMentionsLess(part[p], whole[p]);
      assert r in Refs(PathsJson(whole).fields[p]);
    }
    forall n | n in Schemes(PathsJson(part))
      ensures n in Schemes(PathsJson(whole))
    {
      var p :| p in part && n in Schemes(Object(part[p]));
      SubObjectMentionsLess(part[p], whole[p]);
      assert n in Schemes(PathsJson(whole).fields[p]);
    }
    forall t | t in TagNames(part)
      ensures t in TagNames(whole)
    {
      var p :| p in part && t in ItemTags(part[p]);
      assert t in ItemTags(whole[p]);
    }
  }

  // ---------------------------------------------------------------- selecting twice

  lemma SelectingItemTwice(path: string, item: PathItem, first: Selector, second: Selector)
    ensures SelectedItem(path, SelectedItem(path, item, first), second) == SelectedItem(path, item, Both(first, second))
  {
  }

  lemma OperationWasThere(path: string, item: PathItem, selected: Selector)
    ensures HasOperation(SelectedItem(path, item, selected)) ==> HasOperation(item)
  {
  }

  lemma SelectedAt(paths: Paths, selected: Selector, path: string)
    ensures path in SelectedPaths(paths, selected) <==>
              path in paths && HasOperation(SelectedItem(path, paths[path], selected))
    ensures path in SelectedPaths(paths, selected) ==>
              SelectedPaths(paths, selected)[path] == SelectedItem(path, paths[path], selected)
  {
  }

  lemma SelectingPathTwice(paths: Paths, first: Selector, second: Selector, path: string)
    ensures var twice := SelectedPaths(SelectedPaths(paths, first), second);
            var once := SelectedPaths(paths, Both(first, second));
            (path in twice <==> path in once) && (path in twice ==> twice[path] == once[path])
  {
    SelectedAt(paths, first, path);
    SelectedAt(SelectedPaths(paths, first), second, path);
    SelectedAt(paths, Both(first, second), path);
    if path in paths {
      SelectingItemTwice(path, paths[path], first, second);
      OperationWasThere(path, SelectedItem(path, paths[path], first), second);
    }
  }

  lemma SelectingTwice(paths: Paths, first: Selector, second: Selector)
    ensures SelectedPaths(SelectedPaths(paths, first), second) == SelectedPaths(paths, Both(first, second))
  {
    forall path {
      SelectingPathTwice(paths, first, second, path);
    }
  }

  lemma SelectingTakesSome(paths: Paths, selected: Selector)
    ensures SubPaths(SelectedPaths(paths, selected), paths)
  {
  }

  lemma {:induction false} KeepingTwice(tags: seq<Tag>, names: set<string>, fewer: set<string>)
    requires fewer <= names
    ensures KeepTags(KeepTags(tags, names), fewer) == KeepTags(tags, fewer)
  {
    if tags != [] {
      KeepingTwice(tags[1..], names, fewer);
    }
  }

  // ---------------------------------------------------------------- reaching inside a part

  /** `part` holds some entries of `whole`, unchanged, and everything reachable from `roots`. */
  ghost predicate HoldsReachable(part: Components, whole: Components, roots: set<Ref>) {
    && (forall r :: Resolves(part, r) ==> Resolves(whole, r) && Lookup(part, r) == Lookup(whole, r))
    && (forall r :: Reaches(whole, roots, r) ==> Resolves(part, r))
  }

  /** A chain is one in any object that has the same entries along it. */
  lemma ChainCarries(source: Components, target: Components, roots: set<Ref>, more: set<Ref>, chain: seq<Ref>)
    requires Chain(source, roots, chain) && roots <= more
    requires forall i :: 0 <= i < |chain| - 1 ==>
               Resolves(source, chain[i]) && Resolves(target, chain[i])
               && Lookup(source, chain[i]) == Lookup(target, chain[i])
    ensures Chain(target, more, chain)
    ensures Reaches(target, more, chain[|chain| - 1])
  {
  }

  lemma ChainIsHeld(part: Components, whole: Components, roots: set<Ref>, chain: seq<Ref>, i: nat)
    requires HoldsReachable(part, whole, roots) && Chain(whole, roots, chain) && i < |chain|
    ensures Resolves(part, chain[i]) && Resolves(whole, chain[i]) && Lookup(part, chain[i]) == Lookup(whole, chain[i])
  {
    var upTo := chain[..i + 1];
    assert Chain(whole, roots, upTo) && upTo[|upTo| - 1] == chain[i];
    assert Reaches(whole, roots, chain[i]);
  }

  lemma {:induction false} SameReach(part: Components, whole: Components, roots: set<Ref>, fewer: set<Ref>, r: Ref)
    requires HoldsReachable(part, whole, roots) && fewer <= roots
    ensures Reaches(part, fewer, r) <==> Reaches(whole, fewer, r)
    ensures Reaches(whole, fewer, r) ==> Reaches(whole, roots, r)
  {
    if Reaches(part, fewer, r) {
      var chain :| Chain(part, fewer, chain) && chain[|chain| - 1] == r;
      ChainCarries(part, whole, fewer, fewer, chain);
    }
    if Reaches(whole, fewer, r) {
      var chain :| Chain(whole, fewer, chain) && chain[|chain| - 1] == r;
      ChainCarries(whole, whole, fewer, roots, chain);
      forall i | 0 <= i < |chain|
        ensures Resolves(part, chain[i]) && Resolves(whole, chain[i])
                && Lookup(part, chain[i]) == Lookup(whole, chain[i])
      {
        ChainIsHeld(part, whole, roots, chain, i);
      }
      ChainCarries(whole, part, fewer, fewer, chain);
    }
  }

  /** What is reachable from fewer roots is the same set whether it is looked for in the whole
      document or in a part that kept everything reachable. */
  lemma SameReachable(part: Components, whole: Components, roots: set<Ref>, fewer: set<Ref>)
    requires HoldsReachable(part, whole, roots) && fewer <= roots
    ensures Reachable(part, fewer) == Reachable(whole, fewer)
    ensures ReferencesResolve(part, fewer) && ReferencesResolve(whole, fewer)
  {
    forall r
      ensures Reaches(part, fewer, r) <==> Reaches(whole, fewer, r)
      ensures Reaches(whole, fewer, r) ==> Reaches(whole, roots, r)
      ensures Resolves(part, r) ==> r in Defined(part)
      ensures Resolves(whole, r) ==> r in Defined(whole)
    {
      SameReach(part, whole, roots, fewer, r);
      assert r == Ref(r.category, r.name);
    }
  }

  lemma AssembleFromPart(part: Components, whole: Components, kept: set<Ref>)
    requires forall r :: Resolves(part, r) ==> Resolves(whole, r) && Lookup(part, r) == Lookup(whole, r)
    requires forall r :: r in kept ==> Resolves(part, r)
    ensures Assemble(part, kept) == Assemble(whole, kept)
  {
    var a, b := Assemble(part, kept), Assemble(whole, kept);
    forall c
      ensures c in a <==> c in b
      ensures c in a && c in b ==> a[c] == b[c]
    {
      forall n | Ref(c, n) in kept
        ensures c in part && n in part[c] && c in whole && n in whole[c] && part[c][n] == whole[c][n]
      {
        assert Resolves(part, Ref(c, n));
        assert Lookup(part, Ref(c, n)) == Lookup(whole, Ref(c, n));
      }
    }
  }

  // ---------------------------------------------------------------- what one projection keeps

  /** The components of a projection are exactly those its own paths reach in the source and the
      security schemes its own paths name, each unchanged. */
  lemma ProjectionKeepsExactlyWhatItNeeds(doc: Document, selected: Selector, title: string, r: Ref)
    requires Projectable(doc, selected)
    ensures var out := Projection(doc, selected, title);
            var paths := PathsJson(SourcePaths(out));
            && (Resolves(SourceComponents(out), r) <==>
                || Reaches(SourceComponents(doc), Refs(paths), r)
                || (r.category == SECURITY_SCHEMES && r.name in Schemes(paths)))
            && (Resolves(SourceComponents(out), r) ==>
                Resolves(SourceComponents(doc), r)
                && Lookup(SourceComponents(out), r) == Lookup(SourceComponents(doc), r))
  {
    var paths := SelectedPaths(SourcePaths(doc), selected);
    AssembleHolds(SourceComponents(doc), Kept(doc, paths), r);
    assert r == Ref(r.category, r.name);
  }

  /** A projection stands alone: every reference made by its paths, and by any component those paths
      reach, is defined in it. */
  lemma ProjectionIsClosed(doc: Document, selected: Selector, title: string)
    requires Projectable(doc, selected)
    ensures var out := Projection(doc, selected, title);
            && ReferencesResolve(SourceComponents(out), Refs(PathsJson(SourcePaths(out))))
            && HoldsReachable(SourceComponents(out), SourceComponents(doc), Refs(PathsJson(SourcePaths(out))))
  {
    var out := Projection(doc, selected, title);
    forall r {
      ProjectionKeepsExactlyWhatItNeeds(doc, selected, title, r);
    }
    var roots := Refs(PathsJson(SourcePaths(out)));
    SameReachable(SourceComponents(out), SourceComponents(doc), roots, roots);
  }

  /** An operation is in the projection exactly when the source has it and it was selected, and then
      it is the source's own. */
  lemma SelectedOperationsExactly(doc: Document, selected: Selector, title: string, path: string, method': string)
    requires Projectable(doc, selected) && method' in HTTP_METHODS
    ensures var source, out := SourcePaths(doc), SourcePaths(Projection(doc, selected, title));
            && (path in out && method' in out[path] <==>
                path in source && method' in source[path] && selected(path, source[path][method']))
            && (path in out && method' in out[path] ==> out[path][method'] == source[path][method'])
  {
    var source := SourcePaths(doc);
    if path in source && method' in source[path] && selected(path, source[path][method']) {
      assert method' in SelectedItem(path, source[path], selected);
    }
  }

  // ---------------------------------------------------------------- two projections

  /** Fewer paths need the same components of a projection as they need of its source. */
  lemma NarrowingKeepsTheSame(doc: Document, first: Selector, title: string, narrow: Paths)
    requires Projectable(doc, first)
    requires SubPaths(narrow, SourcePaths(Projection(doc, first, title)))
    ensures var out, roots := Projection(doc, first, title), Refs(PathsJson(narrow));
            && ReferencesResolve(SourceComponents(doc), roots) && ReferencesResolve(SourceComponents(out), roots)
            && Kept(out, narrow) == Kept(doc, narrow)
  {
    var out := Projection(doc, first, title);
    var wide := SourcePaths(out);
    SubPathsMentionLess(narrow, wide);
    ProjectionIsClosed(doc, first, title);
    SameReachable(SourceComponents(out), SourceComponents(doc), Refs(PathsJson(wide)), Refs(PathsJson(narrow)));
  }

  lemma KeptIsThere(doc: Document, first: Selector, title: string, narrow: Paths, r: Ref)
    requires Projectable(doc, first)
    requires SubPaths(narrow, SourcePaths(Projection(doc, first, title)))
    ensures r in Kept(doc, narrow) ==>
              Resolves(SourceComponents(doc), r) && Resolves(SourceComponents(Projection(doc, first, title)), r)
  {
    var wide := SourcePaths(Projection(doc, first, title));
    SubPathsMentionLess(narrow, wide);
    ProjectionIsClosed(doc, first, title);
    ProjectionKeepsExactlyWhatItNeeds(doc, first, title, r);
    SameReach(SourceComponents(Projection(doc, first, title)), SourceComponents(doc), Refs(PathsJson(wide)),
              Refs(PathsJson(narrow)), r);
  }

  lemma StillComplete(doc: Document, first: Selector, title: string, narrow: Paths)
    requires Projectable(doc, first)
    requires SubPaths(narrow, SourcePaths(Projection(doc, first, title)))
    ensures Complete(doc, narrow) && Complete(Projection(doc, first, title), narrow)
  {
    NarrowingKeepsTheSame(doc, first, title, narrow);
    forall n | n in Schemes(PathsJson(narrow))
      ensures Resolves(SourceComponents(doc), Ref(SECURITY_SCHEMES, n))
      ensures Resolves(SourceComponents(Projection(doc, first, title)), Ref(SECURITY_SCHEMES, n))
    {
      assert Ref(SECURITY_SCHEMES, n) in Kept(doc, narrow);
      KeptIsThere(doc, first, title, narrow, Ref(SECURITY_SCHEMES, n));
    }
  }

  lemma SameComponents(doc: Document, first: Selector, title: string, narrow: Paths)
    requires Projectable(doc, first)
    requires SubPaths(narrow, SourcePaths(Projection(doc, first, title)))
    ensures Complete(doc, narrow) && Complete(Projection(doc, first, title), narrow)
    ensures var out := Projection(doc, first, title);
            Assemble(SourceComponents(out), Kept(out, narrow)) == Assemble(SourceComponents(doc), Kept(doc, narrow))
  {
    var part, whole := SourceComponents(Projection(doc, first, title)), SourceComponents(doc);
    StillComplete(doc, first, title, narrow);
    NarrowingKeepsTheSame(doc, first, title, narrow);
    ProjectionIsClosed(doc, first, title);
    forall r | r in Kept(doc, narrow)
      ensures Resolves(part, r) && Resolves(whole, r)
    {
      KeptIsThere(doc, first, title, narrow, r);
    }
    AssembleFromPart(part, whole, Kept(doc, narrow));
  }

  lemma SameTags(doc: Document, first: Selector, title: string, narrow: Paths)
    requires Projectable(doc, first)
    requires SubPaths(narrow, SourcePaths(Projection(doc, first, title)))
    ensures KeepTags(SourceTags(Projection(doc, first, title)), TagNames(narrow))
            == KeepTags(SourceTags(doc), TagNames(narrow))
  {
    var wide := SourcePaths(Projection(doc, first, title));
    SubPathsMentionLess(narrow, wide);
    KeepingTwice(SourceTags(doc), TagNames(wide), TagNames(narrow));
  }

  /** Cutting a projection down to fewer paths is cutting its source down to them. */
  lemma CuttingDownAgain(doc: Document, first: Selector, title: string, narrow: Paths, title': string)
    requires Projectable(doc, first)
    requires SubPaths(narrow, SourcePaths(Projection(doc, first, title)))
    ensures Complete(doc, narrow) && Complete(Projection(doc, first, title), narrow)
    ensures CutDown(Projection(doc, first, title), narrow, title') == CutDown(doc, narrow, title')
  {
    SameComponents(doc, first, title, narrow);
    SameTags(doc, first, title, narrow);
    SameCut(Projection(doc, first, title), doc, narrow, title, title');
  }

  lemma SameCut(out: Document, doc: Document, paths: Paths, title: string, title': string)
    requires Complete(out, paths) && Complete(doc, paths)
    requires Assemble(SourceComponents(out), Kept(out, paths)) == Assemble(SourceComponents(doc), Kept(doc, paths))
    requires KeepTags(SourceTags(out), TagNames(paths)) == KeepTags(SourceTags(doc), TagNames(paths))
    requires out.extras == doc.extras
    requires out.info == Some((if doc.info.Some? then doc.info.value else map[])["title" := String(title)])
    ensures CutDown(out, paths, title') == CutDown(doc, paths, title')
  {
    var info := if doc.info.Some? then doc.info.value else map[];
    assert info["title" := String(title)]["title" := String(title')] == info["title" := String(title')];
  }

  /** Projecting a projection is projecting the source by both selectors at once. */
  lemma ProjectionsCompose(doc: Document, first: Selector, second: Selector, title: string, title': string)
    requires Projectable(doc, first)
    ensures Projectable(doc, Both(first, second))
    ensures Projectable(Projection(doc, first, title), second)
    ensures Projection(Projection(doc, first, title), second, title')
            == Projection(doc, Both(first, second), title')
  {
    var wide := SourcePaths(Projection(doc, first, title));
    var narrow := SelectedPaths(wide, second);
    SelectingTwice(SourcePaths(doc), first, second);
    SelectingTakesSome(wide, second);
    CuttingDownAgain(doc, first, title, narrow, title');
  }

  lemma SameSelection(paths: Paths, selected: Selector, selected': Selector)
    requires forall path, operation :: selected(path, operation) == selected'(path, operation)
    ensures SelectedPaths(paths, selected) == SelectedPaths(paths, selected')
  {
    forall p | p in paths
      ensures SelectedItem(p, paths[p], selected) == SelectedItem(p, paths[p], selected')
    {
    }
  }

  /** When the second selector is the narrower one, the detour through the first changes nothing. */
  lemma NarrowerProjectionNeedsNoDetour(doc: Document, wide: Selector, narrow: Selector, title: string, title': string)
    requires Projectable(doc, wide)
    requires forall path, operation :: narrow(path, operation) ==> wide(path, operation)
    ensures Projectable(doc, narrow) && Projectable(Projection(doc, wide, title), narrow)
    ensures Projection(Projection(doc, wide, title), narrow, title') == Projection(doc, narrow, title')
  {
    ProjectionsCompose(doc, wide, narrow, title, title');
    SameSelection(SourcePaths(doc), Both(wide, narrow), narrow);
  }

  lemma ProjectionIsIdempotent(doc: Document, selected: Selector, title: string)
    requires Projectable(doc, selected)
    ensures Projectable(Projection(doc, selected, title), selected)
    ensures Projection(Projection(doc, selected, title), selected, title) == Projection(doc, selected, title)
  {
    NarrowerProjectionNeedsNoDetour(doc, selected, selected, title, title);
  }

  /** The order of two cuts does not matter. */
  lemma CutsCommute(doc: Document, first: Selector, second: Selector, title: string, title': string)
    requires Projectable(doc, first) && Projectable(doc, second)
    ensures Projectable(Projection(doc, first, title), second)
    ensures Projectable(Projection(doc, second, title), first)
    ensures Projection(Projection(doc, first, title), second, title')
            == Projection(Projection(doc, second, title), first, title')
  {
    ProjectionsCompose(doc, first, second, title, title');
    ProjectionsCompose(doc, second, first, title, title');
    SameSelection(SourcePaths(doc), Both(first, second), Both(second, first));
  }
}
