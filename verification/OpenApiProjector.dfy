/** The loops of `_project_schema`, proved against the projection they compute. */
module OpenApiProjector {
  import opened Wrappers
  import opened OpenApiJson
  import opened OpenApiProjection
  import opened SortedKeys

  method SelectItem(path: string, item: PathItem, selected: Selector) returns (kept: PathItem)
    ensures kept == SelectedItem(path, item, selected)
  {
    kept := map[];
    var todo := item.Keys;
    while todo != {}
      invariant todo <= item.Keys
      invariant kept == map k | k in SelectedItem(path, item, selected) && k !in todo :: item[k]
      decreases todo
    {
      var key :| key in todo;
      todo := todo - {key};
      if key !in HTTP_METHODS {
        kept := kept[key := item[key]];
        continue;
      }
      if selected(path, item[key]) {
        kept := kept[key := item[key]];
      }
    }
  }

  method SelectPaths(paths: Paths, selected: Selector) returns (kept: Paths)
    ensures kept == SelectedPaths(paths, selected)
  {
    kept := map[];
    var todo := paths.Keys;
    while todo != {}
      invariant todo <= paths.Keys
      invariant forall p :: p in kept <==>
                  p in paths && p !in todo && HasOperation(SelectedItem(p, paths[p], selected))
      invariant forall p :: p in kept ==> kept[p] == SelectedItem(p, paths[p], selected)
      decreases todo
    {
      var path :| path in todo;
      todo := todo - {path};
      var item := SelectItem(path, paths[path], selected);
      if exists k :: k in HTTP_METHODS && k in item {
        kept := kept[path := item];
      }
    }
  }

  /** The nested dict write `projected.setdefault(category, {})[name] = component`. */
  function WithEntry(components: Components, r: Ref, component: Json): Components {
    components[r.category :=
      (if r.category in components then components[r.category] else map[])[r.name := component]]
  }

  lemma AssembleOneMore(components: Components, kept: set<Ref>, r: Ref)
    requires forall s :: s in kept ==> Resolves(components, s)
    requires Resolves(components, r)
    ensures WithEntry(Assemble(components, kept), r, Lookup(components, r)) == Assemble(components, kept + {r})
  {
    var before := Assemble(components, kept);
    var after := Assemble(components, kept + {r});
    var written := WithEntry(before, r, Lookup(components, r));
    assert Ref(r.category, r.name) in kept + {r};
    forall c
      ensures c in written <==> c in after
      ensures c in written && c in after ==> written[c] == after[c]
    {
      if c in before {
        var n :| n in components[c] && Ref(c, n) in kept;
        assert Ref(c, n) in kept + {r};
      }
      forall n
        ensures Ref(c, n) in kept + {r} <==> Ref(c, n) in kept || (c == r.category && n == r.name)
      {
      }
    }
  }

  /** What the worklist keeps: the visited references are defined, everything met so far is
      reachable, the roots have been met, and so has every reference a visited component makes. */
  ghost predicate Exploring(components: Components, roots: set<Ref>, visited: set<Ref>, pending: set<Ref>) {
    Explored(components, roots, visited, pending + visited)
  }

  ghost predicate Explored(components: Components, roots: set<Ref>, visited: set<Ref>, met: set<Ref>) {
    && (forall s :: s in visited ==> Resolves(components, s))
    && (forall s :: s in met ==> Reaches(components, roots, s))
    && roots <= met
    && (forall s :: s in visited ==> Refs(Lookup(components, s)) <= met)
  }

  lemma ExploredOneMore(components: Components, roots: set<Ref>, visited: set<Ref>, met: set<Ref>, next: Ref)
    requires Explored(components, roots, visited, met)
    requires next in met && Resolves(components, next)
    ensures Explored(components, roots, visited + {next}, met + Refs(Lookup(components, next)))
  {
    forall s | s in Refs(Lookup(components, next))
      ensures Reaches(components, roots, s)
    {
      StepReaches(components, roots, next, s);
    }
  }

  lemma MetGrows(visited: set<Ref>, pending: set<Ref>, next: Ref, found: set<Ref>)
    requires next in pending
    ensures (pending - {next} + (found - (visited + {next}))) + (visited + {next}) == (pending + visited) + found
  {
  }

  lemma VisitOneMore(components: Components, roots: set<Ref>, visited: set<Ref>, pending: set<Ref>, next: Ref,
                     visited': set<Ref>, pending': set<Ref>)
    requires Exploring(components, roots, visited, pending)
    requires next in pending && Resolves(components, next)
    requires visited' == visited + {next}
    requires pending' == pending - {next} + (Refs(Lookup(components, next)) - visited')
    ensures Exploring(components, roots, visited', pending')
  {
    ExploredOneMore(components, roots, visited, pending + visited, next);
    MetGrows(visited, pending, next, Refs(Lookup(components, next)));
  }

  lemma ExploredAll(components: Components, roots: set<Ref>, visited: set<Ref>)
    requires Exploring(components, roots, visited, {})
    ensures ReferencesResolve(components, roots)
    ensures visited == Reachable(components, roots)
  {
    forall s | Reaches(components, roots, s)
      ensures s in visited
    {
      ClosedSetHoldsReachable(components, roots, visited, s);
    }
    forall s | s in visited
      ensures s in Defined(components)
    {
      assert s == Ref(s.category, s.name);
    }
  }

  /** The worklist. Whatever `pop` returns, it ends, and it ends with exactly the reachable
      components, or at a reference that is reachable and undefined. The test for an already visited
      reference never succeeds. */
  method CollectComponents(components: Components, roots: set<Ref>)
    returns (r: Result<Components, Ref>, ghost kept: set<Ref>)
    ensures r.Success? <==> ReferencesResolve(components, roots)
    ensures r.Success? ==> kept == Reachable(components, roots) && r.value == Assemble(components, kept)
    ensures r.Failure? ==> Reaches(components, roots, r.error) && !Resolves(components, r.error)
  {
    var projected: Components := map[];
    var pending := roots;
    var visited: set<Ref> := {};
    forall root | root in roots {
      RootReaches(components, roots, root);
    }
    assert projected == Assemble(components, visited);
    while pending != {}
      invariant pending !! visited
      invariant Exploring(components, roots, visited, pending)
      invariant projected == Assemble(components, visited)
      decreases Defined(components) - visited
    {
      var next :| next in pending;
      ghost var was, met := visited, pending;
      assert Reaches(components, roots, next);
      if next in visited {
        assert false;
        continue;
      }
      if !(next.category in components && next.name in components[next.category]) {
        return Failure(next), visited;
      }
      var component := components[next.category][next.name];
      AssembleOneMore(components, visited, next);
      assert next in Defined(components) by {
        assert next == Ref(next.category, next.name);
      }
      projected := WithEntry(projected, next, component);
      var mentioned := ComponentRefs(component);
      visited := visited + {next};
      pending := pending - {next} + (mentioned - visited);
      VisitOneMore(components, roots, was, met, next, visited, pending);
    }
    ExploredAll(components, roots, visited);
    return Success(projected), visited;
  }

  /** The loop over the security schemes that the projected paths name, in their sorted order. */
  method AddSecuritySchemes(components: Components, ghost kept: set<Ref>, projected: Components, names: set<string>)
    returns (r: Result<Components, string>)
    requires forall s :: s in kept ==> Resolves(components, s)
    requires projected == Assemble(components, kept)
    ensures r.Success? <==> forall n :: n in names ==> Resolves(components, Ref(SECURITY_SCHEMES, n))
    ensures r.Success? ==>
              (forall s :: s in SchemeRefs(names) ==> Resolves(components, s))
              && r.value == Assemble(components, kept + SchemeRefs(names))
    ensures r.Failure? ==> IsLeastUndefined(components, r.error, names)
  {
    var schemes := if SECURITY_SCHEMES in components then components[SECURITY_SCHEMES] else map[];
    var result := projected;
    var todo := names;
    ghost var added: set<Ref> := {};
    assert kept + added == kept;
    while todo != {}
      invariant todo <= names
      invariant added == SchemeRefs(names - todo)
      invariant forall s :: s in added ==> Resolves(components, s)
      invariant result == Assemble(components, kept + added)
      decreases todo
    {
      HasLeast(todo);
      var name :| name in todo && IsLeast(name, todo);
      if name !in schemes {
        LeastUndefined(components, name, names, todo, added);
        return Failure(name);
      }
      ghost var scheme := Ref(SECURITY_SCHEMES, name);
      AssembleOneMore(components, kept + added, scheme);
      result := WithEntry(result, Ref(SECURITY_SCHEMES, name), schemes[name]);
      todo := todo - {name};
      assert kept + (added + {scheme}) == kept + added + {scheme};
      added := added + {scheme};
      assert added == SchemeRefs(names - todo);
    }
    assert names - todo == names;
    forall n | n in names
      ensures Resolves(components, Ref(SECURITY_SCHEMES, n))
    {
      assert Ref(SECURITY_SCHEMES, n) in added;
    }
    return Success(result);
  }

  predicate IsLeastUndefined(components: Components, name: string, names: set<string>) {
    && name in names && !Resolves(components, Ref(SECURITY_SCHEMES, name))
    && forall other :: other in names && !Resolves(components, Ref(SECURITY_SCHEMES, other)) ==>
         other == name || Less(name, other)
  }

  lemma LeastUndefined(components: Components, name: string, names: set<string>, todo: set<string>, added: set<Ref>)
    requires todo <= names && IsLeast(name, todo) && !Resolves(components, Ref(SECURITY_SCHEMES, name))
    requires added == SchemeRefs(names - todo) && forall s :: s in added ==> Resolves(components, s)
    ensures IsLeastUndefined(components, name, names)
  {
    forall other | other in names && other !in todo
      ensures Resolves(components, Ref(SECURITY_SCHEMES, other))
    {
      assert other in names - todo && Ref(SECURITY_SCHEMES, other) in added;
    }
  }

  method CollectTagNames(paths: Paths) returns (names: set<string>)
    ensures names == TagNames(paths)
  {
    names := {};
    var todo := paths.Keys;
    while todo != {}
      invariant todo <= paths.Keys
      invariant forall t :: t in names <==> exists p :: p in paths && p !in todo && t in ItemTags(paths[p])
      decreases todo
    {
      var path :| path in todo;
      todo := todo - {path};
      var operations := paths[path].Keys;
      ghost var before := names;
      while operations != {}
        invariant operations <= paths[path].Keys
        invariant forall t :: t in names <==>
                    || t in before
                    || exists k :: k in paths[path] && k !in operations && t in ItemTags(map[k := paths[path][k]])
        decreases operations
      {
        var key :| key in operations;
        operations := operations - {key};
        var operation := paths[path][key];
        var tags := if operation.Object? && "tags" in operation.fields && operation.fields["tags"].Array?
                    then operation.fields["tags"].items else [];
        ghost var was := names;
        for i := 0 to |tags|
          invariant forall t :: t in names <==>
                      t in was || exists j :: 0 <= j < i && tags[j].String? && t == tags[j].s
        {
          if tags[i].String? {
            names := names + {tags[i].s};
          }
        }
        OneOperationTags(key, operation, tags);
      }
      ItemTagsByOperation(paths[path]);
    }
  }

  lemma OneOperationTags(key: string, operation: Json, tags: seq<Json>)
    requires tags == if operation.Object? && "tags" in operation.fields && operation.fields["tags"].Array?
                     then operation.fields["tags"].items else []
    ensures forall t :: t in ItemTags(map[key := operation]) <==>
              exists j :: 0 <= j < |tags| && tags[j].String? && t == tags[j].s
  {
    var item := map[key := operation];
    forall j | 0 <= j < |tags| && tags[j].String?
      ensures tags[j].s in ItemTags(item)
    {
      assert key in item && item[key].fields["tags"].items[j] == tags[j];
    }
  }

  lemma ItemTagsByOperation(item: PathItem)
    ensures forall t :: t in ItemTags(item) <==> exists k :: k in item && t in ItemTags(map[k := item[k]])
  {
    forall t, k | k in item && t in ItemTags(map[k := item[k]])
      ensures t in ItemTags(item)
    {
    }
    forall t | t in ItemTags(item)
      ensures exists k :: k in item && t in ItemTags(map[k := item[k]])
    {
      var k, i :| k in item && item[k].Object? && "tags" in item[k].fields
        && item[k].fields["tags"].Array? && 0 <= i < |item[k].fields["tags"].items|
        && item[k].fields["tags"].items[i].String? && item[k].fields["tags"].items[i].s == t;
      var single := map[k := item[k]];
      assert k in single && single[k].fields["tags"].items[i].s == t;
      assert t in ItemTags(single);
    }
  }

  /** `_project_schema`: it raises exactly when a reachable reference or a named security scheme is
      undefined, and then reports such a one; otherwise it returns the projection. */
  method ProjectSchema(doc: Document, selected: Selector, title: string)
    returns (r: Result<Document, ProjectionError>)
    ensures r.Success? <==> Projectable(doc, selected)
    ensures r.Success? ==> r.value == Projection(doc, selected, title)
    ensures r.Failure? && r.error.MissingComponent? ==>
              var roots := Refs(PathsJson(SelectedPaths(SourcePaths(doc), selected)));
              && Reaches(SourceComponents(doc), roots, r.error.ref)
              && !Resolves(SourceComponents(doc), r.error.ref)
    ensures r.Failure? && r.error.MissingScheme? ==>
              IsLeastUndefined(SourceComponents(doc), r.error.name,
                               Schemes(PathsJson(SelectedPaths(SourcePaths(doc), selected))))
  {
    var paths := SelectPaths(SourcePaths(doc), selected);
    var source := SourceComponents(doc);
    var roots := ComponentRefs(PathsJson(paths));
    var collected, kept := CollectComponents(source, roots);
    if collected.Failure? {
      return Failure(MissingComponent(collected.error));
    }
    var names := SecuritySchemeNames(PathsJson(paths));
    var completed := AddSecuritySchemes(source, kept, collected.value, names);
    if completed.Failure? {
      return Failure(MissingScheme(completed.error));
    }
    assert kept + SchemeRefs(names) == Kept(doc, paths);
    var tagNames := CollectTagNames(paths);
    var info := if doc.info.Some? then doc.info.value else map[];
    return Success(Document(
      Some(paths),
      if completed.value == map[] then None else Some(completed.value),
      Some(KeepTags(SourceTags(doc), tagNames)),
      None,
      Some(info["title" := String(title)]),
      doc.extras));
  }
}
