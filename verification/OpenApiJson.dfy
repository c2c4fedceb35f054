/** The JSON values of an OpenAPI document, the component references and security scheme names
    they mention, and the two recursive collectors of `inc/api/openapi.py`.

    A Python dict is a `map`: two dicts are equal when they hold the same entries, and the order
    in which a loop meets the entries is left open. */
module OpenApiJson {
  import opened Text
  import opened Wrappers

  datatype Json =
    | Null
    | Bool(b: bool)
    | Number(n: real)
    | String(s: string)
    | Array(items: seq<Json>)
    | Object(fields: map<string, Json>)

  /** One entry of the Components Object (OpenAPI 3.1.0, section 4.8.7). */
  datatype Ref = Ref(category: string, name: string)

  const COMPONENT_REF_PREFIX := "#/components/"

  // ---------------------------------------------------------------- references of one value

  /** `#/components/<category>/<name>`; the name is everything after the next slash, and a text
      without that slash names nothing. */
  function ParseRef(text: string): Option<Ref> {
    if COMPONENT_REF_PREFIX <= text then
      var rest := text[|COMPONENT_REF_PREFIX|..];
      var slash := IndexOf(rest, '/');
      if slash < |rest| then Some(Ref(rest[..slash], rest[slash + 1..])) else None
    else None
  }

  lemma SpelledAgain(rest: string, slash: nat)
    requires slash < |rest| && rest[slash] == '/'
    ensures rest == rest[..slash] + "/" + rest[slash + 1..]
  {
  }

  lemma SplitAtSlash(rest: string, category: string, name: string)
    ensures var slash := IndexOf(rest, '/');
            (slash < |rest| && rest[..slash] == category && rest[slash + 1..] == name)
            <==> ('/' !in category && rest == category + "/" + name)
  {
    var slash := IndexOf(rest, '/');
    if '/' !in category && rest == category + "/" + name {
      SlashOfSpelled(category, name);
    } else if slash < |rest| && rest[..slash] == category && rest[slash + 1..] == name {
      SpelledAgain(rest, slash);
      assert false;
    }
  }

  lemma SlashOfSpelled(category: string, name: string)
    requires '/' !in category
    ensures var rest := category + "/" + name;
            IndexOf(rest, '/') == |category| && rest[..|category|] == category && rest[|category| + 1..] == name
  {
    var rest := category + "/" + name;
    assert rest[|category|] == '/' && rest[..|category|] == category;
    FirstIndexIsUnique(rest, '/', |category|);
  }

  /** What a reference text means: it names (c, n) exactly when it spells the prefix, c, a slash and
      n, where c has no slash of its own. */
  lemma ParseRefMeaning(text: string, r: Ref)
    ensures ParseRef(text) == Some(r) <==>
            '/' !in r.category && text == COMPONENT_REF_PREFIX + r.category + "/" + r.name
  {
    var spelled := r.category + "/" + r.name;
    var whole := COMPONENT_REF_PREFIX + r.category + "/" + r.name;
    assert whole == COMPONENT_REF_PREFIX + spelled;
    if COMPONENT_REF_PREFIX <= text {
      var rest := text[|COMPONENT_REF_PREFIX|..];
      assert text == COMPONENT_REF_PREFIX + rest;
      assert text == whole <==> rest == spelled by {
        assert whole[|COMPONENT_REF_PREFIX|..] == spelled;
      }
      SplitAtSlash(rest, r.category, r.name);
    }
  }

  /** The reference a value makes itself, not through its children. */
  function OwnRefs(v: Json): set<Ref> {
    if v.Object? && "$ref" in v.fields && v.fields["$ref"].String? then
      match ParseRef(v.fields["$ref"].s)
      case Some(r) => {r}
      case None => {}
    else {}
  }

  /** The scheme names of a value's own `security` list (OpenAPI 3.1.0, section 4.8.30). */
  function OwnSchemes(v: Json): set<string> {
    if v.Object? && "security" in v.fields && v.fields["security"].Array? then
      set i, name | 0 <= i < |v.fields["security"].items|
                    && v.fields["security"].items[i].Object?
                    && name in v.fields["security"].items[i].fields :: name
    else {}
  }

  // ---------------------------------------------------------------- whole values

  /** `part` is `whole` or is nested in it at any depth. */
  ghost predicate NestedIn(part: Json, whole: Json) {
    || part == whole
    || match whole
       case Object(fields) => exists k :: k in fields && NestedIn(part, fields[k])
       case Array(items) => exists i :: 0 <= i < |items| && NestedIn(part, items[i])
       case _ => false
  }

  function Refs(v: Json): set<Ref> {
    match v
    case Object(fields) => OwnRefs(v) + set k, r | k in fields && r in Refs(fields[k]) :: r
    case Array(items) => set i, r | 0 <= i < |items| && r in Refs(items[i]) :: r
    case _ => {}
  }

  function Schemes(v: Json): set<string> {
    match v
    case Object(fields) => OwnSchemes(v) + set k, n | k in fields && n in Schemes(fields[k]) :: n
    case Array(items) => set i, n | 0 <= i < |items| && n in Schemes(items[i]) :: n
    case _ => {}
  }

  /** A reference is collected exactly when some nested value makes it, at whatever depth. */
  lemma RefsAreThoseWithin(v: Json)
    ensures forall r :: r in Refs(v) <==> exists part :: NestedIn(part, v) && r in OwnRefs(part)
  {
    forall r | r in Refs(v)
      ensures exists part :: NestedIn(part, v) && r in OwnRefs(part)
    {
      var part := RefOrigin(v, r);
    }
    forall r, part | NestedIn(part, v) && r in OwnRefs(part)
      ensures r in Refs(v)
    {
      RefWithinIsCollected(v, part, r);
    }
  }

  lemma {:induction false} RefOrigin(v: Json, r: Ref) returns (part: Json)
    requires r in Refs(v)
    ensures NestedIn(part, v) && r in OwnRefs(part)
  {
    if r in OwnRefs(v) {
      part := v;
    } else if v.Object? {
      var k :| k in v.fields && r in Refs(v.fields[k]);
      part := RefOrigin(v.fields[k], r);
    } else {
      var i :| 0 <= i < |v.items| && r in Refs(v.items[i]);
      part := RefOrigin(v.items[i], r);
    }
  }

  lemma {:induction false} RefWithinIsCollected(v: Json, part: Json, r: Ref)
    requires NestedIn(part, v) && r in OwnRefs(part)
    ensures r in Refs(v)
  {
    if part != v {
      if v.Object? {
        var k :| k in v.fields && NestedIn(part, v.fields[k]);
        RefWithinIsCollected(v.fields[k], part, r);
      } else {
        var i :| 0 <= i < |v.items| && NestedIn(part, v.items[i]);
        RefWithinIsCollected(v.items[i], part, r);
      }
    }
  }

  /** The same for the scheme names of nested `security` lists. */
  lemma SchemesAreThoseWithin(v: Json)
    ensures forall n :: n in Schemes(v) <==> exists part :: NestedIn(part, v) && n in OwnSchemes(part)
  {
    forall n | n in Schemes(v)
      ensures exists part :: NestedIn(part, v) && n in OwnSchemes(part)
    {
      var part := SchemeOrigin(v, n);
    }
    forall n, part | NestedIn(part, v) && n in OwnSchemes(part)
      ensures n in Schemes(v)
    {
      SchemeWithinIsCollected(v, part, n);
    }
  }

  lemma {:induction false} SchemeOrigin(v: Json, n: string) returns (part: Json)
    requires n in Schemes(v)
    ensures NestedIn(part, v) && n in OwnSchemes(part)
  {
    if n in OwnSchemes(v) {
      part := v;
    } else if v.Object? {
      var k :| k in v.fields && n in Schemes(v.fields[k]);
      part := SchemeOrigin(v.fields[k], n);
    } else {
      var i :| 0 <= i < |v.items| && n in Schemes(v.items[i]);
      part := SchemeOrigin(v.items[i], n);
    }
  }

  lemma {:induction false} SchemeWithinIsCollected(v: Json, part: Json, n: string)
    requires NestedIn(part, v) && n in OwnSchemes(part)
    ensures n in Schemes(v)
  {
    if part != v {
      if v.Object? {
        var k :| k in v.fields && NestedIn(part, v.fields[k]);
        SchemeWithinIsCollected(v.fields[k], part, n);
      } else {
        var i :| 0 <= i < |v.items| && NestedIn(part, v.items[i]);
        SchemeWithinIsCollected(v.items[i], part, n);
      }
    }
  }

  // ---------------------------------------------------------------- the collectors

  method ComponentRefs(value: Json) returns (refs: set<Ref>)
    ensures refs == Refs(value)
    decreases value
  {
    refs := {};
    if value.Object? {
      if "$ref" in value.fields && value.fields["$ref"].String?
         && COMPONENT_REF_PREFIX <= value.fields["$ref"].s {
        var rest := value.fields["$ref"].s[|COMPONENT_REF_PREFIX|..];
        var slash := IndexOf(rest, '/');
        if slash < |rest| {
          refs := {Ref(rest[..slash], rest[slash + 1..])};
        }
      }
      var todo := value.fields.Keys;
      while todo != {}
        invariant todo <= value.fields.Keys
        invariant forall r :: r in refs <==>
                    || r in OwnRefs(value)
                    || exists k :: k in value.fields && k !in todo && r in Refs(value.fields[k])
        decreases todo
      {
        var k :| k in todo;
        var child := ComponentRefs(value.fields[k]);
        refs, todo := refs + child, todo - {k};
      }
      assert forall r :: r in refs <==> r in Refs(value);
    } else if value.Array? {
      for i := 0 to |value.items|
        invariant forall r :: r in refs <==> exists j :: 0 <= j < i && r in Refs(value.items[j])
      {
        var child := ComponentRefs(value.items[i]);
        refs := refs + child;
      }
      assert forall r :: r in refs <==> r in Refs(value);
    }
  }

  method SecuritySchemeNames(value: Json) returns (names: set<string>)
    ensures names == Schemes(value)
    decreases value
  {
    names := {};
    if value.Object? {
      if "security" in value.fields && value.fields["security"].Array? {
        var requirements := value.fields["security"].items;
        for i := 0 to |requirements|
          invariant names == set j, n | 0 <= j < i && requirements[j].Object?
                                        && n in requirements[j].fields :: n
        {
          if requirements[i].Object? {
            names := names + requirements[i].fields.Keys;
          }
        }
      }
      var todo := value.fields.Keys;
      while todo != {}
        invariant todo <= value.fields.Keys
        invariant forall n :: n in names <==>
                    || n in OwnSchemes(value)
                    || exists k :: k in value.fields && k !in todo && n in Schemes(value.fields[k])
        decreases todo
      {
        var k :| k in todo;
        var child := SecuritySchemeNames(value.fields[k]);
        names, todo := names + child, todo - {k};
      }
      assert forall n :: n in names <==> n in Schemes(value);
    } else if value.Array? {
      for i := 0 to |value.items|
        invariant forall n :: n in names <==> exists j :: 0 <= j < i && n in Schemes(value.items[j])
      {
        var child := SecuritySchemeNames(value.items[i]);
        names := names + child;
      }
      assert forall n :: n in names <==> n in Schemes(value);
    }
  }
}
