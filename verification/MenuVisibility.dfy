/** `filterMenu` of `admin/src/navigation/visibility.ts`: the recursive pruning of the navigation
    menu by capabilities and registered routes. */
module MenuVisibility {
  import opened Wrappers

  /** The fields of a menu item that pruning reads, and `caption` for those it only carries along. */
  datatype Entry = Entry(caption: string, capability: Option<string>, routeName: Option<string>)

  /** An item without an `items` array is a link. */
  datatype MenuItem =
    | Link(entry: Entry)
    | Group(entry: Entry, items: seq<MenuItem>)

  datatype Context = Context(capabilities: set<string>, isRouteRegistered: string -> bool)

  function Meet(a: Context, b: Context): Context {
    Context(a.capabilities * b.capabilities, name => a.isRouteRegistered(name) && b.isRouteRegistered(name))
  }

  /** Whatever `a` shows, `b` shows. */
  ghost predicate AtMost(a: Context, b: Context) {
    a.capabilities <= b.capabilities && forall name :: a.isRouteRegistered(name) ==> b.isRouteRegistered(name)
  }

  predicate Passes(e: Entry, context: Context) {
    && (e.capability.Some? ==> e.capability.value in context.capabilities)
    && (e.routeName.Some? ==> context.isRouteRegistered(e.routeName.value))
  }

  /** The menu that is left. */
  function Visible(items: seq<MenuItem>, context: Context): seq<MenuItem> {
    if items == [] then []
    else VisibleItem(items[0], context) + Visible(items[1..], context)
  }

  function VisibleItem(item: MenuItem, context: Context): seq<MenuItem> {
    if !Passes(item.entry, context) then []
    else match item
      case Link(_) => [item]
      case Group(entry, items) =>
        var children := Visible(items, context);
        if children == [] then [] else [Group(entry, children)]
  }

  lemma {:induction false} VisibleConcat(a: seq<MenuItem>, b: seq<MenuItem>, context: Context)
    ensures Visible(a + b, context) == Visible(a, context) + Visible(b, context)
  {
    if a == [] {
      assert a + b == b;
    } else {
      assert (a + b)[1..] == a[1..] + b;
      VisibleConcat(a[1..], b, context);
    }
  }

  method FilterMenu(items: seq<MenuItem>, context: Context) returns (result: seq<MenuItem>)
    ensures result == Visible(items, context)
    decreases items
  {
    result := [];
    for i := 0 to |items|
      invariant result == Visible(items[..i], context)
    {
      var item := items[i];
      assert items[..i + 1] == items[..i] + [item];
      VisibleConcat(items[..i], [item], context);
      assert Visible([item], context) == VisibleItem(item, context);
      var visible := item.entry.capability == None || item.entry.capability.value in context.capabilities;
      if !visible { continue; }
      if item.entry.routeName != None && !context.isRouteRegistered(item.entry.routeName.value) { continue; }
      if item.Group? {
        var children := FilterMenu(item.items, context);
        if |children| == 0 { continue; }
        result := result + [item.(items := children)];
        continue;
      }
      result := result + [item];
    }
    assert items[..|items|] == items;
  }

  // ---------------------------------------------------------------- leaves

  /** The path from the top of the menu to each link, in menu order. */
  function Trails(items: seq<MenuItem>): seq<seq<Entry>> {
    if items == [] then [] else ItemTrails(items[0]) + Trails(items[1..])
  }

  function ItemTrails(item: MenuItem): seq<seq<Entry>> {
    match item
    case Link(e) => [[e]]
    case Group(e, items) => Under(e, Trails(items))
  }

  function Under(e: Entry, trails: seq<seq<Entry>>): seq<seq<Entry>> {
    if trails == [] then [] else [[e] + trails[0]] + Under(e, trails[1..])
  }

  /** A link and all the groups above it pass. */
  predicate AllPass(trail: seq<Entry>, context: Context) {
    forall i :: 0 <= i < |trail| ==> Passes(trail[i], context)
  }

  function PassingTrails(trails: seq<seq<Entry>>, context: Context): seq<seq<Entry>> {
    if trails == [] then []
    else (if AllPass(trails[0], context) then [trails[0]] else []) + PassingTrails(trails[1..], context)
  }

  lemma {:induction false} PassingConcat(a: seq<seq<Entry>>, b: seq<seq<Entry>>, context: Context)
    ensures PassingTrails(a + b, context) == PassingTrails(a, context) + PassingTrails(b, context)
  {
    if a == [] {
      assert a + b == b;
    } else {
      assert (a + b)[1..] == a[1..] + b;
      PassingConcat(a[1..], b, context);
    }
  }

  lemma AllPassUnder(e: Entry, trail: seq<Entry>, context: Context)
    ensures AllPass([e] + trail, context) <==> Passes(e, context) && AllPass(trail, context)
  {
    var longer := [e] + trail;
    assert longer[0] == e && forall i :: 0 <= i < |trail| ==> longer[i + 1] == trail[i];
  }

  lemma {:induction false} PassingUnder(e: Entry, trails: seq<seq<Entry>>, context: Context)
    ensures PassingTrails(Under(e, trails), context)
            == if Passes(e, context) then Under(e, PassingTrails(trails, context)) else []
  {
    if trails != [] {
      var rest := Under(e, trails[1..]);
      assert Under(e, trails) == [[e] + trails[0]] + rest && ([[e] + trails[0]] + rest)[1..] == rest;
      PassingUnder(e, trails[1..], context);
      AllPassUnder(e, trails[0], context);
      var passing := PassingTrails(trails[1..], context);
      if Passes(e, context) && AllPass(trails[0], context) {
        assert ([trails[0]] + passing)[1..] == passing;
        assert PassingTrails(Under(e, trails), context) == [[e] + trails[0]] + Under(e, passing);
      } else {
        assert PassingTrails(Under(e, trails), context) == PassingTrails(rest, context);
        assert PassingTrails(trails, context) == (if AllPass(trails[0], context) then [trails[0]] else []) + passing;
        assert !AllPass(trails[0], context) ==> [] + passing == passing;
      }
    }
  }

  lemma {:induction false} TrailsConcat(a: seq<MenuItem>, b: seq<MenuItem>)
    ensures Trails(a + b) == Trails(a) + Trails(b)
  {
    if a == [] {
      assert a + b == b;
    } else {
      assert (a + b)[1..] == a[1..] + b;
      TrailsConcat(a[1..], b);
    }
  }

  /** A link survives, in its place, exactly when it and every group above it pass. */
  lemma {:induction false} SurvivingLinks(items: seq<MenuItem>, context: Context)
    ensures Trails(Visible(items, context)) == PassingTrails(Trails(items), context)
  {
    if items != [] {
      SurvivingLinksOfItem(items[0], context);
      SurvivingLinks(items[1..], context);
      TrailsConcat(VisibleItem(items[0], context), Visible(items[1..], context));
      PassingConcat(ItemTrails(items[0]), Trails(items[1..]), context);
    }
  }

  lemma {:induction false} SurvivingLinksOfItem(item: MenuItem, context: Context)
    ensures Trails(VisibleItem(item, context)) == PassingTrails(ItemTrails(item), context)
  {
    match item
    case Link(e) =>
      assert PassingTrails([[e]], context) == if Passes(e, context) then [[e]] else [] by {
        assert [e][0] == e;
      }
    case Group(e, items) =>
      SurvivingLinks(items, context);
      PassingUnder(e, Trails(items), context);
      if Passes(e, context) && Visible(items, context) != [] {
        var group := Group(e, Visible(items, context));
        assert Trails([group]) == ItemTrails(group);
      }
  }

  // ---------------------------------------------------------------- laws

  ghost predicate NoEmptyGroup(items: seq<MenuItem>) {
    forall i :: 0 <= i < |items| ==> items[i].Group? ==> items[i].items != [] && NoEmptyGroup(items[i].items)
  }

  lemma {:induction false} NoGroupIsLeftEmpty(items: seq<MenuItem>, context: Context)
    ensures NoEmptyGroup(Visible(items, context))
  {
    if items != [] {
      NoGroupIsLeftEmpty(items[1..], context);
      if items[0].Group? {
        NoGroupIsLeftEmpty(items[0].items, context);
      }
    }
  }

  /** Pruning by one context and then by another is pruning once by what both allow. */
  lemma {:induction false} PruningTwice(items: seq<MenuItem>, a: Context, b: Context)
    ensures Visible(Visible(items, a), b) == Visible(items, Meet(a, b))
  {
    if items != [] {
      PruningItemTwice(items[0], a, b);
      PruningTwice(items[1..], a, b);
      VisibleConcat(VisibleItem(items[0], a), Visible(items[1..], a), b);
    }
  }

  lemma {:induction false} PruningItemTwice(item: MenuItem, a: Context, b: Context)
    ensures Visible(VisibleItem(item, a), b) == VisibleItem(item, Meet(a, b))
  {
    if item.Group? {
      PruningTwice(item.items, a, b);
      if Passes(item.entry, a) && Visible(item.items, a) != [] {
        var group := Group(item.entry, Visible(item.items, a));
        assert Visible([group], b) == VisibleItem(group, b);
      }
    } else {
      assert Visible([item], b) == VisibleItem(item, b);
    }
  }

  lemma {:induction false} EquivalentContexts(items: seq<MenuItem>, a: Context, b: Context)
    requires AtMost(a, b) && AtMost(b, a)
    ensures Visible(items, a) == Visible(items, b)
  {
    if items != [] {
      EquivalentContexts(items[1..], a, b);
      if items[0].Group? {
        EquivalentContexts(items[0].items, a, b);
      }
    }
  }

  /** The menu of a lesser context is cut out of the menu of a greater one, and pruning a menu again
      by its own context changes nothing. */
  lemma LesserContextCutsFromGreater(items: seq<MenuItem>, lesser: Context, greater: Context)
    requires AtMost(lesser, greater)
    ensures Visible(Visible(items, greater), lesser) == Visible(items, lesser)
  {
    PruningTwice(items, greater, lesser);
    EquivalentContexts(items, Meet(greater, lesser), lesser);
  }

  lemma {:induction false} PassingTrailIsThere(trails: seq<seq<Entry>>, trail: seq<Entry>, context: Context)
    ensures trail in PassingTrails(trails, context) <==> trail in trails && AllPass(trail, context)
  {
    if trails != [] {
      PassingTrailIsThere(trails[1..], trail, context);
      assert trails == [trails[0]] + trails[1..];
    }
  }

  /** More capabilities or more routes never hide a link. */
  lemma SurvivingLinksGrow(items: seq<MenuItem>, lesser: Context, greater: Context, trail: seq<Entry>)
    requires AtMost(lesser, greater)
    ensures trail in Trails(Visible(items, lesser)) ==> trail in Trails(Visible(items, greater))
    ensures trail in Trails(Visible(items, lesser)) <==> trail in Trails(items) && AllPass(trail, lesser)
  {
    SurvivingLinks(items, lesser);
    SurvivingLinks(items, greater);
    PassingTrailIsThere(Trails(items), trail, lesser);
    PassingTrailIsThere(Trails(items), trail, greater);
  }

  // ---------------------------------------------------------------- link by link

  /** Going down the menu by these entries, one group at a time, ends at a link. */
  ghost predicate LeadsTo(items: seq<MenuItem>, trail: seq<Entry>)
    decreases items
  {
    trail != [] && exists i :: 0 <= i < |items| && LeadsThrough(items[i], trail)
  }

  ghost predicate LeadsThrough(item: MenuItem, trail: seq<Entry>)
    requires trail != []
    decreases item
  {
    && item.entry == trail[0]
    && match item
       case Link(_) => |trail| == 1
       case Group(_, items) => LeadsTo(items, trail[1..])
  }

  lemma {:induction false} UnderMembers(e: Entry, trails: seq<seq<Entry>>, trail: seq<Entry>)
    ensures trail in Under(e, trails) <==> trail != [] && trail[0] == e && trail[1..] in trails
  {
    if trails != [] {
      UnderMembers(e, trails[1..], trail);
      assert trails == [trails[0]] + trails[1..];
      assert trail == [e] + trails[0] <==> trail != [] && trail[0] == e && trail[1..] == trails[0];
    }
  }

  lemma {:induction false} TrailsLead(items: seq<MenuItem>, trail: seq<Entry>)
    ensures trail in Trails(items) <==> LeadsTo(items, trail)
    decreases items
  {
    if items != [] {
      TrailsLead(items[1..], trail);
      ItemTrailsLead(items[0], trail);
      assert forall i :: 0 <= i < |items| - 1 ==> items[1..][i] == items[i + 1];
      if trail != [] {
        assert LeadsTo(items, trail) <==> LeadsThrough(items[0], trail) || LeadsTo(items[1..], trail) by {
          forall i | 0 < i < |items| && LeadsThrough(items[i], trail)
            ensures LeadsTo(items[1..], trail)
          {
            assert LeadsThrough(items[1..][i - 1], trail);
          }
        }
      }
    }
  }

  lemma {:induction false} ItemTrailsLead(item: MenuItem, trail: seq<Entry>)
    ensures trail in ItemTrails(item) <==> trail != [] && LeadsThrough(item, trail)
    decreases item
  {
    match item
    case Link(e) =>
      assert trail == [e] <==> trail != [] && trail[0] == e && |trail| == 1;
    case Group(e, items) =>
      UnderMembers(e, Trails(items), trail);
      if trail != [] {
        TrailsLead(items, trail[1..]);
      }
  }

  /** A link is in the filtered menu, under the same groups, exactly when it is in the menu and each of its
      groups and the link itself has its capability held and its route registered, as far as it has one. */
  lemma LinkIsVisibleIff(items: seq<MenuItem>, context: Context, trail: seq<Entry>)
    ensures LeadsTo(Visible(items, context), trail) <==>
              && LeadsTo(items, trail)
              && forall e :: e in trail ==>
                   && (e.capability.None? || e.capability.value in context.capabilities)
                   && (e.routeName.None? || context.isRouteRegistered(e.routeName.value))
  {
    SurvivingLinks(items, context);
    PassingTrailIsThere(Trails(items), trail, context);
    TrailsLead(items, trail);
    TrailsLead(Visible(items, context), trail);
  }
}
