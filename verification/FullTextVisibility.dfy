/** What a user finds in the full-text index: exactly what the user may see in the layer tree. */
module FullTextVisibility {
  import opened Wrappers
  import opened ThemeTree
  import opened FullTextIndex
  import opened FullTextSkips

  /** An item of the database: a theme or something below a theme. */
  predicate InTree(x: Item, themes: seq<Item>) {
    exists k :: 0 <= k < |themes| && Inside(x, themes[k])
  }

  ghost predicate UniqueIds(themes: seq<Item>) {
    forall x, y :: InTree(x, themes) && InTree(y, themes) && x.id == y.id ==> x == y
  }

  predicate Has(index: Index, x: Item, interface: int, role: Role) {
    EntryOf(x, interface, role) in index.entries
  }

  predicate IsPublic(index: Index, x: Item, interface: int) {
    (interface, x.id) in index.Public(ActionOf(x))
  }

  // What is to be indexed.

  /** The item is exported in a group at or below `top`. */
  ghost predicate ExportedBelow(o: Options, x: Item, top: Item) {
    exists g :: Inside(g, top) && HoldsExported(o, g, x)
  }

  /** The item is in this group, as a folder or as a layer to export. */
  predicate HoldsExported(o: Options, g: Item, x: Item) {
    g.Group? && x in g.children && ((x.Group? && o.folders) || (x.Layer? && o.layers))
  }

  /** The item is exported where it stands in the theme: the theme itself, a block directly in it, or below. */
  ghost predicate ExportedIn(o: Options, x: Item, theme: Item)
    requires theme.Theme?
  {
    (x == theme && o.themes) || (x in theme.children && o.blocks) || ExportedBelow(o, x, theme)
  }

  /** The item shows in a theme of one of the interfaces, and is exported there. */
  ghost predicate ShowsIn(o: Options, theme: Item, interfaces: seq<int>, role: Role, x: Item, i: int)
    requires theme.Theme?
  {
    i in interfaces && i in theme.interfaces && ExportedIn(o, x, theme) && Shows(x, i, role)
  }

  /** It does in a theme that is open to the role; to everybody in the pass for everybody. */
  ghost predicate OpenlyShows(o: Options, themes: seq<Item>, interfaces: seq<int>, role: Role, x: Item, i: int)
    requires Themes(themes)
  {
    exists k :: 0 <= k < |themes| && ThemeOpen(themes[k], role) && ShowsIn(o, themes[k], interfaces, role, x, i)
  }

  /** What must be indexed: what shows to everybody, and what shows to a role and is not shown to everybody. */
  ghost predicate Deserved(o: Options, themes: seq<Item>, interfaces: seq<int>, roles: seq<int>, x: Item, i: int, r: Role)
    requires Themes(themes)
  {
    && OpenlyShows(o, themes, interfaces, r, x, i)
    && (r.Some? ==> r.value in roles && !OpenlyShows(o, themes, interfaces, None, x, i))
  }

  ghost function ThemeShown(o: Options, theme: Item, interfaces: seq<int>, role: Role): iset<(Item, int)>
    requires theme.Theme?
  {
    iset x: Item, i: int | ShowsIn(o, theme, interfaces, role, x, i) :: (x, i)
  }

  ghost function OpenShown(o: Options, themes: seq<Item>, interfaces: seq<int>, role: Role): iset<(Item, int)>
    requires Themes(themes)
  {
    iset x: Item, i: int | OpenlyShows(o, themes, interfaces, role, x, i) :: (x, i)
  }

  // What the steps add.

  /** The entry that stands for an item: by its id or by its name. */
  predicate StandsFor(o: Options, e: Entry, x: Item, i: int, r: Role) {
    e.interface == i && e.role == r && if o.byName then e.name == x.name else e.id == x.id
  }

  /** Some entry stands for the item. */
  ghost predicate Keyed(o: Options, index: Index, x: Item, i: int, r: Role) {
    exists e :: e in index.entries && StandsFor(o, e, x, i, r)
  }

  /** The item is one of those to add for a role: all of them in the pass for everybody, those not yet public for a role. */
  ghost predicate ToAdd(index: Index, role: Role, more: iset<(Item, int)>, x: Item, i: int) {
    (x, i) in more && (role.None? || !IsPublic(index, x, i))
  }

  /** Every new entry is of an item to add. */
  ghost predicate AddsOnly(themes: seq<Item>, a: Index, b: Index, role: Role, more: iset<(Item, int)>) {
    forall e :: e in b.entries && e !in a.entries ==>
      exists x :: InTree(x, themes) && ToAdd(a, role, more, x, e.interface) && e == EntryOf(x, e.interface, role)
  }

  /** From `a` to `b` the index grew by the pairs of an item and an interface in `more`, for `role`. */
  ghost predicate Adds(o: Options, themes: seq<Item>, a: Index, b: Index, role: Role, more: iset<(Item, int)>) {
    && a.entries <= b.entries && AddsOnly(themes, a, b, role, more)
    && (forall x, i :: InTree(x, themes) && ToAdd(a, role, more, x, i) ==> Keyed(o, b, x, i, role))
    && (forall x, i :: InTree(x, themes) ==>
          (IsPublic(b, x, i) <==> IsPublic(a, x, i) || (role.None? && (x, i) in more)))
  }

  lemma AddsNothing(o: Options, themes: seq<Item>, a: Index, role: Role)
    ensures Adds(o, themes, a, a, role, iset{})
  {
  }

  lemma KeyedMore(o: Options, a: Index, b: Index, x: Item, i: int, r: Role)
    requires a.entries <= b.entries && Keyed(o, a, x, i, r)
    ensures Keyed(o, b, x, i, r)
  {
    var e :| e in a.entries && StandsFor(o, e, x, i, r);
    assert e in b.entries;
  }

  lemma AddsBoth(o: Options, themes: seq<Item>, a: Index, b: Index, c: Index, role: Role, m: iset<(Item, int)>, n: iset<(Item, int)>)
    requires Adds(o, themes, a, b, role, m) && Adds(o, themes, b, c, role, n)
    ensures Adds(o, themes, a, c, role, m + n)
  {
    forall e | e in c.entries && e !in a.entries
      ensures exists x :: InTree(x, themes) && ToAdd(a, role, m + n, x, e.interface) && e == EntryOf(x, e.interface, role)
    {
      if e in b.entries {
        var x :| InTree(x, themes) && ToAdd(a, role, m, x, e.interface) && e == EntryOf(x, e.interface, role);
        assert ToAdd(a, role, m + n, x, e.interface);
      } else {
        var x :| InTree(x, themes) && ToAdd(b, role, n, x, e.interface) && e == EntryOf(x, e.interface, role);
        assert ToAdd(a, role, m + n, x, e.interface);
      }
    }
    forall x, i | InTree(x, themes) && ToAdd(a, role, m + n, x, i) ensures Keyed(o, c, x, i, role) {
      if (x, i) in m {
        assert ToAdd(a, role, m, x, i);
        KeyedMore(o, b, c, x, i, role);
      } else {
        assert ToAdd(b, role, n, x, i);
      }
    }
  }

  /** One item. */
  lemma ExportAdds(o: Options, themes: seq<Item>, index: Index, item: Item, interface: int, role: Role)
    requires UniqueIds(themes) && InTree(item, themes)
    ensures Adds(o, themes, index, Export(o, index, item, interface, role), role, iset{(item, interface)})
  {
    var marked := if role.None? then index.Publish(ActionOf(item), interface, item.id) else index;
    var e := EntryOf(item, interface, role);
    var after := Export(o, index, item, interface, role);
    forall x, i | InTree(x, themes)
      ensures IsPublic(after, x, i) <==> IsPublic(index, x, i) || (role.None? && (x, i) == (item, interface))
    {
      if x.id == item.id {
        assert x == item;
      }
    }
    assert IsPublic(marked, item, interface) <==> IsPublic(index, item, interface) || role.None?;
    if role.None? || !IsPublic(index, item, interface) {
      assert after.entries == AddFts(o, marked, e).entries;
      EntryAdded(o, marked, item, interface, role);
      assert ToAdd(index, role, iset{(item, interface)}, item, interface);
    }
  }

  lemma EntryAdded(o: Options, index: Index, item: Item, interface: int, role: Role)
    ensures var e := EntryOf(item, interface, role);
            Keyed(o, AddFts(o, index, e), item, interface, role)
            && forall f :: f in AddFts(o, index, e).entries ==> f in index.entries || f == e
  {
    var e := EntryOf(item, interface, role);
    var after := AddFts(o, index, e).entries;
    var i :| 0 <= i < |after| && KeyOf(o, after[i]) == KeyOf(o, e);
    assert StandsFor(o, after[i], item, interface, role);
  }

  lemma ChildInTree(item: Item, k: nat, themes: seq<Item>)
    requires InTree(item, themes) && !item.Layer? && k < |item.children|
    ensures InTree(item.children[k], themes)
  {
    var j :| 0 <= j < |themes| && Inside(item, themes[j]);
    var child := item.children[k];
    assert Inside(child, child);
    assert Inside(child, item);
    InsideTransitive(child, item, themes[j]);
  }

  /** What an item shows with what is below it, the item itself when it is exported. */
  ghost function Shown(o: Options, item: Item, interface: int, role: Role, exported: bool): iset<(Item, int)> {
    iset x: Item | ((x == item && exported) || ExportedBelow(o, x, item)) && Shows(x, interface, role) :: (x, interface)
  }

  /** What the children of a group show. */
  ghost function ChildrenShown(o: Options, children: seq<Item>, interface: int, role: Role): iset<(Item, int)> {
    iset x: Item, k |
      0 <= k < |children|
      && ((x == children[k] && ((x.Group? && o.folders) || (x.Layer? && o.layers))) || ExportedBelow(o, x, children[k]))
      && Shows(x, interface, role)
    :: (x, interface)
  }

  lemma ChildrenShownCons(o: Options, children: seq<Item>, interface: int, role: Role)
    requires children != [] && !children[0].Theme?
    ensures ChildrenShown(o, children, interface, role)
         == Shown(o, children[0], interface, role, if children[0].Group? then o.folders else o.layers)
            + ChildrenShown(o, children[1..], interface, role)
  {
  }

  /** What is exported below a group is its children and what is exported below them. */
  lemma BelowGroup(o: Options, x: Item, item: Item)
    requires !item.Layer?
    ensures ExportedBelow(o, x, item)
       <==> || HoldsExported(o, item, x)
            || exists k :: 0 <= k < |item.children| && ExportedBelow(o, x, item.children[k])
  {
    if HoldsExported(o, item, x) {
      assert Inside(item, item);
    }
    if ExportedBelow(o, x, item) {
      var g :| Inside(g, item) && HoldsExported(o, g, x);
      if g != item {
        var k :| 0 <= k < |item.children| && Inside(g, item.children[k]);
        assert ExportedBelow(o, x, item.children[k]);
      }
    }
    if k :| 0 <= k < |item.children| && ExportedBelow(o, x, item.children[k]) {
      var g :| Inside(g, item.children[k]) && HoldsExported(o, g, x);
      assert Inside(g, item);
    }
  }

  lemma ShownGroup(o: Options, item: Item, interface: int, role: Role, exported: bool)
    requires item.Group?
    ensures Shown(o, item, interface, role, exported)
         == ChildrenShown(o, item.children, interface, role)
            + if exported && Shows(item, interface, role) then iset{(item, interface)} else iset{}
  {
    forall x: Item
      ensures ExportedBelow(o, x, item)
         <==> exists k :: 0 <= k < |item.children|
                && ((x == item.children[k] && ((x.Group? && o.folders) || (x.Layer? && o.layers)))
                    || ExportedBelow(o, x, item.children[k]))
    {
      BelowGroup(o, x, item);
    }
  }

  lemma NothingBelowLayer(o: Options, x: Item, layer: Item)
    requires layer.Layer?
    ensures !ExportedBelow(o, x, layer)
  {
  }

  lemma {:induction false} ItemAdds(o: Options, themes: seq<Item>, index: Index, item: Item, interface: int, role: Role, exported: bool)
    requires UniqueIds(themes) && InTree(item, themes) && NoTheme(item)
    ensures Adds(o, themes, index, AddItem(o, index, item, interface, role, exported).0, role,
                 Shown(o, item, interface, role, exported))
    decreases item, 1
  {
    FillIsShows(o, index, item, interface, role, exported);
    AddsNothing(o, themes, index, role);
    match item
    case Layer(_, _, _, _, _) =>
      forall x: Item ensures !ExportedBelow(o, x, item) {
        NothingBelowLayer(o, x, item);
      }
      ExportAdds(o, themes, index, item, interface, role);
      assert Shown(o, item, interface, role, exported)
          == if exported && Shows(item, interface, role) then iset{(item, interface)} else iset{};
    case Group(_, _, children) =>
      var below := AddChildren(o, index, children, interface, role).0;
      forall k | 0 <= k < |children| ensures InTree(children[k], themes) {
        ChildInTree(item, k, themes);
      }
      ChildrenAdd(o, themes, index, children, interface, role);
      ShownGroup(o, item, interface, role, exported);
      var m := ChildrenShown(o, children, interface, role);
      if exported && Shows(item, interface, role) {
        ExportAdds(o, themes, below, item, interface, role);
        AddsBoth(o, themes, index, below, Export(o, below, item, interface, role), role, m, iset{(item, interface)});
      } else {
        assert m + iset{} == m;
      }
  }

  lemma {:induction false} ChildrenAdd(o: Options, themes: seq<Item>, index: Index, children: seq<Item>, interface: int, role: Role)
    requires UniqueIds(themes) && forall k :: 0 <= k < |children| ==> InTree(children[k], themes) && NoTheme(children[k])
    ensures Adds(o, themes, index, AddChildren(o, index, children, interface, role).0, role,
                 ChildrenShown(o, children, interface, role))
    decreases children, 0
  {
    if children == [] {
      AddsNothing(o, themes, index, role);
      assert ChildrenShown(o, children, interface, role) == iset{};
    } else {
      var exported := if children[0].Group? then o.folders else o.layers;
      var first := AddItem(o, index, children[0], interface, role, exported).0;
      ItemAdds(o, themes, index, children[0], interface, role, exported);
      ChildrenAdd(o, themes, first, children[1..], interface, role);
      ChildrenShownCons(o, children, interface, role);
      AddsBoth(o, themes, index, first, AddChildren(o, index, children, interface, role).0, role,
               Shown(o, children[0], interface, role, exported), ChildrenShown(o, children[1..], interface, role));
    }
  }

  /** What the blocks of a theme show. */
  ghost function BlocksShown(o: Options, blocks: seq<Item>, interface: int, role: Role): iset<(Item, int)> {
    iset x: Item, k |
      0 <= k < |blocks| && ((x == blocks[k] && o.blocks) || ExportedBelow(o, x, blocks[k])) && Shows(x, interface, role)
    :: (x, interface)
  }

  lemma BlocksShownCons(o: Options, blocks: seq<Item>, interface: int, role: Role)
    requires blocks != []
    ensures BlocksShown(o, blocks, interface, role)
         == Shown(o, blocks[0], interface, role, o.blocks) + BlocksShown(o, blocks[1..], interface, role)
  {
  }

  lemma {:induction false} BlocksAdd(o: Options, themes: seq<Item>, index: Index, blocks: seq<Item>, interface: int, role: Role)
    requires UniqueIds(themes) && forall k :: 0 <= k < |blocks| ==> InTree(blocks[k], themes) && NoTheme(blocks[k])
    ensures Adds(o, themes, index, AddBlocks(o, index, blocks, interface, role).0, role, BlocksShown(o, blocks, interface, role))
    decreases |blocks|
  {
    if blocks == [] {
      AddsNothing(o, themes, index, role);
      assert BlocksShown(o, blocks, interface, role) == iset{};
    } else {
      var first := AddItem(o, index, blocks[0], interface, role, o.blocks).0;
      ItemAdds(o, themes, index, blocks[0], interface, role, o.blocks);
      BlocksAdd(o, themes, first, blocks[1..], interface, role);
      var m, n := Shown(o, blocks[0], interface, role, o.blocks), BlocksShown(o, blocks[1..], interface, role);
      BlocksShownCons(o, blocks, interface, role);
      AddsBoth(o, themes, index, first, AddBlocks(o, index, blocks, interface, role).0, role, m, n);
    }
  }

  lemma ThemeShownIn(o: Options, theme: Item, interface: int, role: Role)
    requires WellFormedTheme(theme) && interface in theme.interfaces
    ensures ThemeShown(o, theme, [interface], role)
         == BlocksShown(o, theme.children, interface, role)
            + if o.themes && Shows(theme, interface, role) then iset{(theme, interface)} else iset{}
  {
    forall x: Item
      ensures (x in theme.children && o.blocks) || ExportedBelow(o, x, theme)
         <==> exists k :: 0 <= k < |theme.children|
                && ((x == theme.children[k] && o.blocks) || ExportedBelow(o, x, theme.children[k]))
    {
      BelowGroup(o, x, theme);
    }
  }

  lemma ThemeInAdds(o: Options, themes: seq<Item>, index: Index, theme: Item, interface: int, role: Role)
    requires UniqueIds(themes) && InTree(theme, themes) && WellFormedTheme(theme)
    ensures Adds(o, themes, index, AddThemeIn(o, index, theme, interface, role), role, ThemeShown(o, theme, [interface], role))
  {
    if interface in theme.interfaces {
      forall k | 0 <= k < |theme.children| ensures InTree(theme.children[k], themes) {
        ChildInTree(theme, k, themes);
      }
      var below := AddBlocks(o, index, theme.children, interface, role).0;
      var m := BlocksShown(o, theme.children, interface, role);
      BlocksAdd(o, themes, index, theme.children, interface, role);
      BlocksFill(o, index, theme.children, interface, role);
      ThemeShownIn(o, theme, interface, role);
      if o.themes && Shows(theme, interface, role) {
        ExportAdds(o, themes, below, theme, interface, role);
        AddsBoth(o, themes, index, below, Export(o, below, theme, interface, role), role, m, iset{(theme, interface)});
      } else {
        assert m + iset{} == m;
      }
    } else {
      AddsNothing(o, themes, index, role);
      assert ThemeShown(o, theme, [interface], role) == iset{};
    }
  }

  lemma {:induction false} ThemeAdds(o: Options, themes: seq<Item>, index: Index, theme: Item, interfaces: seq<int>, role: Role)
    requires UniqueIds(themes) && InTree(theme, themes) && WellFormedTheme(theme)
    ensures Adds(o, themes, index, AddThemeAll(o, index, theme, interfaces, role), role, ThemeShown(o, theme, interfaces, role))
    decreases |interfaces|
  {
    if interfaces == [] {
      AddsNothing(o, themes, index, role);
      assert ThemeShown(o, theme, interfaces, role) == iset{};
    } else {
      var first := AddThemeIn(o, index, theme, interfaces[0], role);
      ThemeInAdds(o, themes, index, theme, interfaces[0], role);
      ThemeAdds(o, themes, first, theme, interfaces[1..], role);
      assert interfaces == [interfaces[0]] + interfaces[1..];
      var m, n := ThemeShown(o, theme, [interfaces[0]], role), ThemeShown(o, theme, interfaces[1..], role);
      assert ThemeShown(o, theme, interfaces, role) == m + n;
      AddsBoth(o, themes, index, first, AddThemeAll(o, index, theme, interfaces, role), role, m, n);
    }
  }

  lemma OpenShownCons(o: Options, themes: seq<Item>, interfaces: seq<int>, role: Role)
    requires Themes(themes) && themes != []
    ensures OpenShown(o, themes, interfaces, role)
         == (if ThemeOpen(themes[0], role) then ThemeShown(o, themes[0], interfaces, role) else iset{})
            + OpenShown(o, themes[1..], interfaces, role)
  {
  }

  lemma ThemeItselfInTree(themes: seq<Item>, k: nat)
    requires k < |themes|
    ensures InTree(themes[k], themes)
  {
  }

  lemma {:induction false} PublicPassAdds(o: Options, all: seq<Item>, index: Index, themes: seq<Item>, interfaces: seq<int>)
    requires UniqueIds(all) && Themes(themes) && forall k :: 0 <= k < |themes| ==> InTree(themes[k], all)
    ensures Adds(o, all, index, PublicPass(o, index, themes, interfaces), None, OpenShown(o, themes, interfaces, None))
    decreases |themes|
  {
    AddsNothing(o, all, index, None);
    if themes == [] {
      assert OpenShown(o, themes, interfaces, None) == iset{};
    } else {
      var first := if themes[0].isPublic then AddThemeAll(o, index, themes[0], interfaces, None) else index;
      var m := if themes[0].isPublic then ThemeShown(o, themes[0], interfaces, None) else iset{};
      ThemeAdds(o, all, index, themes[0], interfaces, None);
      assert Adds(o, all, index, first, None, m);
      PublicPassAdds(o, all, first, themes[1..], interfaces);
      OpenShownCons(o, themes, interfaces, None);
      AddsBoth(o, all, index, first, PublicPass(o, index, themes, interfaces), None, m,
               OpenShown(o, themes[1..], interfaces, None));
    }
  }

  lemma {:induction false} RolePassAdds(o: Options, all: seq<Item>, index: Index, themes: seq<Item>, interfaces: seq<int>, r: int)
    requires UniqueIds(all) && Themes(themes) && forall k :: 0 <= k < |themes| ==> InTree(themes[k], all)
    ensures Adds(o, all, index, RolePass(o, Plain, index, themes, interfaces, r), Some(r),
                 OpenShown(o, themes, interfaces, Some(r)))
    decreases |themes|
  {
    AddsNothing(o, all, index, Some(r));
    if themes == [] {
      assert OpenShown(o, themes, interfaces, Some(r)) == iset{};
    } else {
      var first := AddThemeFor(o, Plain, index, themes[0], interfaces, Some(r));
      var m := if ThemeOpen(themes[0], Some(r)) then ThemeShown(o, themes[0], interfaces, Some(r)) else iset{};
      ThemeAdds(o, all, index, themes[0], interfaces, Some(r));
      assert Adds(o, all, index, first, Some(r), m);
      RolePassAdds(o, all, first, themes[1..], interfaces, r);
      OpenShownCons(o, themes, interfaces, Some(r));
      AddsBoth(o, all, index, first, RolePass(o, Plain, index, themes, interfaces, r), Some(r), m,
               OpenShown(o, themes[1..], interfaces, Some(r)));
    }
  }

  // The whole import.

  /** The entry is of an item that deserves it. */
  ghost predicate EntryFor(o: Options, themes: seq<Item>, interfaces: seq<int>, roles: seq<int>, e: Entry, x: Item)
    requires Themes(themes)
  {
    InTree(x, themes) && Deserved(o, themes, interfaces, roles, x, e.interface, e.role) && e == EntryOf(x, e.interface, e.role)
  }

  ghost predicate OnlyDeserved(o: Options, themes: seq<Item>, interfaces: seq<int>, roles: seq<int>, index: Index)
    requires Themes(themes)
  {
    forall e :: e in index.entries ==> exists x :: EntryFor(o, themes, interfaces, roles, e, x)
  }

  /** Some entry stands for every item that deserves one. */
  ghost predicate AllDeserved(o: Options, themes: seq<Item>, interfaces: seq<int>, roles: seq<int>, index: Index)
    requires Themes(themes)
  {
    forall x, i, r {:trigger Keyed(o, index, x, i, r)} ::
      InTree(x, themes) && Deserved(o, themes, interfaces, roles, x, i, r) ==> Keyed(o, index, x, i, r)
  }

  ghost predicate PublicAre(o: Options, themes: seq<Item>, interfaces: seq<int>, index: Index)
    requires Themes(themes)
  {
    forall x, i :: InTree(x, themes) ==> (IsPublic(index, x, i) <==> OpenlyShows(o, themes, interfaces, None, x, i))
  }

  lemma DeservedMore(o: Options, themes: seq<Item>, interfaces: seq<int>, roles: seq<int>, role: int, x: Item, i: int, r: Role)
    requires Themes(themes)
    ensures Deserved(o, themes, interfaces, roles + [role], x, i, r)
       <==> Deserved(o, themes, interfaces, roles, x, i, r)
            || (r == Some(role) && OpenlyShows(o, themes, interfaces, r, x, i) && !OpenlyShows(o, themes, interfaces, None, x, i))
  {
    assert r.Some? ==> (r.value in roles + [role] <==> r.value in roles || r.value == role);
  }

  lemma NewEntryFor(o: Options, themes: seq<Item>, interfaces: seq<int>, roles: seq<int>, role: int, index: Index, e: Entry, x: Item)
    requires Themes(themes) && PublicAre(o, themes, interfaces, index) && InTree(x, themes)
    requires ToAdd(index, Some(role), OpenShown(o, themes, interfaces, Some(role)), x, e.interface)
    requires e == EntryOf(x, e.interface, Some(role))
    ensures EntryFor(o, themes, interfaces, roles + [role], e, x)
  {
    DeservedMore(o, themes, interfaces, roles, role, x, e.interface, e.role);
    assert IsPublic(index, x, e.interface) <==> OpenlyShows(o, themes, interfaces, None, x, e.interface);
  }

  lemma RoleAddsOnly(o: Options, themes: seq<Item>, interfaces: seq<int>, roles: seq<int>, role: int, index: Index, after: Index)
    requires Themes(themes) && PublicAre(o, themes, interfaces, index)
    requires OnlyDeserved(o, themes, interfaces, roles, index)
    requires AddsOnly(themes, index, after, Some(role), OpenShown(o, themes, interfaces, Some(role)))
    ensures OnlyDeserved(o, themes, interfaces, roles + [role], after)
  {
    var shown := OpenShown(o, themes, interfaces, Some(role));
    forall e | e in after.entries ensures exists x :: EntryFor(o, themes, interfaces, roles + [role], e, x) {
      if e in index.entries {
        var x := ItemOfEntry(o, themes, interfaces, roles, index, e);
        DeservedMore(o, themes, interfaces, roles, role, x, e.interface, e.role);
        assert EntryFor(o, themes, interfaces, roles + [role], e, x);
      } else {
        var x :| InTree(x, themes) && ToAdd(index, Some(role), shown, x, e.interface) && e == EntryOf(x, e.interface, Some(role));
        NewEntryFor(o, themes, interfaces, roles, role, index, e, x);
      }
    }
  }

  lemma RoleAddsAll(o: Options, themes: seq<Item>, interfaces: seq<int>, roles: seq<int>, role: int, index: Index, after: Index,
                    x: Item, i: int, r: Role)
    requires Themes(themes) && PublicAre(o, themes, interfaces, index) && AllDeserved(o, themes, interfaces, roles, index)
    requires Adds(o, themes, index, after, Some(role), OpenShown(o, themes, interfaces, Some(role)))
    requires InTree(x, themes) && Deserved(o, themes, interfaces, roles + [role], x, i, r)
    ensures Keyed(o, after, x, i, r)
  {
    DeservedMore(o, themes, interfaces, roles, role, x, i, r);
    if Deserved(o, themes, interfaces, roles, x, i, r) {
      KeyedMore(o, index, after, x, i, r);
    } else {
      assert ToAdd(index, Some(role), OpenShown(o, themes, interfaces, Some(role)), x, i);
    }
  }

  /** After one more role. */
  lemma RoleAdds(o: Options, themes: seq<Item>, interfaces: seq<int>, roles: seq<int>, role: int, index: Index, after: Index)
    requires Themes(themes) && PublicAre(o, themes, interfaces, index)
    requires OnlyDeserved(o, themes, interfaces, roles, index) && AllDeserved(o, themes, interfaces, roles, index)
    requires Adds(o, themes, index, after, Some(role), OpenShown(o, themes, interfaces, Some(role)))
    ensures PublicAre(o, themes, interfaces, after)
    ensures OnlyDeserved(o, themes, interfaces, roles + [role], after)
    ensures AllDeserved(o, themes, interfaces, roles + [role], after)
  {
    RoleAddsOnly(o, themes, interfaces, roles, role, index, after);
    forall x, i, r | InTree(x, themes) && Deserved(o, themes, interfaces, roles + [role], x, i, r) ensures Keyed(o, after, x, i, r) {
      RoleAddsAll(o, themes, interfaces, roles, role, index, after, x, i, r);
    }
  }

  lemma {:induction false} RolePassesAdd(o: Options, themes: seq<Item>, interfaces: seq<int>, done: seq<int>, index: Index, roles: seq<int>)
    requires UniqueIds(themes) && Themes(themes) && PublicAre(o, themes, interfaces, index)
    requires OnlyDeserved(o, themes, interfaces, done, index) && AllDeserved(o, themes, interfaces, done, index)
    ensures var after := RolePasses(o, Plain, index, themes, interfaces, roles);
            && OnlyDeserved(o, themes, interfaces, done + roles, after)
            && AllDeserved(o, themes, interfaces, done + roles, after)
    decreases |roles|
  {
    if roles == [] {
      assert done + roles == done;
    } else {
      forall k | 0 <= k < |themes| ensures InTree(themes[k], themes) {
        ThemeItselfInTree(themes, k);
      }
      RolePassAdds(o, themes, index, themes, interfaces, roles[0]);
      var first := RolePass(o, Plain, index, themes, interfaces, roles[0]);
      RoleAdds(o, themes, interfaces, done, roles[0], index, first);
      RolePassesAdd(o, themes, interfaces, done + [roles[0]], first, roles[1..]);
      assert done + [roles[0]] + roles[1..] == done + roles;
    }
  }

  lemma PublicDeserved(o: Options, themes: seq<Item>, interfaces: seq<int>, index: Index)
    requires Themes(themes) && Adds(o, themes, EMPTY, index, None, OpenShown(o, themes, interfaces, None))
    ensures PublicAre(o, themes, interfaces, index)
    ensures OnlyDeserved(o, themes, interfaces, [], index) && AllDeserved(o, themes, interfaces, [], index)
  {
    var shown := OpenShown(o, themes, interfaces, None);
    forall e | e in index.entries ensures exists x :: EntryFor(o, themes, interfaces, [], e, x) {
      assert e !in EMPTY.entries;
      var x :| InTree(x, themes) && ToAdd(EMPTY, None, shown, x, e.interface) && e == EntryOf(x, e.interface, None);
      assert EntryFor(o, themes, interfaces, [], e, x);
    }
    forall x, i, r | InTree(x, themes) && Deserved(o, themes, interfaces, [], x, i, r) ensures Keyed(o, index, x, i, r) {
      assert ToAdd(EMPTY, None, shown, x, i);
    }
  }

  /** For all options: every entry is of an item that deserves it, and every item that does has one with its name or its id. */
  lemma ImportIs(o: Options, themes: seq<Item>, interfaces: seq<int>, roles: seq<int>)
    requires Themes(themes) && UniqueIds(themes)
    ensures var index := Import(o, Plain, themes, interfaces, roles);
            OnlyDeserved(o, themes, interfaces, roles, index) && AllDeserved(o, themes, interfaces, roles, index)
  {
    forall k | 0 <= k < |themes| ensures InTree(themes[k], themes) {
      ThemeItselfInTree(themes, k);
    }
    var public := PublicPass(o, EMPTY, themes, interfaces);
    PublicPassAdds(o, themes, EMPTY, themes, interfaces);
    PublicDeserved(o, themes, interfaces, public);
    RolePassesAdd(o, themes, interfaces, [], public, roles);
    assert [] + roles == roles;
  }

  lemma ItemOfEntry(o: Options, themes: seq<Item>, interfaces: seq<int>, roles: seq<int>, index: Index, e: Entry) returns (x: Item)
    requires Themes(themes) && OnlyDeserved(o, themes, interfaces, roles, index) && e in index.entries
    ensures EntryFor(o, themes, interfaces, roles, e, x)
  {
    x :| EntryFor(o, themes, interfaces, roles, e, x);
  }

  lemma EntryOfItem(o: Options, themes: seq<Item>, interfaces: seq<int>, roles: seq<int>, index: Index, x: Item, i: int, r: Role)
    returns (e: Entry)
    requires Themes(themes) && UniqueIds(themes) && InTree(x, themes) && Deserved(o, themes, interfaces, roles, x, i, r)
    requires OnlyDeserved(o, themes, interfaces, roles, index) && AllDeserved(o, themes, interfaces, roles, index)
    ensures e in index.entries && e.interface == i && e.role == r && e.name == x.name
    ensures !o.byName ==> e == EntryOf(x, i, r)
  {
    e := StandingEntry(o, themes, interfaces, roles, index, x, i, r);
    var y := ItemOfEntry(o, themes, interfaces, roles, index, e);
    if !o.byName {
      SameId(themes, x, y);
    }
  }

  lemma StandingEntry(o: Options, themes: seq<Item>, interfaces: seq<int>, roles: seq<int>, index: Index, x: Item, i: int, r: Role)
    returns (e: Entry)
    requires Themes(themes) && InTree(x, themes) && Deserved(o, themes, interfaces, roles, x, i, r)
    requires AllDeserved(o, themes, interfaces, roles, index)
    ensures e in index.entries && StandsFor(o, e, x, i, r)
  {
    assert Keyed(o, index, x, i, r);
    e :| e in index.entries && StandsFor(o, e, x, i, r);
  }

  lemma SameId(themes: seq<Item>, x: Item, y: Item)
    requires UniqueIds(themes) && InTree(x, themes) && InTree(y, themes) && x.id == y.id
    ensures x == y
  {
  }

  /** With ids as keys, for all choices of what to export: an item has an entry exactly when it deserves it. */
  lemma ImportHas(o: Options, themes: seq<Item>, interfaces: seq<int>, roles: seq<int>, x: Item, i: int, r: Role)
    requires !o.byName && Themes(themes) && UniqueIds(themes) && InTree(x, themes)
    ensures Has(Import(o, Plain, themes, interfaces, roles), x, i, r) <==> Deserved(o, themes, interfaces, roles, x, i, r)
  {
    ImportIs(o, themes, interfaces, roles);
    HasIffDeserved(o, themes, interfaces, roles, Import(o, Plain, themes, interfaces, roles), x, i, r);
  }

  lemma HasIffDeserved(o: Options, themes: seq<Item>, interfaces: seq<int>, roles: seq<int>, index: Index, x: Item, i: int, r: Role)
    requires !o.byName && Themes(themes) && UniqueIds(themes) && InTree(x, themes)
    requires OnlyDeserved(o, themes, interfaces, roles, index) && AllDeserved(o, themes, interfaces, roles, index)
    ensures Has(index, x, i, r) <==> Deserved(o, themes, interfaces, roles, x, i, r)
  {
    if Has(index, x, i, r) {
      var y := ItemOfEntry(o, themes, interfaces, roles, index, EntryOf(x, i, r));
      assert x == y;
    }
    if Deserved(o, themes, interfaces, roles, x, i, r) {
      var e := EntryOfItem(o, themes, interfaces, roles, index, x, i, r);
    }
  }

  /** Some entry for the interface and the role has this name. */
  ghost predicate HasName(index: Index, name: string, i: int, r: Role) {
    exists e :: e in index.entries && e.name == name && e.interface == i && e.role == r
  }

  /** With names as keys: a name has an entry for an interface and a role exactly when an item with this name deserves it. */
  lemma ImportHasName(o: Options, themes: seq<Item>, interfaces: seq<int>, roles: seq<int>, name: string, i: int, r: Role)
    requires o.byName && Themes(themes) && UniqueIds(themes)
    ensures HasName(Import(o, Plain, themes, interfaces, roles), name, i, r)
       <==> exists x :: InTree(x, themes) && Deserved(o, themes, interfaces, roles, x, i, r) && x.name == name
  {
    ImportIs(o, themes, interfaces, roles);
    HasNameIff(o, themes, interfaces, roles, Import(o, Plain, themes, interfaces, roles), name, i, r);
  }

  lemma HasNameIff(o: Options, themes: seq<Item>, interfaces: seq<int>, roles: seq<int>, index: Index, name: string, i: int, r: Role)
    requires Themes(themes) && UniqueIds(themes)
    requires OnlyDeserved(o, themes, interfaces, roles, index) && AllDeserved(o, themes, interfaces, roles, index)
    ensures HasName(index, name, i, r)
       <==> exists x :: InTree(x, themes) && Deserved(o, themes, interfaces, roles, x, i, r) && x.name == name
  {
    if HasName(index, name, i, r) {
      var e :| e in index.entries && e.name == name && e.interface == i && e.role == r;
      var x := ItemOfEntry(o, themes, interfaces, roles, index, e);
    }
    if x :| InTree(x, themes) && Deserved(o, themes, interfaces, roles, x, i, r) && x.name == name {
      var e := EntryOfItem(o, themes, interfaces, roles, index, x, i, r);
    }
  }

  // The rows of the table and the search.

  /** A row of the full-text search table, without its texts. */
  datatype Row = Row(roleId: Role, interfaceId: int, lang: string, isPublic: bool, action: Action, data: string)

  function RowOf(e: Entry, lang: string): Row {
    Row(e.role, e.interface, lang, e.role.None?, e.action, e.name)
  }

  function RowsOf(e: Entry, languages: seq<string>): seq<Row> {
    seq(|languages|, i requires 0 <= i < |languages| => RowOf(e, languages[i]))
  }

  function Rows(entries: seq<Entry>, languages: seq<string>): seq<Row> {
    if entries == [] then []
    else Rows(entries[..|entries| - 1], languages) + RowsOf(entries[|entries| - 1], languages)
  }

  lemma {:induction false} RowsHave(entries: seq<Entry>, languages: seq<string>, row: Row)
    ensures row in Rows(entries, languages) <==>
            exists e, lang :: e in entries && lang in languages && row == RowOf(e, lang)
    decreases |entries|
  {
    if entries != [] {
      var last := entries[|entries| - 1];
      RowsHave(entries[..|entries| - 1], languages, row);
      assert forall e :: e in entries <==> e == last || e in entries[..|entries| - 1];
      assert row in RowsOf(last, languages) <==> exists lang :: lang in languages && row == RowOf(last, lang) by {
        if lang :| lang in languages && row == RowOf(last, lang) {
          var i :| 0 <= i < |languages| && languages[i] == lang;
          assert RowsOf(last, languages)[i] == row;
        }
      }
    }
  }

  /** Each entry gives one row for each language. */
  lemma {:induction false} RowsCount(entries: seq<Entry>, languages: seq<string>)
    ensures |Rows(entries, languages)| == |entries| * |languages|
    decreases |entries|
  {
    if entries != [] {
      RowsCount(entries[..|entries| - 1], languages);
      assert |entries| * |languages| == (|entries| - 1) * |languages| + |languages|;
    }
  }

  /** The filter of a search by user; others are by interface and by language. A user who is not known sees the public rows and
    * those of the given roles; a known user sees also the rows without a role. */
  predicate UserFilter(row: Row, known: bool, roles: set<int>) {
    row.isPublic || (known && row.roleId.None?) || (row.roleId.Some? && row.roleId.value in roles)
  }

  /** An item that the user may find in an interface: exported in a theme of the interface that is open to everybody or to one
    * of the roles, and showing something to everybody or to the same role. */
  ghost predicate MayFind(o: Options, themes: seq<Item>, x: Item, interface: int, roles: set<int>)
    requires Themes(themes)
  {
    exists k: nat, role: Role ::
      && k < |themes| && (role.Some? ==> role.value in roles)
      && (themes[k].isPublic || (role.Some? && role.value in themes[k].restrictedRoles))
      && interface in themes[k].interfaces && ExportedIn(o, x, themes[k]) && Shows(x, interface, role)
  }

  /** An item the user may see in an interface: on the way from a theme of the interface that is open to everybody or to
    * one of the roles, to something that shows to everybody or to the same role. */
  ghost predicate MaySee(themes: seq<Item>, x: Item, interface: int, roles: set<int>)
    requires Themes(themes)
  {
    exists k: nat, role: Role ::
      && k < |themes| && (role.Some? ==> role.value in roles)
      && (themes[k].isPublic || (role.Some? && role.value in themes[k].restrictedRoles))
      && interface in themes[k].interfaces && Inside(x, themes[k]) && Shows(x, interface, role)
  }

  /** What shows is what holds a layer that is in the interface and public, or has a restriction area of the role. */
  lemma {:induction false} ShowsIff(item: Item, interface: int, role: Role)
    requires NoTheme(item)
    ensures Shows(item, interface, role)
       <==> exists layer :: Inside(layer, item) && LayerShows(layer, interface, role)
    decreases item
  {
    if item.Layer? {
      assert Inside(item, item);
      if k :| role.Some? && 0 <= k < |item.areas| && role.value in item.areas[k] {
        assert item.areas[k] in item.areas;
      }
    } else {
      if k :| 0 <= k < |item.children| && Shows(item.children[k], interface, role) {
        ShowsIff(item.children[k], interface, role);
        var layer :| Inside(layer, item.children[k]) && LayerShows(layer, interface, role);
        assert Inside(layer, item);
      }
      if layer :| Inside(layer, item) && LayerShows(layer, interface, role) {
        var k :| 0 <= k < |item.children| && Inside(layer, item.children[k]);
        ShowsIff(item.children[k], interface, role);
      }
    }
  }

  ghost predicate LayerShows(layer: Item, interface: int, role: Role) {
    && layer.Layer? && interface in layer.interfaces
    && (layer.isPublic || exists area :: area in layer.areas && role.Some? && role.value in area)
  }

  lemma {:induction false} InsideBelow(o: Options, x: Item, item: Item)
    requires o.folders && o.layers && NoTheme(item) && Inside(x, item)
    ensures !x.Theme? && (x == item || ExportedBelow(o, x, item))
    decreases item
  {
    if x != item {
      var k :| 0 <= k < |item.children| && Inside(x, item.children[k]);
      InsideBelow(o, x, item.children[k]);
      BelowGroup(o, x, item);
    }
  }

  lemma ExportedInside(o: Options, x: Item, theme: Item)
    requires theme.Theme? && ExportedIn(o, x, theme)
    ensures Inside(x, theme)
  {
    if x in theme.children {
      var k :| 0 <= k < |theme.children| && theme.children[k] == x;
      assert Inside(x, theme.children[k]);
    } else if x != theme {
      var g :| Inside(g, theme) && HoldsExported(o, g, x);
      var k :| 0 <= k < |g.children| && g.children[k] == x;
      assert Inside(x, g.children[k]);
      InsideTransitive(x, g, theme);
    }
  }

  /** With all exports on, everything in a theme is exported. */
  lemma AllExported(o: Options, x: Item, theme: Item)
    requires o.themes && o.blocks && o.folders && o.layers && WellFormedTheme(theme)
    ensures ExportedIn(o, x, theme) <==> Inside(x, theme)
  {
    if ExportedIn(o, x, theme) {
      ExportedInside(o, x, theme);
    }
    if Inside(x, theme) && x != theme {
      var k :| 0 <= k < |theme.children| && Inside(x, theme.children[k]);
      InsideBelow(o, x, theme.children[k]);
      BelowGroup(o, x, theme);
    }
  }

  /** Every role a layer or a theme refers to is in the table of roles. */
  ghost predicate KnownRoles(themes: seq<Item>, roles: seq<int>)
    requires Themes(themes)
  {
    forall k, r :: 0 <= k < |themes| && (r in themes[k].restrictedRoles || r in AllAreaRoles(themes[k].children)) ==> r in roles
  }

  /** What is done when an item is picked from the results. */
  function ActionFor(x: Item): Action {
    if x.Theme? then AddTheme else if x.Group? then AddGroup else AddLayer
  }

  /** The main result, for all options: a user finds a name iff the user may find an item with this name; without
    * --duplicate-name also with the action that goes with the item. */
  lemma FoundIffMayFind(o: Options, themes: seq<Item>, interfaces: seq<int>, allRoles: seq<int>, languages: seq<string>,
                        known: bool, roles: set<int>, interface: int, lang: string, action: Action, name: string)
    requires Themes(themes) && UniqueIds(themes) && KnownRoles(themes, allRoles)
    requires interface in interfaces && lang in languages
    ensures (exists row :: row in Rows(Import(o, Collected, themes, interfaces, allRoles).entries, languages)
                           && UserFilter(row, known, roles) && row.interfaceId == interface && row.lang == lang
                           && row.data == name
                           && (o.byName || row.action == action))
       <==> (exists x :: MayFind(o, themes, x, interface, roles) && x.name == name && (o.byName || ActionFor(x) == action))
  {
    var entries := Import(o, Collected, themes, interfaces, allRoles).entries;
    SkippingLosesNothing(o, themes, interfaces, allRoles);
    if row :| row in Rows(entries, languages) && UserFilter(row, known, roles) && row.interfaceId == interface
              && row.lang == lang && row.data == name
              && (o.byName || row.action == action) {
      RowsHave(entries, languages, row);
      var e, l :| e in entries && l in languages && row == RowOf(e, l);
      var x := EntrySeen(o, themes, interfaces, allRoles, e, roles);
      assert MayFind(o, themes, x, interface, roles) && x.name == name && ActionFor(x) == row.action;
    }
    if x :| MayFind(o, themes, x, interface, roles) && x.name == name && (o.byName || ActionFor(x) == action) {
      var e := SeenEntry(o, themes, interfaces, allRoles, x, interface, roles);
      RowsHave(entries, languages, RowOf(e, lang));
      var row := RowOf(e, lang);
      assert row in Rows(entries, languages) && UserFilter(row, known, roles) && row.interfaceId == interface && row.lang == lang;
    }
  }

  /** With ids as keys and all exports on: a user finds an item iff the user may see it. */
  lemma FoundIffMaySee(o: Options, themes: seq<Item>, interfaces: seq<int>, allRoles: seq<int>, languages: seq<string>,
                       known: bool, roles: set<int>, interface: int, lang: string, action: Action, name: string)
    requires o.All() && Themes(themes) && UniqueIds(themes) && KnownRoles(themes, allRoles)
    requires interface in interfaces && lang in languages
    ensures (exists row :: row in Rows(Import(o, Collected, themes, interfaces, allRoles).entries, languages)
                           && UserFilter(row, known, roles) && row.interfaceId == interface && row.lang == lang
                           && row.action == action && row.data == name)
       <==> (exists x :: MaySee(themes, x, interface, roles) && ActionFor(x) == action && x.name == name)
  {
    FoundIffMayFind(o, themes, interfaces, allRoles, languages, known, roles, interface, lang, action, name);
    forall x ensures MayFind(o, themes, x, interface, roles) <==> MaySee(themes, x, interface, roles) {
      forall k | 0 <= k < |themes| ensures ExportedIn(o, x, themes[k]) <==> Inside(x, themes[k]) {
        AllExported(o, x, themes[k]);
      }
    }
  }

  lemma OpenlyShowsAt(o: Options, themes: seq<Item>, interfaces: seq<int>, role: Role, x: Item, interface: int) returns (k: nat)
    requires Themes(themes) && OpenlyShows(o, themes, interfaces, role, x, interface)
    ensures k < |themes| && ThemeOpen(themes[k], role) && interface in themes[k].interfaces
    ensures ExportedIn(o, x, themes[k]) && Shows(x, interface, role) && InTree(x, themes)
  {
    k :| 0 <= k < |themes| && ThemeOpen(themes[k], role) && ShowsIn(o, themes[k], interfaces, role, x, interface);
    ExportedInside(o, x, themes[k]);
  }

  /** What deserves an entry has one, also when roles are skipped. */
  lemma SeenIsIndexed(o: Options, themes: seq<Item>, interfaces: seq<int>, roles: seq<int>, x: Item, interface: int, role: Role)
    requires !o.byName && Themes(themes) && UniqueIds(themes) && Deserved(o, themes, interfaces, roles, x, interface, role)
    ensures EntryOf(x, interface, role) in Import(o, Collected, themes, interfaces, roles).entries
  {
    SkippingLosesNothing(o, themes, interfaces, roles);
    var k := OpenlyShowsAt(o, themes, interfaces, role, x, interface);
    ImportHas(o, themes, interfaces, roles, x, interface, role);
  }

  /** Two items with the same name that deserve an entry: without --duplicate-name both are indexed, with it not both. */
  lemma DuplicateNames(o: Options, themes: seq<Item>, interfaces: seq<int>, roles: seq<int>, x: Item, y: Item,
                       interface: int, role: Role)
    requires Themes(themes) && UniqueIds(themes) && x != y && x.name == y.name
    requires Deserved(o, themes, interfaces, roles, x, interface, role) && Deserved(o, themes, interfaces, roles, y, interface, role)
    ensures EntryOf(x, interface, role) != EntryOf(y, interface, role)
    ensures var both := Import(o.(byName := false), Collected, themes, interfaces, roles).entries;
            EntryOf(x, interface, role) in both && EntryOf(y, interface, role) in both
    ensures var named := Import(o.(byName := true), Collected, themes, interfaces, roles).entries;
            !(EntryOf(x, interface, role) in named && EntryOf(y, interface, role) in named)
  {
    SameDeserved(o, o.(byName := false), themes, interfaces, roles, x, interface, role);
    SameDeserved(o, o.(byName := false), themes, interfaces, roles, y, interface, role);
    SeenIsIndexed(o.(byName := false), themes, interfaces, roles, x, interface, role);
    SeenIsIndexed(o.(byName := false), themes, interfaces, roles, y, interface, role);
    assert x.id != y.id by {
      var j := OpenlyShowsAt(o, themes, interfaces, role, x, interface);
      var k := OpenlyShowsAt(o, themes, interfaces, role, y, interface);
    }
    NamedOnce(o.(byName := true), themes, interfaces, roles, EntryOf(x, interface, role), EntryOf(y, interface, role));
  }

  lemma NamedOnce(o: Options, themes: seq<Item>, interfaces: seq<int>, roles: seq<int>, d: Entry, e: Entry)
    requires o.byName && Themes(themes) && d != e && d.name == e.name && d.interface == e.interface && d.role == e.role
    ensures var named := Import(o, Collected, themes, interfaces, roles).entries; !(d in named && e in named)
  {
    KeyOnce(o, Import(o, Collected, themes, interfaces, roles), d, e);
  }

  lemma KeyOnce(o: Options, index: Index, d: Entry, e: Entry)
    requires DistinctKeys(o, index) && d != e && KeyOf(o, d) == KeyOf(o, e)
    ensures !(d in index.entries && e in index.entries)
  {
  }

  lemma SameDeserved(o: Options, p: Options, themes: seq<Item>, interfaces: seq<int>, roles: seq<int>, x: Item, i: int, r: Role)
    requires Themes(themes) && p == o.(byName := p.byName)
    ensures Deserved(o, themes, interfaces, roles, x, i, r) <==> Deserved(p, themes, interfaces, roles, x, i, r)
  {
    SameShows(o, p, themes, interfaces, x, i, r);
    SameShows(o, p, themes, interfaces, x, i, None);
  }

  lemma SameShows(o: Options, p: Options, themes: seq<Item>, interfaces: seq<int>, x: Item, i: int, r: Role)
    requires Themes(themes) && p == o.(byName := p.byName)
    ensures OpenlyShows(o, themes, interfaces, r, x, i) <==> OpenlyShows(p, themes, interfaces, r, x, i)
  {
    forall k | 0 <= k < |themes| ensures ShowsIn(o, themes[k], interfaces, r, x, i) <==> ShowsIn(p, themes[k], interfaces, r, x, i) {
      assert forall g :: HoldsExported(o, g, x) <==> HoldsExported(p, g, x);
    }
  }

  lemma EntrySeen(o: Options, themes: seq<Item>, interfaces: seq<int>, allRoles: seq<int>, e: Entry, roles: set<int>)
    returns (x: Item)
    requires Themes(themes) && UniqueIds(themes)
    requires e in Import(o, Plain, themes, interfaces, allRoles).entries && (e.role.Some? ==> e.role.value in roles)
    ensures MayFind(o, themes, x, e.interface, roles) && ActionFor(x) == e.action && x.name == e.name
  {
    ImportIs(o, themes, interfaces, allRoles);
    x := ItemOfEntry(o, themes, interfaces, allRoles, Import(o, Plain, themes, interfaces, allRoles), e);
    var k := OpenlyShowsAt(o, themes, interfaces, e.role, x, e.interface);
  }

  /** The role that deserves the entry: none when everybody sees the item. */
  lemma FoundDeserved(o: Options, themes: seq<Item>, interfaces: seq<int>, allRoles: seq<int>, x: Item, interface: int, roles: set<int>)
    returns (r: Role)
    requires Themes(themes) && KnownRoles(themes, allRoles)
    requires interface in interfaces && MayFind(o, themes, x, interface, roles)
    ensures (r.Some? ==> r.value in roles) && InTree(x, themes) && Deserved(o, themes, interfaces, allRoles, x, interface, r)
  {
    var k: nat, role: Role :|
      && k < |themes| && (role.Some? ==> role.value in roles)
      && (themes[k].isPublic || (role.Some? && role.value in themes[k].restrictedRoles))
      && interface in themes[k].interfaces && ExportedIn(o, x, themes[k]) && Shows(x, interface, role);
    ExportedInside(o, x, themes[k]);
    assert ShowsIn(o, themes[k], interfaces, role, x, interface) && OpenlyShows(o, themes, interfaces, role, x, interface);
    if role.Some? && role.value !in allRoles {
      UnknownRoleSeesPublic(themes[k], x, interface, role.value);
      assert ShowsIn(o, themes[k], interfaces, None, x, interface);
    }
    r := if OpenlyShows(o, themes, interfaces, None, x, interface) then None else role;
  }

  lemma SeenEntry(o: Options, themes: seq<Item>, interfaces: seq<int>, allRoles: seq<int>, x: Item, interface: int, roles: set<int>)
    returns (e: Entry)
    requires Themes(themes) && UniqueIds(themes) && KnownRoles(themes, allRoles)
    requires interface in interfaces && MayFind(o, themes, x, interface, roles)
    ensures e in Import(o, Plain, themes, interfaces, allRoles).entries
    ensures e.role.Some? ==> e.role.value in roles
    ensures e.interface == interface && e.name == x.name && (!o.byName ==> e.action == ActionFor(x))
  {
    ImportIs(o, themes, interfaces, allRoles);
    e := SeenEntryIn(o, themes, interfaces, allRoles, Import(o, Plain, themes, interfaces, allRoles), x, interface, roles);
  }

  lemma SeenEntryIn(o: Options, themes: seq<Item>, interfaces: seq<int>, allRoles: seq<int>, index: Index, x: Item, interface: int,
                    roles: set<int>) returns (e: Entry)
    requires Themes(themes) && UniqueIds(themes) && KnownRoles(themes, allRoles)
    requires OnlyDeserved(o, themes, interfaces, allRoles, index) && AllDeserved(o, themes, interfaces, allRoles, index)
    requires interface in interfaces && MayFind(o, themes, x, interface, roles)
    ensures e in index.entries && (e.role.Some? ==> e.role.value in roles)
    ensures e.interface == interface && e.name == x.name && (!o.byName ==> e.action == ActionFor(x))
  {
    var r := FoundDeserved(o, themes, interfaces, allRoles, x, interface, roles);
    e := EntryOfItem(o, themes, interfaces, allRoles, index, x, interface, r);
  }

  lemma {:induction false} AreaRolesInside(x: Item, item: Item, r: int)
    requires NoTheme(item) && Inside(x, item) && r !in AreaRoles(item)
    ensures NoTheme(x) && r !in AreaRoles(x)
    decreases item
  {
    if x != item {
      var k :| 0 <= k < |item.children| && Inside(x, item.children[k]);
      AreaRolesOfAll(item.children, r);
      AreaRolesInside(x, item.children[k], r);
    }
  }

  lemma UnknownRoleSeesPublic(theme: Item, x: Item, interface: int, r: int)
    requires WellFormedTheme(theme) && r !in theme.restrictedRoles && r !in AllAreaRoles(theme.children)
    requires ThemeOpen(theme, Some(r)) && Inside(x, theme) && Shows(x, interface, Some(r))
    ensures theme.isPublic && Shows(x, interface, None)
  {
    if x == theme {
      var k :| 0 <= k < |theme.children| && Shows(theme.children[k], interface, Some(r));
      AreaRolesOfAll(theme.children, r);
      ShowsLikePublic(theme.children[k], interface, r);
    } else {
      var k :| 0 <= k < |theme.children| && Inside(x, theme.children[k]);
      AreaRolesOfAll(theme.children, r);
      AreaRolesInside(x, theme.children[k], r);
      ShowsLikePublic(x, interface, r);
    }
  }

  // Two layers with the same name.

  const FIRST := Layer(2, "a", true, {0}, [])
  const SECOND := Layer(3, "a", true, {0}, [])
  const PAIR := Group(1, "g", [FIRST, SECOND])
  const HOLDER := Theme(0, "t", true, {0}, {}, [PAIR])

  lemma InHolder(x: Item)
    requires InTree(x, [HOLDER])
    ensures x in [HOLDER, PAIR, FIRST, SECOND]
  {
    assert Inside(x, HOLDER);
    if x != HOLDER {
      assert Inside(x, PAIR);
    }
  }

  lemma HolderHas(o: Options, x: Item, k: nat)
    requires k < 2 && x == [FIRST, SECOND][k] && o.layers
    ensures Themes([HOLDER]) && Deserved(o, [HOLDER], [0], [], x, 0, None)
  {
    assert PAIR.children[k] == x && HOLDER.children[0] == PAIR;
    assert NoTheme(FIRST) && NoTheme(SECOND) && NoTheme(PAIR) && WellFormedTheme(HOLDER);
    assert Inside(PAIR, HOLDER.children[0]) && Inside(PAIR, HOLDER) && x in PAIR.children;
    assert ExportedBelow(o, x, HOLDER) && ExportedIn(o, x, HOLDER);
    assert [HOLDER][0] == HOLDER && ShowsIn(o, HOLDER, [0], None, x, 0);
  }

  /** Both layers are indexed without --duplicate-name, and not both with it. */
  lemma SameNameTwice(o: Options)
    requires o.layers
    ensures Themes([HOLDER]) && FIRST.name == SECOND.name && UniqueIds([HOLDER])
    ensures var both := Import(o.(byName := false), Collected, [HOLDER], [0], []).entries;
            EntryOf(FIRST, 0, None) in both && EntryOf(SECOND, 0, None) in both
    ensures var named := Import(o.(byName := true), Collected, [HOLDER], [0], []).entries;
            !(EntryOf(FIRST, 0, None) in named && EntryOf(SECOND, 0, None) in named)
  {
    forall x, y | InTree(x, [HOLDER]) && InTree(y, [HOLDER]) && x.id == y.id ensures x == y {
      InHolder(x);
      InHolder(y);
    }
    HolderHas(o, FIRST, 0);
    HolderHas(o, SECOND, 1);
    DuplicateNames(o, [HOLDER], [0], [], FIRST, SECOND, 0, None);
  }
}
