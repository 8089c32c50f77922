/** Skipping the roles that no restriction area names loses nothing: the import with the collected roles is the import
  * with the plain test of whether the theme is open to the role, for every tree and every combination of options. */
module FullTextSkips {
  import opened Wrappers
  import opened ThemeTree
  import opened FullTextIndex

  predicate Grows(a: Index, b: Index) {
    a.publicThemes <= b.publicThemes && a.publicGroups <= b.publicGroups && a.publicLayers <= b.publicLayers
  }

  /** What shows to everybody in an item, and is exported, is marked public. */
  predicate Covered(o: Options, index: Index, item: Item, interface: int, exported: bool)
    decreases item
  {
    && (exported && Shows(item, interface, None) ==> (interface, item.id) in index.Public(ActionOf(item)))
    && (item.Group? ==>
          forall k :: 0 <= k < |item.children| ==>
            Covered(o, index, item.children[k], interface, Exported(o, item.children[k])))
  }

  predicate CoveredTheme(o: Options, index: Index, theme: Item, interface: int)
    requires theme.Theme?
  {
    interface in theme.interfaces ==>
      && (o.themes && AnyShows(theme.children, interface, None) ==> (interface, theme.id) in index.publicThemes)
      && (forall k :: 0 <= k < |theme.children| ==> Covered(o, index, theme.children[k], interface, o.blocks))
  }

  lemma {:induction false} CoveredGrows(o: Options, a: Index, b: Index, item: Item, interface: int, exported: bool)
    requires Grows(a, b) && Covered(o, a, item, interface, exported)
    ensures Covered(o, b, item, interface, exported)
    decreases item
  {
    if item.Group? {
      forall k | 0 <= k < |item.children|
        ensures Covered(o, b, item.children[k], interface, Exported(o, item.children[k]))
      {
        CoveredGrows(o, a, b, item.children[k], interface, Exported(o, item.children[k]));
      }
    }
  }

  lemma {:induction false} AddItemGrows(o: Options, index: Index, item: Item, interface: int, role: Role, exported: bool)
    ensures Grows(index, AddItem(o, index, item, interface, role, exported).0)
    decreases item, 1
  {
    if item.Group? {
      AddChildrenGrows(o, index, item.children, interface, role);
    }
  }

  lemma {:induction false} AddChildrenGrows(o: Options, index: Index, children: seq<Item>, interface: int, role: Role)
    ensures Grows(index, AddChildren(o, index, children, interface, role).0)
    decreases children, 0
  {
    if children != [] {
      AddItemGrows(o, index, children[0], interface, role, Exported(o, children[0]));
      AddChildrenGrows(o, AddItem(o, index, children[0], interface, role, Exported(o, children[0])).0, children[1..],
                       interface, role);
    }
  }

  lemma {:induction false} AddBlocksGrows(o: Options, index: Index, blocks: seq<Item>, interface: int, role: Role)
    ensures Grows(index, AddBlocks(o, index, blocks, interface, role).0)
    decreases |blocks|
  {
    if blocks != [] {
      AddItemGrows(o, index, blocks[0], interface, role, o.blocks);
      AddBlocksGrows(o, AddItem(o, index, blocks[0], interface, role, o.blocks).0, blocks[1..], interface, role);
    }
  }

  lemma {:induction false} AddThemeAllGrows(o: Options, index: Index, theme: Item, interfaces: seq<int>, role: Role)
    requires theme.Theme?
    ensures Grows(index, AddThemeAll(o, index, theme, interfaces, role))
    decreases |interfaces|
  {
    if interfaces != [] {
      AddBlocksGrows(o, index, theme.children, interfaces[0], role);
      AddThemeAllGrows(o, AddThemeIn(o, index, theme, interfaces[0], role), theme, interfaces[1..], role);
    }
  }

  // The pass for everybody covers.

  lemma {:induction false} PublicCoversItem(o: Options, index: Index, item: Item, interface: int, exported: bool)
    requires NoTheme(item)
    ensures Covered(o, AddItem(o, index, item, interface, None, exported).0, item, interface, exported)
    decreases item, 1
  {
    FillIsShows(o, index, item, interface, None, exported);
    if item.Group? {
      var below := AddChildren(o, index, item.children, interface, None).0;
      var after := AddItem(o, index, item, interface, None, exported).0;
      PublicCoversChildren(o, index, item.children, interface);
      forall k | 0 <= k < |item.children|
        ensures Covered(o, after, item.children[k], interface, Exported(o, item.children[k]))
      {
        CoveredGrows(o, below, after, item.children[k], interface, Exported(o, item.children[k]));
      }
    }
  }

  lemma {:induction false} PublicCoversChildren(o: Options, index: Index, children: seq<Item>, interface: int)
    requires forall k :: 0 <= k < |children| ==> NoTheme(children[k])
    ensures forall k :: 0 <= k < |children| ==>
              Covered(o, AddChildren(o, index, children, interface, None).0, children[k], interface, Exported(o, children[k]))
    decreases children, 0
  {
    if children != [] {
      var first := AddItem(o, index, children[0], interface, None, Exported(o, children[0])).0;
      var after := AddChildren(o, index, children, interface, None).0;
      PublicCoversItem(o, index, children[0], interface, Exported(o, children[0]));
      AddChildrenGrows(o, first, children[1..], interface, None);
      CoveredGrows(o, first, after, children[0], interface, Exported(o, children[0]));
      PublicCoversChildren(o, first, children[1..], interface);
      forall k | 1 <= k < |children| ensures Covered(o, after, children[k], interface, Exported(o, children[k])) {
        assert children[k] == children[1..][k - 1];
      }
    }
  }

  lemma {:induction false} PublicCoversBlocks(o: Options, index: Index, blocks: seq<Item>, interface: int)
    requires forall k :: 0 <= k < |blocks| ==> NoTheme(blocks[k])
    ensures forall k :: 0 <= k < |blocks| ==>
              Covered(o, AddBlocks(o, index, blocks, interface, None).0, blocks[k], interface, o.blocks)
    decreases |blocks|
  {
    if blocks != [] {
      var first := AddItem(o, index, blocks[0], interface, None, o.blocks).0;
      var after := AddBlocks(o, index, blocks, interface, None).0;
      PublicCoversItem(o, index, blocks[0], interface, o.blocks);
      AddBlocksGrows(o, first, blocks[1..], interface, None);
      CoveredGrows(o, first, after, blocks[0], interface, o.blocks);
      PublicCoversBlocks(o, first, blocks[1..], interface);
      forall k | 1 <= k < |blocks| ensures Covered(o, after, blocks[k], interface, o.blocks) {
        assert blocks[k] == blocks[1..][k - 1];
      }
    }
  }

  lemma CoveredThemeGrows(o: Options, a: Index, b: Index, theme: Item, interface: int)
    requires theme.Theme? && Grows(a, b) && CoveredTheme(o, a, theme, interface)
    ensures CoveredTheme(o, b, theme, interface)
  {
    if interface in theme.interfaces {
      forall k | 0 <= k < |theme.children| ensures Covered(o, b, theme.children[k], interface, o.blocks) {
        CoveredGrows(o, a, b, theme.children[k], interface, o.blocks);
      }
    }
  }

  lemma {:induction false} PublicCoversTheme(o: Options, index: Index, theme: Item, interfaces: seq<int>)
    requires WellFormedTheme(theme)
    ensures forall interface :: interface in interfaces ==>
              CoveredTheme(o, AddThemeAll(o, index, theme, interfaces, None), theme, interface)
    decreases |interfaces|
  {
    if interfaces != [] {
      var first := AddThemeIn(o, index, theme, interfaces[0], None);
      var after := AddThemeAll(o, index, theme, interfaces, None);
      PublicCoversTheme(o, first, theme, interfaces[1..]);
      AddThemeAllGrows(o, first, theme, interfaces[1..], None);
      var below := AddBlocks(o, index, theme.children, interfaces[0], None).0;
      PublicCoversBlocks(o, index, theme.children, interfaces[0]);
      BlocksFill(o, index, theme.children, interfaces[0], None);
      forall k | 0 <= k < |theme.children| && interfaces[0] in theme.interfaces
        ensures Covered(o, first, theme.children[k], interfaces[0], o.blocks)
      {
        CoveredGrows(o, below, first, theme.children[k], interfaces[0], o.blocks);
      }
      CoveredThemeGrows(o, first, after, theme, interfaces[0]);
      forall interface | interface in interfaces ensures CoveredTheme(o, after, theme, interface) {
        assert interface == interfaces[0] || interface in interfaces[1..];
      }
    }
  }

  // A role that no restriction area names adds nothing to what is covered.

  lemma {:induction false} NothingNewItem(o: Options, index: Index, item: Item, interface: int, r: int, exported: bool)
    requires NoTheme(item) && Covered(o, index, item, interface, exported) && r !in AreaRoles(item)
    ensures AddItem(o, index, item, interface, Some(r), exported).0 == index
    decreases item, 1
  {
    ShowsLikePublic(item, interface, r);
    FillIsShows(o, index, item, interface, Some(r), exported);
    if item.Group? {
      NothingNewChildren(o, index, item.children, interface, r);
    }
  }

  lemma {:induction false} NothingNewChildren(o: Options, index: Index, children: seq<Item>, interface: int, r: int)
    requires forall k :: 0 <= k < |children| ==>
               NoTheme(children[k]) && Covered(o, index, children[k], interface, Exported(o, children[k]))
    requires r !in AllAreaRoles(children)
    ensures AddChildren(o, index, children, interface, Some(r)).0 == index
    decreases children, 0
  {
    if children != [] {
      NothingNewItem(o, index, children[0], interface, r, Exported(o, children[0]));
      NothingNewChildren(o, index, children[1..], interface, r);
    }
  }

  lemma {:induction false} NothingNewBlocks(o: Options, index: Index, blocks: seq<Item>, interface: int, r: int)
    requires forall k :: 0 <= k < |blocks| ==> NoTheme(blocks[k]) && Covered(o, index, blocks[k], interface, o.blocks)
    requires r !in AllAreaRoles(blocks)
    ensures AddBlocks(o, index, blocks, interface, Some(r)).0 == index
    ensures AnyShows(blocks, interface, Some(r)) <==> AnyShows(blocks, interface, None)
    decreases |blocks|
  {
    if blocks != [] {
      NothingNewItem(o, index, blocks[0], interface, r, o.blocks);
      ShowsLikePublic(blocks[0], interface, r);
      NothingNewBlocks(o, index, blocks[1..], interface, r);
      AnyShowsCons(blocks, interface, Some(r));
      AnyShowsCons(blocks, interface, None);
    }
  }

  lemma {:induction false} NothingNewTheme(o: Options, index: Index, theme: Item, interfaces: seq<int>, r: int)
    requires WellFormedTheme(theme) && theme.isPublic && r !in ThemeRoles(theme)
    requires forall interface :: interface in interfaces ==> CoveredTheme(o, index, theme, interface)
    ensures AddThemeAll(o, index, theme, interfaces, Some(r)) == index
    decreases |interfaces|
  {
    if interfaces != [] {
      assert CoveredTheme(o, index, theme, interfaces[0]);
      if interfaces[0] in theme.interfaces {
        NothingNewBlocks(o, index, theme.children, interfaces[0], r);
        BlocksFill(o, index, theme.children, interfaces[0], Some(r));
      }
      assert forall interface :: interface in interfaces[1..] ==> interface in interfaces;
      NothingNewTheme(o, index, theme, interfaces[1..], r);
    }
  }

  // The passes.

  predicate PublicThemesCovered(o: Options, index: Index, themes: seq<Item>, interfaces: seq<int>)
    requires Themes(themes)
  {
    forall k, i :: 0 <= k < |themes| && themes[k].isPublic && 0 <= i < |interfaces| ==>
      CoveredTheme(o, index, themes[k], interfaces[i])
  }

  lemma PublicThemesCoveredGrows(o: Options, a: Index, b: Index, themes: seq<Item>, interfaces: seq<int>)
    requires Themes(themes) && Grows(a, b) && PublicThemesCovered(o, a, themes, interfaces)
    ensures PublicThemesCovered(o, b, themes, interfaces)
  {
    forall k, i | 0 <= k < |themes| && themes[k].isPublic && 0 <= i < |interfaces|
      ensures CoveredTheme(o, b, themes[k], interfaces[i])
    {
      CoveredThemeGrows(o, a, b, themes[k], interfaces[i]);
    }
  }

  lemma {:induction false} PublicPassGrows(o: Options, index: Index, themes: seq<Item>, interfaces: seq<int>)
    requires Themes(themes)
    ensures Grows(index, PublicPass(o, index, themes, interfaces))
    decreases |themes|
  {
    if themes != [] {
      AddThemeAllGrows(o, index, themes[0], interfaces, None);
      var first := if themes[0].isPublic then AddThemeAll(o, index, themes[0], interfaces, None) else index;
      PublicPassGrows(o, first, themes[1..], interfaces);
    }
  }

  lemma {:induction false} PublicPassCovers(o: Options, index: Index, themes: seq<Item>, interfaces: seq<int>)
    requires Themes(themes)
    ensures PublicThemesCovered(o, PublicPass(o, index, themes, interfaces), themes, interfaces)
    decreases |themes|
  {
    if themes != [] {
      var first := if themes[0].isPublic then AddThemeAll(o, index, themes[0], interfaces, None) else index;
      var after := PublicPass(o, index, themes, interfaces);
      PublicPassCovers(o, first, themes[1..], interfaces);
      PublicPassGrows(o, first, themes[1..], interfaces);
      PublicCoversTheme(o, index, themes[0], interfaces);
      forall k, i | 0 <= k < |themes| && themes[k].isPublic && 0 <= i < |interfaces|
        ensures CoveredTheme(o, after, themes[k], interfaces[i])
      {
        if k == 0 {
          CoveredThemeGrows(o, first, after, themes[0], interfaces[i]);
        } else {
          assert themes[k] == themes[1..][k - 1];
        }
      }
    }
  }

  lemma SameStep(o: Options, index: Index, theme: Item, interfaces: seq<int>, r: int)
    requires WellFormedTheme(theme)
    requires theme.isPublic ==> forall i :: 0 <= i < |interfaces| ==> CoveredTheme(o, index, theme, interfaces[i])
    ensures AddThemeFor(o, Collected, index, theme, interfaces, Some(r)) == AddThemeFor(o, Plain, index, theme, interfaces, Some(r))
    ensures Grows(index, AddThemeFor(o, Plain, index, theme, interfaces, Some(r)))
  {
    AddThemeAllGrows(o, index, theme, interfaces, Some(r));
    if theme.isPublic && r !in ThemeRoles(theme) {
      NothingNewTheme(o, index, theme, interfaces, r);
    }
  }

  lemma {:induction false} SameRolePass(o: Options, index: Index, themes: seq<Item>, interfaces: seq<int>, r: int)
    requires Themes(themes) && PublicThemesCovered(o, index, themes, interfaces)
    ensures RolePass(o, Collected, index, themes, interfaces, r) == RolePass(o, Plain, index, themes, interfaces, r)
    ensures Grows(index, RolePass(o, Plain, index, themes, interfaces, r))
    decreases |themes|
  {
    if themes != [] {
      var first := AddThemeFor(o, Plain, index, themes[0], interfaces, Some(r));
      SameStep(o, index, themes[0], interfaces, r);
      PublicThemesCoveredGrows(o, index, first, themes, interfaces);
      forall k, i | 0 <= k < |themes[1..]| && themes[1..][k].isPublic && 0 <= i < |interfaces|
        ensures CoveredTheme(o, first, themes[1..][k], interfaces[i])
      {
        assert themes[1..][k] == themes[k + 1];
      }
      SameRolePass(o, first, themes[1..], interfaces, r);
    }
  }

  lemma {:induction false} SameRolePasses(o: Options, index: Index, themes: seq<Item>, interfaces: seq<int>, roles: seq<int>)
    requires Themes(themes) && PublicThemesCovered(o, index, themes, interfaces)
    ensures RolePasses(o, Collected, index, themes, interfaces, roles) == RolePasses(o, Plain, index, themes, interfaces, roles)
    decreases |roles|
  {
    if roles != [] {
      SameRolePass(o, index, themes, interfaces, roles[0]);
      var first := RolePass(o, Plain, index, themes, interfaces, roles[0]);
      PublicThemesCoveredGrows(o, index, first, themes, interfaces);
      SameRolePasses(o, first, themes, interfaces, roles[1..]);
    }
  }

  /** The main result: the same entries in the same order, the same public sets. */
  lemma SkippingLosesNothing(o: Options, themes: seq<Item>, interfaces: seq<int>, roles: seq<int>)
    requires Themes(themes)
    ensures Import(o, Collected, themes, interfaces, roles) == Import(o, Plain, themes, interfaces, roles)
  {
    PublicPassCovers(o, EMPTY, themes, interfaces);
    SameRolePasses(o, PublicPass(o, EMPTY, themes, interfaces), themes, interfaces, roles);
  }
}
