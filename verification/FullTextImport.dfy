/** The import of theme2fts as the program runs it: nested loops that fill the fields of one object. Every step is proved
  * to do what the function of FullTextIndex of the same name does. */
module FullTextImport {
  import opened Wrappers
  import opened ThemeTree
  import opened FullTextIndex
  import opened FullTextVisibility
  import FullTextSkips

  ghost function Keys(o: Options, entries: seq<Entry>): set<Key> {
    set i | 0 <= i < |entries| :: KeyOf(o, entries[i])
  }

  class Import {
    const options: Options
    const interfaces: seq<int>
    const languages: seq<string>
    var imported: set<Key>
    // The public_* dictionaries of sets by interface, as sets of pairs of an interface and an id.
    var publicTheme: set<(int, int)>
    var publicGroup: set<(int, int)>
    var publicLayer: set<(int, int)>
    var themeRoles: map<int, set<int>>
    var fullTextSearch: seq<Row>
    /** The entries the rows were made of. */
    ghost var entries: seq<Entry>

    ghost function Index(): Index
      reads this
    {
      FullTextIndex.Index(entries, publicTheme, publicGroup, publicLayer)
    }

    ghost predicate Valid()
      reads this
    {
      imported == Keys(options, entries) && fullTextSearch == Rows(entries, languages)
    }

    method AddFts(item: Item, interface: int, role: Role)
      requires Valid()
      modifies this`imported, this`fullTextSearch, this`entries
      ensures Valid() && Index() == FullTextIndex.AddFts(options, old(Index()), EntryOf(item, interface, role))
    {
      var e := EntryOf(item, interface, role);
      var key := KeyOf(options, e);
      assert key in imported <==> Imported(options, entries, key);
      if key !in imported {
        imported := imported + {key};
        var k := 0;
        while k < |languages|
          invariant 0 <= k <= |languages|
          invariant fullTextSearch == old(fullTextSearch) + RowsOf(e, languages)[..k]
          invariant entries == old(entries) && imported == old(imported) + {key}
        {
          fullTextSearch := fullTextSearch + [RowOf(e, languages[k])];
          k := k + 1;
        }
        assert RowsOf(e, languages)[..k] == RowsOf(e, languages);
        entries := entries + [e];
        assert entries[..|entries| - 1] == old(entries);
        assert Keys(options, entries) == Keys(options, old(entries)) + {key} by {
          assert forall i :: 0 <= i < |old(entries)| ==> entries[i] == old(entries)[i];
          assert entries[|entries| - 1] == e;
        }
      }
    }

    method AddLayer(layer: Item, interface: int, role: Role) returns (fill: bool)
      requires Valid() && layer.Layer?
      modifies this`imported, this`fullTextSearch, this`entries, this`publicLayer
      ensures Valid() && (Index(), fill) == AddItem(options, old(Index()), layer, interface, role, options.layers)
    {
      fill := interface in layer.interfaces && LayerVisible(layer, role);
      if fill && options.layers {
        ghost var index := Index();
        if role.None? {
          publicLayer := publicLayer + {(interface, layer.id)};
        }
        assert Index() == if role.None? then index.Publish(ActionOf(layer), interface, layer.id) else index;
        if role.None? || (interface, layer.id) !in publicLayer {
          AddFts(layer, interface, role);
        }
      }
    }

    method AddGroup(group: Item, interface: int, export_: bool, role: Role) returns (fill: bool)
      requires Valid() && group.Group? && NoTheme(group)
      modifies this`imported, this`fullTextSearch, this`entries, this`publicLayer, this`publicGroup
      ensures Valid() && (Index(), fill) == AddItem(options, old(Index()), group, interface, role, export_)
      decreases group
    {
      fill := false;
      var k := 0;
      while k < |group.children|
        invariant 0 <= k <= |group.children| && Valid() && publicTheme == old(publicTheme)
        invariant var (index, more) := AddChildren(options, Index(), group.children[k..], interface, role);
                  AddChildren(options, old(Index()), group.children, interface, role) == (index, fill || more)
      {
        var child := group.children[k];
        assert group.children[k..][0] == child && group.children[k..][1..] == group.children[k + 1..];
        if child.Group? {
          var filled := AddGroup(child, interface, options.folders, role);
          fill := filled || fill;
        } else {
          var filled := AddLayer(child, interface, role);
          fill := filled || fill;
        }
        k := k + 1;
      }
      if fill && export_ {
        if role.None? {
          publicGroup := publicGroup + {(interface, group.id)};
        }
        if role.None? || (interface, group.id) !in publicGroup {
          AddFts(group, interface, role);
        }
      }
    }

    method AddTheme(theme: Item, role: Role)
      requires Valid() && WellFormedTheme(theme)
      requires role.Some? ==> theme.id in themeRoles && themeRoles[theme.id] == ThemeRoles(theme)
      modifies this`imported, this`fullTextSearch, this`entries, this`publicLayer, this`publicGroup, this`publicTheme
      ensures Valid() && Index() == AddThemeFor(options, Collected, old(Index()), theme, interfaces, role)
    {
      if role.Some? && role.value !in themeRoles[theme.id] {
        return;
      }
      var i := 0;
      while i < |interfaces|
        invariant 0 <= i <= |interfaces| && Valid()
        invariant AddThemeAll(options, Index(), theme, interfaces[i..], role)
               == AddThemeAll(options, old(Index()), theme, interfaces, role)
      {
        assert interfaces[i..][0] == interfaces[i] && interfaces[i..][1..] == interfaces[i + 1..];
        AddThemeInInterface(theme, interfaces[i], role);
        i := i + 1;
      }
    }

    method AddThemeInInterface(theme: Item, interface: int, role: Role)
      requires Valid() && WellFormedTheme(theme)
      modifies this`imported, this`fullTextSearch, this`entries, this`publicLayer, this`publicGroup, this`publicTheme
      ensures Valid() && Index() == AddThemeIn(options, old(Index()), theme, interface, role)
    {
      var fill := false;
      if interface in theme.interfaces {
        var k := 0;
        while k < |theme.children|
          invariant 0 <= k <= |theme.children| && Valid() && publicTheme == old(publicTheme)
          invariant var (index, more) := AddBlocks(options, Index(), theme.children[k..], interface, role);
                    AddBlocks(options, old(Index()), theme.children, interface, role) == (index, fill || more)
        {
          assert theme.children[k..][0] == theme.children[k] && theme.children[k..][1..] == theme.children[k + 1..];
          var filled := AddGroup(theme.children[k], interface, options.blocks, role);
          fill := filled || fill;
          k := k + 1;
        }
        if fill && options.themes {
          if role.None? {
            publicTheme := publicTheme + {(interface, theme.id)};
          }
          if role.None? || (interface, theme.id) !in publicTheme {
            AddFts(theme, interface, role);
          }
        }
      }
    }

    method ExtractThemesRoles(themes: seq<Item>)
      requires Themes(themes) && UniqueIds(themes)
      modifies this`themeRoles
      ensures forall k :: 0 <= k < |themes| ==>
                themes[k].id in themeRoles && themeRoles[themes[k].id] == ThemeRoles(themes[k])
    {
      themeRoles := map[];
      var k := 0;
      while k < |themes|
        invariant 0 <= k <= |themes|
        invariant forall j :: 0 <= j < k ==>
                    themes[j].id in themeRoles && themeRoles[themes[j].id] == ThemeRoles(themes[j])
      {
        var roles := ExtractThemeRoles(themes[k]);
        forall j | 0 <= j < k && themes[j].id == themes[k].id ensures themes[j] == themes[k] {
          ThemeItselfInTree(themes, j);
          ThemeItselfInTree(themes, k);
        }
        themeRoles := themeRoles[themes[k].id := roles];
        k := k + 1;
      }
    }

    /** The whole import: the public themes, then all the themes for each role. The rows are those of the import that
      * tests roles plainly. */
    constructor (options: Options, languages: seq<string>, interfaces: seq<int>, themes: seq<Item>, roles: seq<int>)
      requires Themes(themes) && UniqueIds(themes)
      ensures Valid() && this.options == options && this.languages == languages && this.interfaces == interfaces
      ensures Index() == FullTextIndex.Import(options, Plain, themes, interfaces, roles)
      ensures fullTextSearch == Rows(FullTextIndex.Import(options, Plain, themes, interfaces, roles).entries, languages)
      ensures OnlyDeserved(options, themes, interfaces, roles, Index()) && AllDeserved(options, themes, interfaces, roles, Index())
    {
      this.options, this.languages, this.interfaces := options, languages, interfaces;
      imported, publicTheme, publicGroup, publicLayer, themeRoles := {}, {}, {}, {}, map[];
      fullTextSearch, entries := [], [];
      new;
      var k := 0;
      while k < |themes|
        invariant 0 <= k <= |themes| && Valid()
        invariant PublicPass(options, Index(), themes[k..], interfaces) == PublicPass(options, EMPTY, themes, interfaces)
      {
        assert themes[k..][0] == themes[k] && themes[k..][1..] == themes[k + 1..];
        if themes[k].isPublic {
          AddTheme(themes[k], None);
        }
        k := k + 1;
      }
      ExtractThemesRoles(themes);
      var r := 0;
      while r < |roles|
        invariant 0 <= r <= |roles| && Valid()
        invariant forall k :: 0 <= k < |themes| ==>
                    themes[k].id in themeRoles && themeRoles[themes[k].id] == ThemeRoles(themes[k])
        invariant RolePasses(options, Collected, Index(), themes, interfaces, roles[r..])
               == FullTextIndex.Import(options, Collected, themes, interfaces, roles)
      {
        assert roles[r..][0] == roles[r] && roles[r..][1..] == roles[r + 1..];
        AddThemesFor(themes, roles[r]);
        r := r + 1;
      }
      FullTextSkips.SkippingLosesNothing(options, themes, interfaces, roles);
      ImportIs(options, themes, interfaces, roles);
    }

    method AddThemesFor(themes: seq<Item>, role: int)
      requires Valid() && Themes(themes)
      requires forall k :: 0 <= k < |themes| ==>
                 themes[k].id in themeRoles && themeRoles[themes[k].id] == ThemeRoles(themes[k])
      modifies this`imported, this`fullTextSearch, this`entries, this`publicLayer, this`publicGroup, this`publicTheme
      ensures Valid() && Index() == RolePass(options, Collected, old(Index()), themes, interfaces, role)
    {
      var k := 0;
      while k < |themes|
        invariant 0 <= k <= |themes| && Valid()
        invariant RolePass(options, Collected, Index(), themes[k..], interfaces, role)
               == RolePass(options, Collected, old(Index()), themes, interfaces, role)
      {
        assert themes[k..][0] == themes[k] && themes[k..][1..] == themes[k + 1..];
        AddTheme(themes[k], Some(role));
        k := k + 1;
      }
    }
  }
}
