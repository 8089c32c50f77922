/** The entries that theme2fts makes for the full-text search, as functions of the index built so far. */
module FullTextIndex {
  import opened Wrappers
  import opened ThemeTree

  /** byName is the option --duplicate-name; the others tell what to export. */
  datatype Options = Options(byName: bool, themes: bool, blocks: bool, folders: bool, layers: bool)
  {
    predicate All() {
      !byName && themes && blocks && folders && layers
    }
  }

  datatype Action = AddTheme | AddGroup | AddLayer

  function ActionOf(item: Item): Action {
    match item
    case Layer(_, _, _, _, _) => AddLayer
    case Group(_, _, _) => AddGroup
    case Theme(_, _, _, _, _, _) => AddTheme
  }

  /** An item indexed for an interface, for a role or for everybody. */
  datatype Entry = Entry(action: Action, id: int, name: string, interface: int, role: Role)

  datatype ItemKey = ByName(name: string) | ById(id: int)

  datatype Key = Key(item: ItemKey, interface: int, role: Role)

  function KeyOf(o: Options, e: Entry): Key {
    Key(if o.byName then ByName(e.name) else ById(e.id), e.interface, e.role)
  }

  function EntryOf(item: Item, interface: int, role: Role): Entry {
    Entry(ActionOf(item), item.id, item.name, interface, role)
  }

  /** What the import keeps: the entries in their order, and what is public, as pairs of an interface and an id. */
  datatype Index = Index(
    entries: seq<Entry>,
    publicThemes: set<(int, int)>, publicGroups: set<(int, int)>, publicLayers: set<(int, int)>)
  {
    function Public(action: Action): set<(int, int)> {
      match action
      case AddTheme => publicThemes
      case AddGroup => publicGroups
      case AddLayer => publicLayers
    }

    function Publish(action: Action, interface: int, id: int): Index {
      match action
      case AddTheme => this.(publicThemes := publicThemes + {(interface, id)})
      case AddGroup => this.(publicGroups := publicGroups + {(interface, id)})
      case AddLayer => this.(publicLayers := publicLayers + {(interface, id)})
    }
  }

  const EMPTY := Index([], {}, {}, {})

  predicate Imported(o: Options, entries: seq<Entry>, key: Key) {
    exists i :: 0 <= i < |entries| && KeyOf(o, entries[i]) == key
  }

  /** No key is indexed twice. */
  predicate DistinctKeys(o: Options, index: Index) {
    forall i, j :: 0 <= i < j < |index.entries| ==> KeyOf(o, index.entries[i]) != KeyOf(o, index.entries[j])
  }

  /** An entry is added unless one with the same key is there. */
  function AddFts(o: Options, index: Index, e: Entry): (after: Index)
    ensures DistinctKeys(o, index) ==> DistinctKeys(o, after)
    ensures Imported(o, after.entries, KeyOf(o, e)) && index.entries <= after.entries && |after.entries| <= |index.entries| + 1
    ensures forall a :: after.Public(a) == index.Public(a)
  {
    if Imported(o, index.entries, KeyOf(o, e)) then index
    else
      assert (index.entries + [e])[|index.entries|] == e;
      index.(entries := index.entries + [e])
  }

  /** An item that shows is marked public in the pass for everybody, and indexed for a role only when it is not. */
  function Export(o: Options, index: Index, item: Item, interface: int, role: Role): Index {
    var marked := if role.None? then index.Publish(ActionOf(item), interface, item.id) else index;
    if role.None? || (interface, item.id) !in marked.Public(ActionOf(item)) then
      AddFts(o, marked, EntryOf(item, interface, role))
    else marked
  }

  /** Indexes a layer or a group with what is below it; a group is exported when `exported`. */
  function AddItem(o: Options, index: Index, item: Item, interface: int, role: Role, exported: bool): (r: (Index, bool))
    ensures DistinctKeys(o, index) ==> DistinctKeys(o, r.0)
    decreases item, 1
  {
    match item
    case Layer(_, _, _, interfaces, _) =>
      var fill := interface in interfaces && LayerVisible(item, role);
      (if fill && exported then Export(o, index, item, interface, role) else index, fill)
    case Group(_, _, children) =>
      var (below, fill) := AddChildren(o, index, children, interface, role);
      (if fill && exported then Export(o, below, item, interface, role) else below, fill)
    case Theme(_, _, _, _, _, _) => (index, false)
  }

  /** What the option is for a child of a group. */
  function Exported(o: Options, child: Item): bool {
    if child.Group? then o.folders else o.layers
  }

  function AddChildren(o: Options, index: Index, children: seq<Item>, interface: int, role: Role): (r: (Index, bool))
    ensures DistinctKeys(o, index) ==> DistinctKeys(o, r.0)
    decreases children, 0
  {
    if children == [] then (index, false)
    else
      var (first, fill) := AddItem(o, index, children[0], interface, role, Exported(o, children[0]));
      var (rest, more) := AddChildren(o, first, children[1..], interface, role);
      (rest, fill || more)
  }

  function AddBlocks(o: Options, index: Index, blocks: seq<Item>, interface: int, role: Role): (r: (Index, bool))
    ensures DistinctKeys(o, index) ==> DistinctKeys(o, r.0)
    decreases |blocks|
  {
    if blocks == [] then (index, false)
    else
      var (first, fill) := AddItem(o, index, blocks[0], interface, role, o.blocks);
      var (rest, more) := AddBlocks(o, first, blocks[1..], interface, role);
      (rest, fill || more)
  }

  /** Indexes a theme in one interface. */
  function AddThemeIn(o: Options, index: Index, theme: Item, interface: int, role: Role): Index
    requires theme.Theme?
  {
    if interface !in theme.interfaces then index
    else
      var (below, fill) := AddBlocks(o, index, theme.children, interface, role);
      if fill && o.themes then Export(o, below, theme, interface, role) else below
  }

  function AddThemeAll(o: Options, index: Index, theme: Item, interfaces: seq<int>, role: Role): (after: Index)
    requires theme.Theme?
    ensures DistinctKeys(o, index) ==> DistinctKeys(o, after)
    decreases |interfaces|
  {
    if interfaces == [] then index
    else AddThemeAll(o, AddThemeIn(o, index, theme, interfaces[0], role), theme, interfaces[1..], role)
  }

  /** Which role tests _add_theme may use: the roles collected from the tree, or simply whether the theme is open. */
  datatype RoleTest = Collected | Plain

  predicate Passes(test: RoleTest, theme: Item, role: Role)
    requires theme.Theme?
  {
    role.None? || match test { case Collected => role.value in ThemeRoles(theme) case Plain => ThemeOpen(theme, role) }
  }

  function AddThemeFor(o: Options, test: RoleTest, index: Index, theme: Item, interfaces: seq<int>, role: Role): Index
    requires theme.Theme?
  {
    if Passes(test, theme, role) then AddThemeAll(o, index, theme, interfaces, role) else index
  }

  predicate Themes(themes: seq<Item>) {
    forall k :: 0 <= k < |themes| ==> WellFormedTheme(themes[k])
  }

  function PublicPass(o: Options, index: Index, themes: seq<Item>, interfaces: seq<int>): (after: Index)
    requires Themes(themes)
    ensures DistinctKeys(o, index) ==> DistinctKeys(o, after)
    decreases |themes|
  {
    if themes == [] then index
    else
      var first := if themes[0].isPublic then AddThemeAll(o, index, themes[0], interfaces, None) else index;
      PublicPass(o, first, themes[1..], interfaces)
  }

  function RolePass(o: Options, test: RoleTest, index: Index, themes: seq<Item>, interfaces: seq<int>, role: int): (after: Index)
    requires Themes(themes)
    ensures DistinctKeys(o, index) ==> DistinctKeys(o, after)
    decreases |themes|
  {
    if themes == [] then index
    else
      RolePass(o, test, AddThemeFor(o, test, index, themes[0], interfaces, Some(role)), themes[1..], interfaces, role)
  }

  function RolePasses(o: Options, test: RoleTest, index: Index, themes: seq<Item>, interfaces: seq<int>, roles: seq<int>): (after: Index)
    requires Themes(themes)
    ensures DistinctKeys(o, index) ==> DistinctKeys(o, after)
    decreases |roles|
  {
    if roles == [] then index
    else RolePasses(o, test, RolePass(o, test, index, themes, interfaces, roles[0]), themes, interfaces, roles[1..])
  }

  /** The whole import: the public themes for everybody, then all the themes for each role. */
  function Import(o: Options, test: RoleTest, themes: seq<Item>, interfaces: seq<int>, roles: seq<int>): (after: Index)
    requires Themes(themes)
    ensures DistinctKeys(o, after)
  {
    RolePasses(o, test, PublicPass(o, EMPTY, themes, interfaces), themes, interfaces, roles)
  }

  /** With the name as key, no two entries for the same interface and role have the same name. */
  lemma OnePerName(o: Options, test: RoleTest, themes: seq<Item>, interfaces: seq<int>, roles: seq<int>, i: nat, j: nat)
    requires o.byName && Themes(themes)
    requires var entries := Import(o, test, themes, interfaces, roles).entries;
             && i < j < |entries| && entries[i].interface == entries[j].interface && entries[i].role == entries[j].role
    ensures var entries := Import(o, test, themes, interfaces, roles).entries; entries[i].name != entries[j].name
  {
    assert DistinctKeys(o, Import(o, test, themes, interfaces, roles));
  }

  // What an item adds is told by Shows.

  lemma {:induction false} FillIsShows(o: Options, index: Index, item: Item, interface: int, role: Role, exported: bool)
    requires NoTheme(item)
    ensures AddItem(o, index, item, interface, role, exported).1 == Shows(item, interface, role)
    decreases item, 1
  {
    if item.Group? {
      ChildrenFill(o, index, item.children, interface, role);
    }
  }

  predicate AnyShows(items: seq<Item>, interface: int, role: Role) {
    exists k :: 0 <= k < |items| && Shows(items[k], interface, role)
  }

  lemma AnyShowsCons(items: seq<Item>, interface: int, role: Role)
    requires items != []
    ensures AnyShows(items, interface, role)
       <==> Shows(items[0], interface, role) || AnyShows(items[1..], interface, role)
  {
  }

  lemma {:induction false} ChildrenFill(o: Options, index: Index, children: seq<Item>, interface: int, role: Role)
    requires forall k :: 0 <= k < |children| ==> NoTheme(children[k])
    ensures AddChildren(o, index, children, interface, role).1 == AnyShows(children, interface, role)
    decreases children, 0
  {
    if children != [] {
      AnyShowsCons(children, interface, role);
      FillIsShows(o, index, children[0], interface, role, Exported(o, children[0]));
      ChildrenFill(o, AddItem(o, index, children[0], interface, role, Exported(o, children[0])).0, children[1..],
                   interface, role);
    }
  }

  lemma {:induction false} BlocksFill(o: Options, index: Index, blocks: seq<Item>, interface: int, role: Role)
    requires forall k :: 0 <= k < |blocks| ==> NoTheme(blocks[k])
    ensures AddBlocks(o, index, blocks, interface, role).1 == AnyShows(blocks, interface, role)
    decreases |blocks|
  {
    if blocks != [] {
      AnyShowsCons(blocks, interface, role);
      FillIsShows(o, index, blocks[0], interface, role, o.blocks);
      BlocksFill(o, AddItem(o, index, blocks[0], interface, role, o.blocks).0, blocks[1..], interface, role);
    }
  }
}
