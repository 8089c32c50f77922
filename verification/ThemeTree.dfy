/** The layer tree as theme2fts reads it: themes, groups and layers, a layer being visible or not to a role. A shared
  * child is the same value, with the same id, under each of its parents. */
module ThemeTree {
  import opened Wrappers

  /** `areas` are the roles of each restriction area of a layer. */
  datatype Item =
    | Layer(id: int, name: string, isPublic: bool, interfaces: set<int>, areas: seq<set<int>>)
    | Group(id: int, name: string, children: seq<Item>)
    | Theme(id: int, name: string, isPublic: bool, interfaces: set<int>, restrictedRoles: set<int>, children: seq<Item>)
  {
    function Children(): (kids: seq<Item>)
      ensures forall k :: 0 <= k < |kids| ==> kids[k] < this
    {
      if Layer? then [] else children
    }
  }

  type Role = Option<int>

  /** Whether a layer is visible to a role, or publicly when the role is None. */
  predicate LayerVisible(layer: Item, role: Role)
    requires layer.Layer?
  {
    layer.isPublic || (role.Some? && exists k :: 0 <= k < |layer.areas| && role.value in layer.areas[k])
  }

  /** Whether something of the item shows in an interface to a role. */
  predicate Shows(item: Item, interface: int, role: Role)
    decreases item
  {
    if item.Layer? then interface in item.interfaces && LayerVisible(item, role)
    else exists k :: 0 <= k < |item.children| && Shows(item.children[k], interface, role)
  }

  /** `x` is `item` or stands below it. */
  predicate Inside(x: Item, item: Item)
    decreases item
  {
    x == item || (!item.Layer? && exists k :: 0 <= k < |item.children| && Inside(x, item.children[k]))
  }

  /** Below a theme are groups and layers only, directly below it groups only. */
  predicate WellFormedTheme(theme: Item) {
    theme.Theme? && forall k :: 0 <= k < |theme.children| ==> theme.children[k].Group? && NoTheme(theme.children[k])
  }

  predicate NoTheme(item: Item)
    decreases item
  {
    !item.Theme? && (item.Group? ==> forall k :: 0 <= k < |item.children| ==> NoTheme(item.children[k]))
  }

  /** Whether a theme is open to a role, or to everybody when the role is None. */
  predicate ThemeOpen(theme: Item, role: Role)
    requires theme.Theme?
  {
    theme.isPublic || (role.Some? && role.value in theme.restrictedRoles)
  }

  /** The roles named by the restriction areas of the layers that are not public, in and below an item. */
  function AreaRoles(item: Item): set<int>
    decreases item, 1
  {
    match item
    case Layer(_, _, isPublic, _, areas) => if isPublic then {} else Union(areas)
    case Group(_, _, children) => AllAreaRoles(children)
    case Theme(_, _, _, _, _, _) => {}
  }

  function Union(areas: seq<set<int>>): (roles: set<int>)
    ensures forall r :: r in roles <==> exists k :: 0 <= k < |areas| && r in areas[k]
  {
    if areas == [] then {}
    else
      assert forall k :: 1 <= k < |areas| ==> areas[k] == areas[1..][k - 1];
      areas[0] + Union(areas[1..])
  }

  function AllAreaRoles(items: seq<Item>): set<int>
    decreases items, 0
  {
    if items == [] then {} else AreaRoles(items[0]) + AllAreaRoles(items[1..])
  }

  /** The roles that may see more of a theme than everybody, or may see it at all when it is not public. */
  function ThemeRoles(theme: Item): set<int>
    requires theme.Theme?
  {
    theme.restrictedRoles + if theme.isPublic then AllAreaRoles(theme.children) else {}
  }

  lemma {:induction false} AreaRolesOfAll(items: seq<Item>, r: int)
    ensures r in AllAreaRoles(items) <==> exists k :: 0 <= k < |items| && r in AreaRoles(items[k])
    decreases |items|
  {
    if items != [] {
      AreaRolesOfAll(items[1..], r);
      if k :| 0 <= k < |items[1..]| && r in AreaRoles(items[1..][k]) {
        assert r in AreaRoles(items[k + 1]);
      }
      if k :| 0 <= k < |items| && r in AreaRoles(items[k]) {
        assert k > 0 ==> items[k] == items[1..][k - 1];
      }
    }
  }

  /** A layer in or below an item that is not public, with a restriction area of the role. */
  predicate NamesRole(layer: Item, item: Item, r: int) {
    Inside(layer, item) && layer.Layer? && !layer.isPublic && exists k :: 0 <= k < |layer.areas| && r in layer.areas[k]
  }

  /** The roles of the recursive definition are those that the layers inside name. */
  lemma {:induction false} AreaRolesIff(item: Item, r: int)
    requires NoTheme(item)
    ensures r in AreaRoles(item) <==> exists layer :: NamesRole(layer, item, r)
    decreases item
  {
    if item.Layer? {
      assert Inside(item, item);
      assert r in AreaRoles(item) ==> NamesRole(item, item, r);
    } else {
      AreaRolesOfAll(item.children, r);
      if k :| 0 <= k < |item.children| && r in AreaRoles(item.children[k]) {
        AreaRolesIff(item.children[k], r);
        var layer :| NamesRole(layer, item.children[k], r);
        assert NamesRole(layer, item, r);
      }
      if layer :| NamesRole(layer, item, r) {
        var k :| 0 <= k < |item.children| && Inside(layer, item.children[k]);
        AreaRolesIff(item.children[k], r);
        assert NamesRole(layer, item.children[k], r);
      }
    }
  }

  /** The roles of a theme: those it is restricted to and, if it is public, those that a layer inside names. */
  lemma ThemeRolesIff(theme: Item, r: int)
    requires WellFormedTheme(theme)
    ensures r in ThemeRoles(theme)
       <==> r in theme.restrictedRoles || (theme.isPublic && exists layer :: NamesRole(layer, theme, r))
  {
    AreaRolesOfAll(theme.children, r);
    if k :| 0 <= k < |theme.children| && r in AreaRoles(theme.children[k]) {
      AreaRolesIff(theme.children[k], r);
      var layer :| NamesRole(layer, theme.children[k], r);
      assert NamesRole(layer, theme, r);
    }
    if layer :| NamesRole(layer, theme, r) {
      var k :| 0 <= k < |theme.children| && Inside(layer, theme.children[k]);
      AreaRolesIff(theme.children[k], r);
      assert NamesRole(layer, theme.children[k], r);
    }
  }

  /** A role that no restriction area names sees what everybody sees. */
  lemma {:induction false} ShowsLikePublic(item: Item, interface: int, r: int)
    requires NoTheme(item) && r !in AreaRoles(item)
    ensures Shows(item, interface, Some(r)) <==> Shows(item, interface, None)
    decreases item
  {
    if !item.Layer? {
      forall k | 0 <= k < |item.children|
        ensures Shows(item.children[k], interface, Some(r)) <==> Shows(item.children[k], interface, None)
      {
        AreaRolesOfAll(item.children, r);
        ShowsLikePublic(item.children[k], interface, r);
      }
    }
  }

  /** What everybody sees, every role sees. */
  lemma {:induction false} ShowsMonotone(item: Item, interface: int, role: Role)
    requires Shows(item, interface, None)
    ensures Shows(item, interface, role)
    decreases item
  {
    if !item.Layer? {
      var k :| 0 <= k < |item.children| && Shows(item.children[k], interface, None);
      ShowsMonotone(item.children[k], interface, role);
    }
  }

  lemma {:induction false} InsideTransitive(x: Item, y: Item, item: Item)
    requires Inside(x, y) && Inside(y, item)
    ensures Inside(x, item)
    decreases item
  {
    if y != item {
      var k :| 0 <= k < |item.children| && Inside(y, item.children[k]);
      InsideTransitive(x, y, item.children[k]);
    }
  }

  // The walk of _extract_themes_roles.

  /** How many nodes the tree below an item unfolds to. */
  function Size(item: Item): nat
    decreases item, 1
  {
    1 + if item.Layer? then 0 else AllSizes(item.children)
  }

  function AllSizes(items: seq<Item>): nat
    decreases items, 0
  {
    if items == [] then 0 else Size(items[0]) + AllSizes(items[1..])
  }

  lemma {:induction false} AllSizesConcat(a: seq<Item>, b: seq<Item>)
    ensures AllSizes(a + b) == AllSizes(a) + AllSizes(b)
    ensures AllAreaRoles(a + b) == AllAreaRoles(a) + AllAreaRoles(b)
    decreases |a|
  {
    if a == [] {
      assert a + b == b;
    } else {
      assert (a + b)[1..] == a[1..] + b;
      AllSizesConcat(a[1..], b);
    }
  }

  /** The stack walk, without a set of visited items: it ends, and collects the roles of the recursive definition. */
  method ExtractThemeRoles(theme: Item) returns (roles: set<int>)
    requires theme.Theme?
    ensures roles == ThemeRoles(theme)
    ensures WellFormedTheme(theme) ==>
              forall r :: r in roles
                <==> r in theme.restrictedRoles || (theme.isPublic && exists layer :: NamesRole(layer, theme, r))
  {
    roles := theme.restrictedRoles;
    if theme.isPublic {
      var stack := theme.children;
      while stack != []
        invariant roles + AllAreaRoles(stack) == ThemeRoles(theme)
        decreases AllSizes(stack)
      {
        var item := stack[|stack| - 1];
        assert stack == stack[..|stack| - 1] + [item];
        AllSizesConcat(stack[..|stack| - 1], [item]);
        assert AllSizes([item]) == Size(item) && AllAreaRoles([item]) == AreaRoles(item);
        stack := stack[..|stack| - 1];
        if item.Group? {
          AllSizesConcat(stack, item.children);
          stack := stack + item.children;
        } else if item.Layer? && !item.isPublic {
          var k := 0;
          while k < |item.areas|
            invariant 0 <= k <= |item.areas|
            invariant roles + AllAreaRoles(stack) + Union(item.areas[k..]) == ThemeRoles(theme)
          {
            roles := roles + item.areas[k];
            k := k + 1;
          }
        }
      }
    }
    if WellFormedTheme(theme) {
      forall r ensures r in roles
                  <==> r in theme.restrictedRoles || (theme.isPublic && exists layer :: NamesRole(layer, theme, r))
      {
        ThemeRolesIff(theme, r);
      }
    }
  }
}
