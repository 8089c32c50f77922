/** The walk of _extract_themes_roles over the table of links, where a tree could have a cycle: when the walk ends, and what
  * it collects. */
module ThemeWalk {
  import opened Wrappers
  import opened TreeGraph
  import opened AncestorClosure
  import ThemeTree

  /** A layer with the roles of each of its restriction areas, or a group. */
  datatype Row =
    | LayerRow(name: string, isPublic: bool, interfaces: set<int>, areas: seq<set<int>>)
    | GroupRow(name: string)

  /** The rows of the items below themes, and the rows that link a parent to a child. */
  datatype Table = Table(rows: map<int, Row>, links: seq<(int, int)>)
  {
    predicate IsGroup(id: int) {
      id in rows && rows[id].GroupRow?
    }

    /** The links from groups: the walk does not look for children of layers. */
    function Down(): (edges: Edges)
      ensures forall e :: e in edges <==> e in links && IsGroup(e.0)
    {
      set k | 0 <= k < |links| && IsGroup(links[k].0) :: links[k]
    }
  }

  function ChildrenOf(links: seq<(int, int)>, item: int): seq<int> {
    if links == [] then []
    else (if links[0].0 == item then [links[0].1] else []) + ChildrenOf(links[1..], item)
  }

  lemma {:induction false} ChildrenAreEdges(links: seq<(int, int)>, item: int, c: int)
    ensures c in ChildrenOf(links, item) <==> (item, c) in links
    decreases |links|
  {
    if links != [] {
      ChildrenAreEdges(links[1..], item, c);
      assert forall e :: e in links <==> e == links[0] || e in links[1..];
    }
  }

  // The walk.

  datatype State = State(stack: seq<int>, roles: set<int>)

  /** What the walk pushes for an item, and the roles that it adds. */
  function Pushed(t: Table, id: int): seq<int> {
    if t.IsGroup(id) then ChildrenOf(t.links, id) else []
  }

  function Own(t: Table, id: int): set<int> {
    if id in t.rows && t.rows[id].LayerRow? && !t.rows[id].isPublic then ThemeTree.Union(t.rows[id].areas) else {}
  }

  function Next(t: Table, s: State): State
    requires s.stack != []
  {
    var last := |s.stack| - 1;
    State(s.stack[..last] + Pushed(t, s.stack[last]), s.roles + Own(t, s.stack[last]))
  }

  /** The stack is empty after `k` steps, and not before. */
  predicate EndsIn(t: Table, s: State, k: nat)
    decreases k
  {
    if k == 0 then s.stack == [] else s.stack != [] && EndsIn(t, Next(t, s), k - 1)
  }

  function Final(t: Table, s: State, k: nat): set<int>
    requires EndsIn(t, s, k)
    decreases k
  {
    if k == 0 then s.roles else Final(t, Next(t, s), k - 1)
  }

  ghost predicate Ends(t: Table, s: State) {
    exists k :: EndsIn(t, s, k)
  }

  ghost predicate CycleBelow(edges: Edges, item: int) {
    exists a :: OnCycle(edges, a) && Reaches(edges, item, a)
  }

  // It ends only without cycles.

  lemma PushedAreBelow(t: Table, id: int, c: int)
    ensures c in Pushed(t, id) <==> (id, c) in t.Down()
  {
    ChildrenAreEdges(t.links, id, c);
  }

  /** What is on the stack after a step. */
  lemma NextHas(t: Table, s: State, x: int)
    requires s.stack != [] && x in s.stack
    ensures x in Next(t, s).stack || x == s.stack[|s.stack| - 1]
    ensures forall c :: (s.stack[|s.stack| - 1], c) in t.Down() ==> c in Next(t, s).stack
  {
    var last := |s.stack| - 1;
    assert s.stack == s.stack[..last] + [s.stack[last]];
    forall c | (s.stack[last], c) in t.Down() ensures c in Next(t, s).stack {
      PushedAreBelow(t, s.stack[last], c);
    }
  }

  lemma RestIsWalk(edges: Edges, way: seq<int>)
    requires IsWalk(edges, way) && |way| > 1
    ensures (way[0], way[1]) in edges && IsWalk(edges, way[1..])
  {
    assert (way[0], way[1]) in edges;
  }

  lemma EndsNext(t: Table, s: State, k: nat)
    requires EndsIn(t, s, k) && s.stack != []
    ensures k > 0 && EndsIn(t, Next(t, s), k - 1) && Final(t, s, k) == Final(t, Next(t, s), k - 1)
  {
  }

  lemma EndsBefore(t: Table, s: State, k: nat)
    requires s.stack != [] && EndsIn(t, Next(t, s), k)
    ensures EndsIn(t, s, k + 1)
  {
  }

  /** A walk that ends visits every way down. */
  lemma {:induction false} EndsBoundsWays(t: Table, s: State, k: nat, edges: Edges, way: seq<int>)
    requires EndsIn(t, s, k) && edges == t.Down() && IsWalk(edges, way) && way[0] in s.stack
    ensures |way| <= k
    decreases k, 1
  {
    EndsNext(t, s, k);
    NextHas(t, s, way[0]);
    EndsBoundsNext(t, Next(t, s), k - 1, edges, way, way[0]);
  }

  lemma {:induction false} EndsBoundsNext(t: Table, after: State, k: nat, edges: Edges, way: seq<int>, x: int)
    requires EndsIn(t, after, k) && edges == t.Down() && IsWalk(edges, way) && way[0] == x
    requires x in after.stack || forall c :: (x, c) in edges ==> c in after.stack
    ensures |way| <= k + 1
    decreases k, 2
  {
    if x in after.stack {
      EndsBoundsWays(t, after, k, edges, way);
    } else if |way| > 1 {
      RestIsWalk(edges, way);
      var c := way[1];
      assert (x, c) in edges;
      EndsBoundsWays(t, after, k, edges, way[1..]);
    }
  }

  /** Below a cycle there are ways of every length. */
  lemma LongWay(edges: Edges, item: int, n: nat) returns (way: seq<int>)
    requires CycleBelow(edges, item)
    ensures IsWalk(edges, way) && way[0] == item && |way| > n
  {
    var a :| OnCycle(edges, a) && Reaches(edges, item, a);
    var first :| Walks(edges, first, item, a);
    ReachesSelf(edges, a);
    var round := PumpedWalk(edges, a, a, n);
    way := first + round[1..];
    forall i | 0 <= i < |way| - 1 ensures (way[i], way[i + 1]) in edges {
      if i >= |first| - 1 {
        assert way[i] == round[i - |first| + 1] && way[i + 1] == round[i - |first| + 2];
      }
    }
  }

  // It ends without cycles.

  /** The items of `s` are above others on the stack of `both`. */
  predicate Above(below: seq<int>, s: State, both: State) {
    both.stack == below + s.stack && both.roles == s.roles
  }

  lemma NextAbove(t: Table, below: seq<int>, s: State, both: State)
    requires s.stack != [] && Above(below, s, both)
    ensures both.stack != [] && Above(below, Next(t, s), Next(t, both))
  {
    var last := |s.stack| - 1;
    var pushed := Pushed(t, s.stack[last]);
    assert both.stack[|both.stack| - 1] == s.stack[last] && both.stack[..|both.stack| - 1] == below + s.stack[..last];
    assert below + s.stack[..last] + pushed == below + (s.stack[..last] + pushed);
  }

  /** Items below others on the stack wait until these are done. */
  lemma {:induction false} EndsTogether(t: Table, below: seq<int>, s: State, both: State, k: nat, m: nat)
    requires EndsIn(t, s, k) && EndsIn(t, State(below, Final(t, s, k)), m) && Above(below, s, both)
    ensures EndsIn(t, both, k + m)
    decreases k, 0
  {
    if k == 0 {
      assert both == State(below, s.roles);
    } else {
      NextAbove(t, below, s, both);
      EndsNext(t, s, k);
      EndsTogetherNext(t, below, Next(t, s), Next(t, both), both, k - 1, m);
    }
  }

  lemma {:induction false} EndsTogetherNext(t: Table, below: seq<int>, s: State, next: State, both: State, k: nat, m: nat)
    requires EndsIn(t, s, k) && EndsIn(t, State(below, Final(t, s, k)), m) && Above(below, s, next)
    requires both.stack != [] && next == Next(t, both)
    ensures EndsIn(t, both, k + m + 1)
    decreases k, 1
  {
    EndsTogether(t, below, s, next, k, m);
    EndsBefore(t, both, k + m);
  }

  ghost predicate ShortWays(edges: Edges, stack: seq<int>, n: nat) {
    forall way: seq<int> :: IsWalk(edges, way) && way[0] in stack ==> |way| <= n
  }

  lemma ShorterBelow(t: Table, stack: seq<int>, x: int, n: nat)
    requires ShortWays(t.Down(), stack, n) && x in stack
    ensures n > 0 && ShortWays(t.Down(), Pushed(t, x), n - 1)
  {
    var edges := t.Down();
    assert IsWalk(edges, [x]) && [x][0] in stack;
    forall way: seq<int> | IsWalk(edges, way) && way[0] in Pushed(t, x) ensures |way| <= n - 1 {
      PushedAreBelow(t, x, way[0]);
      var longer := [x] + way;
      assert forall i :: 1 <= i < |longer| ==> longer[i] == way[i - 1];
      assert IsWalk(edges, longer) && longer[0] in stack;
    }
  }

  lemma ShortForFewer(edges: Edges, stack: seq<int>, rest: seq<int>, n: nat)
    requires ShortWays(edges, stack, n) && forall y :: y in rest ==> y in stack
    ensures ShortWays(edges, rest, n)
  {
    forall way: seq<int> | IsWalk(edges, way) && way[0] in rest ensures |way| <= n {
      var x := way[0];
      assert x in stack;
    }
  }

  /** The item on top of the stack with what is below it, then the rest. */
  lemma EndsFromTop(t: Table, s: State, rest: seq<int>, top: State, k: nat, m: nat)
    requires s.stack != [] && Next(t, s) == State(rest + top.stack, top.roles)
    requires EndsIn(t, top, k) && EndsIn(t, State(rest, Final(t, top, k)), m)
    ensures EndsIn(t, s, k + m + 1)
  {
    EndsTogether(t, rest, top, State(rest + top.stack, top.roles), k, m);
    EndsBefore(t, s, k + m);
  }

  lemma {:induction false} ShortWaysEnd(t: Table, stack: seq<int>, roles: set<int>, n: nat) returns (k: nat)
    requires ShortWays(t.Down(), stack, n)
    ensures EndsIn(t, State(stack, roles), k)
    decreases n, |stack|
  {
    if stack == [] {
      k := 0;
    } else {
      var last := |stack| - 1;
      ShorterBelow(t, stack, stack[last], n);
      var rest, pushed, more := stack[..last], Pushed(t, stack[last]), roles + Own(t, stack[last]);
      var first := ShortWaysEnd(t, pushed, more, n - 1);
      ShortForFewer(t.Down(), stack, rest, n);
      var second := ShortWaysEnd(t, rest, Final(t, State(pushed, more), first), n);
      EndsFromTop(t, State(stack, roles), rest, State(pushed, more), first, second);
      k := first + second + 1;
    }
  }

  /** A way that is longer than the table goes round a cycle. */
  lemma LongWayHasCycle(t: Table, way: seq<int>)
    requires IsWalk(t.Down(), way) && |way| > |t.links| + 1
    ensures CycleBelow(t.Down(), way[0])
  {
    var edges, n := t.Down(), |t.links| + 1;
    if i, j :| 0 <= i < j < n && way[i] == way[j] {
      SubWalk(edges, way, i + 1, j);
      SubWalk(edges, way, 0, i);
      var a, b := way[i], way[i + 1];
      assert (a, b) in edges && Reaches(edges, b, a);
      assert OnCycle(edges, a);
    } else {
      var values := way[..n];
      forall i | 0 <= i < |values| ensures IsParent(t.links, values[i]) {
        assert (way[i], way[i + 1]) in edges;
        var k :| 0 <= k < |t.links| && t.links[k] == (way[i], way[i + 1]);
      }
      Pigeonhole(values, t.links);
    }
  }

  /** The walk ends exactly when there is no cycle at or below the items on the stack. */
  lemma EndsIffNoCycleBelow(t: Table, s: State)
    ensures Ends(t, s) <==> forall x :: x in s.stack ==> !CycleBelow(t.Down(), x)
  {
    if k :| EndsIn(t, s, k) {
      forall x | x in s.stack ensures !CycleBelow(t.Down(), x) {
        if CycleBelow(t.Down(), x) {
          var way := LongWay(t.Down(), x, k);
          EndsBoundsWays(t, s, k, t.Down(), way);
        }
      }
    }
    if forall x :: x in s.stack ==> !CycleBelow(t.Down(), x) {
      forall way: seq<int> | IsWalk(t.Down(), way) && way[0] in s.stack ensures |way| <= |t.links| + 1 {
        if |way| > |t.links| + 1 {
          LongWayHasCycle(t, way);
        }
      }
      var k := ShortWaysEnd(t, s.stack, s.roles, |t.links| + 1);
    }
  }

  /** In a table without cycles it always ends. */
  lemma EndsWithoutCycles(t: Table, s: State)
    requires Acyclic(EdgesOf(t.links))
    ensures Ends(t, s)
  {
    AcyclicFewer(EdgesOf(t.links), t.Down());
    EndsIffNoCycleBelow(t, s);
  }

  // What it collects.

  ghost predicate Named(t: Table, stack: seq<int>, r: int) {
    exists x, y :: NamedBelow(t, stack, x, y, r)
  }

  /** The item `y` is at or below `x` on the stack, a layer that is not public with a restriction area of the role. */
  ghost predicate NamedBelow(t: Table, stack: seq<int>, x: int, y: int, r: int) {
    x in stack && Reaches(t.Down(), x, y) && r in Own(t, y)
  }

  lemma NamedNext(t: Table, s: State, r: int)
    requires s.stack != []
    ensures Named(t, s.stack, r) <==> r in Own(t, s.stack[|s.stack| - 1]) || Named(t, Next(t, s).stack, r)
  {
    var last := |s.stack| - 1;
    var top, after := s.stack[last], Next(t, s).stack;
    assert forall x :: x in s.stack <==> x in s.stack[..last] || x == top;
    if x, y :| NamedBelow(t, s.stack, x, y, r) {
      if x in s.stack[..last] {
        assert NamedBelow(t, after, x, y, r);
      } else if x != y {
        var c := ReachesFirst(t.Down(), x, y);
        PushedAreBelow(t, x, c);
        assert NamedBelow(t, after, c, y, r);
      }
    }
    if r in Own(t, top) {
      ReachesSelf(t.Down(), top);
      assert NamedBelow(t, s.stack, top, top, r);
    }
    if x, y :| NamedBelow(t, after, x, y, r) {
      if x in s.stack[..last] {
        assert NamedBelow(t, s.stack, x, y, r);
      } else {
        PushedAreBelow(t, top, x);
        ReachesByEdge(t.Down(), top, x);
        ReachesTransitive(t.Down(), top, x, y);
        assert NamedBelow(t, s.stack, top, y, r);
      }
    }
  }

  /** A walk that ends has collected exactly the roles that layers at or below the items on the stack name. */
  lemma {:induction false} CollectsNamed(t: Table, s: State, k: nat, r: int)
    requires EndsIn(t, s, k)
    ensures r in Final(t, s, k) <==> r in s.roles || Named(t, s.stack, r)
    decreases k
  {
    if k > 0 {
      NamedNext(t, s, r);
      CollectsNamed(t, Next(t, s), k - 1, r);
    }
  }

  /** The roles of the restriction areas of a layer that is not public. */
  method OwnRoles(t: Table, id: int) returns (roles: set<int>)
    ensures roles == Own(t, id)
  {
    roles := {};
    if id in t.rows && t.rows[id].LayerRow? && !t.rows[id].isPublic {
      var areas := t.rows[id].areas;
      var k := 0;
      while k < |areas|
        invariant 0 <= k <= |areas|
        invariant roles + ThemeTree.Union(areas[k..]) == ThemeTree.Union(areas)
      {
        roles := roles + areas[k];
        k := k + 1;
      }
    }
  }

  /** The roles of a public theme: the walk ends when there is no cycle below the theme. */
  method ExtractRoles(t: Table, theme: int, restrictedRoles: set<int>) returns (roles: set<int>)
    requires forall x :: (theme, x) in t.links ==> !CycleBelow(t.Down(), x)
    ensures forall r :: r in roles <==> r in restrictedRoles || Named(t, ChildrenOf(t.links, theme), r)
  {
    var stack := ChildrenOf(t.links, theme);
    roles := restrictedRoles;
    ghost var start := State(stack, roles);
    forall x | x in stack ensures !CycleBelow(t.Down(), x) {
      ChildrenAreEdges(t.links, theme, x);
    }
    EndsIffNoCycleBelow(t, start);
    ghost var all: nat :| EndsIn(t, start, all);
    ghost var left: nat := all;
    while stack != []
      invariant EndsIn(t, State(stack, roles), left) && Final(t, State(stack, roles), left) == Final(t, start, all)
      decreases left
    {
      var item := stack[|stack| - 1];
      EndsNext(t, State(stack, roles), left);
      var own := OwnRoles(t, item);
      stack := stack[..|stack| - 1] + Pushed(t, item);
      roles := roles + own;
      left := left - 1;
    }
    forall r ensures r in roles <==> r in restrictedRoles || Named(t, ChildrenOf(t.links, theme), r) {
      CollectsNamed(t, start, all, r);
    }
  }

  // The tree that the table unfolds to.

  /** The item has what is at and below the row: a shared child is there under each of its parents. */
  predicate Represents(t: Table, id: int, item: ThemeTree.Item)
    decreases item
  {
    id in t.rows && item.id == id &&
    match item
    case Layer(_, name, isPublic, interfaces, areas) => t.rows[id] == LayerRow(name, isPublic, interfaces, areas)
    case Group(_, name, children) =>
      && t.rows[id] == GroupRow(name) && |children| == |ChildrenOf(t.links, id)|
      && forall k :: 0 <= k < |children| ==> Represents(t, ChildrenOf(t.links, id)[k], children[k])
    case Theme(_, _, _, _, _, _) => false
  }

  /** The tree to the depth `n`. */
  function Unfold(t: Table, id: int, n: nat): (item: ThemeTree.Item)
    ensures !item.Theme?
    decreases n
  {
    if id in t.rows && t.rows[id].LayerRow? then
      var row := t.rows[id];
      ThemeTree.Layer(id, row.name, row.isPublic, row.interfaces, row.areas)
    else if n == 0 || id !in t.rows then ThemeTree.Group(id, "", [])
    else
      var kids := ChildrenOf(t.links, id);
      ThemeTree.Group(id, t.rows[id].name, seq(|kids|, k requires 0 <= k < |kids| => Unfold(t, kids[k], n - 1)))
  }

  ghost predicate KnownItems(t: Table) {
    forall e :: e in t.links ==> e.1 in t.rows
  }

  lemma ShorterFromKid(t: Table, id: int, kid: int, n: nat)
    requires ShortWays(t.Down(), [id], n) && kid in Pushed(t, id)
    ensures n > 0 && ShortWays(t.Down(), [kid], n - 1)
  {
    ShorterBelow(t, [id], id, n);
    ShortForFewer(t.Down(), Pushed(t, id), [kid], n - 1);
  }

  lemma GroupRepresents(t: Table, id: int, item: ThemeTree.Item, kids: seq<int>)
    requires t.IsGroup(id) && item.Group? && item.id == id && item.name == t.rows[id].name
    requires kids == ChildrenOf(t.links, id) && |item.children| == |kids|
    requires forall k :: 0 <= k < |kids| ==> Represents(t, kids[k], item.children[k])
    ensures Represents(t, id, item)
  {
  }

  lemma {:induction false} UnfoldRepresents(t: Table, id: int, n: nat)
    requires KnownItems(t) && id in t.rows && ShortWays(t.Down(), [id], n)
    ensures Represents(t, id, Unfold(t, id, n))
    decreases n
  {
    if t.IsGroup(id) {
      var kids := ChildrenOf(t.links, id);
      var way := [id];
      assert IsWalk(t.Down(), way) && way[0] in [id];
      var item := Unfold(t, id, n);
      forall k | 0 <= k < |kids| ensures Represents(t, kids[k], item.children[k]) {
        ChildrenAreEdges(t.links, id, kids[k]);
        ShorterFromKid(t, id, kids[k], n);
        UnfoldRepresents(t, kids[k], n - 1);
      }
      GroupRepresents(t, id, item, kids);
    }
  }

  /** Below an item without a cycle the table unfolds to a tree. */
  lemma UnfoldsWithoutCycle(t: Table, id: int)
    requires KnownItems(t) && id in t.rows && !CycleBelow(t.Down(), id)
    ensures Represents(t, id, Unfold(t, id, |t.links| + 1))
  {
    forall way: seq<int> | IsWalk(t.Down(), way) && way[0] in [id] ensures |way| <= |t.links| + 1 {
      if |way| > |t.links| + 1 {
        LongWayHasCycle(t, way);
      }
    }
    UnfoldRepresents(t, id, |t.links| + 1);
  }

  ghost predicate NamedAt(t: Table, id: int, r: int) {
    exists y :: Reaches(t.Down(), id, y) && r in Own(t, y)
  }

  lemma NamedAtOrBelow(t: Table, id: int, r: int)
    ensures NamedAt(t, id, r) <==> r in Own(t, id) || exists c :: (id, c) in t.Down() && NamedAt(t, c, r)
  {
    if y :| Reaches(t.Down(), id, y) && r in Own(t, y) {
      if y != id {
        var c := ReachesFirst(t.Down(), id, y);
        assert (id, c) in t.Down() && NamedAt(t, c, r);
      }
    }
    if r in Own(t, id) {
      ReachesSelf(t.Down(), id);
    }
    if c :| (id, c) in t.Down() && NamedAt(t, c, r) {
      var y :| Reaches(t.Down(), c, y) && r in Own(t, y);
      ReachesByEdge(t.Down(), id, c);
      ReachesTransitive(t.Down(), id, c, y);
    }
  }

  /** The roles of the tree are those named at or below the row. */
  lemma {:induction false} RepresentedRoles(t: Table, id: int, item: ThemeTree.Item, r: int)
    requires Represents(t, id, item)
    ensures r in ThemeTree.AreaRoles(item) <==> NamedAt(t, id, r)
    decreases item
  {
    NamedAtOrBelow(t, id, r);
    if item.Group? {
      var kids := ChildrenOf(t.links, id);
      ThemeTree.AreaRolesOfAll(item.children, r);
      forall k | 0 <= k < |kids|
        ensures (id, kids[k]) in t.Down() && (r in ThemeTree.AreaRoles(item.children[k]) <==> NamedAt(t, kids[k], r))
      {
        PushedAreBelow(t, id, kids[k]);
        RepresentedRoles(t, kids[k], item.children[k], r);
      }
      if c :| (id, c) in t.Down() && NamedAt(t, c, r) {
        PushedAreBelow(t, id, c);
        var k :| 0 <= k < |kids| && kids[k] == c;
        assert r in ThemeTree.AreaRoles(item.children[k]);
      }
    } else {
      assert forall c :: (id, c) !in t.Down();
    }
  }

  /** The walk over the table and the one over the tree collect the same roles. */
  lemma WalksAgree(t: Table, theme: ThemeTree.Item, r: int)
    requires theme.Theme? && theme.isPublic && |theme.children| == |ChildrenOf(t.links, theme.id)|
    requires forall k :: 0 <= k < |theme.children| ==> Represents(t, ChildrenOf(t.links, theme.id)[k], theme.children[k])
    ensures r in ThemeTree.ThemeRoles(theme) <==> r in theme.restrictedRoles || Named(t, ChildrenOf(t.links, theme.id), r)
  {
    var kids := ChildrenOf(t.links, theme.id);
    ThemeTree.AreaRolesOfAll(theme.children, r);
    forall k | 0 <= k < |kids| ensures r in ThemeTree.AreaRoles(theme.children[k]) <==> NamedAt(t, kids[k], r) {
      RepresentedRoles(t, kids[k], theme.children[k], r);
    }
    if x, y :| NamedBelow(t, kids, x, y, r) {
      var k :| 0 <= k < |kids| && kids[k] == x;
      assert NamedAt(t, kids[k], r);
    }
    if k :| 0 <= k < |kids| && NamedAt(t, kids[k], r) {
      var y :| Reaches(t.Down(), kids[k], y) && r in Own(t, y);
      assert NamedBelow(t, kids, kids[k], y, r);
    }
  }
}
