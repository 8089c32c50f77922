/** The steps by which an administrator changes the layer tree, and the cycle they cannot make. */
module TreeEditing {
  import opened Wrappers
  import opened TreeGraph
  import opened AncestorClosure

  datatype Kind = ThemeKind | GroupKind | LayerKind

  /** The tree items and the rows that link a parent to a child. */
  datatype Tree = Tree(items: map<int, Kind>, links: seq<(int, int)>)
  {
    function Edges(): Edges {
      EdgesOf(links)
    }

    predicate IsA(item: int, kind: Kind) {
      item in items && items[item] == kind
    }
  }

  /** Links join existing items; themes are no children, layers no parents, and themes hold groups only. */
  predicate WellFormed(t: Tree) {
    forall k :: 0 <= k < |t.links| ==> Linkable(t, t.links[k].0, t.links[k].1)
  }

  predicate Linkable(t: Tree, parent: int, child: int) {
    (t.IsA(parent, ThemeKind) && t.IsA(child, GroupKind))
    || (t.IsA(parent, GroupKind) && (t.IsA(child, GroupKind) || t.IsA(child, LayerKind)))
  }

  /** What the form of a group or of a theme proposes as a child; item is None for a new one. */
  ghost predicate Candidate(t: Tree, item: Option<int>, onlyGroups: bool, child: int) {
    && child in t.items && t.items[child] != ThemeKind
    && (onlyGroups ==> t.items[child] == GroupKind)
    && (item.Some? ==> child != item.value && !Reaches(t.Edges(), child, item.value))
  }

  /** The candidates, by the recursive query. */
  method Treeitems(t: Tree, item: Option<int>, onlyGroups: bool) returns (candidates: set<int>)
    requires Acyclic(t.Edges())
    ensures forall child :: child in candidates <==> Candidate(t, item, onlyGroups, child)
  {
    candidates := set child | child in t.items && t.items[child] != ThemeKind;
    if item.Some? {
      var ancestors := SearchAncestors(t.links, item.value);
      candidates := set child | child in candidates && child !in ancestors && child != item.value;
    }
    if onlyGroups {
      candidates := set child | child in candidates && t.items[child] == GroupKind;
    }
  }

  function WithoutParent(links: seq<(int, int)>, parent: int): (kept: seq<(int, int)>)
    ensures forall e :: e in kept <==> e in links && e.0 != parent
  {
    if links == [] then []
    else
      assert forall e :: e in links <==> e == links[0] || e in links[1..];
      (if links[0].0 == parent then [] else [links[0]]) + WithoutParent(links[1..], parent)
  }

  function Without(links: seq<(int, int)>, parent: int, child: int): (kept: seq<(int, int)>)
    ensures forall e :: e in kept ==> e in links
  {
    if links == [] then []
    else if links[0] == (parent, child) then links[1..]
    else [links[0]] + Without(links[1..], parent, child)
  }

  function WithoutItem(links: seq<(int, int)>, item: int): (kept: seq<(int, int)>)
    ensures forall e :: e in kept <==> e in links && e.0 != item && e.1 != item
  {
    if links == [] then []
    else
      assert forall e :: e in links <==> e == links[0] || e in links[1..];
      (if links[0].0 == item || links[0].1 == item then [] else [links[0]]) + WithoutItem(links[1..], item)
  }

  /** A parent is given when an item is added from the tree. */
  datatype Step =
    | Save(item: int, children: seq<int>, parent: Option<int>)
    | Create(item: int, kind: Kind, children: seq<int>, parent: Option<int>)
    | Unlink(group: int, child: int)
    | Delete(item: int)

  /** What the form accepts: children among the candidates, a parent of the right kind. A child is unlinked when it is linked
    * once; when it is linked twice the query for at most one row fails. */
  ghost predicate Accepted(t: Tree, step: Step) {
    match step
    case Save(item, children, parent) =>
      && item in t.items && Fits(t, t.items[item], children, parent)
      && forall k :: 0 <= k < |children| ==> Candidate(t, Some(item), t.items[item].ThemeKind?, children[k])
    case Create(item, kind, children, parent) =>
      && item !in t.items && Fits(t, kind, children, parent)
      && forall k :: 0 <= k < |children| ==> Candidate(t, None, kind.ThemeKind?, children[k])
    case Unlink(parent, child) => multiset(t.links)[(parent, child)] == 1
    case Delete(item) => item in t.items
  }

  predicate Fits(t: Tree, kind: Kind, children: seq<int>, parent: Option<int>) {
    match kind
    case ThemeKind => parent.None?
    case GroupKind => parent.Some? ==> t.IsA(parent.value, ThemeKind) || t.IsA(parent.value, GroupKind)
    case LayerKind => children == [] && (parent.Some? ==> t.IsA(parent.value, GroupKind))
  }

  function ChildRows(item: int, children: seq<int>): seq<(int, int)> {
    seq(|children|, k requires 0 <= k < |children| => (item, children[k]))
  }

  function ParentRow(item: int, parent: Option<int>): seq<(int, int)> {
    if parent.Some? then [(parent.value, item)] else []
  }

  function Apply(t: Tree, step: Step): Tree {
    match step
    case Save(item, children, parent) =>
      Tree(t.items, WithoutParent(t.links, item) + ChildRows(item, children) + ParentRow(item, parent))
    case Create(item, kind, children, parent) =>
      Tree(t.items[item := kind], t.links + ChildRows(item, children) + ParentRow(item, parent))
    case Unlink(parent, child) => Tree(t.items, Without(t.links, parent, child))
    case Delete(item) => Tree(t.items - {item}, WithoutItem(t.links, item))
  }

  /** The condition on a given parent, which no form checks: it is neither the item nor below one of the children. */
  ghost predicate ParentClear(t: Tree, step: Step) {
    match step
    case Save(item, children, Some(p)) =>
      p != item && forall k :: 0 <= k < |children| ==> !Reaches(t.Edges(), children[k], p)
    case Create(_, _, children, Some(p)) => forall k :: 0 <= k < |children| ==> !Reaches(t.Edges(), children[k], p)
    case _ => true
  }

  lemma {:induction false} WithoutOnly(links: seq<(int, int)>, parent: int, child: int)
    requires multiset(links)[(parent, child)] == 1
    ensures EdgesOf(Without(links, parent, child)) == EdgesOf(links) - {(parent, child)}
  {
    var kept := Without(links, parent, child);
    assert links == [links[0]] + links[1..];
    if links[0] == (parent, child) {
      assert multiset(links) == multiset{links[0]} + multiset(links[1..]);
      assert (parent, child) !in links[1..];
    } else {
      assert multiset(links) == multiset{links[0]} + multiset(links[1..]);
      WithoutOnly(links[1..], parent, child);
      EdgesOfConcat([links[0]], Without(links[1..], parent, child));
      EdgesOfConcat([links[0]], links[1..]);
      assert EdgesOf([links[0]]) == {links[0]} by {
        assert [links[0]][0] == links[0];
      }
    }
  }

  /** Unlinking a child removes exactly its link. */
  lemma UnlinkRemovesLink(t: Tree, group: int, child: int)
    requires Accepted(t, Unlink(group, child))
    ensures Apply(t, Unlink(group, child)).Edges() == t.Edges() - {(group, child)}
  {
    WithoutOnly(t.links, group, child);
  }

  /** The links after a step: those of the item are replaced by the given ones, or the one to the child is gone, or all from
    * and to the item. All others stay. */
  ghost predicate Links(t: Tree, step: Step, e: (int, int)) {
    match step
    case Save(item, children, parent) =>
      (e in t.links && e.0 != item) || (e.0 == item && e.1 in children) || (parent == Some(e.0) && e.1 == item)
    case Create(item, _, children, parent) =>
      e in t.links || (e.0 == item && e.1 in children) || (parent == Some(e.0) && e.1 == item)
    case Unlink(group, child) => e in t.links && e != (group, child)
    case Delete(item) => e in t.links && e.0 != item && e.1 != item
  }

  lemma ChildRowsHave(item: int, children: seq<int>, e: (int, int))
    ensures e in ChildRows(item, children) <==> e.0 == item && e.1 in children
  {
    if e.0 == item && e.1 in children {
      var k :| 0 <= k < |children| && children[k] == e.1;
      assert ChildRows(item, children)[k] == e;
    }
  }

  lemma StepLinks(t: Tree, step: Step, e: (int, int))
    requires Accepted(t, step)
    ensures e in Apply(t, step).links <==> Links(t, step, e)
    ensures forall id: int :: id in Apply(t, step).items <==>
              if step.Create? then id in t.items || id == step.item
              else if step.Delete? then id in t.items && id != step.item else id in t.items
    ensures forall id: int :: id in Apply(t, step).items ==>
              Apply(t, step).items[id] == if step.Create? && id == step.item then step.kind else t.items[id]
  {
    match step
    case Save(item, children, _) =>
      ChildRowsHave(item, children, e);
    case Create(item, _, children, _) =>
      ChildRowsHave(item, children, e);
    case Unlink(group, child) =>
      UnlinkRemovesLink(t, group, child);
      assert e in Apply(t, step).Edges() <==> e in t.Edges() - {(group, child)};
    case Delete(_) =>
  }

  /** The children that the form takes, when the item is there already. */
  ghost predicate NotAbove(t: Tree, item: int, children: seq<int>) {
    forall k :: 0 <= k < |children| ==> children[k] != item && !Reaches(t.Edges(), children[k], item)
  }

  /** What a new item is linked to is there. */
  predicate AreThere(t: Tree, children: seq<int>, parent: Option<int>) {
    (forall c :: c in children ==> c in t.items) && (parent.Some? ==> parent.value in t.items)
  }

  lemma RowsLinkable(t: Tree, after: Tree, item: int, children: seq<int>, parent: Option<int>)
    requires WellFormed(after) && (forall e :: e in ChildRows(item, children) + ParentRow(item, parent) ==> e in after.links)
    ensures forall k :: 0 <= k < |children| ==> Linkable(after, item, children[k])
    ensures parent.Some? ==> Linkable(after, parent.value, item)
  {
    forall k | 0 <= k < |children| ensures Linkable(after, item, children[k]) {
      assert ChildRows(item, children)[k] == (item, children[k]);
      OldRowLinkable(after, (item, children[k]));
    }
    if parent.Some? {
      assert ParentRow(item, parent)[0] == (parent.value, item);
      OldRowLinkable(after, (parent.value, item));
    }
  }

  lemma LinkableFits(t: Tree, after: Tree, item: int, kind: Kind, children: seq<int>, parent: Option<int>)
    requires after.IsA(item, kind) && (forall id :: id in t.items ==> id in after.items && after.items[id] == t.items[id])
    requires forall k :: 0 <= k < |children| ==> Linkable(after, item, children[k])
    requires parent.Some? ==> Linkable(after, parent.value, item)
    requires after.items.Keys == t.items.Keys || AreThere(t, children, parent)
    ensures Fits(t, kind, children, parent)
    ensures forall k :: 0 <= k < |children| ==> Candidate(t, None, kind.ThemeKind?, children[k])
  {
    forall k | 0 <= k < |children| ensures Candidate(t, None, kind.ThemeKind?, children[k]) {
      assert Linkable(after, item, children[k]) && children[k] in children;
    }
    if children != [] {
      assert Linkable(after, item, children[0]);
    }
  }

  /** What the forms accept is what keeps the kinds of links, with children that are there and not the item or above it. */
  lemma AcceptedIff(t: Tree, step: Step)
    requires WellFormed(t)
    ensures Accepted(t, step)
       <==> match step
            case Save(item, children, _) => item in t.items && NotAbove(t, item, children) && WellFormed(Apply(t, step))
            case Create(item, _, children, parent) =>
              item !in t.items && AreThere(t, children, parent) && WellFormed(Apply(t, step))
            case Unlink(group, child) => multiset(t.links)[(group, child)] == 1
            case Delete(item) => item in t.items
  {
    if Accepted(t, step) {
      StepWellFormed(t, step);
    }
    match step
    case Save(item, children, parent) =>
      if item in t.items && NotAbove(t, item, children) && WellFormed(Apply(t, step)) {
        RowsLinkable(t, Apply(t, step), item, children, parent);
        LinkableFits(t, Apply(t, step), item, t.items[item], children, parent);
      }
    case Create(item, kind, children, parent) =>
      if item !in t.items && AreThere(t, children, parent) && WellFormed(Apply(t, step)) {
        RowsLinkable(t, Apply(t, step), item, children, parent);
        LinkableFits(t, Apply(t, step), item, kind, children, parent);
      }
    case Unlink(_, _) =>
    case Delete(_) =>
  }

  lemma StepWellFormed(t: Tree, step: Step)
    requires WellFormed(t) && Accepted(t, step)
    ensures WellFormed(Apply(t, step))
  {
    var after := Apply(t, step);
    match step
    case Save(item, children, parent) =>
      RowsWellFormed(t, after, item, children, parent);
    case Create(item, kind, children, parent) =>
      RowsWellFormed(t, after, item, children, parent);
    case Unlink(_, _) =>
      forall e | e in after.links ensures Linkable(after, e.0, e.1) {
        OldRowLinkable(t, e);
      }
    case Delete(item) =>
      forall e | e in after.links ensures Linkable(after, e.0, e.1) {
        OldRowLinkable(t, e);
      }
  }

  lemma OldRowLinkable(t: Tree, e: (int, int))
    requires WellFormed(t) && e in t.links
    ensures Linkable(t, e.0, e.1)
  {
  }

  lemma RowsWellFormed(t: Tree, after: Tree, item: int, children: seq<int>, parent: Option<int>)
    requires WellFormed(t) && item in after.items && (item in t.items ==> after.items == t.items)
    requires item !in t.items ==> after.items == t.items[item := after.items[item]]
    requires Fits(t, after.items[item], children, parent)
    requires forall k :: 0 <= k < |children| ==> Candidate(t, None, after.items[item].ThemeKind?, children[k])
    requires forall e :: e in after.links ==>
               e in t.links || e in ChildRows(item, children) || e in ParentRow(item, parent)
    ensures WellFormed(after)
  {
    forall e | e in after.links ensures Linkable(after, e.0, e.1) {
      if e in t.links {
        OldRowLinkable(t, e);
      } else if e in ChildRows(item, children) {
        var k :| 0 <= k < |children| && ChildRows(item, children)[k] == e;
        assert Candidate(t, None, after.items[item].ThemeKind?, children[k]);
      }
    }
  }

  lemma EdgesOfConcat(a: seq<(int, int)>, b: seq<(int, int)>)
    ensures EdgesOf(a + b) == EdgesOf(a) + EdgesOf(b)
  {
  }

  lemma ChildRowsEdges(item: int, children: seq<int>)
    ensures EdgesOf(ChildRows(item, children)) == LinksTo(item, children)
  {
    forall e | e in LinksTo(item, children) ensures e in EdgesOf(ChildRows(item, children)) {
      var k :| 0 <= k < |children| && e == (item, children[k]);
      assert ChildRows(item, children)[k] == e;
    }
  }

  /** The children of an item are replaced: no cycle. The way down from the item is then through these children. */
  lemma {:induction false} ChildrenReplaced(edges: Edges, kept: Edges, item: int, children: seq<int>)
    requires Acyclic(edges) && kept <= edges
    requires forall e :: e in edges && e.0 != item ==> e in kept
    requires forall e :: e in kept ==> e.0 != item
    requires forall k :: 0 <= k < |children| ==> children[k] != item && !Reaches(edges, children[k], item)
    ensures Acyclic(kept + LinksTo(item, children))
    ensures forall p :: Reaches(kept + LinksTo(item, children), item, p) <==>
              p == item || exists k :: 0 <= k < |children| && Reaches(edges, children[k], p)
  {
    AcyclicFewer(edges, kept);
    forall k | 0 <= k < |children| ensures !Reaches(kept, children[k], item) {
      if Reaches(kept, children[k], item) {
        ReachesMore(kept, edges, children[k], item);
      }
    }
    AcyclicWithLinks(kept, item, children);
    forall p
      ensures Reaches(kept + LinksTo(item, children), item, p) <==>
              p == item || exists k :: 0 <= k < |children| && Reaches(edges, children[k], p)
    {
      BelowItem(edges, kept, item, children, p);
    }
  }

  lemma BelowItem(edges: Edges, kept: Edges, item: int, children: seq<int>, p: int)
    requires Acyclic(edges) && kept <= edges
    requires forall e :: e in edges && e.0 != item ==> e in kept
    requires forall e :: e in kept ==> e.0 != item
    requires forall k :: 0 <= k < |children| ==> children[k] != item && !Reaches(edges, children[k], item)
    ensures Reaches(kept + LinksTo(item, children), item, p) <==>
            p == item || exists k :: 0 <= k < |children| && Reaches(edges, children[k], p)
  {
    var after := kept + LinksTo(item, children);
    ReachesSelf(after, item);
    if Reaches(after, item, p) && p != item {
      var c := ReachesFirst(after, item, p);
      var k :| 0 <= k < |children| && (item, c) == (item, children[k]);
      AwayFromItem(after, edges, item, c, p);
    }
    if k :| 0 <= k < |children| && Reaches(edges, children[k], p) {
      AwayFromItem(edges, after, item, children[k], p);
      assert (item, children[k]) in LinksTo(item, children);
      ReachesByEdge(after, item, children[k]);
      ReachesTransitive(after, item, children[k], p);
    }
  }

  /** A way from below the item does not pass the item, so only the links of the others matter. */
  lemma {:induction false} AwayFromItem(a: Edges, b: Edges, item: int, from: int, p: int)
    requires Reaches(a, from, p) && from != item
    requires forall e :: e in a && e.0 != item ==> e in b
    requires !Reaches(a, from, item) || !Reaches(b, from, item)
    ensures Reaches(b, from, p)
  {
    var w :| Walks(a, w, from, p);
    AwayFromItemWalk(a, b, item, w);
  }

  lemma {:induction false} AwayFromItemWalk(a: Edges, b: Edges, item: int, w: seq<int>)
    requires IsWalk(a, w) && w[0] != item
    requires forall e :: e in a && e.0 != item ==> e in b
    requires !Reaches(a, w[0], item) || !Reaches(b, w[0], item)
    ensures Reaches(b, w[0], w[|w| - 1])
    decreases |w|
  {
    if |w| == 1 {
      ReachesSelf(b, w[0]);
    } else {
      assert (w[0], w[1]) in a && (w[0], w[1]) in b;
      ReachesByEdge(a, w[0], w[1]);
      ReachesByEdge(b, w[0], w[1]);
      if Reaches(a, w[1], item) {
        ReachesTransitive(a, w[0], w[1], item);
      }
      if Reaches(b, w[1], item) {
        ReachesTransitive(b, w[0], w[1], item);
      }
      ReachesSelf(a, item);
      ReachesSelf(b, item);
      assert w[1..][|w[1..]| - 1] == w[|w| - 1];
      AwayFromItemWalk(a, b, item, w[1..]);
      ReachesTransitive(b, w[0], w[1], w[|w| - 1]);
    }
  }

  /** A step makes no cycle exactly when the parent it is given, if any, is clear. */
  lemma StepAcyclic(t: Tree, step: Step)
    requires WellFormed(t) && Acyclic(t.Edges()) && Accepted(t, step)
    ensures Acyclic(Apply(t, step).Edges()) <==> ParentClear(t, step)
  {
    var edges := t.Edges();
    match step
    case Save(item, children, parent) =>
      SavedAcyclic(t, WithoutParent(t.links, item), item, children, parent);
    case Create(item, kind, children, parent) =>
      forall e | e in edges ensures e.0 != item && e.1 != item {
        var k :| 0 <= k < |t.links| && t.links[k] == e;
      }
      forall k | 0 <= k < |children| ensures children[k] != item && !Reaches(edges, children[k], item) {
        ReachesRoot(edges, children[k], item);
      }
      SavedAcyclic(t, t.links, item, children, parent);
    case Unlink(parent, child) =>
      AcyclicFewer(edges, EdgesOf(Without(t.links, parent, child)));
    case Delete(item) =>
      AcyclicFewer(edges, EdgesOf(WithoutItem(t.links, item)));
  }

  lemma SavedAcyclic(t: Tree, keptRows: seq<(int, int)>, item: int, children: seq<int>, parent: Option<int>)
    requires Acyclic(t.Edges())
    requires forall e :: e in keptRows <==> e in t.links && e.0 != item
    requires forall k :: 0 <= k < |children| ==> children[k] != item && !Reaches(t.Edges(), children[k], item)
    ensures Acyclic(EdgesOf(keptRows + ChildRows(item, children) + ParentRow(item, parent))) <==>
              (parent.Some? ==>
                 parent.value != item && forall k :: 0 <= k < |children| ==> !Reaches(t.Edges(), children[k], parent.value))
  {
    var edges, kept := t.Edges(), EdgesOf(keptRows);
    var saved := kept + LinksTo(item, children);
    ChildrenReplaced(edges, kept, item, children);
    EdgesOfConcat(keptRows, ChildRows(item, children));
    ChildRowsEdges(item, children);
    EdgesOfConcat(keptRows + ChildRows(item, children), ParentRow(item, parent));
    if parent.Some? {
      var row := [(parent.value, item)];
      assert row[0] == (parent.value, item);
      assert EdgesOf(row) == {(parent.value, item)};
      AcyclicWithEdge(saved, parent.value, item);
    } else {
      assert EdgesOf([]) == {};
      assert saved + {} == saved;
    }
  }

  /** A run of accepted steps, each with a clear parent. */
  ghost predicate CarefulRun(t: Tree, steps: seq<Step>)
    decreases |steps|
  {
    steps == []
    || (Accepted(t, steps[0]) && ParentClear(t, steps[0]) && CarefulRun(Apply(t, steps[0]), steps[1..]))
  }

  function ApplyAll(t: Tree, steps: seq<Step>): Tree
    decreases |steps|
  {
    if steps == [] then t else ApplyAll(Apply(t, steps[0]), steps[1..])
  }

  /** The main result: every run keeps the tree well formed and without cycles, so the query for ancestors always ends.
    * Steps that are given no parent need no care. */
  lemma {:induction false} RunKeepsTree(t: Tree, steps: seq<Step>)
    requires WellFormed(t) && Acyclic(t.Edges()) && CarefulRun(t, steps)
    ensures WellFormed(ApplyAll(t, steps)) && Acyclic(ApplyAll(t, steps).Edges())
    ensures forall item :: Ends(ApplyAll(t, steps).links, item)
    decreases |steps|
  {
    if steps == [] {
      AcyclicIffAllEnd(t.links);
    } else {
      StepWellFormed(t, steps[0]);
      StepAcyclic(t, steps[0]);
      RunKeepsTree(Apply(t, steps[0]), steps[1..]);
    }
  }

  /** The parent is not checked: adding a new group under a group and taking that group as its child makes a cycle. */
  lemma GivenParentCanMakeCycle(a: int, b: int)
    requires a != b
    ensures var t, step := Tree(map[a := GroupKind], []), Create(b, GroupKind, [a], Some(a));
            WellFormed(t) && Acyclic(t.Edges()) && Accepted(t, step) && !Acyclic(Apply(t, step).Edges())
  {
    var t, step := Tree(map[a := GroupKind], []), Create(b, GroupKind, [a], Some(a));
    ReachesSelf(t.Edges(), a);
    assert step.children[0] == a;
    StepAcyclic(t, step);
  }
}
