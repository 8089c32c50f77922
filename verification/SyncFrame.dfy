/** What a step of the synchronization leaves alone, and the order of the children after the ordering step. */
module SyncFrame {
  import opened Wrappers
  import opened ChildrenLists
  import opened SyncTree
  import opened SyncCounts
  import opened SyncShape
  import opened SyncAcyclic
  import opened SyncOrdering
  import opened SyncDocuments

  /** Under the items of the document no child is linked twice, apart from those that force_parents links anew. */
  ghost predicate Once(f: Flags, t: Tree, d: Document)
    requires t.Lists()
  {
    forall p, c :: 0 <= p < |t.items| && 0 <= c < |t.items| ==> OnceUnder(f, t, d, p, c)
  }

  ghost predicate OnceUnder(f: Flags, t: Tree, d: Document, p: nat, c: nat)
    requires t.Lists() && t.Has(p) && t.Has(c)
  {
    t.items[p] in d.items ==> CountOf(t.links[p], c) <= 1 || (f.forceParents && (t.items[p], t.items[c]) in d.links)
  }

  /** Only the ordering step needs that no child is linked twice. */
  ghost predicate Clean(f: Flags, t: Tree, d: Document) {
    Sound(t) && (f.forceOrdering ==> Once(f, t, d))
  }

  /** The children of the server come first, in order. */
  predicate Ordered(children: seq<nat>, server: seq<nat>) {
    children == server + External(children, server)
  }

  // What the elements that come later leave alone.

  /** The children that are also among these. */
  function Keep(children: seq<nat>, members: seq<nat>): (kept: seq<nat>) {
    if children == [] then []
    else (if children[0] in members then [children[0]] else []) + Keep(children[1..], members)
  }

  lemma {:induction false} KeepHas(children: seq<nat>, members: seq<nat>)
    ensures forall x :: x in Keep(children, members) <==> x in children && x in members
  {
    if children != [] {
      KeepHas(children[1..], members);
      assert forall x :: x in children <==> x == children[0] || x in children[1..];
    }
  }

  lemma {:induction false} KeepAll(children: seq<nat>, members: seq<nat>)
    requires forall x :: x in children ==> x in members
    ensures Keep(children, members) == children
  {
    if children != [] {
      KeepAll(children[1..], members);
      assert children == [children[0]] + children[1..];
    }
  }

  lemma {:induction false} KeepAppend(a: seq<nat>, b: seq<nat>, members: seq<nat>)
    ensures Keep(a + b, members) == Keep(a, members) + Keep(b, members)
  {
    if a == [] {
      assert a + b == b;
    } else {
      KeepAppend(a[1..], b, members);
      var all := a + b;
      assert all[0] == a[0] && all[1..] == a[1..] + b;
      Together(if a[0] in members then [a[0]] else [], Keep(a[1..], members), Keep(b, members));
    }
  }

  lemma {:induction false} KeepTwice(children: seq<nat>, first: seq<nat>, members: seq<nat>)
    requires forall x :: x in members ==> x in first
    ensures Keep(Keep(children, first), members) == Keep(children, members)
  {
    if children != [] {
      var head := if children[0] in first then [children[0]] else [];
      KeepTwice(children[1..], first, members);
      KeepAppend(head, Keep(children[1..], first), members);
    }
  }

  lemma {:induction false} ExternalAppend(a: seq<nat>, b: seq<nat>, server: seq<nat>)
    ensures External(a + b, server) == External(a, server) + External(b, server)
  {
    if a == [] {
      assert a + b == b;
    } else {
      ExternalAppend(a[1..], b, server);
      var all := a + b;
      assert all[0] == a[0] && all[1..] == a[1..] + b;
      Together(if a[0] in server then [] else [a[0]], External(a[1..], server), External(b, server));
    }
  }

  lemma Together(a: seq<nat>, b: seq<nat>, c: seq<nat>)
    ensures a + (b + c) == a + b + c
  {
  }

  lemma {:induction false} ExternalNone(children: seq<nat>, server: seq<nat>)
    requires forall x :: x in children ==> x in server
    ensures External(children, server) == []
  {
    if children != [] {
      ExternalNone(children[1..], server);
    }
  }

  lemma {:induction false} ExternalAll(children: seq<nat>, server: seq<nat>)
    requires forall x :: x in children ==> x !in server
    ensures External(children, server) == children
  {
    if children != [] {
      ExternalAll(children[1..], server);
      assert children == [children[0]] + children[1..];
    }
  }

  /** Children put after those of the server are ordered, if they are others. */
  lemma OrderedTogether(server: seq<nat>, others: seq<nat>)
    requires forall x :: x in others ==> x !in server
    ensures Ordered(server + others, server)
  {
    ExternalAppend(server, others, server);
    ExternalNone(server, server);
    ExternalAll(others, server);
    assert [] + others == others;
  }

  /** Losing children that are not the server's keeps the order. */
  lemma OrderedFewer(children: seq<nat>, after: seq<nat>, server: seq<nat>)
    requires Ordered(children, server) && after == Keep(children, after) && forall x :: x in server ==> x in after
    ensures Ordered(after, server)
  {
    var others := External(children, server);
    ExternalHas(children, server);
    KeepAppend(server, others, after);
    KeepAll(server, after);
    KeepHas(others, after);
    OrderedTogether(server, Keep(others, after));
  }

  /** The children of an item are those from before, in their order, except some of the moved items. */
  ghost predicate Undisturbed(t: Tree, after: Tree, x: nat, moved: set<Item>)
    requires Indexed(t) && Indexed(after) && t.items <= after.items && t.Has(x)
  {
    && after.Children(x) == Keep(t.Children(x), after.Children(x))
    && forall c :: c in t.Children(x) && c !in after.Children(x) ==> c < |t.items| && t.items[c] in moved
  }

  lemma UndisturbedTwice(t: Tree, first: Tree, after: Tree, x: nat, moved: set<Item>, more: set<Item>)
    requires Indexed(t) && Indexed(first) && Indexed(after) && t.items <= first.items <= after.items && t.Has(x)
    requires Undisturbed(t, first, x, moved) && Undisturbed(first, after, x, more)
    ensures Undisturbed(t, after, x, moved + more)
  {
    var a, b, c := t.Children(x), first.Children(x), after.Children(x);
    KeepHas(a, b);
    KeepHas(b, c);
    KeepTwice(a, b, c);
    forall y | y in a && y !in c ensures y < |t.items| && t.items[y] in moved + more {
      if y in b {
        ChildrenIndexed(t, x, y);
      }
    }
  }

  lemma ChildrenIndexed(t: Tree, x: nat, y: nat)
    requires Indexed(t) && t.Has(x) && y in t.Children(x)
    ensures y < |t.items|
  {
  }

  lemma SameUndisturbed(t: Tree, after: Tree, x: nat)
    requires Indexed(t) && Indexed(after) && t.items <= after.items && t.Has(x) && after.links[x] == t.links[x]
    ensures Undisturbed(t, after, x, {})
  {
    KeepAll(t.Children(x), t.Children(x));
  }

  lemma {:induction false} RemovedKept(links: seq<Link>, id: nat)
    ensures forall m :: (forall y :: y in Items(links) ==> (y in m <==> y != id)) ==> Items(RemoveItem(links, id)) == Keep(Items(links), m)
  {
    if links != [] {
      RemovedKept(links[1..], id);
      assert Items(links) == [links[0].item] + Items(links[1..]);
      var rest := RemoveItem(links[1..], id);
      assert Items([links[0]] + rest) == [links[0].item] + Items(rest);
      assert [] + rest == rest;
      forall m: seq<nat> | forall y :: y in Items(links) ==> (y in m <==> y != id)
        ensures Items(RemoveItem(links, id)) == Keep(Items(links), m)
      {
        assert forall y :: y in Items(links[1..]) ==> y in Items(links);
        assert links[0].item in Items(links);
        assert Items(links)[1..] == Items(links[1..]);
      }
    }
  }

  lemma RemovedUndisturbed(links: seq<Link>, id: nat)
    ensures Items(RemoveItem(links, id)) == Keep(Items(links), Items(RemoveItem(links, id)))
  {
    RemovedChildren(links, id);
    RemovedKept(links, id);
  }

  lemma AddItemLeaves(t: Tree, item: Item, under: seq<nat>, x: nat)
    requires Indexed(t) && MayHold(t, under, item) && t.Has(x) && x !in under
    ensures Indexed(AddItem(t, item, under)) && Undisturbed(t, AddItem(t, item, under), x, {})
  {
    AddItemIndexed(t, item, under);
    SameUndisturbed(t, AddItem(t, item, under), x);
  }

  lemma MoveItemLeaves(t: Tree, id: nat, under: seq<nat>, x: nat)
    requires Indexed(t) && t.Has(id) && MayHold(t, under, t.items[id]) && t.Has(x) && x !in under
    ensures Indexed(MoveItem(t, id, under)) && Undisturbed(t, MoveItem(t, id, under), x, {t.items[id]})
  {
    MoveItemIndexed(t, id, under);
    RemovedUndisturbed(t.links[x], id);
    RemovedChildren(t.links[x], id);
  }

  /** The step for one item: it does not touch the parents of others, nor the children of others than its parent. */
  lemma GetItemLeaves(f: Flags, s: State, el: Element, parent: Option<nat>, x: nat)
    requires Indexed(s.tree) && Placeable(s.tree, parent) && s.tree.Has(x)
    ensures var after := GetItem(f, s, el, parent).0.tree;
            && (s.tree.items[x] != ItemOf(el, parent) ==> after.parents[x] == s.tree.parents[x])
            && (parent != Some(x) ==> Undisturbed(s.tree, after, x, {ItemOf(el, parent)}))
  {
    var item, under := ItemOf(el, parent), Under(s.tree, el, parent);
    var found := Find(s.tree.items, item);
    if parent != Some(x) {
      if found.None? {
        AddItemLeaves(s.tree, item, under, x);
      } else {
        MoveItemLeaves(s.tree, found.value, under, x);
        SameUndisturbed(s.tree, s.tree, x);
        var after := GetItem(f, s, el, parent).0.tree;
        assert after == s.tree || after == MoveItem(s.tree, found.value, under);
      }
    }
  }

  /** Setting children leaves the parents of others alone, and those of the children that were already there. */
  lemma {:induction false} ParentsPlacedSame(parents: seq<seq<nat>>, group: nat, links: seq<Link>, children: seq<nat>,
                                             index: nat, x: nat)
    requires index <= |children| && (forall k :: 0 <= k < |children| ==> children[k] < |parents|)
    requires x < |parents| && Distinct(Items(links)) && (x !in children || x in Items(links))
    ensures ParentsPlaced(parents, group, links, children, index)[x] == parents[x]
    decreases |children| - index
  {
    if index < |children| {
      var child := children[index];
      CountOfDistinct(links, child);
      PlaceItems(links, child, index * 10);
      var more := if CountOf(links, child) == 1 then parents else parents[child := parents[child] + [group]];
      ParentsPlacedSame(more, group, Place(links, child, index * 10), children, index + 1, x);
    }
  }

  /** The ordering step looks at this item. */
  predicate ToOrder(f: Flags, t: Tree, id: nat) {
    f.forceOrdering && (t.IsA(id, Theme) || t.IsA(id, Group))
  }

  /** The ordering step leaves alone the parents of all but the new children, and the children of the others. */
  lemma OrderLeaves(f: Flags, t: Tree, id: nat, server: seq<nat>, x: nat)
    requires Indexed(t) && t.Has(id) && (ToOrder(f, t, id) ==> Distinct(t.Children(id)))
    requires (forall k :: 0 <= k < |server| ==> server[k] < |t.items|) && t.Has(x)
    ensures Indexed(Order(f, t, id, server)) && t.items == Order(f, t, id, server).items
    ensures x !in server || x in t.Children(id) ==> Order(f, t, id, server).parents[x] == t.parents[x]
    ensures x != id ==> Order(f, t, id, server).links[x] == t.links[x]
  {
    OrderIndexed(f, t, id, server);
    var children := server + External(t.Children(id), server);
    ExternalHas(t.Children(id), server);
    if ToOrder(f, t, id) && (x !in server || x in t.Children(id)) {
      assert forall k :: 0 <= k < |children| ==> children[k] in children;
      ParentsPlacedSame(t.parents, id, t.links[id], children, 0, x);
    }
  }

  // No child twice.

  lemma AddItemOnce(f: Flags, t: Tree, item: Item, under: seq<nat>, d: Document)
    requires Indexed(t) && MayHold(t, under, item) && Once(f, t, d)
    ensures Once(f, AddItem(t, item, under), d)
  {
    var after, id := AddItem(t, item, under), |t.items|;
    forall p, c | 0 <= p < |after.items| && 0 <= c < |after.items| ensures OnceUnder(f, after, d, p, c) {
      if p < id {
        CountOfOneMore(t.links[p], Link(id, 0), c);
        if c < id {
          assert OnceUnder(f, t, d, p, c);
        } else {
          CountOfNone(t.links[p], id);
        }
      } else {
        assert after.links[p] == [];
      }
    }
  }

  lemma MoveItemOnce(f: Flags, t: Tree, id: nat, under: seq<nat>, d: Document)
    requires Indexed(t) && t.Has(id) && MayHold(t, under, t.items[id]) && Once(f, t, d)
    ensures Once(f, MoveItem(t, id, under), d)
  {
    var after := MoveItem(t, id, under);
    forall p, c | 0 <= p < |after.items| && 0 <= c < |after.items| ensures OnceUnder(f, after, d, p, c) {
      var removed := RemoveItem(t.links[p], id);
      CountOfRemoved(t.links[p], id, c);
      CountOfOneMore(removed, Link(id, 0), c);
      assert OnceUnder(f, t, d, p, c);
    }
  }

  lemma GetItemClean(f: Flags, s: State, el: Element, parent: Option<nat>, d: Document)
    requires Clean(f, s.tree, d) && Placeable(s.tree, parent)
    ensures Clean(f, GetItem(f, s, el, parent).0.tree, d)
  {
    GetItemSound(f, s, el, parent);
    var item, under := ItemOf(el, parent), Under(s.tree, el, parent);
    var found := Find(s.tree.items, item);
    if f.forceOrdering {
      if found.None? {
        AddItemOnce(f, s.tree, item, under, d);
      } else {
        MoveItemOnce(f, s.tree, found.value, under, d);
      }
    }
  }

  /** Before the ordering step no child of the item is linked twice: those that the server gives are under it only, when
    * force_parents has moved them. */
  lemma DistinctToOrder(f: Flags, t: Tree, id: nat, server: seq<nat>, d: Document)
    requires f.forceOrdering && Clean(f, t, d) && t.Has(id) && t.items[id] in d.items
    requires f.forceParents ==> forall k :: 0 <= k < |server| ==> server[k] < |t.items| && t.parents[server[k]] == [id]
    requires forall c :: 0 <= c < |t.items| && (t.items[id], t.items[c]) in d.links ==> c in server
    ensures Distinct(t.Children(id))
  {
    forall c | c in t.Children(id) ensures CountOf(t.links[id], c) == 1 {
      ChildrenIndexed(t, id, c);
      if f.forceParents && (t.items[id], t.items[c]) in d.links {
        var k :| 0 <= k < |server| && server[k] == c;
        assert CountOf(t.links[id], c) == multiset(t.parents[c])[id];
        assert t.parents[server[k]] == [id];
      } else {
        assert OnceUnder(f, t, d, id, c);
      }
    }
    DistinctIffOnce(t.links[id]);
  }

  lemma DistinctAppend(a: seq<nat>, b: seq<nat>)
    requires Distinct(a) && Distinct(b) && forall x :: x in a ==> x !in b
    ensures Distinct(a + b)
  {
    forall i, j | 0 <= i < j < |a + b| ensures (a + b)[i] != (a + b)[j] {
      if i < |a| <= j {
        assert (a + b)[i] in a && (a + b)[j] in b;
      }
    }
  }

  lemma {:induction false} ExternalDistinct(children: seq<nat>, server: seq<nat>)
    requires Distinct(children)
    ensures Distinct(External(children, server))
  {
    if children != [] {
      assert forall i, j :: 0 <= i < j < |children[1..]| ==> children[1..][i] == children[i + 1] && children[1..][j] == children[j + 1];
      ExternalDistinct(children[1..], server);
      ExternalHas(children[1..], server);
      assert children[0] !in children[1..];
      DistinctAppend(if children[0] in server then [] else [children[0]], External(children[1..], server));
    }
  }

  /** The children after the ordering step of a theme or group: none is lost, and they are those of the server in the order
    * of the document, then the others in the order that they had, exactly when this was so before, or no child was linked
    * twice and the server names none twice. Then the stored orderings are 0, 10, 20, ... unless nothing changed. */
  lemma OrderResult(f: Flags, t: Tree, id: nat, server: seq<nat>)
    requires ToOrder(f, t, id) && Indexed(t) && forall k :: 0 <= k < |server| ==> server[k] < |t.items|
    ensures var wanted, after := server + External(t.Children(id), server), Order(f, t, id, server);
            && Indexed(after) && after.items == t.items
            && (after.Children(id) == wanted
                <==> t.Children(id) == wanted || (Distinct(t.Children(id)) && Distinct(server)))
            && (t.Children(id) == wanted ==> after == t)
            && (t.Children(id) != wanted && Distinct(t.Children(id)) && Distinct(server) ==> after.links[id] == Numbered(wanted))
            && (forall x :: x in t.Children(id) ==> x in after.Children(id))
            && (Distinct(t.Children(id)) ==> Distinct(after.Children(id)))
            && (Distinct(t.Children(id)) && Distinct(server) ==> Ordered(after.Children(id), server))
  {
    OrderIndexed(f, t, id, server);
    var others := External(t.Children(id), server);
    ExternalHas(t.Children(id), server);
    OrderedMembers(t.links[id], server + others);
    if Distinct(t.Children(id)) {
      SetChildrenDistinct(t.links[id], server + others);
      if Distinct(server) {
        ExternalDistinct(t.Children(id), server);
        DistinctAppend(server, others);
        OrderedTogether(server, others);
        SetChildrenOrderedResult(t.links[id], server + others);
      } else {
        var i, j :| 0 <= i < j < |server| && server[i] == server[j];
        assert (server + others)[i] == (server + others)[j];
      }
    } else if t.Children(id) != server + others {
      NotAsWanted(t.links[id], server);
    }
  }

  lemma {:induction false} PlaceAllDistinct(links: seq<Link>, children: seq<nat>, index: nat)
    requires index <= |children| && Distinct(Items(links))
    ensures Distinct(Items(PlaceAll(links, children, index)))
    decreases |children| - index
  {
    if index < |children| {
      PlaceItems(links, children[index], index * 10);
      PlaceAllDistinct(Place(links, children[index], index * 10), children, index + 1);
    }
  }

  /** Setting children links no child twice that was not. */
  lemma SetChildrenDistinct(links: seq<Link>, children: seq<nat>)
    requires Distinct(Items(links))
    ensures Distinct(Items(SetChildrenOrdered(links, children)))
  {
    var placed := PlaceAll(links, children, 0);
    PlaceAllDistinct(links, children, 0);
    forall c | c in Items(SortLinks(placed)) ensures CountOf(SortLinks(placed), c) == 1 {
      CountOfSorted(placed, c);
      CountOfDistinct(placed, c);
    }
    DistinctIffOnce(SortLinks(placed));
  }

  /** Setting children of which one is linked twice adds rows for it. */
  lemma NotAsWanted(links: seq<Link>, server: seq<nat>)
    requires !Distinct(Items(links))
    ensures var wanted := server + External(Items(links), server); Items(SetChildrenOrdered(links, wanted)) != wanted
  {
    DistinctIffOnce(links);
    var c :| c in Items(links) && CountOf(links, c) != 1;
    var wanted := server + External(Items(links), server);
    SetChildrenTwice(links, wanted, c);
    CountOfItems(SetChildrenOrdered(links, wanted), c);
  }
}
