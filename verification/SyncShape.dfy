/** What each step of the synchronization does to the links, and the shape of the tree that every step keeps. */
module SyncShape {
  import opened TreeGraph
  import opened ChildrenLists
  import opened SyncTree

  /** The lists of children and of parents say the same, and link only what may be linked. */
  ghost predicate Shaped(t: Tree) {
    Consistent(t) && WellKinded(t)
  }

  /** The links to `id` from its parents. */
  function Above(under: seq<nat>, id: nat): Edges {
    set k | 0 <= k < |under| :: (under[k], id)
  }

  predicate KindsFit(parent: Kind, child: Kind) {
    (parent == Theme && child == Group) || (parent == Group && child != Theme)
  }

  /** An item can be under at most one parent, of the right kind. */
  predicate MayHold(t: Tree, under: seq<nat>, item: Item) {
    && |under| <= 1
    && (forall k :: 0 <= k < |under| ==> under[k] < |t.items| && KindsFit(t.items[under[k]].kind, item.kind))
  }

  lemma AppendChildren(links: seq<seq<Link>>, under: seq<nat>, id: nat, p: nat)
    requires |under| <= 1 && forall k :: 0 <= k < |under| ==> under[k] < |links|
    requires p < |links|
    ensures forall c :: c in Items(Append(links, under, id)[p]) <==> c in Items(links[p]) || (c == id && p in under)
  {
    if p in under {
      assert under[0] == p;
      assert Items(links[p] + [Link(id, 0)]) == Items(links[p]) + [id];
    }
  }

  lemma AddItemShaped(t: Tree, item: Item, under: seq<nat>)
    requires Shaped(t) && MayHold(t, under, item)
    ensures Shaped(AddItem(t, item, under))
    ensures AddItem(t, item, under).Edges() == t.Edges() + Above(under, |t.items|)
  {
    var after, id := AddItem(t, item, under), |t.items|;
    AddItemIndexed(t, item, under);
    forall p, c | 0 <= p < |after.items| && 0 <= c < |after.items|
      ensures c in after.Children(p) <==> p in after.parents[c]
    {
      if p < id {
        AppendChildren(t.links, under, id, p);
        assert id !in t.Children(p) by {
          assert forall k :: 0 <= k < |t.links[p]| ==> t.Children(p)[k] < id;
        }
        assert c < id ==> (c in t.Children(p) <==> p in t.parents[c]);
      } else {
        assert after.links[p] == [] && after.Children(p) == [];
        assert forall k :: 0 <= k < |after.parents[c]| ==> after.parents[c][k] < id;
      }
    }
    forall p, c | 0 <= c < |after.items| && p in after.parents[c] ensures Linkable(after, p, c) {
      if c < id {
        assert Linkable(t, p, c);
      }
    }
    forall e ensures e in after.Edges() <==> e in t.Edges() + Above(under, id) {
      if e in after.Edges() && e.1 == id {
        var k :| 0 <= k < |under| && under[k] == e.0;
        assert (under[k], id) in Above(under, id);
      }
    }
  }

  lemma ItemOfLink(links: seq<Link>, l: Link)
    requires l in links
    ensures l.item in Items(links)
  {
    var k :| 0 <= k < |links| && links[k] == l;
    assert Items(links)[k] == l.item;
  }

  lemma RemovedChildren(links: seq<Link>, id: nat)
    ensures forall c :: c in Items(RemoveItem(links, id)) <==> c in Items(links) && c != id
  {
    var removed := RemoveItem(links, id);
    forall c | c in Items(removed) ensures c in Items(links) && c != id {
      var k :| 0 <= k < |removed| && Items(removed)[k] == c;
      assert removed[k] in removed;
      ItemOfLink(links, removed[k]);
    }
    forall c | c in Items(links) && c != id ensures c in Items(removed) {
      var k :| 0 <= k < |links| && Items(links)[k] == c;
      assert links[k] in links;
      ItemOfLink(removed, links[k]);
    }
  }

  /** The links of a tree, without those to `id`. */
  function EdgesNotTo(edges: Edges, id: nat): Edges {
    set e | e in edges && e.1 != id
  }

  lemma MoveItemShaped(t: Tree, id: nat, under: seq<nat>)
    requires Shaped(t) && t.Has(id) && MayHold(t, under, t.items[id])
    ensures Shaped(MoveItem(t, id, under))
    ensures MoveItem(t, id, under).Edges() == EdgesNotTo(t.Edges(), id) + Above(under, id)
  {
    var after := MoveItem(t, id, under);
    MoveItemIndexed(t, id, under);
    var removed := seq(|t.links|, p requires 0 <= p < |t.links| => RemoveItem(t.links[p], id));
    forall p, c | 0 <= p < |after.items| && 0 <= c < |after.items|
      ensures c in after.Children(p) <==> p in after.parents[c]
    {
      AppendChildren(removed, under, id, p);
      RemovedChildren(t.links[p], id);
      assert c in t.Children(p) <==> p in t.parents[c];
    }
    forall p, c | 0 <= c < |after.items| && p in after.parents[c] ensures Linkable(after, p, c) {
      if c != id {
        assert Linkable(t, p, c);
      }
    }
    forall e ensures e in after.Edges() <==> e in EdgesNotTo(t.Edges(), id) + Above(under, id) {
      if e in after.Edges() && e.1 == id {
        var k :| 0 <= k < |under| && under[k] == e.0;
        assert (under[k], id) in Above(under, id);
      }
    }
  }

  /** The children that the server gives can be linked under the item. */
  ghost predicate MayBeUnder(t: Tree, id: nat, server: seq<nat>) {
    forall k :: 0 <= k < |server| ==> server[k] < |t.items| && (t.IsA(id, Theme) || t.IsA(id, Group) ==> Linkable(t, id, server[k]))
  }

  lemma SetChildrenShaped(t: Tree, group: nat, children: seq<nat>)
    requires Shaped(t) && t.Has(group)
    requires forall k :: 0 <= k < |children| ==> children[k] < |t.items| && Linkable(t, group, children[k])
    ensures Shaped(SetChildren(t, group, children))
    ensures forall p, c :: 0 <= c < |t.items| ==>
              (p in SetChildren(t, group, children).parents[c] <==> p in t.parents[c] || (p == group && c in children))
  {
    var after := SetChildren(t, group, children);
    SetChildrenIndexed(t, group, children);
    OrderedMembers(t.links[group], children);
    assert forall c :: 0 <= c < |t.parents| ==> (c in t.Children(group) <==> group in t.parents[c]);
    ParentsPlacedMembers(t.parents, group, t.links[group], children, 0);
    assert children[0..] == children;
    forall p, c | 0 <= c < |after.items| && p in after.parents[c] ensures Linkable(after, p, c) {
      if p in t.parents[c] {
        assert Linkable(t, p, c);
      } else {
        var k :| 0 <= k < |children| && children[k] == c;
        assert Linkable(t, group, children[k]);
      }
    }
    forall p, c | 0 <= p < |after.items| && 0 <= c < |after.items|
      ensures c in after.Children(p) <==> p in after.parents[c]
    {
      assert c in t.Children(p) <==> p in t.parents[c];
    }
  }

  /** The ordering step only adds links, from the item to the children of the server. */
  lemma OrderShaped(f: Flags, t: Tree, id: nat, server: seq<nat>)
    requires Indexed(t) && Shaped(t) && t.Has(id) && forall k :: 0 <= k < |server| ==> server[k] < |t.items|
    requires MayBeUnder(t, id, server)
    ensures Shaped(Order(f, t, id, server))
    ensures f.forceOrdering && (t.IsA(id, Theme) || t.IsA(id, Group)) ==>
              Order(f, t, id, server).Edges() == t.Edges() + LinksTo(id, server)
    ensures !(f.forceOrdering && (t.IsA(id, Theme) || t.IsA(id, Group))) ==> Order(f, t, id, server) == t
  {
    OrderIndexed(f, t, id, server);
    var after := Order(f, t, id, server);
    if f.forceOrdering && (t.IsA(id, Theme) || t.IsA(id, Group)) {
      var children := server + External(t.Children(id), server);
      ExternalHas(t.Children(id), server);
      assert forall k :: 0 <= k < |children| ==> children[k] in children;
      forall k | 0 <= k < |children| ensures children[k] < |t.items| && Linkable(t, id, children[k]) {
        if k >= |server| {
          assert children[k] in t.Children(id);
          var j :| 0 <= j < |t.Children(id)| && t.Children(id)[j] == children[k];
          assert id in t.parents[children[k]];
        }
      }
      SetChildrenShaped(t, id, children);
      forall p, c | 0 <= c < |t.items| ensures p in after.parents[c] <==> p in t.parents[c] || (p == id && c in server) {
        if t.Children(id) != children {
          assert c in children ==> c in server || c in t.Children(id);
          assert c in t.Children(id) <==> id in t.parents[c];
        } else if c in server {
          var k :| 0 <= k < |server| && server[k] == c;
          assert children[k] == c;
          assert c in t.Children(id);
        }
      }
      OrderEdges(t, after, id, server);
    }
  }

  lemma OrderEdges(t: Tree, after: Tree, id: nat, server: seq<nat>)
    requires Indexed(t) && Indexed(after) && after.items == t.items && t.Has(id)
    requires forall k :: 0 <= k < |server| ==> server[k] < |t.items|
    requires forall p, c :: 0 <= c < |t.items| ==> (p in after.parents[c] <==> p in t.parents[c] || (p == id && c in server))
    ensures after.Edges() == t.Edges() + LinksTo(id, server)
  {
  }
}
