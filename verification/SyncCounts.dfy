/** How often a child is linked under the same parent, and that both lists of links agree on it. */
module SyncCounts {
  import opened ChildrenLists
  import opened SyncTree
  import opened SyncShape

  /** Each link of a parent to a child is one entry of both lists. */
  ghost predicate SameCounts(t: Tree)
    requires t.Lists()
  {
    forall p, c {:trigger CountOf(t.links[p], c)} :: 0 <= p < |t.items| && 0 <= c < |t.items| ==>
      CountOf(t.links[p], c) == multiset(t.parents[c])[p]
  }

  lemma {:induction false} CountOfAppend(a: seq<Link>, b: seq<Link>, item: nat)
    ensures CountOf(a + b, item) == CountOf(a, item) + CountOf(b, item)
  {
    if a == [] {
      assert a + b == b;
    } else {
      CountOfAppend(a[1..], b, item);
      assert (a + b)[1..] == a[1..] + b;
    }
  }

  lemma CountOfOneMore(links: seq<Link>, l: Link, item: nat)
    ensures CountOf(links + [l], item) == CountOf(links, item) + if l.item == item then 1 else 0
  {
    CountOfAppend(links, [l], item);
    assert CountOf([], item) == 0;
    assert [l][1..] == [];
  }

  /** The count says how often the item is among the items of the links. */
  lemma {:induction false} CountOfItems(links: seq<Link>, item: nat)
    ensures CountOf(links, item) == multiset(Items(links))[item]
  {
    if links != [] {
      CountOfItems(links[1..], item);
      assert Items(links) == [links[0].item] + Items(links[1..]);
    }
  }

  lemma CountOfSameItems(a: seq<Link>, b: seq<Link>, item: nat)
    requires Items(a) == Items(b)
    ensures CountOf(a, item) == CountOf(b, item)
  {
    CountOfItems(a, item);
    CountOfItems(b, item);
  }

  /** The children are distinct exactly when none is linked twice. */
  lemma DistinctIffOnce(links: seq<Link>)
    ensures Distinct(Items(links)) <==> forall c :: c in Items(links) ==> CountOf(links, c) == 1
  {
    forall i, j | 0 <= i < j < |links| && Items(links)[i] == Items(links)[j] ensures CountOf(links, Items(links)[i]) >= 2 {
      TwiceCounted(links, i, j);
    }
    if Distinct(Items(links)) {
      forall c | c in Items(links) ensures CountOf(links, c) == 1 {
        CountOfDistinct(links, c);
      }
    }
  }

  lemma TwiceCounted(links: seq<Link>, i: nat, j: nat)
    requires i < j < |links| && links[i].item == links[j].item
    ensures CountOf(links, links[i].item) >= 2
  {
    var x := links[i].item;
    assert links == (links[..i] + [links[i]]) + (links[i + 1..j] + [links[j]]) + links[j + 1..];
    CountOfAppend((links[..i] + [links[i]]) + (links[i + 1..j] + [links[j]]), links[j + 1..], x);
    CountOfAppend(links[..i] + [links[i]], links[i + 1..j] + [links[j]], x);
    CountOfOneMore(links[..i], links[i], x);
    CountOfOneMore(links[i + 1..j], links[j], x);
  }

  lemma {:induction false} CountOfInsert(link: Link, sorted: seq<Link>, item: nat)
    ensures CountOf(Insert(link, sorted), item) == CountOf(sorted + [link], item)
  {
    if sorted != [] && sorted[|sorted| - 1].ordering > link.ordering {
      var front, last := sorted[..|sorted| - 1], sorted[|sorted| - 1];
      CountOfInsert(link, front, item);
      CountOfOneMore(Insert(link, front), last, item);
      CountOfOneMore(front, link, item);
      CountOfOneMore(sorted, link, item);
      assert sorted == front + [last];
      CountOfOneMore(front, last, item);
    }
  }

  lemma {:induction false} CountOfSorted(links: seq<Link>, item: nat)
    ensures CountOf(SortLinks(links), item) == CountOf(links, item)
  {
    if links != [] {
      var front, last := links[..|links| - 1], links[|links| - 1];
      CountOfSorted(front, item);
      CountOfInsertLast(links, SortLinks(front), item);
      assert SortLinks(links) == Insert(last, SortLinks(front));
    }
  }

  lemma CountOfInsertLast(links: seq<Link>, sorted: seq<Link>, item: nat)
    requires links != [] && CountOf(sorted, item) == CountOf(links[..|links| - 1], item)
    ensures CountOf(Insert(links[|links| - 1], sorted), item) == CountOf(links, item)
  {
    var front, last := links[..|links| - 1], links[|links| - 1];
    CountOfInsert(last, sorted, item);
    CountOfOneMore(sorted, last, item);
    CountOfOneMore(front, last, item);
    assert links == front + [last];
  }

  /** A child that is linked once keeps its row, any other gets one more. */
  lemma CountOfPlace(links: seq<Link>, child: nat, ordering: int, item: nat)
    ensures CountOf(Place(links, child, ordering), item)
         == CountOf(links, item) + if item == child && CountOf(links, child) != 1 then 1 else 0
  {
    if CountOf(links, child) == 1 {
      CountOfSameItems(Reorder(links, child, ordering), links, item);
    } else {
      CountOfOneMore(links, Link(child, ordering), item);
    }
  }

  /** A child that is linked twice gets one more row each time it is among the children to set. */
  lemma {:induction false} PlaceAllTwice(links: seq<Link>, children: seq<nat>, index: nat, item: nat)
    requires index <= |children| && CountOf(links, item) >= 2
    ensures CountOf(PlaceAll(links, children, index), item) == CountOf(links, item) + multiset(children[index..])[item]
    decreases |children| - index
  {
    if index < |children| {
      CountOfPlace(links, children[index], index * 10, item);
      PlaceAllTwice(Place(links, children[index], index * 10), children, index + 1, item);
      assert children[index..] == [children[index]] + children[index + 1..];
    } else {
      assert children[index..] == [];
    }
  }

  /** The ordered mode adds to the rows of a child linked twice as many as it is among the children to set. */
  lemma SetChildrenTwice(links: seq<Link>, children: seq<nat>, item: nat)
    requires CountOf(links, item) >= 2
    ensures CountOf(SetChildrenOrdered(links, children), item) == CountOf(links, item) + multiset(children)[item]
  {
    PlaceAllTwice(links, children, 0, item);
    assert children[0..] == children;
    CountOfSorted(PlaceAll(links, children, 0), item);
  }

  lemma {:induction false} PlaceAllMore(links: seq<Link>, children: seq<nat>, index: nat, item: nat)
    requires index <= |children|
    ensures CountOf(PlaceAll(links, children, index), item) >= CountOf(links, item)
    decreases |children| - index
  {
    if index < |children| {
      CountOfPlace(links, children[index], index * 10, item);
      PlaceAllMore(Place(links, children[index], index * 10), children, index + 1, item);
    }
  }

  /** The ordered mode never removes a row. */
  lemma SetChildrenMore(links: seq<Link>, children: seq<nat>, item: nat)
    ensures CountOf(SetChildrenOrdered(links, children), item) >= CountOf(links, item)
  {
    PlaceAllMore(links, children, 0, item);
    CountOfSorted(PlaceAll(links, children, 0), item);
  }

  // Both lists keep the same counts.

  lemma CountOfNone(links: seq<Link>, item: nat)
    requires forall k :: 0 <= k < |links| ==> links[k].item != item
    ensures CountOf(links, item) == 0
  {
    assert item !in Items(links);
  }

  lemma AddItemCounts(t: Tree, item: Item, under: seq<nat>)
    requires Indexed(t) && SameCounts(t) && |under| <= 1 && forall k :: 0 <= k < |under| ==> under[k] < |t.items|
    ensures SameCounts(AddItem(t, item, under))
  {
    var after, id := AddItem(t, item, under), |t.items|;
    forall p, c | 0 <= p < |after.items| && 0 <= c < |after.items|
      ensures CountOf(after.links[p], c) == multiset(after.parents[c])[p]
    {
      if p < id {
        if p in under {
          CountOfOneMore(t.links[p], Link(id, 0), c);
        }
        if c < id {
          assert CountOf(t.links[p], c) == multiset(t.parents[c])[p];
        } else {
          CountOfNone(t.links[p], id);
          assert under == [] || under == [under[0]];
        }
      } else {
        assert p !in after.parents[c];
      }
    }
  }

  lemma {:induction false} CountOfRemoved(links: seq<Link>, id: nat, item: nat)
    ensures CountOf(RemoveItem(links, id), item) == if item == id then 0 else CountOf(links, item)
  {
    if links != [] {
      CountOfRemoved(links[1..], id, item);
      var head := if links[0].item == id then [] else [links[0]];
      CountOfAppend(head, RemoveItem(links[1..], id), item);
      CountOfAppend([links[0]], links[1..], item);
      assert links == [links[0]] + links[1..];
      CountOfOneMore([], links[0], item);
      assert [] + [links[0]] == [links[0]];
    }
  }

  /** The rows of an item after all were removed and one was added to a parent. */
  lemma CountOfMoved(links: seq<Link>, id: nat, here: bool, c: nat)
    ensures CountOf(RemoveItem(links, id) + (if here then [Link(id, 0)] else []), c)
         == if c == id then (if here then 1 else 0) else CountOf(links, c)
  {
    CountOfRemoved(links, id, c);
    if here {
      CountOfOneMore(RemoveItem(links, id), Link(id, 0), c);
    } else {
      assert RemoveItem(links, id) + [] == RemoveItem(links, id);
    }
  }

  lemma MovedLinks(t: Tree, id: nat, under: seq<nat>, p: nat)
    requires t.Lists() && t.Has(id) && |under| <= 1 && (forall k :: 0 <= k < |under| ==> under[k] < |t.items|) && t.Has(p)
    ensures MoveItem(t, id, under).links[p] == RemoveItem(t.links[p], id) + if p in under then [Link(id, 0)] else []
  {
    assert under == [] || under == [under[0]];
  }

  lemma MoveItemCounts(t: Tree, id: nat, under: seq<nat>)
    requires Indexed(t) && SameCounts(t) && t.Has(id) && |under| <= 1
    requires forall k :: 0 <= k < |under| ==> under[k] < |t.items|
    ensures SameCounts(MoveItem(t, id, under))
  {
    var after := MoveItem(t, id, under);
    forall p, c | 0 <= p < |after.items| && 0 <= c < |after.items|
      ensures CountOf(after.links[p], c) == multiset(after.parents[c])[p]
    {
      MovedLinks(t, id, under, p);
      CountOfMoved(t.links[p], id, p in under, c);
      if c == id {
        assert under == [] || under == [under[0]];
      } else {
        assert CountOf(t.links[p], c) == multiset(t.parents[c])[p];
      }
    }
  }

  lemma {:induction false} ParentsPlacedCounts(parents: seq<seq<nat>>, group: nat, links: seq<Link>, children: seq<nat>,
                                               index: nat, c: nat, p: nat)
    requires index <= |children| && (forall k :: 0 <= k < |children| ==> children[k] < |parents|) && c < |parents|
    ensures multiset(ParentsPlaced(parents, group, links, children, index)[c])[p]
            + (if p == group then CountOf(links, c) else 0)
         == multiset(parents[c])[p] + (if p == group then CountOf(PlaceAll(links, children, index), c) else 0)
    decreases |children| - index
  {
    if index < |children| {
      var child := children[index];
      var more := if CountOf(links, child) == 1 then parents else parents[child := parents[child] + [group]];
      CountOfPlace(links, child, index * 10, c);
      ParentsPlacedCounts(more, group, Place(links, child, index * 10), children, index + 1, c, p);
    }
  }

  lemma SetChildrenCounts(t: Tree, group: nat, children: seq<nat>)
    requires Indexed(t) && SameCounts(t) && t.Has(group) && forall k :: 0 <= k < |children| ==> children[k] < |t.items|
    ensures SameCounts(SetChildren(t, group, children))
  {
    var after := SetChildren(t, group, children);
    forall p, c | 0 <= p < |after.items| && 0 <= c < |after.items|
      ensures CountOf(after.links[p], c) == multiset(after.parents[c])[p]
    {
      assert CountOf(t.links[p], c) == multiset(t.parents[c])[p];
      ParentsPlacedCounts(t.parents, group, t.links[group], children, 0, c, p);
      CountOfSorted(PlaceAll(t.links[group], children, 0), c);
    }
  }

  lemma OrderCounts(f: Flags, t: Tree, id: nat, server: seq<nat>)
    requires Indexed(t) && SameCounts(t) && t.Has(id) && forall k :: 0 <= k < |server| ==> server[k] < |t.items|
    ensures Order(f, t, id, server).Lists() && SameCounts(Order(f, t, id, server))
  {
    var children := server + External(t.Children(id), server);
    ExternalHas(t.Children(id), server);
    assert forall k :: 0 <= k < |children| ==> children[k] in children;
    SetChildrenCounts(t, id, children);
  }
}
