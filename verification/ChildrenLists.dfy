/** The list of children of a group or theme, as the rows that link it to them, and how _set_children changes it. */
module ChildrenLists {
  datatype Link = Link(item: nat, ordering: int)

  function Items(links: seq<Link>): (items: seq<nat>)
    ensures |items| == |links|
  {
    seq(|links|, k requires 0 <= k < |links| => links[k].item)
  }

  predicate Distinct(items: seq<nat>) {
    forall i, j :: 0 <= i < j < |items| ==> items[i] != items[j]
  }

  function CountOf(links: seq<Link>, item: nat): (n: nat)
    ensures n == 0 <==> item !in Items(links)
  {
    if links == [] then 0
    else
      assert item in Items(links) <==> links[0].item == item || item in Items(links[1..]) by {
        assert Items(links) == [links[0].item] + Items(links[1..]);
      }
      (if links[0].item == item then 1 else 0) + CountOf(links[1..], item)
  }

  /** The links of `item` get this ordering. */
  function Reorder(links: seq<Link>, item: nat, ordering: int): (after: seq<Link>)
    ensures |after| == |links| && Items(after) == Items(links)
  {
    seq(|links|, k requires 0 <= k < |links| => if links[k].item == item then Link(item, ordering) else links[k])
  }

  /** One child in the ordered mode: its only link gets the ordering, otherwise a link is added. */
  function Place(links: seq<Link>, child: nat, ordering: int): seq<Link> {
    if CountOf(links, child) == 1 then Reorder(links, child, ordering) else links + [Link(child, ordering)]
  }

  function PlaceAll(links: seq<Link>, children: seq<nat>, index: nat): seq<Link>
    requires index <= |children|
    decreases |children| - index
  {
    if index == |children| then links
    else PlaceAll(Place(links, children[index], index * 10), children, index + 1)
  }

  predicate Sorted(links: seq<Link>) {
    forall i, j :: 0 <= i < j < |links| ==> links[i].ordering <= links[j].ordering
  }

  /** Puts a link after those that are not greater. */
  function Insert(link: Link, sorted: seq<Link>): (after: seq<Link>)
    ensures multiset(after) == multiset(sorted) + multiset{link}
  {
    if sorted == [] || sorted[|sorted| - 1].ordering <= link.ordering then sorted + [link]
    else
      assert sorted == sorted[..|sorted| - 1] + [sorted[|sorted| - 1]];
      Insert(link, sorted[..|sorted| - 1]) + [sorted[|sorted| - 1]]
  }

  lemma {:induction false} InsertSorted(link: Link, sorted: seq<Link>)
    requires Sorted(sorted)
    ensures Sorted(Insert(link, sorted))
  {
    if sorted != [] && sorted[|sorted| - 1].ordering > link.ordering {
      var front, last := sorted[..|sorted| - 1], sorted[|sorted| - 1];
      InsertSorted(link, front);
      var before := Insert(link, front);
      forall k | 0 <= k < |before| ensures before[k].ordering <= last.ordering {
        assert before[k] in multiset(before);
        assert before[k] == link || before[k] in front;
      }
    }
  }

  /** The stable sort by ordering. */
  function SortLinks(links: seq<Link>): (sorted: seq<Link>)
    ensures multiset(sorted) == multiset(links)
    ensures Sorted(sorted)
  {
    if links == [] then []
    else
      assert links == links[..|links| - 1] + [links[|links| - 1]];
      InsertSorted(links[|links| - 1], SortLinks(links[..|links| - 1]));
      Insert(links[|links| - 1], SortLinks(links[..|links| - 1]))
  }

  lemma SortMembers(links: seq<Link>)
    ensures forall l :: l in SortLinks(links) <==> l in links
  {
    forall l ensures l in SortLinks(links) <==> l in links {
      assert l in SortLinks(links) <==> l in multiset(SortLinks(links));
      assert l in links <==> l in multiset(links);
    }
  }

  function SetChildrenOrdered(links: seq<Link>, children: seq<nat>): seq<Link> {
    SortLinks(PlaceAll(links, children, 0))
  }

  /** The links that stand for `children` in their order. */
  function Numbered(children: seq<nat>): (links: seq<Link>)
    ensures Items(links) == children
  {
    seq(|children|, k requires 0 <= k < |children| => Link(children[k], k * 10))
  }

  /** The children that are not there yet. */
  function NewOnes(current: seq<nat>, children: seq<nat>): seq<nat> {
    if children == [] then []
    else (if children[0] in current then [] else [children[0]]) + NewOnes(current, children[1..])
  }

  // The ordered mode gives the wanted list.

  /** The links have the ordering that goes with their place among the first `n` children. */
  ghost predicate PlacedUpTo(links: seq<Link>, children: seq<nat>, n: nat)
    requires n <= |children|
  {
    forall k :: 0 <= k < n ==> Link(children[k], k * 10) in links
  }

  lemma CountOfDistinct(links: seq<Link>, item: nat)
    requires Distinct(Items(links))
    ensures CountOf(links, item) == if item in Items(links) then 1 else 0
  {
    if links != [] {
      assert Items(links) == [links[0].item] + Items(links[1..]);
      forall i, j | 0 <= i < j < |links[1..]| ensures Items(links[1..])[i] != Items(links[1..])[j] {
        assert Items(links)[i + 1] != Items(links)[j + 1];
      }
      CountOfDistinct(links[1..], item);
      if item == links[0].item {
        forall i | 0 <= i < |links[1..]| ensures Items(links[1..])[i] != item {
          assert Items(links)[0] != Items(links)[i + 1];
        }
      }
    }
  }

  lemma PlaceItems(links: seq<Link>, child: nat, ordering: int)
    requires Distinct(Items(links))
    ensures Distinct(Items(Place(links, child, ordering)))
    ensures forall x :: x in Items(Place(links, child, ordering)) <==> x == child || x in Items(links)
    ensures Link(child, ordering) in Place(links, child, ordering)
    ensures forall l :: l in links && l.item != child ==> l in Place(links, child, ordering)
  {
    CountOfDistinct(links, child);
    var after := Place(links, child, ordering);
    if child in Items(links) {
      var k :| 0 <= k < |links| && links[k].item == child;
      assert after[k] == Link(child, ordering);
      forall l | l in links && l.item != child ensures l in after {
        var i :| 0 <= i < |links| && links[i] == l;
        assert after[i] == l;
      }
    } else {
      assert Items(after) == Items(links) + [child];
      assert after[|links|] == Link(child, ordering);
    }
  }

  lemma {:induction false} PlaceAllPlaces(links: seq<Link>, children: seq<nat>, index: nat)
    requires index <= |children| && Distinct(children) && Distinct(Items(links))
    requires PlacedUpTo(links, children, index)
    ensures var after := PlaceAll(links, children, index);
            && Distinct(Items(after)) && PlacedUpTo(after, children, |children|)
            && forall x :: x in Items(after) <==> x in Items(links) || x in children[index..]
    decreases |children| - index
  {
    if index < |children| {
      var next := Place(links, children[index], index * 10);
      PlaceItems(links, children[index], index * 10);
      PlaceAllPlaces(next, children, index + 1);
      assert children[index..] == [children[index]] + children[index + 1..];
    }
  }

  predicate StrictlySorted(links: seq<Link>) {
    forall i, j :: 0 <= i < j < |links| ==> links[i].ordering < links[j].ordering
  }

  /** Strictly sorted lists with the same members are the same. */
  lemma {:induction false} SameMembersSameList(a: seq<Link>, b: seq<Link>)
    requires StrictlySorted(a) && StrictlySorted(b) && forall l :: l in a <==> l in b
    ensures a == b
    decreases |a|
  {
    if a == [] {
      assert forall i :: 0 <= i < |b| ==> b[i] in b;
    } else {
      assert a[0] in b && b[0] in a;
      var i :| 0 <= i < |b| && b[i] == a[0];
      var j :| 0 <= j < |a| && a[j] == b[0];
      assert a[0] == b[0];
      forall l ensures l in a[1..] <==> l in b[1..] {
        assert l in a <==> l == a[0] || l in a[1..];
        assert l in b <==> l == b[0] || l in b[1..];
        assert a[0] !in a[1..] && b[0] !in b[1..];
      }
      SameMembersSameList(a[1..], b[1..]);
    }
  }

  /** With no child twice, setting children that include the present ones gives exactly these children, in this order,
    * with the orderings 0, 10, 20, ... */
  lemma SetChildrenOrderedResult(links: seq<Link>, children: seq<nat>)
    requires Distinct(Items(links)) && Distinct(children)
    requires forall x :: x in Items(links) ==> x in children
    ensures SetChildrenOrdered(links, children) == Numbered(children)
  {
    var placed := PlaceAll(links, children, 0);
    PlaceAllPlaces(links, children, 0);
    assert children[0..] == children;
    var wanted := Numbered(children);
    forall l ensures l in placed <==> l in wanted {
      PlacedIsWanted(placed, children, l);
    }
    var sorted := SortLinks(placed);
    SortMembers(placed);
    SortedStrictly(placed, sorted);
    SameMembersSameList(sorted, wanted);
  }

  lemma PlacedIsWanted(placed: seq<Link>, children: seq<nat>, l: Link)
    requires Distinct(Items(placed)) && PlacedUpTo(placed, children, |children|)
    requires forall x :: x in Items(placed) ==> x in children
    ensures l in placed <==> l in Numbered(children)
  {
    var wanted := Numbered(children);
    if l in placed {
      var i :| 0 <= i < |placed| && placed[i] == l;
      assert Items(placed)[i] == l.item;
      assert l.item in children;
      var k :| 0 <= k < |children| && children[k] == l.item;
      assert wanted[k] == Link(children[k], k * 10);
      var j :| 0 <= j < |placed| && placed[j] == wanted[k];
      assert Items(placed)[j] == l.item;
      assert i == j;
    }
    if l in wanted {
      var k :| 0 <= k < |wanted| && wanted[k] == l;
      assert Link(children[k], k * 10) in placed;
    }
  }

  /** A sorted list of links with distinct items and orderings given by the items is strictly sorted. */
  lemma SortedStrictly(placed: seq<Link>, sorted: seq<Link>)
    requires Distinct(Items(placed)) && Sorted(sorted) && multiset(sorted) == multiset(placed)
    requires forall l, m :: l in placed && m in placed && l.ordering == m.ordering ==> l.item == m.item
    ensures StrictlySorted(sorted)
  {
    forall i, j | 0 <= i < j < |sorted| ensures sorted[i].ordering < sorted[j].ordering {
      assert sorted[i] in multiset(sorted) && sorted[j] in multiset(sorted);
      if sorted[i].ordering == sorted[j].ordering {
        assert sorted[i] == sorted[j] by {
          var a :| 0 <= a < |placed| && placed[a] == sorted[i];
          var b :| 0 <= b < |placed| && placed[b] == sorted[j];
          assert Items(placed)[a] == Items(placed)[b];
        }
        TwiceInMultiset(sorted, i, j);
        OnceInMultiset(placed, sorted[i]);
        assert false;
      }
    }
  }

  lemma TwiceInMultiset(links: seq<Link>, i: nat, j: nat)
    requires i < j < |links| && links[i] == links[j]
    ensures multiset(links)[links[i]] >= 2
  {
    assert links == links[..j] + [links[j]] + links[j + 1..];
    assert links[..j] == links[..i] + [links[i]] + links[i + 1..j];
  }

  lemma {:induction false} OnceInMultiset(links: seq<Link>, l: Link)
    requires Distinct(Items(links))
    ensures multiset(links)[l] <= 1
    decreases |links|
  {
    if links != [] {
      assert links == [links[0]] + links[1..];
      assert forall i :: 0 <= i < |links[1..]| ==> Items(links[1..])[i] == Items(links)[i + 1];
      OnceInMultiset(links[1..], l);
      if l == links[0] {
        forall i | 0 <= i < |links[1..]| ensures links[1..][i] != l {
          assert Items(links)[0] != Items(links)[i + 1];
        }
        assert l !in links[1..];
      }
    }
  }

  /** A group or theme, with the rows that link it to its children. */
  class TreeGroup {
    var childrenRelation: seq<Link>

    constructor (links: seq<Link>)
      ensures childrenRelation == links
    {
      childrenRelation := links;
    }

    /** Sets the children; the present ones must be among them, so that no row is removed. In the ordered mode the rows
      * are those of SetChildrenOrdered; otherwise the new children come last and the rows are numbered anew. */
    method SetChildren(children: seq<nat>, order: bool)
      requires forall x :: x in Items(childrenRelation) ==> x in children
      modifies this
      ensures order ==> childrenRelation == SetChildrenOrdered(old(childrenRelation), children)
      ensures order && Distinct(Items(old(childrenRelation))) && Distinct(children) ==> childrenRelation == Numbered(children)
      ensures !order ==>
                childrenRelation == Numbered(Items(old(childrenRelation)) + NewOnes(Items(old(childrenRelation)), children))
    {
      if order {
        var index := 0;
        while index < |children|
          invariant 0 <= index <= |children|
          invariant PlaceAll(childrenRelation, children, index) == PlaceAll(old(childrenRelation), children, 0)
        {
          if CountOf(childrenRelation, children[index]) == 1 {
            childrenRelation := Reorder(childrenRelation, children[index], index * 10);
          } else {
            childrenRelation := childrenRelation + [Link(children[index], index * 10)];
          }
          index := index + 1;
        }
        childrenRelation := SortLinks(childrenRelation);
        if Distinct(Items(old(childrenRelation))) && Distinct(children) {
          SetChildrenOrderedResult(old(childrenRelation), children);
        }
      } else {
        var current := Items(childrenRelation);
        var index := 0;
        while index < |children|
          invariant 0 <= index <= |children|
          invariant Items(childrenRelation) + NewOnes(current, children[index..]) == current + NewOnes(current, children)
        {
          assert children[index..][0] == children[index] && children[index..][1..] == children[index + 1..];
          if children[index] !in current {
            ghost var before := Items(childrenRelation);
            childrenRelation := childrenRelation + [Link(children[index], 1000000 + index)];
            assert Items(childrenRelation) == before + [children[index]];
            assert before + ([children[index]] + NewOnes(current, children[index + 1..]))
                == before + [children[index]] + NewOnes(current, children[index + 1..]);
          }
          index := index + 1;
        }
        var numbered := 0;
        ghost var items := Items(childrenRelation);
        assert items + [] == items;
        while numbered < |childrenRelation|
          invariant 0 <= numbered <= |childrenRelation| && Items(childrenRelation) == items
          invariant forall k :: 0 <= k < numbered ==> childrenRelation[k].ordering == k * 10
        {
          childrenRelation := childrenRelation[numbered := childrenRelation[numbered].(ordering := numbered * 10)];
          assert forall k :: 0 <= k < |items| ==> Items(childrenRelation)[k] == items[k];
          numbered := numbered + 1;
        }
        assert forall k :: 0 <= k < |childrenRelation| ==> childrenRelation[k] == Numbered(items)[k] by {
          assert forall k :: 0 <= k < |childrenRelation| ==> childrenRelation[k].item == items[k];
        }
      }
    }
  }
}
