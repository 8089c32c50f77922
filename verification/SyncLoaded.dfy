/** With force_ordering alone: when a synchronization changes nothing however the database hands out the lists of children,
  * which are read sorted by their stored orderings, rows with the same ordering in any order. */
module SyncLoaded {
  import opened Wrappers
  import opened ChildrenLists
  import opened SyncTree
  import opened SyncCounts
  import opened SyncShape
  import opened SyncAcyclic
  import opened SyncOrdering
  import opened SyncDocuments
  import opened SyncFrame
  import opened SyncSorting
  import opened SyncFixpoint
  import opened SyncStored
  import opened SyncSettles

  // One list.

  /** A list as it may be read. */
  ghost predicate Loads(links: seq<Link>, loaded: seq<Link>) {
    multiset(loaded) == multiset(links) && Sorted(loaded)
  }

  /** The first of two children must come before the other. */
  ghost predicate Comes(x: nat, y: nat, server: seq<nat>) {
    exists i :: 0 <= i < |server| && server[i] == x && y !in server[..i + 1]
  }

  /** The row must be read before the other one. */
  ghost predicate Precedes(l: Link, m: Link, server: seq<nat>) {
    Comes(l.item, m.item, server) ==> l.ordering < m.ordering
  }

  /** Each child of the server has one row, and their orderings increase and are smaller than all others. */
  ghost predicate InStoredOrder(links: seq<Link>, server: seq<nat>) {
    OneRowEach(links, server) && forall l, m :: l in links && m in links ==> Precedes(l, m, server)
  }

  lemma CountWithout(links: seq<Link>, k: nat, c: nat)
    requires k < |links|
    ensures CountOf(links, c) == CountOf(links[..k] + links[k + 1..], c) + if links[k].item == c then 1 else 0
    ensures multiset(links[..k] + links[k + 1..]) == multiset(links) - multiset{links[k]}
  {
    var front, back := links[..k], links[k + 1..];
    assert links == front + [links[k]] + back;
    CountOfAppend(front + [links[k]], back, c);
    CountOfOneMore(front, links[k], c);
    CountOfAppend(front, back, c);
  }

  lemma {:induction false} CountOfSame(a: seq<Link>, b: seq<Link>, c: nat)
    requires multiset(a) == multiset(b)
    ensures CountOf(a, c) == CountOf(b, c)
    decreases |a|
  {
    if a == [] {
      assert |multiset(b)| == 0;
    } else {
      assert a[0] in multiset(b);
      var k :| 0 <= k < |b| && b[k] == a[0];
      CountWithout(a, 0, c);
      CountWithout(b, k, c);
      CountOfSame(a[..0] + a[1..], b[..k] + b[k + 1..], c);
    }
  }

  lemma LoadedMembers(links: seq<Link>, loaded: seq<Link>)
    requires Loads(links, loaded)
    ensures forall l :: l in links <==> l in loaded
  {
    assert forall l :: l in links <==> l in multiset(links);
    assert forall l :: l in loaded <==> l in multiset(loaded);
  }

  lemma LoadedInOrder(links: seq<Link>, loaded: seq<Link>, server: seq<nat>)
    requires Loads(links, loaded) && InStoredOrder(links, server)
    ensures InStoredOrder(loaded, server)
  {
    LoadedMembers(links, loaded);
    forall c | c in server ensures c in Items(loaded) && CountOf(loaded, c) == 1 {
      CountOfSame(links, loaded, c);
    }
  }

  /** The row of each child of the server, in document order. */
  ghost function RowsOf(links: seq<Link>, server: seq<nat>): (rows: seq<Link>)
    requires OneRowEach(links, server)
    ensures |rows| == |server| && forall k :: 0 <= k < |rows| ==> rows[k] in links && rows[k].item == server[k]
  {
    if server == [] then []
    else
      assert server[0] in Items(links);
      var k :| 0 <= k < |links| && Items(links)[k] == server[0];
      [links[k]] + RowsOf(links, server[1..])
  }

  lemma ComesIff(server: seq<nat>, i: nat, j: nat)
    requires Distinct(server) && i < |server| && j < |server|
    ensures Comes(server[i], server[j], server) <==> i < j
  {
    if i < j {
      assert server[i] == server[i] && server[j] !in server[..i + 1];
    } else {
      assert server[j] == server[..i + 1][j];
    }
  }

  lemma OthersCome(server: seq<nat>, x: nat, y: nat)
    ensures x in server && y !in server ==> Comes(x, y, server)
  {
  }

  lemma RowsIncrease(links: seq<Link>, server: seq<nat>)
    requires Distinct(server) && InStoredOrder(links, server)
    ensures StrictlySorted(RowsOf(links, server))
  {
    var rows := RowsOf(links, server);
    forall i, j | 0 <= i < j < |rows| ensures rows[i].ordering < rows[j].ordering {
      ComesIff(server, i, j);
      assert Precedes(rows[i], rows[j], server);
    }
  }

  lemma RowsMembers(links: seq<Link>, server: seq<nat>, l: Link)
    requires OneRowEach(links, server)
    ensures l in RowsOf(links, server) <==> l in links && l.item in server
  {
    var rows := RowsOf(links, server);
    if l in links && l.item in server {
      var i :| 0 <= i < |server| && server[i] == l.item;
      var a :| 0 <= a < |links| && links[a] == rows[i];
      var b :| 0 <= b < |links| && links[b] == l;
      OnlyRow(links, server, a, b);
      assert rows[i] == l;
    }
  }

  lemma SortedComes(loaded: seq<Link>, server: seq<nat>, i: nat, j: nat)
    requires Sorted(loaded) && InStoredOrder(loaded, server) && i < j < |loaded|
    ensures !Comes(loaded[j].item, loaded[i].item, server)
  {
    assert Precedes(loaded[j], loaded[i], server);
  }

  /** In a sorted list in stored order the children of the server come first. */
  lemma SortedInOrder(loaded: seq<Link>, server: seq<nat>)
    requires Distinct(server) && Sorted(loaded) && InStoredOrder(loaded, server)
    ensures Ordered(Items(loaded), server)
  {
    forall i, j | 0 <= i < j < |loaded| && loaded[j].item in server ensures loaded[i].item in server {
      SortedComes(loaded, server, i, j);
      OthersCome(server, loaded[j].item, loaded[i].item);
    }
    var n := LeadingRows(loaded, server);
    LeadingIncrease(loaded, server, n);
    RowsIncrease(loaded, server);
    forall l ensures l in loaded[..n] <==> l in RowsOf(loaded, server) {
      RowsMembers(loaded, server, l);
      assert forall i :: n <= i < |loaded| ==> loaded[i].item !in server;
    }
    SameMembersSameList(loaded[..n], RowsOf(loaded, server));
    LeadingOrdered(loaded, server, n);
  }

  lemma LeadingIncrease(loaded: seq<Link>, server: seq<nat>, n: nat)
    requires Distinct(server) && Sorted(loaded) && InStoredOrder(loaded, server)
    requires n <= |loaded| && forall i :: 0 <= i < n ==> loaded[i].item in server
    ensures StrictlySorted(loaded[..n])
  {
    forall i, j | 0 <= i < j < n ensures loaded[i].ordering < loaded[j].ordering {
      var a :| 0 <= a < |server| && server[a] == loaded[i].item;
      var b :| 0 <= b < |server| && server[b] == loaded[j].item;
      SortedComes(loaded, server, i, j);
      ComesIff(server, a, b);
      ComesIff(server, b, a);
      assert Precedes(loaded[i], loaded[j], server);
      if a == b {
        OnlyRow(loaded, server, i, j);
      }
    }
  }

  lemma LeadingOrdered(loaded: seq<Link>, server: seq<nat>, n: nat)
    requires n <= |loaded| && n == |server| && (forall k :: 0 <= k < n ==> loaded[..n][k].item == server[k])
    requires forall i :: n <= i < |loaded| ==> loaded[i].item !in server
    ensures Ordered(Items(loaded), server)
  {
    var others := Items(loaded[n..]);
    assert loaded == loaded[..n] + loaded[n..];
    ItemsConcat(loaded[..n], loaded[n..]);
    assert Items(loaded[..n]) == server;
    forall x | x in others ensures x !in server {
      var k :| 0 <= k < |others| && others[k] == x;
      assert loaded[n + k].item == x;
    }
    OrderedTogether(server, others);
  }

  lemma OrderedOneRow(rows: seq<Link>, server: seq<nat>)
    requires Distinct(server) && Ordered(Items(rows), server)
    ensures OneRowEach(rows, server)
  {
    forall c | c in server ensures c in Items(rows) && CountOf(rows, c) == 1 {
      OrderedOnce(Items(rows), server, c);
      CountOfItems(rows, c);
    }
  }

  lemma NotUpTo(server: seq<nat>, i: nat, y: nat)
    requires i < |server| && y !in server[..i + 1]
    ensures forall k :: 0 <= k <= i ==> server[k] != y
  {
    assert forall k :: 0 <= k <= i ==> server[..i + 1][k] == server[k];
  }

  /** In an ordered list a child that must come before another does. */
  lemma OrderedComes(rows: seq<Link>, server: seq<nat>, a: nat, b: nat)
    requires Distinct(server) && Ordered(Items(rows), server) && a < |rows| && b < |rows|
    requires Comes(rows[a].item, rows[b].item, server)
    ensures a < b
  {
    var i :| 0 <= i < |server| && server[i] == rows[a].item && rows[b].item !in server[..i + 1];
    OrderedOneRow(rows, server);
    assert Items(rows)[i] == server[i];
    OnlyRow(rows, server, i, a);
    assert b < |server| ==> Items(rows)[b] == server[b];
    NotUpTo(server, i, rows[b].item);
  }

  lemma Swapped(rows: seq<Link>, a: nat, b: nat)
    requires a < b < |rows| && Sorted(rows) && rows[a].ordering == rows[b].ordering
    ensures Sorted(rows[a := rows[b]][b := rows[a]]) && multiset(rows[a := rows[b]][b := rows[a]]) == multiset(rows)
  {
  }

  /** However the list is read, the children of the server come first in document order, exactly when it is in stored order. */
  lemma AlwaysOrderedIff(links: seq<Link>, server: seq<nat>)
    requires Distinct(server)
    ensures (forall loaded :: Loads(links, loaded) ==> Ordered(Items(loaded), server)) <==> InStoredOrder(links, server)
  {
    if InStoredOrder(links, server) {
      forall loaded | Loads(links, loaded) ensures Ordered(Items(loaded), server) {
        LoadedInOrder(links, loaded, server);
        SortedInOrder(loaded, server);
      }
    }
    if forall loaded :: Loads(links, loaded) ==> Ordered(Items(loaded), server) {
      AlwaysOrdered(links, server);
    }
  }

  lemma AlwaysOrdered(links: seq<Link>, server: seq<nat>)
    requires Distinct(server) && forall loaded :: Loads(links, loaded) ==> Ordered(Items(loaded), server)
    ensures InStoredOrder(links, server)
  {
    var sorted := SortLinks(links);
    assert Loads(links, sorted);
    OrderedOneRow(sorted, server);
    LoadedMembers(links, sorted);
    forall c | c in server ensures c in Items(links) && CountOf(links, c) == 1 {
      CountOfSame(links, sorted, c);
    }
    forall l, m | l in links && m in links ensures Precedes(l, m, server) {
      if Comes(l.item, m.item, server) {
        var a :| 0 <= a < |sorted| && sorted[a] == l;
        var b :| 0 <= b < |sorted| && sorted[b] == m;
        OrderedComes(sorted, server, a, b);
        if l.ordering == m.ordering {
          var other := sorted[a := m][b := l];
          Swapped(sorted, a, b);
          assert Loads(links, other);
          OrderedComes(other, server, b, a);
        }
      }
    }
  }

  // What the ordering step leaves.

  lemma NumberedInOrder(server: seq<nat>, others: seq<nat>)
    requires Distinct(server + others)
    ensures InStoredOrder(Numbered(server + others), server)
  {
    var wanted := server + others;
    var links := Numbered(wanted);
    forall c | c in server ensures c in Items(links) && CountOf(links, c) == 1 {
      assert c in wanted;
      CountOfDistinct(links, c);
    }
    forall l, m | l in links && m in links ensures Precedes(l, m, server) {
      var a :| 0 <= a < |wanted| && links[a] == l;
      var b :| 0 <= b < |wanted| && links[b] == m;
      if Comes(l.item, m.item, server) {
        var i :| 0 <= i < |server| && server[i] == l.item && m.item !in server[..i + 1];
        assert wanted[i] == wanted[a];
        NotUpTo(server, i, m.item);
        assert forall k :: 0 <= k <= i ==> wanted[k] == server[k];
      }
    }
  }

  /** When no child is linked twice, the ordering step leaves a list in stored order exactly when it was so before or the
    * step changed the order of the children. */
  lemma OrderStoresIff(f: Flags, t: Tree, id: nat, server: seq<nat>)
    requires ToOrder(f, t, id) && Indexed(t) && Distinct(server) && Distinct(t.Children(id))
    requires forall k :: 0 <= k < |server| ==> server[k] < |t.items|
    ensures Order(f, t, id, server).Lists() && Order(f, t, id, server).Has(id)
    ensures InStoredOrder(Order(f, t, id, server).links[id], server)
       <==> InStoredOrder(t.links[id], server) || !Ordered(t.Children(id), server)
  {
    OrderIndexed(f, t, id, server);
    var others := External(t.Children(id), server);
    if !Ordered(t.Children(id), server) {
      ExternalHas(t.Children(id), server);
      ExternalDistinct(t.Children(id), server);
      DistinctAppend(server, others);
      SetChildrenOrderedResult(t.links[id], server + others);
      NumberedInOrder(server, others);
    }
  }

  // The database.

  /** The database as it may be read: the lists of children sorted by the stored orderings, those of parents in any order. */
  ghost predicate Reads(t: Tree, u: Tree)
    requires t.Lists()
  {
    && u.Lists() && u.items == t.items
    && forall x :: 0 <= x < |t.items| ==> Loads(t.links[x], u.links[x]) && multiset(u.parents[x]) == multiset(t.parents[x])
  }

  lemma ReadsSound(t: Tree, u: Tree)
    requires Sound(t) && Reads(t, u)
    ensures Sound(u)
  {
    forall c, k | 0 <= c < |u.items| && 0 <= k < |u.parents[c]| ensures u.parents[c][k] < |u.items| {
      assert u.parents[c][k] in multiset(u.parents[c]);
    }
    forall p, k | 0 <= p < |u.items| && 0 <= k < |u.links[p]| ensures u.links[p][k].item < |u.items| {
      LoadedMembers(t.links[p], u.links[p]);
      assert u.links[p][k] in t.links[p];
    }
    forall p, c | 0 <= p < |u.items| && 0 <= c < |u.items|
      ensures CountOf(u.links[p], c) == multiset(u.parents[c])[p] && (c in u.Children(p) <==> p in u.parents[c])
    {
      CountOfSame(t.links[p], u.links[p], c);
      assert p in u.parents[c] <==> p in multiset(u.parents[c]);
    }
    forall p, c | 0 <= c < |u.items| && p in u.parents[c] ensures Linkable(u, p, c) {
      assert p in multiset(t.parents[c]);
      assert Linkable(t, p, c);
    }
  }

  /** A reading of one list, the others sorted in place. */
  lemma ReadingWith(t: Tree, id: nat, loaded: seq<Link>) returns (u: Tree)
    requires t.Lists() && t.Has(id) && Loads(t.links[id], loaded)
    ensures Reads(t, u) && u.links[id] == loaded
  {
    u := Tree(t.items, seq(|t.links|, x requires 0 <= x < |t.links| => if x == id then loaded else SortLinks(t.links[x])), t.parents);
  }

  /** The lists of an element and of what is inside are in stored order. */
  ghost predicate Stored(t: Tree, el: Element, parent: Option<nat>)
    requires t.Lists()
    decreases el, 1
  {
    var item := ItemOf(el, parent);
    var id := IdOf(t.items, item);
    && item in t.items && id < |t.items| && Placeable(t, parent)
    && (el.layers != [] ==> InStoredOrder(t.links[id], ServerOf(t.items, item, el.layers)))
    && StoredInside(t, el.layers, id)
  }

  ghost predicate StoredInside(t: Tree, layers: seq<Element>, id: nat)
    requires t.Lists()
    decreases layers, 0
  {
    layers == [] || (Stored(t, layers[0], Some(id)) && StoredInside(t, layers[1..], id))
  }

  ghost predicate AllStored(t: Tree, elements: seq<Element>)
    requires t.Lists()
  {
    elements == [] || (Stored(t, elements[0], None) && AllStored(t, elements[1..]))
  }

  lemma {:induction false} ServerDistinct(items: seq<Item>, item: Item, layers: seq<Element>)
    requires Distinctive(items) && DistinctInside(layers) && forall x :: x in InsideItems(layers) ==> x in items
    ensures Distinct(ServerOf(items, item, layers)) && Among(items, ServerOf(items, item, layers), InsideItems(layers))
    decreases |layers|
  {
    if layers != [] {
      ServerDistinct(items, item, layers[1..]);
      assert Inner(layers[0]) in InsideItems(layers);
      IdIn(items, Inner(layers[0]));
      ServerFirst(items, item, layers, IdOf(items, Inner(layers[0])), ServerOf(items, item, layers[1..]));
    }
  }

  lemma {:induction false} StoredSettled(f: Flags, t: Tree, u: Tree, el: Element, parent: Option<nat>)
    requires !f.forceParents && Sound(t) && Reads(t, u) && DistinctElement(ItemOf(el, parent), el)
    requires (forall x :: x in InsideItems(el.layers) ==> x in t.items) && Stored(t, el, parent)
    ensures Settled(f, u, el, parent)
    decreases el, 1
  {
    var item := ItemOf(el, parent);
    var id := IdOf(t.items, item);
    if el.layers != [] {
      ServerDistinct(t.items, item, el.layers);
      AlwaysOrderedIff(t.links[id], ServerOf(t.items, item, el.layers));
      assert Loads(t.links[id], u.links[id]);
    }
    StoredInsideSettled(f, t, u, el.layers, id);
  }

  lemma {:induction false} StoredInsideSettled(f: Flags, t: Tree, u: Tree, layers: seq<Element>, id: nat)
    requires !f.forceParents && Sound(t) && Reads(t, u) && DistinctInside(layers)
    requires (forall x :: x in InsideItems(layers) ==> x in t.items) && StoredInside(t, layers, id)
    ensures SettledInside(f, u, layers, id)
    decreases layers, 0
  {
    if layers != [] {
      StoredSettled(f, t, u, layers[0], Some(id));
      StoredInsideSettled(f, t, u, layers[1..], id);
    }
  }

  lemma {:induction false} StoredItems(t: Tree, el: Element, parent: Option<nat>)
    requires t.Lists() && Stored(t, el, parent)
    ensures forall x :: x in ElementItems(ItemOf(el, parent), el) ==> x in t.items
    decreases el, 1
  {
    StoredInsideItems(t, el.layers, IdOf(t.items, ItemOf(el, parent)));
  }

  lemma {:induction false} StoredInsideItems(t: Tree, layers: seq<Element>, id: nat)
    requires t.Lists() && StoredInside(t, layers, id)
    ensures forall x :: x in InsideItems(layers) ==> x in t.items
    decreases layers, 0
  {
    if layers != [] {
      StoredItems(t, layers[0], Some(id));
      StoredInsideItems(t, layers[1..], id);
    }
  }

  lemma {:induction false} AllStoredSettled(f: Flags, t: Tree, u: Tree, elements: seq<Element>)
    requires !f.forceParents && Sound(t) && Reads(t, u) && DistinctAll(elements) && AllStored(t, elements)
    ensures AllSettled(f, u, elements)
  {
    if elements != [] {
      StoredItems(t, elements[0], None);
      StoredSettled(f, t, u, elements[0], None);
      AllStoredSettled(f, t, u, elements[1..]);
    }
  }

  /** However the database is read, nothing is left to do for the element. */
  ghost predicate AlwaysSettled(f: Flags, t: Tree, el: Element, parent: Option<nat>)
    requires t.Lists()
  {
    forall u :: Reads(t, u) ==> Settled(f, u, el, parent)
  }

  ghost predicate AlwaysSettledInside(f: Flags, t: Tree, layers: seq<Element>, id: nat)
    requires t.Lists()
  {
    forall u :: Reads(t, u) ==> SettledInside(f, u, layers, id)
  }

  ghost predicate AlwaysAllSettled(f: Flags, t: Tree, elements: seq<Element>)
    requires t.Lists()
  {
    forall u :: Reads(t, u) ==> AllSettled(f, u, elements)
  }

  lemma SomeReading(t: Tree) returns (u: Tree)
    requires t.Lists()
    ensures Reads(t, u)
  {
    u := Tree(t.items, seq(|t.links|, x requires 0 <= x < |t.links| => SortLinks(t.links[x])), t.parents);
  }

  lemma {:induction false} SettledStored(f: Flags, t: Tree, el: Element, parent: Option<nat>)
    requires f.forceOrdering && !f.forceParents && Sound(t) && DistinctElement(ItemOf(el, parent), el)
    requires (forall x :: x in InsideItems(el.layers) ==> x in t.items) && AlwaysSettled(f, t, el, parent)
    ensures Stored(t, el, parent)
    decreases el, 1
  {
    var item := ItemOf(el, parent);
    var any := SomeReading(t);
    var id := IdOf(t.items, item);
    assert Settled(f, any, el, parent);
    if el.layers != [] {
      var server := ServerOf(t.items, item, el.layers);
      ServerDistinct(t.items, item, el.layers);
      forall loaded | Loads(t.links[id], loaded) ensures Ordered(Items(loaded), server) {
        var u := ReadingWith(t, id, loaded);
        assert Settled(f, u, el, parent);
      }
      AlwaysOrderedIff(t.links[id], server);
    }
    assert AlwaysSettledInside(f, t, el.layers, id) by {
      forall u | Reads(t, u) ensures SettledInside(f, u, el.layers, id) {
        assert Settled(f, u, el, parent);
      }
    }
    SettledInsideStored(f, t, el.layers, id);
  }

  lemma {:induction false} SettledInsideStored(f: Flags, t: Tree, layers: seq<Element>, id: nat)
    requires f.forceOrdering && !f.forceParents && Sound(t) && DistinctInside(layers)
    requires (forall x :: x in InsideItems(layers) ==> x in t.items) && AlwaysSettledInside(f, t, layers, id)
    ensures StoredInside(t, layers, id)
    decreases layers, 0
  {
    if layers != [] {
      assert AlwaysSettled(f, t, layers[0], Some(id)) && AlwaysSettledInside(f, t, layers[1..], id) by {
        forall u | Reads(t, u) ensures Settled(f, u, layers[0], Some(id)) && SettledInside(f, u, layers[1..], id) {
          assert SettledInside(f, u, layers, id);
        }
      }
      SettledStored(f, t, layers[0], Some(id));
      SettledInsideStored(f, t, layers[1..], id);
    }
  }

  lemma {:induction false} AllSettledStored(f: Flags, t: Tree, elements: seq<Element>)
    requires f.forceOrdering && !f.forceParents && Sound(t) && DistinctAll(elements)
    requires (forall x :: x in AllItems(elements) ==> x in t.items) && AlwaysAllSettled(f, t, elements)
    ensures AllStored(t, elements)
  {
    if elements != [] {
      assert AlwaysSettled(f, t, elements[0], None) && AlwaysAllSettled(f, t, elements[1..]) by {
        forall u | Reads(t, u) ensures Settled(f, u, elements[0], None) && AllSettled(f, u, elements[1..]) {
          assert AllSettled(f, u, elements);
        }
      }
      SettledStored(f, t, elements[0], None);
      AllSettledStored(f, t, elements[1..]);
    }
  }

  /** The synchronization changes nothing in any reading of the database. */
  ghost predicate NeverChanges(f: Flags, t: Tree, elements: seq<Element>)
    requires t.Lists()
  {
    forall u :: Reads(t, u) ==> Indexed(u) && Synchronize(f, u, elements).tree == u
  }

  /** With force_ordering alone, and no two elements of the document with the same name and kind, a synchronization changes
    * nothing, however the database is read, exactly when all items are there and in every list that the document orders the
    * children of the server have one row each, with orderings that increase in document order and are smaller than the
    * others. */
  lemma NeverChangesIff(f: Flags, t: Tree, elements: seq<Element>)
    requires f.forceOrdering && !f.forceParents && Sound(t) && DistinctAll(elements)
    ensures NeverChanges(f, t, elements) <==> AllStored(t, elements)
  {
    if AllStored(t, elements) {
      forall u | Reads(t, u) ensures Indexed(u) && Synchronize(f, u, elements).tree == u {
        ReadsSound(t, u);
        AllStoredSettled(f, t, u, elements);
        AllUnchanged(f, State(u, 0, 0, 0, 0), elements);
      }
    }
    if NeverChanges(f, t, elements) {
      var any := SomeReading(t);
      ReadsSound(t, any);
      AllAdd(f, State(any, 0, 0, 0, 0), elements);
      forall u | Reads(t, u) ensures AllSettled(f, u, elements) {
        ReadsSound(t, u);
        SameAllSettled(f, State(u, 0, 0, 0, 0), elements);
      }
      AllSettledStored(f, t, elements);
    }
  }

  /** A new group with new layers, as force_ordering leaves it, may be read in another order. */
  lemma NewGroupNotStored(f: Flags, s: State, el: Element, parent: nat)
    requires Indexed(s.tree) && s.tree.Has(parent) && Item(Group, el.name) !in s.tree.items
    requires |el.layers| >= 2 && NewLayers(s.tree.items, el.layers)
    ensures var (after, id) := SyncLayer(f, s, el, Some(parent));
            !InStoredOrder(after.tree.links[id], after.tree.Children(id))
  {
    var (after, id) := SyncLayer(f, s, el, Some(parent));
    NewGroupUnordered(f, s, el, parent);
    var links := after.tree.links[id];
    assert links[0].ordering == links[1].ordering && links[0].item != links[1].item;
    var server := after.tree.Children(id);
    assert server[0] == links[0].item && links[1].item !in server[..1];
    assert Comes(links[0].item, links[1].item, server);
    assert links[0] in links && links[1] in links && !Precedes(links[0], links[1], server);
  }
}
