/** With force_ordering alone: the databases in which a run leaves nothing for a second one, also when children are linked
  * twice. */
module SyncStable {
  import opened Wrappers
  import opened ChildrenLists
  import opened SyncTree
  import opened SyncCounts
  import opened SyncShape
  import opened SyncAcyclic
  import opened SyncOrdering
  import opened SyncDocuments
  import opened SyncFrame
  import opened SyncSorting
  import opened SyncFixpoint

  // The condition.

  /** The items of the children that the server gives, in the order of the document. */
  function ServedList(item: Item, layers: seq<Element>): seq<Item> {
    if layers == [] then []
    else (if item.kind == Theme && layers[0].layers == [] then [] else [Inner(layers[0])]) + ServedList(item, layers[1..])
  }

  function IdsOf(items: seq<Item>, given: seq<Item>): (ids: seq<nat>)
    ensures |ids| == |given|
  {
    seq(|given|, k requires 0 <= k < |given| => IdOf(items, given[k]))
  }

  predicate AllThere(items: seq<Item>, given: seq<Item>) {
    forall g :: g in given ==> g in items
  }

  /** The row is one of a given item. */
  predicate IsGiven(items: seq<Item>, l: Link, given: seq<Item>) {
    l.item < |items| && items[l.item] in given
  }

  predicate GivenOnce(items: seq<Item>, links: seq<Link>, given: seq<Item>) {
    forall c: nat | c < |items| && items[c] in given :: CountOf(links, c) <= 1
  }

  /** The row at `k` has an ordering after that of the last given item, or the same and comes later. */
  predicate AfterGiven(items: seq<Item>, links: seq<Link>, given: seq<Item>, k: nat)
    requires given != [] && k < |links|
  {
    var last := (|given| - 1) * 10;
    links[k].ordering > last
    || (links[k].ordering == last
        && exists j :: 0 <= j < k && links[j].item < |items| && items[links[j].item] == given[|given| - 1])
  }

  /** So have all the rows of other items that are linked twice. */
  ghost predicate GivenFirst(items: seq<Item>, links: seq<Link>, given: seq<Item>)
    requires given != []
  {
    forall k :: 0 <= k < |links| && !IsGiven(items, links[k], given) && CountOf(links, links[k].item) >= 2 ==>
      AfterGiven(items, links, given, k)
  }

  /** The rows of an item are in the order of the document already, or come into it. */
  ghost predicate StableRows(items: seq<Item>, links: seq<Link>, given: seq<Item>) {
    || (AllThere(items, given) && Ordered(Items(links), IdsOf(items, given)))
    || (given != [] && GivenOnce(items, links, given) && GivenFirst(items, links, given))
  }

  ghost predicate ElementStable(t: Tree, item: Item, el: Element)
    requires t.Lists()
    decreases el, 1
  {
    && (el.layers != [] && item in t.items ==> StableRows(t.items, t.links[IdOf(t.items, item)], ServedList(item, el.layers)))
    && InsideStable(t, el.layers)
  }

  ghost predicate InsideStable(t: Tree, layers: seq<Element>)
    requires t.Lists()
    decreases layers, 0
  {
    layers == [] || (ElementStable(t, Inner(layers[0]), layers[0]) && InsideStable(t, layers[1..]))
  }

  ghost predicate AllStable(t: Tree, elements: seq<Element>)
    requires t.Lists()
  {
    elements == [] || (ElementStable(t, ItemOf(elements[0], None), elements[0]) && AllStable(t, elements[1..]))
  }

  lemma {:induction false} ServerIds(items: seq<Item>, item: Item, layers: seq<Element>)
    ensures ServerOf(items, item, layers) == IdsOf(items, ServedList(item, layers))
  {
    if layers != [] {
      ServerIds(items, item, layers[1..]);
      var own := if item.kind == Theme && layers[0].layers == [] then [] else [Inner(layers[0])];
      assert IdsOf(items, own + ServedList(item, layers[1..])) == IdsOf(items, own) + IdsOf(items, ServedList(item, layers[1..]));
    }
  }

  lemma {:induction false} ServedInside(item: Item, layers: seq<Element>, g: Item)
    requires g in ServedList(item, layers)
    ensures g in InsideItems(layers)
  {
    if g in ServedList(item, layers[1..]) {
      ServedInside(item, layers[1..], g);
    }
  }

  // The rows when the ordering step comes.

  /** The rows of the children that were added: their ids are `n` or more. */
  function NewRows(server: seq<nat>, n: nat): (rows: seq<Link>)
    ensures forall k :: 0 <= k < |rows| ==> rows[k].item in server && rows[k].item >= n
  {
    if server == [] then []
    else (if server[0] >= n then [Link(server[0], 0)] else []) + NewRows(server[1..], n)
  }

  lemma CountOfFirst(l: Link, rows: seq<Link>, c: nat)
    ensures CountOf([l] + rows, c) == CountOf(rows, c) + if l.item == c then 1 else 0
  {
    assert ([l] + rows)[1..] == rows;
  }

  lemma DistinctRest(server: seq<nat>)
    requires server != [] && Distinct(server)
    ensures Distinct(server[1..]) && server[0] !in server[1..]
  {
    var rest := server[1..];
    assert forall i :: 0 <= i < |rest| ==> rest[i] == server[i + 1];
  }

  lemma {:induction false} NewRowsHave(server: seq<nat>, n: nat, c: nat)
    requires Distinct(server)
    ensures CountOf(NewRows(server, n), c) == if c in server && c >= n then 1 else 0
  {
    if server != [] {
      DistinctRest(server);
      NewRowsHave(server[1..], n, c);
      CountOfFirst(Link(server[0], 0), NewRows(server[1..], n), c);
      assert c in server <==> c == server[0] || c in server[1..];
      assert [] + NewRows(server[1..], n) == NewRows(server[1..], n);
    }
  }

  /** The server's children by id, and the items before the run. */
  ghost predicate Serves(items: seq<Item>, all: seq<Item>, given: seq<Item>, server: seq<nat>) {
    && items <= all && Distinctive(all) && Distinct(server) && |server| == |given|
    && forall k :: 0 <= k < |server| ==> server[k] < |all| && all[server[k]] == given[k]
  }

  lemma GivenIffServed(items: seq<Item>, all: seq<Item>, given: seq<Item>, server: seq<nat>, c: nat)
    requires Serves(items, all, given, server) && c < |items|
    ensures items[c] in given <==> c in server
  {
    if c in server {
      var k :| 0 <= k < |server| && server[k] == c;
      assert given[k] == items[c];
    }
    if items[c] in given {
      var k :| 0 <= k < |given| && given[k] == items[c];
      assert server[k] == c;
    }
  }

  lemma OnceIff(items: seq<Item>, all: seq<Item>, given: seq<Item>, server: seq<nat>, links: seq<Link>)
    requires Serves(items, all, given, server) && forall k :: 0 <= k < |links| ==> links[k].item < |items|
    ensures OnceEach(links + NewRows(server, |items|), server) <==> GivenOnce(items, links, given)
  {
    var rows := NewRows(server, |items|);
    forall c: nat | c in server
      ensures CountOf(links + rows, c) == if c < |items| then CountOf(links, c) else 1
    {
      CountOfAppend(links, rows, c);
      NewRowsHave(server, |items|, c);
      if c >= |items| {
        CountOfNone(links, c);
      }
    }
    forall c: nat | c < |items| ensures items[c] in given <==> c in server {
      GivenIffServed(items, all, given, server, c);
    }
  }

  lemma LateIff(items: seq<Item>, all: seq<Item>, given: seq<Item>, server: seq<nat>, links: seq<Link>, k: nat)
    requires Serves(items, all, given, server) && given != [] && k < |links|
    requires forall k :: 0 <= k < |links| ==> links[k].item < |items|
    ensures var rows := links + NewRows(server, |items|); LateRow(rows, server, k) <==> AfterGiven(items, links, given, k)
  {
    var rows, last := links + NewRows(server, |items|), |given| - 1;
    assert rows[..k] == links[..k];
    if server[last] in Items(links[..k]) {
      var j :| 0 <= j < k && Items(links[..k])[j] == server[last];
      assert items[links[j].item] == given[last];
    }
    if j :| 0 <= j < k && links[j].item < |items| && items[links[j].item] == given[last] {
      assert Items(links[..k])[j] == server[last];
    }
  }

  lemma LateRowsIff(items: seq<Item>, all: seq<Item>, given: seq<Item>, server: seq<nat>, links: seq<Link>)
    requires Serves(items, all, given, server) && given != [] && forall k :: 0 <= k < |links| ==> links[k].item < |items|
    ensures LateRows(links + NewRows(server, |items|), server) <==> GivenFirst(items, links, given)
  {
    var added := NewRows(server, |items|);
    var rows := links + added;
    forall k | 0 <= k < |rows|
      ensures if k < |links| then
                && (rows[k].item in server <==> IsGiven(items, links[k], given))
                && CountOf(rows, rows[k].item) == CountOf(links, links[k].item)
                && (LateRow(rows, server, k) <==> AfterGiven(items, links, given, k))
              else rows[k].item in server
    {
      if k < |links| {
        GivenIffServed(items, all, given, server, links[k].item);
        CountOfAppend(links, added, links[k].item);
        NewRowsHave(server, |items|, links[k].item);
        LateIff(items, all, given, server, links, k);
      } else {
        assert rows[k] == added[k - |links|];
      }
    }
    if GivenFirst(items, links, given) {
      forall k | 0 <= k < |rows| && rows[k].item !in server && CountOf(rows, rows[k].item) >= 2 ensures LateRow(rows, server, k) {
        assert AfterGiven(items, links, given, k);
      }
    }
    if LateRows(rows, server) {
      forall k | 0 <= k < |links| && !IsGiven(items, links[k], given) && CountOf(links, links[k].item) >= 2
        ensures AfterGiven(items, links, given, k)
      {
        assert LateRow(rows, server, k);
      }
    }
  }

  lemma {:induction false} NoNewRows(server: seq<nat>, n: nat)
    ensures NewRows(server, n) == [] <==> forall k :: 0 <= k < |server| ==> server[k] < n
  {
    if server != [] {
      NoNewRows(server[1..], n);
      assert forall k :: 0 <= k < |server[1..]| ==> server[1..][k] == server[k + 1];
      assert forall k :: 1 <= k < |server| ==> server[k] == server[1..][k - 1];
    }
  }

  lemma ThereIff(items: seq<Item>, all: seq<Item>, given: seq<Item>, server: seq<nat>)
    requires Serves(items, all, given, server)
    ensures AllThere(items, given) <==> NewRows(server, |items|) == []
    ensures AllThere(items, given) ==> IdsOf(items, given) == server
  {
    NoNewRows(server, |items|);
    if AllThere(items, given) {
      forall k | 0 <= k < |server| ensures server[k] < |items| && IdOf(items, given[k]) == server[k] {
        assert given[k] in items;
        IdIn(items, given[k]);
        var i := IdOf(items, given[k]);
        assert all[i] == all[server[k]];
      }
    }
    if forall k :: 0 <= k < |server| ==> server[k] < |items| {
      forall g | g in given ensures g in items {
        var k :| 0 <= k < |given| && given[k] == g;
        assert items[server[k]] == g;
      }
    }
  }

  /** A list that ends with new children and is in order has no others. */
  lemma NewOrdered(links: seq<Link>, server: seq<nat>, n: nat)
    requires Distinct(server) && NewRows(server, n) != [] && Ordered(Items(links + NewRows(server, n)), server)
    ensures OnceEach(links + NewRows(server, n), server) && server != [] && LateRows(links + NewRows(server, n), server)
  {
    var rows := links + NewRows(server, n);
    OrderedServersFirst(rows, server);
    var last := |rows| - 1;
    assert rows[last] == NewRows(server, n)[|NewRows(server, n)| - 1];
    forall k | 0 <= k < |rows| ensures rows[k].item in server {
      assert k < last ==> rows[last].item in server;
    }
    forall c | c in server ensures CountOf(rows, c) <= 1 {
      OrderedOnce(Items(rows), server, c);
      CountOfItems(rows, c);
    }
  }

  /** The list settles in the ordering step exactly when the rows from before the run are stable. */
  lemma SettlesIffStable(items: seq<Item>, all: seq<Item>, given: seq<Item>, server: seq<nat>, links: seq<Link>)
    requires Serves(items, all, given, server) && forall k :: 0 <= k < |links| ==> links[k].item < |items|
    ensures Settles(links + NewRows(server, |items|), server) <==> StableRows(items, links, given)
  {
    var rows := links + NewRows(server, |items|);
    OnceIff(items, all, given, server, links);
    if given != [] {
      LateRowsIff(items, all, given, server, links);
    }
    ThereIff(items, all, given, server);
    if NewRows(server, |items|) == [] {
      assert rows == links;
    } else if Ordered(Items(rows), server) {
      NewOrdered(links, server, |items|);
    }
  }
}
