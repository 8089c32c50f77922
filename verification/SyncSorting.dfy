/** What the ordering step makes of a list of rows in which a child may be linked twice: exactly when the children of the
  * server come first afterwards. */
module SyncSorting {
  import opened ChildrenLists
  import opened SyncTree
  import opened SyncCounts
  import opened SyncFrame

  // The stable sort.

  /** The children of the server come before the others. */
  predicate ServersFirst(links: seq<Link>, server: seq<nat>) {
    forall i, j :: 0 <= i < j < |links| && links[j].item in server ==> links[i].item in server
  }

  /** The row at `i` sorts before the one at `j`. */
  predicate Before(links: seq<Link>, i: nat, j: nat)
    requires i < |links| && j < |links|
  {
    links[i].ordering < links[j].ordering || (links[i].ordering == links[j].ordering && i < j)
  }

  predicate FitTogether(links: seq<Link>, server: seq<nat>) {
    forall i, j :: 0 <= i < |links| && 0 <= j < |links| && links[i].item in server && links[j].item !in server ==>
      Before(links, i, j)
  }

  /** `after` is `sorted` with `link` at place `k`, after the rows that are not greater. */
  predicate InsertedAt(sorted: seq<Link>, link: Link, k: nat, after: seq<Link>) {
    && |after| == |sorted| + 1 && k <= |sorted| && after[k] == link
    && (forall i :: 0 <= i < k ==> after[i] == sorted[i] && sorted[i].ordering <= link.ordering)
    && (forall i :: k < i < |after| ==> after[i] == sorted[i - 1] && link.ordering < sorted[i - 1].ordering)
  }

  lemma InsertedBefore(sorted: seq<Link>, link: Link, k: nat, after: seq<Link>, last: Link)
    requires InsertedAt(sorted, link, k, after) && link.ordering < last.ordering
    ensures InsertedAt(sorted + [last], link, k, after + [last])
  {
  }

  lemma {:induction false} InsertPlace(link: Link, sorted: seq<Link>) returns (k: nat)
    requires Sorted(sorted)
    ensures InsertedAt(sorted, link, k, Insert(link, sorted))
  {
    if sorted == [] || sorted[|sorted| - 1].ordering <= link.ordering {
      k := |sorted|;
    } else {
      var front, last := sorted[..|sorted| - 1], sorted[|sorted| - 1];
      k := InsertPlace(link, front);
      InsertedBefore(front, link, k, Insert(link, front), last);
      assert front + [last] == sorted;
    }
  }

  /** Where a new row may come. */
  predicate FitsAmong(links: seq<Link>, link: Link, server: seq<nat>) {
    if link.item in server then forall l :: l in links && l.item !in server ==> link.ordering < l.ordering
    else forall l :: l in links && l.item in server ==> l.ordering <= link.ordering
  }

  lemma FirstBefore(sorted: seq<Link>, link: Link, k: nat, after: seq<Link>, server: seq<nat>)
    requires InsertedAt(sorted, link, k, after) && ServersFirst(after, server)
    ensures ServersFirst(sorted, server) && FitsAmong(sorted, link, server)
  {
    forall i, j | 0 <= i < j < |sorted| && sorted[j].item in server ensures sorted[i].item in server {
      var a, b := if i < k then i else i + 1, if j < k then j else j + 1;
      assert after[a] == sorted[i] && after[b] == sorted[j];
    }
    forall i | 0 <= i < |sorted| && (sorted[i].item in server) != (link.item in server)
      ensures if link.item in server then link.ordering < sorted[i].ordering else sorted[i].ordering <= link.ordering
    {
      var a := if i < k then i else i + 1;
      assert after[a] == sorted[i];
    }
  }

  lemma FirstAfter(sorted: seq<Link>, link: Link, k: nat, after: seq<Link>, server: seq<nat>)
    requires InsertedAt(sorted, link, k, after) && ServersFirst(sorted, server) && FitsAmong(sorted, link, server)
    ensures ServersFirst(after, server)
  {
    forall i, j | 0 <= i < j < |after| && after[j].item in server ensures after[i].item in server {
      if i == k {
        assert after[j] == sorted[j - 1];
      } else if j == k {
        assert after[i] == sorted[i];
      } else {
        var a, b := if i < k then i else i - 1, if j < k then j else j - 1;
        assert after[i] == sorted[a] && after[j] == sorted[b];
      }
    }
  }

  lemma InsertServersFirst(link: Link, sorted: seq<Link>, server: seq<nat>)
    requires Sorted(sorted)
    ensures ServersFirst(Insert(link, sorted), server) <==> ServersFirst(sorted, server) && FitsAmong(sorted, link, server)
  {
    var k := InsertPlace(link, sorted);
    var after := Insert(link, sorted);
    if ServersFirst(after, server) {
      FirstBefore(sorted, link, k, after, server);
    }
    if ServersFirst(sorted, server) && FitsAmong(sorted, link, server) {
      FirstAfter(sorted, link, k, after, server);
    }
  }

  lemma FitTogetherMore(links: seq<Link>, link: Link, server: seq<nat>)
    ensures FitTogether(links + [link], server) <==> FitTogether(links, server) && FitsAmong(links, link, server)
  {
    var more, n := links + [link], |links|;
    if FitTogether(more, server) {
      forall i, j | 0 <= i < n && 0 <= j < n && links[i].item in server && links[j].item !in server
        ensures Before(links, i, j)
      {
        assert more[i] == links[i] && more[j] == links[j] && Before(more, i, j);
      }
      forall l | l in links && (l.item in server) != (link.item in server)
        ensures if link.item in server then link.ordering < l.ordering else l.ordering <= link.ordering
      {
        var i :| 0 <= i < n && links[i] == l;
        assert more[i] == l && more[n] == link;
        assert if link.item in server then Before(more, n, i) else Before(more, i, n);
      }
    }
    if FitTogether(links, server) && FitsAmong(links, link, server) {
      forall i, j | 0 <= i <= n && 0 <= j <= n && more[i].item in server && more[j].item !in server
        ensures Before(more, i, j)
      {
        if i < n && j < n {
          assert Before(links, i, j);
        } else if j < n {
          assert links[j] in links;
        } else if i < n {
          assert links[i] in links;
        }
      }
    }
  }

  lemma FitsAmongSame(a: seq<Link>, b: seq<Link>, link: Link, server: seq<nat>)
    requires forall l :: l in a <==> l in b
    ensures FitsAmong(a, link, server) <==> FitsAmong(b, link, server)
  {
  }

  lemma SortedMore(front: seq<Link>, last: Link, sorted: seq<Link>, server: seq<nat>)
    requires Sorted(sorted) && forall l :: l in sorted <==> l in front
    requires ServersFirst(sorted, server) <==> FitTogether(front, server)
    ensures ServersFirst(Insert(last, sorted), server) <==> FitTogether(front + [last], server)
  {
    InsertServersFirst(last, sorted, server);
    FitsAmongSame(sorted, front, last, server);
    FitTogetherMore(front, last, server);
  }

  lemma SortStep(links: seq<Link>, front: seq<Link>, last: Link)
    requires links == front + [last]
    ensures SortLinks(links) == Insert(last, SortLinks(front))
  {
    assert links[..|links| - 1] == front;
  }

  /** The sorted list has the children of the server first exactly when each of their rows sorts before all others. */
  lemma {:induction false} SortedServersFirst(links: seq<Link>, server: seq<nat>)
    ensures ServersFirst(SortLinks(links), server) <==> FitTogether(links, server)
  {
    if links != [] {
      var front, last := links[..|links| - 1], links[|links| - 1];
      assert links == front + [last];
      SortedServersFirst(front, server);
      SortStep(links, front, last);
      var sorted := SortLinks(front);
      assert forall l :: l in sorted <==> l in front by {
        SortMembers(front);
      }
      SortedMore(front, last, sorted, server);
    }
  }

  // What the ordered mode does to each row.

  /** A row that has the ordering of one of the places from `from` on. */
  ghost predicate FromPlace(children: seq<nat>, from: nat, l: Link) {
    exists i :: from <= i < |children| && l == Link(children[i], i * 10)
  }

  /** What becomes of the row at `k`: the only row of a child to set is placed, other rows stay. */
  ghost predicate RowAfter(links: seq<Link>, children: seq<nat>, index: nat, k: nat, l: Link)
    requires k < |links| && index <= |children|
  {
    && l.item == links[k].item
    && if CountOf(links, l.item) == 1 && l.item in children[index..] then FromPlace(children, index, l) else l == links[k]
  }

  ghost predicate RowsAfter(links: seq<Link>, children: seq<nat>, index: nat, after: seq<Link>)
    requires index <= |children|
  {
    && |after| >= |links|
    && (forall k :: 0 <= k < |links| ==> RowAfter(links, children, index, k, after[k]))
    && (forall k :: |links| <= k < |after| ==> FromPlace(children, index, after[k]))
  }

  lemma FromPlaceEarlier(children: seq<nat>, from: nat, l: Link)
    requires FromPlace(children, from + 1, l)
    ensures FromPlace(children, from, l)
  {
  }

  lemma {:induction false} PlaceAllRows(links: seq<Link>, children: seq<nat>, index: nat)
    requires index <= |children|
    ensures RowsAfter(links, children, index, PlaceAll(links, children, index))
    decreases |children| - index
  {
    if index == |children| {
      assert children[index..] == [];
    } else {
      var child := children[index];
      var next := Place(links, child, index * 10);
      var after := PlaceAll(next, children, index + 1);
      PlaceAllRows(next, children, index + 1);
      assert children[index..] == [child] + children[index + 1..];
      forall k | 0 <= k < |links| ensures RowAfter(links, children, index, k, after[k]) {
        CountOfPlace(links, child, index * 10, links[k].item);
        PlacedRow(links, children, index, next, k, after[k]);
      }
      forall k | |links| <= k < |after| ensures FromPlace(children, index, after[k]) {
        if k < |next| {
          CountOfPlace(links, child, index * 10, child);
          assert RowAfter(next, children, index + 1, k, after[k]);
          assert next[k] == Link(child, index * 10);
        }
      }
    }
  }

  lemma PlacedRow(links: seq<Link>, children: seq<nat>, index: nat, next: seq<Link>, k: nat, l: Link)
    requires index < |children| && k < |links| && next == Place(links, children[index], index * 10)
    requires RowAfter(next, children, index + 1, k, l)
    requires CountOf(next, links[k].item)
          == CountOf(links, links[k].item)
             + if links[k].item == children[index] && CountOf(links, children[index]) != 1 then 1 else 0
    ensures RowAfter(links, children, index, k, l)
  {
    var child := children[index];
    assert children[index..] == [child] + children[index + 1..];
    assert links[k].item in Items(links) by {
      assert Items(links)[k] == links[k].item;
    }
    assert next[k] == if CountOf(links, child) == 1 && links[k].item == child then Link(child, index * 10) else links[k];
  }

  // When the children of the server come first.

  /** No child of the server is linked twice. */
  ghost predicate OnceEach(links: seq<Link>, server: seq<nat>) {
    forall c :: c in server ==> CountOf(links, c) <= 1
  }

  /** The row at `k` sorts after the last child of the server once this is placed. */
  predicate LateRow(links: seq<Link>, server: seq<nat>, k: nat)
    requires k < |links| && server != []
  {
    var last := (|server| - 1) * 10;
    links[k].ordering > last || (links[k].ordering == last && server[|server| - 1] in Items(links[..k]))
  }

  /** The rows of other children that are linked twice, which keep their orderings, are late. */
  ghost predicate LateRows(links: seq<Link>, server: seq<nat>)
    requires server != []
  {
    forall k :: 0 <= k < |links| && links[k].item !in server && CountOf(links, links[k].item) >= 2 ==> LateRow(links, server, k)
  }

  /** The children to set, and the rows that this gives before they are sorted. */
  ghost predicate Placing(links: seq<Link>, server: seq<nat>, children: seq<nat>, after: seq<Link>) {
    && server != [] && Distinct(server) && OnceEach(links, server)
    && children == server + External(Items(links), server) && RowsAfter(links, children, 0, after)
  }

  /** The places of the children of the server come first. */
  lemma PlaceOf(links: seq<Link>, server: seq<nat>, children: seq<nat>, l: Link)
    requires children == server + External(Items(links), server) && FromPlace(children, 0, l)
    ensures l.item in server ==> exists a :: 0 <= a < |server| && l == Link(server[a], a * 10)
    ensures l.item !in server ==> l.ordering >= |server| * 10
  {
    ExternalHas(Items(links), server);
    var i :| 0 <= i < |children| && l == Link(children[i], i * 10);
    if i < |server| {
      assert l == Link(server[i], i * 10);
    } else {
      assert children[i] in External(Items(links), server);
    }
  }

  lemma RowOf(links: seq<Link>, k: nat)
    requires k < |links|
    ensures links[k].item in Items(links) && CountOf(links, links[k].item) >= 1
  {
    assert Items(links)[k] == links[k].item;
  }

  lemma ServerRow(links: seq<Link>, server: seq<nat>, children: seq<nat>, after: seq<Link>, i: nat) returns (a: nat)
    requires Placing(links, server, children, after) && i < |after| && after[i].item in server
    ensures a < |server| && after[i] == Link(server[a], a * 10)
  {
    if i < |links| {
      assert RowAfter(links, children, 0, i, after[i]);
      RowOf(links, i);
      assert children[0..] == children;
    }
    PlaceOf(links, server, children, after[i]);
    a :| 0 <= a < |server| && after[i] == Link(server[a], a * 10);
  }

  lemma OtherRow(links: seq<Link>, server: seq<nat>, children: seq<nat>, after: seq<Link>, j: nat)
    requires Placing(links, server, children, after) && j < |after| && after[j].item !in server
    ensures after[j].ordering >= |server| * 10
            || (j < |links| && CountOf(links, links[j].item) >= 2 && after[j] == links[j])
  {
    if j < |links| {
      assert RowAfter(links, children, 0, j, after[j]);
      RowOf(links, j);
      ExternalHas(Items(links), server);
      assert children[0..] == children;
      if CountOf(links, links[j].item) == 1 {
        assert links[j].item in children;
        PlaceOf(links, server, children, after[j]);
      }
    } else {
      PlaceOf(links, server, children, after[j]);
    }
  }

  lemma {:induction false} PlaceAllOnce(links: seq<Link>, children: seq<nat>, index: nat, c: nat)
    requires index <= |children| && CountOf(links, c) <= 1
    ensures CountOf(PlaceAll(links, children, index), c) <= 1
    decreases |children| - index
  {
    if index < |children| {
      CountOfPlace(links, children[index], index * 10, c);
      PlaceAllOnce(Place(links, children[index], index * 10), children, index + 1, c);
    }
  }

  /** Each child of the server has one row after placing. */
  ghost predicate OneRowEach(after: seq<Link>, server: seq<nat>) {
    forall c :: c in server ==> c in Items(after) && CountOf(after, c) == 1
  }

  lemma OnlyRow(after: seq<Link>, server: seq<nat>, i: nat, j: nat)
    requires OneRowEach(after, server) && i < |after| && j < |after| && after[i].item == after[j].item && after[i].item in server
    ensures i == j
  {
    if i < j {
      TwiceCounted(after, i, j);
    } else if j < i {
      TwiceCounted(after, j, i);
    }
  }

  lemma RowStays(links: seq<Link>, children: seq<nat>, after: seq<Link>, k: nat)
    requires RowsAfter(links, children, 0, after) && k < |links| && CountOf(links, links[k].item) >= 2
    ensures after[k] == links[k]
  {
    assert RowAfter(links, children, 0, k, after[k]);
  }

  lemma SameItem(links: seq<Link>, children: seq<nat>, after: seq<Link>, k: nat)
    requires RowsAfter(links, children, 0, after) && k < |links|
    ensures after[k].item == links[k].item
  {
    assert RowAfter(links, children, 0, k, after[k]);
  }

  lemma LastRow(links: seq<Link>, server: seq<nat>, children: seq<nat>, after: seq<Link>) returns (i: nat)
    requires Placing(links, server, children, after) && OneRowEach(after, server)
    ensures i < |after| && after[i] == Link(server[|server| - 1], (|server| - 1) * 10)
  {
    var last := server[|server| - 1];
    assert last in server;
    i :| 0 <= i < |after| && Items(after)[i] == last;
    var a := ServerRow(links, server, children, after, i);
    assert a == |server| - 1;
  }

  lemma BeforeIsLate(links: seq<Link>, server: seq<nat>, after: seq<Link>, i: nat, k: nat)
    requires server != [] && i < |after| && after[i] == Link(server[|server| - 1], (|server| - 1) * 10)
    requires k < |links| <= |after| && after[k] == links[k] && Before(after, i, k)
    requires i < |links| ==> after[i].item == links[i].item
    ensures LateRow(links, server, k)
  {
    if i < k {
      assert Items(links[..k])[i] == links[i].item;
    }
  }

  lemma FitGivesLate(links: seq<Link>, server: seq<nat>, children: seq<nat>, after: seq<Link>, k: nat)
    requires Placing(links, server, children, after) && OneRowEach(after, server) && FitTogether(after, server)
    requires k < |links| && links[k].item !in server && CountOf(links, links[k].item) >= 2
    ensures LateRow(links, server, k)
  {
    RowStays(links, children, after, k);
    var i := LastRow(links, server, children, after);
    if i < |links| {
      SameItem(links, children, after, i);
    }
    BeforeIsLate(links, server, after, i, k);
  }

  lemma LateGivesFit(links: seq<Link>, server: seq<nat>, children: seq<nat>, after: seq<Link>, i: nat, j: nat)
    requires Placing(links, server, children, after) && OneRowEach(after, server) && LateRows(links, server)
    requires i < |after| && j < |after| && after[i].item in server && after[j].item !in server
    ensures Before(after, i, j)
  {
    var a := ServerRow(links, server, children, after, i);
    OtherRow(links, server, children, after, j);
    if after[j].ordering < |server| * 10 {
      assert LateRow(links, server, j);
      if links[j].ordering == (|server| - 1) * 10 && a == |server| - 1 {
        var p :| 0 <= p < j && Items(links[..j])[p] == server[|server| - 1];
        assert RowAfter(links, children, 0, p, after[p]);
        OnlyRow(after, server, i, p);
      }
    }
  }

  lemma PlacedFit(links: seq<Link>, server: seq<nat>, children: seq<nat>, after: seq<Link>)
    requires Placing(links, server, children, after) && OneRowEach(after, server)
    ensures FitTogether(after, server) <==> LateRows(links, server)
  {
    if FitTogether(after, server) {
      forall k | 0 <= k < |links| && links[k].item !in server && CountOf(links, links[k].item) >= 2
        ensures LateRow(links, server, k)
      {
        FitGivesLate(links, server, children, after, k);
      }
    }
    if LateRows(links, server) {
      forall i, j | 0 <= i < |after| && 0 <= j < |after| && after[i].item in server && after[j].item !in server
        ensures Before(after, i, j)
      {
        LateGivesFit(links, server, children, after, i, j);
      }
    }
  }

  // The sorted list.

  /** The rows of the children of the server are those of their places. */
  ghost predicate ServerRowsPlaced(rows: seq<Link>, server: seq<nat>) {
    forall i :: 0 <= i < |rows| && rows[i].item in server ==> exists a :: 0 <= a < |server| && rows[i] == Link(server[a], a * 10)
  }

  lemma LeadingRows(sorted: seq<Link>, server: seq<nat>) returns (n: nat)
    requires ServersFirst(sorted, server)
    ensures n <= |sorted| && (forall i :: 0 <= i < n ==> sorted[i].item in server)
    ensures forall i :: n <= i < |sorted| ==> sorted[i].item !in server
  {
    n := 0;
    while n < |sorted| && sorted[n].item in server
      invariant n <= |sorted| && forall i :: 0 <= i < n ==> sorted[i].item in server
    {
      n := n + 1;
    }
  }

  lemma LeadingStrict(sorted: seq<Link>, server: seq<nat>, n: nat)
    requires Sorted(sorted) && OneRowEach(sorted, server) && ServerRowsPlaced(sorted, server)
    requires n <= |sorted| && forall i :: 0 <= i < n ==> sorted[i].item in server
    ensures StrictlySorted(sorted[..n])
  {
    forall i, j | 0 <= i < j < n ensures sorted[i].ordering < sorted[j].ordering {
      var a :| 0 <= a < |server| && sorted[i] == Link(server[a], a * 10);
      var b :| 0 <= b < |server| && sorted[j] == Link(server[b], b * 10);
      if a == b {
        OnlyRow(sorted, server, i, j);
      }
    }
  }

  lemma LeadingMembers(sorted: seq<Link>, server: seq<nat>, n: nat, l: Link)
    requires Distinct(server) && OneRowEach(sorted, server) && ServerRowsPlaced(sorted, server)
    requires n <= |sorted| && (forall i :: 0 <= i < n ==> sorted[i].item in server)
    requires forall i :: n <= i < |sorted| ==> sorted[i].item !in server
    ensures l in sorted[..n] <==> l in Numbered(server)
  {
    var wanted := Numbered(server);
    if l in sorted[..n] {
      var i :| 0 <= i < n && sorted[..n][i] == l;
      var a :| 0 <= a < |server| && sorted[i] == Link(server[a], a * 10);
      assert wanted[a] == l;
    }
    if l in wanted {
      var a :| 0 <= a < |server| && wanted[a] == l;
      assert server[a] in Items(sorted);
      var i :| 0 <= i < |sorted| && Items(sorted)[i] == server[a];
      var b :| 0 <= b < |server| && sorted[i] == Link(server[b], b * 10);
      assert sorted[..n][i] == l;
    }
  }

  lemma LeadingNumbered(sorted: seq<Link>, server: seq<nat>, n: nat)
    requires Sorted(sorted) && Distinct(server) && OneRowEach(sorted, server) && ServerRowsPlaced(sorted, server)
    requires n <= |sorted| && (forall i :: 0 <= i < n ==> sorted[i].item in server)
    requires forall i :: n <= i < |sorted| ==> sorted[i].item !in server
    ensures sorted[..n] == Numbered(server)
  {
    LeadingStrict(sorted, server, n);
    forall l ensures l in sorted[..n] <==> l in Numbered(server) {
      LeadingMembers(sorted, server, n, l);
    }
    SameMembersSameList(sorted[..n], Numbered(server));
  }

  lemma OrderedServersFirst(rows: seq<Link>, server: seq<nat>)
    requires Ordered(Items(rows), server)
    ensures ServersFirst(rows, server)
  {
    var others := External(Items(rows), server);
    ExternalHas(Items(rows), server);
    forall j | |server| <= j < |rows| ensures rows[j].item !in server {
      assert Items(rows)[j] == others[j - |server|];
    }
    forall i | 0 <= i < |server| ensures rows[i].item in server {
      assert Items(rows)[i] == server[i];
    }
  }

  lemma ItemsConcat(a: seq<Link>, b: seq<Link>)
    ensures Items(a + b) == Items(a) + Items(b)
  {
  }

  lemma ServersFirstOrdered(sorted: seq<Link>, server: seq<nat>)
    requires Sorted(sorted) && Distinct(server) && OneRowEach(sorted, server) && ServerRowsPlaced(sorted, server)
    requires ServersFirst(sorted, server)
    ensures Ordered(Items(sorted), server)
  {
    var n := LeadingRows(sorted, server);
    LeadingNumbered(sorted, server, n);
    var others := Items(sorted[n..]);
    assert sorted == sorted[..n] + sorted[n..];
    ItemsConcat(sorted[..n], sorted[n..]);
    forall x | x in others ensures x !in server {
      var k :| 0 <= k < |others| && others[k] == x;
      assert sorted[n + k].item == x;
    }
    OrderedTogether(server, others);
  }

  lemma SortedKeepsRows(after: seq<Link>, server: seq<nat>)
    requires OneRowEach(after, server) && ServerRowsPlaced(after, server)
    ensures OneRowEach(SortLinks(after), server) && ServerRowsPlaced(SortLinks(after), server)
  {
    var sorted := SortLinks(after);
    SortMembers(after);
    forall c | c in server ensures c in Items(sorted) && CountOf(sorted, c) == 1 {
      CountOfSorted(after, c);
    }
    forall i | 0 <= i < |sorted| && sorted[i].item in server
      ensures exists a :: 0 <= a < |server| && sorted[i] == Link(server[a], a * 10)
    {
      assert sorted[i] in after;
      var j :| 0 <= j < |after| && after[j] == sorted[i];
    }
  }

  /** Setting the children in the ordered mode puts those of the server first, in their order, exactly when the rows of
    * other children that are linked twice are late. */
  lemma OrderedIffLate(links: seq<Link>, server: seq<nat>)
    requires server != [] && Distinct(server) && OnceEach(links, server)
    ensures var children := server + External(Items(links), server);
            Ordered(Items(SetChildrenOrdered(links, children)), server) <==> LateRows(links, server)
  {
    var children := server + External(Items(links), server);
    var after := PlaceAll(links, children, 0);
    PlaceAllRows(links, children, 0);
    PlaceAllMembers(links, children, 0);
    assert children[0..] == children;
    forall c | c in server ensures c in Items(after) && CountOf(after, c) == 1 {
      PlaceAllOnce(links, children, 0, c);
    }
    forall i | 0 <= i < |after| && after[i].item in server
      ensures exists a :: 0 <= a < |server| && after[i] == Link(server[a], a * 10)
    {
      var a := ServerRow(links, server, children, after, i);
    }
    PlacedFit(links, server, children, after);
    SortedKeepsRows(after, server);
    SortedServersFirst(after, server);
    var sorted := SortLinks(after);
    if ServersFirst(sorted, server) {
      ServersFirstOrdered(sorted, server);
    }
    if Ordered(Items(sorted), server) {
      OrderedServersFirst(sorted, server);
    }
  }

  // The ordering step.

  /** After the ordering step the children of the server come first. */
  ghost predicate Settles(links: seq<Link>, server: seq<nat>) {
    Ordered(Items(links), server) || (server != [] && OnceEach(links, server) && LateRows(links, server))
  }

  lemma OrderedOnce(children: seq<nat>, server: seq<nat>, c: nat)
    requires Ordered(children, server) && Distinct(server) && c in server
    ensures multiset(children)[c] == 1
  {
    var others: seq<nat> := External(children, server);
    ExternalHas(children, server);
    CountOfItems(Numbered(server), c);
    CountOfDistinct(Numbered(server), c);
    assert multiset(children) == multiset(server) + multiset(others);
    assert c !in multiset(others);
  }

  /** A child of the server that is linked twice keeps the others from coming after it. */
  lemma TwiceNotOrdered(links: seq<Link>, server: seq<nat>, c: nat)
    requires Distinct(server) && c in server && CountOf(links, c) >= 2
    ensures !Ordered(Items(links), server)
    ensures !Ordered(Items(SetChildrenOrdered(links, server + External(Items(links), server))), server)
  {
    var children := server + External(Items(links), server);
    var after := SetChildrenOrdered(links, children);
    SetChildrenTwice(links, children, c);
    CountOfItems(links, c);
    CountOfItems(after, c);
    if Ordered(Items(links), server) {
      OrderedOnce(Items(links), server, c);
    }
    if Ordered(Items(after), server) {
      OrderedOnce(Items(after), server, c);
    }
  }

  lemma OrderedByNone(children: seq<nat>)
    ensures Ordered(children, [])
  {
    ExternalAll(children, []);
    assert [] + children == children;
  }

  lemma OrderedIffSettles(links: seq<Link>, server: seq<nat>)
    requires Distinct(server) && !Ordered(Items(links), server)
    ensures Ordered(Items(SetChildrenOrdered(links, server + External(Items(links), server))), server) <==> Settles(links, server)
  {
    OrderedByNone(Items(links));
    if OnceEach(links, server) {
      OrderedIffLate(links, server);
    } else {
      var c :| c in server && CountOf(links, c) > 1;
      TwiceNotOrdered(links, server, c);
    }
  }

  /** The ordering step leaves the children of the server first exactly when the list settles. */
  lemma OrderSettlesIff(f: Flags, t: Tree, id: nat, server: seq<nat>)
    requires ToOrder(f, t, id) && Indexed(t) && Distinct(server) && forall k :: 0 <= k < |server| ==> server[k] < |t.items|
    ensures Indexed(Order(f, t, id, server)) && Order(f, t, id, server).items == t.items
    ensures Ordered(Order(f, t, id, server).Children(id), server) <==> Settles(t.links[id], server)
  {
    OrderIndexed(f, t, id, server);
    if !Ordered(t.Children(id), server) {
      OrderedIffSettles(t.links[id], server);
    }
  }

  /** A step on children that are not in this order changes their rows. */
  lemma OrderChanges(f: Flags, t: Tree, id: nat, server: seq<nat>)
    requires ToOrder(f, t, id) && Indexed(t) && Distinct(server) && forall k :: 0 <= k < |server| ==> server[k] < |t.items|
    requires !Ordered(t.Children(id), server)
    ensures Order(f, t, id, server).Lists() && Order(f, t, id, server).Has(id)
    ensures Order(f, t, id, server).links[id] != t.links[id]
  {
    OrderResult(f, t, id, server);
    if !Distinct(t.Children(id)) {
      DistinctIffOnce(t.links[id]);
      var c :| c in t.Children(id) && CountOf(t.links[id], c) != 1;
      var children := server + External(t.Children(id), server);
      ExternalHas(t.Children(id), server);
      SetChildrenTwice(t.links[id], children, c);
      assert c in children;
    }
  }
}
