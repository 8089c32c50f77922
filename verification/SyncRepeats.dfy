/** With force_ordering alone, a child that the server gives and that is linked twice under the same parent keeps a database
  * from settling. */
module SyncRepeats {
  import opened Wrappers
  import opened TreeGraph
  import opened ChildrenLists
  import opened SyncTree
  import opened SyncCounts
  import opened SyncShape
  import opened SyncAcyclic
  import opened SyncOrdering
  import opened SyncDocuments
  import opened SyncFrame
  import opened SyncFixpoint

  /** A child that the server gives is linked twice. */
  ghost predicate ServerTwice(t: Tree, d: Document)
    requires t.Lists()
  {
    exists p, c :: Twice(t, d, p, c)
  }

  predicate Twice(t: Tree, d: Document, p: nat, c: nat)
    requires t.Lists()
  {
    t.Has(p) && t.Has(c) && (t.items[p], t.items[c]) in d.links && CountOf(t.links[p], c) >= 2
  }

  /** Under the items of the document no other child is linked twice. */
  ghost predicate OthersOnce(t: Tree, d: Document)
    requires t.Lists()
  {
    forall p, c {:trigger CountOf(t.links[p], c)} :: 0 <= p < |t.items| && 0 <= c < |t.items| && t.items[p] in d.items ==>
      CountOf(t.links[p], c) <= 1 || (t.items[p], t.items[c]) in d.links
  }

  // Without force_parents no row is removed.

  lemma GetItemMore(f: Flags, s: State, el: Element, parent: Option<nat>, p: nat, c: nat)
    requires !f.forceParents && Sound(s.tree) && Placeable(s.tree, parent) && s.tree.Has(p)
    ensures CountOf(GetItem(f, s, el, parent).0.tree.links[p], c) >= CountOf(s.tree.links[p], c)
  {
    CountOfOneMore(s.tree.links[p], Link(|s.tree.items|, 0), c);
  }

  lemma OrderMore(f: Flags, t: Tree, id: nat, server: seq<nat>, p: nat, c: nat)
    requires Indexed(t) && t.Has(id) && (forall k :: 0 <= k < |server| ==> server[k] < |t.items|) && t.Has(p)
    ensures Order(f, t, id, server).Lists() && Order(f, t, id, server).Has(p)
    ensures CountOf(Order(f, t, id, server).links[p], c) >= CountOf(t.links[p], c)
  {
    OrderIndexed(f, t, id, server);
    SetChildrenMore(t.links[id], server + External(t.Children(id), server), c);
  }

  lemma {:induction false} LayerMore(f: Flags, s: State, el: Element, parent: Option<nat>, p: nat, c: nat)
    requires !f.forceParents && Sound(s.tree) && Placeable(s.tree, parent) && s.tree.Has(p)
    ensures CountOf(SyncLayer(f, s, el, parent).0.tree.links[p], c) >= CountOf(s.tree.links[p], c)
    decreases el, 1
  {
    GetItemMore(f, s, el, parent, p, c);
    GetItemSound(f, s, el, parent);
    var (got, id) := GetItem(f, s, el, parent);
    InsideMore(f, got, el.layers, id, p, c);
    var (inside, server) := SyncInside(f, got, el.layers, id);
    OrderMore(f, inside.tree, id, server, p, c);
  }

  lemma {:induction false} InsideMore(f: Flags, s: State, layers: seq<Element>, id: nat, p: nat, c: nat)
    requires !f.forceParents && Sound(s.tree) && s.tree.Has(id) && (layers == [] || Placeable(s.tree, Some(id)))
    requires s.tree.Has(p)
    ensures CountOf(SyncInside(f, s, layers, id).0.tree.links[p], c) >= CountOf(s.tree.links[p], c)
    decreases layers, 0
  {
    if layers != [] {
      LayerMore(f, s, layers[0], Some(id), p, c);
      LayerSound(f, s, layers[0], Some(id));
      InsideMore(f, SyncLayer(f, s, layers[0], Some(id)).0, layers[1..], id, p, c);
    }
  }

  lemma {:induction false} AllMore(f: Flags, s: State, elements: seq<Element>, p: nat, c: nat)
    requires !f.forceParents && Sound(s.tree) && s.tree.Has(p)
    ensures CountOf(SyncAll(f, s, elements).tree.links[p], c) >= CountOf(s.tree.links[p], c)
    decreases |elements|
  {
    if elements != [] {
      LayerMore(f, s, elements[0], None, p, c);
      LayerSound(f, s, elements[0], None);
      AllMore(f, SyncLayer(f, s, elements[0], None).0, elements[1..], p, c);
    }
  }

  // With force_ordering alone, a child of the server that is linked twice gets one more row.

  lemma OrderAddsRow(f: Flags, t: Tree, id: nat, server: seq<nat>, c: nat)
    requires ToOrder(f, t, id) && Indexed(t) && (forall k :: 0 <= k < |server| ==> server[k] < |t.items|)
    requires Distinct(server) && c in server && CountOf(t.links[id], c) >= 2
    ensures Order(f, t, id, server).Lists() && Order(f, t, id, server).Has(id)
    ensures CountOf(Order(f, t, id, server).links[id], c) > CountOf(t.links[id], c)
  {
    OrderIndexed(f, t, id, server);
    var others := External(t.Children(id), server);
    ExternalHas(t.Children(id), server);
    var wanted: seq<nat> := server + others;
    assert multiset(wanted)[c] == 1 by {
      CountOfDistinct(Numbered(server), c);
      CountOfItems(Numbered(server), c);
      assert c !in multiset(others);
      assert multiset(wanted) == multiset(server) + multiset(others);
    }
    CountOfItems(t.links[id], c);
    SetChildrenTwice(t.links[id], wanted, c);
  }

  lemma {:induction false} LayerRepeats(f: Flags, s: State, el: Element, parent: Option<nat>, p: nat, c: nat)
    requires f.forceOrdering && !f.forceParents && Sound(s.tree) && Placeable(s.tree, parent)
    requires DistinctElement(ItemOf(el, parent), el) && s.tree.Has(p) && s.tree.Has(c) && CountOf(s.tree.links[p], c) >= 2
    requires (s.tree.items[p], s.tree.items[c]) in DocumentLinks(ItemOf(el, parent), el.layers)
    ensures CountOf(SyncLayer(f, s, el, parent).0.tree.links[p], c) > CountOf(s.tree.links[p], c)
    decreases el, 1
  {
    GetItemMore(f, s, el, parent, p, c);
    GetItemSound(f, s, el, parent);
    var (got, id) := GetItem(f, s, el, parent);
    InsideRepeats(f, got, el.layers, id, p, c);
    InsideServer(f, got, el.layers, id);
    InsideMore(f, got, el.layers, id, p, c);
    var (inside, server) := SyncInside(f, got, el.layers, id);
    OrderMore(f, inside.tree, id, server, p, c);
    if CountOf(inside.tree.links[p], c) == CountOf(got.tree.links[p], c) {
      OrderAddsRow(f, inside.tree, id, server, c);
    }
  }

  lemma {:induction false} InsideRepeats(f: Flags, s: State, layers: seq<Element>, id: nat, p: nat, c: nat)
    requires f.forceOrdering && !f.forceParents && Sound(s.tree) && Placeable(s.tree, Some(id)) && DistinctInside(layers)
    requires s.tree.Has(p) && s.tree.Has(c) && CountOf(s.tree.links[p], c) >= 2
    requires (s.tree.items[p], s.tree.items[c]) in DocumentLinks(s.tree.items[id], layers)
    ensures var (after, server) := SyncInside(f, s, layers, id);
            CountOf(after.tree.links[p], c) > CountOf(s.tree.links[p], c) || (p == id && c in server)
    decreases layers, 0
  {
    var pair, item := (s.tree.items[p], s.tree.items[c]), s.tree.items[id];
    var (first, child) := SyncLayer(f, s, layers[0], Some(id));
    LayerMore(f, s, layers[0], Some(id), p, c);
    LayerSound(f, s, layers[0], Some(id));
    SamePair(s.tree, first.tree, p, c, id);
    if pair in DocumentLinks(item, layers[1..]) {
      InsideRepeats(f, first, layers[1..], id, p, c);
    } else if pair in DocumentLinks(Inner(layers[0]), layers[0].layers) {
      LayerRepeats(f, s, layers[0], Some(id), p, c);
      InsideMore(f, first, layers[1..], id, p, c);
    } else {
      OwnLink(first.tree, item, layers, id, child, p, c);
    }
  }

  lemma OwnLink(t: Tree, item: Item, layers: seq<Element>, id: nat, child: nat, p: nat, c: nat)
    requires UniqueItems(t) && t.Has(id) && t.Has(child) && t.Has(p) && t.Has(c) && layers != []
    requires t.items[id] == item && t.items[child] == Inner(layers[0])
    requires (t.items[p], t.items[c]) in DocumentLinks(item, layers)
    requires (t.items[p], t.items[c]) !in DocumentLinks(item, layers[1..])
    requires (t.items[p], t.items[c]) !in DocumentLinks(Inner(layers[0]), layers[0].layers)
    ensures p == id && c == child && (item.kind != Theme || layers[0].layers != [])
  {
    SameItem(t, p, id);
    SameItem(t, c, child);
  }

  lemma SameItem(t: Tree, a: nat, b: nat)
    requires UniqueItems(t) && t.Has(a) && t.Has(b) && t.items[a] == t.items[b]
    ensures a == b
  {
  }

  lemma SamePair(t: Tree, after: Tree, p: nat, c: nat, id: nat)
    requires t.items <= after.items && t.Has(p) && t.Has(c) && t.Has(id)
    ensures after.Has(p) && after.Has(c) && after.Has(id)
    ensures after.items[p] == t.items[p] && after.items[c] == t.items[c] && after.items[id] == t.items[id]
  {
  }

  lemma {:induction false} AllRepeat(f: Flags, s: State, elements: seq<Element>, p: nat, c: nat)
    requires f.forceOrdering && !f.forceParents && Sound(s.tree) && DistinctAll(elements)
    requires s.tree.Has(p) && s.tree.Has(c) && CountOf(s.tree.links[p], c) >= 2
    requires (s.tree.items[p], s.tree.items[c]) in AllLinks(elements)
    ensures CountOf(SyncAll(f, s, elements).tree.links[p], c) > CountOf(s.tree.links[p], c)
    decreases |elements|
  {
    LayerMore(f, s, elements[0], None, p, c);
    LayerSound(f, s, elements[0], None);
    var first := SyncLayer(f, s, elements[0], None).0;
    AllMore(f, first, elements[1..], p, c);
    if (s.tree.items[p], s.tree.items[c]) in AllLinks(elements[1..]) {
      AllRepeat(f, first, elements[1..], p, c);
    } else {
      LayerRepeats(f, s, elements[0], None, p, c);
    }
  }

  /** A child that the server gives has `n` rows or more. */
  ghost predicate HasRows(t: Tree, d: Document, p: nat, c: nat, n: nat) {
    Sound(t) && Twice(t, d, p, c) && CountOf(t.links[p], c) >= n
  }

  lemma RunAddsRow(f: Flags, t: Tree, elements: seq<Element>, p: nat, c: nat, n: nat)
    requires f.forceOrdering && !f.forceParents && DistinctAll(elements) && HasRows(t, DocumentOf(elements), p, c, n)
    ensures var after := Synchronize(f, t, elements).tree;
            && HasRows(after, DocumentOf(elements), p, c, n + 1)
            && CountOf(after.links[p], c) > CountOf(t.links[p], c)
  {
    var s := State(t, 0, 0, 0, 0);
    AllSound(f, s, elements);
    AllRepeat(f, s, elements, p, c);
    SamePair(t, SyncAll(f, s, elements).tree, p, c, p);
  }

  /** The databases after successive runs with the same document. */
  ghost predicate AreRuns(f: Flags, elements: seq<Element>, trees: seq<Tree>) {
    forall i :: 0 <= i < |trees| - 1 ==> Follows(f, elements, trees, i)
  }

  ghost predicate Follows(f: Flags, elements: seq<Element>, trees: seq<Tree>, i: nat)
    requires i < |trees| - 1
  {
    Indexed(trees[i]) && trees[i + 1] == Synchronize(f, trees[i], elements).tree
  }

  lemma NextAddsRow(f: Flags, elements: seq<Element>, trees: seq<Tree>, p: nat, c: nat, rows: nat, i: nat)
    requires f.forceOrdering && !f.forceParents && DistinctAll(elements) && AreRuns(f, elements, trees)
    requires i < |trees| - 1 && HasRows(trees[i], DocumentOf(elements), p, c, rows)
    ensures HasRows(trees[i + 1], DocumentOf(elements), p, c, rows + 1) && trees[i + 1] != trees[i]
  {
    assert Follows(f, elements, trees, i);
    RunAddsRow(f, trees[i], elements, p, c, rows);
  }

  lemma {:induction false} RunsAddRows(f: Flags, elements: seq<Element>, trees: seq<Tree>, p: nat, c: nat, rows: nat, n: nat)
    requires f.forceOrdering && !f.forceParents && DistinctAll(elements) && AreRuns(f, elements, trees)
    requires n < |trees| && HasRows(trees[0], DocumentOf(elements), p, c, rows)
    ensures HasRows(trees[n], DocumentOf(elements), p, c, rows + n)
  {
    if n > 0 {
      RunsAddRows(f, elements, trees, p, c, rows, n - 1);
      NextAddsRow(f, elements, trees, p, c, rows + n - 1, n - 1);
    }
  }

  /** With force_ordering alone, a child of the server that is linked twice gets one more row with each run: the database
    * never settles. */
  lemma NeverSettles(f: Flags, elements: seq<Element>, trees: seq<Tree>, p: nat, c: nat, n: nat)
    requires f.forceOrdering && !f.forceParents && DistinctAll(elements) && AreRuns(f, elements, trees)
    requires n < |trees| && Sound(trees[0]) && Twice(trees[0], DocumentOf(elements), p, c)
    ensures HasRows(trees[n], DocumentOf(elements), p, c, CountOf(trees[0].links[p], c) + n)
    ensures n > 0 ==> trees[n] != trees[n - 1]
  {
    RunsAddRows(f, elements, trees, p, c, CountOf(trees[0].links[p], c), n);
    if n > 0 {
      RunsAddRows(f, elements, trees, p, c, CountOf(trees[0].links[p], c), n - 1);
      NextAddsRow(f, elements, trees, p, c, CountOf(trees[0].links[p], c) + n - 1, n - 1);
    }
  }

  /** When no two elements of the document have the same name and kind, and no child that the server does not give is linked
    * twice under its items if they are ordered, a second run changes something exactly when force_ordering is on alone and
    * a child that the server gives is linked twice. */
  lemma SecondRunTwice(f: Flags, t: Tree, elements: seq<Element>)
    requires Sound(t) && DistinctAll(elements)
    requires f.forceOrdering ==> OthersOnce(t, DocumentOf(elements))
    ensures var once := Synchronize(f, t, elements).tree;
            Synchronize(f, once, elements).tree != once
            <==> f.forceOrdering && !f.forceParents && ServerTwice(t, DocumentOf(elements))
  {
    var d, once := DocumentOf(elements), Synchronize(f, t, elements).tree;
    if f.forceOrdering && !f.forceParents && ServerTwice(t, d) {
      var p, c :| Twice(t, d, p, c);
      RunAddsRow(f, t, elements, p, c, 2);
      RunAddsRow(f, once, elements, p, c, 3);
    } else {
      if f.forceOrdering {
        forall p, c | 0 <= p < |t.items| && 0 <= c < |t.items| ensures OnceUnder(f, t, d, p, c) {
          assert !f.forceParents ==> !Twice(t, d, p, c);
        }
      }
      SecondRunChangesNothing(f, t, elements);
    }
  }

  /** A database in which the theme T has the group G twice. */
  function Doubled(): Tree {
    Tree([Item(Theme, "T"), Item(Group, "G"), Item(LayerWms, "l")],
         [[Link(1, 0), Link(1, 10)], [Link(2, 0)], []], [[], [0, 0], [1]])
  }

  /** A document that gives just what this database has. */
  function DoubledDocument(): seq<Element> {
    [Element("T", [Element("G", [Element("l", [])])])]
  }

  lemma DoubledCounts(p: nat, c: nat)
    requires p < 3 && c < 3
    ensures CountOf(Doubled().links[p], c) == if p == 0 && c == 1 then 2 else if p == 1 && c == 2 then 1 else 0
    ensures multiset(Doubled().parents[c])[p] == CountOf(Doubled().links[p], c)
  {
    var t := Doubled();
    CountOfItems(t.links[p], c);
    assert Items(t.links[0]) == [1, 1] && Items(t.links[1]) == [2] && Items(t.links[2]) == [];
  }

  lemma DoubledSame()
    ensures Consistent(Doubled()) && SameCounts(Doubled())
  {
    var t := Doubled();
    forall p, c | 0 <= p < 3 && 0 <= c < 3
      ensures CountOf(t.links[p], c) == multiset(t.parents[c])[p] && (c in t.Children(p) <==> p in t.parents[c])
    {
      DoubledCounts(p, c);
    }
  }

  lemma DoubledSound()
    ensures Sound(Doubled()) && Doubled().Edges() == {(0, 1), (1, 2)}
  {
    var t := Doubled();
    assert WellKinded(t) by {
      assert Linkable(t, 0, 1) && Linkable(t, 1, 2);
    }
    DoubledSame();
    assert t.Edges() == {(0, 1), (1, 2)};
  }

  lemma DoubledAcyclic()
    ensures Acyclic({(0, 1), (1, 2)})
  {
    var edges: Edges := {(0, 1), (1, 2)};
    ReachesFromLeaf(edges, 2, 1);
    ReachesThroughOnlyParent(edges, 1, 0, 1);
    ReachesRoot(edges, 1, 0);
  }

  /** With force_ordering alone, each run over this database with this document adds another link from T to G. */
  lemma DoubledNeverSettles(trees: seq<Tree>, n: nat)
    requires 0 < n < |trees| && trees[0] == Doubled() && AreRuns(Flags(false, true), DoubledDocument(), trees)
    ensures Sound(Doubled()) && Acyclic(Doubled().Edges()) && DistinctAll(DoubledDocument()) && trees[n] != trees[n - 1]
    ensures trees[n].Lists() && trees[n].Has(0) && CountOf(trees[n].links[0], 1) >= 2 + n
  {
    DoubledSound();
    DoubledAcyclic();
    DoubledCounts(0, 1);
    assert Twice(Doubled(), DocumentOf(DoubledDocument()), 0, 1) by {
      assert (Item(Theme, "T"), Item(Group, "G")) in AllLinks(DoubledDocument());
    }
    NeverSettles(Flags(false, true), DoubledDocument(), trees, 0, 1, n);
  }
}
