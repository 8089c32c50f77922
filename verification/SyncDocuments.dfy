/** The items and the links of a document, and the documents in which no two elements stand for the same item. */
module SyncDocuments {
  import opened Wrappers
  import opened SyncTree
  import opened SyncOrdering

  /** What a document has: its items, and the links that the server gives. */
  datatype Document = Document(items: set<Item>, links: NamedLinks)

  /** The items of the elements of a document. */
  function ElementItems(item: Item, el: Element): set<Item>
    decreases el, 1
  {
    {item} + InsideItems(el.layers)
  }

  function InsideItems(layers: seq<Element>): set<Item>
    decreases layers, 0
  {
    if layers == [] then {} else ElementItems(Inner(layers[0]), layers[0]) + InsideItems(layers[1..])
  }

  /** Names are distinct per kind: no two elements stand for the same item. */
  predicate DistinctElement(item: Item, el: Element)
    decreases el, 1
  {
    item !in InsideItems(el.layers) && DistinctInside(el.layers)
  }

  predicate DistinctInside(layers: seq<Element>)
    decreases layers, 0
  {
    layers == []
    || (DistinctElement(Inner(layers[0]), layers[0]) && DistinctInside(layers[1..])
        && ElementItems(Inner(layers[0]), layers[0]) !! InsideItems(layers[1..]))
  }

  function AllItems(elements: seq<Element>): set<Item> {
    if elements == [] then {} else ElementItems(ItemOf(elements[0], None), elements[0]) + AllItems(elements[1..])
  }

  predicate DistinctAll(elements: seq<Element>) {
    elements == []
    || (DistinctElement(ItemOf(elements[0], None), elements[0]) && DistinctAll(elements[1..])
        && ElementItems(ItemOf(elements[0], None), elements[0]) !! AllItems(elements[1..]))
  }

  /** The items of the children that the server gives to an item. */
  function Served(item: Item, layers: seq<Element>): set<Item> {
    if layers == [] then {}
    else (if item.kind == Theme && layers[0].layers == [] then {} else {Inner(layers[0])}) + Served(item, layers[1..])
  }

  function DocumentOf(elements: seq<Element>): Document {
    Document(AllItems(elements), AllLinks(elements))
  }

  /** The document has this element, and gives to its items the children that the element gives. */
  ghost predicate Fits(d: Document, item: Item, el: Element)
    decreases el, 1
  {
    item in d.items && (forall x :: (item, x) in d.links ==> x in Served(item, el.layers)) && FitsInside(d, el.layers)
  }

  ghost predicate FitsInside(d: Document, layers: seq<Element>)
    decreases layers, 0
  {
    layers == [] || (Fits(d, Inner(layers[0]), layers[0]) && FitsInside(d, layers[1..]))
  }

  ghost predicate FitAll(d: Document, elements: seq<Element>) {
    elements == [] || (Fits(d, ItemOf(elements[0], None), elements[0]) && FitAll(d, elements[1..]))
  }

  // A document fits itself.

  /** The links of an element come from its items. */
  lemma {:induction false} LinksFrom(item: Item, layers: seq<Element>, pair: (Item, Item))
    requires pair in DocumentLinks(item, layers)
    ensures pair.0 == item || pair.0 in InsideItems(layers)
    decreases layers
  {
    if pair in DocumentLinks(item, layers[1..]) {
      LinksFrom(item, layers[1..], pair);
    } else if pair in DocumentLinks(Inner(layers[0]), layers[0].layers) {
      LinksFrom(Inner(layers[0]), layers[0].layers, pair);
    }
  }

  /** Those that come from the item of the element itself are to the children that it gives. */
  lemma {:induction false} OwnLinks(item: Item, layers: seq<Element>, x: Item)
    requires item !in InsideItems(layers) && (item, x) in DocumentLinks(item, layers)
    ensures x in Served(item, layers)
    decreases layers
  {
    if (item, x) in DocumentLinks(item, layers[1..]) {
      OwnLinks(item, layers[1..], x);
    } else if (item, x) in DocumentLinks(Inner(layers[0]), layers[0].layers) {
      LinksFrom(Inner(layers[0]), layers[0].layers, (item, x));
      assert false;
    }
  }

  /** No link of the document starts at these items. */
  ghost predicate NotFrom(links: NamedLinks, items: set<Item>) {
    forall pair: (Item, Item) :: pair in links ==> pair.0 !in items
  }

  lemma {:induction false} FitsMore(d: Document, item: Item, el: Element, more: Document)
    requires Fits(d, item, el) && NotFrom(more.links, ElementItems(item, el))
    ensures Fits(Document(d.items + more.items, d.links + more.links), item, el)
    decreases el, 1
  {
    assert forall x :: (item, x) !in more.links by {
      forall x ensures (item, x) !in more.links {
        assert (item, x) in more.links ==> (item, x).0 !in ElementItems(item, el);
      }
    }
    FitsInsideMore(d, el.layers, more);
  }

  lemma {:induction false} FitsInsideMore(d: Document, layers: seq<Element>, more: Document)
    requires FitsInside(d, layers) && NotFrom(more.links, InsideItems(layers))
    ensures FitsInside(Document(d.items + more.items, d.links + more.links), layers)
    decreases layers, 0
  {
    if layers != [] {
      FitsMore(d, Inner(layers[0]), layers[0], more);
      FitsInsideMore(d, layers[1..], more);
    }
  }

  /** An element without its own links. */
  lemma {:induction false} InsideFits(item: Item, layers: seq<Element>)
    requires DistinctInside(layers) && item !in InsideItems(layers)
    ensures FitsInside(Document(InsideItems(layers), DocumentLinks(item, layers)), layers)
    decreases layers, 0
  {
    if layers != [] {
      var first := Document(ElementItems(Inner(layers[0]), layers[0]), DocumentLinks(Inner(layers[0]), layers[0].layers));
      var own: NamedLinks := if item.kind == Theme && layers[0].layers == [] then {} else {(item, Inner(layers[0]))};
      var rest := Document(InsideItems(layers[1..]), DocumentLinks(item, layers[1..]));
      ElementFits(Inner(layers[0]), layers[0]);
      InsideFits(item, layers[1..]);
      forall pair: (Item, Item) | pair in own + rest.links ensures pair.0 !in first.items {
        if pair in rest.links {
          LinksFrom(item, layers[1..], pair);
        }
      }
      FitsMore(first, Inner(layers[0]), layers[0], Document(rest.items, own + rest.links));
      forall pair: (Item, Item) | pair in own + first.links ensures pair.0 !in rest.items {
        if pair in first.links {
          LinksFrom(Inner(layers[0]), layers[0].layers, pair);
        }
      }
      FitsInsideMore(rest, layers[1..], Document(first.items, own + first.links));
      assert first.items + rest.items == rest.items + first.items == InsideItems(layers);
      assert first.links + (own + rest.links) == rest.links + (own + first.links) == DocumentLinks(item, layers);
    }
  }

  lemma {:induction false} ElementFits(item: Item, el: Element)
    requires DistinctElement(item, el)
    ensures Fits(Document(ElementItems(item, el), DocumentLinks(item, el.layers)), item, el)
    decreases el, 1
  {
    InsideFits(item, el.layers);
    FitsInsideMore(Document(InsideItems(el.layers), DocumentLinks(item, el.layers)), el.layers, Document({item}, {}));
    assert InsideItems(el.layers) + {item} == ElementItems(item, el);
    assert DocumentLinks(item, el.layers) + {} == DocumentLinks(item, el.layers);
    forall x | (item, x) in DocumentLinks(item, el.layers) ensures x in Served(item, el.layers) {
      OwnLinks(item, el.layers, x);
    }
  }

  lemma {:induction false} AllLinksFrom(elements: seq<Element>, pair: (Item, Item))
    requires pair in AllLinks(elements)
    ensures pair.0 in AllItems(elements)
  {
    if pair in AllLinks(elements[1..]) {
      AllLinksFrom(elements[1..], pair);
    } else {
      LinksFrom(ItemOf(elements[0], None), elements[0].layers, pair);
    }
  }

  lemma {:induction false} FitAllMore(d: Document, elements: seq<Element>, more: Document)
    requires FitAll(d, elements) && NotFrom(more.links, AllItems(elements))
    ensures FitAll(Document(d.items + more.items, d.links + more.links), elements)
  {
    if elements != [] {
      FitsMore(d, ItemOf(elements[0], None), elements[0], more);
      FitAllMore(d, elements[1..], more);
    }
  }

  lemma {:induction false} DocumentFits(elements: seq<Element>)
    requires DistinctAll(elements)
    ensures FitAll(DocumentOf(elements), elements)
    decreases |elements|
  {
    if elements != [] {
      var item := ItemOf(elements[0], None);
      var first := Document(ElementItems(item, elements[0]), DocumentLinks(item, elements[0].layers));
      var rest := DocumentOf(elements[1..]);
      ElementFits(item, elements[0]);
      DocumentFits(elements[1..]);
      forall pair: (Item, Item) | pair in rest.links ensures pair.0 !in first.items {
        AllLinksFrom(elements[1..], pair);
      }
      FitsMore(first, item, elements[0], rest);
      forall pair: (Item, Item) | pair in first.links ensures pair.0 !in rest.items {
        LinksFrom(item, elements[0].layers, pair);
      }
      FitAllMore(rest, elements[1..], first);
      assert rest.items + first.items == first.items + rest.items;
      assert rest.links + first.links == first.links + rest.links;
    }
  }
}
