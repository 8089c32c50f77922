/** The layers of a capabilities document, and the proof that pruning the document is pruning the tree of its layers
  * as LayerTrees says. */
module LayerDocuments {
  import opened Wrappers
  import opened Xml
  import opened Pruning
  import opened LayerTrees

  predicate LayerFree(c: Config, f: Forest) {
    match f
    case Empty => true
    case Leaf(_, next) => LayerFree(c, next)
    case Element(tag, _, kids, next) => !c.IsLayer(tag) && LayerFree(c, kids) && LayerFree(c, next)
  }

  predicate InNameAfter(c: Config, f: Forest, inName: bool) {
    match f
    case Empty => inName
    case Leaf(_, next) => InNameAfter(c, next, inName)
    case Element(tag, _, kids, next) =>
      if c.IsLayer(tag) then InNameAfter(c, next, inName)
      else InNameAfter(c, next, InNameAfter(c, kids, inName || c.IsName(tag)) && !c.IsName(tag))
  }

  /** The texts of the Name elements in the content of a layer, but not in the layers inside it. */
  function Names(c: Config, f: Forest, inName: bool): seq<string> {
    match f
    case Empty => []
    case Leaf(content, next) =>
      (if content.Characters? && inName then [content.text] else []) + Names(c, next, inName)
    case Element(tag, _, kids, next) =>
      if c.IsLayer(tag) then Names(c, next, inName)
      else
        Names(c, kids, inName || c.IsName(tag))
        + Names(c, next, InNameAfter(c, kids, inName || c.IsName(tag)) && !c.IsName(tag))
  }

  /** The content of the first Name element directly in a content. */
  function NameElement(c: Config, f: Forest): Option<Forest> {
    match f
    case Empty => None
    case Leaf(_, next) => NameElement(c, next)
    case Element(tag, _, kids, next) => if c.IsName(tag) then Some(kids) else NameElement(c, next)
  }

  /** The text of an element, without that of the elements inside. */
  function Text(f: Forest): string {
    match f
    case Empty => ""
    case Leaf(content, next) => (if content.Characters? then content.text else "") + Text(next)
    case Element(_, _, _, next) => Text(next)
  }

  /** The own name of a layer; an empty name is none. */
  function OwnName(c: Config, content: Forest): Option<string> {
    match NameElement(c, content)
    case Some(kids) => if Text(kids) == "" then None else Some(Text(kids))
    case None => None
  }

  /** The content of a layer: what may hold names, then the layers inside, with nothing that holds a name between. */
  predicate NamesFirst(c: Config, f: Forest)
    decreases f
  {
    match f
    case Empty => true
    case Leaf(_, next) => NamesFirst(c, next)
    case Element(tag, _, kids, next) =>
      if c.IsLayer(tag) then NamesFirst(c, kids) && Nameless(c, next)
      else LayerFree(c, kids) && NamesFirst(c, next)
  }

  predicate Nameless(c: Config, f: Forest)
    decreases f
  {
    match f
    case Empty => true
    case Leaf(_, next) => Nameless(c, next)
    case Element(tag, _, kids, next) =>
      if c.IsLayer(tag) then NamesFirst(c, kids) && Nameless(c, next)
      else LayerFree(c, kids) && Names(c, kids, c.IsName(tag)) == [] && Nameless(c, next)
  }

  /** The layers directly inside a content. */
  function Layers(c: Config, f: Forest): seq<LayerTree>
    decreases f, 0
  {
    match f
    case Empty => []
    case Leaf(_, next) => Layers(c, next)
    case Element(tag, _, kids, next) =>
      if c.IsLayer(tag) then [Tree(c, kids)] + Layers(c, next) else Layers(c, next)
  }

  /** The layer with this content. */
  function Tree(c: Config, content: Forest): LayerTree
    decreases content, 1
  {
    Node(OwnName(c, content), Names(c, content, false), Layers(c, content))
  }

  /** A document where every layer has its names first. */
  predicate Conforms(c: Config, document: Forest) {
    match document
    case Empty => true
    case Leaf(_, next) => Conforms(c, next)
    case Element(tag, _, kids, next) =>
      (if c.IsLayer(tag) then NamesFirst(c, kids) else Conforms(c, kids)) && Conforms(c, next)
  }

  /** The outermost layers of a document. */
  function OutermostLayers(c: Config, document: Forest): seq<LayerTree> {
    match document
    case Empty => []
    case Leaf(_, next) => OutermostLayers(c, next)
    case Element(tag, _, kids, next) =>
      (if c.IsLayer(tag) then [Tree(c, kids)] else OutermostLayers(c, kids)) + OutermostLayers(c, next)
  }

  /** The outermost layers that must be left, with the layers that must be left inside them. */
  ghost function PrintedTrees(c: Config, ts: seq<LayerTree>): seq<LayerTree> {
    if ts == [] then []
    else (if Printed(c, ts[0], []) then [PrintedTree(c, ts[0], [])] else []) + PrintedTrees(c, ts[1..])
  }

  lemma NamesConcat(c: Config, a: seq<string>, b: seq<string>)
    ensures AnyBad(c, a + b) <==> AnyBad(c, a) || AnyBad(c, b)
    ensures FirstGood(c, a + b) <==> FirstGood(c, a) || (a == [] && FirstGood(c, b))
  {
    if AnyBad(c, a) {
      var i :| 0 <= i < |a| && !c.Keeps(a[i]);
      assert (a + b)[i] == a[i];
    }
    if AnyBad(c, b) {
      var i :| 0 <= i < |b| && !c.Keeps(b[i]);
      assert (a + b)[|a| + i] == b[i];
    }
  }

  /** The summary of a content without layers: it stays, and tells about its layer what its names tell. */
  ghost predicate StaysAsIs(c: Config, f: Forest, depth: nat, inName: bool, hidden: bool) {
    var s, names := Prune(c, f, depth, inName, hidden), Names(c, f, inName);
    && s.pruned == f && s.layers == s.rejectedLayers == 0 && s.inName == InNameAfter(c, f, inName)
    && s.rejected == (!hidden && AnyBad(c, names))
    && s.kept == (!hidden && FirstGood(c, names))
  }

  lemma {:induction false} PruneLayerFree(c: Config, f: Forest, depth: nat, inName: bool, hidden: bool)
    requires depth > 0 && LayerFree(c, f)
    ensures StaysAsIs(c, f, depth, inName, hidden)
    decreases f
  {
    match f
    case Empty =>
    case Leaf(_, next) =>
      var first := PruneNode(c, f, depth, inName, hidden);
      PruneLayerFree(c, next, depth, inName, hidden || first.rejected);
      LeafStays(c, f, depth, inName, hidden);
    case Element(tag, _, kids, next) =>
      var first := PruneNode(c, f, depth, inName, hidden);
      PruneLayerFree(c, kids, depth, inName || c.IsName(tag), hidden);
      PruneLayerFree(c, next, depth, first.inName, hidden || first.rejected);
      ElementStays(c, f, depth, inName, hidden);
  }

  lemma LeafStays(c: Config, f: Forest, depth: nat, inName: bool, hidden: bool)
    requires depth > 0 && f.Leaf?
    requires StaysAsIs(c, f.next, depth, inName, hidden || PruneNode(c, f, depth, inName, hidden).rejected)
    ensures StaysAsIs(c, f, depth, inName, hidden)
  {
    var own := if f.content.Characters? && inName then [f.content.text] else [];
    NamesConcat(c, own, Names(c, f.next, inName));
    assert f.content.Characters? && inName ==> own[0] == f.content.text;
    assert Append(Leaf(f.content, Empty), f.next) == Leaf(f.content, Append(Empty, f.next));
  }

  lemma ElementStays(c: Config, f: Forest, depth: nat, inName: bool, hidden: bool)
    requires depth > 0 && f.Element? && !c.IsLayer(f.tag)
    requires StaysAsIs(c, f.kids, depth, inName || c.IsName(f.tag), hidden)
    requires var first := PruneNode(c, f, depth, inName, hidden);
             StaysAsIs(c, f.next, depth, first.inName, hidden || first.rejected)
    ensures StaysAsIs(c, f, depth, inName, hidden)
  {
    var first := PruneNode(c, f, depth, inName, hidden);
    var own := Names(c, f.kids, inName || c.IsName(f.tag));
    NamesConcat(c, own, Names(c, f.next, first.inName));
    assert own != [] && !FirstGood(c, own) ==> AnyBad(c, own);
    assert Append(Element(f.tag, f.attrs, f.kids, Empty), f.next) == Element(f.tag, f.attrs, f.kids, Append(Empty, f.next));
  }

  lemma {:induction false} NotInNameAfter(c: Config, f: Forest)
    ensures !InNameAfter(c, f, false)
  {
    match f
    case Empty =>
    case Leaf(_, next) => NotInNameAfter(c, next);
    case Element(tag, _, kids, next) =>
      NotInNameAfter(c, next);
      if !c.IsLayer(tag) && !c.IsName(tag) {
        NotInNameAfter(c, kids);
      }
  }

  predicate AnyKept(c: Config, ts: seq<LayerTree>, depth: nat, ignored: bool) {
    exists k :: 0 <= k < |ts| && Kept(c, ts[k], depth, ignored)
  }

  function CountRejected(c: Config, ts: seq<LayerTree>, ignored: bool): (n: nat)
    ensures n <= |ts|
    ensures ts != [] ==> (n == |ts| <==> OnlyRejected(c, ts, ignored))
  {
    if ts == [] then 0
    else
      var rest := CountRejected(c, ts[1..], ignored);
      assert forall k :: 0 <= k < |ts| - 1 ==> ts[1..][k] == ts[k + 1];
      assert OnlyRejected(c, ts, ignored) ==> forall k :: 0 <= k < |ts| - 1 ==> !ignored && Bad(c, ts[1..][k]);
      assert forall k :: 1 <= k < |ts| ==> ts[k] == ts[1..][k - 1];
      (if !ignored && Bad(c, ts[0]) then 1 else 0) + rest
  }

  lemma AnyKeptCons(c: Config, t: LayerTree, ts: seq<LayerTree>, depth: nat, ignored: bool)
    ensures AnyKept(c, [t] + ts, depth, ignored) <==> Kept(c, t, depth, ignored) || AnyKept(c, ts, depth, ignored)
  {
    var all := [t] + ts;
    if Kept(c, t, depth, ignored) {
      assert Kept(c, all[0], depth, ignored);
    }
    if AnyKept(c, ts, depth, ignored) {
      var k :| 0 <= k < |ts| && Kept(c, ts[k], depth, ignored);
      assert Kept(c, all[k + 1], depth, ignored);
    }
  }

  /** What the summary `s` of a content must be, when names are ignored in the layers inside iff `below`. */
  predicate Matches(c: Config, f: Forest, s: Summary, depth: nat, hidden: bool, below: bool) {
    && !s.inName
    && s.rejected == (!hidden && AnyBad(c, Names(c, f, false)))
    && s.kept == ((!hidden && FirstGood(c, Names(c, f, false))) || AnyKept(c, Layers(c, f), depth + 1, below))
    && s.layers == |Layers(c, f)| && s.rejectedLayers == CountRejected(c, Layers(c, f), below)
    && Names(c, s.pruned, false) == Names(c, f, false) && NameElement(c, s.pruned) == NameElement(c, f)
    && Layers(c, s.pruned) == TrimAll(c, Layers(c, f), depth + 1, below)
  }

  lemma {:induction false} NamesAppend(c: Config, a: Forest, b: Forest, inName: bool)
    ensures Names(c, Append(a, b), inName) == Names(c, a, inName) + Names(c, b, InNameAfter(c, a, inName))
  {
    match a
    case Empty =>
    case Leaf(content, next) =>
      NamesAppend(c, next, b, inName);
      var own := if content.Characters? && inName then [content.text] else [];
      Assoc(own, Names(c, next, inName), Names(c, b, InNameAfter(c, next, inName)));
    case Element(tag, _, kids, next) =>
      if c.IsLayer(tag) {
        NamesAppend(c, next, b, inName);
      } else {
        var after := InNameAfter(c, kids, inName || c.IsName(tag)) && !c.IsName(tag);
        NamesAppend(c, next, b, after);
        Assoc(Names(c, kids, inName || c.IsName(tag)), Names(c, next, after),
              Names(c, b, InNameAfter(c, next, after)));
      }
  }

  lemma Assoc(a: seq<string>, b: seq<string>, c: seq<string>)
    ensures a + (b + c) == a + b + c
  {
  }

  lemma {:induction false} NameElementAppend(c: Config, a: Forest, b: Forest)
    ensures NameElement(c, Append(a, b)) == if NameElement(c, a).Some? then NameElement(c, a) else NameElement(c, b)
  {
    if !a.Empty? {
      NameElementAppend(c, a.next, b);
    }
  }

  lemma {:induction false} LayersAppend(c: Config, a: Forest, b: Forest)
    ensures Layers(c, Append(a, b)) == Layers(c, a) + Layers(c, b)
  {
    if !a.Empty? {
      LayersAppend(c, a.next, b);
    }
  }

  /** One layer among the layers directly inside a layer that is read with names ignored iff `below`. */
  lemma {:induction false} PruneLayer(c: Config, f: Forest, depth: nat, hidden: bool)
    requires depth > 0 && f.Element? && c.IsLayer(f.tag) && NamesFirst(c, f.kids)
    ensures var s := PruneNode(c, f, depth, false, hidden);
            var t := Tree(c, f.kids);
            var below := Inherits(depth, hidden);
            && !s.inName && !s.rejected && s.layers == 1
            && s.rejectedLayers == (if !below && Bad(c, t) then 1 else 0)
            && s.kept == Kept(c, t, depth + 1, below)
            && Names(c, s.pruned, false) == [] && InNameAfter(c, s.pruned, false) == false
            && NameElement(c, s.pruned) == None
            && Layers(c, s.pruned) == if Shows(c, t, depth + 1, below) then [Trim(c, t, depth + 1, below)] else []
    decreases f, 0
  {
    var below := Inherits(depth, hidden);
    var inside := Prune(c, f.kids, depth + 1, false, below);
    var t := Tree(c, f.kids);
    PruneContent(c, f.kids, depth + 1, below);
    var deeper := Below(c, t, depth + 1, below);
    assert Inherits(depth + 1, below || inside.rejected) == deeper;
    assert inside.kept == Kept(c, t, depth + 1, below);
    assert inside.Shows() == Shows(c, t, depth + 1, below) by {
      if t.kids != [] {
        assert inside.rejectedLayers == CountRejected(c, t.kids, deeper);
      }
    }
  }

  /** The layers of a layer, with nothing that holds a name between them. */
  lemma {:induction false} PruneNameless(c: Config, f: Forest, depth: nat, hidden: bool)
    requires depth > 0 && Nameless(c, f)
    ensures Names(c, f, false) == []
    ensures Matches(c, f, Prune(c, f, depth, false, hidden), depth, hidden, Inherits(depth, hidden))
    decreases f, 1
  {
    if !f.Empty? {
      var below := Inherits(depth, hidden);
      var first := PruneNode(c, f, depth, false, hidden);
      PruneNameless(c, f.next, depth, hidden);
      var after := Prune(c, f.next, depth, false, hidden);
      NotInNameAfter(c, first.pruned);
      NamesAppend(c, first.pruned, after.pruned, false);
      LayersAppend(c, first.pruned, after.pruned);
      NameElementAppend(c, first.pruned, after.pruned);
      if f.Element? && c.IsLayer(f.tag) {
        PruneLayer(c, f, depth, hidden);
        MatchesAfterLayer(c, f, Tree(c, f.kids), first, after, depth, hidden);
      } else if f.Element? {
        PruneLayerFree(c, f.kids, depth, c.IsName(f.tag), hidden);
        NotInNameAfter(c, f.kids);
      }
    }
  }

  lemma MatchesAfterLayer(c: Config, f: Forest, t: LayerTree, first: Summary, after: Summary, depth: nat, hidden: bool)
    requires !f.Empty? && !first.inName && !first.rejected && first.layers == 1
    requires var below := Inherits(depth, hidden);
             && first.rejectedLayers == (if !below && Bad(c, t) then 1 else 0)
             && first.kept == Kept(c, t, depth + 1, below)
             && Layers(c, first.pruned) == (if Shows(c, t, depth + 1, below) then [Trim(c, t, depth + 1, below)] else [])
    requires Names(c, first.pruned, false) == [] && !InNameAfter(c, first.pruned, false)
    requires NameElement(c, first.pruned) == None && NameElement(c, f) == NameElement(c, f.next)
    requires Names(c, f, false) == Names(c, f.next, false) == [] && Layers(c, f) == [t] + Layers(c, f.next)
    requires Matches(c, f.next, after, depth, hidden, Inherits(depth, hidden))
    ensures Matches(c, f, first.Then(after), depth, hidden, Inherits(depth, hidden))
  {
    AnyKeptCons(c, t, Layers(c, f.next), depth + 1, Inherits(depth, hidden));
    NamesAppend(c, first.pruned, after.pruned, false);
    LayersAppend(c, first.pruned, after.pruned);
    NameElementAppend(c, first.pruned, after.pruned);
    assert ([t] + Layers(c, f.next))[1..] == Layers(c, f.next);
  }

  /** The content of a layer. */
  lemma {:induction false} PruneContent(c: Config, f: Forest, depth: nat, hidden: bool)
    requires depth > 0 && NamesFirst(c, f)
    ensures var s := Prune(c, f, depth, false, hidden);
            Matches(c, f, s, depth, hidden, Inherits(depth, hidden || s.rejected))
    decreases f, 2
  {
    if !f.Empty? {
      if f.Element? && c.IsLayer(f.tag) {
        assert Nameless(c, f);
        PruneNameless(c, f, depth, hidden);
      } else {
        var own := if f.Leaf? then [] else Names(c, f.kids, c.IsName(f.tag));
        PruneHeader(c, f, depth, hidden, own);
        var first := PruneNode(c, f, depth, false, hidden);
        PruneContent(c, f.next, depth, hidden || first.rejected);
        var after := Prune(c, f.next, depth, false, hidden || first.rejected);
        MatchesAfterHeader(c, f, first, after, depth, hidden, own);
      }
    }
  }

  lemma MatchesAfterHeader(c: Config, f: Forest, first: Summary, after: Summary, depth: nat, hidden: bool, own: seq<string>)
    requires !f.Empty? && !first.inName && first.layers == first.rejectedLayers == 0
    requires first.rejected == (!hidden && AnyBad(c, own)) && first.kept == (!hidden && FirstGood(c, own))
    requires Names(c, first.pruned, false) == own && Layers(c, first.pruned) == []
    requires NameElement(c, f)
          == if NameElement(c, first.pruned).Some? then NameElement(c, first.pruned) else NameElement(c, f.next)
    requires !InNameAfter(c, first.pruned, false)
    requires Names(c, f, false) == own + Names(c, f.next, false) && Layers(c, f) == Layers(c, f.next)
    requires own != [] && !FirstGood(c, own) ==> AnyBad(c, own)
    requires Matches(c, f.next, after, depth, hidden || first.rejected,
                     Inherits(depth, hidden || first.rejected || after.rejected))
    ensures var s := first.Then(after);
            Matches(c, f, s, depth, hidden, Inherits(depth, hidden || s.rejected))
  {
    NamesConcat(c, own, Names(c, f.next, false));
    NamesAppend(c, first.pruned, after.pruned, false);
    LayersAppend(c, first.pruned, after.pruned);
    NameElementAppend(c, first.pruned, after.pruned);
  }

  /** A node of a layer that is not a layer, before the layers inside. */
  lemma PruneHeader(c: Config, f: Forest, depth: nat, hidden: bool, own: seq<string>)
    requires depth > 0 && !f.Empty? && (f.Element? ==> !c.IsLayer(f.tag) && LayerFree(c, f.kids))
    requires own == if f.Leaf? then [] else Names(c, f.kids, c.IsName(f.tag))
    ensures var s := PruneNode(c, f, depth, false, hidden);
            && !s.inName && s.layers == s.rejectedLayers == 0
            && s.rejected == (!hidden && AnyBad(c, own)) && s.kept == (!hidden && FirstGood(c, own))
            && Names(c, s.pruned, false) == own && Layers(c, s.pruned) == [] && !InNameAfter(c, s.pruned, false)
    ensures own != [] && !FirstGood(c, own) ==> AnyBad(c, own)
    ensures NameElement(c, f) == (var first := NameElement(c, PruneNode(c, f, depth, false, hidden).pruned);
                                  if first.Some? then first else NameElement(c, f.next))
    ensures Names(c, f, false) == own + Names(c, f.next, false) && Layers(c, f) == Layers(c, f.next)
  {
    if f.Element? {
      PruneLayerFree(c, f.kids, depth, c.IsName(f.tag), hidden);
      NotInNameAfter(c, f.kids);
    }
    NotInNameAfter(c, PruneNode(c, f, depth, false, hidden).pruned);
  }

  lemma {:induction false} OutermostAppend(c: Config, a: Forest, b: Forest)
    ensures OutermostLayers(c, Append(a, b)) == OutermostLayers(c, a) + OutermostLayers(c, b)
  {
    if !a.Empty? {
      OutermostAppend(c, a.next, b);
    }
  }

  lemma {:induction false} PrintedTreesConcat(c: Config, a: seq<LayerTree>, b: seq<LayerTree>)
    ensures PrintedTrees(c, a + b) == PrintedTrees(c, a) + PrintedTrees(c, b)
    decreases |a|
  {
    if a == [] {
      assert a + b == b;
    } else {
      assert (a + b)[1..] == a[1..] + b;
      PrintedTreesConcat(c, a[1..], b);
    }
  }

  /** The outermost layer by the recursive form. */
  lemma PrintedOutermost(c: Config, t: LayerTree)
    ensures PrintedTrees(c, [t]) == if Kept(c, t, 1, false) then [Trim(c, t, 1, false)] else []
  {
    var root: Path := [];
    assert At(t, root) == t && Evaluated(c, t, root);
    KeptIsKeptInside(c, t, root);
    if Printed(c, t, root) {
      PrintedTreeIsTrim(c, t, root);
    }
    assert PrintedTrees(c, [t][1..]) == [];
  }

  /** An outermost layer. */
  lemma PruneOutermost(c: Config, f: Forest)
    requires f.Element? && c.IsLayer(f.tag) && NamesFirst(c, f.kids)
    ensures !PruneNode(c, f, 0, false, false).inName
    ensures OutermostLayers(c, PruneNode(c, f, 0, false, false).pruned) == PrintedTrees(c, [Tree(c, f.kids)])
  {
    PruneContent(c, f.kids, 1, false);
    PrintedOutermost(c, Tree(c, f.kids));
  }

  /** Pruning a document prunes its layers: a layer is left iff it must show, by the rule on paths. */
  lemma {:induction false} PrunedLayers(c: Config, document: Forest)
    requires Conforms(c, document)
    ensures OutermostLayers(c, Pruned(c, document)) == PrintedTrees(c, OutermostLayers(c, document))
    ensures !Prune(c, document, 0, false, false).inName
    decreases document
  {
    if !document.Empty? {
      PrunedLayers(c, document.next);
      var first := PruneNode(c, document, 0, false, false);
      if document.Element? {
        if c.IsLayer(document.tag) {
          PruneOutermost(c, document);
        } else {
          PrunedLayers(c, document.kids);
        }
      }
      var own := if document.Leaf? then []
                 else if c.IsLayer(document.tag) then [Tree(c, document.kids)]
                 else OutermostLayers(c, document.kids);
      OutermostAppend(c, first.pruned, Pruned(c, document.next));
      PrintedTreesConcat(c, own, OutermostLayers(c, document.next));
    }
  }
}
