/** What holds of every pruned document, whatever the document. */
module PrunedDocument {
  import opened Xml
  import opened Pruning

  /** The document without any layer element. */
  function WithoutLayers(c: Config, f: Forest): Forest {
    match f
    case Empty => Empty
    case Leaf(content, next) => Leaf(content, WithoutLayers(c, next))
    case Element(tag, attrs, kids, next) =>
      if c.IsLayer(tag) then WithoutLayers(c, next)
      else Element(tag, attrs, WithoutLayers(c, kids), WithoutLayers(c, next))
  }

  lemma {:induction false} WithoutLayersAppend(c: Config, a: Forest, b: Forest)
    ensures WithoutLayers(c, Append(a, b)) == Append(WithoutLayers(c, a), WithoutLayers(c, b))
  {
    if !a.Empty? {
      WithoutLayersAppend(c, a.next, b);
    }
  }

  /** Nothing outside the layer elements changes. */
  lemma {:induction false} OutsideUnchanged(c: Config, f: Forest, depth: nat, inName: bool, selfHidden: bool)
    ensures WithoutLayers(c, Prune(c, f, depth, inName, selfHidden).pruned) == WithoutLayers(c, f)
    decreases f
  {
    if !f.Empty? {
      var first := PruneNode(c, f, depth, inName, selfHidden);
      var after := Prune(c, f.next, depth, first.inName, selfHidden || first.rejected);
      OutsideUnchanged(c, f.next, depth, first.inName, selfHidden || first.rejected);
      WithoutLayersAppend(c, first.pruned, after.pruned);
      if f.Element? && !c.IsLayer(f.tag) {
        OutsideUnchanged(c, f.kids, depth, inName || (c.IsName(f.tag) && depth > 0), selfHidden);
      }
    }
  }

  /** What is printed comes from the document, in the order of the document. */
  lemma {:induction false} PrunedIsSubsequence(c: Config, f: Forest, depth: nat, inName: bool, selfHidden: bool)
    ensures Subsequence(Events(Prune(c, f, depth, inName, selfHidden).pruned), Events(f))
    decreases f
  {
    if !f.Empty? {
      var first := PruneNode(c, f, depth, inName, selfHidden);
      PrunedIsSubsequence(c, f.next, depth, first.inName, selfHidden || first.rejected);
      match f
      case Leaf(content, next) =>
      case Element(tag, attrs, kids, next) =>
        if c.IsLayer(tag) {
          PrunedIsSubsequence(c, kids, depth + 1, inName, Inherits(depth, selfHidden));
          ElementSubsequence(tag, attrs, Prune(c, kids, depth + 1, inName, Inherits(depth, selfHidden)).pruned, kids);
        } else {
          var opens := inName || (c.IsName(tag) && depth > 0);
          PrunedIsSubsequence(c, kids, depth, opens, selfHidden);
          ElementSubsequence(tag, attrs, Prune(c, kids, depth, opens, selfHidden).pruned, kids);
        }
        var node := [Start(tag, attrs)] + Events(kids) + [End(tag)];
        assert Events(f) == node + Events(next);
        assert Subsequence(Events(first.pruned), node);
        SubsequenceConcat(Events(first.pruned), node, Events(Prune(c, next, depth, first.inName,
                                                                   selfHidden || first.rejected).pruned), Events(next));
    }
  }

  lemma ElementSubsequence(tag: Tag, attrs: Attributes, pruned: Forest, kids: Forest)
    requires Subsequence(Events(pruned), Events(kids))
    ensures Subsequence(Events(Element(tag, attrs, pruned, Empty)), [Start(tag, attrs)] + Events(kids) + [End(tag)])
    ensures Subsequence([], [Start(tag, attrs)] + Events(kids) + [End(tag)])
  {
    var start, end := [Start(tag, attrs)], [End(tag)];
    SubsequenceConcat(start, start, Events(pruned), Events(kids));
    SubsequenceConcat(start + Events(pruned), start + Events(kids), end, end);
    assert Events(Element(tag, attrs, pruned, Empty)) == start + Events(pruned) + end;
  }

  /** The forest `g` is `f` without some of its layer elements, each with all that is in it. */
  predicate OnlyLayersGone(c: Config, f: Forest, g: Forest)
    decreases f
  {
    match f
    case Empty => g.Empty?
    case Leaf(content, next) => g.Leaf? && g.content == content && OnlyLayersGone(c, next, g.next)
    case Element(tag, attrs, kids, next) =>
      || (g.Element? && g.tag == tag && g.attrs == attrs && OnlyLayersGone(c, kids, g.kids) && OnlyLayersGone(c, next, g.next))
      || (tag == Plain(c.tagName) && OnlyLayersGone(c, next, g))
  }

  lemma {:induction false} PruneTakesLayers(c: Config, f: Forest, depth: nat, inName: bool, selfHidden: bool)
    ensures OnlyLayersGone(c, f, Prune(c, f, depth, inName, selfHidden).pruned)
    decreases f
  {
    if !f.Empty? {
      var first := PruneNode(c, f, depth, inName, selfHidden);
      var after := Prune(c, f.next, depth, first.inName, selfHidden || first.rejected);
      PruneTakesLayers(c, f.next, depth, first.inName, selfHidden || first.rejected);
      assert Append(Empty, after.pruned) == after.pruned;
      if f.Element? {
        if c.IsLayer(f.tag) {
          PruneTakesLayers(c, f.kids, depth + 1, inName, Inherits(depth, selfHidden));
        } else {
          PruneTakesLayers(c, f.kids, depth, inName || (c.IsName(f.tag) && depth > 0), selfHidden);
        }
      }
    }
  }

  /** For every well-nested stream: the output is well nested, made of events of the input in their order, and the
    * same as the input outside the layer elements; only whole layer elements are gone. */
  lemma FilterSafety(c: Config, document: Forest)
    ensures WellNested(Events(Pruned(c, document)))
    ensures Subsequence(Events(Pruned(c, document)), Events(document))
    ensures WithoutLayers(c, Pruned(c, document)) == WithoutLayers(c, document)
    ensures OnlyLayersGone(c, document, Pruned(c, document))
  {
    EventsWellNested(Pruned(c, document), []);
    PrunedIsSubsequence(c, document, 0, false, false);
    OutsideUnchanged(c, document, 0, false, false);
    PruneTakesLayers(c, document, 0, false, false);
  }
}
