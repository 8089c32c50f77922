/** What a filtered capabilities document must be: the document without the layers that must not show. */
module Pruning {
  import opened Xml
  import opened Names

  /** Which layer names may be shown; names are compared in lower case. */
  datatype Policy = Blacklist(hidden: set<string>) | Whitelist(shown: set<string>)

  /** The element that stands for a layer ("Layer" or "FeatureType") and the names to keep. */
  datatype Config = Config(tagName: string, policy: Policy)
  {
    predicate Keeps(text: string) {
      var name := NormalizeTypename(text);
      match policy
      case Blacklist(hidden) => name !in hidden
      case Whitelist(shown) => name in shown
    }

    predicate IsLayer(tag: Tag) {
      tag.Plain? && tag.name == tagName
    }

    predicate IsName(tag: Tag) {
      tag.Plain? && tag.name != tagName && tag.name == "Name"
    }
  }

  /** What reading the content of a layer, or a part of it, tells about the layer.
    * inName: whether the reader is inside a Name after the content;
    * rejected: a name read for the layer itself is not kept; kept: a name read inside the layer is kept;
    * layers: the layers directly inside; rejectedLayers: those of them that were rejected;
    * pruned: the content without the layers that must not show. */
  datatype Summary = Summary(inName: bool, rejected: bool, kept: bool, layers: nat, rejectedLayers: nat, pruned: Forest)
  {
    /** A layer inside another one shows if something inside is kept, unless it only has rejected layers. */
    predicate Shows() {
      kept && !(layers > 0 && layers == rejectedLayers)
    }

    /** This content, then the content that `after` summarizes. */
    function Then(after: Summary): Summary {
      Summary(after.inName, rejected || after.rejected, kept || after.kept, layers + after.layers,
              rejectedLayers + after.rejectedLayers, Append(pruned, after.pruned))
    }
  }

  /** Whether names read directly in a layer are ignored from its start, when `depth` layers are open around it. */
  predicate Inherits(depth: nat, selfHidden: bool) {
    depth > 1 && selfHidden
  }

  /** Reads the first node of `f`, which stands inside `depth` nested layers;
    * names are ignored once the innermost of them is `selfHidden`. */
  function PruneNode(c: Config, f: Forest, depth: nat, inName: bool, selfHidden: bool): (s: Summary)
    requires !f.Empty?
    ensures s.rejected ==> depth > 0 && !selfHidden
    ensures s.rejectedLayers <= s.layers
    decreases f, 0
  {
    match f
    case Leaf(content, _) =>
      var evaluated := content.Characters? && inName && depth > 0 && !selfHidden;
      var keeps := evaluated && c.Keeps(content.text);
      Summary(inName, evaluated && !keeps, keeps, 0, 0, Leaf(content, Empty))
    case Element(tag, attrs, kids, _) =>
      if c.IsLayer(tag) then
        var layer := Prune(c, kids, depth + 1, inName, Inherits(depth, selfHidden));
        var shows := if depth == 0 then layer.kept else layer.Shows();
        Summary(layer.inName, false, layer.kept, 1, if layer.rejected then 1 else 0,
                if shows then Element(tag, attrs, layer.pruned, Empty) else Empty)
      else
        var inside := Prune(c, kids, depth, inName || (c.IsName(tag) && depth > 0), selfHidden);
        inside.(inName := inside.inName && !c.IsName(tag), pruned := Element(tag, attrs, inside.pruned, Empty))
  }

  function Prune(c: Config, f: Forest, depth: nat, inName: bool, selfHidden: bool): (s: Summary)
    ensures s.rejected ==> depth > 0 && !selfHidden
    ensures s.rejectedLayers <= s.layers
    decreases f, 1
  {
    if f.Empty? then Summary(inName, false, false, 0, 0, Empty)
    else
      var first := PruneNode(c, f, depth, inName, selfHidden);
      first.Then(Prune(c, f.next, depth, first.inName, selfHidden || first.rejected))
  }

  /** The document that the filter must print. */
  function Pruned(c: Config, document: Forest): Forest {
    Prune(c, document, 0, false, false).pruned
  }

  /** Which texts of a Name are kept: the lower case of the name that the text stands for is not hidden, or is shown. */
  lemma KeepsName(c: Config, text: string, name: string)
    requires StandsFor(text, name)
    ensures c.Keeps(text) <==> if c.policy.Blacklist? then Lower(name) !in c.policy.hidden else Lower(name) in c.policy.shown
  {
    NormalizedName(text, name);
  }

  /** A document with one layer, which has a text in another element and then its name. */
  function OneLayer(tagName: string, attrs: Attributes, other: Tag, title: string, nameAttrs: Attributes, text: string): Forest {
    Element(Plain(tagName), attrs,
            Element(other, map[], Leaf(Characters(title), Empty),
                    Element(Plain("Name"), nameAttrs, Leaf(Characters(text), Empty), Empty)), Empty)
  }

  /** A forest of one node. */
  lemma PruneOnly(c: Config, f: Forest, depth: nat, inName: bool, selfHidden: bool)
    requires !f.Empty? && f.next.Empty?
    ensures var node := PruneNode(c, f, depth, inName, selfHidden);
            Prune(c, f, depth, inName, selfHidden) == node.(pruned := Append(node.pruned, Empty))
  {
    var node := PruneNode(c, f, depth, inName, selfHidden);
    assert Prune(c, Empty, depth, node.inName, selfHidden || node.rejected) == Summary(node.inName, false, false, 0, 0, Empty);
  }

  lemma TitleRead(c: Config, other: Tag, title: string, next: Forest)
    requires other != Plain(c.tagName) && other != Plain("Name")
    ensures PruneNode(c, Element(other, map[], Leaf(Characters(title), Empty), next), 1, false, false)
         == Summary(false, false, false, 0, 0, Element(other, map[], Leaf(Characters(title), Empty), Empty))
  {
    PruneOnly(c, Leaf(Characters(title), Empty), 1, false, false);
  }

  lemma NameRead(c: Config, nameAttrs: Attributes, text: string)
    requires c.tagName != "Name"
    ensures var named := Element(Plain("Name"), nameAttrs, Leaf(Characters(text), Empty), Empty);
            Prune(c, named, 1, false, false) == Summary(false, !c.Keeps(text), c.Keeps(text), 0, 0, named)
  {
    PruneOnly(c, Leaf(Characters(text), Empty), 1, true, false);
    PruneOnly(c, Element(Plain("Name"), nameAttrs, Leaf(Characters(text), Empty), Empty), 1, false, false);
  }

  lemma ReadBoth(c: Config, header: Forest, keeps: bool)
    requires header.Element?
    requires PruneNode(c, header, 1, false, false) == Summary(false, false, false, 0, 0, Element(header.tag, header.attrs, header.kids, Empty))
    requires Prune(c, header.next, 1, false, false) == Summary(false, !keeps, keeps, 0, 0, header.next)
    ensures Prune(c, header, 1, false, false) == Summary(false, !keeps, keeps, 0, 0, header)
  {
    assert Append(Empty, header.next) == header.next;
  }

  /** It is left as it is when its name may be shown, whatever the other text, and otherwise nothing is left. */
  lemma OneLayerShows(c: Config, attrs: Attributes, other: Tag, title: string, nameAttrs: Attributes, text: string, name: string)
    requires c.tagName != "Name" && other != Plain(c.tagName) && other != Plain("Name") && StandsFor(text, name)
    ensures var document := OneLayer(c.tagName, attrs, other, title, nameAttrs, text);
            Pruned(c, document)
            == if (if c.policy.Blacklist? then Lower(name) !in c.policy.hidden else Lower(name) in c.policy.shown) then document
               else Empty
  {
    KeepsName(c, text, name);
    var document := OneLayer(c.tagName, attrs, other, title, nameAttrs, text);
    var header, named := document.kids, document.kids.next;
    TitleRead(c, other, title, named);
    NameRead(c, nameAttrs, text);
    ReadBoth(c, header, c.Keeps(text));
    PruneOnly(c, document, 0, false, false);
  }
}
