/** XML documents as forests, and the stream of SAX events a parser reports for them. */
module Xml {
  import opened Wrappers

  /** An element name as startElement or as startElementNS reports it. */
  datatype Tag = Plain(name: string) | Qualified(uri: Option<string>, localName: string, qname: Option<string>)

  type Attributes = map<string, string>

  /** What an element may hold besides elements. */
  datatype Content = Characters(text: string) | Whitespace(blanks: string) | Instruction(target: string, data: string)

  datatype Event = Start(tag: Tag, attrs: Attributes) | End(closing: Tag) | Content(content: Content)

  /** A list of sibling nodes: the first node, with what it contains, and its later siblings. */
  datatype Forest =
    | Empty
    | Element(tag: Tag, attrs: Attributes, kids: Forest, next: Forest)
    | Leaf(content: Content, next: Forest)

  /** The events of a forest in document order. */
  function Events(f: Forest): seq<Event> {
    match f
    case Empty => []
    case Element(tag, attrs, kids, next) => [Start(tag, attrs)] + Events(kids) + [End(tag)] + Events(next)
    case Leaf(content, next) => [Content(content)] + Events(next)
  }

  /** The nodes of `a`, then those of `b`. */
  function Append(a: Forest, b: Forest): (both: Forest)
    ensures Events(both) == Events(a) + Events(b)
  {
    match a
    case Empty => b
    case Element(tag, attrs, kids, next) => Element(tag, attrs, kids, Append(next, b))
    case Leaf(content, next) => Leaf(content, Append(next, b))
  }

  /** The open elements after reading a stream, or None when an end event closes the wrong element. */
  function OpenAfter(open: seq<Tag>, events: seq<Event>): Option<seq<Tag>>
    decreases |events|
  {
    if events == [] then Some(open) else
    match events[0]
    case Start(tag, _) => OpenAfter(open + [tag], events[1..])
    case End(tag) =>
      if open != [] && open[|open| - 1] == tag then OpenAfter(open[..|open| - 1], events[1..]) else None
    case Content(_) => OpenAfter(open, events[1..])
  }

  /** Every start has its end, properly nested. */
  predicate WellNested(events: seq<Event>) {
    OpenAfter([], events) == Some([])
  }

  lemma {:induction false} OpenAfterConcat(open: seq<Tag>, a: seq<Event>, b: seq<Event>)
    ensures OpenAfter(open, a + b) ==
            if OpenAfter(open, a).Some? then OpenAfter(OpenAfter(open, a).value, b) else None
    decreases |a|
  {
    if a == [] {
      assert a + b == b;
    } else {
      assert (a + b)[1..] == a[1..] + b;
      match a[0]
      case Start(tag, _) => OpenAfterConcat(open + [tag], a[1..], b);
      case End(tag) =>
        if open != [] && open[|open| - 1] == tag {
          OpenAfterConcat(open[..|open| - 1], a[1..], b);
        }
      case Content(_) => OpenAfterConcat(open, a[1..], b);
    }
  }

  /** The stream of a forest leaves the open elements as they were. */
  lemma {:induction false} EventsWellNested(f: Forest, open: seq<Tag>)
    ensures OpenAfter(open, Events(f)) == Some(open)
  {
    match f
    case Empty =>
    case Element(tag, attrs, kids, next) =>
      EventsWellNested(kids, open + [tag]);
      EventsWellNested(next, open);
      assert (open + [tag])[..|open|] == open;
      OpenAfterConcat(open, [Start(tag, attrs)] + Events(kids) + [End(tag)], Events(next));
      OpenAfterConcat(open, [Start(tag, attrs)] + Events(kids), [End(tag)]);
      OpenAfterConcat(open, [Start(tag, attrs)], Events(kids));
    case Leaf(content, next) =>
      EventsWellNested(next, open);
      OpenAfterConcat(open, [Content(content)], Events(next));
  }

  /** An element around a well-nested stream, then another well-nested stream. */
  lemma {:induction false} ElementThen(start: Event, inside: seq<Event>, after: seq<Event>)
    requires start.Start? && OpenAfter([], inside) == Some([]) && OpenAfter([], after) == Some([])
    ensures OpenAfter([], [start] + inside + [End(start.tag)] + after) == Some([])
  {
    var open := [start.tag];
    assert OpenAfter([], [start]) == Some(open) by {
      assert [] + open == open;
    }
    LiftOpen(open, [], inside);
    assert open + [] == open;
    assert OpenAfter(open, [End(start.tag)]) == Some([]);
    OpenAfterConcat([], [start], inside);
    OpenAfterConcat([], [start] + inside, [End(start.tag)]);
    OpenAfterConcat([], [start] + inside + [End(start.tag)], after);
  }

  /** An element from the start to place `i + 1`, and what follows it up to and after place `i + 2 + j`. */
  lemma ElementSlices(events: seq<Event>, i: nat, j: nat)
    requires i + 2 + j < |events|
    ensures var after := events[1..][i + 1..];
            && events[i + 2 + j] == after[j] && events[i + 2 + j + 1..] == after[j + 1..]
            && events[..i + 2 + j] == [events[0]] + events[1..][..i] + [events[1..][i]] + after[..j]
  {
    assert events[1..][i + 1..] == events[i + 2..];
  }

  /** The end event of the innermost open element, and where the stream stands before and after it. */
  lemma {:induction false} ClosingPoint(open: seq<Tag>, tag: Tag, events: seq<Event>, rest: seq<Tag>)
    returns (k: nat)
    requires rest <= open && OpenAfter(open + [tag], events) == Some(rest)
    ensures k < |events| && events[k] == End(tag)
    ensures OpenAfter([], events[..k]) == Some([])
    ensures OpenAfter(open + [tag], events) == OpenAfter(open, events[k + 1..])
    decreases |events|
  {
    assert (open + [tag])[..|open|] == open;
    if events == [] {
      assert false;
    } else {
      match events[0]
      case End(closing) =>
        k := 0;
      case Content(_) =>
        var j := ClosingPoint(open, tag, events[1..], rest);
        k := j + 1;
        assert events[..k][1..] == events[1..][..j];
        assert events[k + 1..] == events[1..][j + 1..];
      case Start(inner, _) =>
        var outer := open + [tag];
        var i := ClosingPoint(outer, inner, events[1..], rest);
        var after := events[1..][i + 1..];
        assert OpenAfter(outer, after) == Some(rest);
        var j := ClosingPoint(open, tag, after, rest);
        k := i + 1 + 1 + j;
        ElementSlices(events, i, j);
        ElementThen(events[0], events[1..][..i], after[..j]);
    }
  }

  /** More elements open below do not matter to a stream that is well nested by itself. */
  lemma {:induction false} LiftOpen(base: seq<Tag>, open: seq<Tag>, events: seq<Event>)
    requires OpenAfter(open, events).Some?
    ensures OpenAfter(base + open, events) == Some(base + OpenAfter(open, events).value)
    decreases |events|
  {
    if events != [] {
      match events[0]
      case Start(tag, _) =>
        LiftOpen(base, open + [tag], events[1..]);
        assert base + open + [tag] == base + (open + [tag]);
      case End(tag) =>
        LiftOpen(base, open[..|open| - 1], events[1..]);
        assert (base + open)[..|base + open| - 1] == base + open[..|open| - 1];
      case Content(_) =>
        LiftOpen(base, open, events[1..]);
    }
  }

  /** Every well-nested stream is the stream of a forest, so what holds of forests holds of all such streams. */
  lemma {:induction false} WellNestedHasForest(events: seq<Event>) returns (f: Forest)
    requires WellNested(events)
    ensures Events(f) == events
    decreases |events|
  {
    if events == [] {
      f := Empty;
    } else {
      match events[0]
      case Content(content) =>
        var next := WellNestedHasForest(events[1..]);
        f := Leaf(content, next);
      case Start(tag, attrs) =>
        assert [] + [tag] == [tag];
        var k := ClosingPoint([], tag, events[1..], []);
        var kids := WellNestedHasForest(events[1..][..k]);
        var next := WellNestedHasForest(events[1..][k + 1..]);
        f := Element(tag, attrs, kids, next);
        assert events == [events[0]] + events[1..][..k] + [End(tag)] + events[1..][k + 1..];
    }
  }

  /** `part` keeps some events of `whole`, in their order. */
  predicate Subsequence(part: seq<Event>, whole: seq<Event>) {
    if part == [] then true
    else if whole == [] then false
    else if part[0] == whole[0] && Subsequence(part[1..], whole[1..]) then true
    else Subsequence(part, whole[1..])
  }

  lemma {:induction false} SubsequenceSkip(part: seq<Event>, skipped: seq<Event>, whole: seq<Event>)
    requires Subsequence(part, whole)
    ensures Subsequence(part, skipped + whole)
  {
    if skipped == [] {
      assert skipped + whole == whole;
    } else {
      assert (skipped + whole)[1..] == skipped[1..] + whole;
      SubsequenceSkip(part, skipped[1..], whole);
    }
  }

  lemma {:induction false} SubsequenceConcat(p: seq<Event>, w: seq<Event>, q: seq<Event>, x: seq<Event>)
    requires Subsequence(p, w) && Subsequence(q, x)
    ensures Subsequence(p + q, w + x)
    decreases |w|
  {
    if p == [] {
      assert p + q == q;
      SubsequenceSkip(q, w, x);
    } else {
      assert (p + q)[1..] == p[1..] + q;
      assert (w + x)[1..] == w[1..] + x;
      if p[0] == w[0] && Subsequence(p[1..], w[1..]) {
        SubsequenceConcat(p[1..], w[1..], q, x);
      } else {
        SubsequenceConcat(p, w[1..], q, x);
      }
    }
  }
}
