/** The SAX filter as a state machine on values, and the proof that it prints exactly the pruned document.
  * A layer records what it would print; nothing is decided before the outermost layer closes. */
module FilterMachine {
  import opened Wrappers
  import opened Xml
  import opened Pruning

  /** A deferred action: print an event as delivered, or print a layer that has closed, if it shows. */
  datatype Action = Emit(event: Event) | AddChild(layer: Layer)

  datatype Layer = Layer(accumulator: seq<Action>, hidden: bool, selfHidden: bool, hasChildren: bool, childrenNb: int)
  {
    predicate Shows() {
      !hidden && !(hasChildren && childrenNb == 0)
    }

    function Record(action: Action): Layer {
      this.(accumulator := accumulator + [action])
    }
  }

  /** The open layers from the outermost to the innermost, the name flag, and what was printed. */
  datatype State = State(path: seq<Layer>, inName: bool, out: seq<Event>)

  const INITIAL := State([], false, [])

  /** What the downstream handler receives: white space comes out as characters. */
  function Deliver(e: Event): Event {
    if e.Content? && e.content.Whitespace? then Content(Characters(e.content.blanks)) else e
  }

  function DeliverAll(events: seq<Event>): seq<Event> {
    seq(|events|, i requires 0 <= i < |events| => Deliver(events[i]))
  }

  /** The text of an event. */
  function TextOf(e: Event): string {
    match e
    case Content(Characters(text)) => text
    case Content(Whitespace(blanks)) => blanks
    case _ => ""
  }

  /** Every event is delivered, in its place, with the same text; all but white space as it is. */
  lemma DeliversAll(events: seq<Event>)
    ensures |DeliverAll(events)| == |events|
    ensures forall k :: 0 <= k < |events| ==>
              && TextOf(DeliverAll(events)[k]) == TextOf(events[k])
              && (if events[k].Content? && events[k].content.Whitespace? then
                    DeliverAll(events)[k].Content? && DeliverAll(events)[k].content.Characters?
                  else DeliverAll(events)[k] == events[k])
  {
  }

  /** What running recorded actions prints. */
  function Printed(actions: seq<Action>): seq<Event>
    decreases actions, 0
  {
    if actions == [] then [] else PrintedBy(actions[0]) + Printed(actions[1..])
  }

  function PrintedBy(action: Action): seq<Event>
    decreases action, 1
  {
    match action
    case Emit(e) => [e]
    case AddChild(layer) => if layer.Shows() then Printed(layer.accumulator) else []
  }

  function Do(s: State, e: Event): State {
    if s.path == [] then s.(out := s.out + [Deliver(e)])
    else s.(path := s.path[|s.path| - 1 := s.path[|s.path| - 1].Record(Emit(Deliver(e)))])
  }

  function StartLayer(path: seq<Layer>): seq<Layer> {
    if path == [] then [Layer([], true, false, false, 0)]
    else
      var n := |path|;
      var parent := path[n - 1];
      path[n - 1 := parent.(hasChildren := true, childrenNb := parent.childrenNb + 1)]
      + [Layer([], true, n > 1 && parent.selfHidden, false, 0)]
  }

  /** Closes the innermost layer, whose end event is already recorded. */
  function EndLayer(s: State): State {
    var n := |s.path|;
    if n == 0 then s
    else if n == 1 then
      s.(path := [], out := s.out + if s.path[0].hidden then [] else Printed(s.path[0].accumulator))
    else s.(path := s.path[..n - 1][n - 2 := s.path[n - 2].Record(AddChild(s.path[n - 1]))])
  }

  function Unhide(path: seq<Layer>): (shown: seq<Layer>)
    ensures |shown| == |path|
  {
    seq(|path|, i requires 0 <= i < |path| => path[i].(hidden := false))
  }

  /** The name of the innermost layer is not to be shown. */
  function Reject(path: seq<Layer>): seq<Layer> {
    var n := |path|;
    if n == 0 then path
    else
      var marked := path[n - 1 := path[n - 1].(selfHidden := true)];
      if n > 1 then marked[n - 2 := path[n - 2].(childrenNb := path[n - 2].childrenNb - 1)] else marked
  }

  /** A name read inside the innermost layer. */
  function ReadName(c: Config, path: seq<Layer>, text: string): seq<Layer> {
    if path == [] || path[|path| - 1].selfHidden then path
    else if c.Keeps(text) then Unhide(path)
    else Reject(path)
  }

  function Step(c: Config, s: State, e: Event): State {
    match e
    case Start(tag, _) =>
      if c.IsLayer(tag) then Do(s.(path := StartLayer(s.path)), e)
      else if c.IsName(tag) && s.path != [] then Do(s.(inName := true), e)
      else Do(s, e)
    case End(tag) =>
      var done := Do(s, e);
      if c.IsLayer(tag) then EndLayer(done)
      else if c.IsName(tag) then done.(inName := false)
      else done
    case Content(content) =>
      if content.Characters? && s.inName && s.path != [] then
        Do(s.(path := ReadName(c, s.path, content.text)), e)
      else Do(s, e)
  }

  function Run(c: Config, s: State, events: seq<Event>): State
    decreases |events|
  {
    if events == [] then s else Run(c, Step(c, s, events[0]), events[1..])
  }

  lemma {:induction false} RunConcat(c: Config, s: State, a: seq<Event>, b: seq<Event>)
    ensures Run(c, s, a + b) == Run(c, Run(c, s, a), b)
    decreases |a|
  {
    if a == [] {
      assert a + b == b;
    } else {
      assert (a + b)[1..] == a[1..] + b;
      RunConcat(c, Step(c, s, a[0]), a[1..], b);
    }
  }

  lemma {:induction false} PrintedConcat(a: seq<Action>, b: seq<Action>)
    ensures Printed(a + b) == Printed(a) + Printed(b)
    decreases |a|
  {
    if a == [] {
      assert a + b == b;
    } else {
      assert (a + b)[1..] == a[1..] + b;
      PrintedConcat(a[1..], b);
    }
  }

  lemma DeliverConcat(a: seq<Event>, b: seq<Event>)
    ensures DeliverAll(a + b) == DeliverAll(a) + DeliverAll(b)
  {
  }

  /** The actions that reading the first node of `f` records in the layer it stands in. */
  function RecordedNode(c: Config, f: Forest, depth: nat, inName: bool, selfHidden: bool): seq<Action>
    requires !f.Empty?
    decreases f, 0
  {
    match f
    case Leaf(content, _) => [Emit(Deliver(Content(content)))]
    case Element(tag, attrs, kids, _) =>
      if c.IsLayer(tag) then
        var inherited := Inherits(depth, selfHidden);
        var s := Prune(c, kids, depth + 1, inName, inherited);
        [AddChild(Closed(tag, attrs, Recorded(c, kids, depth + 1, inName, inherited), inherited, s))]
      else
        Bracket(tag, attrs, Recorded(c, kids, depth, inName || (c.IsName(tag) && depth > 0), selfHidden))
  }

  function Recorded(c: Config, f: Forest, depth: nat, inName: bool, selfHidden: bool): seq<Action>
    decreases f, 1
  {
    if f.Empty? then []
    else
      var first := PruneNode(c, f, depth, inName, selfHidden);
      RecordedNode(c, f, depth, inName, selfHidden)
      + Recorded(c, f.next, depth, first.inName, selfHidden || first.rejected)
  }

  function Bracket(tag: Tag, attrs: Attributes, inside: seq<Action>): seq<Action> {
    [Emit(Start(tag, attrs))] + inside + [Emit(End(tag))]
  }

  /** The layer record that a layer element leaves behind, from what its content recorded and its summary. */
  function Closed(tag: Tag, attrs: Attributes, inside: seq<Action>, inherited: bool, s: Summary): Layer {
    Layer(Bracket(tag, attrs, inside), !s.kept, inherited || s.rejected, s.layers > 0, s.layers - s.rejectedLayers)
  }

  /** Running what was recorded prints the pruned forest. */
  lemma {:induction false} RecordedPrints(c: Config, f: Forest, depth: nat, inName: bool, selfHidden: bool)
    requires depth > 0
    ensures Printed(Recorded(c, f, depth, inName, selfHidden))
         == DeliverAll(Events(Prune(c, f, depth, inName, selfHidden).pruned))
    decreases f, 1
  {
    if !f.Empty? {
      var first := PruneNode(c, f, depth, inName, selfHidden);
      var after := Prune(c, f.next, depth, first.inName, selfHidden || first.rejected);
      RecordedNodePrints(c, f, depth, inName, selfHidden);
      RecordedPrints(c, f.next, depth, first.inName, selfHidden || first.rejected);
      PrintedConcat(RecordedNode(c, f, depth, inName, selfHidden),
                    Recorded(c, f.next, depth, first.inName, selfHidden || first.rejected));
      DeliverConcat(Events(first.pruned), Events(after.pruned));
    }
  }

  lemma {:induction false} RecordedNodePrints(c: Config, f: Forest, depth: nat, inName: bool, selfHidden: bool)
    requires depth > 0 && !f.Empty?
    ensures Printed(RecordedNode(c, f, depth, inName, selfHidden))
         == DeliverAll(Events(PruneNode(c, f, depth, inName, selfHidden).pruned))
    decreases f, 0
  {
    match f
    case Leaf(content, _) =>
    case Element(tag, attrs, kids, _) =>
      if c.IsLayer(tag) {
        var inherited := Inherits(depth, selfHidden);
        var s := Prune(c, kids, depth + 1, inName, inherited);
        var inside := Recorded(c, kids, depth + 1, inName, inherited);
        RecordedPrints(c, kids, depth + 1, inName, inherited);
        BracketPrints(tag, attrs, inside, s.pruned);
        assert Closed(tag, attrs, inside, inherited, s).Shows() == s.Shows();
        PrintedAlone(AddChild(Closed(tag, attrs, inside, inherited, s)));
      } else {
        var opens := inName || (c.IsName(tag) && depth > 0);
        RecordedPrints(c, kids, depth, opens, selfHidden);
        BracketPrints(tag, attrs, Recorded(c, kids, depth, opens, selfHidden),
                      Prune(c, kids, depth, opens, selfHidden).pruned);
      }
  }

  lemma PrintedAlone(action: Action)
    ensures Printed([action]) == PrintedBy(action)
  {
    assert Printed([action]) == PrintedBy(action) + [];
  }

  lemma PrintedOneMore(actions: seq<Action>, k: nat)
    requires k < |actions|
    ensures Printed(actions[..k + 1]) == Printed(actions[..k]) + PrintedBy(actions[k])
  {
    assert actions[..k + 1] == actions[..k] + [actions[k]];
    PrintedConcat(actions[..k], [actions[k]]);
    PrintedAlone(actions[k]);
  }

  lemma {:induction false} BracketPrints(tag: Tag, attrs: Attributes, inside: seq<Action>, pruned: Forest)
    requires Printed(inside) == DeliverAll(Events(pruned))
    ensures Printed(Bracket(tag, attrs, inside)) == DeliverAll(Events(Element(tag, attrs, pruned, Empty)))
  {
    PrintedConcat([Emit(Start(tag, attrs))] + inside, [Emit(End(tag))]);
    PrintedConcat([Emit(Start(tag, attrs))], inside);
  }

  /** The open layers after reading a content with this summary and these records. */
  function Absorb(path: seq<Layer>, s: Summary, actions: seq<Action>): (after: seq<Layer>)
    requires path != []
    ensures |after| == |path|
  {
    seq(|path|, i requires 0 <= i < |path| => AbsorbAt(path[i], |path| - 1 - i, s, actions))
  }

  /** The effect on the layer `up` levels above the innermost one. */
  function AbsorbAt(layer: Layer, up: nat, s: Summary, actions: seq<Action>): Layer {
    var hidden := layer.hidden && !s.kept;
    if up == 0 then
      Layer(layer.accumulator + actions, hidden, layer.selfHidden || s.rejected,
            layer.hasChildren || s.layers > 0, layer.childrenNb + s.layers - s.rejectedLayers)
    else if up == 1 && s.rejected then layer.(hidden := hidden, childrenNb := layer.childrenNb - 1)
    else layer.(hidden := hidden)
  }

  lemma AbsorbTwice(path: seq<Layer>, s: Summary, a: seq<Action>, t: Summary, b: seq<Action>)
    requires path != [] && !(s.rejected && t.rejected)
    ensures Absorb(Absorb(path, s, a), t, b) == Absorb(path, s.Then(t), a + b)
  {
    var x, y := Absorb(Absorb(path, s, a), t, b), Absorb(path, s.Then(t), a + b);
    forall i | 0 <= i < |path| ensures x[i] == y[i] {
    }
  }

  /** The machine inside a layer: reading a forest has the effect its summary says. */
  lemma {:induction false} RunInside(c: Config, f: Forest, s: State, n: nat, hidden: bool)
    requires n == |s.path| > 0 && hidden == s.path[n - 1].selfHidden
    ensures var sum := Prune(c, f, n, s.inName, hidden);
            Run(c, s, Events(f)) == State(Absorb(s.path, sum, Recorded(c, f, n, s.inName, hidden)), sum.inName, s.out)
    decreases f, 1
  {
    if f.Empty? {
      var after := Absorb(s.path, Prune(c, f, n, s.inName, hidden), []);
      forall i | 0 <= i < n ensures after[i] == s.path[i] {
        assert s.path[i].accumulator + [] == s.path[i].accumulator;
      }
    } else {
      var first := PruneNode(c, f, n, s.inName, hidden);
      var actions := RecordedNode(c, f, n, s.inName, hidden);
      RunNodeInside(c, f, s, n, hidden);
      RunConcat(c, s, NodeEvents(f), Events(f.next));
      assert Events(f) == NodeEvents(f) + Events(f.next);
      var mid := State(Absorb(s.path, first, actions), first.inName, s.out);
      RunInside(c, f.next, mid, n, hidden || first.rejected);
      AbsorbTwice(s.path, first, actions, Prune(c, f.next, n, first.inName, hidden || first.rejected),
                  Recorded(c, f.next, n, first.inName, hidden || first.rejected));
    }
  }

  /** The events of the first node alone. */
  function NodeEvents(f: Forest): seq<Event>
    requires !f.Empty?
  {
    match f
    case Leaf(content, _) => [Content(content)]
    case Element(tag, attrs, kids, _) => [Start(tag, attrs)] + Events(kids) + [End(tag)]
  }

  lemma RunLeafInside(c: Config, f: Forest, s: State, n: nat, hidden: bool)
    requires n == |s.path| > 0 && hidden == s.path[n - 1].selfHidden && f.Leaf?
    ensures var sum := PruneNode(c, f, n, s.inName, hidden);
            sum.inName == s.inName
            && Run(c, s, NodeEvents(f)) == State(Absorb(s.path, sum, [Emit(Deliver(Content(f.content)))]), s.inName, s.out)
  {
    var x := Step(c, s, Content(f.content));
    assert Run(c, s, NodeEvents(f)) == x;
    var y := Absorb(s.path, PruneNode(c, f, n, s.inName, hidden), [Emit(Deliver(Content(f.content)))]);
    forall i | 0 <= i < n ensures x.path[i] == y[i] {
    }
  }

  lemma {:induction false} RunNodeInside(c: Config, f: Forest, s: State, n: nat, hidden: bool)
    requires n == |s.path| > 0 && hidden == s.path[n - 1].selfHidden && !f.Empty?
    ensures var sum := PruneNode(c, f, n, s.inName, hidden);
            Run(c, s, NodeEvents(f))
            == State(Absorb(s.path, sum, RecordedNode(c, f, n, s.inName, hidden)), sum.inName, s.out)
    decreases f, 0
  {
    match f
    case Leaf(content, _) =>
      RunLeafInside(c, f, s, n, hidden);
    case Element(tag, attrs, kids, _) =>
      RunElement(c, s, f);
      var before := Step(c, s, Start(tag, attrs));
      if c.IsLayer(tag) {
        var inherited := Inherits(n, hidden);
        StartInside(c, s, tag, attrs);
        RunInside(c, kids, before, n + 1, inherited);
        CloseLayer(c, s, tag, attrs, Prune(c, kids, n + 1, s.inName, inherited),
                   Recorded(c, kids, n + 1, s.inName, inherited), PruneNode(c, f, n, s.inName, hidden));
      } else {
        StartInside(c, s, tag, attrs);
        RunInside(c, kids, before, n, hidden);
        CloseOther(c, s, tag, attrs, Prune(c, kids, n, before.inName, hidden),
                   Recorded(c, kids, n, before.inName, hidden), PruneNode(c, f, n, s.inName, hidden));
      }
  }

  lemma StartInside(c: Config, s: State, tag: Tag, attrs: Attributes)
    requires s.path != []
    ensures var n := |s.path|;
            var before := Step(c, s, Start(tag, attrs));
            before.out == s.out && before.inName == (s.inName || c.IsName(tag))
            && if c.IsLayer(tag) then
                 |before.path| == n + 1 && before.path[n].selfHidden == Inherits(n, s.path[n - 1].selfHidden)
               else
                 |before.path| == n && before.path[n - 1].selfHidden == s.path[n - 1].selfHidden
  {
  }

  lemma RunElement(c: Config, s: State, f: Forest)
    requires f.Element?
    ensures Run(c, s, NodeEvents(f)) == Step(c, Run(c, Step(c, s, Start(f.tag, f.attrs)), Events(f.kids)), End(f.tag))
  {
    var start, end := Start(f.tag, f.attrs), End(f.tag);
    RunConcat(c, s, [start] + Events(f.kids), [end]);
    RunConcat(c, s, [start], Events(f.kids));
    assert Run(c, s, [start]) == Step(c, s, start);
    var closing := Run(c, Step(c, s, start), Events(f.kids));
    assert Run(c, closing, [end]) == Step(c, closing, end);
  }

  lemma CloseOther(c: Config, s: State, tag: Tag, attrs: Attributes, sum: Summary, inside: seq<Action>, node: Summary)
    requires s.path != [] && !c.IsLayer(tag)
    requires node == sum.(inName := sum.inName && !c.IsName(tag), pruned := node.pruned)
    ensures var before := Step(c, s, Start(tag, attrs));
            Step(c, State(Absorb(before.path, sum, inside), sum.inName, s.out), End(tag))
            == State(Absorb(s.path, node, Bracket(tag, attrs, inside)), node.inName, s.out)
  {
    var before := Step(c, s, Start(tag, attrs));
    var x := Do(State(Absorb(before.path, sum, inside), sum.inName, s.out), End(tag)).path;
    var y := Absorb(s.path, node, Bracket(tag, attrs, inside));
    forall i | 0 <= i < |s.path| ensures x[i] == y[i] {
      if i == |s.path| - 1 {
        var acc := s.path[i].accumulator;
        assert acc + [Emit(Start(tag, attrs))] + inside + [Emit(End(tag))] == acc + Bracket(tag, attrs, inside);
      }
    }
  }

  lemma CloseLayer(c: Config, s: State, tag: Tag, attrs: Attributes, sum: Summary, inside: seq<Action>, node: Summary)
    requires s.path != [] && c.IsLayer(tag)
    requires node == Summary(sum.inName, false, sum.kept, 1, if sum.rejected then 1 else 0, node.pruned)
    ensures var n := |s.path|;
            var inherited := Inherits(n, s.path[n - 1].selfHidden);
            var before := Step(c, s, Start(tag, attrs));
            Step(c, State(Absorb(before.path, sum, inside), sum.inName, s.out), End(tag))
            == State(Absorb(s.path, node, [AddChild(Closed(tag, attrs, inside, inherited, sum))]), node.inName, s.out)
  {
    var n := |s.path|;
    var inherited := Inherits(n, s.path[n - 1].selfHidden);
    var layer := Closed(tag, attrs, inside, inherited, sum);
    var inner := Layer([Emit(Start(tag, attrs))], true, inherited, false, 0);
    StartedLayer(c, s, tag, attrs);
    var absorbed := Absorb(StartLayer(s.path)[n := inner], sum, inside);
    var closing := State(absorbed, sum.inName, s.out);
    EndedLayer(s.path, inner, sum, inside, layer, node);
    EndStep(c, closing, tag, layer);
  }

  lemma EndStep(c: Config, s: State, tag: Tag, layer: Layer)
    requires |s.path| > 1 && c.IsLayer(tag) && layer == s.path[|s.path| - 1].Record(Emit(End(tag)))
    ensures var n := |s.path| - 1;
            Step(c, s, End(tag)) == s.(path := s.path[..n][n - 1 := s.path[n - 1].Record(AddChild(layer))])
  {
    var n := |s.path| - 1;
    assert s.path[n := layer][..n] == s.path[..n];
  }

  lemma StartedLayer(c: Config, s: State, tag: Tag, attrs: Attributes)
    requires s.path != [] && c.IsLayer(tag)
    ensures var n := |s.path|;
            Step(c, s, Start(tag, attrs)).path
            == StartLayer(s.path)[n := Layer([Emit(Start(tag, attrs))], true, Inherits(n, s.path[n - 1].selfHidden), false, 0)]
  {
    assert [] + [Emit(Start(tag, attrs))] == [Emit(Start(tag, attrs))];
  }

  lemma EndedLayer(path: seq<Layer>, inner: Layer, sum: Summary, inside: seq<Action>, layer: Layer, node: Summary)
    requires path != []
    requires node == Summary(sum.inName, false, sum.kept, 1, if sum.rejected then 1 else 0, node.pruned)
    ensures var n := |path|;
            var absorbed := Absorb(StartLayer(path)[n := inner], sum, inside);
            absorbed[..n][n - 1 := absorbed[n - 1].Record(AddChild(layer))] == Absorb(path, node, [AddChild(layer)])
  {
    var n := |path|;
    var absorbed := Absorb(StartLayer(path)[n := inner], sum, inside);
    var x := absorbed[..n][n - 1 := absorbed[n - 1].Record(AddChild(layer))];
    var y := Absorb(path, node, [AddChild(layer)]);
    forall i | 0 <= i < n ensures x[i] == y[i] {
    }
  }

  /** The machine outside all layers prints at once what it reads, pruned. */
  lemma {:induction false} RunOutside(c: Config, f: Forest, s: State)
    requires s.path == [] && !s.inName
    ensures !Prune(c, f, 0, false, false).inName
    ensures Run(c, s, Events(f)) == State([], false, s.out + DeliverAll(Events(Prune(c, f, 0, false, false).pruned)))
    decreases f, 1
  {
    if f.Empty? {
      assert s.out + DeliverAll([]) == s.out;
    } else {
      var first := PruneNode(c, f, 0, false, false);
      RunNodeOutside(c, f, s);
      RunOutside(c, f.next, State([], false, s.out + DeliverAll(Events(first.pruned))));
      NextOutside(c, f, s, first.pruned, Prune(c, f.next, 0, false, false).pruned);
    }
  }

  lemma NextOutside(c: Config, f: Forest, s: State, a: Forest, b: Forest)
    requires !f.Empty?
    requires Run(c, s, NodeEvents(f)) == State([], false, s.out + DeliverAll(Events(a)))
    requires Run(c, Run(c, s, NodeEvents(f)), Events(f.next))
          == State([], false, s.out + DeliverAll(Events(a)) + DeliverAll(Events(b)))
    ensures Run(c, s, Events(f)) == State([], false, s.out + DeliverAll(Events(Append(a, b))))
  {
    assert Events(f) == NodeEvents(f) + Events(f.next);
    RunConcat(c, s, NodeEvents(f), Events(f.next));
    JoinOutside(s.out, Events(a), Events(b));
  }

  lemma JoinOutside(out: seq<Event>, a: seq<Event>, b: seq<Event>)
    ensures out + DeliverAll(a) + DeliverAll(b) == out + DeliverAll(a + b)
  {
    DeliverConcat(a, b);
    assert out + DeliverAll(a) + DeliverAll(b) == out + (DeliverAll(a) + DeliverAll(b));
  }

  lemma {:induction false} RunNodeOutside(c: Config, f: Forest, s: State)
    requires s.path == [] && !s.inName && !f.Empty?
    ensures !PruneNode(c, f, 0, false, false).inName
    ensures Run(c, s, NodeEvents(f))
         == State([], false, s.out + DeliverAll(Events(PruneNode(c, f, 0, false, false).pruned)))
    decreases f, 0
  {
    match f
    case Leaf(content, _) =>
      assert Run(c, s, NodeEvents(f)) == Step(c, s, Content(content));
    case Element(tag, attrs, kids, _) =>
      var before := Step(c, s, Start(tag, attrs));
      RunElement(c, s, f);
      if c.IsLayer(tag) {
        var sum, inside := Prune(c, kids, 1, false, false), Recorded(c, kids, 1, false, false);
        RunInside(c, kids, before, 1, false);
        InNameRestored(c, kids, 1, false);
        RecordedPrints(c, kids, 1, false, false);
        CloseOutermost(c, s, tag, attrs, sum, inside);
      } else {
        RunOutside(c, kids, before);
        CloseOtherOutside(c, s, tag, attrs, Prune(c, kids, 0, false, false).pruned);
      }
  }

  lemma CloseOtherOutside(c: Config, s: State, tag: Tag, attrs: Attributes, pruned: Forest)
    requires s.path == [] && !s.inName && !c.IsLayer(tag)
    ensures var before := Step(c, s, Start(tag, attrs));
            before.path == [] && !before.inName
            && Step(c, before.(out := before.out + DeliverAll(Events(pruned))), End(tag))
            == s.(out := s.out + DeliverAll(Events(Element(tag, attrs, pruned, Empty))))
  {
    var inside := DeliverAll(Events(pruned));
    DeliverConcat([Start(tag, attrs)] + Events(pruned), [End(tag)]);
    DeliverConcat([Start(tag, attrs)], Events(pruned));
    assert s.out + [Start(tag, attrs)] + inside + [End(tag)] == s.out + ([Start(tag, attrs)] + inside + [End(tag)]);
    assert Events(Element(tag, attrs, pruned, Empty)) == [Start(tag, attrs)] + Events(pruned) + [End(tag)];
  }

  lemma CloseOutermost(c: Config, s: State, tag: Tag, attrs: Attributes, sum: Summary, inside: seq<Action>)
    requires s.path == [] && c.IsLayer(tag) && Printed(inside) == DeliverAll(Events(sum.pruned))
    ensures var before := Step(c, s, Start(tag, attrs));
            var printed := DeliverAll(Events(Element(tag, attrs, sum.pruned, Empty)));
            Step(c, State(Absorb(before.path, sum, inside), sum.inName, s.out), End(tag))
            == State([], sum.inName, s.out + if sum.kept then printed else [])
  {
    var before := Step(c, s, Start(tag, attrs));
    var done := Do(State(Absorb(before.path, sum, inside), sum.inName, s.out), End(tag));
    assert done.path[0].accumulator == Bracket(tag, attrs, inside) by {
      assert [] + [Emit(Start(tag, attrs))] + inside + [Emit(End(tag))] == Bracket(tag, attrs, inside);
    }
    BracketPrints(tag, attrs, inside, sum.pruned);
  }

  /** Outside a Name before a content, outside after it. */
  lemma {:induction false} InNameRestored(c: Config, f: Forest, depth: nat, selfHidden: bool)
    ensures !Prune(c, f, depth, false, selfHidden).inName
    decreases f
  {
    if !f.Empty? {
      if f.Element? && c.IsLayer(f.tag) {
        InNameRestored(c, f.kids, depth + 1, Inherits(depth, selfHidden));
      } else if f.Element? && !c.IsName(f.tag) {
        InNameRestored(c, f.kids, depth, selfHidden);
      }
      var first := PruneNode(c, f, depth, false, selfHidden);
      InNameRestored(c, f.next, depth, selfHidden || first.rejected);
    }
  }

  /** The main result: on the stream of any document the machine prints the pruned document and ends as it began. */
  lemma FilterPrintsPruned(c: Config, document: Forest)
    ensures Run(c, INITIAL, Events(document)) == State([], false, DeliverAll(Events(Pruned(c, document))))
  {
    RunOutside(c, document, INITIAL);
    var printed := DeliverAll(Events(Pruned(c, document)));
    assert INITIAL.out + printed == printed;
  }

  lemma RunOne(c: Config, s: State, events: seq<Event>, k: nat)
    requires k < |events|
    ensures Run(c, s, events[..k + 1]) == Step(c, Run(c, s, events[..k]), events[k])
  {
    assert events[..k + 1] == events[..k] + [events[k]];
    RunConcat(c, s, events[..k], [events[k]]);
    var before := Run(c, s, events[..k]);
    assert Run(c, before, [events[k]]) == Step(c, before, events[k]);
  }

  /** How many layers are among the open elements. */
  function LayersIn(c: Config, open: seq<Tag>): nat {
    if open == [] then 0 else LayersIn(c, open[..|open| - 1]) + if c.IsLayer(open[|open| - 1]) then 1 else 0
  }

  /** As many layers are open in the machine as in the stream it has read. */
  lemma {:induction false} OpenLayers(c: Config, events: seq<Event>, k: nat)
    requires k <= |events| && OpenAfter([], events).Some?
    ensures OpenAfter([], events[..k]).Some?
    ensures |Run(c, INITIAL, events[..k]).path| == LayersIn(c, OpenAfter([], events[..k]).value)
  {
    if k > 0 {
      OpenLayers(c, events, k - 1);
      RunOne(c, INITIAL, events, k - 1);
      var open := OpenAfter([], events[..k - 1]).value;
      assert events == events[..k] + events[k..];
      OpenAfterConcat([], events[..k], events[k..]);
      assert events[..k] == events[..k - 1] + [events[k - 1]];
      OpenAfterConcat([], events[..k - 1], [events[k - 1]]);
      LayersInStep(c, Run(c, INITIAL, events[..k - 1]), open, events[k - 1]);
    }
  }

  lemma LayersInStep(c: Config, s: State, open: seq<Tag>, e: Event)
    requires |s.path| == LayersIn(c, open) && OpenAfter(open, [e]).Some?
    ensures |Step(c, s, e).path| == LayersIn(c, OpenAfter(open, [e]).value)
  {
    match e
    case Start(tag, _) =>
      assert (open + [tag])[..|open|] == open;
      assert OpenAfter(open, [e]) == Some(open + [tag]);
    case End(tag) =>
      assert OpenAfter(open, [e]) == Some(open[..|open| - 1]);
    case Content(_) =>
      assert OpenAfter(open, [e]) == Some(open);
  }

  /** In a well-nested stream the end of a layer comes while a layer is open, the last end of another element
    * when none is. */
  lemma OpenLayersOfPrefix(c: Config, events: seq<Event>, k: nat)
    requires k < |events| && WellNested(events)
    ensures events[k].End? && c.IsLayer(events[k].closing) ==> Run(c, INITIAL, events[..k]).path != []
    ensures k == |events| - 1 && events[k].End? && !c.IsLayer(events[k].closing) ==>
              Run(c, INITIAL, events[..k]).path == []
  {
    OpenLayers(c, events, k);
    OpenLayers(c, events, k + 1);
    assert events[..k + 1] == events[..k] + [events[k]];
    OpenAfterConcat([], events[..k], [events[k]]);
    if k == |events| - 1 {
      assert events[..k + 1] == events;
    }
  }
}
