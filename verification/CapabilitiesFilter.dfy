/** The SAX filter of GetCapabilities answers as the program runs it: open layers are objects that are updated in
  * place, and what they print is recorded as deferred actions that refer to those objects. Every handler is proved
  * to do what FilterMachine.Step does on values. */
module CapabilitiesFilter {
  import opened Wrappers
  import opened Xml
  import opened Pruning
  import M = FilterMachine

  /** A deferred action: send an event downstream, add a text to the current text node, or print a child layer. */
  datatype Action = Emit(event: Event) | AppendText(text: string) | AddChild(layer: LayerRecord)

  ghost predicate SameAction(a: Action, v: M.Action) {
    match a
    case Emit(e) => v == M.Emit(e)
    case AppendText(text) => v == M.Emit(Content(Characters(text)))
    case AddChild(_) => v.AddChild?
  }

  class LayerRecord {
    var accumulator: seq<Action>
    var hidden: bool
    var selfHidden: bool
    var hasChildren: bool
    var childrenNb: int
    /** This layer and all the layers recorded inside it. */
    ghost var Repr: set<LayerRecord>

    constructor (selfHidden: bool)
      ensures accumulator == [] && hidden && this.selfHidden == selfHidden && !hasChildren && childrenNb == 0
      ensures Repr == {this}
    {
      this.accumulator := [];
      this.hidden := true;
      this.selfHidden := selfHidden;
      this.hasChildren := false;
      this.childrenNb := 0;
      this.Repr := {this};
    }

    ghost predicate SameFlags(v: M.Layer)
      reads this
    {
      hidden == v.hidden && selfHidden == v.selfHidden && hasChildren == v.hasChildren && childrenNb == v.childrenNb
    }

    /** `actions`, with the layers they refer to, are what `recorded` says; no layer is referred to twice. */
    ghost predicate Holds(actions: seq<Action>, recorded: seq<M.Action>)
      reads this, Repr
      decreases recorded, 0
    {
      && this in Repr
      && |actions| == |recorded|
      && (forall k :: 0 <= k < |actions| ==> SameAction(actions[k], recorded[k]))
      && (forall k :: 0 <= k < |actions| && actions[k].AddChild? ==>
            var child := actions[k].layer;
            child in Repr && child in child.Repr && child.Repr <= Repr - {this} && child.Recorded(recorded[k]))
      && (forall j, k :: 0 <= j < k < |actions| && actions[j].AddChild? && actions[k].AddChild? ==>
            actions[j].layer.Repr !! actions[k].layer.Repr)
    }

    /** Once a layer recorded last has closed, its parent holds it too. */
    lemma HoldsChild(actions: seq<Action>, recorded: seq<M.Action>, child: LayerRecord, v: M.Layer)
      requires Holds(actions, recorded) && child.Is(v) && child in Repr && child.Repr <= Repr - {this}
      requires forall k :: 0 <= k < |actions| && actions[k].AddChild? ==> actions[k].layer.Repr !! child.Repr
      ensures Holds(actions + [AddChild(child)], recorded + [M.AddChild(v)])
    {
    }

    lemma HoldsMore(actions: seq<Action>, recorded: seq<M.Action>, action: Action, e: Event)
      requires Holds(actions, recorded) && SameAction(action, M.Emit(e)) && !action.AddChild?
      ensures Holds(actions + [action], recorded + [M.Emit(e)])
    {
    }

    /** A layer holds what it held while the layers inside it do not change. */
    twostate lemma HoldsKept()
      requires old(Repr) <= Repr
      requires forall inner :: inner in old(Repr) && inner != this ==> unchanged(inner)
      ensures forall actions: seq<Action>, recorded: seq<M.Action> ::
                old(allocated(actions)) && old(Holds(actions, recorded)) ==> Holds(actions, recorded)
    {
    }

    /** This layer is the one that `action` adds. */
    ghost predicate Recorded(action: M.Action)
      reads this, Repr
      decreases action, 2
    {
      match action
      case Emit(_) => false
      case AddChild(v) => Is(v)
    }

    /** This closed layer is the value `v`. */
    ghost predicate Is(v: M.Layer)
      reads this, Repr
      decreases v, 1
    {
      SameFlags(v) && Holds(accumulator, v.accumulator)
    }
  }

  function Concat(texts: seq<string>): string {
    if texts == [] then "" else texts[0] + Concat(texts[1..])
  }

  class CapabilitiesFilter {
    const config: Config
    /** What the downstream handler received. */
    var downstream: seq<Event>
    /** The pieces of the current text node. */
    var accumulator: seq<string>
    var layersPath: seq<LayerRecord>
    var inName: bool
    var level: int
    /** The state of the machine this object stands for. */
    ghost var state: M.State
    /** The open layers and the layers recorded inside them. */
    ghost var Repr: set<LayerRecord>

    /** What was sent downstream, completed with the text not sent yet. */
    ghost function Sent(): seq<Event>
      reads this
    {
      if accumulator == [] then downstream else downstream + [Content(Characters(Concat(accumulator)))]
    }

    /** The recorded actions of an open layer, without the last one when it adds the open layer inside. */
    ghost function Finished(i: nat): seq<Action>
      requires i < |layersPath| && (i < |layersPath| - 1 ==> layersPath[i].accumulator != [])
      reads this, layersPath
    {
      var actions := layersPath[i].accumulator;
      if i < |layersPath| - 1 then actions[..|actions| - 1] else actions
    }

    ghost predicate OpenLayer(i: nat)
      requires i < |layersPath| == |state.path|
      reads this, layersPath, layersPath[i].Repr
    {
      var layer := layersPath[i];
      && layer.Repr <= Repr
      && layer.SameFlags(state.path[i])
      && (i < |layersPath| - 1 ==>
            |layer.accumulator| > 0 && layer.accumulator[|layer.accumulator| - 1] == AddChild(layersPath[i + 1]))
      && layer.Holds(Finished(i), state.path[i].accumulator)
    }

    ghost predicate Valid()
      reads this, Repr, layersPath, set i, o | 0 <= i < |layersPath| && o in layersPath[i].Repr :: o
    {
      && |layersPath| == |state.path| == level
      && |accumulator| <= 1
      && inName == state.inName
      && Sent() == state.out
      && (forall i :: 0 <= i < |layersPath| ==> OpenLayer(i))
      && (forall i, j :: 0 <= i < j < |layersPath| ==> layersPath[i].Repr !! layersPath[j].Repr)
    }

    constructor (config: Config)
      ensures Valid() && this.config == config && state == M.INITIAL && Repr == {}
    {
      this.config := config;
      downstream, accumulator, layersPath, inName, level := [], [], [], false, 0;
      state, Repr := M.INITIAL, {};
    }

    method CompleteTextNode()
      modifies this`downstream, this`accumulator
      ensures accumulator == [] && Sent() == old(Sent())
    {
      if accumulator != [] {
        downstream := downstream + [Content(Characters(Concat(accumulator)))];
        accumulator := [];
      }
    }

    /** Runs an action, after the current text node. */
    method Perform(action: Action, ghost recorded: M.Action)
      requires accumulator == [] && SameAction(action, recorded)
      requires action.AddChild? ==> action.layer.Recorded(recorded)
      modifies this`downstream, this`accumulator
      modifies (if action.AddChild? then action.layer.Repr else {})`accumulator
      ensures |accumulator| <= 1 && Sent() == old(Sent()) + M.PrintedBy(recorded)
      ensures action.Emit? ==> accumulator == []
      decreases recorded, 1
    {
      match action
      case Emit(e) =>
        downstream := downstream + [e];
      case AppendText(text) =>
        accumulator := accumulator + [text];
        assert accumulator == [text] && Concat([text]) == text + "" == text;
      case AddChild(layer) =>
        PrintChild(layer, recorded.layer);
    }

    /** An action not run yet; a layer that it adds is as recorded. */
    ghost predicate Waits(action: Action, recorded: M.Action)
      reads if action.AddChild? then {action.layer} + action.layer.Repr else {}
    {
      SameAction(action, recorded)
      && (action.AddChild? ==> action.layer in action.layer.Repr && action.layer.Recorded(recorded))
    }

    /** The actions from the place `k` wait; the layers they add are `inside` and have nothing in common. */
    ghost predicate AllWait(actions: seq<Action>, recorded: seq<M.Action>, k: nat, inside: set<LayerRecord>)
      requires |actions| == |recorded|
      reads set i | 0 <= i < |actions| && actions[i].AddChild? :: actions[i].layer
      reads set i, o | 0 <= i < |actions| && actions[i].AddChild? && o in {actions[i].layer} + actions[i].layer.Repr :: o
    {
      && (forall i :: k <= i < |actions| ==> Waits(actions[i], recorded[i]))
      && (forall i :: k <= i < |actions| && actions[i].AddChild? ==> actions[i].layer.Repr <= inside)
      && (forall i, j :: k <= i < j < |actions| && actions[i].AddChild? && actions[j].AddChild? ==>
            actions[i].layer.Repr !! actions[j].layer.Repr)
    }

    /** One action, after the current text node; the others still wait. */
    method PerformNext(actions: seq<Action>, ghost recorded: seq<M.Action>, k: nat, ghost inside: set<LayerRecord>)
      requires |accumulator| <= 1 && k < |actions| == |recorded| && AllWait(actions, recorded, k, inside)
      modifies this`downstream, this`accumulator
      modifies (if actions[k].AddChild? then actions[k].layer.Repr else {})`accumulator
      ensures |accumulator| <= 1 && Sent() == old(Sent()) + M.PrintedBy(recorded[k])
      ensures AllWait(actions, recorded, k + 1, inside)
      decreases recorded, 2
    {
      CompleteTextNode();
      assert Waits(actions[k], recorded[k]);
      label before:
      Perform(actions[k], recorded[k]);
      forall i | k < i < |actions| ensures Waits(actions[i], recorded[i]) {
        assert old@before(Waits(actions[i], recorded[i]));
        assert actions[i].AddChild? ==> forall o :: o in actions[i].layer.Repr ==> unchanged@before(o);
      }
    }

    /** Runs waiting actions in their order. */
    method PerformEach(actions: seq<Action>, ghost recorded: seq<M.Action>, ghost inside: set<LayerRecord>)
      requires |accumulator| <= 1 && |actions| == |recorded| && AllWait(actions, recorded, 0, inside)
      modifies this`downstream, this`accumulator, inside`accumulator
      ensures |accumulator| <= 1 && Sent() == old(Sent()) + M.Printed(recorded)
      decreases recorded, 3
    {
      var k := 0;
      ghost var printed: seq<Event> := [];
      while k < |actions|
        invariant 0 <= k <= |actions| && |accumulator| <= 1
        invariant printed == M.Printed(recorded[..k]) && Sent() == old(Sent()) + printed
        invariant AllWait(actions, recorded, k, inside)
      {
        M.PrintedOneMore(recorded, k);
        PerformNext(actions, recorded, k, inside);
        printed := printed + M.PrintedBy(recorded[k]);
        k := k + 1;
      }
      assert recorded[..k] == recorded;
    }

    /** Runs the actions that a layer recorded. */
    method PerformAll(owner: LayerRecord, ghost recorded: seq<M.Action>)
      requires |accumulator| <= 1 && owner.Holds(owner.accumulator, recorded)
      modifies this`downstream, this`accumulator, (owner.Repr - {owner})`accumulator
      ensures |accumulator| <= 1 && Sent() == old(Sent()) + M.Printed(recorded)
      decreases recorded, 4
    {
      PerformEach(owner.accumulator, recorded, owner.Repr - {owner});
    }

    /** Prints a closed layer if it shows, and forgets what it recorded. */
    method PrintChild(layer: LayerRecord, ghost v: M.Layer)
      requires |accumulator| <= 1 && layer.Is(v)
      modifies this`downstream, this`accumulator, layer.Repr`accumulator
      ensures |accumulator| <= 1
      ensures Sent() == old(Sent()) + if v.Shows() then M.Printed(v.accumulator) else []
      ensures v.Shows() ==> layer.accumulator == []
      ensures !v.Shows() ==> layer.accumulator == old(layer.accumulator)
      decreases v, 5
    {
      if !layer.hidden && !(layer.hasChildren && layer.childrenNb == 0) {
        PerformAll(layer, v.accumulator);
        layer.accumulator := [];
      }
    }

    /** An open layer, not the innermost, stays what it was while nothing inside it but the open layers changes. */
    twostate lemma LowerKept(i: nat)
      requires i + 1 < |old(layersPath)| && i + 1 < |layersPath| == |state.path|
      requires layersPath[i] == old(layersPath)[i] && layersPath[i + 1] == old(layersPath)[i + 1]
      requires i < |old(state).path| && state.path[i] == old(state).path[i] && old(Repr) <= Repr
      requires forall inner :: inner in old(layersPath[i].Repr) ==> unchanged(inner)
      ensures old(Valid()) ==> OpenLayer(i)
    {
      if old(Valid()) {
        assert old(OpenLayer(i));
      }
    }

    /** Records an action in the innermost open layer. */
    method Record(action: Action, ghost e: Event)
      requires Valid() && layersPath != [] && !action.AddChild? && SameAction(action, M.Emit(M.Deliver(e)))
      modifies this`state, {layersPath[|layersPath| - 1]}`accumulator
      ensures Valid() && state == M.Do(old(state), e)
    {
      ghost var n := |layersPath|;
      var top := layersPath[|layersPath| - 1];
      assert OpenLayer(n - 1) && Finished(n - 1) == top.accumulator;
      top.accumulator := top.accumulator + [action];
      state := M.Do(state, e);
      top.HoldsKept();
      top.HoldsMore(old(top.accumulator), old(state).path[n - 1].accumulator, action, M.Deliver(e));
      assert OpenLayer(n - 1);
      forall i | 0 <= i < n - 1 ensures OpenLayer(i) {
        assert old(OpenLayer(i)) && old(layersPath[i].Repr) !! top.Repr;
        LowerKept(i);
      }
    }

    /** Records an action in the innermost open layer, or runs it when no layer is open. */
    method Do(action: Action, ghost e: Event)
      requires Valid() && !action.AddChild? && SameAction(action, M.Emit(M.Deliver(e)))
      modifies this`downstream, this`accumulator, this`state, Repr
      ensures Valid() && state == M.Do(old(state), e)
      ensures layersPath == [] && action.Emit? ==> accumulator == []
    {
      if layersPath != [] {
        assert OpenLayer(|layersPath| - 1);
        Record(action, e);
      } else {
        CompleteTextNode();
        Perform(action, M.Emit(M.Deliver(e)));
        state := M.Do(state, e);
      }
    }

    /** Opens a layer inside the innermost open one, or the outermost layer. */
    method OpenNewLayer()
      requires Valid()
      modifies this`layersPath, this`level, this`state, this`Repr, layersPath
      ensures Valid() && state == old(state).(path := M.StartLayer(old(state).path)) && layersPath != []
      ensures fresh(Repr - old(Repr))
    {
      if layersPath != [] {
        OpenInnerLayer();
      } else {
        level := level + 1;
        var layer := new LayerRecord(false);
        layersPath := [layer];
        state := state.(path := M.StartLayer(state.path));
        Repr := Repr + {layer};
      }
    }

    method OpenInnerLayer()
      requires Valid() && layersPath != []
      modifies this`layersPath, this`level, this`state, this`Repr, layersPath
      ensures Valid() && state == old(state).(path := M.StartLayer(old(state).path)) && layersPath != []
      ensures fresh(Repr - old(Repr))
    {
      assert OpenLayer(|layersPath| - 1);
      level := level + 1;
      var parent := layersPath[|layersPath| - 1];
      parent.hasChildren := true;
      parent.childrenNb := parent.childrenNb + 1;
      var layer := new LayerRecord(if |layersPath| > 1 then parent.selfHidden else false);
      layersPath := layersPath + [layer];
      parent.accumulator := parent.accumulator + [AddChild(layer)];
      state := state.(path := M.StartLayer(state.path));
      Repr := Repr + {layer};
      InnerOpened(layer);
    }

    /** A new layer was opened inside the innermost one, its parent, which counts it and will print it. */
    twostate predicate JustOpened(new layer: LayerRecord)
      reads this, layer, Repr
    {
      var n := |old(layersPath)|;
      && n > 0 && layersPath == old(layersPath) + [layer]
      && old(layersPath)[n - 1] in old(Repr)
      && Repr == old(Repr) + {layer} && level == old(level) + 1 && Sent() == old(Sent())
      && |accumulator| == old(|accumulator|) && inName == old(inName)
      && state == old(state).(path := M.StartLayer(old(state).path))
      && fresh(layer) && layer.Repr == {layer} && layer.accumulator == [] && layer.hidden
      && !layer.hasChildren && layer.childrenNb == 0
      && ParentCounts(old(layersPath)[n - 1], layer, n > 1)
      && forall other :: other in old(Repr) && other != old(layersPath)[n - 1] ==> unchanged(other)
    }

    twostate predicate ParentCounts(parent: LayerRecord, new layer: LayerRecord, inherits: bool)
      reads parent, layer
    {
      && layer.selfHidden == (inherits && old(parent.selfHidden))
      && parent.accumulator == old(parent.accumulator) + [AddChild(layer)] && parent.Repr == old(parent.Repr)
      && parent.hidden == old(parent.hidden) && parent.selfHidden == old(parent.selfHidden)
      && parent.hasChildren && parent.childrenNb == old(parent.childrenNb) + 1
    }

    twostate lemma OpenedApart(new layer: LayerRecord)
      requires JustOpened(layer)
      ensures old(Valid()) ==> forall i, j :: 0 <= i < j < |layersPath| ==> layersPath[i].Repr !! layersPath[j].Repr
    {
      if old(Valid()) {
        ghost var n := |old(layersPath)|;
        assert old(OpenLayer(n - 1));
        LowersKept(n - 1);
        forall i | 0 <= i < n ensures layersPath[i].Repr == old(layersPath[i].Repr) && layer !in layersPath[i].Repr {
          assert old(OpenLayer(i));
        }
      }
    }

    twostate lemma OpenedParent(new layer: LayerRecord)
      requires JustOpened(layer)
      ensures old(Valid()) ==> |layersPath| == |state.path| && OpenLayer(|layersPath| - 2)
    {
      if old(Valid()) {
        ghost var n := |old(layersPath)|;
        assert old(OpenLayer(n - 1)) && old(Finished(n - 1)) == old(layersPath[n - 1].accumulator);
        layersPath[n - 1].HoldsKept();
        assert Finished(n - 1) == old(Finished(n - 1));
      }
    }

    twostate lemma OpenedInner(new layer: LayerRecord)
      requires JustOpened(layer)
      ensures old(Valid()) ==> |layersPath| == |state.path| && OpenLayer(|layersPath| - 1)
    {
      if old(Valid()) {
        ghost var n := |old(layersPath)|;
        assert old(OpenLayer(n - 1));
        assert layer.SameFlags(state.path[n]);
      }
    }

    twostate lemma OpenedLowers(new layer: LayerRecord)
      requires JustOpened(layer)
      ensures old(Valid()) ==> |layersPath| == |state.path| && forall i :: 0 <= i < |layersPath| - 2 ==> OpenLayer(i)
    {
      if old(Valid()) {
        ghost var n := |old(layersPath)|;
        assert old(OpenLayer(n - 1));
        LowersKept(n - 1);
      }
    }

    twostate lemma InnerOpened(new layer: LayerRecord)
      requires JustOpened(layer)
      ensures old(Valid()) ==> Valid()
    {
      OpenedParent(layer);
      OpenedInner(layer);
      OpenedLowers(layer);
      OpenedApart(layer);
    }

    /** The same for all the open layers below the one at `n`. */
    twostate lemma LowersKept(n: nat)
      requires n < |old(layersPath)| && n < |layersPath| == |state.path| && n < |old(state).path|
      requires forall i :: 0 <= i <= n ==> layersPath[i] == old(layersPath)[i]
      requires forall i :: 0 <= i < n ==> state.path[i] == old(state).path[i]
      requires old(Repr) <= Repr
      requires forall inner :: inner in old(Repr) && inner !in old(layersPath[n].Repr) ==> unchanged(inner)
      ensures old(Valid()) ==> forall i :: 0 <= i < n ==> OpenLayer(i) && layersPath[i].Repr == old(layersPath[i].Repr)
    {
      if old(Valid()) {
        forall i | 0 <= i < n ensures OpenLayer(i) && layersPath[i].Repr == old(layersPath[i].Repr) {
          assert old(OpenLayer(i)) && old(layersPath[i].Repr) !! old(layersPath[n].Repr);
          LowerKept(i);
        }
      }
    }

    /** A change of flags of open layers alone. */
    twostate lemma FlagsChanged()
      requires layersPath == old(layersPath) && Repr == old(Repr) && |state.path| == |layersPath|
      requires level == old(level) && inName == old(inName) && state.inName == old(state).inName
      requires Sent() == old(Sent()) && |accumulator| == old(|accumulator|) && state.out == old(state).out
      requires |old(state).path| == |layersPath|
      requires forall i :: 0 <= i < |layersPath| ==>
                 var layer := layersPath[i];
                 && layer.accumulator == old(layer.accumulator) && layer.Repr == old(layer.Repr)
                 && layer.SameFlags(state.path[i]) && state.path[i].accumulator == old(state).path[i].accumulator
      requires forall other :: other in Repr && other !in layersPath ==> unchanged(other)
      ensures old(Valid()) ==> Valid()
    {
      if old(Valid()) {
        forall i | 0 <= i < |layersPath| ensures OpenLayer(i) {
          assert old(OpenLayer(i));
          forall inner | inner in layersPath[i].Repr && inner != layersPath[i] ensures unchanged(inner) {
            forall j | 0 <= j < |layersPath| ensures inner != layersPath[j] {
              assert old(OpenLayer(j));
              assert i < j ==> old(layersPath[i].Repr !! layersPath[j].Repr);
              assert j < i ==> old(layersPath[j].Repr !! layersPath[i].Repr);
            }
          }
          layersPath[i].HoldsKept();
        }
      }
    }

    lemma OpenLayersDiffer()
      requires Valid()
      ensures forall i :: 0 <= i < |layersPath| ==> layersPath[i].SameFlags(state.path[i])
      ensures forall i, j :: 0 <= i < j < |layersPath| ==> layersPath[i] != layersPath[j]
    {
      forall i, j | 0 <= i < j < |layersPath| ensures layersPath[i] != layersPath[j] {
        assert OpenLayer(i) && OpenLayer(j);
      }
      forall i | 0 <= i < |layersPath| ensures layersPath[i].SameFlags(state.path[i]) {
        assert OpenLayer(i);
      }
    }

    /** A text inside a Name of the innermost layer. */
    method ReadName(text: string)
      requires Valid() && layersPath != []
      modifies this`state, layersPath
      ensures Valid() && state == old(state).(path := M.ReadName(config, old(state).path, text))
    {
      assert OpenLayer(|layersPath| - 1);
      if !layersPath[|layersPath| - 1].selfHidden {
        if config.Keeps(text) {
          Unhide();
        } else {
          Reject();
        }
      }
    }

    method Unhide()
      requires Valid() && layersPath != []
      modifies this`state, layersPath
      ensures Valid() && state == old(state).(path := M.Unhide(old(state).path))
    {
      OpenLayersDiffer();
      var i := 0;
      while i < |layersPath|
        invariant 0 <= i <= |layersPath| && state == old(state)
        invariant forall j :: 0 <= j < |layersPath| ==>
                    var layer := layersPath[j];
                    && layer.accumulator == old(layer.accumulator) && layer.Repr == old(layer.Repr)
                    && layer.SameFlags(if j < i then state.path[j].(hidden := false) else state.path[j])
      {
        layersPath[i].hidden := false;
        i := i + 1;
      }
      state := state.(path := M.Unhide(state.path));
      FlagsChanged();
    }

    method Reject()
      requires Valid() && layersPath != []
      modifies this`state, layersPath
      ensures Valid() && state == old(state).(path := M.Reject(old(state).path))
    {
      OpenLayersDiffer();
      layersPath[|layersPath| - 1].selfHidden := true;
      if |layersPath| > 1 {
        layersPath[|layersPath| - 2].childrenNb := layersPath[|layersPath| - 2].childrenNb - 1;
      }
      state := state.(path := M.Reject(state.path));
      FlagsChanged();
    }

    /** Prints the outermost layer when it closes, unless it is hidden. */
    method CloseOutermost()
      requires Valid() && |layersPath| == 1
      modifies this`downstream, this`accumulator, this`layersPath, this`level, this`state, Repr
      ensures Valid() && state == M.EndLayer(old(state))
    {
      assert OpenLayer(0) && Finished(0) == layersPath[0].accumulator;
      level := level - 1;
      if !layersPath[0].hidden {
        PerformAll(layersPath[0], state.path[0].accumulator);
      }
      layersPath := [];
      state := M.EndLayer(state);
    }

    /** Leaves a layer inside another one to its parent, which has already recorded it. */
    method CloseInnermost()
      requires Valid() && |layersPath| > 1
      modifies this`layersPath, this`level, this`state, layersPath
      ensures Valid() && state == M.EndLayer(old(state))
    {
      ghost var n := |layersPath|;
      ghost var top, parent := layersPath[n - 1], layersPath[n - 2];
      assert OpenLayer(n - 1) && OpenLayer(n - 2) && parent.Repr !! top.Repr;
      level := level - 1;
      layersPath := layersPath[..|layersPath| - 1];
      parent.Repr := parent.Repr + top.Repr;
      state := M.EndLayer(state);
      InnermostClosed(top);
    }

    /** The innermost layer, `top`, was left to its parent. */
    twostate predicate JustClosed(top: LayerRecord)
      reads this, top, Repr
    {
      var n := |layersPath|;
      && n > 0 && old(layersPath) == layersPath + [top] && layersPath[n - 1] in Repr
      && Repr == old(Repr) && level == old(level) - 1 && Sent() == old(Sent())
      && |accumulator| == old(|accumulator|) && inName == old(inName) && state == M.EndLayer(old(state))
      && ParentTakes(layersPath[n - 1], top)
      && forall other :: other in old(Repr) && other != layersPath[n - 1] ==> unchanged(other)
    }

    twostate predicate ParentTakes(parent: LayerRecord, top: LayerRecord)
      reads parent, top
    {
      && parent.Repr == old(parent.Repr) + top.Repr && parent.accumulator == old(parent.accumulator)
      && parent.hidden == old(parent.hidden) && parent.selfHidden == old(parent.selfHidden)
      && parent.hasChildren == old(parent.hasChildren) && parent.childrenNb == old(parent.childrenNb)
    }

    twostate lemma ParentHolds(top: LayerRecord)
      requires JustClosed(top)
      ensures old(Valid()) ==> |layersPath| == |state.path| && OpenLayer(|layersPath| - 1)
    {
      if old(Valid()) {
        ghost var n := |old(layersPath)|;
        ghost var parent := layersPath[n - 2];
        assert old(OpenLayer(n - 1)) && old(OpenLayer(n - 2)) && old(layersPath[n - 2].Repr !! layersPath[n - 1].Repr);
        parent.HoldsKept();
        parent.HoldsChild(old(Finished(n - 2)), old(state).path[n - 2].accumulator, top, old(state).path[n - 1]);
      }
    }

    twostate lemma ReprsApart(top: LayerRecord)
      requires JustClosed(top)
      ensures old(Valid()) ==> forall i, j :: 0 <= i < j < |layersPath| ==> layersPath[i].Repr !! layersPath[j].Repr
    {
      if old(Valid()) {
        ghost var n := |layersPath|;
        assert old(OpenLayer(n - 1)) && old(OpenLayer(n)) && old(layersPath[n - 1].Repr !! layersPath[n].Repr);
        assert top.Repr == old(top.Repr);
        forall i | 0 <= i < n - 1 ensures layersPath[i].Repr == old(layersPath[i].Repr) {
          assert old(OpenLayer(i)) && old(layersPath[i].Repr !! layersPath[n - 1].Repr);
        }
        forall i, j | 0 <= i < j < n ensures layersPath[i].Repr !! layersPath[j].Repr {
          assert old(layersPath[i].Repr !! layersPath[j].Repr) && old(layersPath[i].Repr !! layersPath[n].Repr);
        }
      }
    }

    twostate lemma InnermostClosed(top: LayerRecord)
      requires JustClosed(top)
      ensures old(Valid()) ==> Valid()
    {
      if old(Valid()) {
        ghost var n := |layersPath|;
        assert old(OpenLayer(n - 1)) && old(OpenLayer(n)) && old(layersPath[n - 1].Repr !! layersPath[n].Repr);
        ParentHolds(top);
        LowersKept(n - 1);
        assert forall i :: 0 <= i < n ==> OpenLayer(i);
        ReprsApart(top);
      }
    }

    lemma OpenLayersOwned()
      requires Valid()
      ensures forall layer :: layer in layersPath ==> layer in Repr
    {
      forall i | 0 <= i < |layersPath| ensures layersPath[i] in Repr {
        assert OpenLayer(i);
      }
    }

    method SetInName(value: bool)
      requires Valid()
      modifies this`inName, this`state
      ensures Valid() && state == old(state).(inName := value)
    {
      inName := value;
      state := state.(inName := value);
      forall i | 0 <= i < |layersPath| ensures OpenLayer(i) {
        assert old(OpenLayer(i));
      }
    }

    method StartElement(name: string, attrs: Attributes)
      requires Valid()
      modifies this, Repr
      ensures Valid() && fresh(Repr - old(Repr)) && state == M.Step(config, old(state), Start(Plain(name), attrs))
    {
      OpenLayersOwned();
      if name == config.tagName {
        OpenNewLayer();
      } else if name == "Name" && layersPath != [] {
        SetInName(true);
      }
      Do(Emit(Start(Plain(name), attrs)), Start(Plain(name), attrs));
    }

    method EndElement(name: string)
      requires Valid() && (name == config.tagName ==> layersPath != [])
      modifies this, Repr
      ensures Valid() && fresh(Repr - old(Repr)) && state == M.Step(config, old(state), End(Plain(name)))
      ensures name != config.tagName && old(layersPath) == [] ==> accumulator == []
    {
      Do(Emit(End(Plain(name))), End(Plain(name)));
      OpenLayersOwned();
      if name == config.tagName {
        if level - 1 == 0 {
          CloseOutermost();
        } else {
          assert Repr == old(Repr) && forall layer :: layer in layersPath ==> layer in Repr;
          CloseInnermost();
        }
      } else if name == "Name" {
        SetInName(false);
      }
    }

    method StartElementNS(uri: Option<string>, localName: string, qname: Option<string>, attrs: Attributes)
      requires Valid()
      modifies this, Repr
      ensures Valid() && fresh(Repr - old(Repr))
      ensures state == M.Step(config, old(state), Start(Qualified(uri, localName, qname), attrs))
    {
      var e := Start(Qualified(uri, localName, qname), attrs);
      Do(Emit(e), e);
    }

    method EndElementNS(uri: Option<string>, localName: string, qname: Option<string>)
      requires Valid()
      modifies this, Repr
      ensures Valid() && fresh(Repr - old(Repr))
      ensures state == M.Step(config, old(state), End(Qualified(uri, localName, qname)))
      ensures old(layersPath) == [] ==> accumulator == []
    {
      var e := End(Qualified(uri, localName, qname));
      Do(Emit(e), e);
    }

    method ReadCharacters(text: string)
      requires Valid()
      modifies this, Repr
      ensures Valid() && fresh(Repr - old(Repr)) && state == M.Step(config, old(state), Content(Characters(text)))
    {
      OpenLayersOwned();
      if inName && layersPath != [] {
        ReadName(text);
      }
      Do(AppendText(text), Content(Characters(text)));
    }

    method IgnorableWhitespace(blanks: string)
      requires Valid()
      modifies this, Repr
      ensures Valid() && fresh(Repr - old(Repr)) && state == M.Step(config, old(state), Content(Whitespace(blanks)))
    {
      Do(AppendText(blanks), Content(Whitespace(blanks)));
    }

    method ProcessingInstruction(target: string, data: string)
      requires Valid()
      modifies this, Repr
      ensures Valid() && fresh(Repr - old(Repr))
      ensures state == M.Step(config, old(state), Content(Instruction(target, data)))
    {
      var e := Content(Instruction(target, data));
      Do(Emit(e), e);
    }

    /** Hands one event of the parser to its handler. */
    method Handle(e: Event)
      requires Valid() && (e.End? && config.IsLayer(e.closing) ==> layersPath != [])
      modifies this, Repr
      ensures Valid() && fresh(Repr - old(Repr)) && state == M.Step(config, old(state), e)
      ensures e.End? && !config.IsLayer(e.closing) && old(layersPath) == [] ==> accumulator == []
    {
      match e
      case Start(Plain(name), attrs) => StartElement(name, attrs);
      case Start(Qualified(uri, localName, qname), attrs) => StartElementNS(uri, localName, qname, attrs);
      case End(Plain(name)) => EndElement(name);
      case End(Qualified(uri, localName, qname)) => EndElementNS(uri, localName, qname);
      case Content(Characters(text)) => ReadCharacters(text);
      case Content(Whitespace(blanks)) => IgnorableWhitespace(blanks);
      case Content(Instruction(target, data)) => ProcessingInstruction(target, data);
    }
  }

  /** The filter on a whole document, as its parser reports it: any well-nested stream of events. What is printed,
    * with the text not sent yet, is the stream of the pruned document; no text is left once an element that is not a
    * layer closes the document. */
  method Filter(config: Config, events: seq<Event>) returns (printed: seq<Event>, unsent: seq<Event>)
    requires WellNested(events)
    ensures exists document: Forest :: Events(document) == events
    ensures forall document: Forest :: Events(document) == events ==>
              printed + unsent == M.DeliverAll(Events(Pruned(config, document)))
    ensures events != [] && events[|events| - 1].End? && !config.IsLayer(events[|events| - 1].closing) ==> unsent == []
  {
    var filter := new CapabilitiesFilter(config);
    var k := 0;
    while k < |events|
      invariant 0 <= k <= |events|
      invariant filter.Valid() && filter.config == config && fresh(filter) && fresh(filter.Repr)
      invariant filter.state == M.Run(config, M.INITIAL, events[..k])
      invariant k == |events| > 0 && events[k - 1].End? && !config.IsLayer(events[k - 1].closing)
                ==> filter.accumulator == []
    {
      M.OpenLayersOfPrefix(config, events, k);
      M.RunOne(config, M.INITIAL, events, k);
      filter.Handle(events[k]);
      k := k + 1;
    }
    printed := filter.downstream;
    unsent := if filter.accumulator == [] then [] else [Content(Characters(Concat(filter.accumulator)))];
    assert events[..k] == events;
    var witnessDocument := WellNestedHasForest(events);
    forall document: Forest | Events(document) == events
      ensures printed + unsent == M.DeliverAll(Events(Pruned(config, document)))
    {
      M.FilterPrintsPruned(config, document);
    }
  }
}
