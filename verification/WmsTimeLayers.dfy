/** The time information of a group while its layers are visited: it stands in the dictionary of a layer as long as this is
  * the only layer. */
module WmsTimeLayers {
  import opened Wrappers
  import opened WmsTime

  /** The dictionary of a layer: its entry "time", and the rest. */
  class LayerDict {
    const content: int
    var time: Option<Info>

    constructor (content: int)
      ensures this.content == content && time == None
    {
      this.content, time := content, None;
    }

    /** The dictionaries are equal. */
    predicate Equals(other: LayerDict)
      reads this, other
    {
      content == other.content && time == other.time
    }
  }

  predicate AllAre(layers: seq<LayerDict>, l: LayerDict) {
    forall k :: 0 <= k < |layers| ==> layers[k] == l
  }

  class TimeInformation {
    var extent: Option<Extent>
    var mode: Option<string>
    var widget: Option<string>
    var layer: LayerDict?
    /** The layers merged so far. */
    ghost var merged: seq<LayerDict>

    function Contents(): Info
      reads this
    {
      Info(extent, mode, widget)
    }

    /** A layer has the entry exactly when it is the only one, and is then the current layer. */
    ghost predicate Valid()
      reads this, merged
    {
      && (extent.None? ==> Contents() == NOTHING)
      && (extent.None? <==> merged == [])
      && Placed()
    }

    ghost predicate Placed()
      reads this, merged
    {
      && (layer != null <==> merged != [] && AllAre(merged, merged[0]))
      && (layer != null ==> layer == merged[0])
      && forall l :: l in merged ==> (l.time.Some? <==> AllAre(merged, l))
    }

    /** What the methods need: no part without an extent, and the entry that may have to be deleted is there. */
    ghost predicate Ready()
      reads this, layer
    {
      (extent.None? ==> Contents() == NOTHING) && (layer != null ==> layer.time.Some?)
    }

    /** The entry goes to this layer. */
    predicate Applies(l: LayerDict)
      reads this, layer, l
    {
      (layer != null && layer.Equals(l)) || extent.None?
    }

    /** Different layers have different dictionaries, and only layers seen before have a time. */
    ghost predicate Separate(l: LayerDict)
      reads this, l
    {
      (forall other :: other in merged && other != l ==> other.content != l.content) && (l !in merged ==> l.time.None?)
    }

    constructor ()
      ensures Valid() && Ready() && merged == [] && Contents() == NOTHING
    {
      extent, mode, widget, layer := None, None, None, null;
      merged := [];
    }

    method MergeExtent(other: Extent) returns (fits: bool)
      modifies `extent
      ensures var both := if old(extent).None? then Some(other) else MergeExtents(old(extent).value, other);
              fits == both.Some? && extent == if fits then both else old(extent)
    {
      fits := true;
      if extent.Some? {
        var both := MergeExtents(extent.value, other);
        if both.None? {
          return false;
        }
        extent := both;
      } else {
        extent := Some(other);
      }
    }

    method MergeMode(other: string) returns (fits: bool)
      modifies `mode
      ensures fits == (other == DISABLED || old(mode).None? || old(mode).value == other)
      ensures mode == if fits && other != DISABLED then Some(other) else old(mode)
    {
      fits := true;
      if other != DISABLED {
        if mode.Some? {
          fits := mode.value == other;
        } else {
          mode := Some(other);
        }
      }
    }

    method MergeWidget(other: Option<string>) returns (fits: bool)
      modifies `widget
      ensures var wanted := if other.None? || other.value == "" then SLIDER else other.value;
              && fits == (old(widget).None? || old(widget).value == wanted)
              && widget == if fits then Some(wanted) else old(widget)
    {
      var wanted := if other.None? || other.value == "" then SLIDER else other.value;
      fits := true;
      if widget.Some? {
        fits := widget.value == wanted;
      } else {
        widget := Some(wanted);
      }
    }

    /** The entry goes to the layer, or is deleted from the current one. */
    method Place(l: LayerDict, apply: bool)
      requires layer != null ==> layer.time.Some?
      modifies this`layer, this`merged, l, layer
      ensures merged == old(merged) + [l]
      ensures apply ==> layer == l && l.time == Some(Contents()) && (old(layer) != null && old(layer) != l ==> unchanged(old(layer)))
      ensures !apply ==> layer == null && (old(layer) != null ==> old(layer).time == None) && (old(layer) != l ==> unchanged(l))
      ensures old(Placed() && Separate(l)) && (apply <==> AllAre(old(merged), l)) ==> Placed()
    {
      MoreAre(merged, l);
      if apply {
        l.time := Some(Contents());
        layer := l;
      } else if layer != null {
        layer.time := None;
        layer := null;
      }
      merged := merged + [l];
    }

    /** Merges what a layer brings. The entry goes to the layer if there was none or if its dictionary equals that of the
      * current layer, and is otherwise deleted from the current layer. */
    method Merge(l: LayerDict, e: Entry) returns (fits: bool)
      requires Ready()
      modifies this, l, layer
      ensures Ready()
      ensures (Contents(), fits) == Step(old(Contents()), e)
      ensures merged == if fits then old(merged) + [l] else old(merged)
      ensures !fits ==> layer == old(layer) && unchanged(l) && (layer != null ==> unchanged(layer))
      ensures fits && old(Applies(l)) ==> layer == l && l.time == Some(Contents())
      ensures fits && old(Applies(l)) && old(layer) != null && old(layer) != l ==> unchanged(old(layer))
      ensures fits && !old(Applies(l)) ==> layer == null && (old(layer) != null ==> old(layer).time == None)
      ensures fits && !old(Applies(l)) && old(layer) != l ==> unchanged(l)
      ensures old(Valid() && Separate(l)) ==> Valid() && (fits && AllAre(merged, l) ==> l.time == Some(Contents()))
    {
      var hadTime := extent.Some?;
      var apply := (layer != null && layer.Equals(l)) || !hadTime;
      ghost var wasValid := Valid() && Separate(l);
      assert wasValid ==> (apply <==> AllAre(merged, l));
      fits := MergeExtent(e.extent);
      if !fits {
        return;
      }
      fits := MergeMode(e.mode);
      if !fits {
        return;
      }
      fits := MergeWidget(e.widget);
      if !fits {
        return;
      }
      Place(l, apply);
    }
  }

  lemma MoreAre(layers: seq<LayerDict>, l: LayerDict)
    ensures forall m :: AllAre(layers + [l], m) <==> AllAre(layers, m) && l == m
  {
    var more := layers + [l];
    assert more[|layers|] == l && forall k :: 0 <= k < |layers| ==> more[k] == layers[k];
  }
}
