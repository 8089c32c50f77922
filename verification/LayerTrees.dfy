/** Which layers of a capabilities document show, said on the tree of its layers: by paths, without reading order.
  * The documents are those where the names of a layer come before the layers inside it, as the schema of a
  * GetCapabilities answer has it (section 7.2.4 of OGC 06-042, WMS 1.3.0). */
module LayerTrees {
  import opened Wrappers
  import opened Xml
  import opened Pruning

  /** A layer: its own name, if it has one; the texts of all the Name elements in it, those of its styles included, but not
    * in the layers inside; and the layers inside. */
  datatype LayerTree = Node(own: Option<string>, names: seq<string>, kids: seq<LayerTree>)

  /** The position of a layer under the outermost one: which child to take, from the outside to the inside. */
  type Path = seq<nat>

  predicate HasPath(t: LayerTree, p: Path) {
    p == [] || (p[0] < |t.kids| && HasPath(t.kids[p[0]], p[1..]))
  }

  function At(t: LayerTree, p: Path): LayerTree
    requires HasPath(t, p)
  {
    if p == [] then t else At(t.kids[p[0]], p[1..])
  }

  lemma {:induction false} PathPrefix(t: LayerTree, p: Path, q: Path)
    ensures HasPath(t, p + q) <==> HasPath(t, p) && HasPath(At(t, p), q)
    ensures HasPath(t, p + q) ==> At(t, p + q) == At(At(t, p), q)
    decreases p
  {
    if p == [] {
      assert p + q == q;
    } else {
      assert (p + q)[1..] == p[1..] + q;
      if p[0] < |t.kids| {
        PathPrefix(t.kids[p[0]], p[1..], q);
      }
    }
  }

  predicate AnyBad(c: Config, names: seq<string>) {
    exists i :: 0 <= i < |names| && !c.Keeps(names[i])
  }

  predicate FirstGood(c: Config, names: seq<string>) {
    names != [] && c.Keeps(names[0])
  }

  /** One of the names may not be shown. */
  predicate Bad(c: Config, t: LayerTree) {
    AnyBad(c, t.names)
  }

  /** The first name may be shown. */
  predicate Good(c: Config, t: LayerTree) {
    FirstGood(c, t.names)
  }

  /** The names of a layer count unless a layer around it, not the outermost, is bad. */
  ghost predicate Evaluated(c: Config, t: LayerTree, p: Path)
    requires HasPath(t, p)
  {
    forall k :: 0 < k < |p| && HasPath(t, p[..k]) ==> !Bad(c, At(t, p[..k]))
  }

  ghost predicate Rejected(c: Config, t: LayerTree, p: Path)
    requires HasPath(t, p)
  {
    Evaluated(c, t, p) && Bad(c, At(t, p))
  }

  /** Some layer at or below `p` counts and may be shown. */
  ghost predicate KeptInside(c: Config, t: LayerTree, p: Path)
    requires HasPath(t, p)
  {
    exists q: Path :: KeptAt(c, t, p + q)
  }

  ghost predicate KeptAt(c: Config, t: LayerTree, p: Path) {
    HasPath(t, p) && Evaluated(c, t, p) && Good(c, At(t, p))
  }

  ghost predicate HasOnlyRejected(c: Config, t: LayerTree, p: Path)
    requires HasPath(t, p)
  {
    At(t, p).kids != [] && forall k :: 0 <= k < |At(t, p).kids| && HasPath(t, p + [k]) ==> Rejected(c, t, p + [k])
  }

  /** The layer at `p` shows. */
  ghost predicate Printed(c: Config, t: LayerTree, p: Path)
    requires HasPath(t, p)
    decreases |p|
  {
    KeptInside(c, t, p)
    && (p != [] ==>
          && HasPath(t, p[..|p| - 1]) && Printed(c, t, p[..|p| - 1])
          && !HasOnlyRejected(c, t, p))
  }

  /** The tree of the layers that show, from the layer at `p`. */
  ghost function PrintedTree(c: Config, t: LayerTree, p: Path): LayerTree
    requires HasPath(t, p)
    decreases At(t, p), 1
  {
    Node(At(t, p).own, At(t, p).names, PrintedKids(c, t, p, At(t, p).kids, 0))
  }

  ghost function PrintedKids(c: Config, t: LayerTree, p: Path, kids: seq<LayerTree>, k: nat): seq<LayerTree>
    requires HasPath(t, p) && kids == At(t, p).kids && k <= |kids|
    decreases At(t, p), 0, |kids| - k
  {
    if k == |kids| then []
    else
      PathPrefix(t, p, [k]);
      assert HasPath(kids[k], []);
      (if Printed(c, t, p + [k]) then [PrintedTree(c, t, p + [k])] else []) + PrintedKids(c, t, p, kids, k + 1)
  }

  // The same by recursion on the tree, as an intermediate form.

  /** Whether the names of the layers directly inside `t` are ignored; `t` is the `depth`-th layer from outside. */
  predicate Below(c: Config, t: LayerTree, depth: nat, ignored: bool) {
    depth > 1 && (ignored || Bad(c, t))
  }

  predicate Kept(c: Config, t: LayerTree, depth: nat, ignored: bool)
    decreases t
  {
    (!ignored && Good(c, t))
    || exists k :: 0 <= k < |t.kids| && Kept(c, t.kids[k], depth + 1, Below(c, t, depth, ignored))
  }

  predicate OnlyRejected(c: Config, kids: seq<LayerTree>, ignored: bool) {
    kids != [] && forall k :: 0 <= k < |kids| ==> !ignored && Bad(c, kids[k])
  }

  predicate Shows(c: Config, t: LayerTree, depth: nat, ignored: bool) {
    Kept(c, t, depth, ignored) && !OnlyRejected(c, t.kids, Below(c, t, depth, ignored))
  }

  function Trim(c: Config, t: LayerTree, depth: nat, ignored: bool): LayerTree
    decreases t, 0
  {
    Node(t.own, t.names, TrimAll(c, t.kids, depth + 1, Below(c, t, depth, ignored)))
  }

  function TrimAll(c: Config, ts: seq<LayerTree>, depth: nat, ignored: bool): seq<LayerTree>
    decreases ts, 1
  {
    if ts == [] then []
    else
      (if Shows(c, ts[0], depth, ignored) then [Trim(c, ts[0], depth, ignored)] else [])
      + TrimAll(c, ts[1..], depth, ignored)
  }

  lemma EvaluatedChild(c: Config, t: LayerTree, p: Path, k: nat)
    requires HasPath(t, p) && k < |At(t, p).kids|
    ensures HasPath(t, p + [k]) && At(t, p + [k]) == At(t, p).kids[k]
    ensures Evaluated(c, t, p + [k]) <==> !Below(c, At(t, p), |p| + 1, !Evaluated(c, t, p))
  {
    PathPrefix(t, p, [k]);
    assert HasPath(At(t, p).kids[k], []);
    var child := p + [k];
    forall j | 0 < j <= |p| ensures child[..j] == p[..j] {
    }
    assert p[..|p|] == p;
    if Evaluated(c, t, child) {
      forall j | 0 < j < |p| && HasPath(t, p[..j]) ensures !Bad(c, At(t, p[..j])) {
        assert child[..j] == p[..j];
      }
      if p != [] {
        assert child[..|p|] == p;
      }
    } else {
      var j :| 0 < j < |child| && HasPath(t, child[..j]) && Bad(c, At(t, child[..j]));
      assert child[..j] == p[..j];
    }
  }

  lemma KeptFromChild(c: Config, t: LayerTree, p: Path, k: nat)
    requires HasPath(t, p) && HasPath(t, p + [k]) && KeptInside(c, t, p + [k])
    ensures KeptInside(c, t, p)
  {
    var q: Path :| KeptAt(c, t, p + [k] + q);
    assert p + [k] + q == p + ([k] + q);
  }

  lemma KeptInChild(c: Config, t: LayerTree, p: Path) returns (k: nat)
    requires HasPath(t, p) && KeptInside(c, t, p) && !(Evaluated(c, t, p) && Good(c, At(t, p)))
    ensures k < |At(t, p).kids| && HasPath(t, p + [k]) && KeptInside(c, t, p + [k])
  {
    var q: Path :| KeptAt(c, t, p + q);
    assert p + [] == p;
    k := q[0];
    assert p + q == p + [k] + q[1..];
    PathPrefix(t, p, q);
    EvaluatedChild(c, t, p, k);
  }

  lemma {:induction false} KeptIsKeptInside(c: Config, t: LayerTree, p: Path)
    requires HasPath(t, p)
    ensures Kept(c, At(t, p), |p| + 1, !Evaluated(c, t, p)) <==> KeptInside(c, t, p)
    decreases At(t, p)
  {
    var n := At(t, p);
    var below := Below(c, n, |p| + 1, !Evaluated(c, t, p));
    forall k | 0 <= k < |n.kids|
      ensures HasPath(t, p + [k]) && (Kept(c, n.kids[k], |p| + 2, below) <==> KeptInside(c, t, p + [k]))
    {
      EvaluatedChild(c, t, p, k);
      KeptIsKeptInside(c, t, p + [k]);
    }
    if Evaluated(c, t, p) && Good(c, n) {
      assert p + [] == p;
    } else if KeptInside(c, t, p) {
      var k := KeptInChild(c, t, p);
      assert Kept(c, n.kids[k], |p| + 2, below);
    } else if Kept(c, n, |p| + 1, !Evaluated(c, t, p)) {
      var k :| 0 <= k < |n.kids| && Kept(c, n.kids[k], |p| + 2, below);
      KeptFromChild(c, t, p, k);
    }
  }

  lemma OnlyRejectedAgree(c: Config, t: LayerTree, p: Path)
    requires HasPath(t, p)
    ensures HasOnlyRejected(c, t, p)
       <==> OnlyRejected(c, At(t, p).kids, Below(c, At(t, p), |p| + 1, !Evaluated(c, t, p)))
  {
    var n := At(t, p);
    var below := Below(c, n, |p| + 1, !Evaluated(c, t, p));
    if HasOnlyRejected(c, t, p) {
      forall k | 0 <= k < |n.kids| ensures !below && Bad(c, n.kids[k]) {
        EvaluatedChild(c, t, p, k);
        assert Rejected(c, t, p + [k]);
      }
      assert Bad(c, n.kids[0]);
    }
    if OnlyRejected(c, n.kids, below) {
      forall k | 0 <= k < |n.kids| && HasPath(t, p + [k]) ensures Rejected(c, t, p + [k]) {
        EvaluatedChild(c, t, p, k);
        assert !below && Bad(c, n.kids[k]);
      }
    }
  }

  /** The two forms agree on one layer. */
  lemma PrintedChild(c: Config, t: LayerTree, p: Path, k: nat)
    requires HasPath(t, p) && Printed(c, t, p) && k < |At(t, p).kids|
    ensures HasPath(t, p + [k])
    ensures Printed(c, t, p + [k])
       <==> Shows(c, At(t, p).kids[k], |p| + 2, Below(c, At(t, p), |p| + 1, !Evaluated(c, t, p)))
  {
    var child := p + [k];
    EvaluatedChild(c, t, p, k);
    KeptIsKeptInside(c, t, child);
    OnlyRejectedAgree(c, t, child);
    assert child[..|child| - 1] == p;
  }

  /** The two forms agree on a whole tree. */
  lemma {:induction false} PrintedTreeIsTrim(c: Config, t: LayerTree, p: Path)
    requires HasPath(t, p) && Printed(c, t, p)
    ensures PrintedTree(c, t, p) == Trim(c, At(t, p), |p| + 1, !Evaluated(c, t, p))
    decreases At(t, p), 1
  {
    PrintedKidsAreTrimmed(c, t, p, At(t, p).kids, 0);
  }

  lemma {:induction false} PrintedKidsAreTrimmed(c: Config, t: LayerTree, p: Path, kids: seq<LayerTree>, k: nat)
    requires HasPath(t, p) && Printed(c, t, p) && kids == At(t, p).kids && k <= |kids|
    ensures PrintedKids(c, t, p, kids, k)
         == TrimAll(c, kids[k..], |p| + 2, Below(c, At(t, p), |p| + 1, !Evaluated(c, t, p)))
    decreases At(t, p), 0, |kids| - k
  {
    if k < |kids| {
      PrintedChild(c, t, p, k);
      EvaluatedChild(c, t, p, k);
      PrintedKidsAreTrimmed(c, t, p, kids, k + 1);
      if Printed(c, t, p + [k]) {
        PrintedTreeIsTrim(c, t, p + [k]);
      }
      assert kids[k..][1..] == kids[k + 1..];
    }
  }

  // Leaves.

  lemma WayPrefix(t: LayerTree, p: Path, k: nat)
    requires HasPath(t, p) && k <= |p|
    ensures HasPath(t, p[..k])
  {
    assert p == p[..k] + p[k..];
    PathPrefix(t, p[..k], p[k..]);
  }

  /** The next layer on a way. */
  lemma WayStep(t: LayerTree, p: Path, k: nat)
    requires HasPath(t, p) && k < |p|
    ensures HasPath(t, p[..k]) && p[k] < |At(t, p[..k]).kids|
    ensures HasPath(t, p[..k + 1]) && At(t, p[..k + 1]) == At(t, p[..k]).kids[p[k]]
  {
    WayPrefix(t, p, k);
    WayPrefix(t, p, k + 1);
    assert p[..k + 1] == p[..k] + [p[k]];
    PathPrefix(t, p[..k], [p[k]]);
    assert [p[k]][1..] == [];
  }

  /** The layers around a layer that shows, show. */
  lemma {:induction false} PrintedAbove(c: Config, t: LayerTree, p: Path, k: nat)
    requires HasPath(t, p) && Printed(c, t, p) && k <= |p|
    ensures HasPath(t, p[..k]) && Printed(c, t, p[..k])
    decreases |p|
  {
    if k == |p| {
      assert p[..k] == p;
    } else {
      PrintedAbove(c, t, p[..|p| - 1], k);
      assert p[..|p| - 1][..k] == p[..k];
    }
  }

  predicate AllBad(c: Config, kids: seq<LayerTree>) {
    forall j :: 0 <= j < |kids| ==> Bad(c, kids[j])
  }

  /** Inside a layer that counts and is not bad, all layers are rejected exactly when all are bad. */
  lemma OnlyRejectedIffAllBad(c: Config, t: LayerTree, p: Path)
    requires HasPath(t, p) && p != [] && At(t, p).kids != [] && Evaluated(c, t, p) && !Bad(c, At(t, p))
    ensures HasOnlyRejected(c, t, p) <==> AllBad(c, At(t, p).kids)
  {
    OnlyRejectedAgree(c, t, p);
  }

  /** A leaf shows exactly when its first name may be shown and each of the layers around it, but the outermost, is not bad
    * and has a layer directly inside that is not bad. */
  lemma LeafShowsIff(c: Config, t: LayerTree, p: Path)
    requires HasPath(t, p) && At(t, p).kids == []
    ensures Printed(c, t, p)
       <==> && Good(c, At(t, p))
            && forall k :: 0 < k < |p| && HasPath(t, p[..k]) ==> !Bad(c, At(t, p[..k])) && !AllBad(c, At(t, p[..k]).kids)
  {
    assert p + [] == p;
    if Printed(c, t, p) {
      var q: Path :| KeptAt(c, t, p + q);
      PathPrefix(t, p, q);
      assert q == [];
      forall k | 0 < k < |p| && HasPath(t, p[..k]) ensures !Bad(c, At(t, p[..k])) && !AllBad(c, At(t, p[..k]).kids) {
        PrintedAbove(c, t, p, k);
        EvaluatedAbove(c, t, p, k);
        WayStep(t, p, k);
        OnlyRejectedIffAllBad(c, t, p[..k]);
      }
    }
    if Good(c, At(t, p))
       && forall k :: 0 < k < |p| && HasPath(t, p[..k]) ==> !Bad(c, At(t, p[..k])) && !AllBad(c, At(t, p[..k]).kids) {
      OpenWayPrinted(c, t, p, |p|);
      assert p[..|p|] == p;
    }
  }

  lemma EvaluatedAbove(c: Config, t: LayerTree, p: Path, k: nat)
    requires HasPath(t, p) && Evaluated(c, t, p) && k <= |p|
    ensures HasPath(t, p[..k]) && Evaluated(c, t, p[..k])
  {
    WayPrefix(t, p, k);
    forall j | 0 < j < k && HasPath(t, p[..k][..j]) ensures !Bad(c, At(t, p[..k][..j])) {
      assert p[..k][..j] == p[..j];
    }
  }

  lemma {:induction false} OpenWayPrinted(c: Config, t: LayerTree, p: Path, k: nat)
    requires HasPath(t, p) && At(t, p).kids == [] && Good(c, At(t, p)) && k <= |p|
    requires forall j :: 0 < j < |p| && HasPath(t, p[..j]) ==> !Bad(c, At(t, p[..j])) && !AllBad(c, At(t, p[..j]).kids)
    ensures HasPath(t, p[..k]) && Printed(c, t, p[..k])
    decreases k
  {
    var here := p[..k];
    WayPrefix(t, p, k);
    assert Evaluated(c, t, p);
    assert here + p[k..] == p;
    assert KeptInside(c, t, here);
    if k > 0 {
      OpenWayPrinted(c, t, p, k - 1);
      assert here[..k - 1] == p[..k - 1];
      if k < |p| {
        EvaluatedAbove(c, t, p, k);
        WayStep(t, p, k);
        OnlyRejectedIffAllBad(c, t, here);
      } else {
        assert here == p;
      }
    }
  }
}
