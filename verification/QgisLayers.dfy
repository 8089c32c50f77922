/** Which GeoMapFish layers give access to each node of the layer tree of a QGIS project. */
module QgisLayers {
  import opened Wrappers
  import opened Names

  /** A node of the QGIS layer tree, with the name it has in the OGC services. */
  datatype Node = Node(name: string, children: seq<Node>)

  type Point = (real, real)

  /** An area is the set of its points; without one everything is accessible. */
  datatype RestrictionArea = RestrictionArea(id: int, area: Option<set<Point>>, roles: seq<int>, readwrite: bool)

  /** A WMS layer of GeoMapFish: the names of QGIS nodes, separated by commas, and its restriction areas. */
  datatype GmfLayer = GmfLayer(id: int, layer: string, isPublic: bool, areas: seq<RestrictionArea>)

  predicate NamesNode(l: GmfLayer, name: string) {
    name in Split(l.layer, ',')
  }

  // The nodes.

  /** A way from a node down to another, by the places among the children. */
  type Way = seq<nat>

  predicate IsWay(node: Node, way: Way)
    decreases |way|
  {
    way == [] || (way[0] < |node.children| && IsWay(node.children[way[0]], way[1..]))
  }

  function NameAt(node: Node, way: Way): string
    requires IsWay(node, way)
    decreases |way|
  {
    if way == [] then node.name else NameAt(node.children[way[0]], way[1..])
  }

  /** The names of the ancestors, from the top. */
  function Above(node: Node, way: Way): seq<string>
    requires IsWay(node, way)
    decreases |way|
  {
    if way == [] then [] else [node.name] + Above(node.children[way[0]], way[1..])
  }

  type NodeNames = map<string, seq<string>>

  /** Records a node and what is below it: the name of each with the names of its ancestors. */
  function Browse(nodes: NodeNames, path: seq<string>, node: Node): NodeNames
    decreases node, 1
  {
    BrowseAll(nodes[node.name := [node.name] + path], path + [node.name], node.children)
  }

  function BrowseAll(nodes: NodeNames, path: seq<string>, children: seq<Node>): NodeNames
    decreases children, 0
  {
    if children == [] then nodes else BrowseAll(Browse(nodes, path, children[0]), path, children[1..])
  }

  function NamesBelow(node: Node): set<string>
    decreases node, 1
  {
    {node.name} + NamesOfAll(node.children)
  }

  function NamesOfAll(children: seq<Node>): set<string>
    decreases children, 0
  {
    if children == [] then {} else NamesBelow(children[0]) + NamesOfAll(children[1..])
  }

  predicate DistinctNames(node: Node)
    decreases node, 1
  {
    node.name !in NamesOfAll(node.children) && DistinctChildren(node.children)
  }

  predicate DistinctChildren(children: seq<Node>)
    decreases children, 0
  {
    children == []
    || (DistinctNames(children[0]) && DistinctChildren(children[1..]) && NamesBelow(children[0]) !! NamesOfAll(children[1..]))
  }

  lemma {:induction false} BrowseKeeps(nodes: NodeNames, path: seq<string>, node: Node, name: string)
    requires name !in NamesBelow(node)
    ensures name in Browse(nodes, path, node) <==> name in nodes
    ensures name in nodes ==> Browse(nodes, path, node)[name] == nodes[name]
    decreases node, 1
  {
    BrowseAllKeeps(nodes[node.name := [node.name] + path], path + [node.name], node.children, name);
  }

  lemma {:induction false} BrowseAllKeeps(nodes: NodeNames, path: seq<string>, children: seq<Node>, name: string)
    requires name !in NamesOfAll(children)
    ensures name in BrowseAll(nodes, path, children) <==> name in nodes
    ensures name in nodes ==> BrowseAll(nodes, path, children)[name] == nodes[name]
    decreases children, 0
  {
    if children != [] {
      BrowseKeeps(nodes, path, children[0], name);
      BrowseAllKeeps(Browse(nodes, path, children[0]), path, children[1..], name);
    }
  }

  /** No other names are recorded. */
  lemma {:induction false} BrowseOnly(nodes: NodeNames, path: seq<string>, node: Node, name: string)
    ensures name in Browse(nodes, path, node) <==> name in nodes || name in NamesBelow(node)
    decreases node, 1
  {
    BrowseAllOnly(nodes[node.name := [node.name] + path], path + [node.name], node.children, name);
  }

  lemma {:induction false} BrowseAllOnly(nodes: NodeNames, path: seq<string>, children: seq<Node>, name: string)
    ensures name in BrowseAll(nodes, path, children) <==> name in nodes || name in NamesOfAll(children)
    decreases children, 0
  {
    if children != [] {
      BrowseOnly(nodes, path, children[0], name);
      BrowseAllOnly(Browse(nodes, path, children[0]), path, children[1..], name);
    }
  }

  lemma {:induction false} NameIsBelow(node: Node, way: Way)
    requires IsWay(node, way)
    ensures NameAt(node, way) in NamesBelow(node)
    decreases |way|
  {
    if way != [] {
      NameIsBelow(node.children[way[0]], way[1..]);
      ChildIsBelow(node.children, way[0], NameAt(node, way));
    }
  }

  lemma {:induction false} ChildIsBelow(children: seq<Node>, k: nat, name: string)
    requires k < |children| && name in NamesBelow(children[k])
    ensures name in NamesOfAll(children)
  {
    if k > 0 {
      ChildIsBelow(children[1..], k - 1, name);
    }
  }

  /** With distinct names, each node is recorded with its own ancestors. */
  lemma {:induction false} BrowseFinds(nodes: NodeNames, path: seq<string>, node: Node, way: Way)
    requires DistinctNames(node) && IsWay(node, way)
    ensures NameAt(node, way) in Browse(nodes, path, node)
    ensures Browse(nodes, path, node)[NameAt(node, way)] == [NameAt(node, way)] + (path + Above(node, way))
    decreases |way|, 0
  {
    var first := nodes[node.name := [node.name] + path];
    if way == [] {
      BrowseAllKeeps(first, path + [node.name], node.children, node.name);
      assert path + [] == path;
    } else {
      BrowseAllFinds(first, path + [node.name], node.children, way[0], way[1..]);
      assert path + [node.name] + Above(node.children[way[0]], way[1..]) == path + Above(node, way);
    }
  }

  lemma {:induction false} BrowseAllFinds(nodes: NodeNames, path: seq<string>, children: seq<Node>, k: nat, way: Way)
    requires DistinctChildren(children) && k < |children| && IsWay(children[k], way)
    ensures NameAt(children[k], way) in BrowseAll(nodes, path, children)
    ensures BrowseAll(nodes, path, children)[NameAt(children[k], way)]
         == [NameAt(children[k], way)] + (path + Above(children[k], way))
    decreases |way|, 1 + k
  {
    if k == 0 {
      BrowseFinds(nodes, path, children[0], way);
      NameIsBelow(children[0], way);
      BrowseAllKeeps(Browse(nodes, path, children[0]), path, children[1..], NameAt(children[0], way));
    } else {
      BrowseAllFinds(Browse(nodes, path, children[0]), path, children[1..], k - 1, way);
    }
  }

  // The layers of the nodes.

  /** The layer, once for each of the names that it has. */
  function Hits(l: GmfLayer, names: seq<string>): seq<GmfLayer> {
    if names == [] then []
    else
      var last := |names| - 1;
      Hits(l, names[..last]) + (if NamesNode(l, names[last]) then [l] else [])
  }

  function LayersFor(db: seq<GmfLayer>, names: seq<string>): seq<GmfLayer> {
    if db == [] then [] else LayersFor(db[..|db| - 1], names) + Hits(db[|db| - 1], names)
  }

  predicate NamesSome(l: GmfLayer, names: seq<string>) {
    exists k :: 0 <= k < |names| && NamesNode(l, names[k])
  }

  lemma {:induction false} HitsHave(l: GmfLayer, names: seq<string>, x: GmfLayer)
    ensures x in Hits(l, names) <==> x == l && NamesSome(l, names)
  {
    if names != [] {
      var last := |names| - 1;
      var front := names[..last];
      HitsHave(l, front, x);
      assert NamesSome(l, names) <==> NamesSome(l, front) || NamesNode(l, names[last]) by {
        if k :| 0 <= k < |front| && NamesNode(l, front[k]) {
          assert names[k] == front[k];
        }
        if k :| 0 <= k < |names| && NamesNode(l, names[k]) {
          assert k < last ==> front[k] == names[k];
        }
      }
    }
  }

  lemma {:induction false} LayersForHave(db: seq<GmfLayer>, names: seq<string>, x: GmfLayer)
    ensures x in LayersFor(db, names) <==> x in db && NamesSome(x, names)
  {
    if db != [] {
      var front, last := db[..|db| - 1], db[|db| - 1];
      LayersForHave(front, names, x);
      HitsHave(last, names, x);
      assert x in db <==> x in front || x == last;
    }
  }

  type LayerTable = map<string, seq<GmfLayer>>

  function Entry(layers: LayerTable, name: string): seq<GmfLayer> {
    if name in layers then layers[name] else []
  }

  /** The table of the layers of the nodes; a node without layers is not in it. */
  ghost predicate IsTable(layers: LayerTable, nodes: NodeNames, db: seq<GmfLayer>) {
    && (forall name :: name in nodes ==> Entry(layers, name) == LayersFor(db, nodes[name]))
    && (forall name :: name in layers ==> name in nodes && layers[name] != [])
  }

  function TableOf(nodes: NodeNames, db: seq<GmfLayer>): (layers: LayerTable)
    ensures IsTable(layers, nodes, db)
  {
    map name | name in nodes && LayersFor(db, nodes[name]) != [] :: LayersFor(db, nodes[name])
  }

  lemma OnlyTable(layers: LayerTable, nodes: NodeNames, db: seq<GmfLayer>)
    requires IsTable(layers, nodes, db)
    ensures layers == TableOf(nodes, db)
  {
  }

  /** With distinct node names, each node gets exactly the layers that name it or an ancestor. */
  lemma NodeLayers(tree: Node, db: seq<GmfLayer>, way: Way, l: GmfLayer)
    requires DistinctNames(tree) && IsWay(tree, way)
    ensures l in Entry(TableOf(Browse(map[], [], tree), db), NameAt(tree, way))
       <==> l in db && exists name :: name in Split(l.layer, ',') && (name == NameAt(tree, way) || name in Above(tree, way))
  {
    BrowseFinds(map[], [], tree, way);
    var name, above := NameAt(tree, way), Above(tree, way);
    assert [] + above == above;
    var names := [name] + above;
    LayersForHave(db, names, l);
    assert forall n :: n in names <==> n == name || n in above;
    if n :| n in Split(l.layer, ',') && (n == name || n in above) {
      var k :| 0 <= k < |names| && names[k] == n;
      assert NamesNode(l, names[k]);
    }
    if k :| 0 <= k < |names| && NamesNode(l, names[k]) {
      assert names[k] in Split(l.layer, ',') && names[k] in names;
    }
  }

  lemma {:induction false} AboveLonger(node: Node, way: Way, more: Way)
    requires IsWay(node, way + more)
    ensures IsWay(node, way) && Above(node, way) <= Above(node, way + more)
    ensures more != [] ==> |Above(node, way + more)| > |way| == |Above(node, way)|
                           && Above(node, way + more)[|way|] == NameAt(node, way)
    decreases |way|
  {
    if way != [] {
      assert (way + more)[1..] == way[1..] + more;
      AboveLonger(node.children[way[0]], way[1..], more);
    }
  }

  lemma NamesSomeMore(l: GmfLayer, names: seq<string>, more: seq<string>)
    requires names <= more
    ensures NamesSome(l, names) ==> NamesSome(l, more)
    ensures forall k :: 0 <= k < |more| && NamesNode(l, more[k]) ==> NamesSome(l, more)
  {
  }

  /** The layers of a group are also layers of everything below it. */
  lemma LayersOfGroup(tree: Node, db: seq<GmfLayer>, way: Way, more: Way, l: GmfLayer)
    requires DistinctNames(tree) && IsWay(tree, way + more)
    ensures IsWay(tree, way)
    ensures var layers := TableOf(Browse(map[], [], tree), db);
            l in Entry(layers, NameAt(tree, way)) ==> l in Entry(layers, NameAt(tree, way + more))
  {
    AboveLonger(tree, way, more);
    NodeLayers(tree, db, way, l);
    NodeLayers(tree, db, way + more, l);
    if more == [] {
      assert way + more == way;
    } else {
      NamesSomeMore(l, Above(tree, way), Above(tree, way + more));
    }
  }

  lemma LayersForMore(db: seq<GmfLayer>, i: nat, names: seq<string>)
    requires i < |db|
    ensures LayersFor(db[..i + 1], names) == LayersFor(db[..i], names) + Hits(db[i], names)
  {
    assert db[..i + 1][..i] == db[..i] && db[..i + 1][i] == db[i];
  }

  /** The lists of the nodes for the first `n` layers. */
  function ListsFor(nodes: NodeNames, db: seq<GmfLayer>, n: nat): LayerTable
    requires n <= |db|
  {
    map name | name in nodes :: LayersFor(db[..n], nodes[name])
  }

  /** The table has the old lists for the nodes that are still to do, the new ones for the others. */
  ghost predicate PartDone(layers: LayerTable, todo: set<string>, earlier: LayerTable, later: LayerTable) {
    && (forall name :: name in later && name !in todo ==> Entry(layers, name) == later[name])
    && (forall name :: name in earlier && name in todo ==> Entry(layers, name) == earlier[name])
    && (forall name :: name in layers ==> name in later && layers[name] != [])
  }

  /** The table with this list for a name; no entry for an empty list. */
  function WithEntry(layers: LayerTable, name: string, list: seq<GmfLayer>): LayerTable {
    if list == [] then layers else layers[name := list]
  }

  lemma OneMoreDone(before: LayerTable, todo: set<string>, earlier: LayerTable, later: LayerTable, name: string)
    requires PartDone(before, todo, earlier, later) && name in later && name in todo
    requires later[name] == [] ==> Entry(before, name) == []
    ensures PartDone(WithEntry(before, name, later[name]), todo - {name}, earlier, later)
  {
  }

  /** The layers before `i` are done for all nodes, and the layer `i` for those that are not to do. */
  ghost predicate LayerPartDone(nodes: NodeNames, db: seq<GmfLayer>, i: nat, layers: LayerTable, todo: set<string>)
    requires i < |db|
  {
    PartDone(layers, todo, ListsFor(nodes, db, i), ListsFor(nodes, db, i + 1))
  }

  lemma NoNodeDone(nodes: NodeNames, db: seq<GmfLayer>, i: nat, layers: LayerTable)
    requires i < |db| && IsTable(layers, nodes, db[..i])
    ensures LayerPartDone(nodes, db, i, layers, nodes.Keys)
  {
  }

  lemma NextNode(nodes: NodeNames, db: seq<GmfLayer>, i: nat, layers: LayerTable, todo: set<string>, name: string)
    requires i < |db| && name in nodes && name in todo && LayerPartDone(nodes, db, i, layers, todo)
    ensures LayerPartDone(nodes, db, i, WithEntry(layers, name, Entry(layers, name) + Hits(db[i], nodes[name])), todo - {name})
  {
    var earlier, later := ListsFor(nodes, db, i), ListsFor(nodes, db, i + 1);
    LayersForMore(db, i, nodes[name]);
    assert Entry(layers, name) == earlier[name];
    assert later[name] == Entry(layers, name) + Hits(db[i], nodes[name]);
    OneMoreDone(layers, todo, earlier, later, name);
  }

  lemma AllNodesDone(nodes: NodeNames, db: seq<GmfLayer>, i: nat, layers: LayerTable)
    requires i < |db| && LayerPartDone(nodes, db, i, layers, {})
    ensures IsTable(layers, nodes, db[..i + 1])
  {
  }

  lemma HitsNext(l: GmfLayer, names: seq<string>, k: nat)
    requires k < |names|
    ensures Hits(l, names[..k + 1]) == Hits(l, names[..k]) + if NamesNode(l, names[k]) then [l] else []
  {
    assert names[..k + 1][..k] == names[..k];
  }

  /** One more name of a node: the layer is added when it has it. */
  lemma NextHit(before: LayerTable, name: string, l: GmfLayer, names: seq<string>, k: nat)
    requires k < |names|
    ensures var list := Entry(before, name) + Hits(l, names[..k]);
            var layers := WithEntry(before, name, list);
            && Entry(layers, name) == list
            && WithEntry(before, name, Entry(before, name) + Hits(l, names[..k + 1]))
               == if NamesNode(l, names[k]) then layers[name := list + [l]] else layers
  {
    HitsNext(l, names, k);
    ListNext(before, name, Entry(before, name), Hits(l, names[..k]), if NamesNode(l, names[k]) then [l] else []);
  }

  lemma ListNext(before: LayerTable, name: string, entry: seq<GmfLayer>, hits: seq<GmfLayer>, more: seq<GmfLayer>)
    requires entry == Entry(before, name)
    ensures Entry(WithEntry(before, name, entry + hits), name) == entry + hits
    ensures WithEntry(before, name, entry + (hits + more))
         == if more != [] then WithEntry(before, name, entry + hits)[name := entry + hits + more]
            else WithEntry(before, name, entry + hits)
  {
    assert entry + (hits + more) == entry + hits + more;
    if more == [] {
      assert entry + hits + more == entry + hits;
    }
  }

  // As the program does it.

  /** The dictionary that the recursive walk fills. */
  class NodeTable {
    var nodes: NodeNames

    constructor ()
      ensures nodes == map[]
    {
      nodes := map[];
    }

    method BrowseNode(path: seq<string>, node: Node)
      modifies this
      ensures nodes == Browse(old(nodes), path, node)
      decreases node
    {
      nodes := nodes[node.name := [node.name] + path];
      ghost var first := nodes;
      var k := 0;
      assert node.children[0..] == node.children;
      while k < |node.children|
        invariant 0 <= k <= |node.children|
        invariant BrowseAll(first, path + [node.name], node.children)
               == BrowseAll(nodes, path + [node.name], node.children[k..])
      {
        assert node.children[k..][0] == node.children[k] && node.children[k..][1..] == node.children[k + 1..];
        BrowseNode(path + [node.name], node.children[k]);
        k := k + 1;
      }
    }
  }

  /** The table of layers, by three nested loops. */
  method TransformNames(nodes: NodeNames, db: seq<GmfLayer>) returns (layers: LayerTable)
    ensures layers == TableOf(nodes, db)
  {
    layers := map[];
    var i := 0;
    while i < |db|
      invariant 0 <= i <= |db| && IsTable(layers, nodes, db[..i])
    {
      layers := AddLayer(nodes, layers, db, i);
      i := i + 1;
    }
    assert db[..i] == db;
    OnlyTable(layers, nodes, db);
  }

  /** One layer, for all nodes, in whatever order the dictionary gives them. */
  method AddLayer(nodes: NodeNames, before: LayerTable, db: seq<GmfLayer>, i: nat) returns (layers: LayerTable)
    requires i < |db| && IsTable(before, nodes, db[..i])
    ensures IsTable(layers, nodes, db[..i + 1])
  {
    layers := before;
    var todo := nodes.Keys;
    NoNodeDone(nodes, db, i, layers);
    while todo != {}
      invariant todo <= nodes.Keys && LayerPartDone(nodes, db, i, layers, todo)
      decreases |todo|
    {
      var name :| name in todo;
      NextNode(nodes, db, i, layers, todo, name);
      layers := AddToNode(layers, name, nodes[name], db[i]);
      todo := todo - {name};
    }
    AllNodesDone(nodes, db, i, layers);
  }

  /** The layer is added to a node once for each of its names and of the names of its ancestors. */
  method AddToNode(before: LayerTable, name: string, ancestors: seq<string>, l: GmfLayer) returns (layers: LayerTable)
    ensures layers == WithEntry(before, name, Entry(before, name) + Hits(l, ancestors))
  {
    layers := before;
    var k := 0;
    assert Entry(before, name) + [] == Entry(before, name);
    while k < |ancestors|
      invariant 0 <= k <= |ancestors|
      invariant layers == WithEntry(before, name, Entry(before, name) + Hits(l, ancestors[..k]))
    {
      NextHit(before, name, l, ancestors, k);
      if NamesNode(l, ancestors[k]) {
        layers := layers[name := Entry(layers, name) + [l]];
      }
      k := k + 1;
    }
    assert ancestors[..k] == ancestors;
  }
}
