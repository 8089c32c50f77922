/** The black list of the capabilities filter: the private layers a user may not see, with all that is under them in
  * the WMS. */
module PrivateLayers {
  import opened Wrappers
  import opened Xml
  import opened Names
  import opened Pruning
  import opened LayerTrees

  // The layers of the database.

  datatype RestrictionArea = RestrictionArea(roles: set<int>, readwrite: bool)

  /** `layer` is a list of WMS layer names, separated by commas. */
  datatype LayerWms = LayerWms(id: int, layer: string, isPublic: bool, ogcServer: int, areas: seq<RestrictionArea>)

  predicate Granted(layer: LayerWms, roles: set<int>) {
    exists i, r :: 0 <= i < |layer.areas| && r in roles && r in layer.areas[i].roles
  }

  predicate UniqueIds(table: seq<LayerWms>) {
    forall i, j :: 0 <= i < j < |table| ==> table[i].id != table[j].id
  }

  /** The rows selected, by id. */
  function ById(table: seq<LayerWms>, selected: LayerWms -> bool): (m: map<int, LayerWms>)
    ensures forall id :: id in m ==> m[id] in table && selected(m[id]) && m[id].id == id
    ensures UniqueIds(table) ==> forall layer :: layer in table && selected(layer) ==> layer.id in m && m[layer.id] == layer
  {
    if table == [] then map[]
    else
      var last := table[|table| - 1];
      var rest := ById(table[..|table| - 1], selected);
      assert forall layer :: layer in table ==> layer == last || layer in table[..|table| - 1];
      if selected(last) then rest[last.id := last] else rest
  }

  function GetPrivateLayers(table: seq<LayerWms>, ogcServers: set<int>): map<int, LayerWms> {
    ById(table, (layer: LayerWms) => !layer.isPublic && layer.ogcServer in ogcServers)
  }

  function GetProtectedLayers(table: seq<LayerWms>, ogcServers: set<int>, roles: set<int>): map<int, LayerWms> {
    ById(table, (layer: LayerWms) => Granted(layer, roles) && !layer.isPublic && layer.ogcServer in ogcServers)
  }

  /** The private layers of the servers, and those of them that are shared with one of the roles by a restriction area. */
  lemma PrivateAndProtected(table: seq<LayerWms>, ogcServers: set<int>, roles: set<int>, layer: LayerWms)
    requires UniqueIds(table) && layer in table
    ensures var all := GetPrivateLayers(table, ogcServers);
            layer.id in all && all[layer.id] == layer <==> !layer.isPublic && layer.ogcServer in ogcServers
    ensures var shared := GetProtectedLayers(table, ogcServers, roles);
            layer.id in shared && shared[layer.id] == layer
            <==> !layer.isPublic && layer.ogcServer in ogcServers
                 && exists area, r :: area in layer.areas && r in area.roles && r in roles
  {
    if area, r :| area in layer.areas && r in area.roles && r in roles {
      var i :| 0 <= i < |layer.areas| && layer.areas[i] == area;
      assert Granted(layer, roles);
    }
  }

  /** The WMS names of the private layers of the servers that are not shared with the roles. */
  ghost predicate Unshared(table: seq<LayerWms>, ogcServers: set<int>, roles: set<int>, name: string) {
    exists layer :: Remains(table, ogcServers, roles, layer) && name in Split(layer.layer, ',')
  }

  // The structure of the WMS.

  /** A layer as the WMS client sees it: its name, if it has one. The layers around it are its chain of parents. */
  datatype Parents = NoParent | Parent(name: Option<string>, up: Parents)

  predicate InParents(name: Option<string>, parents: Parents) {
    parents.Parent? && (parents.name == name || InParents(name, parents.up))
  }

  /** The named layers in document order, each with the layers around it. */
  function Contents(t: LayerTree, parents: Parents): seq<(string, Parents)>
    decreases t, 1
  {
    (if t.own.None? then [] else [(t.own.value, parents)]) + AllContents(t.kids, Parent(t.own, parents))
  }

  function AllContents(ts: seq<LayerTree>, parents: Parents): seq<(string, Parents)>
    decreases ts, 0
  {
    if ts == [] then [] else Contents(ts[0], parents) + AllContents(ts[1..], parents)
  }

  type Structure = map<Option<string>, seq<string>>

  predicate Lists(s: Structure, name: Option<string>, inside: string) {
    name in s && inside in s[name]
  }

  /** The dictionary that wms_structure grows. */
  class StructureBuilder {
    var result: Structure

    constructor ()
      ensures result == map[]
    {
      result := map[];
    }

    method Fill(name: string, parents: Parents)
      modifies this
      ensures forall outer, inside ::
                Lists(result, outer, inside) <==>
                Lists(old(result), outer, inside) || (inside == name && InParents(outer, parents))
      decreases parents
    {
      if parents.Parent? {
        if parents.name !in result {
          result := result[parents.name := []];
        }
        result := result[parents.name := result[parents.name] + [name]];
        assert forall outer, inside ::
            Lists(result, outer, inside) <==>
            Lists(old(result), outer, inside) || (inside == name && outer == parents.name);
        Fill(name, parents.up);
      }
    }
  }

  /** Each name is listed under the names of the layers around it, and nothing else is listed. */
  ghost predicate IsStructureOf(s: Structure, contents: seq<(string, Parents)>) {
    forall outer, inside ::
      Lists(s, outer, inside) <==>
      exists i :: 0 <= i < |contents| && contents[i].0 == inside && InParents(outer, contents[i].1)
  }

  /** Reading the structure of a WMS. */
  method WmsStructure(contents: seq<(string, Parents)>) returns (result: Structure)
    ensures IsStructureOf(result, contents)
  {
    var builder := new StructureBuilder();
    var k := 0;
    while k < |contents|
      invariant 0 <= k <= |contents|
      invariant forall outer, inside ::
                  Lists(builder.result, outer, inside) <==>
                  exists i :: 0 <= i < k && contents[i].0 == inside && InParents(outer, contents[i].1)
    {
      builder.Fill(contents[k].0, contents[k].1);
      k := k + 1;
    }
    result := builder.result;
  }

  /** Some layer named `inside` is inside a layer named `outer`. */
  ghost predicate IsInside(t: LayerTree, outer: Option<string>, inside: string) {
    exists p: Path, k: nat ::
      k < |p| && HasPath(t, p) && At(t, p).own == Some(inside)
      && HasPath(t, p[..k]) && At(t, p[..k]).own == outer
  }

  /** The chain `parents` with the layers of `t` from its top to above `p`. */
  ghost predicate AboveOrIn(t: LayerTree, p: Path, parents: Parents, outer: Option<string>)
    requires HasPath(t, p)
  {
    InParents(outer, parents) || exists k: nat :: k < |p| && HasPath(t, p[..k]) && At(t, p[..k]).own == outer
  }

  lemma {:induction false} ContentsSound(t: LayerTree, parents: Parents, i: nat, outer: Option<string>) returns (p: Path)
    requires i < |Contents(t, parents)| && InParents(outer, Contents(t, parents)[i].1)
    ensures HasPath(t, p) && At(t, p).own == Some(Contents(t, parents)[i].0) && AboveOrIn(t, p, parents, outer)
    decreases t, 1
  {
    var own := if t.own.None? then 0 else 1;
    if i < own {
      p := [];
    } else {
      var inner := Parent(t.own, parents);
      var j, q := AllContentsSound(t.kids, inner, i - own, outer);
      p := [j] + q;
      if InParents(outer, inner) && !InParents(outer, parents) {
        assert p[..0] == [];
      } else if !InParents(outer, parents) {
        var k: nat :| k < |q| && HasPath(t.kids[j], q[..k]) && At(t.kids[j], q[..k]).own == outer;
        assert p[..k + 1] == [j] + q[..k];
      }
    }
  }

  lemma {:induction false} AllContentsSound(ts: seq<LayerTree>, parents: Parents, i: nat, outer: Option<string>)
    returns (j: nat, p: Path)
    requires i < |AllContents(ts, parents)| && InParents(outer, AllContents(ts, parents)[i].1)
    ensures j < |ts| && HasPath(ts[j], p) && AboveOrIn(ts[j], p, parents, outer)
    ensures At(ts[j], p).own == Some(AllContents(ts, parents)[i].0)
    decreases ts, 0
  {
    var first := Contents(ts[0], parents);
    if i < |first| {
      j := 0;
      p := ContentsSound(ts[0], parents, i, outer);
    } else {
      j, p := AllContentsSound(ts[1..], parents, i - |first|, outer);
      j := j + 1;
    }
  }

  lemma {:induction false} ContentsComplete(t: LayerTree, parents: Parents, p: Path, outer: Option<string>)
    returns (i: nat)
    requires HasPath(t, p) && At(t, p).own.Some? && AboveOrIn(t, p, parents, outer)
    ensures i < |Contents(t, parents)| && Contents(t, parents)[i].0 == At(t, p).own.value
    ensures InParents(outer, Contents(t, parents)[i].1)
    decreases t, 1
  {
    var own := if t.own.None? then 0 else 1;
    if p == [] {
      i := 0;
    } else {
      var inner := Parent(t.own, parents);
      if !InParents(outer, inner) {
        var k: nat :| k < |p| && HasPath(t, p[..k]) && At(t, p[..k]).own == outer;
        assert p[..k][1..] == p[1..][..k - 1];
      }
      var j := AllContentsComplete(t.kids, inner, p[0], p[1..], outer);
      i := j + own;
    }
  }

  lemma {:induction false} AllContentsComplete(ts: seq<LayerTree>, parents: Parents, j: nat, p: Path, outer: Option<string>)
    returns (i: nat)
    requires j < |ts| && HasPath(ts[j], p) && At(ts[j], p).own.Some? && AboveOrIn(ts[j], p, parents, outer)
    ensures i < |AllContents(ts, parents)| && AllContents(ts, parents)[i].0 == At(ts[j], p).own.value
    ensures InParents(outer, AllContents(ts, parents)[i].1)
    decreases ts, 0
  {
    if j == 0 {
      i := ContentsComplete(ts[0], parents, p, outer);
    } else {
      i := AllContentsComplete(ts[1..], parents, j - 1, p, outer);
      i := i + |Contents(ts[0], parents)|;
    }
  }

  /** The structure of a WMS lists under each name the names of all the layers inside. */
  lemma StructureListsDescendants(t: LayerTree, result: Structure, outer: Option<string>, inside: string)
    requires IsStructureOf(result, Contents(t, NoParent))
    ensures Lists(result, outer, inside) <==> IsInside(t, outer, inside)
  {
    var contents := Contents(t, NoParent);
    if Lists(result, outer, inside) {
      var i: nat :| i < |contents| && contents[i].0 == inside && InParents(outer, contents[i].1);
      var p := ContentsSound(t, NoParent, i, outer);
    }
    if IsInside(t, outer, inside) {
      var p: Path, k: nat :|
        k < |p| && HasPath(t, p) && At(t, p).own == Some(inside)
        && HasPath(t, p[..k]) && At(t, p[..k]).own == outer;
      var i := ContentsComplete(t, NoParent, p, outer);
    }
  }

  // The black list.

  ghost predicate Blacklisted(table: seq<LayerWms>, ogcServers: set<int>, roles: set<int>, s: Structure, name: string) {
    Unshared(table, ogcServers, roles, name)
    || exists outer: string :: Unshared(table, ogcServers, roles, outer) && Lists(s, Some(outer), name)
  }

  /** The names the filter hides: those of the unshared private layers, and the names inside them. */
  method PrivateNames(table: seq<LayerWms>, ogcServers: set<int>, roles: set<int>, structure: Structure)
    returns (privateLayers: set<string>)
    requires UniqueIds(table)
    ensures forall name :: name in privateLayers <==> Blacklisted(table, ogcServers, roles, structure, name)
  {
    var gmfPrivateLayers := GetPrivateLayers(table, ogcServers);
    var keys := GetProtectedLayers(table, ogcServers, roles).Keys;
    var todo := keys;
    while todo != {}
      invariant todo <= keys
      invariant forall id :: id in gmfPrivateLayers <==> id in GetPrivateLayers(table, ogcServers) && (id !in keys || id in todo)
      invariant forall id :: id in gmfPrivateLayers ==> gmfPrivateLayers[id] == GetPrivateLayers(table, ogcServers)[id]
      decreases todo
    {
      var id :| id in todo;
      gmfPrivateLayers := gmfPrivateLayers - {id};
      todo := todo - {id};
    }
    privateLayers := AllOgcNames(table, gmfPrivateLayers, structure);
    UnsharedLayers(table, ogcServers, roles, gmfPrivateLayers);
    forall name ensures name in privateLayers <==> Blacklisted(table, ogcServers, roles, structure, name) {
      BlacklistedByLayer(table, ogcServers, roles, structure, name);
      if name in privateLayers {
        var id :| id in gmfPrivateLayers && Hides(gmfPrivateLayers[id], structure, name);
        assert Remains(table, ogcServers, roles, gmfPrivateLayers[id]);
      }
    }
  }

  /** The names of all the layers of a dictionary, which keeps the order of the rows it was made of. */
  method AllOgcNames(table: seq<LayerWms>, layers: map<int, LayerWms>, structure: Structure) returns (names: set<string>)
    requires forall id :: id in layers ==> layers[id] in table && layers[id].id == id
    ensures forall name :: name in names <==> exists id :: id in layers && Hides(layers[id], structure, name)
  {
    names := {};
    var k := 0;
    while k < |table|
      invariant 0 <= k <= |table|
      invariant forall name :: name in names <==>
                  exists i :: 0 <= i < k && InDictionary(layers, table[i]) && Hides(table[i], structure, name)
    {
      if table[k].id in layers && layers[table[k].id] == table[k] {
        var more := OgcNames(table[k], structure);
        names := names + more;
      }
      k := k + 1;
    }
    forall name
      ensures name in names <==> exists id :: id in layers && Hides(layers[id], structure, name)
    {
      if id :| id in layers && Hides(layers[id], structure, name) {
        var i :| 0 <= i < |table| && table[i] == layers[id];
        assert InDictionary(layers, table[i]) && Hides(table[i], structure, name);
      }
      if name in names {
        var i :| 0 <= i < |table| && InDictionary(layers, table[i]) && Hides(table[i], structure, name);
        assert table[i].id in layers && Hides(layers[table[i].id], structure, name);
      }
    }
  }

  predicate InDictionary(layers: map<int, LayerWms>, layer: LayerWms) {
    layer.id in layers && layers[layer.id] == layer
  }

  /** The layer is private, of one of the servers, and not shared with the roles. */
  ghost predicate Remains(table: seq<LayerWms>, ogcServers: set<int>, roles: set<int>, layer: LayerWms) {
    && layer in table && !layer.isPublic && layer.ogcServer in ogcServers
    && forall i, r :: 0 <= i < |layer.areas| && r in roles ==> r !in layer.areas[i].roles
  }

  /** `layer` hides `name`. */
  ghost predicate Hides(layer: LayerWms, s: Structure, name: string) {
    var own := Split(layer.layer, ',');
    name in own || exists outer :: outer in own && Lists(s, Some(outer), name)
  }

  /** The names of one layer, with the names inside them. */
  method OgcNames(layer: LayerWms, structure: Structure) returns (names: set<string>)
    ensures forall name :: name in names <==> Hides(layer, structure, name)
  {
    names := {};
    var own := Split(layer.layer, ',');
    var k := 0;
    while k < |own|
      invariant 0 <= k <= |own|
      invariant forall name :: name in names <==>
                  name in own[..k] || exists outer :: outer in own[..k] && Lists(structure, Some(outer), name)
    {
      assert own[..k + 1] == own[..k] + [own[k]];
      names := names + {own[k]};
      if Some(own[k]) in structure {
        names := names + (set name | name in structure[Some(own[k])]);
      }
      k := k + 1;
    }
    assert own[..k] == own;
  }

  lemma SameRow(table: seq<LayerWms>, a: LayerWms, b: LayerWms)
    requires UniqueIds(table) && a in table && b in table && a.id == b.id
    ensures a == b
  {
    var i :| 0 <= i < |table| && table[i] == a;
    var j :| 0 <= j < |table| && table[j] == b;
  }

  lemma UnsharedLayers(table: seq<LayerWms>, ogcServers: set<int>, roles: set<int>, left: map<int, LayerWms>)
    requires UniqueIds(table)
    requires forall id :: id in left <==> id in GetPrivateLayers(table, ogcServers)
                                          && id !in GetProtectedLayers(table, ogcServers, roles)
    requires forall id :: id in left ==> left[id] == GetPrivateLayers(table, ogcServers)[id]
    ensures forall id :: id in left ==> Remains(table, ogcServers, roles, left[id])
    ensures forall layer :: Remains(table, ogcServers, roles, layer) ==> layer.id in left && left[layer.id] == layer
  {
    var all, granted := GetPrivateLayers(table, ogcServers), GetProtectedLayers(table, ogcServers, roles);
    forall id | id in left ensures Remains(table, ogcServers, roles, left[id]) {
      if Granted(all[id], roles) {
        assert false;
      }
    }
    forall layer | Remains(table, ogcServers, roles, layer) ensures layer.id in left && left[layer.id] == layer {
      if layer.id in granted {
        SameRow(table, layer, granted[layer.id]);
        assert false;
      }
    }
  }

  lemma UnsharedWitness(table: seq<LayerWms>, ogcServers: set<int>, roles: set<int>, name: string)
    returns (layer: LayerWms)
    requires Unshared(table, ogcServers, roles, name)
    ensures Remains(table, ogcServers, roles, layer) && name in Split(layer.layer, ',')
  {
    layer :| Remains(table, ogcServers, roles, layer) && name in Split(layer.layer, ',');
  }

  lemma BlacklistedByLayer(table: seq<LayerWms>, ogcServers: set<int>, roles: set<int>, s: Structure, name: string)
    ensures Blacklisted(table, ogcServers, roles, s, name) <==>
            exists layer :: Remains(table, ogcServers, roles, layer) && Hides(layer, s, name)
  {
    if layer :| Remains(table, ogcServers, roles, layer) && Hides(layer, s, name) {
      assert forall outer :: outer in Split(layer.layer, ',') ==> Unshared(table, ogcServers, roles, outer);
    }
    if Blacklisted(table, ogcServers, roles, s, name) {
      var outer: string :| Unshared(table, ogcServers, roles, outer) && (outer == name || Lists(s, Some(outer), name));
      var layer := UnsharedWitness(table, ogcServers, roles, outer);
      assert Hides(layer, s, name);
    }
  }
}
