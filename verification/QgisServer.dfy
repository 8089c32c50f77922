/** The access control of one QGIS project as it runs, with its cache of layers and its cache of areas. */
module QgisServer {
  import opened Wrappers
  import opened QgisLayers
  import opened QgisAccess
  import opened RoleKeys

  datatype Key = Key(name: string, ids: seq<nat>, readWrite: bool)

  /** The access areas that the layers and roles give, by nested loops that stop at the first full access. */
  method GetRestrictionAreas(layers: seq<GmfLayer>, readWrite: bool, roles: Roles) returns (access: Access, areas: set<RestrictionArea>)
    ensures (access, areas) == RestrictionAreas(layers, readWrite, roles)
  {
    if roles.Root? {
      return FullAccess, {};
    }
    if !readWrite {
      var k := 0;
      while k < |layers|
        invariant 0 <= k <= |layers| && forall j :: 0 <= j < k ==> !layers[j].isPublic
      {
        if layers[k].isPublic {
          return FullAccess, {};
        }
        k := k + 1;
      }
    }
    if roles.ids == [] {
      return NoAccess, {};
    }
    areas := {};
    var i := 0;
    while i < |layers|
      invariant 0 <= i <= |layers|
      invariant areas == GivingAreas(layers[..i], readWrite, roles.ids)
      invariant forall a :: a in areas ==> a.area.Some?
    {
      var full, more := AreasOfLayer(layers[i], readWrite, roles.ids);
      assert GivingAreas(layers[..i + 1], readWrite, roles.ids)
          == GivingAreas(layers[..i], readWrite, roles.ids) + GivingAreas([layers[i]], readWrite, roles.ids) by {
        GivingMore(layers, i, readWrite, roles.ids);
      }
      if full {
        GivingPart(layers, i, readWrite, roles.ids);
        return FullAccess, {};
      }
      areas := areas + more;
      i := i + 1;
    }
    assert layers[..i] == layers;
    access := if areas == {} then NoAccess else AreaAccess;
  }

  lemma GivingMore(layers: seq<GmfLayer>, i: nat, readWrite: bool, ids: seq<nat>)
    requires i < |layers|
    ensures GivingAreas(layers[..i + 1], readWrite, ids)
         == GivingAreas(layers[..i], readWrite, ids) + GivingAreas([layers[i]], readWrite, ids)
  {
    forall a ensures HasArea(layers[..i + 1], a) <==> HasArea(layers[..i], a) || HasArea([layers[i]], a) {
      var part, more := layers[..i], layers[..i + 1];
      if k :| 0 <= k < |more| && a in more[k].areas {
        assert k < i ==> part[k] == layers[k];
        assert [layers[i]][0] == layers[i];
      }
      if k :| 0 <= k < |part| && a in part[k].areas {
        assert more[k] == layers[k];
      }
      if a in layers[i].areas {
        assert layers[..i + 1][i] == layers[i];
      }
    }
  }

  lemma GivingPart(layers: seq<GmfLayer>, i: nat, readWrite: bool, ids: seq<nat>)
    requires i < |layers|
    ensures GivingAreas([layers[i]], readWrite, ids) <= GivingAreas(layers, readWrite, ids)
  {
  }

  /** The areas of one layer; `full` when one of them is unlimited. */
  method AreasOfLayer(l: GmfLayer, readWrite: bool, ids: seq<nat>) returns (full: bool, areas: set<RestrictionArea>)
    ensures full ==> exists a :: a in GivingAreas([l], readWrite, ids) && a.area.None?
    ensures !full ==> areas == GivingAreas([l], readWrite, ids) && forall a :: a in areas ==> a.area.Some?
  {
    areas := {};
    var i := 0;
    while i < |l.areas|
      invariant 0 <= i <= |l.areas|
      invariant areas == set j | 0 <= j < i && Gives(l.areas[j], readWrite, ids) :: l.areas[j]
      invariant forall a :: a in areas ==> a.area.Some?
    {
      var a := l.areas[i];
      var k := 0;
      var gives := false;
      while k < |ids|
        invariant 0 <= k <= |ids|
        invariant gives <==> Gives(a, readWrite, ids[..k])
        invariant gives ==> a.area.Some?
      {
        GivesMore(a, readWrite, ids, k);
        if ids[k] in a.roles && (!readWrite || a.readwrite) {
          gives := true;
          if a.area.None? {
            GivesSome(a, readWrite, ids, k);
            assert HasArea([l], a) by {
              assert a in [l][0].areas;
            }
            return true, {};
          }
        }
        k := k + 1;
      }
      assert ids[..k] == ids;
      if gives {
        areas := areas + {a};
      }
      i := i + 1;
    }
    full := false;
    forall a ensures a in areas <==> a in GivingAreas([l], readWrite, ids) {
      if HasArea([l], a) {
        assert a in l.areas;
        var j :| 0 <= j < |l.areas| && l.areas[j] == a;
      }
      if a in areas {
        assert a in [l][0].areas;
      }
    }
  }

  lemma GivesMore(a: RestrictionArea, readWrite: bool, ids: seq<nat>, k: nat)
    requires k < |ids|
    ensures Gives(a, readWrite, ids[..k + 1])
       <==> Gives(a, readWrite, ids[..k]) || (ids[k] in a.roles && (readWrite ==> a.readwrite))
  {
  }

  lemma GivesSome(a: RestrictionArea, readWrite: bool, ids: seq<nat>, k: nat)
    requires k < |ids| && ids[k] in a.roles && (readWrite ==> a.readwrite)
    ensures Gives(a, readWrite, ids)
  {
  }

  /** The cache holds what would be computed now. */
  ghost predicate CacheRight(table: LayerTable, cache: map<Key, Answer>) {
    forall key {:trigger CacheEntryRight(table, cache, key)} :: key in cache ==> CacheEntryRight(table, cache, key)
  }

  ghost predicate CacheEntryRight(table: LayerTable, cache: map<Key, Answer>, key: Key)
    requires key in cache
  {
    GetArea(table, key.name, key.readWrite, Ids(key.ids)) == Ok(cache[key])
  }

  lemma CacheMore(table: LayerTable, cache: map<Key, Answer>, name: string, ids: seq<nat>, readWrite: bool, answer: Answer)
    requires CacheRight(table, cache) && GetArea(table, name, readWrite, Ids(ids)) == Ok(answer)
    ensures CacheRight(table, cache[Key(name, Sort(ids), readWrite) := answer])
  {
    KeyGivesAnswer(table, name, readWrite, ids);
    var more := cache[Key(name, Sort(ids), readWrite) := answer];
    forall key | key in more ensures CacheEntryRight(table, more, key) {
      if key in cache {
        assert CacheEntryRight(table, cache, key);
      }
    }
  }

  lemma CachedAnswer(table: LayerTable, cache: map<Key, Answer>, name: string, ids: seq<nat>, readWrite: bool)
    requires CacheRight(table, cache) && Key(name, Sort(ids), readWrite) in cache
    ensures GetArea(table, name, readWrite, Ids(ids)) == Ok(cache[Key(name, Sort(ids), readWrite)])
  {
    KeyGivesAnswer(table, name, readWrite, ids);
    assert CacheEntryRight(table, cache, Key(name, Sort(ids), readWrite));
  }

  /** The answer of the restriction areas. */
  method ComputeArea(layers: seq<GmfLayer>, readWrite: bool, roles: Roles) returns (answer: Answer)
    ensures answer == AreaOf(layers, readWrite, roles)
  {
    var access, areas := GetRestrictionAreas(layers, readWrite, roles);
    answer := Answer(access, if access == AreaAccess then Union(areas) else {});
  }

  class OGCServerAccessControl {
    // The OGC server of the project is in the database.
    const known: bool
    const tree: Node
    const db: seq<GmfLayer>
    var layers: Option<LayerTable>
    var areaCache: map<Key, Answer>

    /** The table of the layers of the project; no layers without the OGC server. */
    function Table(): LayerTable {
      if known then TableOf(Browse(map[], [], tree), db) else map[]
    }

    /** The caches hold what would be computed now. */
    ghost predicate Valid()
      reads this
    {
      (layers.Some? ==> layers.value == Table()) && CacheRight(Table(), areaCache)
    }

    constructor (known: bool, tree: Node, db: seq<GmfLayer>)
      ensures Valid() && this.known == known && this.tree == tree && this.db == db
    {
      this.known, this.tree, this.db := known, tree, db;
      layers, areaCache := None, map[];
    }

    method GetLayers() returns (table: LayerTable)
      requires Valid()
      modifies `layers
      ensures Valid() && table == Table()
    {
      if !known {
        return map[];
      }
      if layers.Some? {
        return layers.value;
      }
      var nodes := new NodeTable();
      nodes.BrowseNode([], tree);
      table := TransformNames(nodes.nodes, db);
      layers := Some(table);
    }

    /** The access area of a layer, from the cache if the key is there. Whatever was asked before, the answer is the one
      * that would be computed anew. */
    method GetAccessArea(name: string, roles: Roles, readWrite: bool) returns (answer: Result<Answer, Error>)
      requires Valid()
      modifies this
      ensures Valid()
      ensures answer == GetArea(Table(), name, readWrite, roles)
      ensures answer.Err? <==> roles.Ids? && name !in Table()
      ensures answer.Ok? ==> IsRight(answer.value, Entry(Table(), name), readWrite, roles)
    {
      AreaIsRight(Table(), name, readWrite, roles);
      if roles.Root? {
        return Ok(Answer(FullAccess, {}));
      }
      var key := Key(name, Sort(roles.ids), readWrite);
      if key in areaCache {
        CachedAnswer(Table(), areaCache, name, roles.ids, readWrite);
        return Ok(areaCache[key]);
      }
      var table := GetLayers();
      if name !in table {
        return Err(UnknownLayer);
      }
      var computed := ComputeArea(table[name], readWrite, roles);
      CacheMore(Table(), areaCache, name, roles.ids, readWrite, computed);
      areaCache := areaCache[key := computed];
      answer := Ok(computed);
    }

    method Permissions(name: string, roles: Roles) returns (rights: Rights)
      requires Valid()
      modifies `layers
      ensures Valid()
      ensures rights == LayerPermissions(known, Table(), name, roles)
      ensures AreRights(rights, known, Table(), name, roles)
    {
      RightsAre(known, Table(), name, roles);
      rights := Rights(false, false, false, false);
      if !known {
        return;
      }
      if roles.Root? {
        rights := rights.(canRead := true);
      }
      var table := GetLayers();
      if name !in table {
        return;
      }
      var access, areas := GetRestrictionAreas(table[name], false, roles);
      if access != NoAccess {
        rights := rights.(canRead := true);
      }
      access, areas := GetRestrictionAreas(table[name], true, roles);
      var write := access != NoAccess;
      rights := rights.(canInsert := write, canUpdate := write, canDelete := write);
    }

    method MayEdit(name: string, roles: Roles, feature: set<Point>) returns (allowed: Result<bool, Error>)
      requires Valid()
      modifies this
      ensures Valid()
      ensures allowed == AllowToEdit(known, Table(), name, roles, feature)
      ensures IsDecision(allowed, known, Table(), name, roles, feature)
    {
      EditIff(known, Table(), name, roles, feature);
      if !known {
        return Ok(false);
      }
      var answer := GetAccessArea(name, roles, true);
      if answer.Err? {
        return Err(UnknownLayer);
      }
      if answer.value.access == FullAccess {
        return Ok(true);
      }
      if answer.value.access == NoAccess {
        return Ok(false);
      }
      allowed := Ok(answer.value.area * feature != {});
    }
  }
}
