/** The access of a user to the layers of a QGIS project, by restriction areas and roles. */
module QgisAccess {
  import opened Wrappers
  import opened QgisLayers
  import opened RoleKeys

  datatype Access = NoAccess | AreaAccess | FullAccess

  datatype Answer = Answer(access: Access, area: set<Point>)

  datatype Error = UnknownLayer

  // The meaning.

  /** A restriction area of one of the layers names one of the roles of the user; for writing it must allow that. */
  ghost predicate Opens(layers: seq<GmfLayer>, readWrite: bool, roles: Roles, a: RestrictionArea) {
    roles.Ids? && (readWrite ==> a.readwrite)
    && exists l, id :: l in layers && a in l.areas && id in roles.ids && id in a.roles
  }

  /** Everything for root, and public layers for reading. */
  ghost predicate OpenToAll(layers: seq<GmfLayer>, readWrite: bool, roles: Roles) {
    roles.Root? || (!readWrite && exists l :: l in layers && l.isPublic)
  }

  /** What the user may read or write: an area without a geometry has no limit. */
  ghost predicate MayAccess(layers: seq<GmfLayer>, readWrite: bool, roles: Roles, p: Point) {
    || OpenToAll(layers, readWrite, roles)
    || exists a :: Opens(layers, readWrite, roles, a) && (a.area.Some? ==> p in a.area.value)
  }

  /** Something gives access to the user. */
  ghost predicate HasAccess(layers: seq<GmfLayer>, readWrite: bool, roles: Roles) {
    OpenToAll(layers, readWrite, roles) || exists a :: Opens(layers, readWrite, roles, a)
  }

  /** Something gives access without a limit. */
  ghost predicate Unlimited(layers: seq<GmfLayer>, readWrite: bool, roles: Roles) {
    OpenToAll(layers, readWrite, roles) || exists a :: Opens(layers, readWrite, roles, a) && a.area.None?
  }

  // The answer.

  /** A restriction area gives access to one of the roles; writing needs its flag. */
  predicate Gives(a: RestrictionArea, readWrite: bool, ids: seq<nat>) {
    (exists k :: 0 <= k < |ids| && ids[k] in a.roles) && (readWrite ==> a.readwrite)
  }

  predicate HasArea(layers: seq<GmfLayer>, a: RestrictionArea) {
    exists k :: 0 <= k < |layers| && a in layers[k].areas
  }

  predicate IsPublic(layers: seq<GmfLayer>) {
    exists k :: 0 <= k < |layers| && layers[k].isPublic
  }

  /** The restriction areas of the layers that give access. */
  function GivingAreas(layers: seq<GmfLayer>, readWrite: bool, ids: seq<nat>): (areas: set<RestrictionArea>)
    ensures forall a :: a in areas <==> HasArea(layers, a) && Gives(a, readWrite, ids)
  {
    set k, a | 0 <= k < |layers| && a in layers[k].areas && Gives(a, readWrite, ids) :: a
  }

  function Union(areas: set<RestrictionArea>): set<Point> {
    set a, p | a in areas && a.area.Some? && p in a.area.value :: p
  }

  function RestrictionAreas(layers: seq<GmfLayer>, readWrite: bool, roles: Roles): (Access, set<RestrictionArea>) {
    if roles.Root? || (!readWrite && IsPublic(layers)) then (FullAccess, {})
    else
      var areas := GivingAreas(layers, readWrite, roles.ids);
      if exists a :: a in areas && a.area.None? then (FullAccess, {})
      else if areas == {} then (NoAccess, {})
      else (AreaAccess, areas)
  }

  function AreaOf(layers: seq<GmfLayer>, readWrite: bool, roles: Roles): Answer {
    var (access, areas) := RestrictionAreas(layers, readWrite, roles);
    Answer(access, if access == AreaAccess then Union(areas) else {})
  }

  /** What an answer allows. */
  predicate Allows(answer: Answer, p: Point) {
    match answer.access
    case NoAccess => false
    case AreaAccess => p in answer.area
    case FullAccess => true
  }

  lemma OpensIff(layers: seq<GmfLayer>, readWrite: bool, ids: seq<nat>, a: RestrictionArea)
    ensures Opens(layers, readWrite, Ids(ids), a) <==> HasArea(layers, a) && Gives(a, readWrite, ids)
  {
    if HasArea(layers, a) && Gives(a, readWrite, ids) {
      var k :| 0 <= k < |layers| && a in layers[k].areas;
      var i :| 0 <= i < |ids| && ids[i] in a.roles;
      assert layers[k] in layers && ids[i] in ids;
    }
  }

  lemma OpenToAllIff(layers: seq<GmfLayer>, readWrite: bool, roles: Roles)
    ensures OpenToAll(layers, readWrite, roles) <==> roles.Root? || (!readWrite && IsPublic(layers))
  {
    if IsPublic(layers) {
      var k :| 0 <= k < |layers| && layers[k].isPublic;
      assert layers[k] in layers;
    }
  }

  /** The answer allows exactly the points that the user may access; it is "no" exactly when nothing gives access, and "full"
    * exactly when something gives it without a limit. */
  lemma AnswerIsRight(layers: seq<GmfLayer>, readWrite: bool, roles: Roles, p: Point)
    ensures Allows(AreaOf(layers, readWrite, roles), p) <==> MayAccess(layers, readWrite, roles, p)
    ensures AreaOf(layers, readWrite, roles).access != NoAccess <==> HasAccess(layers, readWrite, roles)
    ensures AreaOf(layers, readWrite, roles).access == FullAccess <==> Unlimited(layers, readWrite, roles)
  {
    OpenToAllIff(layers, readWrite, roles);
    if roles.Ids? {
      forall a ensures Opens(layers, readWrite, roles, a) <==> a in GivingAreas(layers, readWrite, roles.ids) {
        OpensIff(layers, readWrite, roles.ids, a);
      }
    }
  }

  /** Only the sets of roles and of areas matter, not their orders. */
  lemma OrderDoesNotMatter(layers: seq<GmfLayer>, others: seq<GmfLayer>, readWrite: bool, a: seq<nat>, b: seq<nat>)
    requires SameMembers(a, b) && IsPublic(layers) == IsPublic(others)
    requires forall area :: HasArea(layers, area) <==> HasArea(others, area)
    ensures RestrictionAreas(layers, readWrite, Ids(a)) == RestrictionAreas(others, readWrite, Ids(b))
    ensures AreaOf(layers, readWrite, Ids(a)) == AreaOf(others, readWrite, Ids(b))
  {
    forall area ensures Gives(area, readWrite, a) <==> Gives(area, readWrite, b) {
      if k :| 0 <= k < |a| && a[k] in area.roles {
        assert a[k] in b;
        var j :| 0 <= j < |b| && b[j] == a[k];
      }
      if k :| 0 <= k < |b| && b[k] in area.roles {
        assert b[k] in a;
        var j :| 0 <= j < |a| && a[j] == b[k];
      }
    }
    assert GivingAreas(layers, readWrite, a) == GivingAreas(others, readWrite, b);
  }

  function Rank(access: Access): nat {
    match access
    case NoAccess => 0
    case AreaAccess => 1
    case FullAccess => 2
  }

  /** No less access: no lower mode, and no point less. */
  ghost predicate AtLeast(more: Answer, less: Answer) {
    Rank(less.access) <= Rank(more.access) && forall p :: Allows(less, p) ==> Allows(more, p)
  }

  lemma PublicAmongMore(layers: seq<GmfLayer>, more: seq<GmfLayer>)
    requires forall l :: l in layers ==> l in more
    ensures IsPublic(layers) ==> IsPublic(more)
  {
    if k :| 0 <= k < |layers| && layers[k].isPublic {
      assert layers[k] in more;
      var j :| 0 <= j < |more| && more[j] == layers[k];
    }
  }

  /** More roles, more layers or reading instead of writing never give less access. */
  lemma MoreGivesMore(layers: seq<GmfLayer>, more: seq<GmfLayer>, readWrite: bool, less: bool, a: seq<nat>, b: seq<nat>)
    requires (forall l :: l in layers ==> l in more) && (forall id :: id in a ==> id in b) && (less ==> readWrite)
    ensures AtLeast(AreaOf(more, less, Ids(b)), AreaOf(layers, readWrite, Ids(a)))
  {
    PublicAmongMore(layers, more);
    if !(!less && IsPublic(more)) {
      var small, large := GivingAreas(layers, readWrite, a), GivingAreas(more, less, b);
      forall area | area in small ensures area in large {
        var k :| 0 <= k < |layers| && area in layers[k].areas;
        assert layers[k] in more;
        var j :| 0 <= j < |more| && more[j] == layers[k];
        var i :| 0 <= i < |a| && a[i] in area.roles;
        assert a[i] in b;
        var m :| 0 <= m < |b| && b[m] == a[i];
      }
      assert Union(small) <= Union(large);
    }
  }

  /** Write access never exceeds read access. */
  lemma WriteIsReadable(layers: seq<GmfLayer>, roles: Roles)
    ensures AtLeast(AreaOf(layers, false, roles), AreaOf(layers, true, roles))
  {
  }

  /** Access to a group of the project is at least access to everything below it. */
  lemma GroupAccessGoesDown(tree: Node, db: seq<GmfLayer>, way: Way, more: Way, readWrite: bool, roles: Roles)
    requires DistinctNames(tree) && IsWay(tree, way + more)
    ensures IsWay(tree, way)
    ensures var layers := TableOf(Browse(map[], [], tree), db);
            AtLeast(AreaOf(Entry(layers, NameAt(tree, way + more)), readWrite, roles),
                    AreaOf(Entry(layers, NameAt(tree, way)), readWrite, roles))
  {
    var layers := TableOf(Browse(map[], [], tree), db);
    AboveLonger(tree, way, more);
    forall l | l in Entry(layers, NameAt(tree, way)) ensures l in Entry(layers, NameAt(tree, way + more)) {
      LayersOfGroup(tree, db, way, more, l);
    }
    if roles.Ids? {
      MoreGivesMore(Entry(layers, NameAt(tree, way)), Entry(layers, NameAt(tree, way + more)), readWrite, readWrite,
                    roles.ids, roles.ids);
    }
  }

  // The rights, for a project whose OGC server is known or not.

  datatype Rights = Rights(canRead: bool, canInsert: bool, canUpdate: bool, canDelete: bool)

  /** The access area of a layer of the project; an error for a layer that no GeoMapFish layer names. */
  function GetArea(layers: LayerTable, name: string, readWrite: bool, roles: Roles): Result<Answer, Error> {
    if roles.Root? then Ok(Answer(FullAccess, {}))
    else if name !in layers then Err(UnknownLayer)
    else Ok(AreaOf(layers[name], readWrite, roles))
  }

  function LayerPermissions(known: bool, layers: LayerTable, name: string, roles: Roles): Rights {
    if !known then Rights(false, false, false, false)
    else if name !in layers then Rights(roles.Root?, false, false, false)
    else
      var write := AreaOf(layers[name], true, roles).access != NoAccess;
      Rights(roles.Root? || AreaOf(layers[name], false, roles).access != NoAccess, write, write, write)
  }

  function AllowToEdit(known: bool, layers: LayerTable, name: string, roles: Roles, feature: set<Point>): Result<bool, Error> {
    if !known then Ok(false)
    else
      match GetArea(layers, name, true, roles)
      case Err(e) => Err(e)
      case Ok(answer) =>
        Ok(match answer.access
           case FullAccess => true
           case NoAccess => false
           case AreaAccess => answer.area * feature != {})
  }

  /** The area that a request gets, in both modes: an error exactly for other users than root on layers that are not known,
    * and otherwise what the user may access. */
  lemma AreaIsRight(layers: LayerTable, name: string, readWrite: bool, roles: Roles)
    ensures var area := GetArea(layers, name, readWrite, roles);
            && (area.Err? <==> roles.Ids? && name !in layers)
            && (area.Ok? ==> IsRight(area.value, Entry(layers, name), readWrite, roles))
  {
    if name in layers {
      forall p ensures Allows(AreaOf(layers[name], readWrite, roles), p) <==> MayAccess(layers[name], readWrite, roles, p) {
        AnswerIsRight(layers[name], readWrite, roles, p);
      }
      AnswerIsRight(layers[name], readWrite, roles, (0.0, 0.0));
    }
  }

  /** The answer says what the user may access. */
  ghost predicate IsRight(answer: Answer, layers: seq<GmfLayer>, readWrite: bool, roles: Roles) {
    && (forall p :: Allows(answer, p) <==> MayAccess(layers, readWrite, roles, p))
    && (answer.access != NoAccess <==> HasAccess(layers, readWrite, roles))
    && (answer.access == FullAccess <==> Unlimited(layers, readWrite, roles))
  }

  /** The rights: none for a project that is not known; on a layer that is not known root may read; otherwise a layer may be
    * read with read access, and changed in all ways with write access. */
  lemma RightsAre(known: bool, layers: LayerTable, name: string, roles: Roles)
    ensures AreRights(LayerPermissions(known, layers, name, roles), known, layers, name, roles)
  {
    if name in layers {
      AnswerIsRight(layers[name], false, roles, (0.0, 0.0));
      AnswerIsRight(layers[name], true, roles, (0.0, 0.0));
    }
  }

  ghost predicate AreRights(rights: Rights, known: bool, layers: LayerTable, name: string, roles: Roles) {
    var write := known && name in layers && HasAccess(layers[name], true, roles);
    && (rights.canRead <==> known && (roles.Root? || (name in layers && HasAccess(layers[name], false, roles))))
    && rights.canInsert == rights.canUpdate == rights.canDelete == write
  }

  /** Editing: never on a project that is not known, an error for other users than root on layers that are not known, and
    * otherwise exactly when the user may write at a point of the feature, or anywhere. */
  lemma EditIff(known: bool, layers: LayerTable, name: string, roles: Roles, feature: set<Point>)
    ensures IsDecision(AllowToEdit(known, layers, name, roles, feature), known, layers, name, roles, feature)
  {
    if known {
      AreaIsRight(layers, name, true, roles);
      var area := GetArea(layers, name, true, roles);
      if area.Ok? {
        var answer := area.value;
        if answer.access == AreaAccess && answer.area * feature != {} {
          var p :| p in answer.area * feature;
          assert Allows(answer, p);
        }
        if p :| p in feature && MayAccess(Entry(layers, name), true, roles, p) {
          assert Allows(answer, p);
          assert answer.access == AreaAccess ==> p in answer.area * feature;
        }
      }
    }
  }

  ghost predicate IsDecision(allowed: Result<bool, Error>, known: bool, layers: LayerTable, name: string, roles: Roles,
                             feature: set<Point>)
  {
    && (allowed.Err? <==> known && roles.Ids? && name !in layers)
    && (allowed.Ok? ==>
          (allowed.value <==>
           known && (Unlimited(Entry(layers, name), true, roles)
                     || exists p :: p in feature && MayAccess(Entry(layers, name), true, roles, p))))
  }

  /** Whatever may be edited may also be updated, exactly for projects that are not known, layers that are, and other users
    * than root. */
  lemma EditNeedsUpdate(known: bool, layers: LayerTable, name: string, roles: Roles, feature: set<Point>)
    ensures (AllowToEdit(known, layers, name, roles, feature) == Ok(true)
             ==> LayerPermissions(known, layers, name, roles).canUpdate)
       <==> !known || name in layers || roles.Ids?
  {
  }

  /** On a layer that is not known, root may edit a feature though the rights say that it cannot be updated. */
  lemma RootEditsUnknown(layers: LayerTable, name: string, feature: set<Point>)
    requires name !in layers
    ensures AllowToEdit(true, layers, name, Root, feature) == Ok(true)
    ensures !LayerPermissions(true, layers, name, Root).canUpdate
  {
  }

  /** The key of the cache: the sorted ids give the answer of the roles. */
  lemma KeyGivesAnswer(layers: LayerTable, name: string, readWrite: bool, ids: seq<nat>)
    ensures GetArea(layers, name, readWrite, Ids(Sort(ids))) == GetArea(layers, name, readWrite, Ids(ids))
  {
    SortMembers(ids);
    if name in layers {
      OrderDoesNotMatter(layers[name], layers[name], readWrite, Sort(ids), ids);
    }
  }

  /** Requests with the same cache key have the same access to every layer. */
  lemma SameKeySameAccess(layers: LayerTable, host: string, other: string, a: Roles, b: Roles, name: string, readWrite: bool,
                          feature: set<Point>)
    requires (a.Ids? ==> Distinct(a.ids)) && (b.Ids? ==> Distinct(b.ids)) && CacheKey(host, a) == CacheKey(other, b)
    ensures GetArea(layers, name, readWrite, a) == GetArea(layers, name, readWrite, b)
    ensures LayerPermissions(true, layers, name, a) == LayerPermissions(true, layers, name, b)
    ensures AllowToEdit(true, layers, name, a, feature) == AllowToEdit(true, layers, name, b, feature)
  {
    CacheKeyIff(host, other, a, b);
    if a.Ids? && name in layers {
      OrderDoesNotMatter(layers[name], layers[name], true, a.ids, b.ids);
      OrderDoesNotMatter(layers[name], layers[name], false, a.ids, b.ids);
    }
  }
}
