/** What the users see of a WMS: which leaf layers are left by the filter with the black list of the private layers. */
module LeafVisibility {
  import opened Wrappers
  import opened Xml
  import opened Names
  import opened Pruning
  import opened LayerTrees
  import opened LayerDocuments
  import opened PrivateLayers
  import CapabilitiesFilter
  import M = FilterMachine

  /** No two layers have the same name, up to case. */
  ghost predicate DistinctNames(t: LayerTree) {
    forall p: Path, q: Path |
        HasPath(t, p) && HasPath(t, q) && At(t, p).own.Some? && At(t, q).own.Some?
        && Lower(At(t, p).own.value) == Lower(At(t, q).own.value)
      :: p == q
  }

  /** Layer names have no name space. */
  ghost predicate PlainNames(t: LayerTree) {
    forall p: Path :: HasPath(t, p) && At(t, p).own.Some? ==> ':' !in At(t, p).own.value
  }

  /** A layer with a name of its own has it before those of its styles, and it is read in one piece. */
  ghost predicate OwnNamesFirst(t: LayerTree) {
    forall p: Path :: HasPath(t, p) ==> OwnNameFirst(At(t, p))
  }

  predicate OwnNameFirst(n: LayerTree) {
    n.own.Some? ==> n.names != [] && n.names[0] == n.own.value
  }

  /** The names of layers are distinct, plain, and come first. */
  ghost predicate ReadableNames(t: LayerTree) {
    DistinctNames(t) && PlainNames(t) && OwnNamesFirst(t)
  }

  /** The place of the first name of a style. */
  function StylesFrom(n: LayerTree): nat {
    if n.own.Some? then 1 else 0
  }

  /** A style of the layer has the name of a layer to hide. */
  predicate StylesBad(c: Config, n: LayerTree) {
    exists i :: StylesFrom(n) <= i < |n.names| && !c.Keeps(n.names[i])
  }

  /** No style has the name of a layer to hide. */
  ghost predicate StylesClear(c: Config, t: LayerTree) {
    forall p: Path :: HasPath(t, p) ==> !StylesBad(c, At(t, p))
  }

  /** The layer at `p` has a private name: in any case, or for the outermost layer exactly when `exactly`. */
  ghost predicate Private(t: LayerTree, p: Path, names: iset<string>, exactly: bool)
    requires HasPath(t, p)
  {
    At(t, p).own.Some?
    && if exactly then At(t, p).own.value in names
       else exists name :: name in names && Lower(name) == Lower(At(t, p).own.value)
  }

  /** The layer at `p` or one around it has a private name. The name of the outermost layer must be given with its
    * exact case to reach the layers inside. */
  ghost predicate UnderPrivate(t: LayerTree, p: Path, names: iset<string>) {
    exists k: nat :: k <= |p| && HasPath(t, p[..k]) && Private(t, p[..k], names, k == 0 && p != [])
  }

  /** The black list holds the private names and the names inside layers with a private name. */
  ghost predicate ClosedBlacklist(t: LayerTree, names: iset<string>, blacklist: set<string>) {
    forall name :: name in blacklist <==>
      name in names || exists outer: string :: outer in names && IsInside(t, Some(outer), name)
  }

  /** The name is private or that of a layer inside one with a private name. */
  ghost predicate HiddenName(t: LayerTree, names: iset<string>, name: string) {
    name in names || exists outer: string :: outer in names && IsInside(t, Some(outer), name)
  }

  /** A text stands for such a name, whatever the case. */
  ghost predicate HiddenText(t: LayerTree, names: iset<string>, text: string) {
    exists own: string, name: string :: StandsFor(text, own) && Lower(name) == Lower(own) && HiddenName(t, names, name)
  }

  lemma KeepsIff(c: Config, t: LayerTree, names: iset<string>, blacklist: set<string>, text: string)
    requires c.policy == Blacklist(LowerAll(blacklist)) && ClosedBlacklist(t, names, blacklist)
    ensures c.Keeps(text) <==> !HiddenText(t, names, text)
  {
    var own := NameOfText(text);
    KeepsName(c, text, own);
    if HiddenText(t, names, text) {
      var other: string, name: string :| StandsFor(text, other) && Lower(name) == Lower(other) && HiddenName(t, names, name);
      KeepsName(c, text, other);
      assert name in blacklist;
    }
    if !c.Keeps(text) {
      var name :| name in blacklist && Lower(name) == Lower(own);
      assert HiddenName(t, names, name);
    }
  }

  /** One of the texts of a layer is hidden. */
  ghost predicate HasHiddenText(t: LayerTree, names: iset<string>, n: LayerTree) {
    exists i :: 0 <= i < |n.names| && HiddenText(t, names, n.names[i])
  }

  /** The exact condition with no assumption on names: a leaf is left exactly when its first text is not hidden and each of
    * the layers around it, but the outermost, has no hidden text and, directly inside, a layer without one. */
  lemma LeafPrintedByTexts(c: Config, t: LayerTree, names: iset<string>, blacklist: set<string>, p: Path)
    requires c.policy == Blacklist(LowerAll(blacklist)) && ClosedBlacklist(t, names, blacklist)
    requires HasPath(t, p) && At(t, p).kids == []
    ensures Printed(c, t, p)
       <==> && At(t, p).names != [] && !HiddenText(t, names, At(t, p).names[0])
            && forall k :: 0 < k < |p| && HasPath(t, p[..k]) ==>
                 && !HasHiddenText(t, names, At(t, p[..k]))
                 && exists j :: 0 <= j < |At(t, p[..k]).kids| && !HasHiddenText(t, names, At(t, p[..k]).kids[j])
  {
    LeafShowsIff(c, t, p);
    forall n: LayerTree ensures Bad(c, n) <==> HasHiddenText(t, names, n) {
      forall text: string ensures c.Keeps(text) <==> !HiddenText(t, names, text) {
        KeepsIff(c, t, names, blacklist, text);
      }
    }
    if At(t, p).names != [] {
      KeepsIff(c, t, names, blacklist, At(t, p).names[0]);
    }
  }

  /** A name stands for a layer on the black list iff the layer has a private name or stands in a layer whose name is
    * private exactly. */
  lemma ListedIff(t: LayerTree, names: iset<string>, blacklist: set<string>, p: Path)
    requires ClosedBlacklist(t, names, blacklist) && DistinctNames(t) && HasPath(t, p) && At(t, p).own.Some?
    ensures Lower(At(t, p).own.value) in LowerAll(blacklist) <==>
              Private(t, p, names, false)
              || exists k: nat :: k < |p| && HasPath(t, p[..k]) && Private(t, p[..k], names, true)
  {
  }

  /** The own name of a layer is on the black list. */
  ghost predicate OwnNameBad(t: LayerTree, p: Path, names: iset<string>)
    requires HasPath(t, p)
  {
    && At(t, p).own.Some?
    && (Private(t, p, names, false)
        || exists k: nat :: k < |p| && HasPath(t, p[..k]) && Private(t, p[..k], names, true))
  }

  /** The layer is bad exactly when its own name or the name of a style is on the list; a named layer may be shown exactly
    * when its own name is not on it. */
  lemma BadIffListed(c: Config, t: LayerTree, names: iset<string>, blacklist: set<string>, p: Path)
    requires c.policy == Blacklist(LowerAll(blacklist)) && ClosedBlacklist(t, names, blacklist)
    requires ReadableNames(t) && HasPath(t, p)
    ensures Bad(c, At(t, p)) <==> OwnNameBad(t, p, names) || StylesBad(c, At(t, p))
    ensures At(t, p).own.Some? ==> (Good(c, At(t, p)) <==> !OwnNameBad(t, p, names))
  {
    var n := At(t, p);
    if n.own.Some? {
      ListedIff(t, names, blacklist, p);
      assert OwnNameFirst(n);
      assert NormalizeTypename(n.names[0]) == Lower(n.names[0]);
      assert c.Keeps(n.names[0]) <==> !OwnNameBad(t, p, names);
    }
  }

  /** A named layer is under a private one exactly when its own name, or that of a layer around it, is bad. */
  lemma UnderPrivateIff(t: LayerTree, names: iset<string>, p: Path)
    requires HasPath(t, p) && At(t, p).own.Some?
    ensures UnderPrivate(t, p, names)
       <==> OwnNameBad(t, p, names) || exists k :: 0 < k < |p| && HasPath(t, p[..k]) && OwnNameBad(t, p[..k], names)
  {
    assert p[..|p|] == p;
    if UnderPrivate(t, p, names) {
      var k: nat :| k <= |p| && HasPath(t, p[..k]) && Private(t, p[..k], names, k == 0 && p != []);
      if 0 < k < |p| {
        assert OwnNameBad(t, p[..k], names);
      }
    }
    forall k: nat | (k == |p| || 0 < k < |p|) && HasPath(t, p[..k]) && OwnNameBad(t, p[..k], names)
      ensures UnderPrivate(t, p, names)
    {
      var here := p[..k];
      if !Private(t, here, names, false) {
        var j: nat :| j < |here| && HasPath(t, here[..j]) && Private(t, here[..j], names, true);
        assert here[..j] == p[..j];
        assert Private(t, p[..j], names, j == 0 && p != []);
      } else {
        assert Private(t, p[..k], names, k == 0 && p != []);
      }
    }
  }

  /** The names of styles do not keep the layers inside from showing. */
  predicate StylesLetThrough(c: Config, n: LayerTree) {
    !StylesBad(c, n) && !AllBad(c, n.kids)
  }

  /** A leaf must be left. If it has a name: neither it nor a layer around it has a private name. If it has none: the name
    * of its first style may be shown, and the own names of the layers around it, but the outermost, are not on the list. In
    * both cases, for each of the layers around it but the outermost, no style has a hidden name and some layer directly
    * inside is not bad. */
  ghost predicate LeafIsOpen(c: Config, t: LayerTree, names: iset<string>, p: Path)
    requires HasPath(t, p)
  {
    && (if At(t, p).own.Some? then !UnderPrivate(t, p, names)
        else Good(c, At(t, p)) && forall k :: 0 < k < |p| && HasPath(t, p[..k]) ==> !OwnNameBad(t, p[..k], names))
    && forall k :: 0 < k < |p| && HasPath(t, p[..k]) ==> StylesLetThrough(c, At(t, p[..k]))
  }

  /** The main result: a leaf layer is left exactly when it is open. */
  lemma LeafPrintedExactly(c: Config, t: LayerTree, names: iset<string>, blacklist: set<string>, p: Path)
    requires c.policy == Blacklist(LowerAll(blacklist)) && ClosedBlacklist(t, names, blacklist)
    requires ReadableNames(t)
    requires HasPath(t, p) && At(t, p).kids == []
    ensures Printed(c, t, p) <==> LeafIsOpen(c, t, names, p)
  {
    LeafShowsIff(c, t, p);
    BadIffListed(c, t, names, blacklist, p);
    forall k | 0 < k < |p| && HasPath(t, p[..k])
      ensures Bad(c, At(t, p[..k])) <==> OwnNameBad(t, p[..k], names) || StylesBad(c, At(t, p[..k]))
    {
      BadIffListed(c, t, names, blacklist, p[..k]);
    }
    if At(t, p).own.Some? {
      UnderPrivateIff(t, names, p);
    }
  }

  /** When no style has a hidden name, a named leaf layer is left iff neither it nor a layer around it has a private name. */
  lemma LeafPrintedIff(c: Config, t: LayerTree, names: iset<string>, blacklist: set<string>, p: Path)
    requires c.policy == Blacklist(LowerAll(blacklist)) && ClosedBlacklist(t, names, blacklist)
    requires ReadableNames(t) && StylesClear(c, t)
    requires HasPath(t, p) && At(t, p).kids == [] && At(t, p).own.Some?
    ensures Printed(c, t, p) <==> !UnderPrivate(t, p, names)
  {
    LeafPrintedExactly(c, t, names, blacklist, p);
    if !UnderPrivate(t, p, names) {
      UnderPrivateIff(t, names, p);
      forall k | 0 < k < |p| && HasPath(t, p[..k]) ensures StylesLetThrough(c, At(t, p[..k])) {
        WayStep(t, p, k);
        BadIffListed(c, t, names, blacklist, p[..k + 1]);
        assert p[..|p|] == p;
        assert !Bad(c, At(t, p[..k]).kids[p[k]]);
      }
    }
  }

  /** Without StylesClear the result fails: a style with a hidden name makes its layer count as rejected, and a group
    * with only such layers does not show. */
  lemma StyleNameHidesGroup(c: Config)
    requires c.policy == Blacklist({"secret"})
    ensures var t := Node(None, [], [Node(None, [], [Node(Some("roads"), ["roads", "secret"], [])])]);
            HasPath(t, [0, 0]) && c.Keeps("roads") && !UnderPrivate(t, [0, 0], iset{"secret"}) && !Printed(c, t, [0, 0])
  {
    var leaf := Node(Some("roads"), ["roads", "secret"], []);
    var group := Node(None, [], [leaf]);
    var t := Node(None, [], [group]);
    assert NormalizeTypename("roads")[0] == 'r' && Lower("secret")[0] == 's';
    assert NormalizeTypename("secret") == "secret";
    assert !c.Keeps(leaf.names[1]);
    var p: Path := [0, 0];
    assert p[1..] == [0] && p[..0] == [] && p[..1] == [0] && p[..2] == p;
    assert At(t, [0]) == group by { assert [0][1..] == []; }
    assert At(group, [0]) == At(leaf, [0][1..]) == leaf;
    assert At(t, p) == At(group, [0]);
    OnlyRejectedAgree(c, t, [0]);
    assert Evaluated(c, t, [0]);
    assert HasOnlyRejected(c, t, [0]);
    assert p[..|p| - 1] == [0];
    forall k: nat | k <= |p| && HasPath(t, p[..k]) ensures !Private(t, p[..k], iset{"secret"}, k == 0 && p != []) {
      assert k == 0 || k == 1 || k == 2;
      assert Lower("roads")[0] == 'r';
    }
  }

  lemma OneLevelInside(t: LayerTree, inner: LayerTree, p: Path)
    requires t.kids == [inner] && inner.kids == [] && HasPath(t, p)
    ensures |p| <= 1
  {
    assert |p| > 0 ==> HasPath(inner, p[1..]);
  }

  /** The private name of the outermost layer written in another case: the layer is rejected, and what is inside shows. */
  lemma OtherCaseShowsInside(c: Config)
    requires c.policy == Blacklist(LowerAll({"ROOT"}))
    ensures var t := Node(Some("Root"), ["Root"], [Node(Some("inner"), ["inner"], [])]);
            && ClosedBlacklist(t, iset{"ROOT"}, {"ROOT"}) && Private(t, [], iset{"ROOT"}, false) && Bad(c, t)
            && HasPath(t, [0]) && Printed(c, t, [0])
  {
    var inner := Node(Some("inner"), ["inner"], []);
    var t := Node(Some("Root"), ["Root"], [inner]);
    assert Lower("ROOT") == Lower("Root") == "root";
    assert NormalizeTypename("Root") == "root" && NormalizeTypename("inner")[0] == 'i' && Lower("ROOT")[0] == 'r';
    assert !c.Keeps(t.names[0]) && c.Keeps(inner.names[0]);
    var p: Path := [0];
    assert p[1..] == [] && At(t, p) == inner;
    LeafShowsIff(c, t, p);
    forall name: string ensures !IsInside(t, Some("ROOT"), name) {
      assert "Root"[1] != "ROOT"[1];
      forall p: Path, k: nat | k < |p| && HasPath(t, p) && HasPath(t, p[..k]) ensures At(t, p[..k]).own != Some("ROOT") {
        OneLevelInside(t, inner, p);
        assert p[..k] == [];
      }
    }
  }

  /** A layer without a name, inside an outermost layer with a private name, shows by the name of its style. */
  lemma NamelessShowsInside(c: Config)
    requires c.policy == Blacklist(LowerAll({"ROOT"}))
    ensures var t := Node(Some("ROOT"), ["ROOT"], [Node(None, ["default"], [])]);
            && ClosedBlacklist(t, iset{"ROOT"}, {"ROOT"}) && UnderPrivate(t, [0], iset{"ROOT"}) && OwnNamesFirst(t)
            && HasPath(t, [0]) && Printed(c, t, [0])
  {
    var inner := Node(None, ["default"], []);
    var t := Node(Some("ROOT"), ["ROOT"], [inner]);
    assert Lower("ROOT")[0] == 'r' && NormalizeTypename("default")[0] == 'd';
    assert c.Keeps(inner.names[0]);
    var p: Path := [0];
    assert p[1..] == [] && At(t, p) == inner && p[..0] == [];
    LeafShowsIff(c, t, p);
    assert Private(t, p[..0], iset{"ROOT"}, true);
    forall q: Path | HasPath(t, q) ensures At(t, q) == t || At(t, q) == inner {
      OneLevelInside(t, inner, q);
      assert q != [] ==> q[1..] == [];
    }
    forall name: string, q: Path, k: nat | k < |q| && HasPath(t, q) && HasPath(t, q[..k]) ensures At(t, q).own != Some(name) {
      OneLevelInside(t, inner, q);
      assert q[1..] == [];
    }
  }

  ghost function UnsharedNames(table: seq<LayerWms>, ogcServers: set<int>, roles: set<int>): iset<string> {
    iset name: string | Unshared(table, ogcServers, roles, name)
  }

  /** The black list made of the structure of the WMS and the rows of the database is closed. */
  lemma PrivateNamesClosed(table: seq<LayerWms>, ogcServers: set<int>, roles: set<int>, t: LayerTree,
                           structure: Structure, blacklist: set<string>)
    requires IsStructureOf(structure, Contents(t, NoParent))
    requires forall name :: name in blacklist <==> Blacklisted(table, ogcServers, roles, structure, name)
    ensures ClosedBlacklist(t, UnsharedNames(table, ogcServers, roles), blacklist)
  {
    forall outer: string, name: string
      ensures Lists(structure, Some(outer), name) <==> IsInside(t, Some(outer), name)
    {
      StructureListsDescendants(t, structure, Some(outer), name);
    }
  }

  // The output.

  /** A layer with this name is in the tree. */
  predicate HasLayer(t: LayerTree, name: string) {
    t.own == Some(name) || exists k :: 0 <= k < |t.kids| && HasLayer(t.kids[k], name)
  }

  predicate HaveLayer(ts: seq<LayerTree>, name: string) {
    exists k :: 0 <= k < |ts| && HasLayer(ts[k], name)
  }

  lemma PrintedKidsStep(c: Config, t: LayerTree, p: Path, kids: seq<LayerTree>, k: nat)
    requires HasPath(t, p) && kids == At(t, p).kids && k < |kids|
    ensures HasPath(t, p + [k]) && At(t, p + [k]) == kids[k]
    ensures Printed(c, t, p + [k]) ==>
              PrintedKids(c, t, p, kids, k) == [PrintedTree(c, t, p + [k])] + PrintedKids(c, t, p, kids, k + 1)
    ensures !Printed(c, t, p + [k]) ==> PrintedKids(c, t, p, kids, k) == PrintedKids(c, t, p, kids, k + 1)
  {
    EvaluatedChild(c, t, p, k);
  }

  lemma {:induction false} PrintedKid(c: Config, t: LayerTree, p: Path, kids: seq<LayerTree>, k: nat, tree: LayerTree)
    returns (j: nat)
    requires HasPath(t, p) && kids == At(t, p).kids && k <= |kids| && tree in PrintedKids(c, t, p, kids, k)
    ensures j < |kids| && HasPath(t, p + [j]) && At(t, p + [j]) == kids[j] && Printed(c, t, p + [j])
    ensures tree == PrintedTree(c, t, p + [j])
    decreases |kids| - k
  {
    PrintedKidsStep(c, t, p, kids, k);
    if Printed(c, t, p + [k]) && tree == PrintedTree(c, t, p + [k]) {
      j := k;
    } else {
      j := PrintedKid(c, t, p, kids, k + 1, tree);
    }
  }

  lemma {:induction false} KidIsPrinted(c: Config, t: LayerTree, p: Path, kids: seq<LayerTree>, k: nat, j: nat)
    requires HasPath(t, p) && kids == At(t, p).kids && k <= j < |kids| && HasPath(t, p + [j]) && Printed(c, t, p + [j])
    ensures PrintedTree(c, t, p + [j]) in PrintedKids(c, t, p, kids, k)
    decreases |kids| - k
  {
    EvaluatedChild(c, t, p, k);
    if k < j {
      KidIsPrinted(c, t, p, kids, k + 1, j);
    }
  }

  lemma KidHasLayer(c: Config, t: LayerTree, p: Path, name: string) returns (j: nat)
    requires HasPath(t, p) && HasLayer(PrintedTree(c, t, p), name) && At(t, p).own != Some(name)
    ensures j < |At(t, p).kids| && HasPath(t, p + [j]) && At(t, p + [j]) == At(t, p).kids[j]
    ensures Printed(c, t, p + [j]) && HasLayer(PrintedTree(c, t, p + [j]), name)
  {
    var kids := PrintedTree(c, t, p).kids;
    var i :| 0 <= i < |kids| && HasLayer(kids[i], name);
    j := PrintedKid(c, t, p, At(t, p).kids, 0, kids[i]);
  }

  /** The layers of the printed tree are layers that show. */
  lemma {:induction false} LayerOfPrinted(c: Config, t: LayerTree, p: Path, name: string) returns (q: Path)
    requires HasPath(t, p) && Printed(c, t, p) && HasLayer(PrintedTree(c, t, p), name)
    ensures HasPath(t, q) && Printed(c, t, q) && At(t, q).own == Some(name)
    decreases At(t, p)
  {
    if At(t, p).own == Some(name) {
      q := p;
    } else {
      var j := KidHasLayer(c, t, p, name);
      q := LayerOfPrinted(c, t, p + [j], name);
    }
  }

  /** The named layers that show are in the printed tree. */
  lemma {:induction false} PrintedHasLayer(c: Config, t: LayerTree, p: Path, q: Path, name: string)
    requires HasPath(t, p) && Printed(c, t, p) && HasPath(t, p + q) && Printed(c, t, p + q)
    requires At(t, p + q).own == Some(name)
    ensures HasLayer(PrintedTree(c, t, p), name)
    decreases |q|
  {
    if q == [] {
      assert p + q == p;
    } else {
      var child := p + [q[0]];
      assert p + q == child + q[1..];
      PathPrefix(t, p, q);
      PrintedAbove(c, t, p + q, |p| + 1);
      assert (p + q)[..|p| + 1] == child;
      PrintedHasLayer(c, t, child, q[1..], name);
      KidIsPrinted(c, t, p, At(t, p).kids, 0, q[0]);
      var kids := PrintedTree(c, t, p).kids;
      var i :| 0 <= i < |kids| && kids[i] == PrintedTree(c, t, child);
      assert HasLayer(kids[i], name);
    }
  }

  /** A named layer is in the output exactly when it shows. */
  lemma LayerInOutput(c: Config, t: LayerTree, p: Path)
    requires DistinctNames(t) && HasPath(t, p) && At(t, p).own.Some?
    ensures HaveLayer(PrintedTrees(c, [t]), At(t, p).own.value) <==> Printed(c, t, p)
  {
    var name := At(t, p).own.value;
    var root: Path := [];
    assert PrintedTrees(c, [t]) == if Printed(c, t, root) then [PrintedTree(c, t, root)] else [];
    assert root + p == p && p[..0] == root;
    if Printed(c, t, p) {
      PrintedAbove(c, t, p, 0);
      PrintedHasLayer(c, t, root, p, name);
      assert HasLayer(PrintedTrees(c, [t])[0], name);
    }
    if HaveLayer(PrintedTrees(c, [t]), name) {
      var q := LayerOfPrinted(c, t, root, name);
    }
  }

  /** Of a document with the layers `t`, the output has, of the named leaves, exactly the open ones. */
  ghost predicate ShowsOpenLeaves(c: Config, t: LayerTree, names: iset<string>, document: Forest) {
    forall p: Path :: HasPath(t, p) && At(t, p).kids == [] && At(t, p).own.Some? ==>
      (HaveLayer(OutermostLayers(c, Pruned(c, document)), At(t, p).own.value) <==> LeafIsOpen(c, t, names, p))
  }

  lemma OpenLeavesShow(c: Config, t: LayerTree, names: iset<string>, blacklist: set<string>, document: Forest)
    requires c.policy == Blacklist(LowerAll(blacklist)) && ClosedBlacklist(t, names, blacklist)
    requires ReadableNames(t)
    requires OutermostLayers(c, Pruned(c, document)) == PrintedTrees(c, [t])
    ensures ShowsOpenLeaves(c, t, names, document)
  {
    forall p: Path | HasPath(t, p) && At(t, p).kids == [] && At(t, p).own.Some?
      ensures HaveLayer(OutermostLayers(c, Pruned(c, document)), At(t, p).own.value) <==> LeafIsOpen(c, t, names, p)
    {
      LayerInOutput(c, t, p);
      LeafPrintedExactly(c, t, names, blacklist, p);
    }
  }

  /** Filtering the capabilities of a WMS with the layers `t` for a user with these roles: what is left of a document that
    * has these layers, with distinct plain names that come first, is of the named leaves exactly those that are open to the
    * user. */
  method FilterCapabilities(table: seq<LayerWms>, ogcServers: set<int>, roles: set<int>, t: LayerTree, tagName: string,
                            events: seq<Event>)
    returns (printed: seq<Event>, unsent: seq<Event>, blacklist: set<string>)
    requires UniqueIds(table) && WellNested(events)
    ensures ClosedBlacklist(t, UnsharedNames(table, ogcServers, roles), blacklist)
    ensures var c := Config(tagName, Blacklist(LowerAll(blacklist)));
            forall document: Forest :: Events(document) == events ==>
              printed + unsent == M.DeliverAll(Events(Pruned(c, document)))
              && (Conforms(c, document) ==>
                    OutermostLayers(c, Pruned(c, document)) == PrintedTrees(c, OutermostLayers(c, document)))
              && (Conforms(c, document) && OutermostLayers(c, document) == [t] && ReadableNames(t) ==>
                    ShowsOpenLeaves(c, t, UnsharedNames(table, ogcServers, roles), document))
  {
    var structure := WmsStructure(Contents(t, NoParent));
    blacklist := PrivateNames(table, ogcServers, roles, structure);
    PrivateNamesClosed(table, ogcServers, roles, t, structure, blacklist);
    var c := Config(tagName, Blacklist(LowerAll(blacklist)));
    printed, unsent := CapabilitiesFilter.Filter(c, events);
    ghost var names := UnsharedNames(table, ogcServers, roles);
    forall document: Forest | Conforms(c, document)
      ensures OutermostLayers(c, Pruned(c, document)) == PrintedTrees(c, OutermostLayers(c, document))
      ensures OutermostLayers(c, document) == [t] && ReadableNames(t) ==> ShowsOpenLeaves(c, t, names, document)
    {
      PrunedLayers(c, document);
      if OutermostLayers(c, document) == [t] && ReadableNames(t) {
        OpenLeavesShow(c, t, names, blacklist, document);
      }
    }
  }
}
