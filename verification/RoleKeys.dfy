/** The keys of the caches of QGIS server: role ids, sorted and printed. */
module RoleKeys {
  import Names

  /** The roles of a request: everything for the user 0, otherwise distinct roles by id. */
  datatype Roles = Root | Ids(ids: seq<nat>)

  predicate Distinct(ids: seq<nat>) {
    forall i, j :: 0 <= i < j < |ids| ==> ids[i] != ids[j]
  }

  ghost predicate SameMembers(a: seq<nat>, b: seq<nat>) {
    forall id :: id in a <==> id in b
  }

  // Sorting.

  predicate Sorted(ids: seq<nat>) {
    forall i, j :: 0 <= i < j < |ids| ==> ids[i] <= ids[j]
  }

  function Insert(id: nat, sorted: seq<nat>): (after: seq<nat>)
    ensures multiset(after) == multiset(sorted) + multiset{id}
  {
    if sorted == [] || id <= sorted[0] then [id] + sorted
    else
      assert sorted == [sorted[0]] + sorted[1..];
      [sorted[0]] + Insert(id, sorted[1..])
  }

  lemma {:induction false} InsertSorted(id: nat, sorted: seq<nat>)
    requires Sorted(sorted)
    ensures Sorted(Insert(id, sorted))
  {
    if sorted != [] && id > sorted[0] {
      InsertSorted(id, sorted[1..]);
      var rest := Insert(id, sorted[1..]);
      forall k | 0 <= k < |rest| ensures sorted[0] <= rest[k] {
        assert rest[k] in multiset(rest);
        assert rest[k] == id || rest[k] in sorted[1..];
      }
    }
  }

  function Sort(ids: seq<nat>): (sorted: seq<nat>)
    ensures Sorted(sorted) && multiset(sorted) == multiset(ids)
  {
    if ids == [] then []
    else
      assert ids == [ids[0]] + ids[1..];
      InsertSorted(ids[0], Sort(ids[1..]));
      Insert(ids[0], Sort(ids[1..]))
  }

  lemma SortMembers(ids: seq<nat>)
    ensures SameMembers(Sort(ids), ids)
  {
    forall id ensures id in Sort(ids) <==> id in ids {
      assert id in Sort(ids) <==> id in multiset(Sort(ids));
      assert id in ids <==> id in multiset(ids);
    }
  }

  lemma {:induction false} DistinctOnce(ids: seq<nat>, id: nat)
    requires Distinct(ids)
    ensures multiset(ids)[id] <= 1
  {
    if ids != [] {
      assert ids == [ids[0]] + ids[1..];
      DistinctOnce(ids[1..], id);
      assert ids[0] !in ids[1..];
      if id == ids[0] {
        assert id !in multiset(ids[1..]);
      }
    }
  }

  lemma Twice(ids: seq<nat>, i: nat, j: nat)
    requires i < j < |ids| && ids[i] == ids[j]
    ensures multiset(ids)[ids[i]] >= 2
  {
    assert ids == ids[..j] + [ids[j]] + ids[j + 1..];
    assert ids[..j][i] == ids[i];
  }

  lemma SortDistinct(ids: seq<nat>)
    requires Distinct(ids)
    ensures Distinct(Sort(ids))
  {
    var sorted := Sort(ids);
    forall i, j | 0 <= i < j < |sorted| ensures sorted[i] != sorted[j] {
      DistinctOnce(ids, sorted[i]);
      if sorted[i] == sorted[j] {
        Twice(sorted, i, j);
      }
    }
  }

  lemma {:induction false} SortedSame(a: seq<nat>, b: seq<nat>)
    requires Sorted(a) && Sorted(b) && Distinct(a) && Distinct(b) && SameMembers(a, b)
    ensures a == b
  {
    if a == [] {
      assert forall k :: 0 <= k < |b| ==> b[k] in b;
    } else {
      assert a[0] in b && b[0] in a;
      var i :| 0 <= i < |b| && b[i] == a[0];
      var j :| 0 <= j < |a| && a[j] == b[0];
      assert a[0] == b[0];
      forall id ensures id in a[1..] <==> id in b[1..] {
        assert id in a <==> id == a[0] || id in a[1..];
        assert id in b <==> id == b[0] || id in b[1..];
        assert a[0] !in a[1..] && b[0] !in b[1..];
      }
      SortedSame(a[1..], b[1..]);
    }
  }

  /** Sorting makes a key of the set of roles. */
  lemma SortIff(a: seq<nat>, b: seq<nat>)
    requires Distinct(a) && Distinct(b)
    ensures Sort(a) == Sort(b) <==> SameMembers(a, b)
  {
    SortMembers(a);
    SortMembers(b);
    if SameMembers(a, b) {
      SortDistinct(a);
      SortDistinct(b);
      SortedSame(Sort(a), Sort(b));
    }
  }

  // Printing.

  function Digit(n: nat): char
    requires n < 10
  {
    '0' + n as char
  }

  function Decimal(n: nat): (s: string)
    ensures s != [] && (|s| == 1 <==> n < 10) && forall k :: 0 <= k < |s| ==> '0' <= s[k] <= '9'
  {
    if n < 10 then [Digit(n)] else Decimal(n / 10) + [Digit(n % 10)]
  }

  lemma {:induction false} DecimalInjective(a: nat, b: nat)
    requires Decimal(a) == Decimal(b)
    ensures a == b
    decreases a
  {
    var s, t := Decimal(a), Decimal(b);
    assert s[|s| - 1] == Digit(a % 10) && t[|t| - 1] == Digit(b % 10);
    assert a % 10 == b % 10;
    if a >= 10 && b >= 10 {
      assert s[..|s| - 1] == Decimal(a / 10) && t[..|t| - 1] == Decimal(b / 10);
      DecimalInjective(a / 10, b / 10);
    }
  }

  /** The ids with commas between them. */
  function Joined(parts: seq<string>): string {
    if parts == [] then "" else Names.Join(parts, ',')
  }

  /** Parts that can be told apart: not empty, and without a comma. */
  predicate Plain(parts: seq<string>) {
    forall k :: 0 <= k < |parts| ==> parts[k] != "" && ',' !in parts[k]
  }

  lemma JoinedEmpty(parts: seq<string>)
    requires Plain(parts)
    ensures Joined(parts) == "" <==> parts == []
  {
  }

  lemma JoinedInjective(a: seq<string>, b: seq<string>)
    requires Plain(a) && Plain(b) && Joined(a) == Joined(b)
    ensures a == b
  {
    JoinedEmpty(a);
    JoinedEmpty(b);
    if a != [] {
      Names.SplitJoin(a, ',');
      Names.SplitJoin(b, ',');
    }
  }

  function Printed(ids: seq<nat>): (parts: seq<string>)
    ensures |parts| == |ids| && Plain(parts)
  {
    seq(|ids|, k requires 0 <= k < |ids| => Decimal(ids[k]))
  }

  lemma PrintedInjective(a: seq<nat>, b: seq<nat>)
    requires Printed(a) == Printed(b)
    ensures a == b
  {
    forall k | 0 <= k < |a| ensures a[k] == b[k] {
      assert Printed(a)[k] == Decimal(a[k]) && Printed(b)[k] == Decimal(b[k]);
      DecimalInjective(a[k], b[k]);
    }
  }

  function CacheKey(host: string, roles: Roles): string {
    host + "-" + (if roles.Root? then "ROOT" else Joined(Printed(Sort(roles.ids))))
  }

  ghost predicate SameRoles(a: Roles, b: Roles) {
    if a.Root? || b.Root? then a == b else SameMembers(a.ids, b.ids)
  }

  /** What tells the roles in a key. */
  function KeyPart(roles: Roles): string {
    if roles.Root? then "ROOT" else Joined(Printed(Sort(roles.ids)))
  }

  lemma {:induction false} JoinedPlain(parts: seq<string>)
    requires forall k, i :: 0 <= k < |parts| && 0 <= i < |parts[k]| ==> '0' <= parts[k][i] <= '9'
    ensures '-' !in Joined(parts)
  {
    if |parts| > 1 {
      assert Joined(parts) == parts[0] + [','] + Joined(parts[1..]);
      JoinedPlain(parts[1..]);
    }
  }

  lemma KeyPartPlain(roles: Roles)
    ensures '-' !in KeyPart(roles)
  {
    if roles.Ids? {
      JoinedPlain(Printed(Sort(roles.ids)));
    }
  }

  /** The part after the last '-' tells the roles, and the part before it the host. */
  lemma LastDash(a: string, b: string, s: string, t: string)
    requires '-' !in s && '-' !in t && a + "-" + s == b + "-" + t
    ensures a == b && s == t
  {
    var key := a + "-" + s;
    assert key[|a|] == '-' && key[|b|] == '-';
    assert forall k :: |a| < k < |key| ==> key[k] == s[k - |a| - 1];
    assert forall k :: |b| < k < |key| ==> key[k] == t[k - |b| - 1];
    assert key[..|a|] == a && key[..|b|] == b && key[|a| + 1..] == s && key[|b| + 1..] == t;
  }

  lemma KeyPartIff(a: Roles, b: Roles)
    requires (a.Ids? ==> Distinct(a.ids)) && (b.Ids? ==> Distinct(b.ids))
    ensures KeyPart(a) == KeyPart(b) <==> SameRoles(a, b)
  {
    if a.Ids? && b.Ids? {
      SortIff(a.ids, b.ids);
      if KeyPart(a) == KeyPart(b) {
        JoinedInjective(Printed(Sort(a.ids)), Printed(Sort(b.ids)));
        PrintedInjective(Sort(a.ids), Sort(b.ids));
      }
    } else if a.Ids? {
      NotRoot(Sort(a.ids));
    } else if b.Ids? {
      NotRoot(Sort(b.ids));
    }
  }

  /** Two requests have the same key exactly when they are for the same host, and both are root or both have the same
    * roles. */
  lemma CacheKeyIff(host: string, other: string, a: Roles, b: Roles)
    requires (a.Ids? ==> Distinct(a.ids)) && (b.Ids? ==> Distinct(b.ids))
    ensures CacheKey(host, a) == CacheKey(other, b) <==> host == other && SameRoles(a, b)
  {
    KeyPartIff(a, b);
    KeyPartPlain(a);
    KeyPartPlain(b);
    if CacheKey(host, a) == CacheKey(other, b) {
      LastDash(host, other, KeyPart(a), KeyPart(b));
    }
  }

  lemma NotRoot(ids: seq<nat>)
    ensures Joined(Printed(ids)) != "ROOT"
  {
    if ids != [] {
      var first := Printed(ids)[0];
      assert Joined(Printed(ids))[0] == first[0];
    }
  }
}
