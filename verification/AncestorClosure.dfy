/** The recursive query for the ancestors of an item, which keeps duplicates: what it finds, and when it ends. */
module AncestorClosure {
  import opened TreeGraph

  /** The rows of the link table, each a parent and a child. */
  function EdgesOf(links: seq<(int, int)>): (edges: Edges)
    ensures forall e :: e in edges <==> e in links
  {
    set k | 0 <= k < |links| :: links[k]
  }

  function ParentsOf(links: seq<(int, int)>, item: int): seq<int> {
    if links == [] then []
    else (if links[0].1 == item then [links[0].0] else []) + ParentsOf(links[1..], item)
  }

  /** One turn of the recursive query: the parents of every row of the working table. */
  function NextLevel(links: seq<(int, int)>, working: seq<int>): seq<int> {
    if working == [] then [] else ParentsOf(links, working[0]) + NextLevel(links, working[1..])
  }

  function Level(links: seq<(int, int)>, item: int, k: nat): seq<int> {
    if k == 0 then ParentsOf(links, item) else NextLevel(links, Level(links, item, k - 1))
  }

  lemma {:induction false} ParentsAreEdges(links: seq<(int, int)>, item: int, p: int)
    ensures p in ParentsOf(links, item) <==> (p, item) in EdgesOf(links)
    decreases |links|
  {
    if links != [] {
      ParentsAreEdges(links[1..], item, p);
      assert forall k :: 0 <= k < |links[1..]| ==> links[1..][k] == links[k + 1];
      if (p, item) in EdgesOf(links) {
        var k :| 0 <= k < |links| && links[k] == (p, item);
        assert k > 0 ==> links[1..][k - 1] == links[k];
      }
      if (p, item) in EdgesOf(links[1..]) {
        var k :| 0 <= k < |links[1..]| && links[1..][k] == (p, item);
        assert links[k + 1] == (p, item);
      }
      if links[0].1 == item && links[0].0 == p {
        assert links[0] == (p, item);
      }
    }
  }

  lemma {:induction false} NextLevelParents(links: seq<(int, int)>, working: seq<int>, p: int)
    ensures p in NextLevel(links, working) <==> exists c :: c in working && (p, c) in EdgesOf(links)
    decreases |working|
  {
    if working != [] {
      ParentsAreEdges(links, working[0], p);
      NextLevelParents(links, working[1..], p);
      assert forall c :: c in working <==> c == working[0] || c in working[1..];
    }
  }

  /** A walk of `k` links that ends at `item`. */
  predicate WalksUp(edges: Edges, walk: seq<int>, k: nat, item: int) {
    IsWalk(edges, walk) && |walk| == k + 1 && walk[k] == item
  }

  /** The rows of a level are where the walks of that length start. */
  lemma LevelWalks(links: seq<(int, int)>, item: int, k: nat, a: int)
    ensures a in Level(links, item, k)
       <==> exists walk :: WalksUp(EdgesOf(links), walk, k + 1, item) && walk[0] == a
  {
    if a in Level(links, item, k) {
      var walk := WalkOfRow(links, item, k, a);
    }
    if walk :| WalksUp(EdgesOf(links), walk, k + 1, item) && walk[0] == a {
      RowOfWalk(links, item, k, walk);
    }
  }

  lemma {:induction false} WalkOfRow(links: seq<(int, int)>, item: int, k: nat, a: int) returns (walk: seq<int>)
    requires a in Level(links, item, k)
    ensures WalksUp(EdgesOf(links), walk, k + 1, item) && walk[0] == a
  {
    if k == 0 {
      ParentsAreEdges(links, item, a);
      walk := [a, item];
    } else {
      var below := Level(links, item, k - 1);
      NextLevelParents(links, below, a);
      var c :| c in below && (a, c) in EdgesOf(links);
      var rest := WalkOfRow(links, item, k - 1, c);
      walk := [a] + rest;
      assert walk[1..] == rest && rest[0] == c;
    }
  }

  lemma {:induction false} RowOfWalk(links: seq<(int, int)>, item: int, k: nat, walk: seq<int>)
    requires WalksUp(EdgesOf(links), walk, k + 1, item)
    ensures walk[0] in Level(links, item, k)
    decreases k
  {
    assert (walk[0], walk[1]) in EdgesOf(links);
    if k == 0 {
      ParentsAreEdges(links, item, walk[0]);
    } else {
      var below := Level(links, item, k - 1);
      RowOfWalk(links, item, k - 1, walk[1..]);
      assert walk[1..][0] == walk[1] && walk[1] in below;
      NextLevelParents(links, below, walk[0]);
    }
  }

  // When it ends.

  ghost predicate OnCycle(edges: Edges, a: int) {
    exists b :: (a, b) in edges && Reaches(edges, b, a)
  }

  ghost predicate CycleAbove(edges: Edges, item: int) {
    exists a :: OnCycle(edges, a) && Reaches(edges, a, item)
  }

  /** The query ends when a level has no rows. */
  ghost predicate Ends(links: seq<(int, int)>, item: int) {
    exists k :: Level(links, item, k) == []
  }

  predicate IsParent(links: seq<(int, int)>, a: int) {
    exists k :: 0 <= k < |links| && links[k].0 == a
  }

  /** There are no more different parents than links. */
  lemma {:induction false} Pigeonhole(values: seq<int>, links: seq<(int, int)>)
    requires forall i, j :: 0 <= i < j < |values| ==> values[i] != values[j]
    requires forall i :: 0 <= i < |values| ==> IsParent(links, values[i])
    ensures |values| <= |links|
    decreases |links|
  {
    if values != [] {
      assert IsParent(links, values[0]);
      var last, others := links[|links| - 1].0, links[..|links| - 1];
      forall v | IsParent(links, v) && v != last ensures IsParent(others, v) {
        var k :| 0 <= k < |links| && links[k].0 == v;
        assert others[k].0 == v;
      }
      if j :| 0 <= j < |values| && values[j] == last {
        Pigeonhole(values[..j] + values[j + 1..], others);
      } else {
        Pigeonhole(values, others);
      }
    }
  }

  lemma SubWalk(edges: Edges, walk: seq<int>, i: nat, j: nat)
    requires IsWalk(edges, walk) && i <= j < |walk|
    ensures Reaches(edges, walk[i], walk[j])
  {
    assert Walks(edges, walk[i..j + 1], walk[i], walk[j]);
  }

  /** A walk with more links than there are rows goes round a cycle. */
  lemma LongWalkHasCycle(links: seq<(int, int)>, walk: seq<int>, item: int)
    requires WalksUp(EdgesOf(links), walk, |links| + 1, item)
    ensures CycleAbove(EdgesOf(links), item)
  {
    var edges := EdgesOf(links);
    var n := |links| + 1;
    if i, j :| 0 <= i < j < n && walk[i] == walk[j] {
      SubWalk(edges, walk, i + 1, j);
      SubWalk(edges, walk, i, n);
      var a, b := walk[i], walk[i + 1];
      assert (a, b) in edges && Reaches(edges, b, a);
      assert OnCycle(edges, a);
    } else {
      var values := walk[..n];
      forall i | 0 <= i < |values| ensures IsParent(links, values[i]) {
        assert (walk[i], walk[i + 1]) in edges;
        var k :| 0 <= k < |links| && links[k] == (walk[i], walk[i + 1]);
      }
      Pigeonhole(values, links);
      assert false;
    }
  }

  /** From a cycle there are walks of every length. */
  lemma {:induction false} PumpedWalk(edges: Edges, a: int, item: int, n: nat) returns (walk: seq<int>)
    requires OnCycle(edges, a) && Reaches(edges, a, item)
    ensures IsWalk(edges, walk) && walk[0] == a && walk[|walk| - 1] == item && |walk| > n
  {
    if n == 0 {
      walk :| Walks(edges, walk, a, item);
    } else {
      var rest := PumpedWalk(edges, a, item, n - 1);
      var b :| (a, b) in edges && Reaches(edges, b, a);
      var loop :| Walks(edges, loop, b, a);
      walk := [a] + loop + rest[1..];
      forall i | 0 <= i < |walk| - 1 ensures (walk[i], walk[i + 1]) in edges {
        if 0 < i < |loop| {
          assert walk[i] == loop[i - 1] && walk[i + 1] == loop[i];
        } else if i >= |loop| {
          assert walk[i] == rest[i - |loop|] && walk[i + 1] == rest[i - |loop| + 1];
        }
      }
    }
  }

  /** The query ends exactly when there is no cycle above the item, and then after at most as many turns as links. */
  lemma EndsIffNoCycleAbove(links: seq<(int, int)>, item: int)
    ensures Ends(links, item) <==> !CycleAbove(EdgesOf(links), item)
    ensures Ends(links, item) ==> Level(links, item, |links|) == []
  {
    var edges := EdgesOf(links);
    if !CycleAbove(edges, item) && Level(links, item, |links|) != [] {
      LevelWalks(links, item, |links|, Level(links, item, |links|)[0]);
      var walk :| WalksUp(edges, walk, |links| + 1, item);
      LongWalkHasCycle(links, walk, item);
      assert false;
    }
    if CycleAbove(edges, item) {
      var a :| OnCycle(edges, a) && Reaches(edges, a, item);
      forall k: nat ensures Level(links, item, k) != [] {
        var walk := PumpedWalk(edges, a, item, k + 1);
        var last := walk[|walk| - k - 2..];
        assert WalksUp(edges, last, k + 1, item);
        LevelWalks(links, item, k, last[0]);
      }
    }
  }

  /** No cycle anywhere exactly when the query ends for every item. */
  lemma AcyclicIffAllEnd(links: seq<(int, int)>)
    ensures Acyclic(EdgesOf(links)) <==> forall item :: Ends(links, item)
  {
    var edges := EdgesOf(links);
    if Acyclic(edges) {
      forall item ensures Ends(links, item) {
        EndsIffNoCycleAbove(links, item);
      }
    }
    if forall item :: Ends(links, item) {
      forall a, b | (a, b) in edges ensures !Reaches(edges, b, a) {
        ReachesSelf(edges, a);
        EndsIffNoCycleAbove(links, a);
        assert Reaches(edges, b, a) ==> OnCycle(edges, a);
      }
    }
  }

  lemma {:induction false} LevelStaysEmpty(links: seq<(int, int)>, item: int, k: nat, m: nat)
    requires Level(links, item, k) == [] && k <= m
    ensures Level(links, item, m) == []
  {
    if k < m {
      LevelStaysEmpty(links, item, k, m - 1);
    }
  }

  /** What is above the item was found or is above the working table. */
  ghost predicate Found(links: seq<(int, int)>, item: int, ancestors: seq<int>, working: seq<int>) {
    forall a :: (a != item && Reaches(EdgesOf(links), a, item)) <==> a in ancestors || AboveSome(links, a, working)
  }

  ghost predicate AboveSome(links: seq<(int, int)>, a: int, working: seq<int>) {
    exists b :: b in working && Reaches(EdgesOf(links), a, b)
  }

  /** The query: the ancestors of an item, the item itself not being one. */
  method SearchAncestors(links: seq<(int, int)>, item: int) returns (ancestors: seq<int>)
    requires Acyclic(EdgesOf(links))
    ensures forall a :: a in ancestors <==> a != item && Reaches(EdgesOf(links), a, item)
  {
    ghost var k: nat := 0;
    ancestors := [];
    var working := ParentsOf(links, item);
    AcyclicIffAllEnd(links);
    EndsIffNoCycleAbove(links, item);
    forall a ensures (a != item && Reaches(EdgesOf(links), a, item)) <==> AboveSome(links, a, working) {
      AboveItem(links, item, a);
    }
    while working != []
      invariant k <= |links| && working == Level(links, item, k)
      invariant Found(links, item, ancestors, working)
      decreases |links| - k
    {
      NextTurn(links, item, ancestors, working);
      ancestors := ancestors + working;
      working := NextLevel(links, working);
      k := k + 1;
    }
  }

  lemma NextTurn(links: seq<(int, int)>, item: int, ancestors: seq<int>, working: seq<int>)
    requires Found(links, item, ancestors, working)
    ensures Found(links, item, ancestors + working, NextLevel(links, working))
  {
    forall a ensures AboveSome(links, a, working) <==> a in working || AboveSome(links, a, NextLevel(links, working)) {
      AboveLevel(links, working, a);
    }
  }

  lemma AboveItem(links: seq<(int, int)>, item: int, a: int)
    requires Acyclic(EdgesOf(links))
    ensures (a != item && Reaches(EdgesOf(links), a, item)) <==> AboveSome(links, a, ParentsOf(links, item))
  {
    var edges := EdgesOf(links);
    if a != item && Reaches(edges, a, item) {
      var b := ReachesLast(edges, a, item);
      ParentsAreEdges(links, item, b);
    }
    if b :| b in ParentsOf(links, item) && Reaches(edges, a, b) {
      ParentsAreEdges(links, item, b);
      ReachesByEdge(edges, b, item);
      ReachesTransitive(edges, a, b, item);
    }
  }

  lemma AboveLevel(links: seq<(int, int)>, working: seq<int>, a: int)
    ensures AboveSome(links, a, working) <==> a in working || AboveSome(links, a, NextLevel(links, working))
  {
    var edges := EdgesOf(links);
    ReachesSelf(edges, a);
    if b :| b in working && Reaches(edges, a, b) {
      if a != b {
        var p := ReachesLast(edges, a, b);
        NextLevelParents(links, working, p);
      }
    }
    if p :| p in NextLevel(links, working) && Reaches(edges, a, p) {
      NextLevelParents(links, working, p);
      var b :| b in working && (p, b) in edges;
      ReachesByEdge(edges, p, b);
      ReachesTransitive(edges, a, p, b);
    }
  }
}
