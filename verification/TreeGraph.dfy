/** Links between tree items, from parent to child: who is above whom, and when there is no cycle. */
module TreeGraph {
  type Edges = set<(int, int)>

  /** A way down along links. */
  predicate IsWalk<T(==)>(edges: set<(T, T)>, walk: seq<T>) {
    walk != [] && forall i :: 0 <= i < |walk| - 1 ==> (walk[i], walk[i + 1]) in edges
  }

  predicate Walks<T(==)>(edges: set<(T, T)>, walk: seq<T>, a: T, b: T) {
    IsWalk(edges, walk) && walk[0] == a && walk[|walk| - 1] == b
  }

  /** `b` is `a` or below it. */
  ghost predicate Reaches<T(!new)>(edges: set<(T, T)>, a: T, b: T) {
    exists walk :: Walks(edges, walk, a, b)
  }

  /** No item is below itself. */
  ghost predicate Acyclic<T(!new)>(edges: set<(T, T)>) {
    forall a, b :: (a, b) in edges ==> !Reaches(edges, b, a)
  }

  lemma ReachesSelf(edges: Edges, a: int)
    ensures Reaches(edges, a, a)
  {
    assert Walks(edges, [a], a, a);
  }

  lemma ReachesTransitive(edges: Edges, a: int, b: int, c: int)
    requires Reaches(edges, a, b) && Reaches(edges, b, c)
    ensures Reaches(edges, a, c)
  {
    var v :| Walks(edges, v, a, b);
    var w :| Walks(edges, w, b, c);
    assert Walks(edges, v + w[1..], a, c) by {
      forall i | 0 <= i < |v + w[1..]| - 1 ensures ((v + w[1..])[i], (v + w[1..])[i + 1]) in edges {
        if i >= |v| - 1 {
          assert (v + w[1..])[i] == w[i - |v| + 1];
        }
      }
    }
  }

  lemma ReachesByEdge(edges: Edges, a: int, b: int)
    requires (a, b) in edges
    ensures Reaches(edges, a, b)
  {
    assert Walks(edges, [a, b], a, b);
  }

  lemma ReachesMore(edges: Edges, more: Edges, a: int, b: int)
    requires edges <= more && Reaches(edges, a, b)
    ensures Reaches(more, a, b)
  {
    var w :| Walks(edges, w, a, b);
    assert Walks(more, w, a, b);
  }

  lemma AcyclicFewer(edges: Edges, fewer: Edges)
    requires fewer <= edges && Acyclic(edges)
    ensures Acyclic(fewer)
  {
    forall a, b | (a, b) in fewer ensures !Reaches(fewer, b, a) {
      if Reaches(fewer, b, a) {
        ReachesMore(fewer, edges, b, a);
      }
    }
  }

  /** Below `a` is what is below its children. */
  lemma ReachesFirst(edges: Edges, a: int, b: int) returns (next: int)
    requires Reaches(edges, a, b) && a != b
    ensures (a, next) in edges && Reaches(edges, next, b)
  {
    var w :| Walks(edges, w, a, b);
    next := w[1];
    assert Walks(edges, w[1..], next, b);
  }

  /** Above `b` is what is above its parents. */
  lemma ReachesLast(edges: Edges, a: int, b: int) returns (parent: int)
    requires Reaches(edges, a, b) && a != b
    ensures (parent, b) in edges && Reaches(edges, a, parent)
  {
    var w :| Walks(edges, w, a, b);
    parent := w[|w| - 2];
    assert Walks(edges, w[..|w| - 1], a, parent);
  }

  /** A way that uses a new link goes to its parent and on from its child. */
  lemma {:induction false} ReachesWithEdge(edges: Edges, u: int, v: int, a: int, b: int, w: seq<int>)
    requires Walks(edges + {(u, v)}, w, a, b)
    ensures Reaches(edges, a, b) || (Reaches(edges, a, u) && Reaches(edges, v, b))
    decreases |w|
  {
    if |w| == 1 {
      ReachesSelf(edges, a);
    } else {
      var next := w[1];
      assert Walks(edges + {(u, v)}, w[1..], next, b);
      ReachesWithEdge(edges, u, v, next, b, w[1..]);
      if (a, next) in edges {
        ReachesByEdge(edges, a, next);
        if Reaches(edges, next, b) {
          ReachesTransitive(edges, a, next, b);
        } else {
          ReachesTransitive(edges, a, next, u);
        }
      } else {
        assert (a, next) == (u, v);
        ReachesSelf(edges, u);
      }
    }
  }

  /** A new link makes no cycle exactly when its child does not reach its parent. */
  lemma AcyclicWithEdge(edges: Edges, u: int, v: int)
    requires Acyclic(edges)
    ensures Acyclic(edges + {(u, v)}) <==> !Reaches(edges, v, u)
  {
    var more := edges + {(u, v)};
    if Reaches(edges, v, u) {
      ReachesMore(edges, more, v, u);
      assert (u, v) in more;
    } else {
      forall a, b | (a, b) in more ensures !Reaches(more, b, a) {
        if Reaches(more, b, a) {
          var w :| Walks(more, w, b, a);
          ReachesWithEdge(edges, u, v, b, a, w);
          if (a, b) == (u, v) {
            assert false;
          } else {
            assert Reaches(edges, b, u) && Reaches(edges, v, a);
            ReachesByEdge(edges, a, b);
            ReachesTransitive(edges, v, a, b);
            ReachesTransitive(edges, v, b, u);
            assert false;
          }
        }
      }
    }
  }

  /** The links from one parent to some children. */
  function LinksTo(parent: int, children: seq<int>): Edges {
    set k | 0 <= k < |children| :: (parent, children[k])
  }

  lemma LinksToMore(edges: Edges, parent: int, children: seq<int>)
    requires children != []
    ensures edges + LinksTo(parent, children)
         == edges + LinksTo(parent, children[1..]) + {(parent, children[0])}
  {
  }

  /** New links under one parent make no cycle exactly when none of the children reaches the parent. */
  lemma {:induction false} AcyclicWithLinks(edges: Edges, parent: int, children: seq<int>)
    requires Acyclic(edges)
    ensures Acyclic(edges + LinksTo(parent, children))
       <==> forall k :: 0 <= k < |children| ==> !Reaches(edges, children[k], parent)
    decreases |children|
  {
    if children == [] {
      assert edges + LinksTo(parent, children) == edges;
    } else {
      var more := edges + LinksTo(parent, children[1..]);
      LinksToMore(edges, parent, children);
      AcyclicWithLinks(edges, parent, children[1..]);
      assert forall k :: 0 <= k < |children[1..]| ==> children[1..][k] == children[k + 1];
      assert forall k :: 1 <= k < |children| ==> children[k] == children[1..][k - 1];
      if Acyclic(more) {
        AcyclicWithEdge(more, parent, children[0]);
        ReachesParentOnlyBefore(edges, parent, children[1..], children[0]);
        if Reaches(edges, children[0], parent) {
          ReachesMore(edges, more, children[0], parent);
        }
      } else if Acyclic(edges + LinksTo(parent, children)) {
        AcyclicFewer(edges + LinksTo(parent, children), more);
      }
    }
  }

  /** Links under a parent do not help to reach the parent. */
  lemma {:induction false} ReachesParentOnlyBefore(edges: Edges, parent: int, children: seq<int>, a: int)
    ensures Reaches(edges + LinksTo(parent, children), a, parent) ==> Reaches(edges, a, parent)
    decreases |children|
  {
    if children == [] {
      assert edges + LinksTo(parent, children) == edges;
    } else if Reaches(edges + LinksTo(parent, children), a, parent) {
      var fewer := edges + LinksTo(parent, children[1..]);
      LinksToMore(edges, parent, children);
      var w :| Walks(fewer + {(parent, children[0])}, w, a, parent);
      ReachesWithEdge(fewer, parent, children[0], a, parent, w);
      ReachesParentOnlyBefore(edges, parent, children[1..], a);
    }
  }

  /** An item without children reaches nothing but itself. */
  lemma ReachesFromLeaf(edges: Edges, a: int, b: int)
    requires forall c :: (a, c) !in edges
    ensures Reaches(edges, a, b) <==> a == b
  {
    ReachesSelf(edges, a);
    if Reaches(edges, a, b) && a != b {
      var next := ReachesFirst(edges, a, b);
    }
  }

  /** The only way to an item goes through its only parent. */
  lemma ReachesThroughOnlyParent(edges: Edges, a: int, parent: int, b: int)
    requires forall q :: (q, b) in edges <==> q == parent
    ensures Reaches(edges, a, b) <==> a == b || Reaches(edges, a, parent)
  {
    if Reaches(edges, a, b) && a != b {
      var q := ReachesLast(edges, a, b);
    }
    ReachesSelf(edges, b);
    if Reaches(edges, a, parent) {
      ReachesByEdge(edges, parent, b);
      ReachesTransitive(edges, a, parent, b);
    }
  }

  lemma ReachesRoot(edges: Edges, a: int, root: int)
    requires forall q :: (q, root) !in edges
    ensures Reaches(edges, a, root) <==> a == root
  {
    if Reaches(edges, a, root) && a != root {
      var q := ReachesLast(edges, a, root);
    }
    ReachesSelf(edges, root);
  }
}
