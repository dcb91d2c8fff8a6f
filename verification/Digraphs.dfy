/** Finite directed graphs as adjacency lists: walks, reachability and cycles. */
module Digraphs {

  function Successors<T>(g: map<T, seq<T>>, a: T): seq<T> {
    if a in g then g[a] else []
  }

  predicate Edge<T(==)>(g: map<T, seq<T>>, a: T, b: T) {
    b in Successors(g, a)
  }

  /** A nonempty path along edges. */
  ghost predicate Walk<T>(g: map<T, seq<T>>, path: seq<T>) {
    |path| > 0 && forall i :: 0 <= i < |path| - 1 ==> Edge(g, path[i], path[i + 1])
  }

  ghost predicate WalkFromTo<T>(g: map<T, seq<T>>, path: seq<T>, a: T, b: T) {
    Walk(g, path) && path[0] == a && path[|path| - 1] == b
  }

  /** b can be reached from a along zero or more edges. */
  ghost predicate Reaches<T(!new)>(g: map<T, seq<T>>, a: T, b: T) {
    exists path :: WalkFromTo(g, path, a, b)
  }

  ghost predicate Acyclic<T(!new)>(g: map<T, seq<T>>) {
    forall a, b :: Edge(g, a, b) ==> !Reaches(g, b, a)
  }

  lemma ReachesItself<T(!new)>(g: map<T, seq<T>>, a: T)
    ensures Reaches(g, a, a)
  {
    assert WalkFromTo(g, [a], a, a);
  }

  lemma ReachesAfterEdge<T(!new)>(g: map<T, seq<T>>, a: T, b: T, c: T)
    requires Edge(g, a, b) && Reaches(g, b, c)
    ensures Reaches(g, a, c)
  {
    var path :| WalkFromTo(g, path, b, c);
    assert WalkFromTo(g, [a] + path, a, c);
  }

  lemma ReachesBeforeEdge<T(!new)>(g: map<T, seq<T>>, a: T, b: T, c: T)
    requires Reaches(g, a, b) && Edge(g, b, c)
    ensures Reaches(g, a, c)
  {
    var path :| WalkFromTo(g, path, a, b);
    assert WalkFromTo(g, path + [c], a, c);
  }

  lemma ReachesTransitive<T(!new)>(g: map<T, seq<T>>, a: T, b: T, c: T)
    requires Reaches(g, a, b) && Reaches(g, b, c)
    ensures Reaches(g, a, c)
  {
    var path :| WalkFromTo(g, path, a, b);
    var tail :| WalkFromTo(g, tail, b, c);
    assert WalkFromTo(g, path + tail[1..], a, c);
  }

  /** What is reached and is not the start is entered by an edge from something reached. */
  lemma ReachedThrough<T(!new)>(g: map<T, seq<T>>, a: T, b: T) returns (p: T)
    requires Reaches(g, a, b) && a != b
    ensures Reaches(g, a, p) && Edge(g, p, b)
  {
    var path :| WalkFromTo(g, path, a, b);
    p := path[|path| - 2];
    assert WalkFromTo(g, path[..|path| - 1], a, p);
  }

  /** A walk leaves a set that is closed under edges only if it starts outside. */
  lemma {:induction false} ClosedSetHoldsWalk<T>(g: map<T, seq<T>>, closed: set<T>, path: seq<T>)
    requires forall a, b :: a in closed && Edge(g, a, b) ==> b in closed
    requires Walk(g, path) && path[0] in closed
    ensures path[|path| - 1] in closed
    decreases |path|
  {
    if |path| <= 1 {
    } else {
      assert Edge(g, path[0], path[1]);
      ClosedSetHoldsWalk(g, closed, path[1..]);
    }
  }

  lemma ReachedIsIn<T(!new)>(g: map<T, seq<T>>, closed: set<T>, a: T, b: T)
    requires forall x, y :: x in closed && Edge(g, x, y) ==> y in closed
    requires a in closed && Reaches(g, a, b)
    ensures b in closed
  {
    var path :| WalkFromTo(g, path, a, b);
    ClosedSetHoldsWalk(g, closed, path);
  }

  predicate Distinct<T(==)>(s: seq<T>) {
    forall i, j :: 0 <= i < j < |s| ==> s[i] != s[j]
  }

  lemma DistinctConcat<T>(a: seq<T>, b: seq<T>)
    requires Distinct(a) && Distinct(b) && forall x :: x in b ==> x !in a
    ensures Distinct(a + b)
  {
    forall i, j | 0 <= i < j < |a + b|
      ensures (a + b)[i] != (a + b)[j]
    {
      if i < |a| <= j {
        assert b[j - |a|] in b;
      }
    }
  }

  lemma {:induction false} DistinctFits<T>(s: seq<T>, members: set<T>)
    requires Distinct(s) && forall x :: x in s ==> x in members
    ensures |s| <= |members|
  {
    if s == [] {
    } else {
      DistinctFits(s[1..], members - {s[0]});
    }
  }

  /** Some member has an edge to x. */
  ghost predicate HasPredecessor<T(!new)>(g: map<T, seq<T>>, members: set<T>, x: T) {
    exists y :: y in members && Edge(g, y, x)
  }

  /** If every member of a nonempty finite set has an edge from another member, the graph has a cycle. */
  lemma EndlessPredecessors<T(!new)>(g: map<T, seq<T>>, members: set<T>)
    requires members != {}
    requires forall x :: x in members ==> HasPredecessor(g, members, x)
    ensures !Acyclic(g)
  {
    hide HasPredecessor, Acyclic;
    var x :| x in members;
    WalkBackwards(g, members, [x]);
  }

  lemma {:induction false} WalkBackwards<T(!new)>(g: map<T, seq<T>>, members: set<T>, path: seq<T>)
    requires forall x :: x in members ==> HasPredecessor(g, members, x)
    requires path != [] && Walk(g, path) && Distinct(path) && forall x :: x in path ==> x in members
    ensures !Acyclic(g)
    decreases |members| - |path|
  {
    hide Walk, Acyclic, Edge, Distinct, Successors;
    assert HasPredecessor(g, members, path[0]);
    var y :| y in members && Edge(g, y, path[0]);
    hide HasPredecessor;
    if y in path {
      ClosesCycle(g, y, path);
    } else {
      var longer := [y] + path;
      ExtendsBackwards(g, y, path);
      DistinctFits(longer, members);
      WalkBackwards(g, members, longer);
    }
  }

  lemma ClosesCycle<T(!new)>(g: map<T, seq<T>>, y: T, path: seq<T>)
    requires Walk(g, path) && Edge(g, y, path[0]) && y in path
    ensures !Acyclic(g)
  {
    hide Edge;
    var j :| 0 <= j < |path| && path[j] == y;
    assert WalkFromTo(g, path[..j + 1], path[0], y);
  }

  lemma ExtendsBackwards<T(!new)>(g: map<T, seq<T>>, y: T, path: seq<T>)
    requires Walk(g, path) && Distinct(path) && Edge(g, y, path[0]) && y !in path
    ensures Walk(g, [y] + path) && Distinct([y] + path)
  {
    hide Edge;
  }

  /** g with perhaps one edge from a to b more. */
  ghost predicate ExtendsBy<T(!new)>(g: map<T, seq<T>>, more: map<T, seq<T>>, a: T, b: T) {
    forall x, y :: Edge(more, x, y) ==> Edge(g, x, y) || (x == a && y == b)
  }

  lemma {:induction false} WalkUsesNewEdge<T(!new)>(g: map<T, seq<T>>, more: map<T, seq<T>>, a: T, b: T, path: seq<T>)
    requires ExtendsBy(g, more, a, b) && Walk(more, path)
    ensures var x, y := path[0], path[|path| - 1];
            Reaches(g, x, y) || (Reaches(g, x, a) && Reaches(g, b, y))
    decreases |path|
  {
    hide Reaches, Edge;
    var x, y := path[0], path[|path| - 1];
    if |path| == 1 {
      ReachesItself(g, x);
    } else {
      WalkUsesNewEdge(g, more, a, b, path[1..]);
      assert Edge(more, x, path[1]);
      if Edge(g, x, path[1]) {
        if Reaches(g, path[1], y) {
          ReachesAfterEdge(g, x, path[1], y);
        } else {
          ReachesAfterEdge(g, x, path[1], a);
        }
      } else {
        ReachesItself(g, a);
      }
    }
  }

  /** An edge whose end does not reach its start closes no cycle. */
  lemma StaysAcyclic<T(!new)>(g: map<T, seq<T>>, more: map<T, seq<T>>, a: T, b: T)
    requires Acyclic(g) && ExtendsBy(g, more, a, b) && !Reaches(g, b, a)
    ensures Acyclic(more)
  {
    forall x, y | Edge(more, x, y) && Reaches(more, y, x)
      ensures false
    {
      hide Reaches, Edge;
      var path := WalkOf(more, y, x);
      WalkUsesNewEdge(g, more, a, b, path);
      if Edge(g, x, y) {
        if !Reaches(g, y, x) {
          ReachesAfterEdge(g, x, y, a);
          ReachesTransitive(g, b, x, a);
        }
      }
    }
  }

  lemma WalkOf<T(!new)>(g: map<T, seq<T>>, a: T, b: T) returns (path: seq<T>)
    requires Reaches(g, a, b)
    ensures WalkFromTo(g, path, a, b)
  {
    path :| WalkFromTo(g, path, a, b);
  }

  lemma SubgraphReaches<T(!new)>(g: map<T, seq<T>>, less: map<T, seq<T>>, a: T, b: T)
    requires Reaches(less, a, b) && forall x, y :: Edge(less, x, y) ==> Edge(g, x, y)
    ensures Reaches(g, a, b)
  {
    var path := WalkOf(less, a, b);
    assert WalkFromTo(g, path, a, b);
  }

  lemma SubgraphStaysAcyclic<T(!new)>(g: map<T, seq<T>>, less: map<T, seq<T>>)
    requires Acyclic(g) && forall x, y :: Edge(less, x, y) ==> Edge(g, x, y)
    ensures Acyclic(less)
  {
    forall x, y | Edge(less, x, y) && Reaches(less, y, x)
      ensures false
    {
      SubgraphReaches(g, less, y, x);
    }
  }

  lemma {:induction false} ReversedWalk<T(!new)>(g: map<T, seq<T>>, back: map<T, seq<T>>, path: seq<T>)
    requires Walk(g, path) && forall x, y :: Edge(g, x, y) ==> Edge(back, y, x)
    ensures Reaches(back, path[|path| - 1], path[0])
    decreases |path|
  {
    hide Reaches, Edge;
    if |path| == 1 {
      ReachesItself(back, path[0]);
    } else {
      assert Edge(g, path[0], path[1]);
      ReversedWalk(g, back, path[1..]);
      ReachesBeforeEdge(back, path[|path| - 1], path[1], path[0]);
    }
  }

  /** In the reversed graph everything is reached the other way round. */
  lemma ReversedReaches<T(!new)>(g: map<T, seq<T>>, back: map<T, seq<T>>, a: T, b: T)
    requires forall x, y :: Edge(g, x, y) <==> Edge(back, y, x)
    ensures Reaches(g, a, b) <==> Reaches(back, b, a)
  {
    if Reaches(g, a, b) {
      var path := WalkOf(g, a, b);
      ReversedWalk(g, back, path);
    }
    if Reaches(back, b, a) {
      var path := WalkOf(back, b, a);
      ReversedWalk(back, g, path);
    }
  }
}
