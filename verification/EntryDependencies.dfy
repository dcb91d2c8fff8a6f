/** The dependency edges between entries, kept in two inverse maps and free of cycles. */
module EntryDependencies {
  import opened Digraphs
  import opened Options
  import opened WorkflowTypes

  datatype DependencyError = InvalidCondition | EntryNotFound | CycleDetected

  // ----- reachability upwards -----

  function ParentsOf(ds: seq<Dependency>): (ps: seq<EntryID>)
    ensures |ps| == |ds| && forall i :: 0 <= i < |ds| ==> ps[i] == ds[i].parent
  {
    seq(|ds|, i requires 0 <= i < |ds| => ds[i].parent)
  }

  /** The edges from children to parents. */
  function ParentGraph(deps: Dependencies): map<EntryID, seq<EntryID>> {
    map c | c in deps :: ParentsOf(deps[c])
  }

  lemma ParentEdge(deps: Dependencies, child: EntryID, parent: EntryID)
    ensures Edge(ParentGraph(deps), child, parent) <==> IsParent(deps, parent, child)
  {
    var ds, ps := DepsOf(deps, child), Successors(ParentGraph(deps), child);
    if parent in ps {
      var i :| 0 <= i < |ps| && ps[i] == parent;
      assert ds[i] in ds;
    }
    if IsParent(deps, parent, child) {
      var d :| d in ds && d.parent == parent;
      var i :| 0 <= i < |ds| && ds[i] == d;
      assert ps[i] == parent;
    }
  }

  /** Everything a search upwards from `from` can come across. */
  function Known(deps: Dependencies, from: EntryID): set<EntryID> {
    {from} + set c, d | c in deps && d in deps[c] :: d.parent
  }

  /** Where the search has been: all of it lies above `from`, and what is above visited entries is known. */
  ghost predicate Searched(deps: Dependencies, from: EntryID, visited: set<EntryID>, stack: seq<EntryID>) {
    && (from in visited || from in stack)
    && (forall x :: x in visited || x in stack ==> x in Known(deps, from) && Reaches(ParentGraph(deps), from, x))
    && (forall x, y :: x in visited && Edge(ParentGraph(deps), x, y) ==> y in visited || y in stack)
  }

  /** The search stands at `current`, whose first n edges have been looked at. */
  ghost predicate SearchedUpTo(deps: Dependencies, from: EntryID, visited: set<EntryID>, stack: seq<EntryID>,
                               current: EntryID, n: nat)
    requires n <= |DepsOf(deps, current)|
  {
    && (from in visited || from in stack)
    && (forall x :: x in visited || x in stack ==> x in Known(deps, from) && Reaches(ParentGraph(deps), from, x))
    && (forall x, y :: x in visited && x != current && Edge(ParentGraph(deps), x, y) ==> y in visited || y in stack)
    && (forall i :: 0 <= i < n
                    ==> DepsOf(deps, current)[i].parent in visited || DepsOf(deps, current)[i].parent in stack)
  }

  lemma SearchLooksAt(deps: Dependencies, from: EntryID, visited: set<EntryID>, stack: seq<EntryID>, current: EntryID,
                      n: nat)
    requires current in visited && n < |DepsOf(deps, current)|
    requires SearchedUpTo(deps, from, visited, stack, current, n)
    ensures var p := DepsOf(deps, current)[n].parent;
            SearchedUpTo(deps, from, visited, if p in visited then stack else stack + [p], current, n + 1)
  {
    hide Reaches, Edge, IsParent;
    var d := DepsOf(deps, current)[n];
    assert d in deps[current];
    assert IsParent(deps, d.parent, current) by { ParentIs(deps, current, d); }
    ParentEdge(deps, current, d.parent);
    ReachesBeforeEdge(ParentGraph(deps), from, current, d.parent);
  }

  lemma ParentIs(deps: Dependencies, child: EntryID, d: Dependency)
    requires d in DepsOf(deps, child)
    ensures IsParent(deps, d.parent, child)
  {
  }

  lemma SearchVisits(deps: Dependencies, from: EntryID, visited: set<EntryID>, stack: seq<EntryID>)
    requires stack != [] && Searched(deps, from, visited, stack)
    ensures var rest, current := stack[..|stack| - 1], stack[|stack| - 1];
            && SearchedUpTo(deps, from, visited + {current}, rest, current, 0)
            && (current in visited ==> Searched(deps, from, visited, rest))
  {
    hide Reaches, Edge, Known;
    var rest, current := stack[..|stack| - 1], stack[|stack| - 1];
    assert forall x :: x in stack <==> x in rest || x == current;
  }

  lemma SearchVisited(deps: Dependencies, from: EntryID, visited: set<EntryID>, stack: seq<EntryID>, current: EntryID)
    requires SearchedUpTo(deps, from, visited, stack, current, |DepsOf(deps, current)|)
    ensures Searched(deps, from, visited, stack)
  {
    hide Reaches, Known;
    forall y | Edge(ParentGraph(deps), current, y)
      ensures y in visited || y in stack
    {
      ParentEdge(deps, current, y);
      var d :| d in DepsOf(deps, current) && d.parent == y;
      var i :| 0 <= i < |DepsOf(deps, current)| && DepsOf(deps, current)[i] == d;
    }
  }

  lemma SearchEnds(deps: Dependencies, from: EntryID, visited: set<EntryID>, goal: EntryID)
    requires Searched(deps, from, visited, []) && goal !in visited
    ensures !Reaches(ParentGraph(deps), from, goal)
  {
    hide Reaches, Known;
    forall x, y | x in visited && Edge(ParentGraph(deps), x, y)
      ensures y in visited
    {
      assert y in visited || y in [];
    }
    if Reaches(ParentGraph(deps), from, goal) {
      ReachedIsIn(ParentGraph(deps), visited, from, goal);
    }
  }

  lemma SearchStarts(deps: Dependencies, from: EntryID)
    ensures Searched(deps, from, {}, [from])
  {
    ReachesItself(ParentGraph(deps), from);
  }

  /** hasCycle: whether newChild lies above newParent already, or is it. */
  method HasCycle(deps: Dependencies, newChild: EntryID, newParent: EntryID) returns (r: bool)
    ensures r <==> Reaches(ParentGraph(deps), newParent, newChild)
  {
    hide Searched, SearchedUpTo, Reaches, ParentGraph, Known;
    if newChild == newParent {
      ReachesItself(ParentGraph(deps), newParent);
      return true;
    }
    var visited, stack := {}, [newParent];
    ghost var known := Known(deps, newParent);
    SearchStarts(deps, newParent);
    SearchIsKnown(deps, newParent, visited, stack);
    while |stack| > 0
      invariant newChild !in visited && Searched(deps, newParent, visited, stack)
      invariant visited <= known && forall x :: x in stack ==> x in known
      decreases known - visited, |stack|
    {
      ghost var visitedBefore := visited;
      var current := stack[|stack| - 1];
      assert current in known;
      SearchVisits(deps, newParent, visited, stack);
      if current == newChild {
        SearchReaches(deps, newParent, visited, stack, current);
        return true;
      }
      stack := stack[..|stack| - 1];
      if current in visited {
        continue;
      }
      visited := visited + {current};
      var ds := DepsOf(deps, current);
      for i := 0 to |ds|
        invariant SearchedUpTo(deps, newParent, visited, stack, current, i)
      {
        SearchLooksAt(deps, newParent, visited, stack, current, i);
        if ds[i].parent !in visited {
          stack := stack + [ds[i].parent];
        }
      }
      SearchVisited(deps, newParent, visited, stack, current);
      SearchIsKnown(deps, newParent, visited, stack);
      assert current in known - visitedBefore;
    }
    SearchEnds(deps, newParent, visited, newChild);
    return false;
  }

  lemma SearchIsKnown(deps: Dependencies, from: EntryID, visited: set<EntryID>, stack: seq<EntryID>)
    requires Searched(deps, from, visited, stack)
    ensures visited <= Known(deps, from) && forall x :: x in stack ==> x in Known(deps, from)
  {
    hide Known, Reaches;
    forall x | x in visited
      ensures x in Known(deps, from)
    {
      assert x in visited || x in stack;
    }
  }

  lemma SearchReaches(deps: Dependencies, from: EntryID, visited: set<EntryID>, stack: seq<EntryID>, x: EntryID)
    requires Searched(deps, from, visited, stack) && x in stack
    ensures Reaches(ParentGraph(deps), from, x)
  {
  }

  /** Above a child in one map is below a parent in the other. */
  lemma CycleIsReached(deps: Dependencies, children: Children, child: EntryID, parent: EntryID)
    requires Inverse(deps, children)
    ensures Reaches(ParentGraph(deps), parent, child) <==> Reaches(children, child, parent)
  {
    hide Reaches, Edge, ParentGraph;
    forall x, y
      ensures Edge(ParentGraph(deps), x, y) <==> Edge(children, y, x)
    {
      ParentEdge(deps, x, y);
    }
    ReversedReaches(ParentGraph(deps), children, parent, child);
  }

  // ----- lists without an element -----

  function Without(s: seq<EntryID>, x: EntryID): (r: seq<EntryID>)
    ensures forall y :: y in r <==> y in s && y != x
    ensures x !in s ==> r == s
  {
    if s == [] then []
    else
      var rest := Without(s[1..], x);
      if s[0] == x then rest else [s[0]] + rest
  }

  function WithoutParent(ds: seq<Dependency>, parent: EntryID): (r: seq<Dependency>)
    ensures forall d :: d in r <==> d in ds && d.parent != parent
    ensures (forall d :: d in ds ==> d.parent != parent) ==> r == ds
  {
    if ds == [] then []
    else
      var rest := WithoutParent(ds[1..], parent);
      if ds[0].parent == parent then rest else [ds[0]] + rest
  }

  lemma DistinctParts<T>(s: seq<T>)
    requires s != []
    ensures Distinct(s) <==> s[0] !in s[1..] && Distinct(s[1..])
  {
    if s[0] !in s[1..] && Distinct(s[1..]) {
      forall i, j | 0 <= i < j < |s|
        ensures s[i] != s[j]
      {
        assert s[j] == s[1..][j - 1];
      }
    }
  }

  lemma {:induction false} WithoutStaysDistinct(s: seq<EntryID>, x: EntryID)
    requires Distinct(s)
    ensures Distinct(Without(s, x))
    decreases |s|
  {
    hide Distinct;
    if s == [] {
    } else {
      DistinctParts(s);
      WithoutStaysDistinct(s[1..], x);
      var r := [s[0]] + Without(s[1..], x);
      DistinctParts(r);
      assert r[1..] == Without(s[1..], x);
    }
  }

  lemma {:induction false} WithoutParentStaysDistinct(ds: seq<Dependency>, parent: EntryID)
    requires Distinct(ds)
    ensures Distinct(WithoutParent(ds, parent))
    decreases |ds|
  {
    hide Distinct;
    if ds == [] {
    } else {
      DistinctParts(ds);
      WithoutParentStaysDistinct(ds[1..], parent);
      var r := [ds[0]] + WithoutParent(ds[1..], parent);
      DistinctParts(r);
      assert r[1..] == WithoutParent(ds[1..], parent);
    }
  }

  lemma {:induction false} DeletedAt(s: seq<EntryID>, i: nat)
    requires Distinct(s) && i < |s|
    ensures s[..i] + s[i + 1..] == Without(s, s[i])
    decreases |s|
  {
    if i == 0 {
      assert Without(s[1..], s[0]) == s[1..];
    } else {
      DeletedAt(s[1..], i - 1);
      assert s[..i] + s[i + 1..] == [s[0]] + (s[1..][..i - 1] + s[1..][i..]);
    }
  }

  /** slices.Delete at slices.Index, if the element is there */
  method DeleteFirst(s: seq<EntryID>, x: EntryID) returns (r: seq<EntryID>)
    requires Distinct(s)
    ensures r == Without(s, x)
  {
    for i := 0 to |s|
      invariant x !in s[..i]
    {
      if s[i] == x {
        DeletedAt(s, i);
        return s[..i] + s[i + 1..];
      }
    }
    assert s[..|s|] == s;
    return s;
  }

  // ----- the maps -----

  /** The maps are inverse, free of cycles, mention only live entries, repeat nothing and hold no empty lists. */
  ghost predicate Sound(deps: Dependencies, children: Children, live: set<EntryID>) {
    && Inverse(deps, children)
    && Acyclic(children)
    && (forall p, c :: Edge(children, p, c) ==> p in live && c in live)
    && Tidy(deps, children)
  }

  ghost predicate Tidy(deps: Dependencies, children: Children) {
    && (forall c :: c in deps ==> deps[c] != [] && Distinct(deps[c]))
    && (forall p :: p in children ==> children[p] != [] && Distinct(children[p]))
  }

  /** deps with child's list replaced; an empty list is no entry. */
  function WithDeps(deps: Dependencies, child: EntryID, ds: seq<Dependency>): Dependencies {
    if ds == [] then deps - {child} else deps[child := ds]
  }

  function WithChildren(children: Children, parent: EntryID, cs: seq<EntryID>): Children {
    if cs == [] then children - {parent} else children[parent := cs]
  }

  lemma WithDepsIs(deps: Dependencies, child: EntryID, ds: seq<Dependency>, c: EntryID)
    ensures DepsOf(WithDeps(deps, child, ds), c) == if c == child then ds else DepsOf(deps, c)
  {
  }

  lemma WithChildrenIs(children: Children, parent: EntryID, cs: seq<EntryID>, p: EntryID)
    ensures Successors(WithChildren(children, parent, cs), p) == if p == parent then cs else Successors(children, p)
  {
  }

  function AddedDep(deps: Dependencies, child: EntryID, d: Dependency): Dependencies {
    if d in DepsOf(deps, child) then deps else deps[child := DepsOf(deps, child) + [d]]
  }

  function AddedChild(children: Children, parent: EntryID, child: EntryID): Children {
    if Edge(children, parent, child) then children else children[parent := Successors(children, parent) + [child]]
  }

  /** Adding an edge that closes no cycle keeps the maps sound. */
  lemma AddKeepsSound(deps: Dependencies, children: Children, live: set<EntryID>, child: EntryID, d: Dependency)
    requires Sound(deps, children, live) && child in live && d.parent in live && !Reaches(children, child, d.parent)
    ensures Sound(AddedDep(deps, child, d), AddedChild(children, d.parent, child), live)
  {
    hide Reaches, Acyclic;
    var moreDeps, more := AddedDep(deps, child, d), AddedChild(children, d.parent, child);
    forall p, c
      ensures Edge(more, p, c) <==> Edge(children, p, c) || (p == d.parent && c == child)
    {
    }
    forall p, c
      ensures IsParent(moreDeps, p, c) <==> IsParent(deps, p, c) || (p == d.parent && c == child)
    {
      AddedDepIs(deps, child, d, p, c);
    }
    StaysAcyclic(children, more, d.parent, child);
    AddedIsTidy(deps, children, child, d);
  }

  lemma AddedDepIs(deps: Dependencies, child: EntryID, d: Dependency, p: EntryID, c: EntryID)
    ensures IsParent(AddedDep(deps, child, d), p, c) <==> IsParent(deps, p, c) || (p == d.parent && c == child)
  {
    var ds, more := DepsOf(deps, c), DepsOf(AddedDep(deps, child, d), c);
    assert forall e :: e in more <==> e in ds || (c == child && e == d);
  }

  lemma AddedIsTidy(deps: Dependencies, children: Children, child: EntryID, d: Dependency)
    requires Tidy(deps, children)
    ensures Tidy(AddedDep(deps, child, d), AddedChild(children, d.parent, child))
  {
    DistinctOneMore(DepsOf(deps, child), d);
    DistinctOneMore(Successors(children, d.parent), child);
  }

  lemma DistinctOneMore<T>(s: seq<T>, x: T)
    requires Distinct(s)
    ensures x !in s ==> Distinct(s + [x])
  {
  }

  /** Maps whose edges are those of sound maps, but for some that are gone, are sound for the entries they mention. */
  lemma FewerStaySound(deps: Dependencies, children: Children, live: set<EntryID>,
                       lessDeps: Dependencies, less: Children, lessLive: set<EntryID>)
    requires Sound(deps, children, live) && Tidy(lessDeps, less)
    requires forall p, c :: Edge(less, p, c) ==> Edge(children, p, c) && p in lessLive && c in lessLive
    requires forall p, c :: Edge(less, p, c) <==> IsParent(lessDeps, p, c)
    ensures Sound(lessDeps, less, lessLive)
  {
    hide Edge, IsParent, Acyclic;
    forall p, c | Edge(less, p, c)
      ensures Edge(children, p, c)
    {
    }
    SubgraphStaysAcyclic(children, less);
  }

  lemma IsParentWithout(deps: Dependencies, lessDeps: Dependencies, parent: EntryID, p: EntryID, c: EntryID)
    requires DepsOf(lessDeps, c) == WithoutParent(DepsOf(deps, c), parent)
    ensures IsParent(lessDeps, p, c) <==> IsParent(deps, p, c) && p != parent
  {
    hide WithoutParent;
    var before, after := DepsOf(deps, c), DepsOf(lessDeps, c);
    if IsParent(deps, p, c) && p != parent {
      var d :| d in before && d.parent == p;
      assert d in after;
    }
    if IsParent(lessDeps, p, c) {
      var d :| d in after && d.parent == p;
      assert d in before;
    }
  }

  /** The maps after all edges from parent to child are gone. */
  function RemovedDeps(deps: Dependencies, child: EntryID, parent: EntryID): Dependencies {
    WithDeps(deps, child, WithoutParent(DepsOf(deps, child), parent))
  }

  function RemovedChild(children: Children, parent: EntryID, child: EntryID): Children {
    WithChildren(children, parent, Without(Successors(children, parent), child))
  }

  lemma RemovedDepsIs(deps: Dependencies, child: EntryID, parent: EntryID, p: EntryID, c: EntryID)
    ensures IsParent(RemovedDeps(deps, child, parent), p, c) <==> IsParent(deps, p, c) && !(p == parent && c == child)
  {
    hide IsParent, WithoutParent;
    var less := RemovedDeps(deps, child, parent);
    WithDepsIs(deps, child, WithoutParent(DepsOf(deps, child), parent), c);
    if c == child {
      IsParentWithout(deps, less, parent, p, c);
    } else {
      SameDepsSameParents(deps, less, c, p);
    }
  }

  lemma SameDepsSameParents(deps: Dependencies, other: Dependencies, c: EntryID, p: EntryID)
    requires DepsOf(deps, c) == DepsOf(other, c)
    ensures IsParent(deps, p, c) <==> IsParent(other, p, c)
  {
  }

  lemma RemovedChildIs(children: Children, child: EntryID, parent: EntryID, p: EntryID, c: EntryID)
    ensures Edge(RemovedChild(children, parent, child), p, c) <==> Edge(children, p, c) && !(p == parent && c == child)
  {
    hide Without;
    WithChildrenIs(children, parent, Without(Successors(children, parent), child), p);
  }

  lemma RemovedIsTidy(deps: Dependencies, children: Children, child: EntryID, parent: EntryID)
    requires Tidy(deps, children)
    ensures Tidy(RemovedDeps(deps, child, parent), children)
    ensures Tidy(deps, RemovedChild(children, parent, child))
  {
    hide Without, WithoutParent, Distinct;
    DistinctEmpty<Dependency>();
    DistinctEmpty<EntryID>();
    WithoutStaysDistinct(Successors(children, parent), child);
    WithoutParentStaysDistinct(DepsOf(deps, child), parent);
  }

  lemma DistinctEmpty<T>()
    ensures Distinct<T>([])
  {
  }

  lemma ChildrenDistinct(deps: Dependencies, children: Children, live: set<EntryID>, parent: EntryID)
    requires Sound(deps, children, live)
    ensures Distinct(Successors(children, parent))
  {
    DistinctEmpty<EntryID>();
  }

  lemma StoredDeps(deps: Dependencies, child: EntryID, ds: seq<Dependency>)
    ensures (if ds == [] then deps[child := ds] - {child} else deps[child := ds]) == WithDeps(deps, child, ds)
  {
  }

  lemma RemoveKeepsSound(deps: Dependencies, children: Children, live: set<EntryID>, child: EntryID, parent: EntryID)
    requires Sound(deps, children, live)
    ensures Sound(RemovedDeps(deps, child, parent), RemovedChild(children, parent, child), live)
  {
    hide Acyclic, RemovedDeps, RemovedChild, IsParent, Edge, Tidy;
    var lessDeps, less := RemovedDeps(deps, child, parent), RemovedChild(children, parent, child);
    forall p, c
      ensures Edge(less, p, c) <==> Edge(children, p, c) && !(p == parent && c == child)
      ensures IsParent(lessDeps, p, c) <==> IsParent(deps, p, c) && !(p == parent && c == child)
    {
      RemovedChildIs(children, child, parent, p, c);
      RemovedDepsIs(deps, child, parent, p, c);
    }
    RemovedIsTidy(deps, children, child, parent);
    RemovedIsTidy(lessDeps, children, child, parent);
    FewerStaySound(deps, children, live, lessDeps, less, live);
  }

  // ----- dropping an entry -----

  /** The lists of the parents in `seen` have lost `id`, the others are as they were. */
  ghost predicate ChildDropped(before: Children, after: Children, seen: set<EntryID>, id: EntryID) {
    forall p :: Successors(after, p) == if p in seen then Without(Successors(before, p), id) else Successors(before, p)
  }

  /** The edges of the children in `seen` to `id` are gone, the others are as they were. */
  ghost predicate ParentDropped(before: Dependencies, after: Dependencies, seen: set<EntryID>, id: EntryID) {
    forall c :: DepsOf(after, c) == if c in seen then WithoutParent(DepsOf(before, c), id) else DepsOf(before, c)
  }

  lemma ChildDroppedOneMore(before: Children, after: Children, seen: set<EntryID>, id: EntryID, p: EntryID)
    requires ChildDropped(before, after, seen, id)
    ensures ChildDropped(before, RemovedChild(after, p, id), seen + {p}, id)
  {
    var more := RemovedChild(after, p, id);
    forall q
      ensures Successors(more, q)
              == if q in seen + {p} then Without(Successors(before, q), id) else Successors(before, q)
    {
      WithChildrenIs(after, p, Without(Successors(after, p), id), q);
    }
  }

  lemma ParentDroppedOneMore(before: Dependencies, after: Dependencies, seen: set<EntryID>, id: EntryID, c: EntryID)
    requires ParentDropped(before, after, seen, id)
    ensures ParentDropped(before, RemovedDeps(after, c, id), seen + {c}, id)
  {
    var more := RemovedDeps(after, c, id);
    forall q
      ensures DepsOf(more, q) == if q in seen + {c} then WithoutParent(DepsOf(before, q), id) else DepsOf(before, q)
    {
      WithDepsIs(after, c, WithoutParent(DepsOf(after, c), id), q);
    }
  }

  /** What the maps are after the edges in which id is the child are gone. */
  ghost predicate WithoutChild(deps: Dependencies, children: Children, lessDeps: Dependencies, less: Children,
                               id: EntryID) {
    lessDeps == deps - {id} && forall p :: Successors(less, p) == Without(Successors(children, p), id)
  }

  /** What the maps are after the edges in which id is the parent are gone. */
  ghost predicate WithoutAsParent(deps: Dependencies, children: Children, lessDeps: Dependencies, less: Children,
                                  id: EntryID) {
    less == children - {id} && forall c :: DepsOf(lessDeps, c) == WithoutParent(DepsOf(deps, c), id)
  }

  lemma AllParentsSeen(deps: Dependencies, children: Children, live: set<EntryID>, less: Children, seen: set<EntryID>,
                       id: EntryID)
    requires Sound(deps, children, live) && ChildDropped(children, less, seen, id)
    requires forall d :: d in DepsOf(deps, id) ==> d.parent in seen
    ensures WithoutChild(deps, children, deps - {id}, less, id)
  {
    forall p
      ensures Successors(less, p) == Without(Successors(children, p), id)
    {
      if p !in seen {
        assert !IsParent(deps, p, id);
        assert !Edge(children, p, id);
      }
    }
  }

  lemma AllChildrenSeen(deps: Dependencies, children: Children, live: set<EntryID>, lessDeps: Dependencies,
                        seen: set<EntryID>, id: EntryID)
    requires Sound(deps, children, live) && ParentDropped(deps, lessDeps, seen, id)
    requires forall c :: c in Successors(children, id) ==> c in seen
    ensures WithoutAsParent(deps, children, lessDeps, children - {id}, id)
  {
    forall c
      ensures DepsOf(lessDeps, c) == WithoutParent(DepsOf(deps, c), id)
    {
      if c !in seen {
        assert !Edge(children, id, c);
        assert !IsParent(deps, id, c);
      }
    }
  }

  lemma WithoutChildIsSound(deps: Dependencies, children: Children, live: set<EntryID>,
                            lessDeps: Dependencies, less: Children, id: EntryID)
    requires Sound(deps, children, live) && WithoutChild(deps, children, lessDeps, less, id) && Tidy(lessDeps, less)
    ensures Sound(lessDeps, less, live)
  {
    hide Acyclic, Tidy, Without;
    forall p, c
      ensures Edge(less, p, c) <==> Edge(children, p, c) && c != id
      ensures IsParent(lessDeps, p, c) <==> IsParent(deps, p, c) && c != id
    {
    }
    FewerStaySound(deps, children, live, lessDeps, less, live);
  }

  lemma WithoutAsParentIsSound(deps: Dependencies, children: Children, live: set<EntryID>,
                               lessDeps: Dependencies, less: Children, id: EntryID)
    requires Sound(deps, children, live) && WithoutAsParent(deps, children, lessDeps, less, id) && Tidy(lessDeps, less)
    requires forall p :: !Edge(children, p, id)
    ensures Sound(lessDeps, less, live - {id})
  {
    hide Acyclic, Tidy, WithoutParent, IsParent;
    forall p, c
      ensures Edge(less, p, c) <==> Edge(children, p, c) && p != id
      ensures IsParent(lessDeps, p, c) <==> IsParent(deps, p, c) && p != id
    {
      IsParentWithout(deps, lessDeps, id, p, c);
    }
    FewerStaySound(deps, children, live, lessDeps, less, live - {id});
  }

  class DependencyMaps {
    // Child to its dependency edges, and parent to its children.
    var entryDeps: Dependencies
    var parentToChildren: Children

    constructor ()
      ensures entryDeps == map[] && parentToChildren == map[]
      ensures Valid({})
    {
      entryDeps, parentToChildren := map[], map[];
    }

    ghost predicate Valid(live: set<EntryID>)
      reads this
    {
      Sound(entryDeps, parentToChildren, live)
    }

    /** addDependencyDirect; live are the ids in the entry index. */
    method AddDependencyDirect(child: EntryID, parent: EntryID, condition: TriggerCondition, live: set<EntryID>)
        returns (err: Option<DependencyError>)
      requires Valid(live)
      modifies this
      ensures Valid(live)
      ensures err == if !condition.Valid() then Some(InvalidCondition)
                     else if child !in live || parent !in live then Some(EntryNotFound)
                     else if Reaches(old(parentToChildren), child, parent) then Some(CycleDetected)
                     else None
      ensures err.Some? ==> entryDeps == old(entryDeps) && parentToChildren == old(parentToChildren)
      ensures err.None? ==> entryDeps == AddedDep(old(entryDeps), child, Dependency(parent, condition))
      ensures err.None? ==> parentToChildren == AddedChild(old(parentToChildren), parent, child)
    {
      hide Reaches, Acyclic, Distinct, IsParent, Edge, Tidy;
      if !condition.Valid() {
        return Some(InvalidCondition);
      }
      if child !in live {
        return Some(EntryNotFound);
      }
      if parent !in live {
        return Some(EntryNotFound);
      }
      CycleIsReached(entryDeps, parentToChildren, child, parent);
      var cycle := HasCycle(entryDeps, child, parent);
      if cycle {
        return Some(CycleDetected);
      }
      var d := Dependency(parent, condition);
      AddKeepsSound(entryDeps, parentToChildren, live, child, d);
      if d in DepsOf(entryDeps, child) {
        KnownEdge(entryDeps, parentToChildren, child, d);
        return None;
      }
      entryDeps := entryDeps[child := DepsOf(entryDeps, child) + [d]];
      var cs := Successors(parentToChildren, parent);
      AddedChildIs(parentToChildren, parent, child);
      if child !in cs {
        parentToChildren := parentToChildren[parent := cs + [child]];
      }
      return None;
    }

    static lemma KnownEdge(deps: Dependencies, children: Children, child: EntryID, d: Dependency)
      requires Inverse(deps, children) && d in DepsOf(deps, child)
      ensures AddedDep(deps, child, d) == deps && AddedChild(children, d.parent, child) == children
    {
      ParentIs(deps, child, d);
    }

    static lemma AddedChildIs(children: Children, parent: EntryID, child: EntryID)
      ensures AddedChild(children, parent, child)
              == if child in Successors(children, parent) then children
                 else children[parent := Successors(children, parent) + [child]]
    {
    }

    /** removeDependencyDirect: every edge from parent to child goes, whatever its condition. */
    method RemoveDependencyDirect(child: EntryID, parent: EntryID, ghost live: set<EntryID>)
      requires Valid(live)
      modifies this
      ensures Valid(live)
      ensures entryDeps == RemovedDeps(old(entryDeps), child, parent)
      ensures parentToChildren == RemovedChild(old(parentToChildren), parent, child)
    {
      hide Sound, Distinct, Without, WithoutParent, WithChildren;
      RemoveKeepsSound(entryDeps, parentToChildren, live, child, parent);
      ChildrenDistinct(entryDeps, parentToChildren, live, parent);
      StoredDeps(entryDeps, child, WithoutParent(DepsOf(entryDeps, child), parent));
      entryDeps := entryDeps[child := WithoutParent(DepsOf(entryDeps, child), parent)];
      if |entryDeps[child]| == 0 {
        entryDeps := entryDeps - {child};
      }
      var rest := DeleteFirst(Successors(parentToChildren, parent), child);
      parentToChildren := WithChildren(parentToChildren, parent, rest);
    }

    /** removeEdgesAsChild */
    method RemoveEdgesAsChild(id: EntryID, ghost live: set<EntryID>)
      requires Valid(live)
      modifies this
      ensures Valid(live)
      ensures WithoutChild(old(entryDeps), old(parentToChildren), entryDeps, parentToChildren, id)
    {
      hide Sound, Without, RemovedChild, ChildDropped, WithoutChild, Tidy, WithChildren;
      if id !in entryDeps {
        NoParents(entryDeps, parentToChildren, live, id);
        return;
      }
      SoundIsTidy(entryDeps, parentToChildren, live);
      ghost var children, seen: set<EntryID> := parentToChildren, {};
      NothingDropped(children, id);
      var ds := entryDeps[id];
      for i := 0 to |ds|
        invariant entryDeps == old(entryDeps)
        invariant ChildDropped(children, parentToChildren, seen, id) && Tidy(entryDeps, parentToChildren)
        invariant forall k :: 0 <= k < i ==> ds[k].parent in seen
      {
        var p := ds[i].parent;
        ChildDroppedOneMore(children, parentToChildren, seen, id, p);
        RemovedIsTidy(entryDeps, parentToChildren, id, p);
        TidyLists(entryDeps, parentToChildren, p);
        RemovedChildDef(parentToChildren, p, id);
        var rest := DeleteFirst(Successors(parentToChildren, p), id);
        parentToChildren := WithChildren(parentToChildren, p, rest);
        seen := seen + {p};
      }
      AllParentsSeen(entryDeps, children, live, parentToChildren, seen, id);
      TidyWithoutKey(entryDeps, parentToChildren, id);
      entryDeps := entryDeps - {id};
      WithoutChildIsSound(old(entryDeps), children, live, entryDeps, parentToChildren, id);
    }

    /** removeEdgesAsParent, of an entry that is no child any more */
    method RemoveEdgesAsParent(id: EntryID, ghost live: set<EntryID>)
      requires Valid(live) && forall p :: !Edge(parentToChildren, p, id)
      modifies this
      ensures Valid(live - {id})
      ensures WithoutAsParent(old(entryDeps), old(parentToChildren), entryDeps, parentToChildren, id)
    {
      hide Sound, WithoutParent, RemovedDeps, ParentDropped, WithoutAsParent, Tidy, WithDeps, Edge;
      SoundIsTidy(entryDeps, parentToChildren, live);
      if id !in parentToChildren {
        NoChildren(entryDeps, parentToChildren, live, id);
        WithoutAsParentIsSound(entryDeps, parentToChildren, live, entryDeps, parentToChildren, id);
        return;
      }
      ghost var deps, seen: set<EntryID> := entryDeps, {};
      NothingDroppedFrom(deps, id);
      var cs := parentToChildren[id];
      for i := 0 to |cs|
        invariant parentToChildren == old(parentToChildren)
        invariant ParentDropped(deps, entryDeps, seen, id) && Tidy(entryDeps, parentToChildren)
        invariant forall k :: 0 <= k < i ==> cs[k] in seen
      {
        var c := cs[i];
        ParentDroppedOneMore(deps, entryDeps, seen, id, c);
        RemovedIsTidy(entryDeps, parentToChildren, c, id);
        RemovedDepsDef(entryDeps, c, id);
        StoredDeps(entryDeps, c, WithoutParent(DepsOf(entryDeps, c), id));
        entryDeps := entryDeps[c := WithoutParent(DepsOf(entryDeps, c), id)];
        if |entryDeps[c]| == 0 {
          entryDeps := entryDeps - {c};
        }
        seen := seen + {c};
      }
      AllChildrenSeen(deps, parentToChildren, live, entryDeps, seen, id);
      TidyWithoutKey(entryDeps, parentToChildren, id);
      parentToChildren := parentToChildren - {id};
      WithoutAsParentIsSound(deps, old(parentToChildren), live, entryDeps, parentToChildren, id);
    }

    /** removeEntryDependencies: every edge of id goes, all others stay. */
    method RemoveEntryDependencies(id: EntryID, ghost live: set<EntryID>)
      requires Valid(live)
      modifies this
      ensures Valid(live - {id})
      ensures forall p :: Successors(parentToChildren, p)
                          == if p == id then [] else Without(Successors(old(parentToChildren), p), id)
      ensures forall c :: DepsOf(entryDeps, c) == if c == id then [] else WithoutParent(DepsOf(old(entryDeps), c), id)
    {
      hide Sound, Without, WithoutParent;
      RemoveEdgesAsChild(id, live);
      RemoveEdgesAsParent(id, live);
    }

    static lemma SoundIsTidy(deps: Dependencies, children: Children, live: set<EntryID>)
      requires Sound(deps, children, live)
      ensures Tidy(deps, children)
    {
    }

    static lemma TidyLists(deps: Dependencies, children: Children, parent: EntryID)
      requires Tidy(deps, children)
      ensures Distinct(Successors(children, parent))
    {
      DistinctEmpty<EntryID>();
    }

    static lemma TidyWithoutKey(deps: Dependencies, children: Children, id: EntryID)
      requires Tidy(deps, children)
      ensures Tidy(deps - {id}, children) && Tidy(deps, children - {id})
    {
    }

    static lemma NothingDropped(children: Children, id: EntryID)
      ensures ChildDropped(children, children, {}, id)
    {
    }

    static lemma NothingDroppedFrom(deps: Dependencies, id: EntryID)
      ensures ParentDropped(deps, deps, {}, id)
    {
    }

    static lemma NoParents(deps: Dependencies, children: Children, live: set<EntryID>, id: EntryID)
      requires Sound(deps, children, live) && id !in deps
      ensures WithoutChild(deps, children, deps, children, id)
    {
      NothingDropped(children, id);
      AllParentsSeen(deps, children, live, children, {}, id);
      assert deps - {id} == deps;
    }

    static lemma NoChildren(deps: Dependencies, children: Children, live: set<EntryID>, id: EntryID)
      requires Sound(deps, children, live) && id !in children
      ensures WithoutAsParent(deps, children, deps, children, id)
    {
      NothingDroppedFrom(deps, id);
      AllChildrenSeen(deps, children, live, deps, {}, id);
      assert children - {id} == children;
    }

    static lemma RemovedChildDef(children: Children, p: EntryID, id: EntryID)
      ensures RemovedChild(children, p, id) == WithChildren(children, p, Without(Successors(children, p), id))
    {
    }

    static lemma RemovedDepsDef(deps: Dependencies, c: EntryID, id: EntryID)
      ensures RemovedDeps(deps, c, id) == WithDeps(deps, c, WithoutParent(DepsOf(deps, c), id))
    {
    }
  }
}
