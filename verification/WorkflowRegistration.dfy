/** Registering a workflow: all of its steps and edges are added to the scheduler, or nothing is. */
module WorkflowRegistration {
  import opened Digraphs
  import opened Entries
  import opened EntryDependencies
  import opened Options
  import opened Schedulers
  import opened WorkflowSteps
  import opened WorkflowTypes

  datatype AddError = InvalidWorkflow(error: WorkflowError) | SpecDoesNotParse | NameTaken | TooManyEntries
                    | BadDependency(dependency: DependencyError)

  // ----- names and ids -----

  /** index is `was` and besides one entry for each id in ids, named as ids says. */
  ghost predicate Registered(was: map<int, Entry>, index: map<int, Entry>, ids: map<string, int>) {
    && (forall id :: id in was ==> id in index && index[id] == was[id])
    && (forall n :: n in ids ==> ids[n] !in was && ids[n] in index && index[ids[n]].name == n)
    && (forall id :: id in index && id !in was ==> index[id].name in ids && ids[index[id].name] == id)
  }

  lemma RegisteredOneMore(was: map<int, Entry>, index: map<int, Entry>, ids: map<string, int>, id: int, e: Entry)
    requires Registered(was, index, ids) && id !in index && e.name !in ids
    ensures Registered(was, index[id := e], ids[e.name := id])
  {
  }

  /** Outside `added` the dependency maps are as they were. */
  ghost predicate SameOutside(wasDeps: Dependencies, wasChildren: Children, deps: Dependencies, children: Children,
                              added: set<int>) {
    forall x :: x !in added
           ==> DepsOf(deps, x) == DepsOf(wasDeps, x) && Successors(children, x) == Successors(wasChildren, x)
  }

  lemma RemovalStaysInside(wasDeps: Dependencies, wasChildren: Children, live: set<int>, deps: Dependencies,
                           children: Children,
                           added: set<int>, id: int, lessDeps: Dependencies, less: Children)
    requires Sound(wasDeps, wasChildren, live) && SameOutside(wasDeps, wasChildren, deps, children, added)
    requires id in added && added !! live
    requires forall p :: Successors(less, p) == if p == id then [] else Without(Successors(children, p), id)
    requires forall c :: DepsOf(lessDeps, c) == if c == id then [] else WithoutParent(DepsOf(deps, c), id)
    ensures SameOutside(wasDeps, wasChildren, lessDeps, less, added)
  {
    hide Without, WithoutParent, Acyclic;
    forall x | x !in added
      ensures DepsOf(lessDeps, x) == DepsOf(wasDeps, x) && Successors(less, x) == Successors(wasChildren, x)
    {
      assert !Edge(wasChildren, x, id);
      forall d | d in DepsOf(wasDeps, x)
        ensures d.parent != id
      {
        assert IsParent(wasDeps, d.parent, x);
        assert Edge(wasChildren, d.parent, x);
      }
    }
  }

  /** Once the added entries have no edges left, the maps are what they were. */
  lemma MapsRestored(wasDeps: Dependencies, wasChildren: Children, live: set<int>, deps: Dependencies,
                     children: Children,
                     added: set<int>)
    requires Sound(wasDeps, wasChildren, live) && Tidy(deps, children) && added !! live
    requires SameOutside(wasDeps, wasChildren, deps, children, added)
    requires forall x :: x in added ==> DepsOf(deps, x) == [] && Successors(children, x) == []
    ensures deps == wasDeps && children == wasChildren
  {
    hide Acyclic;
    forall x
      ensures DepsOf(deps, x) == DepsOf(wasDeps, x) && Successors(children, x) == Successors(wasChildren, x)
    {
      if x in added {
        NotLive(wasDeps, wasChildren, live, x);
      }
    }
    SameLists(deps, children, wasDeps, wasChildren);
  }

  lemma NotLive(deps: Dependencies, children: Children, live: set<int>, x: int)
    requires Sound(deps, children, live) && x !in live
    ensures DepsOf(deps, x) == [] && Successors(children, x) == []
  {
    hide Acyclic;
    var ds, cs := DepsOf(deps, x), Successors(children, x);
    assert forall y :: !Edge(children, x, y) && !Edge(children, y, x);
    assert forall d :: d in ds ==> IsParent(deps, d.parent, x);
    assert forall y :: y in cs ==> Edge(children, x, y);
    SomeMember(ds);
    SomeMember(cs);
  }

  lemma SomeMember<T>(s: seq<T>)
    ensures s != [] ==> exists x :: x in s
  {
    if s != [] {
      assert s[0] in s;
    }
  }

  lemma SameLists(deps: Dependencies, children: Children, otherDeps: Dependencies, otherChildren: Children)
    requires Tidy(deps, children) && Tidy(otherDeps, otherChildren)
    requires forall x :: DepsOf(deps, x) == DepsOf(otherDeps, x)
                         && Successors(children, x) == Successors(otherChildren, x)
    ensures deps == otherDeps && children == otherChildren
  {
    hide Distinct;
    forall x
      ensures x in deps <==> x in otherDeps
      ensures x in deps ==> deps[x] == otherDeps[x]
      ensures x in children <==> x in otherChildren
      ensures x in children ==> children[x] == otherChildren[x]
    {
      assert DepsOf(deps, x) == DepsOf(otherDeps, x) && Successors(children, x) == Successors(otherChildren, x);
    }
    assert deps == otherDeps && children == otherChildren;
  }

  // ----- the new edges mirror those of the names -----

  /** Every edge into a new entry comes from a new entry, and the names have that edge too. */
  ghost predicate Mirrors(g: NameDeps, ids: map<string, int>, deps: Dependencies) {
    forall n, d :: n in ids && d in DepsOf(deps, ids[n]) ==> MirrorsEdge(g, ids, n, d.parent)
  }

  ghost predicate MirrorsEdge(g: NameDeps, ids: map<string, int>, n: string, parent: int) {
    exists m :: m in ids && ids[m] == parent && Edge(g, n, m)
  }

  ghost predicate Injective(ids: map<string, int>) {
    forall a, b :: a in ids && b in ids && ids[a] == ids[b] ==> a == b
  }

  /** Going down from the new entry named m only leads to new entries, from whose names m is reached. */
  lemma {:induction false} MirroredWalk(g: NameDeps, ids: map<string, int>, deps: Dependencies, children: Children,
                                       path: seq<int>, m: string) returns (last: string)
    requires Inverse(deps, children) && Mirrors(g, ids, deps) && m in ids && Injective(ids)
    requires forall p, c :: Edge(children, p, c) && p in ids.Values ==> c in ids.Values
    requires Walk(children, path) && path[0] == ids[m]
    ensures last in ids && ids[last] == path[|path| - 1] && Reaches(g, last, m)
    decreases |path|
  {
    hide Reaches;
    if |path| == 1 {
      last := m;
      ReachesItself(g, m);
    } else {
      var c := path[1];
      assert Edge(children, path[0], c);
      assert ids[m] in ids.Values;
      var n :| n in ids && ids[n] == c;
      assert IsParent(deps, path[0], c);
      var d :| d in DepsOf(deps, c) && d.parent == path[0];
      assert MirrorsEdge(g, ids, n, d.parent);
      last := MirroredWalk(g, ids, deps, children, path[1..], n);
      ReachesBeforeEdge(g, last, n, m);
    }
  }

  /** An edge that acyclic names have closes no cycle among the entries. */
  lemma NoCycleYet(g: NameDeps, ids: map<string, int>, deps: Dependencies, children: Children, child: string,
                   parent: string)
    requires Inverse(deps, children) && Mirrors(g, ids, deps) && child in ids && parent in ids && Injective(ids)
    requires forall p, c :: Edge(children, p, c) && p in ids.Values ==> c in ids.Values
    requires Acyclic(g) && Edge(g, child, parent)
    ensures !Reaches(children, ids[child], ids[parent])
  {
    hide Edge, Inverse, Mirrors;
    if Reaches(children, ids[child], ids[parent]) {
      hide Reaches;
      var path := WalkOf(children, ids[child], ids[parent]);
      var last := MirroredWalk(g, ids, deps, children, path, child);
    }
  }

  // ----- rollback -----

  /** The rollback has come to `order[i..]`: the index holds what it held and the entries with those names, and the
      dependency maps differ from what they were only there. */
  ghost predicate PartlyRolledBack(was: map<int, Entry>, index: map<int, Entry>, ids: map<string, int>,
                                   order: seq<string>, i: nat)
    requires i <= |order|
  {
    && (forall id :: id in was ==> id in index && index[id] == was[id])
    && (forall id :: id in index && id !in was
                     ==> exists k :: i <= k < |order| && order[k] in ids && ids[order[k]] == id)
  }

  /** Those that were removed have no edges. */
  ghost predicate NoEdges(deps: Dependencies, children: Children, ids: map<string, int>, order: seq<string>, i: nat)
    requires i <= |order|
  {
    forall k :: 0 <= k < i && order[k] in ids ==>
      DepsOf(deps, ids[order[k]]) == [] && Successors(children, ids[order[k]]) == []
  }

  lemma RolledBackOneMore(was: map<int, Entry>, index: map<int, Entry>, ids: map<string, int>, order: seq<string>,
                          i: nat)
    requires i < |order| && order[i] in ids && ids[order[i]] !in was
    requires PartlyRolledBack(was, index, ids, order, i)
    ensures PartlyRolledBack(was, index - {ids[order[i]]}, ids, order, i + 1)
  {
  }

  lemma NoEdgesOneMore(deps: Dependencies, children: Children, lessDeps: Dependencies, less: Children,
                       ids: map<string, int>, order: seq<string>, i: nat)
    requires i < |order| && order[i] in ids && NoEdges(deps, children, ids, order, i)
    requires var id := ids[order[i]];
             && (forall p :: Successors(less, p) == if p == id then [] else Without(Successors(children, p), id))
             && (forall c :: DepsOf(lessDeps, c) == if c == id then [] else WithoutParent(DepsOf(deps, c), id))
    ensures NoEdges(lessDeps, less, ids, order, i + 1)
  {
    forall k | 0 <= k < i + 1 && order[k] in ids
      ensures DepsOf(lessDeps, ids[order[k]]) == [] && Successors(less, ids[order[k]]) == []
    {
      if k < i {
        assert DepsOf(deps, ids[order[k]]) == [] && Successors(children, ids[order[k]]) == [];
      }
    }
  }

  lemma WholeIndexRestored(was: map<int, Entry>, index: map<int, Entry>, ids: map<string, int>, order: seq<string>)
    requires PartlyRolledBack(was, index, ids, order, |order|)
    ensures index == was
  {
    forall id
      ensures id in index <==> id in was
      ensures id in index ==> index[id] == was[id]
    {
    }
    assert index == was;
  }

  lemma RegisteredIsPartlyRolledBack(was: map<int, Entry>, index: map<int, Entry>, ids: map<string, int>,
                                     order: seq<string>)
    requires Registered(was, index, ids) && forall n :: n in ids ==> n in order
    ensures PartlyRolledBack(was, index, ids, order, 0)
  {
    forall id | id in index && id !in was
      ensures exists k :: 0 <= k < |order| && order[k] in ids && ids[order[k]] == id
    {
      var n := index[id].name;
      assert n in order;
      var k :| 0 <= k < |order| && order[k] == n;
    }
  }

  /** The closure rollback: remove the entries that were added, in order. */
  method Rollback(c: Scheduler, order: seq<string>, ids: map<string, int>,
                  ghost was: map<int, Entry>, ghost wasDeps: Dependencies, ghost wasChildren: Children)
    requires c.Valid() && Registered(was, c.entryIndex, ids)
    requires forall n :: n in order <==> n in ids
    requires Distinct(order)
    requires Sound(wasDeps, wasChildren, was.Keys)
    requires SameOutside(wasDeps, wasChildren, c.deps.entryDeps, c.deps.parentToChildren, ids.Values)
    modifies c`entryIndex, c`nameIndex, c`entryCount, c.entries, c.entries.Members()`heapIndex, c.deps
    ensures c.Valid() && c.entryIndex == was && c.deps.entryDeps == wasDeps && c.deps.parentToChildren == wasChildren
  {
    hide Scheduler.Valid, Registered, PartlyRolledBack, NoEdges, SameOutside, Sound, Without, WithoutParent;
    hide Distinct, Tidy;
    hide Successors, DepsOf;
    NewIds(was, c.entryIndex, ids);
    RegisteredIsPartlyRolledBack(was, c.entryIndex, ids, order);
    NoEdgesYet(c.deps.entryDeps, c.deps.parentToChildren, ids, order);
    for i := 0 to |order|
      invariant c.Valid() && c.entries.Members() <= old(c.entries.Members())
      invariant PartlyRolledBack(was, c.entryIndex, ids, order, i)
      invariant forall k :: i <= k < |order| ==> order[k] in ids && ids[order[k]] in c.entryIndex
      invariant NoEdges(c.deps.entryDeps, c.deps.parentToChildren, ids, order, i)
      invariant SameOutside(wasDeps, wasChildren, c.deps.entryDeps, c.deps.parentToChildren, ids.Values)
    {
      ghost var index, deps, children := c.entryIndex, c.deps.entryDeps, c.deps.parentToChildren;
      var id := ids[order[i]];
      assert id in ids.Values;
      OtherNamesOtherIds(ids, order, i);
      c.RemoveEntry(id);
      RolledBackOneMore(was, index, ids, order, i);
      NoEdgesOneMore(deps, children, c.deps.entryDeps, c.deps.parentToChildren, ids, order, i);
      RemovalStaysInside(wasDeps, wasChildren, was.Keys, deps, children, ids.Values, id, c.deps.entryDeps,
          c.deps.parentToChildren);
    }
    WholeIndexRestored(was, c.entryIndex, ids, order);
    NoEdgesLeft(c.deps.entryDeps, c.deps.parentToChildren, ids, order);
    ValidIsTidy(c);
    MapsRestored(wasDeps, wasChildren, was.Keys, c.deps.entryDeps, c.deps.parentToChildren, ids.Values);
  }

  lemma NewIds(was: map<int, Entry>, index: map<int, Entry>, ids: map<string, int>)
    requires Registered(was, index, ids)
    ensures ids.Values !! was.Keys && Injective(ids) && forall n :: n in ids ==> ids[n] in index && ids[n] !in was
  {
  }

  lemma OtherNamesOtherIds(ids: map<string, int>, order: seq<string>, i: nat)
    requires Injective(ids) && Distinct(order) && i < |order| && forall k :: i <= k < |order| ==> order[k] in ids
    ensures forall k :: i < k < |order| ==> ids[order[k]] != ids[order[i]]
  {
  }

  lemma NoEdgesYet(deps: Dependencies, children: Children, ids: map<string, int>, order: seq<string>)
    ensures NoEdges(deps, children, ids, order, 0)
  {
  }

  lemma NoEdgesLeft(deps: Dependencies, children: Children, ids: map<string, int>, order: seq<string>)
    requires NoEdges(deps, children, ids, order, |order|) && forall n :: n in ids ==> n in order
    ensures forall x :: x in ids.Values ==> DepsOf(deps, x) == [] && Successors(children, x) == []
  {
    forall x | x in ids.Values
      ensures DepsOf(deps, x) == [] && Successors(children, x) == []
    {
      var n :| n in ids && ids[n] == x;
      var k :| 0 <= k < |order| && order[k] == n;
    }
  }

  lemma ValidIsTidy(c: Scheduler)
    requires c.Valid()
    ensures Sound(c.deps.entryDeps, c.deps.parentToChildren, c.entryIndex.Keys)
    ensures Tidy(c.deps.entryDeps, c.deps.parentToChildren) && Inverse(c.deps.entryDeps, c.deps.parentToChildren)
  {
  }

  // ----- registration -----

  /** The names the index knows are those it knew and the new ones. */
  ghost predicate NamesGrew(was: map<string, Entry>, names: map<string, Entry>, ids: map<string, int>) {
    forall n :: n in names <==> n in was || (n in ids && n != "")
  }

  function StepSettings(s: WorkflowStep): Settings {
    Settings(s.name, 0, false, false, false, None, Skip, 0)
  }

  /** e has the schedule of the step and otherwise what a job without options has. */
  ghost predicate MadeFor(s: WorkflowStep, e: Entry)
    reads e`schedule, e`next, e`prev, e`paused, e`runImmediately
  {
    && e.name == s.name && Some(e.schedule) == s.schedule && e.next.None? && e.prev.None?
    && !e.paused && !e.runOnce && !e.runImmediately && e.priority == 0 && e.missedPolicy.Skip? && e.grace == 0
  }

  /** The step has an entry made for it. */
  ghost predicate StepEntry(s: WorkflowStep, ids: map<string, int>, index: map<int, Entry>)
    reads index.Values`schedule, index.Values`next, index.Values`prev, index.Values`paused, index.Values`runImmediately
  {
    s.name in ids && ids[s.name] in index && MadeFor(s, index[ids[s.name]])
  }

  lemma StepEntriesGrow(steps: seq<WorkflowStep>, i: nat, ids: map<string, int>, index: map<int, Entry>, id: int,
                        e: Entry)
    requires i < |steps| && id !in index && e.name !in ids && MadeFor(steps[i], e)
    requires forall k :: 0 <= k < i ==> StepEntry(steps[k], ids, index)
    ensures forall k :: 0 <= k <= i ==> StepEntry(steps[k], ids[e.name := id], index[id := e])
  {
    hide MadeFor;
    MadeForName(steps[i], e);
  }

  lemma MadeForName(s: WorkflowStep, e: Entry)
    requires MadeFor(s, e)
    ensures e.name == s.name
  {
  }

  /** AddJob for one step. */
  method AddStep(c: Scheduler, s: WorkflowStep) returns (id: int, failed: bool)
    requires c.Valid() && s.schedule.Some? && s.name !in c.nameIndex
    modifies c`entryIndex, c`nameIndex, c`entryCount, c`nextID, c.entries, c.entries.Members()`heapIndex
    ensures c.Valid() && failed == (c.maxEntries > 0 && old(c.entryCount) >= c.maxEntries)
    ensures failed ==> c.entryIndex == old(c.entryIndex) && c.nameIndex == old(c.nameIndex)
                       && c.entryCount == old(c.entryCount) && c.entries.slots == old(c.entries.slots)
    ensures !failed ==>
              && id !in old(c.entryIndex) && id in c.entryIndex
              && var e := c.entryIndex[id];
                 && fresh(e) && e.name == s.name && MadeFor(s, e)
                 && c.entryIndex == old(c.entryIndex)[id := e]
                 && c.nameIndex == (if e.name != "" then old(c.nameIndex)[e.name := e] else old(c.nameIndex))
                 && c.entries.Members() == old(c.entries.Members()) + {e}
    ensures !failed && c.maxEntries > 0 ==> c.entryCount == old(c.entryCount) + 1
  {
    hide Scheduler.Valid;
    var err;
    id, err := c.ScheduleJob(s.schedule.value, StepSettings(s));
    failed := err.Some?;
  }

  /** One turn of the first loop of registerWorkflowSteps. */
  method AddNext(c: Scheduler, steps: seq<WorkflowStep>, i: nat, ids: map<string, int>,
                 ghost was: map<int, Entry>, ghost names: map<string, Entry>)
      returns (id: int, failed: bool)
    requires c.Valid() && i < |steps| && steps[i].schedule.Some?
    requires steps[i].name !in c.nameIndex && steps[i].name !in ids
    requires Registered(was, c.entryIndex, ids) && NamesGrew(names, c.nameIndex, ids)
    requires forall k :: 0 <= k < i ==> StepEntry(steps[k], ids, c.entryIndex)
    modifies c`entryIndex, c`nameIndex, c`entryCount, c`nextID, c.entries, c.entries.Members()`heapIndex
    ensures c.Valid() && fresh(c.entries.Members() - old(c.entries.Members()))
    ensures failed == (c.maxEntries > 0 && old(c.entryCount) >= c.maxEntries)
    ensures failed ==> Registered(was, c.entryIndex, ids)
    ensures !failed && c.maxEntries > 0 ==> c.entryCount == old(c.entryCount) + 1
    ensures !failed ==>
              var more := ids[steps[i].name := id];
              && Registered(was, c.entryIndex, more) && NamesGrew(names, c.nameIndex, more)
              && forall k :: 0 <= k <= i ==> StepEntry(steps[k], more, c.entryIndex)
  {
    hide Scheduler.Valid, Registered, NamesGrew, StepEntry, MadeFor;
    ghost var index, known := c.entryIndex, c.nameIndex;
    id, failed := AddStep(c, steps[i]);
    if !failed {
      RegisteredOneMore(was, index, ids, id, c.entryIndex[id]);
      NamesGrewOneMore(names, known, ids, steps[i].name, id, c.entryIndex[id]);
      StepEntriesGrow(steps, i, ids, index, id, c.entryIndex[id]);
    }
  }

  /** The first loop of registerWorkflowSteps: one entry per step, until the limit is reached. */
  method AddEntries(c: Scheduler, steps: seq<WorkflowStep>)
      returns (order: seq<string>, ids: map<string, int>, err: Option<AddError>)
    requires c.Valid() && Distinct(StepNames(steps))
    requires forall s :: s in steps ==> s.schedule.Some? && s.name !in c.nameIndex
    modifies c`entryIndex, c`nameIndex, c`entryCount, c`nextID, c.entries, c.entries.Members()`heapIndex
    ensures c.Valid() && Registered(old(c.entryIndex), c.entryIndex, ids)
    ensures fresh(c.entries.Members() - old(c.entries.Members()))
    ensures Distinct(order) && forall n :: n in order <==> n in ids
    ensures err == if c.maxEntries > 0 && old(c.entryCount) + |steps| > c.maxEntries then Some(TooManyEntries) else None
    ensures err.None? ==> order == StepNames(steps) && forall s :: s in steps ==> StepEntry(s, ids, c.entryIndex)
  {
    hide Scheduler.Valid, Registered, NamesGrew, Distinct, StepEntry, MadeFor;
    order, ids := [], map[];
    ghost var was, names, count := c.entryIndex, c.nameIndex, c.entryCount;
    NothingRegistered(was, names);
    ValidIsWithin(c);
    for i := 0 to |steps|
      invariant c.Valid() && fresh(c.entries.Members() - old(c.entries.Members()))
      invariant Registered(was, c.entryIndex, ids) && NamesGrew(names, c.nameIndex, ids)
      invariant order == StepNames(steps)[..i] && forall n :: n in order <==> n in ids
      invariant c.maxEntries > 0 ==> c.entryCount == count + i <= c.maxEntries
      invariant forall k :: 0 <= k < i ==> StepEntry(steps[k], ids, c.entryIndex)
    {
      var s := steps[i];
      PrefixDistinct(StepNames(steps), i);
      NameStillFree(names, c.nameIndex, ids, order, s.name);
      var id, failed := AddNext(c, steps, i, ids, was, names);
      if failed {
        return order, ids, Some(TooManyEntries);
      }
      order := order + [s.name];
      ids := ids[s.name := id];
    }
    assert StepNames(steps)[..|steps|] == StepNames(steps);
    return order, ids, None;
  }

  lemma NothingRegistered(was: map<int, Entry>, names: map<string, Entry>)
    ensures Registered(was, was, map[]) && NamesGrew(names, names, map[])
  {
  }

  lemma ValidIsWithin(c: Scheduler)
    requires c.Valid()
    ensures c.maxEntries > 0 ==> c.entryCount <= c.maxEntries
  {
  }

  lemma PrefixDistinct(names: seq<string>, i: nat)
    requires Distinct(names) && i < |names|
    ensures Distinct(names[..i]) && names[i] !in names[..i]
  {
  }

  lemma NameStillFree(was: map<string, Entry>, names: map<string, Entry>, ids: map<string, int>, order: seq<string>,
                      n: string)
    requires NamesGrew(was, names, ids) && n !in was && n !in order && forall m :: m in order <==> m in ids
    ensures n !in names && n !in ids
  {
  }

  lemma NamesGrewOneMore(was: map<string, Entry>, names: map<string, Entry>, ids: map<string, int>, n: string,
                         id: int, e: Entry)
    requires NamesGrew(was, names, ids)
    ensures NamesGrew(was, if n != "" then names[n := e] else names, ids[n := id])
  {
  }

  /** A step's edges are in the maps, and nothing else is. */
  ghost predicate Wired(wanted: seq<StepDep>, ids: map<string, int>, ds: seq<Dependency>) {
    && (forall w :: w in wanted ==> w.parentName in ids && Dependency(ids[w.parentName], w.condition) in ds)
    && (forall d :: d in ds ==> IsWanted(wanted, ids, d))
  }

  ghost predicate IsWanted(wanted: seq<StepDep>, ids: map<string, int>, d: Dependency) {
    exists w :: w in wanted && w.parentName in ids && d == Dependency(ids[w.parentName], w.condition)
  }

  lemma WiredOneMore(wanted: seq<StepDep>, ids: map<string, int>, deps: Dependencies, child: int, j: nat)
    requires j < |wanted| && wanted[j].parentName in ids && Wired(wanted[..j], ids, DepsOf(deps, child))
    ensures var d := Dependency(ids[wanted[j].parentName], wanted[j].condition);
            Wired(wanted[..j + 1], ids, DepsOf(AddedDep(deps, child, d), child))
  {
    var d := Dependency(ids[wanted[j].parentName], wanted[j].condition);
    var ds, more := DepsOf(deps, child), DepsOf(AddedDep(deps, child, d), child);
    assert wanted[..j + 1] == wanted[..j] + [wanted[j]];
    assert forall e :: e in more <==> e in ds || e == d;
    forall e | e in more
      ensures IsWanted(wanted[..j + 1], ids, e)
    {
      if e in ds {
        assert IsWanted(wanted[..j], ids, e);
        var w :| w in wanted[..j] && w.parentName in ids && e == Dependency(ids[w.parentName], w.condition);
        assert w in wanted[..j + 1];
      } else {
        assert wanted[j] in wanted[..j + 1];
      }
    }
  }

  lemma OthersUnaffected(deps: Dependencies, children: Children, child: int, d: Dependency, x: int)
    ensures x != child ==> DepsOf(AddedDep(deps, child, d), x) == DepsOf(deps, x)
    ensures x != d.parent ==> Successors(AddedChild(children, d.parent, child), x) == Successors(children, x)
  {
  }

  lemma MirrorsOneMore(g: NameDeps, ids: map<string, int>, deps: Dependencies, child: string, parent: string,
                       c: TriggerCondition)
    requires Mirrors(g, ids, deps) && child in ids && parent in ids && Edge(g, child, parent) && Injective(ids)
    ensures Mirrors(g, ids, AddedDep(deps, ids[child], Dependency(ids[parent], c)))
  {
    hide Edge;
    var d := Dependency(ids[parent], c);
    var more := AddedDep(deps, ids[child], d);
    forall n, e | n in ids && e in DepsOf(more, ids[n])
      ensures MirrorsEdge(g, ids, n, e.parent)
    {
      if e !in DepsOf(deps, ids[n]) {
        assert n == child && e == d;
      }
    }
  }

  lemma StaysOutside(wasDeps: Dependencies, wasChildren: Children, deps: Dependencies, children: Children,
                     added: set<int>,
                     child: int, d: Dependency)
    requires SameOutside(wasDeps, wasChildren, deps, children, added) && child in added && d.parent in added
    ensures SameOutside(wasDeps, wasChildren, AddedDep(deps, child, d), AddedChild(children, d.parent, child), added)
  {
    hide Edge;
    forall x | x !in added
      ensures DepsOf(AddedDep(deps, child, d), x) == DepsOf(wasDeps, x)
      ensures Successors(AddedChild(children, d.parent, child), x) == Successors(wasChildren, x)
    {
      OthersUnaffected(deps, children, child, d, x);
    }
  }

  /** New entries have only new ones below them. */
  lemma NewLeadsToNew(wasDeps: Dependencies, wasChildren: Children, live: set<int>, deps: Dependencies,
                      children: Children,
                      added: set<int>)
    requires Sound(wasDeps, wasChildren, live) && Inverse(deps, children) && added !! live
    requires SameOutside(wasDeps, wasChildren, deps, children, added)
    ensures forall p, c :: Edge(children, p, c) && p in added ==> c in added
  {
    hide Acyclic;
    forall p, c | Edge(children, p, c) && c !in added
      ensures p !in added
    {
      assert IsParent(deps, p, c);
      assert IsParent(wasDeps, p, c);
      assert Edge(wasChildren, p, c);
    }
  }

  /** What holds between two edges. */
  ghost predicate EdgesUnderWay(c: Scheduler, g: NameDeps, ids: map<string, int>,
                                was: map<int, Entry>, wasDeps: Dependencies, wasChildren: Children)
    reads c, c.entries, c.deps, c.entries.Members()`heapIndex, c.entries.Members()`next
  {
    && c.Valid() && Registered(was, c.entryIndex, ids)
    && Mirrors(g, ids, c.deps.entryDeps)
    && SameOutside(wasDeps, wasChildren, c.deps.entryDeps, c.deps.parentToChildren, ids.Values)
  }

  /** One turn of the second loop of registerWorkflowSteps; it never finds a cycle. */
  method AddEdge(c: Scheduler, child: string, parent: string, condition: TriggerCondition, ids: map<string, int>,
                 ghost g: NameDeps, ghost was: map<int, Entry>, ghost wasDeps: Dependencies,
                 ghost wasChildren: Children)
      returns (err: Option<DependencyError>)
    requires EdgesUnderWay(c, g, ids, was, wasDeps, wasChildren)
    requires Sound(wasDeps, wasChildren, was.Keys)
    requires child in ids && parent in ids && Acyclic(g) && Edge(g, child, parent)
    modifies c.deps
    ensures EdgesUnderWay(c, g, ids, was, wasDeps, wasChildren)
    ensures err == if condition.Valid() then None else Some(InvalidCondition)
    ensures err.Some? ==> c.deps.entryDeps == old(c.deps.entryDeps)
    ensures err.None? ==>
              c.deps.entryDeps == AddedDep(old(c.deps.entryDeps), ids[child], Dependency(ids[parent], condition))
  {
    hide Scheduler.Valid, Registered, Mirrors, SameOutside, Sound, Acyclic, Edge, Reaches, AddedDep, AddedChild;
    hide Inverse, Tidy;
    ghost var deps, children, d := c.deps.entryDeps, c.deps.parentToChildren, Dependency(ids[parent], condition);
    NewIds(was, c.entryIndex, ids);
    assert ids[child] in ids.Values && ids[parent] in ids.Values;
    ValidIsTidy(c);
    NewLeadsToNew(wasDeps, wasChildren, was.Keys, deps, children, ids.Values);
    NoCycleYet(g, ids, deps, children, child, parent);
    err := c.AddDependency(ids[child], ids[parent], condition);
    if err.None? {
      MirrorsOneMore(g, ids, deps, child, parent, condition);
      StaysOutside(wasDeps, wasChildren, deps, children, ids.Values, ids[child], d);
    }
  }

  /** A step has an edge with a condition that is none of the four. */
  ghost predicate BadCondition(steps: seq<WorkflowStep>)
    reads (set s | s in steps)`deps
  {
    exists s :: s in steps && HasBadCondition(s.deps)
  }

  predicate HasBadCondition(deps: seq<StepDep>) { exists d :: d in deps && !d.condition.Valid() }

  /** Every step's edges are registered, and no others of its entry. */
  ghost predicate AllWired(steps: seq<WorkflowStep>, ids: map<string, int>, deps: Dependencies)
    reads (set s | s in steps)`deps
  {
    forall s :: s in steps ==> s.name in ids && Wired(s.deps, ids, DepsOf(deps, ids[s.name]))
  }

  /** The edges of one step. */
  method AddStepEdges(c: Scheduler, step: WorkflowStep, ids: map<string, int>, ghost g: NameDeps,
                      ghost was: map<int, Entry>, ghost wasDeps: Dependencies, ghost wasChildren: Children)
      returns (err: Option<DependencyError>)
    requires EdgesUnderWay(c, g, ids, was, wasDeps, wasChildren)
    requires Sound(wasDeps, wasChildren, was.Keys) && Acyclic(g)
    requires step.name in ids && DepsOf(c.deps.entryDeps, ids[step.name]) == []
    requires forall d :: d in step.deps ==> d.parentName in ids && Edge(g, step.name, d.parentName)
    modifies c.deps
    ensures EdgesUnderWay(c, g, ids, was, wasDeps, wasChildren)
    ensures err == if HasBadCondition(step.deps) then Some(InvalidCondition) else None
    ensures err.None? ==> Wired(step.deps, ids, DepsOf(c.deps.entryDeps, ids[step.name]))
    ensures forall x :: x != ids[step.name] ==> DepsOf(c.deps.entryDeps, x) == DepsOf(old(c.deps.entryDeps), x)
  {
    hide EdgesUnderWay, Sound, Acyclic, Edge, AddedDep, Wired, DepsOf, HasBadCondition;
    var id := ids[step.name];
    NothingWired(ids);
    assert step.deps[..0] == [];
    for j := 0 to |step.deps|
      invariant EdgesUnderWay(c, g, ids, was, wasDeps, wasChildren)
      invariant forall k :: 0 <= k < j ==> step.deps[k].condition.Valid()
      invariant Wired(step.deps[..j], ids, DepsOf(c.deps.entryDeps, id))
      invariant forall x :: x != id ==> DepsOf(c.deps.entryDeps, x) == DepsOf(old(c.deps.entryDeps), x)
    {
      var w := step.deps[j];
      ghost var deps := c.deps.entryDeps;
      ConditionAt(step.deps, j);
      err := AddEdge(c, step.name, w.parentName, w.condition, ids, g, was, wasDeps, wasChildren);
      if err.Some? {
        return;
      }
      WiredOneMore(step.deps, ids, deps, id, j);
      forall x | x != id
        ensures DepsOf(c.deps.entryDeps, x) == DepsOf(deps, x)
      {
        OthersUnaffected(deps, map[], id, Dependency(ids[w.parentName], w.condition), x);
      }
    }
    assert step.deps[..|step.deps|] == step.deps;
    AllConditionsValid(step.deps);
    return None;
  }

  lemma NothingWired(ids: map<string, int>)
    ensures Wired([], ids, [])
  {
  }

  lemma ConditionAt(deps: seq<StepDep>, j: nat)
    requires j < |deps|
    ensures !deps[j].condition.Valid() ==> HasBadCondition(deps)
    ensures deps[j] in deps
  {
  }

  lemma AllConditionsValid(deps: seq<StepDep>)
    ensures HasBadCondition(deps) <==> exists k :: 0 <= k < |deps| && !deps[k].condition.Valid()
  {
  }

  /** The second loop of registerWorkflowSteps. */
  method AddEdges(c: Scheduler, steps: seq<WorkflowStep>, ids: map<string, int>, ghost g: NameDeps,
                  ghost was: map<int, Entry>, ghost wasDeps: Dependencies, ghost wasChildren: Children)
      returns (err: Option<DependencyError>)
    requires Distinct(StepNames(steps)) && g == NameGraph(steps) && Acyclic(g)
    requires forall s :: s in steps ==> s.name in ids && forall d :: d in s.deps ==> d.parentName in ids
    requires EdgesUnderWay(c, g, ids, was, wasDeps, wasChildren) && Sound(wasDeps, wasChildren, was.Keys)
    requires forall n :: n in ids ==> DepsOf(c.deps.entryDeps, ids[n]) == []
    modifies c.deps
    ensures EdgesUnderWay(c, g, ids, was, wasDeps, wasChildren)
    ensures err == if BadCondition(steps) then Some(InvalidCondition) else None
    ensures err.None? ==> AllWired(steps, ids, c.deps.entryDeps)
  {
    hide EdgesUnderWay, Sound, Acyclic, Edge, Wired, DepsOf, HasBadCondition, Distinct, NameGraph;
    for i := 0 to |steps|
      invariant EdgesUnderWay(c, g, ids, was, wasDeps, wasChildren)
      invariant forall k :: 0 <= k < i ==> !HasBadCondition(steps[k].deps)
      invariant forall k :: 0 <= k < i ==> Wired(steps[k].deps, ids, DepsOf(c.deps.entryDeps, ids[steps[k].name]))
      invariant forall k :: i <= k < |steps| ==> DepsOf(c.deps.entryDeps, ids[steps[k].name]) == []
    {
      var s := steps[i];
      StepEdges(steps, s);
      OtherStepsOtherIds(c, g, was, wasDeps, wasChildren, steps, ids, i);
      err := AddStepEdges(c, s, ids, g, was, wasDeps, wasChildren);
      if err.Some? {
        return;
      }
    }
    return None;
  }

  lemma StepEdges(steps: seq<WorkflowStep>, s: WorkflowStep)
    requires Distinct(StepNames(steps)) && s in steps
    ensures forall d :: d in s.deps ==> Edge(NameGraph(steps), s.name, d.parentName)
  {
    forall d | d in s.deps
      ensures Edge(NameGraph(steps), s.name, d.parentName)
    {
      var j :| 0 <= j < |s.deps| && s.deps[j] == d;
      assert ParentNames(s.deps)[j] == d.parentName;
    }
  }

  lemma OtherStepsOtherIds(c: Scheduler, g: NameDeps, was: map<int, Entry>, wasDeps: Dependencies,
                           wasChildren: Children,
                           steps: seq<WorkflowStep>, ids: map<string, int>, i: nat)
    requires EdgesUnderWay(c, g, ids, was, wasDeps, wasChildren)
    requires Distinct(StepNames(steps)) && i < |steps| && forall s :: s in steps ==> s.name in ids
    ensures forall k :: 0 <= k < |steps| && k != i ==> ids[steps[k].name] != ids[steps[i].name]
  {
    hide Scheduler.Valid, Registered, Mirrors, SameOutside, Distinct;
    NewIds(was, c.entryIndex, ids);
    forall k | 0 <= k < |steps| && k != i
      ensures ids[steps[k].name] != ids[steps[i].name]
    {
      NamesDiffer(StepNames(steps), k, i);
    }
  }

  lemma NamesDiffer(names: seq<string>, i: nat, j: nat)
    requires Distinct(names) && i < |names| && j < |names| && i != j
    ensures names[i] != names[j]
  {
  }

  // ----- AddWorkflow -----

  /** Nothing that the scheduler keeps about its entries differs between two moments. */
  twostate predicate Unchanged(c: Scheduler)
    reads c, c.entries, c.deps
  {
    && c.entryIndex == old(c.entryIndex) && c.nameIndex == old(c.nameIndex)
    && c.entries.Members() == old(c.entries.Members())
    && c.deps.entryDeps == old(c.deps.entryDeps) && c.deps.parentToChildren == old(c.deps.parentToChildren)
    && (c.maxEntries > 0 ==> c.entryCount == old(c.entryCount))
  }

  /** The index decides which entries there are, which names are known and what the counter says. */
  lemma IndexDecides(index: map<int, Entry>, names: map<string, Entry>, members: set<Entry>, nextID: int,
                     maxEntries: int, count: int,
                     otherNames: map<string, Entry>, otherMembers: set<Entry>, otherNextID: int, otherCount: int)
    requires Indexes(index, members, nextID) && Names(names, members) && Counts(maxEntries, count, members)
    requires Indexes(index, otherMembers, otherNextID) && Names(otherNames, otherMembers)
    requires Counts(maxEntries, otherCount, otherMembers)
    ensures members == otherMembers && names == otherNames && (maxEntries > 0 ==> count == otherCount)
  {
    assert members == otherMembers by {
      forall e | e in members || e in otherMembers
        ensures e in members && e in otherMembers
      {
        assert e.id in index && index[e.id] == e;
      }
    }
    forall n | n in names || n in otherNames
      ensures n in names && n in otherNames && names[n] == otherNames[n]
    {
      var e := if n in names then names[n] else otherNames[n];
      assert e in members && e.name == n;
    }
    assert names == otherNames;
  }

  /** What a workflow leaves when it is registered: an entry per step, wired as the steps say. */
  ghost predicate WorkflowRegistered(steps: seq<WorkflowStep>, ids: map<string, int>, was: map<int, Entry>,
                                     index: map<int, Entry>, deps: Dependencies)
    reads (set s | s in steps)`deps
    reads index.Values`schedule, index.Values`next, index.Values`prev, index.Values`paused, index.Values`runImmediately
  {
    && Registered(was, index, ids)
    && (forall s :: s in steps ==> StepEntry(s, ids, index))
    && (forall n :: n in ids <==> n in StepNames(steps))
    && AllWired(steps, ids, deps)
  }

  /** Rollback restores everything: the index decides the rest. */
  method RollbackAll(c: Scheduler, order: seq<string>, ids: map<string, int>,
                     ghost was: map<int, Entry>, ghost wasDeps: Dependencies, ghost wasChildren: Children,
                     ghost names: map<string, Entry>, ghost members: set<Entry>, ghost nextID: int, ghost count: int)
    requires c.Valid() && Registered(was, c.entryIndex, ids)
    requires Distinct(order) && forall n :: n in order <==> n in ids
    requires Sound(wasDeps, wasChildren, was.Keys)
    requires SameOutside(wasDeps, wasChildren, c.deps.entryDeps, c.deps.parentToChildren, ids.Values)
    requires Indexes(was, members, nextID) && Names(names, members) && Counts(c.maxEntries, count, members)
    modifies c`entryIndex, c`nameIndex, c`entryCount, c.entries, c.entries.Members()`heapIndex, c.deps
    ensures c.Valid() && c.entryIndex == was && c.deps.entryDeps == wasDeps && c.deps.parentToChildren == wasChildren
    ensures c.nameIndex == names && c.entries.Members() == members && (c.maxEntries > 0 ==> c.entryCount == count)
  {
    hide Scheduler.Valid, Registered, Sound, Distinct, SameOutside, Indexes, Names, Counts, Tidy, Inverse;
    Rollback(c, order, ids, was, wasDeps, wasChildren);
    ValidIndexes(c);
    IndexDecides(was, names, members, nextID, c.maxEntries, count, c.nameIndex, c.entries.Members(), c.nextID,
        c.entryCount);
  }

  method AddAllEdges(c: Scheduler, steps: seq<WorkflowStep>, ids: map<string, int>,
                     ghost was: map<int, Entry>, ghost deps: Dependencies, ghost children: Children)
      returns (err: Option<DependencyError>)
    requires Distinct(StepNames(steps)) && KnownParents(steps) && Acyclic(NameGraph(steps))
    requires forall n :: n in ids <==> n in StepNames(steps)
    requires c.Valid() && Registered(was, c.entryIndex, ids) && Sound(deps, children, was.Keys)
    requires deps == c.deps.entryDeps && children == c.deps.parentToChildren
    modifies c.deps
    ensures c.Valid() && SameOutside(deps, children, c.deps.entryDeps, c.deps.parentToChildren, ids.Values)
    ensures err == if BadCondition(steps) then Some(InvalidCondition) else None
    ensures err.None? ==> AllWired(steps, ids, c.deps.entryDeps)
  {
    hide Scheduler.Valid, Registered, Sound, Acyclic, Distinct, NameGraph, AllWired, BadCondition, SameOutside, Mirrors;
    hide DepsOf, KnownParents;
    NewIds(was, c.entryIndex, ids);
    SameAtFirst(deps, children, ids.Values);
    ghost var g := NameGraph(steps);
    NewHaveNoEdges(deps, children, was, ids);
    StepsHaveIds(steps, ids);
    MirrorsAtFirst(g, ids, deps);
    err := AddEdges(c, steps, ids, g, was, deps, children);
  }

  /** registerWorkflowSteps */
  method RegisterWorkflowSteps(c: Scheduler, steps: seq<WorkflowStep>)
      returns (err: Option<AddError>, ghost ids: map<string, int>)
    requires c.Valid() && Distinct(StepNames(steps)) && KnownParents(steps) && Acyclic(NameGraph(steps))
    requires forall s :: s in steps ==> s.schedule.Some? && s.name !in c.nameIndex
    modifies c`entryIndex, c`nameIndex, c`entryCount, c`nextID, c.entries, c.entries.Members()`heapIndex, c.deps
    ensures c.Valid()
    ensures err == if c.maxEntries > 0 && old(c.entryCount) + |steps| > c.maxEntries then Some(TooManyEntries)
                   else if BadCondition(steps) then Some(BadDependency(InvalidCondition))
                   else None
    ensures err.Some? ==> Unchanged(c)
    ensures err.None? ==> WorkflowRegistered(steps, ids, old(c.entryIndex), c.entryIndex, c.deps.entryDeps)
  {
    hide Scheduler.Valid, Registered, Sound, Acyclic, Distinct, NameGraph, AllWired, BadCondition, SameOutside;
    hide Mirrors, Tidy, StepEntry;
    hide DepsOf, Successors, Inverse, Indexes, Names, Counts, KnownParents;
    ghost var was, deps, children, names := c.entryIndex, c.deps.entryDeps, c.deps.parentToChildren, c.nameIndex;
    ghost var members, nextID, count := c.entries.Members(), c.nextID, c.entryCount;
    ValidIsTidy(c);
    ValidIndexes(c);
    var order, registered, failed := AddEntries(c, steps);
    ids := registered;
    NewIds(was, c.entryIndex, ids);
    SameAtFirst(deps, children, ids.Values);
    if failed.Some? {
      RollbackAll(c, order, registered, was, deps, children, names, members, nextID, count);
      return failed, ids;
    }
    var bad := AddAllEdges(c, steps, registered, was, deps, children);
    if bad.Some? {
      RollbackAll(c, order, registered, was, deps, children, names, members, nextID, count);
      return Some(BadDependency(bad.value)), ids;
    }
    return None, ids;
  }

  lemma ValidIndexes(c: Scheduler)
    requires c.Valid()
    ensures Indexes(c.entryIndex, c.entries.Members(), c.nextID) && Names(c.nameIndex, c.entries.Members())
    ensures Counts(c.maxEntries, c.entryCount, c.entries.Members())
  {
  }

  lemma SameAtFirst(deps: Dependencies, children: Children, added: set<int>)
    ensures SameOutside(deps, children, deps, children, added)
  {
  }

  lemma NewHaveNoEdges(deps: Dependencies, children: Children, was: map<int, Entry>, ids: map<string, int>)
    requires Sound(deps, children, was.Keys) && ids.Values !! was.Keys
    ensures forall n :: n in ids ==> DepsOf(deps, ids[n]) == []
  {
    hide Sound;
    forall n | n in ids
      ensures DepsOf(deps, ids[n]) == []
    {
      assert ids[n] in ids.Values;
      NotLive(deps, children, was.Keys, ids[n]);
    }
  }

  lemma StepsHaveIds(steps: seq<WorkflowStep>, ids: map<string, int>)
    requires KnownParents(steps) && forall n :: n in ids <==> n in StepNames(steps)
    ensures forall s :: s in steps ==> s.name in ids && forall d :: d in s.deps ==> d.parentName in ids
  {
    forall n | SomeStepNamed(steps, n)
      ensures n in ids
    {
      var s :| s in steps && s.name == n;
      var i :| 0 <= i < |steps| && steps[i] == s;
      assert StepNames(steps)[i] == n;
    }
    forall s | s in steps
      ensures s.name in ids && forall d :: d in s.deps ==> d.parentName in ids
    {
      assert SomeStepNamed(steps, s.name);
    }
  }

  lemma MirrorsAtFirst(g: NameDeps, ids: map<string, int>, deps: Dependencies)
    requires forall n :: n in ids ==> DepsOf(deps, ids[n]) == []
    ensures Mirrors(g, ids, deps)
  {
  }

  /** A step's name is already taken by an entry. */
  predicate SomeNameTaken(steps: seq<WorkflowStep>, names: map<string, Entry>) {
    exists s :: s in steps && s.name in names
  }

  predicate SomeSpecBad(steps: seq<WorkflowStep>) {
    exists s :: s in steps && s.schedule.None?
  }

  /** The two checks of AddWorkflow between validation and registration. */
  method CheckSteps(c: Scheduler, steps: seq<WorkflowStep>) returns (err: Option<AddError>)
    ensures err == if SomeSpecBad(steps) then Some(SpecDoesNotParse)
                   else if SomeNameTaken(steps, c.nameIndex) then Some(NameTaken)
                   else None
  {
    for i := 0 to |steps|
      invariant forall k :: 0 <= k < i ==> steps[k].schedule.Some?
    {
      if steps[i].schedule.None? {
        return Some(SpecDoesNotParse);
      }
    }
    for i := 0 to |steps|
      invariant forall k :: 0 <= k < i ==> steps[k].name !in c.nameIndex
    {
      if steps[i].name in c.nameIndex {
        return Some(NameTaken);
      }
    }
    return None;
  }

  /** AddWorkflow: past validation it fails for a spec, a name, the limit or a condition, but never with a cycle; and
      whenever it fails nothing has changed. */
  method AddWorkflow(c: Scheduler, steps: seq<WorkflowStep>)
      returns (err: Option<AddError>, ghost ids: map<string, int>)
    requires c.Valid()
    modifies (set s | s in steps && s.isFinal)`deps
    modifies c`entryIndex, c`nameIndex, c`entryCount, c`nextID, c.entries, c.entries.Members()`heapIndex, c.deps
    ensures c.Valid()
    ensures forall s :: s in steps ==>
              s.deps == if s.isFinal && !SeveralFinal(steps) then old(s.deps) + FinalDeps(steps, s) else old(s.deps)
    ensures err == if ValidationError(steps).Some? then Some(InvalidWorkflow(ValidationError(steps).value))
                   else if SomeSpecBad(steps) then Some(SpecDoesNotParse)
                   else if SomeNameTaken(steps, old(c.nameIndex)) then Some(NameTaken)
                   else if c.maxEntries > 0 && old(c.entryCount) + |steps| > c.maxEntries then Some(TooManyEntries)
                   else if BadCondition(steps) then Some(BadDependency(InvalidCondition))
                   else None
    ensures err.Some? ==> Unchanged(c)
    ensures err.None? ==> WorkflowRegistered(steps, ids, old(c.entryIndex), c.entryIndex, c.deps.entryDeps)
  {
    hide Scheduler.Valid, SeveralFinal, Distinct, KnownParents, Acyclic, NameGraph, BadCondition;
    hide WorkflowRegistered, FinalDeps;
    hide SomeNameTaken, SomeSpecBad, ValidationError;
    ids := map[];
    var invalid := Validate(steps);
    if invalid.Some? {
      return Some(InvalidWorkflow(invalid.value)), ids;
    }
    err := CheckSteps(c, steps);
    if err.Some? {
      return;
    }
    StepsAreGood(c, steps);
    ValidSteps(steps);
    err, ids := RegisterWorkflowSteps(c, steps);
  }

  lemma ValidSteps(steps: seq<WorkflowStep>)
    requires ValidationError(steps).None?
    ensures Distinct(StepNames(steps)) && KnownParents(steps) && Acyclic(NameGraph(steps))
  {
  }

  lemma StepsAreGood(c: Scheduler, steps: seq<WorkflowStep>)
    requires !SomeSpecBad(steps) && !SomeNameTaken(steps, c.nameIndex)
    ensures forall s :: s in steps ==> s.schedule.Some? && s.name !in c.nameIndex
  {
  }
}
