/** Which workflows start nobody twice, whatever the order of their edges, their conditions and pauses: exactly those
    without a shortcut. */
module ShortcutRuns {
  import opened Digraphs
  import opened WorkflowTypes
  import opened WorkflowRuns
  import EntryDependencies

  /** g and h connect the same entries; conditions and the order of the child lists may differ. */
  ghost predicate SameEdges(g: Graph, h: Graph) {
    forall a, b :: Edge(g.children, a, b) <==> Edge(h.children, a, b)
  }

  /** m is a moment of some run from root. */
  ghost predicate Reached(g: Graph, root: EntryID, entries: set<EntryID>, m: Moment) {
    exists moments, events :: IsRun(g, root, entries, moments, events) && moments[|events|] == m
  }

  /** No run from root ever starts an entry twice. */
  ghost predicate NeverTwice(g: Graph, root: EntryID, entries: set<EntryID>) {
    forall m, id :: Reached(g, root, entries, m) ==> Count(m.progress.starts, id) <= 1
  }

  // ----- moments -----

  lemma ReachedNext(g: Graph, root: EntryID, entries: set<EntryID>, a: Moment, e: Event, b: Moment)
    requires Reached(g, root, entries, a) && Step(g, entries, a, e, b)
    ensures Reached(g, root, entries, b)
  {
    hide Step, Begins;
    var moments, events :| IsRun(g, root, entries, moments, events) && moments[|events|] == a;
    assert IsRun(g, root, entries, moments + [b], events + [e]);
    assert (moments + [b])[|events + [e]|] == b;
  }

  lemma RunTo(g: Graph, root: EntryID, entries: set<EntryID>, m: Moment)
      returns (moments: seq<Moment>, events: seq<Event>)
    requires Reached(g, root, entries, m)
    ensures IsRun(g, root, entries, moments, events) && |moments| == |events| + 1 && moments[|events|] == m
  {
    hide Step, Begins;
    moments, events :| IsRun(g, root, entries, moments, events) && moments[|events|] == m;
  }

  lemma ReachedInvariants(g: Graph, root: EntryID, entries: set<EntryID>, m: Moment)
    requires Reached(g, root, entries, m)
    ensures Ready(g, root, entries, m.progress, {}) && ParentsFirst(g, root, m.progress) && Counted(m.progress)
  {
    hide Reached, IsRun, Ready, ParentsFirst, Counted;
    var moments, events := RunTo(g, root, entries, m);
    RunHasAll(g, root, entries, moments, events);
  }

  lemma RunHasAll(g: Graph, root: EntryID, entries: set<EntryID>, moments: seq<Moment>, events: seq<Event>)
    requires IsRun(g, root, entries, moments, events)
    ensures var s := moments[|events|].progress;
            Ready(g, root, entries, s, {}) && ParentsFirst(g, root, s) && Counted(s)
  {
    hide Step, Begins, Ready, ParentsFirst, Counted;
    ReadyAlways(g, root, entries, moments, events, |events|);
    ParentsFirstAlways(g, root, entries, moments, events, |events|);
    CountedAlways(g, root, entries, moments, events, |events|);
  }

  /** An execution from root can begin. */
  lemma FirstMoment(g: Graph, root: EntryID, entries: set<EntryID>) returns (m: Moment)
    requires Static(g) && forall id :: Reaches(g.children, root, id) ==> id in entries
    ensures Reached(g, root, entries, m) && m.paused == {} && Begins(g, root, m.progress)
  {
    hide Static, Reaches;
    var ids := set id | id in entries && Reaches(g.children, root, id);
    var results := map id | id in ids :: Pending;
    m := Moment(Progress(results, multiset{root}, [Start(root, results)]), {});
    ReachesItself(g.children, root);
    assert IsRun(g, root, entries, [m], []);
    assert [m][0] == m;
  }

  lemma Member<T>(ids: set<T>) returns (id: T)
    requires ids != {}
    ensures id in ids
  {
    id :| id in ids;
  }

  lemma {:induction false} PauseAll(g: Graph, root: EntryID, entries: set<EntryID>, m: Moment, ids: set<EntryID>)
      returns (b: Moment)
    requires Reached(g, root, entries, m)
    ensures Reached(g, root, entries, b) && b == Moment(m.progress, m.paused + ids)
    decreases |ids|
  {
    hide Reached;
    if ids == {} {
      b := m;
      assert m.paused + ids == m.paused;
    } else {
      var id := Member(ids);
      b := PauseAll(g, root, entries, m, ids - {id});
      var more := b.(paused := b.paused + {id});
      ReachedNext(g, root, entries, b, Pause(id), more);
      b := more;
      assert m.paused + (ids - {id}) + {id} == m.paused + ids;
    }
  }

  // ----- the same edges with x last and every condition met by any outcome -----

  function AllComplete(deps: seq<Dependency>): (r: seq<Dependency>)
    ensures |r| == |deps| && forall i :: 0 <= i < |r| ==> r[i] == Dependency(deps[i].parent, OnComplete)
  {
    seq(|deps|, i requires 0 <= i < |deps| => Dependency(deps[i].parent, OnComplete))
  }

  function MovedLast(ids: seq<EntryID>, x: EntryID): (r: seq<EntryID>)
    ensures forall id :: id in r <==> id in ids
  {
    if x in ids then EntryDependencies.Without(ids, x) + [x] else ids
  }

  function Reordered(g: Graph, x: EntryID): Graph {
    Graph(map c | c in g.deps :: AllComplete(g.deps[c]), map p | p in g.children :: MovedLast(g.children[p], x))
  }

  ghost predicate OnlyComplete(g: Graph) {
    forall c, d :: d in DepsOf(g.deps, c) ==> d.condition.OnComplete?
  }

  lemma ReorderedIs(g: Graph, x: EntryID)
    requires Static(g)
    ensures SameEdges(Reordered(g, x), g) && Static(Reordered(g, x)) && OnlyComplete(Reordered(g, x))
  {
    hide Acyclic;
    var h := Reordered(g, x);
    forall p, c
      ensures Edge(h.children, p, c) <==> Edge(g.children, p, c)
    {
      assert p in g.children ==> h.children[p] == MovedLast(g.children[p], x);
    }
    forall p, c
      ensures IsParent(h.deps, p, c) <==> IsParent(g.deps, p, c)
    {
      SameParents(DepsOf(g.deps, c), p);
      assert DepsOf(h.deps, c) == AllComplete(DepsOf(g.deps, c));
    }
    forall p | p in h.children
      ensures Distinct(h.children[p])
    {
      EntryDependencies.WithoutStaysDistinct(g.children[p], x);
      if x in g.children[p] {
        DistinctConcat(EntryDependencies.Without(g.children[p], x), [x]);
      }
    }
    SubgraphStaysAcyclic(g.children, h.children);
  }

  lemma SameParents(deps: seq<Dependency>, p: EntryID)
    ensures (exists d :: d in AllComplete(deps) && d.parent == p) <==> (exists d :: d in deps && d.parent == p)
  {
    var more := AllComplete(deps);
    if d :| d in deps && d.parent == p {
      var i :| 0 <= i < |deps| && deps[i] == d;
      assert more[i] in more;
    }
    if d :| d in more && d.parent == p {
      var i :| 0 <= i < |more| && more[i] == d;
      assert deps[i] in deps;
    }
  }

  lemma SameReaches(g: Graph, h: Graph, a: EntryID, b: EntryID)
    requires SameEdges(g, h)
    ensures Reaches(g.children, a, b) <==> Reaches(h.children, a, b)
  {
    if Reaches(g.children, a, b) {
      assert forall x, y :: Edge(g.children, x, y) ==> Edge(h.children, x, y);
      SubgraphReaches(h.children, g.children, a, b);
    }
    if Reaches(h.children, a, b) {
      assert forall x, y :: Edge(h.children, x, y) ==> Edge(g.children, x, y);
      SubgraphReaches(g.children, h.children, a, b);
    }
  }

  lemma SameShortcuts(g: Graph, h: Graph, root: EntryID)
    requires SameEdges(g, h) && NoShortcuts(h, root)
    ensures NoShortcuts(g, root)
  {
    hide Reaches, Edge;
    forall p, c, r, x
      ensures !Shortcut(g, root, p, c, r, x)
    {
      SameReaches(g, h, root, p);
      SameReaches(g, h, c, r);
      assert !Shortcut(h, root, p, c, r, x);
    }
  }

  /** With such conditions a child starts as soon as its parents have resolved. */
  lemma TriggersWhenResolved(g: Graph, p: EntryID, child: EntryID, results: Results)
    requires Inverse(g.deps, g.children) && OnlyComplete(g) && Edge(g.children, p, child)
    ensures ShouldTrigger(DepsOf(g.deps, child), results) <==> AllParentsResolved(DepsOf(g.deps, child), results)
  {
    assert IsParent(g.deps, p, child);
  }

  // ----- until only p runs -----

  /** Everyone runs at most once, and only while pending. */
  ghost predicate Plain(s: Progress) {
    forall id :: s.inFlight[id] <= 1 && (id in s.inFlight ==> id in s.results && s.results[id].Pending?)
  }

  /** Without pauses, evaluating starts children and skips nobody. */
  lemma {:induction false} EvaluatePlain(g: Graph, entries: set<EntryID>, s: Progress, parent: EntryID, i: nat)
    requires Static(g) && OnlyComplete(g) && i <= |Successors(g.children, parent)|
    requires Plain(s) && s.results.Keys <= entries
    requires forall id :: id in Elements(Successors(g.children, parent)[i..]) ==> id !in s.inFlight
    ensures var r := Evaluate(g, entries, {}, s, Successors(g.children, parent)[i..]);
            r.results == s.results && Plain(r)
    decreases |Successors(g.children, parent)| - i
  {
    hide Evaluate, EvaluateOne, ShouldTrigger, AllParentsResolved, OnlyComplete, Static;
    var children := Successors(g.children, parent);
    if i == |children| {
      NothingToEvaluate(g, entries, {}, s, children);
    } else {
      var child := children[i];
      NextChild(g, parent, i);
      StaticInverse(g);
      EvaluateNext(g, entries, {}, s, children, i);
      EvaluateOneIs(g, entries, {}, s, child);
      TriggersWhenResolved(g, parent, child, s.results);
      EvaluatePlain(g, entries, EvaluateOne(g, entries, {}, s, child), parent, i + 1);
    }
  }

  /** The end of one job, without pauses. */
  lemma EndOne(g: Graph, root: EntryID, entries: set<EntryID>, s: Progress, e: EntryID)
    requires Ready(g, root, entries, s, {}) && ParentsFirst(g, root, s) && Plain(s) && e in s.inFlight
    requires OnlyComplete(g) && s.results.Keys <= entries
    ensures var r := Finished(g, entries, {}, s, e, Success);
            r.results == s.results[e := Success] && Plain(r)
  {
    hide Evaluate, Static, NoneStuck, StartsJustified, Once, NoShortcuts, OnlyComplete;
    var ended := Progress(s.results[e := Success], s.inFlight - multiset{e}, s.starts);
    var children := Successors(g.children, e);
    forall id | id in Elements(children[0..])
      ensures id !in ended.inFlight
    {
      assert Edge(g.children, e, id);
      ChildParticipates(g, root, s.results.Keys, e, id);
    }
    assert children[0..] == children;
    EvaluatePlain(g, entries, ended, e, 0);
  }

  /** From m on, jobs other than p's end one by one. */
  lemma {:induction false} EndOthers(g: Graph, root: EntryID, entries: set<EntryID>, m: Moment, p: EntryID)
      returns (b: Moment)
    requires Reached(g, root, entries, m) && m.paused == {} && Plain(m.progress)
    requires OnlyComplete(g) && m.progress.results.Keys <= entries
    requires p in m.progress.results && m.progress.results[p].Pending?
    ensures Reached(g, root, entries, b) && b.paused == {} && b.progress.results.Keys == m.progress.results.Keys
    ensures b.progress.results[p].Pending? && Plain(b.progress) && forall id :: id in b.progress.inFlight ==> id == p
    decreases PendingSet(m.progress.results)
  {
    hide Reached, Ready, ParentsFirst, Counted, OnlyComplete, Finished;
    if e :| e in m.progress.inFlight && e != p {
      var s := m.progress;
      ReachedInvariants(g, root, entries, m);
      EndOne(g, root, entries, s, e);
      b := m.(progress := Finished(g, entries, {}, s, e, Success));
      ReachedNext(g, root, entries, m, JobEnds(e, Success), b);
      assert e in PendingSet(s.results) && e !in PendingSet(b.progress.results);
      assert b.progress.results.Keys == s.results.Keys;
      b := EndOthers(g, root, entries, b, p);
    } else {
      b := m;
    }
  }

  /** Then p runs: otherwise nothing would, and p would have resolved. */
  lemma LastRuns(g: Graph, root: EntryID, entries: set<EntryID>, m: Moment, p: EntryID)
    requires Reached(g, root, entries, m) && Closed(g, root)
    requires forall id :: Reaches(g.children, root, id) ==> id in entries
    requires p in m.progress.results && m.progress.results[p].Pending?
    requires forall id :: id in m.progress.inFlight ==> id == p
    ensures p in m.progress.inFlight
  {
    hide Reached, IsRun, Closed, Reaches;
    if p !in m.progress.inFlight {
      assert forall id :: m.progress.inFlight[id] == 0;
      var moments, events := RunTo(g, root, entries, m);
      QuietRunIsComplete(g, root, entries, moments, events, |events|);
    }
  }

  // ----- p ends while everyone but x is paused -----

  /** Only x can start when everyone else is paused, and it stays pending. */
  ghost predicate OnlyGains(s: Progress, r: Progress, x: EntryID) {
    && r.results.Keys == s.results.Keys
    && (x in s.results && s.results[x].Pending? ==> r.results[x].Pending?)
    && forall id :: id != x ==> r.inFlight[id] == s.inFlight[id]
  }

  lemma OnlyGainsTwice(s: Progress, t: Progress, r: Progress, x: EntryID)
    requires OnlyGains(s, t, x) && OnlyGains(t, r, x)
    ensures OnlyGains(s, r, x)
  {
  }

  lemma {:induction false} EvaluateGains(g: Graph, entries: set<EntryID>, paused: set<EntryID>, s: Progress,
                                         children: seq<EntryID>, q: EntryID, x: EntryID)
    requires Inverse(g.deps, g.children) && OnlyComplete(g) && Edge(g.children, q, x) && x in entries && x !in paused
    requires s.results.Keys <= paused + {x}
    ensures OnlyGains(s, Evaluate(g, entries, paused, s, children), x)
    decreases PendingSet(s.results), 1, |children|
  {
    hide EvaluateOne, PendingSet, Inverse, OnlyComplete;
    if children == [] {
    } else {
      var t := EvaluateOne(g, entries, paused, s, children[0]);
      EvaluateOneGains(g, entries, paused, s, children[0], q, x);
      EvaluateGains(g, entries, paused, t, children[1..], q, x);
      OnlyGainsTwice(s, t, Evaluate(g, entries, paused, t, children[1..]), x);
    }
  }

  lemma {:induction false} EvaluateOneGains(g: Graph, entries: set<EntryID>, paused: set<EntryID>, s: Progress,
                                            child: EntryID, q: EntryID, x: EntryID)
    requires Inverse(g.deps, g.children) && OnlyComplete(g) && Edge(g.children, q, x) && x in entries && x !in paused
    requires s.results.Keys <= paused + {x}
    ensures OnlyGains(s, EvaluateOne(g, entries, paused, s, child), x)
    decreases PendingSet(s.results), 0, 0
  {
    hide Evaluate, EvaluateOne, ShouldTrigger, AllParentsResolved, Inverse, OnlyComplete;
    EvaluateOneIs(g, entries, paused, s, child);
    if child == x {
      TriggersWhenResolved(g, q, x, s.results);
    } else if child in s.results && s.results[child].Pending? {
      var skipped := s.(results := s.results[child := Skipped]);
      assert child in PendingSet(s.results) && child !in PendingSet(skipped.results);
      assert skipped.results.Keys == s.results.Keys;
      EvaluateGains(g, entries, paused, skipped, Successors(g.children, child), q, x);
    }
  }

  /** Evaluating any list of participants leaves only `exempt` to be stuck. */
  lemma {:induction false} EvaluateListKeeps(g: Graph, root: EntryID, entries: set<EntryID>, paused: set<EntryID>,
                                             s: Progress, children: seq<EntryID>)
    requires !NoShortcuts(g, root) && root !in children && Elements(children) <= s.results.Keys
    requires Ready(g, root, entries, s, Elements(children))
    ensures Ready(g, root, entries, Evaluate(g, entries, paused, s, children), {})
    decreases |children|
  {
    hide EvaluateOne, Ready, NoShortcuts, PendingSet;
    if children == [] {
      assert Elements(children) == {};
    } else {
      var child, rest := children[0], children[1..];
      assert Elements(children) == Elements(rest) + {child};
      EvaluateOneKeeps(g, root, entries, paused, s, child, Elements(rest));
      var t := EvaluateOne(g, entries, paused, s, child);
      AdvancedKeys(g, entries, paused, s.results, t.results);
      EvaluateListKeeps(g, root, entries, paused, t, rest);
    }
  }

  lemma {:induction false} EvaluateLast(g: Graph, entries: set<EntryID>, paused: set<EntryID>, s: Progress,
                                        children: seq<EntryID>, x: EntryID)
    ensures Evaluate(g, entries, paused, s, children + [x])
            == EvaluateOne(g, entries, paused, Evaluate(g, entries, paused, s, children), x)
    decreases |children|
  {
    hide EvaluateOne;
    if children == [] {
      assert [] + [x] == [x] && [x][1..] == [];
    } else {
      assert (children + [x])[1..] == children[1..] + [x];
      EvaluateLast(g, entries, paused, EvaluateOne(g, entries, paused, s, children[0]), children[1..], x);
    }
  }

  /** When nothing but x can run, everything that does not come after x has resolved. */
  lemma OthersResolve(g: Graph, root: EntryID, entries: set<EntryID>, s: Progress, x: EntryID, q: EntryID)
    requires Ready(g, root, entries, s, {}) && Closed(g, root) && s.results.Keys <= entries && x != root
    requires forall id :: id in s.inFlight ==> id == x
    requires x in s.results && Edge(g.children, q, x)
    ensures Resolved(s.results, q)
  {
    hide StartsJustified, Once, NoShortcuts, Reaches, NoneStuck, Edge, Inverse, Acyclic, Waits;
    var before := set id | id in s.results && s.results[id].Pending? && !Reaches(g.children, x, id);
    ParentParticipates(g, root, s.results.Keys, q, x);
    NotBefore(g, q, x);
    if q in before {
      forall id | id in before
        ensures HasPredecessor(g.children, before, id)
      {
        ReachesItself(g.children, x);
        StuckWaits(g, entries, s, id);
        WaitsForEarlier(g, root, entries, s, x, id, before);
      }
      EndlessPredecessors(g.children, before);
    }
  }

  lemma NotBefore(g: Graph, q: EntryID, x: EntryID)
    requires Acyclic(g.children) && Edge(g.children, q, x)
    ensures !Reaches(g.children, x, q)
  {
  }

  lemma StuckWaits(g: Graph, entries: set<EntryID>, s: Progress, id: EntryID)
    requires NoneStuck(g, entries, s.results, s.inFlight, {})
    requires id in s.results && s.results[id].Pending? && id !in s.inFlight
    ensures Waits(g, entries, s.results, id)
  {
    hide Waits;
  }

  lemma ParentParticipates(g: Graph, root: EntryID, ids: set<EntryID>, p: EntryID, id: EntryID)
    requires Participants(g, root, ids) && Closed(g, root) && id in ids && id != root && Edge(g.children, p, id)
    ensures p in ids
  {
    hide Reaches;
    ReachedParticipates(g, root, ids, p);
    ReachedParticipates(g, root, ids, id);
  }

  lemma WaitsForEarlier(g: Graph, root: EntryID, entries: set<EntryID>, s: Progress, x: EntryID, id: EntryID,
                        before: set<EntryID>)
    requires Participants(g, root, s.results.Keys) && Closed(g, root) && s.results.Keys <= entries
    requires before == set i | i in s.results && s.results[i].Pending? && !Reaches(g.children, x, i)
    requires id in before && id != root && Waits(g, entries, s.results, id)
    ensures HasPredecessor(g.children, before, id)
  {
    hide Reaches, Closed, Participants, Edge;
    var p :| Edge(g.children, p, id) && (!Resolved(s.results, p) || p !in entries);
    ParentParticipates(g, root, s.results.Keys, p, id);
    if Reaches(g.children, x, p) {
      ReachesBeforeEdge(g.children, x, p, id);
    }
    assert p in before;
  }

  /** While p is pending, so are r and x on the long way from it. */
  lemma LongWayIsPending(g: Graph, root: EntryID, entries: set<EntryID>, s: Progress,
                         p: EntryID, c: EntryID, r: EntryID, x: EntryID)
    requires Ready(g, root, entries, s, {}) && ParentsFirst(g, root, s) && Shortcut(g, root, p, c, r, x)
    requires p in s.results && s.results[p].Pending?
    ensures r in s.results && s.results[r].Pending? && x in s.results && s.results[x].Pending?
    ensures r != p && x != p && x != root
  {
    hide NoneStuck, StartsJustified, Once, NoShortcuts, Reaches, Edge, ParentsFirst, Inverse;
    ReachesItself(g.children, p);
    ReachesAfterEdge(g.children, p, c, r);
    ReachesBeforeEdge(g.children, p, r, x);
    PendingBelow(g, root, entries, s, p, r);
    PendingBelow(g, root, entries, s, p, x);
    ChildParticipates(g, root, s.results.Keys, p, x);
  }

  /** When p has ended, only its children other than x may be stuck: x still waits for r. */
  lemma EndedIsReady(g: Graph, root: EntryID, entries: set<EntryID>, s: Progress,
                     p: EntryID, c: EntryID, r: EntryID, x: EntryID)
    requires Ready(g, root, entries, s, {}) && Shortcut(g, root, p, c, r, x) && p in s.inFlight && p in s.results
    requires r in s.results && s.results[r].Pending? && r != p && x in s.results && s.results[x].Pending?
    ensures var ended := Progress(s.results[p := Success], s.inFlight - multiset{p}, s.starts);
            var others := EntryDependencies.Without(Successors(g.children, p), x);
            && Ready(g, root, entries, ended, Elements(others))
            && root !in others && Elements(others) <= ended.results.Keys && !NoShortcuts(g, root)
  {
    hide NoneStuck, StartsJustified, Once, Reaches, Static;
    var ended := Progress(s.results[p := Success], s.inFlight - multiset{p}, s.starts);
    var others := EntryDependencies.Without(Successors(g.children, p), x);
    NoneStuckWeaken(g, entries, s.results, s.inFlight, {p});
    assert {} + {p} == {p} && {} + ChildSet(g, p) == Elements(others) + {x};
    NoneStuckResolve(g, entries, s.results, s.inFlight, ended.inFlight, {}, p, Success);
    assert Edge(g.children, r, x) && !Resolved(ended.results, r);
    NoneStuckWithout(g, entries, ended.results, ended.inFlight, Elements(others), x);
    assert ended.results.Keys == s.results.Keys;
    forall id | id in others
      ensures id in s.results && id != root
    {
      assert Edge(g.children, p, id);
      ChildParticipates(g, root, s.results.Keys, p, id);
    }
  }

  lemma ReadyInverse(g: Graph, root: EntryID, entries: set<EntryID>, s: Progress)
    requires Ready(g, root, entries, s, {})
    ensures Inverse(g.deps, g.children)
  {
    hide Participants, NoneStuck, StartsJustified, Once, NoShortcuts, Inverse, Acyclic;
  }

  /** Once p's other children have been evaluated, everything else has resolved and x runs. */
  lemma LongWayStarts(g: Graph, root: EntryID, entries: set<EntryID>, t: Progress, p: EntryID, x: EntryID)
    requires Ready(g, root, entries, t, {}) && Closed(g, root) && OnlyComplete(g) && t.results.Keys <= entries
    requires x != root && Edge(g.children, p, x) && x in t.results && t.results[x].Pending?
    requires forall id :: id in t.inFlight ==> id == x
    ensures ShouldTrigger(DepsOf(g.deps, x), t.results) && x in t.inFlight
  {
    hide Participants, NoneStuck, StartsJustified, Once, NoShortcuts, Reaches, Edge, ShouldTrigger, OnlyComplete;
    hide Closed;
    hide Acyclic;
    forall q | Edge(g.children, q, x)
      ensures Resolved(t.results, q) && q in entries
    {
      OthersResolve(g, root, entries, t, x, q);
    }
    forall d | d in DepsOf(g.deps, x)
      ensures Resolved(t.results, d.parent)
    {
      assert IsParent(g.deps, d.parent, x);
    }
    TriggersWhenResolved(g, p, x, t.results);
    if x !in t.inFlight {
      StuckWaits(g, entries, t, x);
    }
  }

  /** Who runs and did not before has been started. */
  lemma RunningWasStarted(s: Progress, t: Progress, x: EntryID)
    requires Counted(s) && OnlyStarted(s, t) && x in t.inFlight
    ensures Count(t.starts, x) >= 1
  {
    hide Count;
  }

  lemma EndedIsCounted(s: Progress, p: EntryID)
    requires Counted(s) && p in s.inFlight
    ensures Counted(Progress(s.results[p := Success], s.inFlight - multiset{p}, s.starts))
  {
    hide Count;
  }

  lemma OneMore(t: Progress, x: EntryID)
    ensures Count(Started(t, x).starts, x) == Count(t.starts, x) + 1
  {
    OneMoreStart(t.starts, Start(x, t.results));
  }

  /** The shortcut from p to x, with x last in p's list. When p ends, x is started on the long way and then once
      more. */
  lemma StartedTwice(g: Graph, root: EntryID, entries: set<EntryID>, m: Moment,
                     p: EntryID, c: EntryID, r: EntryID, x: EntryID)
    requires Reached(g, root, entries, m) && Closed(g, root) && OnlyComplete(g) && Shortcut(g, root, p, c, r, x)
    requires m.progress.results.Keys <= entries && m.paused == m.progress.results.Keys - {x}
    requires Successors(g.children, p) == EntryDependencies.Without(Successors(g.children, p), x) + [x]
    requires m.progress.inFlight == multiset{p} && p in m.progress.results && m.progress.results[p].Pending?
    ensures Count(Finished(g, entries, m.paused, m.progress, p, Success).starts, x) >= 2
  {
    hide Reached, Ready, ParentsFirst, Counted, Evaluate, EvaluateOne, OnlyComplete, Closed, Reaches, Count;
    hide NoShortcuts;
    hide OnlyStarted, ShouldTrigger, EntryDependencies.Without, Inverse, AllParentsResolved;
    ReachedInvariants(g, root, entries, m);
    var s := m.progress;
    var ended := Progress(s.results[p := Success], s.inFlight - multiset{p}, s.starts);
    var others := EntryDependencies.Without(Successors(g.children, p), x);
    LongWayIsPending(g, root, entries, s, p, c, r, x);
    EndedIsReady(g, root, entries, s, p, c, r, x);
    EvaluateListKeeps(g, root, entries, m.paused, ended, others);
    var t := Evaluate(g, entries, m.paused, ended, others);
    ReadyInverse(g, root, entries, s);
    assert ended.results.Keys == s.results.Keys && ended.inFlight == multiset{};
    EvaluateGains(g, entries, m.paused, ended, others, p, x);
    LongWayStarts(g, root, entries, t, p, x);
    EvaluateOnlyStarts(g, entries, m.paused, ended, others);
    EndedIsCounted(s, p);
    RunningWasStarted(ended, t, x);
    EvaluateLast(g, entries, m.paused, ended, others, x);
    EvaluateOneIs(g, entries, m.paused, t, x);
    OneMore(t, x);
  }

  /** With a shortcut some order of the edges, some conditions and some pauses lead to a second start. */
  lemma ShortcutStartsTwice(base: Graph, root: EntryID, entries: set<EntryID>, p: EntryID, c: EntryID, r: EntryID,
                            x: EntryID)
      returns (g: Graph, m: Moment)
    requires Static(base) && Closed(base, root) && Shortcut(base, root, p, c, r, x)
    requires forall id :: Reaches(base.children, root, id) ==> id in entries
    ensures SameEdges(g, base) && Reached(g, root, entries, m) && Count(m.progress.starts, x) >= 2
  {
    hide Reached, Static, Reaches, Begins, OnlyComplete, Closed, Count, Finished;
    g := Reordered(base, x);
    ReorderedIs(base, x);
    SameParticipants(g, base, root, entries);
    SameShortcut(g, base, root, p, c, r, x);
    m := FirstMoment(g, root, entries);
    BeginsPlain(g, root, entries, m.progress, p);
    m := EndOthers(g, root, entries, m, p);
    LastRuns(g, root, entries, m, p);
    m := PauseAll(g, root, entries, m, m.progress.results.Keys - {x});
    assert {} + (m.progress.results.Keys - {x}) == m.progress.results.Keys - {x};
    OnlyOne(m.progress.inFlight, p);
    LastInList(base, p, x);
    StartedTwice(g, root, entries, m, p, c, r, x);
    var b := m.(progress := Finished(g, entries, m.paused, m.progress, p, Success));
    ReachedNext(g, root, entries, m, JobEnds(p, Success), b);
    m := b;
  }

  lemma OnlyOne(inFlight: multiset<EntryID>, p: EntryID)
    requires p in inFlight && inFlight[p] <= 1 && forall id :: id in inFlight ==> id == p
    ensures inFlight == multiset{p}
  {
    assert forall id :: inFlight[id] == multiset{p}[id];
  }

  lemma LastInList(base: Graph, p: EntryID, x: EntryID)
    requires Static(base) && Edge(base.children, p, x)
    ensures var children := Successors(Reordered(base, x).children, p);
            children == EntryDependencies.Without(children, x) + [x]
  {
    hide Static;
    var rest := EntryDependencies.Without(base.children[p], x);
    WithoutLast(rest, x);
  }

  lemma {:induction false} WithoutLast(rest: seq<EntryID>, x: EntryID)
    requires x !in rest
    ensures EntryDependencies.Without(rest + [x], x) == rest
    decreases |rest|
  {
    if rest == [] {
      assert [] + [x] == [x] && [x][1..] == [];
    } else {
      assert (rest + [x])[1..] == rest[1..] + [x];
      WithoutLast(rest[1..], x);
    }
  }

  lemma SameParticipants(g: Graph, base: Graph, root: EntryID, entries: set<EntryID>)
    requires SameEdges(g, base) && Closed(base, root)
    requires forall id :: Reaches(base.children, root, id) ==> id in entries
    ensures Closed(g, root) && forall id :: Reaches(g.children, root, id) ==> id in entries
  {
    hide Reaches, Edge;
    forall id
      ensures Reaches(g.children, root, id) <==> Reaches(base.children, root, id)
    {
      SameReaches(g, base, root, id);
    }
  }

  lemma SameShortcut(g: Graph, base: Graph, root: EntryID, p: EntryID, c: EntryID, r: EntryID, x: EntryID)
    requires SameEdges(g, base) && Shortcut(base, root, p, c, r, x)
    ensures Shortcut(g, root, p, c, r, x)
  {
    hide Reaches, Edge;
    SameReaches(g, base, root, p);
    SameReaches(g, base, c, r);
  }

  lemma BeginsPlain(g: Graph, root: EntryID, entries: set<EntryID>, s: Progress, p: EntryID)
    requires Begins(g, root, s) && Reaches(g.children, root, p)
    requires forall id :: Reaches(g.children, root, id) ==> id in entries
    ensures Plain(s) && s.results.Keys <= entries && p in s.results && s.results[p].Pending?
  {
    hide Static, Reaches;
    ReachesItself(g.children, root);
    forall id | id in s.results
      ensures id in entries
    {
      assert Reaches(g.children, root, id);
    }
  }

  /** Over all orders of the edges, conditions, outcomes and pauses nobody is ever started twice exactly when no
      participant has a shortcut to a child. */
  lemma AtMostOnceExactly(base: Graph, root: EntryID, entries: set<EntryID>)
    requires Static(base) && Closed(base, root) && forall id :: Reaches(base.children, root, id) ==> id in entries
    ensures (forall g :: SameEdges(g, base) ==> NeverTwice(g, root, entries)) <==> NoShortcuts(base, root)
  {
    hide Reached, Static, Reaches, Closed, SameEdges, Shortcut, Count;
    if NoShortcuts(base, root) {
      forall g, m, id | SameEdges(g, base) && Reached(g, root, entries, m)
        ensures Count(m.progress.starts, id) <= 1
      {
        SameShortcuts(g, base, root);
        ReachedOnce(g, root, entries, m, id);
      }
    }
    if p, c, r, x :| Shortcut(base, root, p, c, r, x) {
      var g, m := ShortcutStartsTwice(base, root, entries, p, c, r, x);
      assert !NeverTwice(g, root, entries);
    }
  }

  lemma ReachedOnce(g: Graph, root: EntryID, entries: set<EntryID>, m: Moment, id: EntryID)
    requires Reached(g, root, entries, m) && NoShortcuts(g, root)
    ensures Count(m.progress.starts, id) <= 1
  {
    hide Reached, IsRun, NoShortcuts, StartsJustified, Starts;
    var moments, events := RunTo(g, root, entries, m);
    AtMostOnce(g, root, entries, moments, events, |events|, id);
  }
}
