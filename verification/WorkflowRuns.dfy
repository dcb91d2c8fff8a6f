/** What happens in a workflow execution: jobs start when their parents have resolved as required and are skipped when
    they cannot, over every order of events. */
module WorkflowRuns {
  import opened Digraphs
  import opened WorkflowTypes

  /** A started job: the entry and, for the record, the results that were known when it started. */
  datatype Start = Start(id: EntryID, seen: Results)

  function StartedIds(starts: seq<Start>): seq<EntryID> {
    seq(|starts|, i requires 0 <= i < |starts| => starts[i].id)
  }

  /** How often an entry was started. */
  function Starts(starts: seq<Start>): multiset<EntryID> { multiset(StartedIds(starts)) }

  lemma OneMoreStart(starts: seq<Start>, s: Start)
    ensures Starts(starts + [s]) == Starts(starts) + multiset{s.id}
  {
    assert StartedIds(starts + [s]) == StartedIds(starts) + [s.id];
  }

  // ----- the static graph of a workflow -----

  datatype Graph = Graph(deps: Dependencies, children: Children)

  /** The participants of an execution from root: everything below root and nothing else. */
  ghost predicate Participants(g: Graph, root: EntryID, ids: set<EntryID>) {
    && root in ids
    && (forall parent, child :: parent in ids && Edge(g.children, parent, child) ==> child in ids)
    && (forall id :: id in ids ==> Reaches(g.children, root, id))
  }

  /** Every parent of a participant but the root takes part as well. */
  ghost predicate Closed(g: Graph, root: EntryID) {
    forall p, c :: Reaches(g.children, root, c) && c != root && Edge(g.children, p, c) ==> Reaches(g.children, root, p)
  }

  ghost predicate Static(g: Graph) {
    Inverse(g.deps, g.children) && Acyclic(g.children)
  }

  /** The edge from p to x is a shortcut: beside it there is a longer way, through c and r. */
  ghost predicate Shortcut(g: Graph, root: EntryID, p: EntryID, c: EntryID, r: EntryID, x: EntryID) {
    && Reaches(g.children, root, p) && Edge(g.children, p, x)
    && Edge(g.children, p, c) && Reaches(g.children, c, r) && Edge(g.children, r, x)
  }

  /** No participant of an execution from root has a shortcut to a child. */
  ghost predicate NoShortcuts(g: Graph, root: EntryID) {
    forall p, c, r, x :: !Shortcut(g, root, p, c, r, x)
  }

  // ----- invariants of one execution -----

  function PendingSet(results: Results): set<EntryID> {
    set id | id in results && results[id].Pending?
  }

  /** id has a parent that has not resolved, or one whose entry is gone and will not pass on that it has. */
  ghost predicate Waits(g: Graph, entries: set<EntryID>, results: Results, id: EntryID) {
    exists p :: Edge(g.children, p, id) && (!Resolved(results, p) || p !in entries)
  }

  /** Every pending participant is running or waits for a parent, except those about to be evaluated. */
  ghost predicate NoneStuck(g: Graph, entries: set<EntryID>, results: Results, inFlight: multiset<EntryID>,
                            exempt: set<EntryID>) {
    forall id :: id in results && results[id].Pending? && id !in exempt
                 ==> id in inFlight || Waits(g, entries, results, id)
  }

  /** Every start but the root's happened when all parents had resolved as their conditions demand. */
  ghost predicate StartsJustified(g: Graph, root: EntryID, starts: seq<Start>) {
    forall i :: 0 <= i < |starts| && starts[i].id != root
           ==> ShouldTrigger(DepsOf(g.deps, starts[i].id), starts[i].seen)
  }

  /** Nothing was started twice; what is running is pending, what was started and is pending is running;
      what was started has only resolved parents. */
  ghost predicate Once(g: Graph, root: EntryID, results: Results, inFlight: multiset<EntryID>, starts: seq<Start>) {
    && (forall id :: Starts(starts)[id] <= 1)
    && (forall id :: inFlight[id] <= 1)
    && (forall id :: id in inFlight <==> id in Starts(starts) && id in results && results[id].Pending?)
    && (forall p, id :: id in Starts(starts) && id != root && Edge(g.children, p, id) ==> Resolved(results, p))
  }

  /** A skip has a reason: all parents have resolved and one did not meet its condition, or the entry is paused or
      gone. */
  ghost predicate SkipJustified(g: Graph, entries: set<EntryID>, paused: set<EntryID>, results: Results, id: EntryID) {
    && AllParentsResolved(DepsOf(g.deps, id), results)
    && (id in paused || id !in entries || !ShouldTrigger(DepsOf(g.deps, id), results))
  }

  /** From `before` to `after` resolved participants keep their results, and others resolve only by justified skips. */
  ghost predicate Advanced(g: Graph, entries: set<EntryID>, paused: set<EntryID>, before: Results, after: Results) {
    && after.Keys == before.Keys
    && (forall x :: x in before && before[x].IsTerminal() ==> after[x] == before[x])
    && (forall x :: x in before && before[x].Pending? && !after[x].Pending?
                    ==> after[x] == Skipped && SkipJustified(g, entries, paused, after, x))
  }

  lemma SkipStaysJustified(g: Graph, entries: set<EntryID>, paused: set<EntryID>, before: Results, after: Results,
                           id: EntryID)
    requires after.Keys == before.Keys && forall x :: x in before && before[x].IsTerminal() ==> after[x] == before[x]
    requires SkipJustified(g, entries, paused, before, id)
    ensures SkipJustified(g, entries, paused, after, id)
  {
  }

  lemma AdvancedTwice(g: Graph, entries: set<EntryID>, paused: set<EntryID>, first: Results, second: Results,
                      third: Results)
    requires Advanced(g, entries, paused, first, second) && Advanced(g, entries, paused, second, third)
    ensures Advanced(g, entries, paused, first, third)
    ensures PendingSet(third) <= PendingSet(first)
  {
    hide SkipJustified;
    forall x | x in first && first[x].Pending? && !third[x].Pending?
      ensures third[x] == Skipped && SkipJustified(g, entries, paused, third, x)
    {
      if !second[x].Pending? {
        SkipStaysJustified(g, entries, paused, second, third, x);
      }
    }
    forall x | x in PendingSet(third)
      ensures x in PendingSet(first)
    {
      assert second[x].Pending?;
    }
  }

  /** Skipping one participant that has a reason to be skipped. */
  lemma AdvancedBySkip(g: Graph, entries: set<EntryID>, paused: set<EntryID>, results: Results, id: EntryID)
    requires id in results && results[id].Pending? && SkipJustified(g, entries, paused, results, id)
    ensures Advanced(g, entries, paused, results, results[id := Skipped])
  {
    hide SkipJustified;
    var after := results[id := Skipped];
    assert after.Keys == results.Keys;
    SkipStaysJustified(g, entries, paused, results, after, id);
  }

  lemma AdvancedByNothing(g: Graph, entries: set<EntryID>, paused: set<EntryID>, results: Results)
    ensures Advanced(g, entries, paused, results, results)
  {
    hide SkipJustified;
  }

  lemma TriggeredMaySkip(g: Graph, entries: set<EntryID>, paused: set<EntryID>, results: Results, id: EntryID)
    requires ShouldTrigger(DepsOf(g.deps, id), results) && (id in paused || id !in entries)
    ensures SkipJustified(g, entries, paused, results, id)
  {
  }

  /** Nothing here has been started. */
  ghost predicate NoneStarted(starts: seq<Start>, ids: set<EntryID>) {
    forall id :: id in ids ==> id !in Starts(starts)
  }

  /** x is started by an edge from p or from something below p. */
  ghost predicate Below(g: Graph, p: EntryID, x: EntryID) {
    exists r :: Reaches(g.children, p, r) && Edge(g.children, r, x)
  }

  function ChildSet(g: Graph, parent: EntryID): set<EntryID> {
    set id | id in Successors(g.children, parent)
  }

  function Elements(ids: seq<EntryID>): set<EntryID> { set id | id in ids }

  // ----- why the steps keep the invariants -----

  lemma RootIsNoChild(g: Graph, root: EntryID, ids: set<EntryID>, parent: EntryID)
    requires Static(g) && Participants(g, root, ids) && parent in ids
    ensures !Edge(g.children, parent, root)
  {
  }

  lemma ChildParticipates(g: Graph, root: EntryID, ids: set<EntryID>, parent: EntryID, child: EntryID)
    requires Static(g) && Participants(g, root, ids) && parent in ids && Edge(g.children, parent, child)
    ensures child in ids && child != root && Reaches(g.children, root, parent)
  {
    RootIsNoChild(g, root, ids, parent);
  }

  /** A child that can neither start nor be skipped waits for a pending parent. */
  lemma WaitingChild(g: Graph, entries: set<EntryID>, root: EntryID, results: Results, child: EntryID)
    requires Static(g) && Participants(g, root, results.Keys) && child in results && child != root
    requires !AllParentsResolved(DepsOf(g.deps, child), results)
    ensures Waits(g, entries, results, child)
  {
    var d :| d in DepsOf(g.deps, child) && !Resolved(results, d.parent);
    assert IsParent(g.deps, d.parent, child);
    assert Edge(g.children, d.parent, child);
  }

  lemma NoneStuckWithout(g: Graph, entries: set<EntryID>, results: Results, inFlight: multiset<EntryID>,
                         exempt: set<EntryID>, id: EntryID)
    requires NoneStuck(g, entries, results, inFlight, exempt + {id})
    requires id in results && results[id].Pending? ==> id in inFlight || Waits(g, entries, results, id)
    ensures NoneStuck(g, entries, results, inFlight, exempt)
  {
    hide Waits;
  }

  /** Resolving id leaves only its children to be looked at. */
  lemma NoneStuckResolve(g: Graph, entries: set<EntryID>, results: Results, before: multiset<EntryID>,
                         after: multiset<EntryID>,
                         exempt: set<EntryID>, id: EntryID, r: JobResult)
    requires NoneStuck(g, entries, results, before, exempt + {id}) && r.IsTerminal() && id in results
    requires forall x :: x != id && x in before ==> x in after
    ensures NoneStuck(g, entries, results[id := r], after, exempt + ChildSet(g, id))
  {
    forall x | x in results && x != id && results[x].Pending? && x !in exempt + ChildSet(g, id) && x !in after
      ensures Waits(g, entries, results[id := r], x)
    {
      assert Waits(g, entries, results, x);
      var p :| Edge(g.children, p, x) && (!Resolved(results, p) || p !in entries);
    }
  }

  /** Resolving a participant whose entry is gone leaves its children waiting. */
  lemma NoneStuckMissing(g: Graph, entries: set<EntryID>, results: Results, inFlight: multiset<EntryID>,
                         exempt: set<EntryID>, id: EntryID)
    requires NoneStuck(g, entries, results, inFlight, exempt + {id}) && id in results && id !in entries
    ensures NoneStuck(g, entries, results[id := Skipped], inFlight, exempt)
  {
    forall x | x in results && x != id && results[x].Pending? && x !in exempt && x !in inFlight
      ensures Waits(g, entries, results[id := Skipped], x)
    {
      assert Waits(g, entries, results, x);
      var p :| Edge(g.children, p, x) && (!Resolved(results, p) || p !in entries);
    }
  }

  lemma OnceSkip(g: Graph, root: EntryID, results: Results, inFlight: multiset<EntryID>, starts: seq<Start>,
                 id: EntryID)
    requires Once(g, root, results, inFlight, starts) && id in results && id !in Starts(starts)
    ensures Once(g, root, results[id := Skipped], inFlight, starts)
  {
  }

  lemma OnceStart(g: Graph, root: EntryID, results: Results, inFlight: multiset<EntryID>, starts: seq<Start>,
                  id: EntryID)
    requires Inverse(g.deps, g.children)
    requires Once(g, root, results, inFlight, starts) && id in results && results[id].Pending?
    requires id !in Starts(starts) && ShouldTrigger(DepsOf(g.deps, id), results)
    ensures Once(g, root, results, inFlight + multiset{id}, starts + [Start(id, results)])
  {
    OneMoreStart(starts, Start(id, results));
    forall p | Edge(g.children, p, id)
      ensures Resolved(results, p)
    {
      assert IsParent(g.deps, p, id);
    }
  }

  /** While a parent is pending, none of its children has been started. */
  lemma PendingParentNoStart(g: Graph, root: EntryID, results: Results, inFlight: multiset<EntryID>,
                             starts: seq<Start>, p: EntryID)
    requires Static(g) && Participants(g, root, results.Keys)
    requires Once(g, root, results, inFlight, starts) && p in results && results[p].Pending?
    ensures NoneStarted(starts, ChildSet(g, p))
  {
    forall id | Edge(g.children, p, id)
      ensures id !in Starts(starts)
    {
      ChildParticipates(g, root, results.Keys, p, id);
    }
  }

  lemma NewStartsJustified(g: Graph, root: EntryID, starts: seq<Start>, id: EntryID, results: Results)
    requires StartsJustified(g, root, starts) && ShouldTrigger(DepsOf(g.deps, id), results)
    ensures StartsJustified(g, root, starts + [Start(id, results)])
  {
  }

  /** What is started below one child of p is, without shortcuts, no child of p. */
  lemma NoSiblingBelow(g: Graph, root: EntryID, p: EntryID, c: EntryID, x: EntryID)
    requires NoShortcuts(g, root) && Reaches(g.children, root, p) && Edge(g.children, p, c) && Below(g, c, x)
    ensures !Edge(g.children, p, x)
  {
    var r :| Reaches(g.children, c, r) && Edge(g.children, r, x);
    assert !Shortcut(g, root, p, c, r, x);
  }

  lemma BelowChild(g: Graph, p: EntryID, c: EntryID, x: EntryID)
    requires Edge(g.children, p, c) && Below(g, c, x)
    ensures Below(g, p, x)
  {
    var r :| Reaches(g.children, c, r) && Edge(g.children, r, x);
    ReachesAfterEdge(g.children, p, c, r);
  }

  lemma BelowItself(g: Graph, p: EntryID, x: EntryID)
    requires Edge(g.children, p, x)
    ensures Below(g, p, x)
  {
    ReachesItself(g.children, p);
  }

  lemma NoneStuckStart(g: Graph, entries: set<EntryID>, results: Results, inFlight: multiset<EntryID>,
                       exempt: set<EntryID>, id: EntryID)
    requires NoneStuck(g, entries, results, inFlight, exempt + {id})
    ensures NoneStuck(g, entries, results, inFlight + multiset{id}, exempt)
  {
    hide Waits;
  }

  lemma StaticInverse(g: Graph)
    requires Static(g)
    ensures Inverse(g.deps, g.children)
  {
    hide Inverse, Acyclic;
  }

  lemma NextChild(g: Graph, parent: EntryID, i: nat)
    requires Static(g) && i < |Successors(g.children, parent)|
    ensures var children := Successors(g.children, parent);
            && Edge(g.children, parent, children[i])
            && Elements(children[i..]) == Elements(children[i + 1..]) + {children[i]}
            && children[i] !in Elements(children[i + 1..])
            && Elements(children[i + 1..]) <= ChildSet(g, parent)
  {
    hide Acyclic, IsParent;
    var children := Successors(g.children, parent);
    assert children[i..] == [children[i]] + children[i + 1..];
  }

  lemma NoneStartedParts(starts: seq<Start>, id: EntryID, ids: set<EntryID>)
    ensures NoneStarted(starts, ids + {id}) ==> id !in Starts(starts) && NoneStarted(starts, ids)
  {
    hide Starts;
  }

  lemma OnceFinish(g: Graph, root: EntryID, results: Results, inFlight: multiset<EntryID>, starts: seq<Start>,
                   id: EntryID, r: JobResult)
    requires Once(g, root, results, inFlight, starts) && id in inFlight && r.IsTerminal()
    ensures Once(g, root, results[id := r], inFlight - multiset{id}, starts)
  {
  }

  lemma RunningIsPending(g: Graph, root: EntryID, results: Results, inFlight: multiset<EntryID>, starts: seq<Start>,
                         id: EntryID)
    requires Once(g, root, results, inFlight, starts) && id in inFlight
    ensures id in results && results[id].Pending?
  {
  }

  lemma NoneStuckWeaken(g: Graph, entries: set<EntryID>, results: Results, inFlight: multiset<EntryID>,
                        exempt: set<EntryID>)
    requires NoneStuck(g, entries, results, inFlight, {})
    ensures NoneStuck(g, entries, results, inFlight, exempt)
  {
    hide Waits;
  }

  /** With nothing running and nobody stuck, an acyclic workflow has resolved completely. */
  lemma QuietIsComplete(g: Graph, root: EntryID, entries: set<EntryID>, results: Results)
    requires Static(g) && NoneStuck(g, entries, results, multiset{}, {}) && Resolved(results, root)
    requires forall parent, id :: id in results && id != root && Edge(g.children, parent, id)
                                  ==> parent in results && parent in entries
    ensures IsComplete(results)
  {
    var pending := PendingSet(results);
    if pending != {} {
      forall id | id in pending
        ensures HasPredecessor(g.children, pending, id)
      {
        assert Waits(g, entries, results, id);
        var p :| Edge(g.children, p, id) && (!Resolved(results, p) || p !in entries);
        assert p in pending;
      }
      EndlessPredecessors(g.children, pending);
    }
    hide Static, NoneStuck;
    forall id | id in results
      ensures results[id].IsTerminal()
    {
      assert id !in pending;
    }
  }

  lemma PendingIsIncomplete(results: Results, id: EntryID)
    requires id in results && results[id].Pending?
    ensures !IsComplete(results)
  {
  }

  lemma FirstStart(s: Start)
    ensures Starts([s]) == multiset{s.id}
  {
    assert StartedIds([s]) == [s.id];
  }

  /** A new execution, with everything below the root pending and the root running, satisfies the invariants. */
  lemma NewIsReady(g: Graph, entries: set<EntryID>, root: EntryID, results: Results, starts: seq<Start>)
    requires Static(g) && |starts| == 1 && starts[0].id == root
    requires forall id :: id in results <==> Reaches(g.children, root, id)
    requires forall id :: id in results ==> results[id].Pending?
    ensures Participants(g, root, results.Keys)
    ensures NoneStuck(g, entries, results, multiset{root}, {})
    ensures StartsJustified(g, root, starts)
    ensures Once(g, root, results, multiset{root}, starts)
  {
    hide Static, Reaches;
    FirstStart(starts[0]);
    assert starts == [starts[0]];
    ReachesItself(g.children, root);
    forall p, c | p in results && Edge(g.children, p, c)
      ensures c in results
    {
      ReachesBeforeEdge(g.children, root, p, c);
    }
    forall id | id in results && id != root
      ensures Waits(g, entries, results, id)
    {
      var p := ReachedThrough(g.children, root, id);
    }
  }

  // ----- what evaluating children computes -----

  /** The results so far, the jobs that run now, and all starts so far. */
  datatype Progress = Progress(results: Results, inFlight: multiset<EntryID>, starts: seq<Start>)

  function Started(s: Progress, child: EntryID): Progress {
    s.(inFlight := s.inFlight + multiset{child}, starts := s.starts + [Start(child, s.results)])
  }

  /** One child: left alone, started, or skipped together with what that decides below it. */
  function EvaluateOne(g: Graph, entries: set<EntryID>, paused: set<EntryID>, s: Progress,
                       child: EntryID): (r: Progress)
    ensures PendingSet(r.results) <= PendingSet(s.results)
    decreases PendingSet(s.results), 0, 0
  {
    var deps := DepsOf(g.deps, child);
    if child !in s.results || !s.results[child].Pending? then s
    else
      assert child in PendingSet(s.results) && child !in PendingSet(s.results[child := Skipped]);
      var skipped := s.(results := s.results[child := Skipped]);
      if ShouldTrigger(deps, s.results) then
        if child !in entries then skipped
        else if child in paused then Evaluate(g, entries, paused, skipped, Successors(g.children, child))
        else Started(s, child)
      else if AllParentsResolved(deps, s.results) then
        Evaluate(g, entries, paused, skipped, Successors(g.children, child))
      else s
  }

  /** The children of a resolved participant, one after the other. */
  function Evaluate(g: Graph, entries: set<EntryID>, paused: set<EntryID>, s: Progress,
                    children: seq<EntryID>): (r: Progress)
    ensures PendingSet(r.results) <= PendingSet(s.results)
    decreases PendingSet(s.results), 1, |children|
  {
    if children == [] then s
    else Evaluate(g, entries, paused, EvaluateOne(g, entries, paused, s, children[0]), children[1..])
  }

  /** Skip a child and evaluate its own children. */
  function SkipAndEvaluate(g: Graph, entries: set<EntryID>, paused: set<EntryID>, s: Progress,
                           child: EntryID): Progress {
    Evaluate(g, entries, paused, s.(results := s.results[child := Skipped]), Successors(g.children, child))
  }

  lemma EvaluateOneIs(g: Graph, entries: set<EntryID>, paused: set<EntryID>, s: Progress, child: EntryID)
    ensures EvaluateOne(g, entries, paused, s, child)
            == if child !in s.results || !s.results[child].Pending? then s
               else if ShouldTrigger(DepsOf(g.deps, child), s.results) then
                 if child !in entries then s.(results := s.results[child := Skipped])
                 else if child in paused then SkipAndEvaluate(g, entries, paused, s, child)
                 else Started(s, child)
               else if AllParentsResolved(DepsOf(g.deps, child), s.results)
                   then SkipAndEvaluate(g, entries, paused, s, child)
               else s
  {
    hide Evaluate, ShouldTrigger, AllParentsResolved;
  }

  lemma NothingToEvaluate(g: Graph, entries: set<EntryID>, paused: set<EntryID>, s: Progress, children: seq<EntryID>)
    ensures Evaluate(g, entries, paused, s, children[|children|..]) == s
    ensures children[0..] == children
  {
  }

  lemma EvaluateNext(g: Graph, entries: set<EntryID>, paused: set<EntryID>, s: Progress, children: seq<EntryID>, i: nat)
    requires i < |children|
    ensures Evaluate(g, entries, paused, s, children[i..])
            == Evaluate(g, entries, paused, EvaluateOne(g, entries, paused, s, children[i]), children[i + 1..])
  {
    hide EvaluateOne;
    assert children[i..][1..] == children[i + 1..];
  }

  /** From `before` to `after` only entries below p were started. */
  ghost predicate StartedBelow(g: Graph, before: seq<Start>, after: seq<Start>, p: EntryID) {
    before <= after && forall i :: |before| <= i < |after| ==> Below(g, p, after[i].id)
  }

  /** From `before` to `after` only c and entries below it were started. */
  ghost predicate StartedFrom(g: Graph, before: seq<Start>, after: seq<Start>, c: EntryID) {
    before <= after && forall i :: |before| <= i < |after| ==> after[i].id == c || Below(g, c, after[i].id)
  }

  lemma ChildStarts(g: Graph, p: EntryID, c: EntryID, first: seq<Start>, before: seq<Start>, after: seq<Start>)
    requires Edge(g.children, p, c) && StartedBelow(g, first, before, p) && StartedFrom(g, before, after, c)
    ensures StartedBelow(g, first, after, p)
  {
    hide Below, Edge;
    forall i | |first| <= i < |after|
      ensures Below(g, p, after[i].id)
    {
      if i < |before| {
        assert Below(g, p, before[i].id);
      } else if after[i].id == c {
        BelowItself(g, p, c);
      } else {
        BelowChild(g, p, c, after[i].id);
      }
    }
  }

  lemma NothingStarted(g: Graph, starts: seq<Start>, c: EntryID)
    ensures StartedFrom(g, starts, starts, c) && StartedBelow(g, starts, starts, c)
  {
    hide Below;
  }

  lemma UntriggeredSkip(g: Graph, entries: set<EntryID>, paused: set<EntryID>, results: Results, id: EntryID)
    requires AllParentsResolved(DepsOf(g.deps, id), results) && !ShouldTrigger(DepsOf(g.deps, id), results)
    ensures SkipJustified(g, entries, paused, results, id)
  {
    hide AllParentsResolved, ShouldTrigger;
  }

  /** Without shortcuts, working through one child starts none of its siblings. */
  lemma SiblingsNotStarted(g: Graph, root: EntryID, p: EntryID, c: EntryID, before: seq<Start>, after: seq<Start>,
                           siblings: set<EntryID>)
    requires NoShortcuts(g, root) && Reaches(g.children, root, p)
    requires Edge(g.children, p, c) && StartedFrom(g, before, after, c)
    requires NoneStarted(before, siblings) && c !in siblings && siblings <= ChildSet(g, p)
    ensures NoneStarted(after, siblings)
  {
    hide NoShortcuts, Below;
    assert StartedIds(after)[..|before|] == StartedIds(before);
    forall x | x in siblings
      ensures x !in Starts(after)
    {
      if x in StartedIds(after) {
        var i :| 0 <= i < |after| && StartedIds(after)[i] == x;
        assert x !in StartedIds(after)[..|before|];
        NoSiblingBelow(g, root, p, c, x);
      }
    }
  }


  // ----- evaluating keeps the invariants -----

  /** What evaluating below a participant needs: only those in `exempt` may be stuck. */
  ghost predicate Ready(g: Graph, root: EntryID, entries: set<EntryID>, s: Progress, exempt: set<EntryID>) {
    && Static(g) && Participants(g, root, s.results.Keys)
    && (forall id :: id in s.inFlight ==> id in s.results)
    && (root in s.results && (s.results[root].Pending? ==> root in s.inFlight))
    && NoneStuck(g, entries, s.results, s.inFlight, exempt)
    && StartsJustified(g, root, s.starts)
    && (NoShortcuts(g, root) ==> Once(g, root, s.results, s.inFlight, s.starts))
  }

  /** From s to r the invariants were kept, nothing stopped running, and participants resolved only by justified
      skips. */
  ghost predicate Kept(g: Graph, root: EntryID, entries: set<EntryID>, paused: set<EntryID>, s: Progress, r: Progress,
                       exempt: set<EntryID>) {
    Ready(g, root, entries, r, exempt) && s.inFlight <= r.inFlight && Advanced(g, entries, paused, s.results, r.results)
  }

  lemma StartedBelowTwice(g: Graph, first: seq<Start>, second: seq<Start>, third: seq<Start>, p: EntryID)
    requires StartedBelow(g, first, second, p) && StartedBelow(g, second, third, p)
    ensures StartedBelow(g, first, third, p)
  {
    hide Below;
    forall i | |first| <= i < |third|
      ensures Below(g, p, third[i].id)
    {
      if i < |second| {
        assert Below(g, p, second[i].id);
      }
    }
  }

  /** The children of a resolved participant from the i-th on. */
  lemma {:induction false} EvaluateKeeps(g: Graph, root: EntryID, entries: set<EntryID>, paused: set<EntryID>,
                                         s: Progress, parent: EntryID, i: nat, exempt: set<EntryID>)
    requires i <= |Successors(g.children, parent)| && parent in s.results
    requires Ready(g, root, entries, s, exempt + Elements(Successors(g.children, parent)[i..]))
    requires NoShortcuts(g, root) ==> NoneStarted(s.starts, Elements(Successors(g.children, parent)[i..]))
    ensures var r := Evaluate(g, entries, paused, s, Successors(g.children, parent)[i..]);
            Kept(g, root, entries, paused, s, r, exempt) && StartedBelow(g, s.starts, r.starts, parent)
    decreases PendingSet(s.results), 2, |Successors(g.children, parent)| - i
  {
    hide Evaluate, EvaluateOne, Static, Participants, NoneStuck, StartsJustified, Once, NoShortcuts, Below, NoneStarted;
    hide StartedBelow, StartedFrom, Advanced, PendingSet;
    var children := Successors(g.children, parent);
    AdvancedByNothing(g, entries, paused, s.results);
    NothingStarted(g, s.starts, parent);
    if i == |children| {
      NothingToEvaluate(g, entries, paused, s, children);
      assert exempt + Elements(children[i..]) == exempt;
    } else {
      var child, siblings := children[i], Elements(children[i + 1..]);
      NextChild(g, parent, i);
      assert exempt + Elements(children[i..]) == exempt + siblings + {child};
      NoneStartedParts(s.starts, child, siblings);
      ChildParticipates(g, root, s.results.Keys, parent, child);
      EvaluateNext(g, entries, paused, s, children, i);
      var t := EvaluateOne(g, entries, paused, s, child);
      EvaluateOneKeeps(g, root, entries, paused, s, child, exempt + siblings);
      ChildStarts(g, parent, child, s.starts, s.starts, t.starts);
      if NoShortcuts(g, root) {
        SiblingsNotStarted(g, root, parent, child, s.starts, t.starts, siblings);
      }
      AdvancedKeys(g, entries, paused, s.results, t.results);
      EvaluateKeeps(g, root, entries, paused, t, parent, i + 1, exempt);
      var r := Evaluate(g, entries, paused, t, children[i + 1..]);
      AdvancedTwice(g, entries, paused, s.results, t.results, r.results);
      StartedBelowTwice(g, s.starts, t.starts, r.starts, parent);
    }
  }

  lemma AdvancedKeys(g: Graph, entries: set<EntryID>, paused: set<EntryID>, before: Results, after: Results)
    requires Advanced(g, entries, paused, before, after)
    ensures before.Keys == after.Keys
  {
  }

  /** One child of a resolved participant. */
  lemma {:induction false} EvaluateOneKeeps(g: Graph, root: EntryID, entries: set<EntryID>, paused: set<EntryID>,
                                            s: Progress, child: EntryID, exempt: set<EntryID>)
    requires Ready(g, root, entries, s, exempt + {child}) && child in s.results && child != root
    requires NoShortcuts(g, root) ==> child !in Starts(s.starts)
    ensures var r := EvaluateOne(g, entries, paused, s, child);
            Kept(g, root, entries, paused, s, r, exempt) && StartedFrom(g, s.starts, r.starts, child)
    decreases PendingSet(s.results), 1, 0
  {
    hide Evaluate, EvaluateOne, Static, Participants, NoneStuck, StartsJustified, Once, NoShortcuts, Below;
    hide ShouldTrigger;
    hide AllParentsResolved, NoneStarted, Waits, SkipJustified, SkipAndEvaluate, Advanced, StartedFrom;
    EvaluateOneIs(g, entries, paused, s, child);
    AdvancedByNothing(g, entries, paused, s.results);
    NothingStarted(g, s.starts, child);
    if !s.results[child].Pending? {
      NoneStuckWithout(g, entries, s.results, s.inFlight, exempt, child);
    } else if ShouldTrigger(DepsOf(g.deps, child), s.results) {
      if child !in entries {
        TriggeredMaySkip(g, entries, paused, s.results, child);
        MissingKeeps(g, root, entries, paused, s, child, exempt);
      } else if child in paused {
        TriggeredMaySkip(g, entries, paused, s.results, child);
        SkipKeeps(g, root, entries, paused, s, child, exempt);
      } else {
        StartKeeps(g, root, entries, paused, s, child, exempt);
      }
    } else if AllParentsResolved(DepsOf(g.deps, child), s.results) {
      UntriggeredSkip(g, entries, paused, s.results, child);
      SkipKeeps(g, root, entries, paused, s, child, exempt);
    } else {
      WaitingChild(g, entries, root, s.results, child);
      NoneStuckWithout(g, entries, s.results, s.inFlight, exempt, child);
    }
  }

  lemma StartKeeps(g: Graph, root: EntryID, entries: set<EntryID>, paused: set<EntryID>, s: Progress, child: EntryID,
                   exempt: set<EntryID>)
    requires Ready(g, root, entries, s, exempt + {child}) && child in s.results && s.results[child].Pending?
    requires ShouldTrigger(DepsOf(g.deps, child), s.results)
    requires NoShortcuts(g, root) ==> child !in Starts(s.starts)
    ensures Kept(g, root, entries, paused, s, Started(s, child), exempt)
    ensures StartedFrom(g, s.starts, Started(s, child).starts, child)
  {
    hide Static, Participants, NoneStuck, StartsJustified, Once, NoShortcuts, Below, ShouldTrigger, Advanced;
    AdvancedByNothing(g, entries, paused, s.results);
    NewStartsJustified(g, root, s.starts, child, s.results);
    if NoShortcuts(g, root) {
      StaticInverse(g);
      OnceStart(g, root, s.results, s.inFlight, s.starts, child);
    }
    NoneStuckStart(g, entries, s.results, s.inFlight, exempt, child);
  }

  lemma MissingKeeps(g: Graph, root: EntryID, entries: set<EntryID>, paused: set<EntryID>, s: Progress, child: EntryID,
                     exempt: set<EntryID>)
    requires Ready(g, root, entries, s, exempt + {child}) && child in s.results && s.results[child].Pending?
    requires SkipJustified(g, entries, paused, s.results, child) && child !in entries
    requires NoShortcuts(g, root) ==> child !in Starts(s.starts)
    ensures Kept(g, root, entries, paused, s, s.(results := s.results[child := Skipped]), exempt)
    ensures StartedFrom(g, s.starts, s.starts, child)
  {
    hide Static, Participants, NoneStuck, StartsJustified, Once, NoShortcuts, Below, SkipJustified, Advanced;
    AdvancedBySkip(g, entries, paused, s.results, child);
    NothingStarted(g, s.starts, child);
    if NoShortcuts(g, root) {
      OnceSkip(g, root, s.results, s.inFlight, s.starts, child);
    }
    NoneStuckMissing(g, entries, s.results, s.inFlight, exempt, child);
    assert s.results[child := Skipped].Keys == s.results.Keys;
  }

  /** Skipping a child and evaluating what is below it. */
  lemma {:induction false} SkipKeeps(g: Graph, root: EntryID, entries: set<EntryID>, paused: set<EntryID>, s: Progress,
                                     child: EntryID, exempt: set<EntryID>)
    requires Ready(g, root, entries, s, exempt + {child}) && child in s.results && s.results[child].Pending?
    requires SkipJustified(g, entries, paused, s.results, child)
    requires NoShortcuts(g, root) ==> child !in Starts(s.starts)
    ensures var r := SkipAndEvaluate(g, entries, paused, s, child);
            Kept(g, root, entries, paused, s, r, exempt) && StartedFrom(g, s.starts, r.starts, child)
    decreases PendingSet(s.results), 0, 0
  {
    hide Evaluate, Static, Participants, NoneStuck, StartsJustified, Once, NoShortcuts, Below, NoneStarted, Waits;
    hide SkipJustified, Advanced;
    var skipped, children := s.(results := s.results[child := Skipped]), Successors(g.children, child);
    if NoShortcuts(g, root) {
      PendingParentNoStart(g, root, s.results, s.inFlight, s.starts, child);
      OnceSkip(g, root, s.results, s.inFlight, s.starts, child);
    }
    NoneStuckResolve(g, entries, s.results, s.inFlight, s.inFlight, exempt, child, Skipped);
    AdvancedBySkip(g, entries, paused, s.results, child);
    assert child !in PendingSet(skipped.results) && child in PendingSet(s.results);
    assert skipped.results.Keys == s.results.Keys;
    assert children[0..] == children && Elements(children) == ChildSet(g, child);
    EvaluateKeeps(g, root, entries, paused, skipped, child, 0, exempt);
    AdvancedTwice(g, entries, paused, s.results, skipped.results,
                  Evaluate(g, entries, paused, skipped, children).results);
  }

  // ----- whole runs -----

  /** The job of `entry` has ended: its result is recorded, and what waited for it is started or skipped. */
  function Finished(g: Graph, entries: set<EntryID>, paused: set<EntryID>, s: Progress, entry: EntryID,
                    result: JobResult): Progress {
    Evaluate(g, entries, paused, Progress(s.results[entry := result], s.inFlight - multiset{entry}, s.starts),
             Successors(g.children, entry))
  }

  lemma FinishedKeeps(g: Graph, root: EntryID, entries: set<EntryID>, paused: set<EntryID>, s: Progress, entry: EntryID,
                      result: JobResult)
    requires Ready(g, root, entries, s, {}) && entry in s.inFlight && result.IsTerminal()
    ensures var r := Finished(g, entries, paused, s, entry, result);
            && Ready(g, root, entries, r, {}) && r.results.Keys == s.results.Keys && r.results[entry] == result
            && Advanced(g, entries, paused, s.results[entry := result], r.results)
            && StartedBelow(g, s.starts, r.starts, entry)
    // Without shortcuts nothing resolves twice.
    ensures NoShortcuts(g, root) ==> s.results[entry].Pending?
  {
    hide Evaluate, Static, Participants, NoneStuck, StartsJustified, Once, NoShortcuts, Below, NoneStarted;
    hide StartedBelow;
    if NoShortcuts(g, root) {
      RunningIsPending(g, root, s.results, s.inFlight, s.starts, entry);
      PendingParentNoStart(g, root, s.results, s.inFlight, s.starts, entry);
      OnceFinish(g, root, s.results, s.inFlight, s.starts, entry, result);
    }
    var ended := Progress(s.results[entry := result], s.inFlight - multiset{entry}, s.starts);
    var children := Successors(g.children, entry);
    assert {} + {entry} == {entry} && {} + ChildSet(g, entry) == ChildSet(g, entry);
    NoneStuckWeaken(g, entries, s.results, s.inFlight, {entry});
    NoneStuckResolve(g, entries, s.results, s.inFlight, ended.inFlight, {}, entry, result);
    assert ended.results.Keys == s.results.Keys;
    assert children[0..] == children && Elements(children) == ChildSet(g, entry);
    EvaluateKeeps(g, root, entries, paused, ended, entry, 0, {});
  }

  /** An execution between two events, and the entries that are paused. */
  datatype Moment = Moment(progress: Progress, paused: set<EntryID>)

  datatype Event = JobEnds(entry: EntryID, result: JobResult) | Pause(id: EntryID) | Resume(id: EntryID)

  predicate Step(g: Graph, entries: set<EntryID>, a: Moment, e: Event, b: Moment) {
    match e
    case JobEnds(entry, result) =>
      && entry in a.progress.inFlight && result.IsTerminal()
      && b == a.(progress := Finished(g, entries, a.paused, a.progress, entry, result))
    case Pause(id) => b == a.(paused := a.paused + {id})
    case Resume(id) => b == a.(paused := a.paused - {id})
  }

  /** A new execution: everything below the root is pending and the root runs. */
  ghost predicate Begins(g: Graph, root: EntryID, s: Progress) {
    && Static(g) && |s.starts| == 1 && s.starts[0].id == root && s.inFlight == multiset{root}
    && (forall id :: id in s.results <==> Reaches(g.children, root, id))
    && (forall id :: id in s.results ==> s.results[id].Pending?)
  }

  ghost predicate IsRun(g: Graph, root: EntryID, entries: set<EntryID>, moments: seq<Moment>, events: seq<Event>) {
    && |moments| == |events| + 1 && Begins(g, root, moments[0].progress)
    && forall i :: 0 <= i < |events| ==> Step(g, entries, moments[i], events[i], moments[i + 1])
  }

  lemma {:induction false} ReadyAlways(g: Graph, root: EntryID, entries: set<EntryID>, moments: seq<Moment>,
                                       events: seq<Event>, i: nat)
    requires IsRun(g, root, entries, moments, events) && i < |moments|
    ensures Ready(g, root, entries, moments[i].progress, {})
    decreases i
  {
    hide Ready, Begins, Finished;
    if i == 0 {
      BeginsReady(g, root, entries, moments[0].progress);
    } else {
      ReadyAlways(g, root, entries, moments, events, i - 1);
      var a, e := moments[i - 1], events[i - 1];
      assert Step(g, entries, a, e, moments[i]);
      if e.JobEnds? {
        FinishedKeeps(g, root, entries, a.paused, a.progress, e.entry, e.result);
      }
    }
  }

  lemma BeginsReady(g: Graph, root: EntryID, entries: set<EntryID>, s: Progress)
    requires Begins(g, root, s)
    ensures Ready(g, root, entries, s, {})
  {
    hide Static, Participants, NoneStuck, StartsJustified, Once, NoShortcuts, Reaches, Edge;
    NewIsReady(g, entries, root, s.results, s.starts);
    ReachesItself(g.children, root);
  }

  /** In a workflow without shortcuts, over every order of job ends, outcomes and pauses, no participant is started
      twice or resolved twice, and whoever was started had all parents resolved as its conditions demand. */
  lemma AtMostOnce(g: Graph, root: EntryID, entries: set<EntryID>, moments: seq<Moment>, events: seq<Event>, i: nat,
                   id: EntryID)
    requires IsRun(g, root, entries, moments, events) && i < |moments| && NoShortcuts(g, root)
    ensures Starts(moments[i].progress.starts)[id] <= 1
    ensures i < |events| && events[i].JobEnds? ==>
              var e := events[i].entry; e in moments[i].progress.results && moments[i].progress.results[e].Pending?
    ensures StartsJustified(g, root, moments[i].progress.starts)
  {
    hide Step, Static, Participants, NoneStuck, StartsJustified, NoShortcuts, Begins;
    ReadyAlways(g, root, entries, moments, events, i);
    if i < |events| && events[i].JobEnds? {
      assert Step(g, entries, moments[i], events[i], moments[i + 1]);
      EndsWhileRunning(g, entries, moments[i], events[i], moments[i + 1]);
      RunningIsPending(g, root, moments[i].progress.results, moments[i].progress.inFlight, moments[i].progress.starts,
                       events[i].entry);
    }
  }

  lemma EndsWhileRunning(g: Graph, entries: set<EntryID>, a: Moment, e: Event, b: Moment)
    requires Step(g, entries, a, e, b) && e.JobEnds?
    ensures e.entry in a.progress.inFlight
  {
  }

  /** Over every run, once nothing is in flight everything has resolved, if no participant has a parent outside. */
  lemma QuietRunIsComplete(g: Graph, root: EntryID, entries: set<EntryID>, moments: seq<Moment>, events: seq<Event>,
                           i: nat)
    requires IsRun(g, root, entries, moments, events) && i < |moments| && moments[i].progress.inFlight == multiset{}
    requires Closed(g, root) && forall id :: Reaches(g.children, root, id) ==> id in entries
    ensures IsComplete(moments[i].progress.results)
  {
    hide Step, Static, NoneStuck, StartsJustified, Once, NoShortcuts, Begins, Edge, IsComplete, Reaches;
    var results := moments[i].progress.results;
    ReadyAlways(g, root, entries, moments, events, i);
    forall p, id | id in results && id != root && Edge(g.children, p, id)
      ensures p in results && p in entries
    {
      ReachedParticipates(g, root, results.Keys, p);
    }
    QuietIsComplete(g, root, entries, results);
  }

  /** What can be reached from the root takes part. */
  lemma ReachedParticipates(g: Graph, root: EntryID, ids: set<EntryID>, id: EntryID)
    requires Participants(g, root, ids)
    ensures Reaches(g.children, root, id) <==> id in ids
  {
    hide Reaches;
    if Reaches(g.children, root, id) {
      forall a, b | a in ids && Edge(g.children, a, b)
        ensures b in ids
      {
      }
      ReachedIsIn(g.children, ids, root, id);
    }
  }

  /** Over every run, what has resolved keeps its result, without shortcuts until the end. */
  lemma ResultsStay(g: Graph, root: EntryID, entries: set<EntryID>, moments: seq<Moment>, events: seq<Event>, i: nat,
                    id: EntryID)
    requires IsRun(g, root, entries, moments, events) && i < |events| && NoShortcuts(g, root)
    requires id in moments[i].progress.results && moments[i].progress.results[id].IsTerminal()
    ensures id in moments[i + 1].progress.results
            && moments[i + 1].progress.results[id] == moments[i].progress.results[id]
  {
    hide Ready, Begins, Finished, NoShortcuts, SkipJustified;
    var a, e, b := moments[i], events[i], moments[i + 1];
    assert Step(g, entries, a, e, b);
    ReadyAlways(g, root, entries, moments, events, i);
    if e.JobEnds? {
      FinishedKeeps(g, root, entries, a.paused, a.progress, e.entry, e.result);
    }
  }

  // ----- parents before children -----

  /** A participant but the root starts or resolves only when all its parents have resolved. */
  ghost predicate ParentsFirst(g: Graph, root: EntryID, s: Progress) {
    forall p, id :: Edge(g.children, p, id) && id != root && (id in s.inFlight || Resolved(s.results, id))
                    ==> Resolved(s.results, p)
  }

  lemma {:induction false} EvaluateParentsFirst(g: Graph, root: EntryID, entries: set<EntryID>, paused: set<EntryID>,
                                                s: Progress, children: seq<EntryID>)
    requires Inverse(g.deps, g.children) && ParentsFirst(g, root, s)
    ensures ParentsFirst(g, root, Evaluate(g, entries, paused, s, children))
    decreases PendingSet(s.results), 1, |children|
  {
    hide EvaluateOne, ParentsFirst, PendingSet, Inverse;
    if children == [] {
    } else {
      EvaluateOneParentsFirst(g, root, entries, paused, s, children[0]);
      EvaluateParentsFirst(g, root, entries, paused, EvaluateOne(g, entries, paused, s, children[0]), children[1..]);
    }
  }

  lemma {:induction false} EvaluateOneParentsFirst(g: Graph, root: EntryID, entries: set<EntryID>, paused: set<EntryID>,
                                                   s: Progress, child: EntryID)
    requires Inverse(g.deps, g.children) && ParentsFirst(g, root, s)
    ensures ParentsFirst(g, root, EvaluateOne(g, entries, paused, s, child))
    decreases PendingSet(s.results), 0, 0
  {
    hide Evaluate, EvaluateOne, ParentsFirst, Inverse;
    EvaluateOneIs(g, entries, paused, s, child);
    if child in s.results && s.results[child].Pending? && AllParentsResolved(DepsOf(g.deps, child), s.results) {
      var skipped := s.(results := s.results[child := Skipped]);
      AfterItsParents(g, root, s, child);
      assert child in PendingSet(s.results) && child !in PendingSet(skipped.results);
      EvaluateParentsFirst(g, root, entries, paused, skipped, Successors(g.children, child));
    }
  }

  /** Whoever's parents have all resolved may start or be skipped. */
  lemma AfterItsParents(g: Graph, root: EntryID, s: Progress, child: EntryID)
    requires Inverse(g.deps, g.children) && ParentsFirst(g, root, s) && child in s.results
    requires AllParentsResolved(DepsOf(g.deps, child), s.results)
    ensures ParentsFirst(g, root, Started(s, child))
    ensures ParentsFirst(g, root, s.(results := s.results[child := Skipped]))
  {
    forall p | Edge(g.children, p, child)
      ensures Resolved(s.results, p)
    {
      assert IsParent(g.deps, p, child);
    }
  }

  lemma {:induction false} ParentsFirstAlways(g: Graph, root: EntryID, entries: set<EntryID>, moments: seq<Moment>,
                                              events: seq<Event>, i: nat)
    requires IsRun(g, root, entries, moments, events) && i < |moments|
    ensures ParentsFirst(g, root, moments[i].progress)
    decreases i
  {
    hide Step, Static, Reaches, Edge;
    if i == 0 {
    } else {
      ParentsFirstAlways(g, root, entries, moments, events, i - 1);
      StaticInverse(g);
      StepParentsFirst(g, root, entries, moments[i - 1], events[i - 1], moments[i]);
    }
  }

  lemma StepParentsFirst(g: Graph, root: EntryID, entries: set<EntryID>, a: Moment, e: Event, b: Moment)
    requires Inverse(g.deps, g.children) && ParentsFirst(g, root, a.progress) && Step(g, entries, a, e, b)
    ensures ParentsFirst(g, root, b.progress)
  {
    hide Evaluate, Inverse;
    if e.JobEnds? {
      var s := a.progress;
      var ended := Progress(s.results[e.entry := e.result], s.inFlight - multiset{e.entry}, s.starts);
      EvaluateParentsFirst(g, root, entries, a.paused, ended, Successors(g.children, e.entry));
    }
  }

  /** What is below a pending participant is pending and does not run. */
  lemma PendingBelow(g: Graph, root: EntryID, entries: set<EntryID>, s: Progress, p: EntryID, id: EntryID)
    requires Ready(g, root, entries, s, {}) && ParentsFirst(g, root, s)
    requires p in s.results && s.results[p].Pending? && Reaches(g.children, p, id)
    ensures id in s.results && s.results[id].Pending?
  {
    hide NoneStuck, StartsJustified, Once, NoShortcuts, Static, Reaches;
    forall a, b | a in PendingSet(s.results) && Edge(g.children, a, b)
      ensures b in PendingSet(s.results)
    {
      ChildParticipates(g, root, s.results.Keys, a, b);
    }
    ReachedIsIn(g.children, PendingSet(s.results), p, id);
  }

  /** No other job ends before the root's. */
  lemma RootEndsFirst(g: Graph, root: EntryID, entries: set<EntryID>, s: Progress, entry: EntryID)
    requires Ready(g, root, entries, s, {}) && ParentsFirst(g, root, s) && entry in s.inFlight && entry != root
    ensures s.results[root].IsTerminal()
  {
    hide Static, NoneStuck, StartsJustified, Once, NoShortcuts, Reaches, Edge;
    if s.results[root].Pending? {
      var p := ReachedThrough(g.children, root, entry);
      PendingBelow(g, root, entries, s, root, p);
    }
  }

  /** A participant with a parent outside the execution never starts and never resolves, over every run. */
  lemma OutsideParentBlocks(g: Graph, root: EntryID, entries: set<EntryID>, moments: seq<Moment>, events: seq<Event>,
                            i: nat, p: EntryID, id: EntryID)
    requires IsRun(g, root, entries, moments, events) && i < |moments|
    requires Reaches(g.children, root, id) && id != root && Edge(g.children, p, id) && !Reaches(g.children, root, p)
    ensures var s := moments[i].progress;
            id in s.results && s.results[id].Pending? && id !in s.inFlight && !IsComplete(s.results)
  {
    hide Step, Static, NoneStuck, StartsJustified, Once, NoShortcuts, Begins, Reaches;
    var s := moments[i].progress;
    ReadyAlways(g, root, entries, moments, events, i);
    ParentsFirstAlways(g, root, entries, moments, events, i);
    ReachedParticipates(g, root, s.results.Keys, id);
    ReachedParticipates(g, root, s.results.Keys, p);
  }

  // ----- starting twice, with or without shortcuts -----

  function Count(starts: seq<Start>, id: EntryID): nat { Starts(starts)[id] }

  /** What runs was started, and of a pending participant every job that was started still runs. */
  ghost predicate Counted(s: Progress) {
    && (forall x :: s.inFlight[x] <= Count(s.starts, x))
    && (forall x :: x in s.results && s.results[x].Pending? ==> s.inFlight[x] == Count(s.starts, x))
  }

  /** From s to r jobs were only added, and only those of participants that were pending. */
  ghost predicate OnlyStarted(s: Progress, r: Progress) {
    && (forall x :: x in r.results && r.results[x].Pending? ==> x in s.results && s.results[x].Pending?)
    && (forall x :: Count(s.starts, x) <= Count(r.starts, x))
    && (forall x :: r.inFlight[x] + Count(s.starts, x) == s.inFlight[x] + Count(r.starts, x))
    && (forall x :: !(x in s.results && s.results[x].Pending?) ==> Count(r.starts, x) == Count(s.starts, x))
  }

  lemma OnlyStartedTwice(s: Progress, t: Progress, r: Progress)
    requires OnlyStarted(s, t) && OnlyStarted(t, r)
    ensures OnlyStarted(s, r)
  {
    hide Count;
  }

  lemma StartedIsOnlyStarted(s: Progress, child: EntryID)
    requires child in s.results && s.results[child].Pending?
    ensures OnlyStarted(s, Started(s, child))
  {
    OneMoreStart(s.starts, Start(child, s.results));
  }

  lemma {:induction false} EvaluateOnlyStarts(g: Graph, entries: set<EntryID>, paused: set<EntryID>, s: Progress,
                                              children: seq<EntryID>)
    ensures OnlyStarted(s, Evaluate(g, entries, paused, s, children))
    decreases PendingSet(s.results), 1, |children|
  {
    hide EvaluateOne, OnlyStarted, PendingSet;
    if children == [] {
      NothingIsOnlyStarted(s);
    } else {
      var t := EvaluateOne(g, entries, paused, s, children[0]);
      EvaluateOneOnlyStarts(g, entries, paused, s, children[0]);
      EvaluateOnlyStarts(g, entries, paused, t, children[1..]);
      OnlyStartedTwice(s, t, Evaluate(g, entries, paused, t, children[1..]));
    }
  }

  lemma NothingIsOnlyStarted(s: Progress)
    ensures OnlyStarted(s, s)
  {
  }

  lemma {:induction false} EvaluateOneOnlyStarts(g: Graph, entries: set<EntryID>, paused: set<EntryID>, s: Progress,
                                                 child: EntryID)
    ensures OnlyStarted(s, EvaluateOne(g, entries, paused, s, child))
    decreases PendingSet(s.results), 0, 0
  {
    hide Evaluate, EvaluateOne, ShouldTrigger, AllParentsResolved, Count;
    EvaluateOneIs(g, entries, paused, s, child);
    if child in s.results && s.results[child].Pending? {
      var skipped := s.(results := s.results[child := Skipped]);
      assert OnlyStarted(s, skipped);
      assert child in PendingSet(s.results) && child !in PendingSet(skipped.results);
      EvaluateOnlyStarts(g, entries, paused, skipped, Successors(g.children, child));
      OnlyStartedTwice(s, skipped, SkipAndEvaluate(g, entries, paused, s, child));
      StartedIsOnlyStarted(s, child);
    }
  }

  /** From one event to the next: started jobs stay started, and whoever gains a start runs as often as it was
      started. */
  lemma StepCounts(g: Graph, entries: set<EntryID>, a: Moment, e: Event, b: Moment)
    requires Step(g, entries, a, e, b) && Counted(a.progress)
    ensures Counted(b.progress)
    ensures forall x :: Count(a.progress.starts, x) <= Count(b.progress.starts, x)
    ensures forall x :: Count(a.progress.starts, x) < Count(b.progress.starts, x)
                        ==> b.progress.inFlight[x] == Count(b.progress.starts, x)
  {
    hide Evaluate, Count;
    if e.JobEnds? {
      var s := a.progress;
      var ended := Progress(s.results[e.entry := e.result], s.inFlight - multiset{e.entry}, s.starts);
      EvaluateOnlyStarts(g, entries, a.paused, ended, Successors(g.children, e.entry));
    }
  }

  lemma {:induction false} CountedAlways(g: Graph, root: EntryID, entries: set<EntryID>, moments: seq<Moment>,
                                         events: seq<Event>, i: nat)
    requires IsRun(g, root, entries, moments, events) && i < |moments|
    ensures Counted(moments[i].progress)
    decreases i
  {
    hide Step, Reaches, Edge, Static;
    if i == 0 {
      var starts := moments[0].progress.starts;
      assert starts == [starts[0]];
      FirstStart(starts[0]);
      ReachesItself(g.children, root);
    } else {
      CountedAlways(g, root, entries, moments, events, i - 1);
      StepCounts(g, entries, moments[i - 1], events[i - 1], moments[i]);
    }
  }

  /** Over every run, in any graph: an entry has been started twice exactly when at some time two of its jobs ran at
      once. */
  lemma {:induction false} SecondStartOverlaps(g: Graph, root: EntryID, entries: set<EntryID>, moments: seq<Moment>,
                                               events: seq<Event>, i: nat, id: EntryID)
    requires IsRun(g, root, entries, moments, events) && i < |moments|
    ensures Count(moments[i].progress.starts, id) >= 2
            <==> exists j :: 0 <= j <= i && moments[j].progress.inFlight[id] >= 2
    decreases i
  {
    hide Step, Begins, Count;
    CountedAlways(g, root, entries, moments, events, i);
    if i == 0 {
      OneStartAtFirst(g, root, moments[0].progress, id);
    } else {
      SecondStartOverlaps(g, root, entries, moments, events, i - 1, id);
      CountedAlways(g, root, entries, moments, events, i - 1);
      StepCounts(g, entries, moments[i - 1], events[i - 1], moments[i]);
      assert moments[i].progress.inFlight[id] <= Count(moments[i].progress.starts, id);
    }
  }

  lemma OneStartAtFirst(g: Graph, root: EntryID, s: Progress, id: EntryID)
    requires Begins(g, root, s)
    ensures Count(s.starts, id) <= 1
  {
    hide Reaches, Edge, Static;
    assert s.starts == [s.starts[0]];
    FirstStart(s.starts[0]);
  }

  // ----- what the conditions mean, over whole runs -----

  /** Over every run, when an entry other than the root starts, every parent has the result that its condition names. */
  lemma StartsNamed(g: Graph, root: EntryID, entries: set<EntryID>, moments: seq<Moment>, events: seq<Event>, i: nat,
                    k: nat, d: Dependency)
    requires IsRun(g, root, entries, moments, events) && i < |moments| && k < |moments[i].progress.starts|
    requires moments[i].progress.starts[k].id != root && d in DepsOf(g.deps, moments[i].progress.starts[k].id)
    ensures var seen := moments[i].progress.starts[k].seen;
            && d.parent in seen
            && (d.condition == OnSuccess ==> seen[d.parent] == Success)
            && (d.condition == OnFailure ==> seen[d.parent] == Failure)
            && (d.condition == OnSkipped ==> seen[d.parent] == Skipped)
            && (d.condition == OnComplete ==> seen[d.parent] in {Success, Failure, Skipped})
            && !d.condition.Unknown?
  {
    hide Step, Static, NoneStuck, Once, NoShortcuts, Begins, Participants;
    ReadyAlways(g, root, entries, moments, events, i);
  }

  /** The result of the parent is not the one that its condition names. */
  predicate Unmet(d: Dependency, results: Results)
    requires d.parent in results
  {
    || (d.condition == OnSuccess && results[d.parent] != Success)
    || (d.condition == OnFailure && results[d.parent] != Failure)
    || (d.condition == OnSkipped && results[d.parent] != Skipped)
    || d.condition.Unknown?
  }

  /** Over every run, a participant that is skipped though it is there and not paused has such a parent, and all its
      parents have resolved. */
  lemma SkipsNamed(g: Graph, root: EntryID, entries: set<EntryID>, moments: seq<Moment>, events: seq<Event>, i: nat,
                   x: EntryID)
    requires IsRun(g, root, entries, moments, events) && i < |events| && events[i].JobEnds?
    requires x in moments[i].progress.results && moments[i].progress.results[x] == Pending
    requires x in moments[i + 1].progress.results && moments[i + 1].progress.results[x] != Pending
    requires x != events[i].entry && x in entries && x !in moments[i].paused
    ensures var results := moments[i + 1].progress.results;
            && results[x] == Skipped
            && (forall d :: d in DepsOf(g.deps, x) ==> d.parent in results && results[d.parent] != Pending)
            && exists d :: d in DepsOf(g.deps, x) && d.parent in results
                           && (|| (d.condition == OnSuccess && results[d.parent] != Success)
                               || (d.condition == OnFailure && results[d.parent] != Failure)
                               || (d.condition == OnSkipped && results[d.parent] != Skipped)
                               || d.condition.Unknown?)
  {
    hide Ready, Begins, Finished, NoShortcuts, StartedBelow;
    var a, e, b := moments[i], events[i], moments[i + 1];
    assert Step(g, entries, a, e, b);
    ReadyAlways(g, root, entries, moments, events, i);
    FinishedKeeps(g, root, entries, a.paused, a.progress, e.entry, e.result);
    if x == root {
      ParentsFirstAlways(g, root, entries, moments, events, i);
      EndsWhileRunning(g, entries, a, e, b);
      RootEndsFirst(g, root, entries, a.progress, e.entry);
    }
    HasParents(g, root, entries, a.progress, x);
    SkipHasUnmet(g, entries, a.paused, b.progress.results, x);
  }

  lemma SkipHasUnmet(g: Graph, entries: set<EntryID>, paused: set<EntryID>, results: Results, x: EntryID)
    requires SkipJustified(g, entries, paused, results, x) && x in entries && x !in paused && DepsOf(g.deps, x) != []
    ensures forall d :: d in DepsOf(g.deps, x) ==> d.parent in results && results[d.parent] != Pending
    ensures exists d :: d in DepsOf(g.deps, x) && d.parent in results && Unmet(d, results)
  {
    var d :| d in DepsOf(g.deps, x) && !d.condition.Matches(results[d.parent]);
    assert Unmet(d, results);
  }

  /** A participant other than the root has parents; the root is pending only while it runs. */
  lemma HasParents(g: Graph, root: EntryID, entries: set<EntryID>, s: Progress, x: EntryID)
    requires Ready(g, root, entries, s, {}) && x in s.results && x != root
    ensures DepsOf(g.deps, x) != []
  {
    hide Acyclic, NoneStuck, Once, NoShortcuts, StartsJustified, Reaches;
    var p := ReachedThrough(g.children, root, x);
    assert IsParent(g.deps, p, x);
  }

  /** A child that waits, is there and not paused starts when every parent has the result that its condition names. */
  lemma MetChildStarts(g: Graph, entries: set<EntryID>, paused: set<EntryID>, s: Progress, child: EntryID)
    requires child in s.results && s.results[child] == Pending && child in entries && child !in paused
    requires DepsOf(g.deps, child) != []
    requires forall d :: d in DepsOf(g.deps, child) ==>
                           && d.parent in s.results && s.results[d.parent] != Pending && !d.condition.Unknown?
                           && (d.condition == OnSuccess ==> s.results[d.parent] == Success)
                           && (d.condition == OnFailure ==> s.results[d.parent] == Failure)
                           && (d.condition == OnSkipped ==> s.results[d.parent] == Skipped)
    ensures EvaluateOne(g, entries, paused, s, child) == Started(s, child)
  {
    hide Evaluate, EvaluateOne;
    EvaluateOneIs(g, entries, paused, s, child);
  }

  // ----- a recovery step -----

  /** Step 2 runs when step 1 fails, step 3 when step 2 is skipped. */
  function RecoveryGraph(): Graph {
    Graph(map[2 := [Dependency(1, OnFailure)], 3 := [Dependency(2, OnSkipped)]], map[1 := [2], 2 := [3]])
  }

  /** An execution of those steps in which step 1 ends. */
  function RecoveryRun(result: JobResult): seq<Moment> {
    var results := map[1 := Pending, 2 := Pending, 3 := Pending];
    var first := Progress(results, multiset{1}, [Start(1, results)]);
    [Moment(first, {}), Moment(Finished(RecoveryGraph(), {1, 2, 3}, {}, first, 1, result), {})]
  }

  lemma RecoveryBegins(result: JobResult)
    ensures Begins(RecoveryGraph(), 1, RecoveryRun(result)[0].progress)
  {
    hide Reaches, Evaluate, Finished;
    var g := RecoveryGraph();
    forall parent, child
      ensures Edge(g.children, parent, child) <==> IsParent(g.deps, parent, child)
      ensures Edge(g.children, parent, child) <==> (parent, child) in {(1, 2), (2, 3)}
    {
      assert DepsOf(g.deps, 2)[0] == Dependency(1, OnFailure) && DepsOf(g.deps, 3)[0] == Dependency(2, OnSkipped);
    }
    forall a, b | Edge(g.children, a, b)
      ensures !Reaches(g.children, b, a)
    {
      if Reaches(g.children, b, a) {
        ReachedIsIn(g.children, if b == 2 then {2, 3} else {3}, b, a);
      }
    }
    ReachesItself(g.children, 1);
    assert Edge(g.children, 1, 2) && Edge(g.children, 2, 3);
    ReachesBeforeEdge(g.children, 1, 1, 2);
    ReachesBeforeEdge(g.children, 1, 2, 3);
    forall id | Reaches(g.children, 1, id)
      ensures id in {1, 2, 3}
    {
      ReachedIsIn(g.children, {1, 2, 3}, 1, id);
    }
  }

  /** When step 1 fails, step 2 starts; when it succeeds, step 2 is skipped and step 3 starts. */
  lemma RecoveryStarts(result: JobResult)
    requires result in {Success, Failure}
    ensures IsRun(RecoveryGraph(), 1, {1, 2, 3}, RecoveryRun(result), [JobEnds(1, result)])
    ensures var after := RecoveryRun(result)[1].progress;
            if result == Failure
            then after.inFlight == multiset{2} && after.results == map[1 := Failure, 2 := Pending, 3 := Pending]
            else after.inFlight == multiset{3} && after.results == map[1 := Success, 2 := Skipped, 3 := Pending]
  {
    hide Evaluate, EvaluateOne, Begins, ShouldTrigger, AllParentsResolved, Unmet;
    RecoveryBegins(result);
    var g, entries := RecoveryGraph(), {1, 2, 3};
    var results := map[1 := Pending, 2 := Pending, 3 := Pending];
    var s0 := Progress(map[1 := result, 2 := Pending, 3 := Pending], multiset{}, [Start(1, results)]);
    assert results[1 := result] == s0.results && multiset{1} - multiset{1} == multiset{};
    RecoveryStep(s0, result);
    OneOf(g, entries, s0, 2);
  }

  lemma OneOf(g: Graph, entries: set<EntryID>, s: Progress, child: EntryID)
    ensures Evaluate(g, entries, {}, s, [child]) == EvaluateOne(g, entries, {}, s, child)
  {
    hide EvaluateOne;
    assert [child][1..] == [];
  }

  lemma RecoveryStep(s: Progress, result: JobResult)
    requires result in {Success, Failure} && s.results == map[1 := result, 2 := Pending, 3 := Pending]
    ensures var skipped := s.(results := map[1 := Success, 2 := Skipped, 3 := Pending]);
            EvaluateOne(RecoveryGraph(), {1, 2, 3}, {}, s, 2)
            == if result == Failure then Started(s, 2) else Started(skipped, 3)
  {
    hide Evaluate, EvaluateOne;
    var g, entries := RecoveryGraph(), {1, 2, 3};
    EvaluateOneIs(g, entries, {}, s, 2);
    assert DepsOf(g.deps, 2)[0] == Dependency(1, OnFailure) && DepsOf(g.deps, 3)[0] == Dependency(2, OnSkipped);
    if result == Success {
      var skipped := s.(results := s.results[2 := Skipped]);
      assert skipped.results == map[1 := Success, 2 := Skipped, 3 := Pending];
      OneOf(g, entries, skipped, 3);
      EvaluateOneIs(g, entries, {}, skipped, 3);
    }
  }

  // ----- with a shortcut an entry may start twice -----

  /** Steps 1, 2 after 1 on success, and a final step 3: what AddWorkflow registers for them. */
  function FinalStepGraph(): Graph {
    Graph(map[2 := [Dependency(1, OnSuccess)], 3 := [Dependency(1, OnComplete), Dependency(2, OnComplete)]],
          map[1 := [2, 3], 2 := [3]])
  }

  lemma FinalStepGraphIsStatic()
    ensures Static(FinalStepGraph()) && Closed(FinalStepGraph(), 1) && !NoShortcuts(FinalStepGraph(), 1)
  {
    hide Reaches;
    var g := FinalStepGraph();
    forall parent, child
      ensures Edge(g.children, parent, child) <==> IsParent(g.deps, parent, child)
      ensures Edge(g.children, parent, child) <==> (parent, child) in {(1, 2), (1, 3), (2, 3)}
    {
      assert DepsOf(g.deps, 2)[0] == Dependency(1, OnSuccess);
      assert DepsOf(g.deps, 3)[0] == Dependency(1, OnComplete) && DepsOf(g.deps, 3)[1] == Dependency(2, OnComplete);
    }
    forall a, b | Edge(g.children, a, b)
      ensures !Reaches(g.children, b, a)
    {
      if Reaches(g.children, b, a) {
        ReachedIsIn(g.children, if b == 2 then {2, 3} else {3}, b, a);
      }
    }
    ReachesItself(g.children, 2);
    ReachesItself(g.children, 1);
    assert Edge(g.children, 1, 2) && Edge(g.children, 2, 3) && Edge(g.children, 1, 3);
    ReachesBeforeEdge(g.children, 1, 1, 2);
    assert Shortcut(g, 1, 1, 2, 2, 3);
  }

  /** An execution of those steps in which step 1 fails. */
  function FinalStepRun(): seq<Moment> {
    var results := map[1 := Pending, 2 := Pending, 3 := Pending];
    var first := Progress(results, multiset{1}, [Start(1, results)]);
    [Moment(first, {}), Moment(Finished(FinalStepGraph(), {1, 2, 3}, {}, first, 1, Failure), {})]
  }

  lemma FinalStepBegins()
    ensures Begins(FinalStepGraph(), 1, FinalStepRun()[0].progress)
  {
    hide Reaches, Static, Evaluate, NoShortcuts;
    var g := FinalStepGraph();
    FinalStepGraphIsStatic();
    ReachesItself(g.children, 1);
    assert Edge(g.children, 1, 2) && Edge(g.children, 1, 3);
    ReachesBeforeEdge(g.children, 1, 1, 2);
    ReachesBeforeEdge(g.children, 1, 1, 3);
    forall id | Reaches(g.children, 1, id)
      ensures id in {1, 2, 3}
    {
      ReachedIsIn(g.children, {1, 2, 3}, 1, id);
    }
  }

  /** When step 1 fails, step 2 is skipped and starts step 3; then step 1 finds step 3 pending still and starts it
      again. */
  lemma FinalStepStartsTwice()
    ensures IsRun(FinalStepGraph(), 1, {1, 2, 3}, FinalStepRun(), [JobEnds(1, Failure)])
    ensures Count(FinalStepRun()[1].progress.starts, 3) == 2
  {
    hide Evaluate, EvaluateOne, Begins, Starts, Static, ShouldTrigger, AllParentsResolved;
    FinalStepBegins();
    var g, entries := FinalStepGraph(), {1, 2, 3};
    var results := map[1 := Pending, 2 := Pending, 3 := Pending];
    var root := Start(1, results);
    var s0 := Progress(map[1 := Failure, 2 := Pending, 3 := Pending], multiset{}, [root]);
    var s1 := s0.(results := map[1 := Failure, 2 := Skipped, 3 := Pending]);
    var s2, s3 := Started(s1, 3), Started(Started(s1, 3), 3);
    assert results[1 := Failure] == s0.results && multiset{1} - multiset{1} == multiset{};
    assert s0.results[2 := Skipped] == s1.results;
    SecondStepIsSkipped(s0);
    ThirdStepStarts(s1);
    ThirdStepStarts(s2);
    OneChild(g, entries, s1);
    OneChild(g, entries, s2);
    EvaluateNext(g, entries, {}, s0, [2, 3], 0);
    assert [2, 3][0..] == [2, 3] && [2, 3][1..] == [3];
    OneMoreStart(s1.starts, Start(3, s1.results));
    OneMoreStart(s2.starts, Start(3, s2.results));
    FirstStart(root);
  }

  lemma OneChild(g: Graph, entries: set<EntryID>, s: Progress)
    ensures Evaluate(g, entries, {}, s, [3]) == EvaluateOne(g, entries, {}, s, 3)
  {
    assert [3][1..] == [];
  }

  lemma ThirdStepStarts(s: Progress)
    requires s.results == map[1 := Failure, 2 := Skipped, 3 := Pending]
    ensures EvaluateOne(FinalStepGraph(), {1, 2, 3}, {}, s, 3) == Started(s, 3)
  {
    hide Evaluate;
    EvaluateOneIs(FinalStepGraph(), {1, 2, 3}, {}, s, 3);
  }

  lemma SecondStepIsSkipped(s: Progress)
    requires s.results == map[1 := Failure, 2 := Pending, 3 := Pending]
    ensures EvaluateOne(FinalStepGraph(), {1, 2, 3}, {}, s, 2)
            == Evaluate(FinalStepGraph(), {1, 2, 3}, {}, s.(results := s.results[2 := Skipped]), [3])
  {
    hide Evaluate;
    EvaluateOneIs(FinalStepGraph(), {1, 2, 3}, {}, s, 2);
    assert DepsOf(FinalStepGraph().deps, 2)[0] == Dependency(1, OnSuccess);
  }
}
