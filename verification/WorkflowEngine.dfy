/** The workflow engine: executions advance as their jobs end and complete when every participant has resolved. */
module WorkflowEngine {
  import opened Digraphs
  import opened WorkflowTypes
  import opened WorkflowRuns

  class WorkflowExecution {
    const id: string
    const rootId: EntryID
    var results: Results
    // The jobs of this execution that run now, and all starts so far.
    var inFlight: multiset<EntryID>
    ghost var starts: seq<Start>

    ghost function State(): Progress
      reads this
    {
      Progress(results, inFlight, starts)
    }

    constructor (id: string, rootId: EntryID, participants: set<EntryID>)
      ensures this.id == id && this.rootId == rootId
      ensures results == map x | x in participants :: Pending
      ensures inFlight == multiset{} && starts == []
    {
      this.id, this.rootId := id, rootId;
      results := map x | x in participants :: Pending;
      inFlight, starts := multiset{}, [];
    }
  }

  class Engine {
    const g: Graph
    var entries: set<EntryID>
    var paused: set<EntryID>

    /** The invariants of an execution between two events. */
    ghost predicate Ready(exec: WorkflowExecution)
      reads `entries, exec
    {
      WorkflowRuns.Ready(g, exec.rootId, entries, exec.State(), {})
    }

    /** evaluateChildren: start or skip each child of a resolved participant that has no reason left to wait. */
    method EvaluateChildren(exec: WorkflowExecution, parent: EntryID)
      modifies exec
      ensures exec.State() == Evaluate(g, entries, paused, old(exec.State()), Successors(g.children, parent))
      decreases PendingSet(exec.results), 2
    {
      hide Evaluate, EvaluateOne, ShouldTrigger, AllParentsResolved;
      var children := Successors(g.children, parent);
      NothingToEvaluate(g, entries, paused, exec.State(), children);
      for i := 0 to |children|
        invariant PendingSet(exec.results) <= old(PendingSet(exec.results))
        invariant Evaluate(g, entries, paused, old(exec.State()), children)
                  == Evaluate(g, entries, paused, exec.State(), children[i..])
      {
        EvaluateNext(g, entries, paused, exec.State(), children, i);
        var childId := children[i];
        EvaluateOneIs(g, entries, paused, exec.State(), childId);
        if childId in exec.results && exec.results[childId].Pending? {
          if ShouldTrigger(DepsOf(g.deps, childId), exec.results) {
            TriggerWorkflowChild(exec, childId);
          } else if AllParentsResolved(DepsOf(g.deps, childId), exec.results) {
            SkipChild(exec, childId);
          }
        }
      }
      NothingToEvaluate(g, entries, paused, exec.State(), children);
    }

    /** Skip a pending child and evaluate its own children. */
    method SkipChild(exec: WorkflowExecution, child: EntryID)
      requires child in exec.results && exec.results[child].Pending?
      modifies exec
      ensures exec.State() == SkipAndEvaluate(g, entries, paused, old(exec.State()), child)
      decreases PendingSet(exec.results), 0
    {
      hide Evaluate;
      exec.results := exec.results[child := Skipped];
      assert child !in PendingSet(exec.results) && child in old(PendingSet(exec.results));
      EvaluateChildren(exec, child);
    }

    /** triggerWorkflowChild: start the child, or skip it when its entry is gone or paused. */
    method TriggerWorkflowChild(exec: WorkflowExecution, child: EntryID)
      requires child in exec.results && exec.results[child].Pending?
      modifies exec
      ensures exec.State() == (var s := old(exec.State());
                               if child !in entries then s.(results := s.results[child := Skipped])
                               else if child in paused then SkipAndEvaluate(g, entries, paused, s, child)
                               else Started(s, child))
      decreases PendingSet(exec.results), 1
    {
      hide SkipAndEvaluate;
      if child !in entries {
        exec.results := exec.results[child := Skipped];
      } else if child in paused {
        SkipChild(exec, child);
      } else {
        exec.starts := exec.starts + [Start(child, exec.results)];
        exec.inFlight := exec.inFlight + multiset{child};
      }
    }

    // ----- executions -----

    var activeExecutions: map<string, WorkflowExecution>
    var completedExecutions: seq<WorkflowExecution>
    const workflowRetention: int

    /** Between two steps of the run loop: nobody is stuck in any execution, and exactly the unfinished ones are
        active. */
    ghost predicate Valid()
      reads `entries, `activeExecutions, `completedExecutions, activeExecutions.Values, completedExecutions
    {
      && (forall id :: id in activeExecutions ==>
            var exec := activeExecutions[id];
            exec.id == id && Ready(exec) && !IsComplete(exec.results))
      && (forall i :: 0 <= i < |completedExecutions| ==>
            var exec := completedExecutions[i];
            exec.id !in activeExecutions && Ready(exec) && IsComplete(exec.results))
    }

    /** Valid, except that `exec` may have just resolved its last participant. */
    ghost predicate ValidBut(exec: WorkflowExecution)
      reads `entries, `activeExecutions, `completedExecutions, activeExecutions.Values, completedExecutions, exec
    {
      && exec.id in activeExecutions && activeExecutions[exec.id] == exec && Ready(exec)
      && (forall id :: id in activeExecutions && id != exec.id ==>
            var other := activeExecutions[id];
            other.id == id && Ready(other) && !IsComplete(other.results))
      && (forall i :: 0 <= i < |completedExecutions| ==>
            var other := completedExecutions[i];
            other.id !in activeExecutions && Ready(other) && IsComplete(other.results))
    }

    /** What completeWorkflowExecution keeps of the finished executions. */
    function Retained(executions: seq<WorkflowExecution>): seq<WorkflowExecution> {
      if workflowRetention > 0 && |executions| > workflowRetention
      then executions[|executions| - workflowRetention..] else executions
    }

    /** completeWorkflowExecution */
    method CompleteWorkflowExecution(exec: WorkflowExecution)
      modifies this`activeExecutions, this`completedExecutions
      ensures activeExecutions == old(activeExecutions) - {exec.id}
      ensures completedExecutions == Retained(old(completedExecutions) + [exec])
    {
      activeExecutions := activeExecutions - {exec.id};
      completedExecutions := completedExecutions + [exec];
      if workflowRetention > 0 && |completedExecutions| > workflowRetention {
        var excess := |completedExecutions| - workflowRetention;
        completedExecutions := completedExecutions[excess..];
      }
    }

    /** Move `exec` to the completed executions if it has resolved completely. */
    method CompleteIfDone(exec: WorkflowExecution)
      requires ValidBut(exec)
      modifies this`activeExecutions, this`completedExecutions
      ensures Valid()
      ensures if IsComplete(exec.results)
              then activeExecutions == old(activeExecutions) - {exec.id}
                   && completedExecutions == Retained(old(completedExecutions) + [exec])
              else activeExecutions == old(activeExecutions) && completedExecutions == old(completedExecutions)
    {
      hide Ready, IsComplete;
      if IsComplete(exec.results) {
        CompleteWorkflowExecution(exec);
      }
    }

    /** Record how a running job ended, then start or skip what waited for it. */
    method ReportResult(exec: WorkflowExecution, entry: EntryID, result: JobResult)
      requires Ready(exec) && entry in exec.inFlight && result.IsTerminal()
      modifies exec
      ensures Ready(exec) && exec.results.Keys == old(exec.results.Keys) && exec.results[entry] == result
      ensures exec.State() == Finished(g, entries, paused, old(exec.State()), entry, result)
      ensures Advanced(g, entries, paused, old(exec.results)[entry := result], exec.results)
      // Without shortcuts nothing resolves twice.
      ensures NoShortcuts(g, exec.rootId) ==> old(exec.results[entry]).Pending?
    {
      hide Evaluate, WorkflowRuns.Ready, NoShortcuts, StartedBelow, Advanced;
      FinishedKeeps(g, exec.rootId, entries, paused, exec.State(), entry, result);
      exec.inFlight := exec.inFlight - multiset{entry};
      exec.results := exec.results[entry := result];
      EvaluateChildren(exec, entry);
    }

    /** processWorkflowEvent: the job of `entry` in execution `execId` has ended. */
    method ProcessWorkflowEvent(execId: string, entry: EntryID, panicked: bool, skipped: bool)
      requires Valid()
      requires execId in activeExecutions ==> entry in activeExecutions[execId].inFlight
      modifies this`activeExecutions, this`completedExecutions
      modifies if execId in activeExecutions then {activeExecutions[execId]} else {}
      ensures Valid()
      ensures execId !in old(activeExecutions) ==>
                activeExecutions == old(activeExecutions) && completedExecutions == old(completedExecutions)
      ensures execId in old(activeExecutions) ==>
                var exec := old(activeExecutions[execId]);
                && exec.results.Keys == old(exec.results.Keys)
                && exec.results[entry] == (if panicked then Failure else if skipped then Skipped else Success)
                && exec.State() == Finished(g, entries, paused, old(exec.State()), entry,
                                            if panicked then Failure else if skipped then Skipped else Success)
                && Advanced(g, entries, paused,
                            old(exec.results)[entry := if panicked then Failure
                                                       else if skipped then Skipped else Success],
                            exec.results)
                && (NoShortcuts(g, exec.rootId) ==> old(exec.results[entry]).Pending?)
                && (if IsComplete(exec.results)
                    then activeExecutions == old(activeExecutions) - {execId}
                         && completedExecutions == Retained(old(completedExecutions) + [exec])
                    else activeExecutions == old(activeExecutions) && completedExecutions == old(completedExecutions))
    {
      hide Ready, IsComplete, NoShortcuts, Finished, Advanced;
      if execId !in activeExecutions {
        return;
      }
      var exec := activeExecutions[execId];
      assert exec !in completedExecutions;
      ReportResult(exec, entry, if panicked then Failure else if skipped then Skipped else Success);
      CompleteIfDone(exec);
    }

    /** Everyone who can take part in an execution from root. */
    static ghost function Everyone(g: Graph, root: EntryID): set<EntryID> {
      {root} + set a, b | a in g.children && b in g.children[a] :: b
    }

    /** The inner loop of collectWorkflowParticipants: queue the children that have not been seen. */
    static method Enqueue(children: seq<EntryID>, seen: set<EntryID>)
        returns (visited: set<EntryID>, unseen: seq<EntryID>)
      ensures visited == seen + Elements(children)
      ensures Distinct(unseen) && Elements(unseen) == visited - seen
    {
      visited, unseen := seen, [];
      for i := 0 to |children|
        invariant visited == seen + Elements(children[..i])
        invariant Distinct(unseen) && Elements(unseen) == visited - seen
      {
        assert Elements(children[..i + 1]) == Elements(children[..i]) + {children[i]};
        if children[i] !in visited {
          assert Elements(unseen + [children[i]]) == Elements(unseen) + {children[i]};
          assert children[i] !in unseen;
          visited, unseen := visited + {children[i]}, unseen + [children[i]];
        }
      }
      assert children[..|children|] == children;
    }

    /** collectWorkflowParticipants: exactly the entries that can be reached from the root, each once. */
    method CollectWorkflowParticipants(root: EntryID) returns (result: seq<EntryID>)
      ensures Distinct(result)
      ensures forall id :: id in result <==> Reaches(g.children, root, id)
    {
      hide Reaches, Everyone, Edge, Distinct;
      result := [];
      var visited, queue := {root}, [root];
      StartOfSearch(g, root);
      while queue != []
        invariant root in visited && visited == Elements(result) + Elements(queue) && Distinct(result + queue)
        invariant forall id :: id in visited ==> Reaches(g.children, root, id)
        invariant forall id :: id in result ==> ChildSet(g, id) <= visited
        invariant visited <= Everyone(g, root)
        decreases Everyone(g, root) - visited, |queue|
      {
        var current := queue[0];
        var seen, unseen := Enqueue(Successors(g.children, current), visited);
        SearchStep(g, root, current, visited);
        QueueStep(result, queue, unseen, visited);
        visited, result, queue := seen, result + [current], queue[1..] + unseen;
      }
      assert result + queue == result && visited == Elements(result);
      forall id | Reaches(g.children, root, id)
        ensures id in result
      {
        SearchIsComplete(g, visited, root, id);
      }
    }

    /** startWorkflowExecution: a new execution in which everything below the root is pending and the root runs.
        `execId` is a fresh identifier. */
    method StartWorkflowExecution(execId: string, root: EntryID)
      requires Valid() && Static(g)
      requires execId !in activeExecutions && forall e :: e in completedExecutions ==> e.id != execId
      modifies this`activeExecutions
      ensures Valid()
      ensures execId in activeExecutions
              && activeExecutions == old(activeExecutions)[execId := activeExecutions[execId]]
      ensures var exec := activeExecutions[execId];
              exec.rootId == root && Begins(g, root, exec.State())
    {
      hide Ready, IsComplete, Static, Reaches, Distinct, Begins;
      var participants := CollectWorkflowParticipants(root);
      var exec := new WorkflowExecution(execId, root, Elements(participants));
      exec.inFlight := multiset{root};
      exec.starts := [Start(root, exec.results)];
      NewExecutionIsReady(exec, participants);
      activeExecutions := activeExecutions[execId := exec];
    }

    lemma NewExecutionIsReady(exec: WorkflowExecution, participants: seq<EntryID>)
      requires Static(g) && forall id :: id in participants <==> Reaches(g.children, exec.rootId, id)
      requires exec.results == map id | id in Elements(participants) :: Pending
      requires exec.inFlight == multiset{exec.rootId} && exec.starts == [Start(exec.rootId, exec.results)]
      ensures Begins(g, exec.rootId, exec.State()) && Ready(exec) && !IsComplete(exec.results)
    {
      hide Static, Reaches, WorkflowRuns.Ready;
      ReachesItself(g.children, exec.rootId);
      PendingIsIncomplete(exec.results, exec.rootId);
      BeginsReady(g, exec.rootId, entries, exec.State());
    }

    /** PauseEntry and ResumeEntry */
    method SetPaused(id: EntryID, pause: bool) returns (found: bool)
      requires Valid()
      modifies this`paused
      ensures Valid() && found == (id in entries)
      ensures paused == if !found then old(paused) else if pause then old(paused) + {id} else old(paused) - {id}
      ensures found ==> forall s :: Step(g, entries, Moment(s, old(paused)), if pause then Pause(id) else Resume(id),
                                         Moment(s, paused))
    {
      hide Ready, IsComplete;
      found := id in entries;
      if found {
        paused := if pause then paused + {id} else paused - {id};
      }
    }
  }

  lemma StartOfSearch(g: Graph, root: EntryID)
    ensures Reaches(g.children, root, root) && {root} <= Engine.Everyone(g, root)
    ensures Distinct([] + [root]) && Elements([]) + Elements([root]) == {root}
  {
    ReachesItself(g.children, root);
  }

  lemma SearchStep(g: Graph, root: EntryID, current: EntryID, visited: set<EntryID>)
    requires Reaches(g.children, root, current) && visited <= Engine.Everyone(g, root)
    ensures forall id :: id in ChildSet(g, current) ==> Reaches(g.children, root, id)
    ensures visited + Elements(Successors(g.children, current)) <= Engine.Everyone(g, root)
    ensures Elements(Successors(g.children, current)) == ChildSet(g, current)
  {
    hide Reaches;
    forall id | Edge(g.children, current, id)
      ensures Reaches(g.children, root, id) && id in Engine.Everyone(g, root)
    {
      assert current in g.children && id in g.children[current];
      ReachesBeforeEdge(g.children, root, current, id);
    }
  }

  lemma QueueStep(result: seq<EntryID>, queue: seq<EntryID>, unseen: seq<EntryID>, visited: set<EntryID>)
    requires queue != [] && Distinct(result + queue) && visited == Elements(result) + Elements(queue)
    requires Distinct(unseen) && Elements(unseen) !! visited
    ensures Distinct(result + [queue[0]] + (queue[1..] + unseen))
    ensures Elements(result + [queue[0]]) + Elements(queue[1..] + unseen) == visited + Elements(unseen)
    ensures Elements(result + [queue[0]]) == Elements(result) + {queue[0]}
    ensures unseen == [] <==> Elements(unseen) == {}
  {
    assert result + [queue[0]] + (queue[1..] + unseen) == result + queue + unseen;
    forall x | x in unseen
      ensures x !in result + queue
    {
      assert x in Elements(unseen);
    }
    DistinctConcat(result + queue, unseen);
    if unseen != [] {
      assert unseen[0] in Elements(unseen);
    }
  }

  lemma SearchIsComplete(g: Graph, visited: set<EntryID>, root: EntryID, id: EntryID)
    requires forall a :: a in visited ==> ChildSet(g, a) <= visited
    requires root in visited && Reaches(g.children, root, id)
    ensures id in visited
  {
    hide Reaches;
    forall a, b | a in visited && Edge(g.children, a, b)
      ensures b in visited
    {
      assert b in ChildSet(g, a);
    }
    ReachedIsIn(g.children, visited, root, id);
  }

  /** An execution with nothing running has resolved completely, so it is no longer active. */
  lemma QuietExecutionIsNotActive(engine: Engine, exec: WorkflowExecution)
    requires engine.Valid() && exec.inFlight == multiset{} && engine.Ready(exec)
    requires forall parent, id :: id in exec.results && id != exec.rootId && Edge(engine.g.children, parent, id)
                                  ==> parent in exec.results && parent in engine.entries
    ensures IsComplete(exec.results)
    ensures forall id :: id in engine.activeExecutions ==> engine.activeExecutions[id] != exec
  {
    hide IsComplete, Static, Participants, NoneStuck, StartsJustified, Once, NoShortcuts;
    QuietIsComplete(engine.g, exec.rootId, engine.entries, exec.results);
  }
}
