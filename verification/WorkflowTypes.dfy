/** The vocabulary of workflows: job results, trigger conditions and dependency edges. */
module WorkflowTypes {
  import opened Digraphs

  type EntryID = int

  datatype JobResult = Pending | Success | Failure | Skipped
  {
    predicate IsTerminal() { !Pending? }
  }

  /** Unknown stands for a condition code outside the four that are defined. */
  datatype TriggerCondition = OnSuccess | OnFailure | OnSkipped | OnComplete | Unknown(code: int)
  {
    predicate Valid() { !Unknown? }

    predicate Matches(result: JobResult) {
      match this
      case OnSuccess => result == Success
      case OnFailure => result == Failure
      case OnSkipped => result == Skipped
      case OnComplete => result.IsTerminal()
      case Unknown(_) => false
    }
  }

  /** A condition holds only of a parent that has resolved. */
  lemma MatchesTerminalOnly(c: TriggerCondition, result: JobResult)
    ensures c.Matches(result) ==> result.IsTerminal() && c.Valid()
  {
  }

  /** The valid conditions are those that some result meets. */
  lemma ValidCanBeMet(c: TriggerCondition)
    ensures c.Valid() <==> exists result: JobResult :: c.Matches(result)
  {
    if c.Valid() {
      assert c.Matches(Success) || c.Matches(Failure) || c.Matches(Skipped);
    }
  }

  datatype Dependency = Dependency(parent: EntryID, condition: TriggerCondition)

  type Dependencies = map<EntryID, seq<Dependency>>
  type Children = map<EntryID, seq<EntryID>>
  type Results = map<EntryID, JobResult>

  function DepsOf(deps: Dependencies, child: EntryID): seq<Dependency> {
    if child in deps then deps[child] else []
  }

  predicate IsParent(deps: Dependencies, parent: EntryID, child: EntryID) {
    exists d :: d in DepsOf(deps, child) && d.parent == parent
  }

  /** The two maps describe the same edges, each child listed once per parent. */
  ghost predicate Inverse(deps: Dependencies, children: Children) {
    && (forall parent, child :: Edge(children, parent, child) <==> IsParent(deps, parent, child))
    && (forall parent :: parent in children ==> Distinct(children[parent]))
  }

  predicate Resolved(results: Results, id: EntryID) {
    id in results && results[id].IsTerminal()
  }

  /** shouldTriggerChild: every parent has resolved and met its condition. */
  predicate ShouldTrigger(deps: seq<Dependency>, results: Results) {
    deps != [] && forall d :: d in deps ==> Resolved(results, d.parent) && d.condition.Matches(results[d.parent])
  }

  /** allParentsResolved */
  predicate AllParentsResolved(deps: seq<Dependency>, results: Results) {
    forall d :: d in deps ==> Resolved(results, d.parent)
  }

  /** IsComplete: every participant has resolved. */
  predicate IsComplete(results: Results) {
    forall id :: id in results ==> results[id].IsTerminal()
  }
}
