/** Workflows before they are registered: named steps, and the check that they make sense. */
module WorkflowSteps {
  import opened Digraphs
  import opened FallBackGuard
  import opened Options
  import opened WorkflowTypes

  // ----- cycles among names -----

  // A name without a color has not been visited.
  datatype Color = Gray | Black

  type NameDeps = map<string, seq<string>>

  ghost predicate OnCycle(deps: NameDeps, x: string) {
    exists y :: Edge(deps, x, y) && Reaches(deps, y, x)
  }

  /** The gray names are a path to where the search stands; black names lead only to black ones and lie on no cycle. */
  ghost predicate Colored(deps: NameDeps, color: map<string, Color>, path: seq<string>) {
    && (forall x :: x in path <==> x in color && color[x] == Gray)
    && (path == [] || Walk(deps, path))
    && (forall x, y :: IsBlack(color, x) && Edge(deps, x, y) ==> IsBlack(color, y))
    && (forall x :: IsBlack(color, x) ==> !OnCycle(deps, x))
  }

  predicate IsBlack(color: map<string, Color>, x: string) { x in color && color[x] == Black }

  function BlackNames(color: map<string, Color>): set<string> { set x | x in color && color[x] == Black }

  function AllNames(deps: NameDeps): set<string> {
    deps.Keys + set x, y | x in deps && y in deps[x] :: y
  }

  lemma ColoredEnters(deps: NameDeps, color: map<string, Color>, path: seq<string>, node: string)
    requires Colored(deps, color, path) && node !in color
    requires path == [] || Edge(deps, path[|path| - 1], node)
    ensures Colored(deps, color[node := Gray], path + [node])
  {
    hide OnCycle, Edge;
    var after := color[node := Gray];
    assert forall x :: IsBlack(after, x) <==> IsBlack(color, x);
    assert forall x :: x in path + [node] <==> x in path || x == node;
  }

  lemma ColoredLeaves(deps: NameDeps, color: map<string, Color>, path: seq<string>, node: string)
    requires Colored(deps, color, path + [node]) && node !in path
    requires forall y :: Edge(deps, node, y) ==> IsBlack(color, y)
    ensures Colored(deps, color[node := Black], path)
  {
    hide Edge;
    var after, black := color[node := Black], BlackNames(color);
    assert node in path + [node];
    assert forall x :: x in path + [node] <==> x in path || x == node;
    if OnCycle(deps, node) {
      var y :| Edge(deps, node, y) && Reaches(deps, y, node);
      ReachedIsIn(deps, black, y, node);
    }
    if path != [] {
      assert forall i :: 0 <= i < |path| ==> (path + [node])[i] == path[i];
    }
  }

  lemma BackEdgeIsCycle(deps: NameDeps, path: seq<string>, parent: string)
    requires path != [] && Walk(deps, path) && parent in path && Edge(deps, path[|path| - 1], parent)
    ensures !Acyclic(deps)
  {
    var i :| 0 <= i < |path| && path[i] == parent;
    assert WalkFromTo(deps, path[i..], parent, path[|path| - 1]);
  }

  class CycleSearch {
    const deps: NameDeps
    var color: map<string, Color>

    constructor (deps: NameDeps)
      ensures this.deps == deps && color == map[]
    {
      this.deps, color := deps, map[];
    }

    /** The recursive closure of hasCycleByName. */
    method Visit(node: string, ghost path: seq<string>) returns (cycle: bool)
      requires Colored(deps, color, path) && node !in color && node in AllNames(deps)
      requires path == [] || Edge(deps, path[|path| - 1], node)
      modifies this
      ensures cycle ==> !Acyclic(deps)
      ensures !cycle ==> Colored(deps, color, path) && IsBlack(color, node)
      ensures !cycle ==> forall x :: x in old(color) ==> x in color && color[x] == old(color)[x]
      decreases AllNames(deps) - color.Keys
    {
      hide Colored, Edge, Acyclic;
      ghost var before := color;
      ColoredEnters(deps, color, path, node);
      color := color[node := Gray];
      ghost var longer := path + [node];
      var parents := Successors(deps, node);
      for i := 0 to |parents|
        invariant Colored(deps, color, longer)
        invariant forall x :: x in before ==> x in color && color[x] == before[x]
        invariant node in color && color[node] == Gray
        invariant forall k :: 0 <= k < i ==> IsBlack(color, parents[k])
      {
        var parent := parents[i];
        ParentEdge(node, parent);
        if parent !in color {
          cycle := Visit(parent, longer);
          if cycle {
            return true;
          }
        } else if color[parent] == Gray {
          GrayIsOnPath(longer, parent);
          BackEdgeIsCycle(deps, longer, parent);
          return true;
        }
      }
      AllBlack(node, parents);
      NotOnPath(before, path, node);
      ColoredLeaves(deps, color, path, node);
      color := color[node := Black];
      return false;
    }

    lemma ParentEdge(node: string, parent: string)
      requires parent in Successors(deps, node)
      ensures Edge(deps, node, parent) && parent in AllNames(deps)
    {
    }

    lemma GrayIsOnPath(path: seq<string>, x: string)
      requires Colored(deps, color, path) && path != [] && x in color && color[x] == Gray
      ensures x in path && Walk(deps, path)
    {
    }

    lemma AllBlack(node: string, parents: seq<string>)
      requires parents == Successors(deps, node) && forall k :: 0 <= k < |parents| ==> IsBlack(color, parents[k])
      ensures forall y :: Edge(deps, node, y) ==> IsBlack(color, y)
    {
    }

    lemma NotOnPath(before: map<string, Color>, path: seq<string>, node: string)
      requires node !in before && Colored(deps, before, path)
      ensures node !in path
    {
    }
  }

  lemma NothingColored(deps: NameDeps)
    ensures Colored(deps, map[], [])
  {
  }

  lemma NothingGray(deps: NameDeps, color: map<string, Color>, x: string)
    requires Colored(deps, color, []) && x in color
    ensures IsBlack(color, x)
  {
  }

  /** Once every name with parents is black there is no cycle. */
  lemma AllBlackIsAcyclic(deps: NameDeps, color: map<string, Color>)
    requires Colored(deps, color, []) && forall x :: x in deps ==> IsBlack(color, x)
    ensures Acyclic(deps)
  {
    forall a, b | Edge(deps, a, b)
      ensures !Reaches(deps, b, a)
    {
      assert IsBlack(color, a);
      assert !OnCycle(deps, a);
    }
  }

  /** hasCycleByName; the names are visited in any order. */
  method HasCycleByName(deps: NameDeps) returns (r: bool)
    ensures r <==> !Acyclic(deps)
  {
    hide Colored, Acyclic;
    var search := new CycleSearch(deps);
    var nodes := deps.Keys;
    NothingColored(deps);
    while nodes != {}
      invariant search.deps == deps && fresh(search) && nodes <= deps.Keys
      invariant Colored(deps, search.color, [])
      invariant forall x :: x in deps && x !in nodes ==> IsBlack(search.color, x)
      decreases nodes
    {
      var node :| node in nodes;
      nodes := nodes - {node};
      if node !in search.color {
        r := search.Visit(node, []);
        if r {
          return true;
        }
      } else {
        NothingGray(deps, search.color, node);
      }
    }
    AllBlackIsAcyclic(deps, search.color);
    return false;
  }

  // ----- steps -----

  datatype StepDep = StepDep(parentName: string, condition: TriggerCondition)

  datatype WorkflowError = EmptyWorkflow | MultipleFinalSteps | DuplicateStepName | UnknownStep | CyclicSteps

  class WorkflowStep {
    const name: string
    // What the spec of the step parses to; None if it does not parse.
    const schedule: Option<Schedule>
    const isFinal: bool
    var deps: seq<StepDep>

    constructor (name: string, schedule: Option<Schedule>, isFinal: bool, deps: seq<StepDep>)
      ensures this.name == name && this.schedule == schedule && this.isFinal == isFinal && this.deps == deps
    {
      this.name, this.schedule, this.isFinal, this.deps := name, schedule, isFinal, deps;
    }
  }

  function StepNames(steps: seq<WorkflowStep>): (names: seq<string>)
    ensures |names| == |steps| && forall i :: 0 <= i < |steps| ==> names[i] == steps[i].name
  {
    seq(|steps|, i requires 0 <= i < |steps| => steps[i].name)
  }

  predicate SomeStepNamed(steps: seq<WorkflowStep>, name: string) {
    exists s :: s in steps && s.name == name
  }

  /** Every After names a step. */
  ghost predicate KnownParents(steps: seq<WorkflowStep>)
    reads (set s | s in steps)`deps
  {
    forall s :: s in steps ==> forall d :: d in s.deps ==> SomeStepNamed(steps, d.parentName)
  }

  function ParentNames(deps: seq<StepDep>): (ps: seq<string>)
    ensures |ps| == |deps| && forall i :: 0 <= i < |deps| ==> ps[i] == deps[i].parentName
  {
    seq(|deps|, i requires 0 <= i < |deps| => deps[i].parentName)
  }

  /** The adjacency lists of the steps, if no two share a name. */
  ghost function NameGraph(steps: seq<WorkflowStep>): (g: NameDeps)
    requires Distinct(StepNames(steps))
    reads (set s | s in steps)`deps
    ensures forall s :: s in steps ==> s.name in g && g[s.name] == ParentNames(s.deps)
    ensures forall n :: n in g ==> SomeStepNamed(steps, n)
  {
    SameNameSameStep(steps);
    map s | s in steps :: s.name := ParentNames(s.deps)
  }

  lemma SameNameSameStep(steps: seq<WorkflowStep>)
    requires Distinct(StepNames(steps))
    ensures forall s, t :: s in steps && t in steps && s.name == t.name ==> s == t
  {
    forall s, t | s in steps && t in steps && s.name == t.name
      ensures s == t
    {
      var i :| 0 <= i < |steps| && steps[i] == s;
      var j :| 0 <= j < |steps| && steps[j] == t;
      assert StepNames(steps)[i] == StepNames(steps)[j];
    }
  }

  predicate SeveralFinal(steps: seq<WorkflowStep>) {
    exists i, j :: 0 <= i < j < |steps| && steps[i].isFinal && steps[j].isFinal
  }

  /** The edges that a final step gets: one from every other step. */
  function FinalDeps(steps: seq<WorkflowStep>, final: WorkflowStep): seq<StepDep> {
    if steps == [] then []
    else
      var rest := FinalDeps(steps[..|steps| - 1], final);
      if steps[|steps| - 1] == final then rest else rest + [StepDep(steps[|steps| - 1].name, OnComplete)]
  }

  /** validateFinalStep */
  method ValidateFinalStep(steps: seq<WorkflowStep>) returns (err: Option<WorkflowError>)
    modifies (set s | s in steps && s.isFinal)`deps
    ensures err == if SeveralFinal(steps) then Some(MultipleFinalSteps) else None
    ensures forall s :: s in steps ==>
              s.deps == if s.isFinal && !SeveralFinal(steps) then old(s.deps) + FinalDeps(steps, s) else old(s.deps)
  {
    var final: WorkflowStep? := null;
    for i := 0 to |steps|
      invariant final == null ==> forall k :: 0 <= k < i ==> !steps[k].isFinal
      invariant final != null ==> exists k :: 0 <= k < i && steps[k] == final && final.isFinal
      invariant final != null ==> forall k :: 0 <= k < i && steps[k].isFinal ==> steps[k] == final
      invariant forall j, k :: 0 <= j < k < i ==> !(steps[j].isFinal && steps[k].isFinal)
    {
      if steps[i].isFinal {
        if final != null {
          return Some(MultipleFinalSteps);
        }
        final := steps[i];
      }
    }
    if final != null {
      for i := 0 to |steps|
        invariant final.deps == old(final.deps) + FinalDeps(steps[..i], final)
        invariant forall s :: s in steps && s != final ==> s.deps == old(s.deps)
      {
        assert steps[..i + 1][..i] == steps[..i];
        if steps[i] != final {
          final.deps := final.deps + [StepDep(steps[i].name, OnComplete)];
        }
      }
      assert steps[..|steps|] == steps;
    }
    return None;
  }

  /** buildStepIndex */
  method BuildStepIndex(steps: seq<WorkflowStep>) returns (err: Option<WorkflowError>, index: set<string>)
    ensures err == if Distinct(StepNames(steps)) then None else Some(DuplicateStepName)
    ensures err.None? ==> forall n :: n in index <==> SomeStepNamed(steps, n)
  {
    index := {};
    for i := 0 to |steps|
      invariant forall n :: n in index <==> exists k :: 0 <= k < i && steps[k].name == n
      invariant forall j, k :: 0 <= j < k < i ==> steps[j].name != steps[k].name
    {
      if steps[i].name in index {
        ghost var k :| 0 <= k < i && steps[k].name == steps[i].name;
        assert StepNames(steps)[k] == StepNames(steps)[i];
        return Some(DuplicateStepName), index;
      }
      index := index + {steps[i].name};
    }
    forall n
      ensures n in index <==> SomeStepNamed(steps, n)
    {
      if SomeStepNamed(steps, n) {
        var s :| s in steps && s.name == n;
      }
    }
    return None, index;
  }

  lemma ParentNamesMore(deps: seq<StepDep>, j: nat)
    requires j < |deps|
    ensures ParentNames(deps[..j + 1]) == ParentNames(deps[..j]) + [deps[j].parentName]
    ensures ParentNames(deps[..0]) == []
  {
  }

  /** The loop of validateDeps that builds the adjacency lists. */
  method BuildNameDeps(steps: seq<WorkflowStep>) returns (g: NameDeps)
    requires Distinct(StepNames(steps))
    ensures g == NameGraph(steps)
  {
    hide Distinct, NameGraph, ParentNames;
    g := map[];
    for i := 0 to |steps|
      invariant forall k :: 0 <= k < i ==> steps[k].name in g && g[steps[k].name] == ParentNames(steps[k].deps)
      invariant forall n :: n in g ==> exists k :: 0 <= k < i && steps[k].name == n
    {
      var s := steps[i];
      EarlierNamesDiffer(steps, i);
      ghost var before := g;
      for j := 0 to |s.deps|
        invariant j == 0 ==> g == before
        invariant j > 0 ==> g == before[s.name := ParentNames(s.deps[..j])]
      {
        ParentNamesMore(s.deps, j);
        g := g[s.name := Successors(g, s.name) + [s.deps[j].parentName]];
      }
      assert s.deps[..|s.deps|] == s.deps;
      if s.name !in g {
        g := g[s.name := []];
      }
    }
    assert g == NameGraph(steps);
  }

  lemma EarlierNamesDiffer(steps: seq<WorkflowStep>, i: nat)
    requires Distinct(StepNames(steps)) && i < |steps|
    ensures forall k :: 0 <= k < i ==> steps[k].name != steps[i].name
  {
    assert forall k :: 0 <= k < i ==> StepNames(steps)[k] != StepNames(steps)[i];
  }

  /** The loop of validateDeps that looks the parents up. */
  method CheckParents(steps: seq<WorkflowStep>, index: set<string>) returns (known: bool)
    requires forall n :: n in index <==> SomeStepNamed(steps, n)
    ensures known <==> KnownParents(steps)
  {
    hide SomeStepNamed;
    for i := 0 to |steps|
      invariant forall k :: 0 <= k < i ==> forall d :: d in steps[k].deps ==> SomeStepNamed(steps, d.parentName)
    {
      var s := steps[i];
      for j := 0 to |s.deps|
        invariant forall k :: 0 <= k < j ==> SomeStepNamed(steps, s.deps[k].parentName)
      {
        if s.deps[j].parentName !in index {
          assert s.deps[j] in s.deps;
          return false;
        }
      }
    }
    return true;
  }

  /** Why validate rejects steps, whose final step has its edges, if it does. */
  ghost function ValidationError(steps: seq<WorkflowStep>): Option<WorkflowError>
    reads (set s | s in steps)`deps
  {
    if steps == [] then Some(EmptyWorkflow)
    else if SeveralFinal(steps) then Some(MultipleFinalSteps)
    else if !Distinct(StepNames(steps)) then Some(DuplicateStepName)
    else if !KnownParents(steps) then Some(UnknownStep)
    else if !Acyclic(NameGraph(steps)) then Some(CyclicSteps)
    else None
  }

  /** validate */
  method Validate(steps: seq<WorkflowStep>) returns (err: Option<WorkflowError>)
    modifies (set s | s in steps && s.isFinal)`deps
    ensures forall s :: s in steps ==>
              s.deps == if s.isFinal && !SeveralFinal(steps) then old(s.deps) + FinalDeps(steps, s) else old(s.deps)
    ensures err == ValidationError(steps)
  {
    hide SeveralFinal, Distinct, Acyclic, FinalDeps, SomeStepNamed;
    if |steps| == 0 {
      return Some(EmptyWorkflow);
    }
    err := ValidateFinalStep(steps);
    if err.Some? {
      return;
    }
    var index: set<string>;
    err, index := BuildStepIndex(steps);
    if err.Some? {
      return;
    }
    var known := CheckParents(steps, index);
    if !known {
      return Some(UnknownStep);
    }
    var g := BuildNameDeps(steps);
    var cyclic := HasCycleByName(g);
    return if cyclic then Some(CyclicSteps) else None;
  }
}
