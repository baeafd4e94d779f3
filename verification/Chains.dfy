/** Simple chains: the graphs a bundle can hold, and the linear check that agrees with the graph check on them. */
module Chains {
  import opened Wrappers
  import opened Types
  import opened Graphs
  import opened TopoSort
  import opened Exclusivity
  import opened Composition
  import opened GraphCheck

  // ---------------------------------------------------------------- recognising a chain

  /** Entry `i` neither loops nor fans out, and needs exactly the entry before it. */
  predicate Linked(nodes: seq<Entry>, i: nat)
    requires i < |nodes|
  {
    var node := nodes[i].node;
    && node.repeatUntil.None? && node.over.None?
    && node.input == if i == 0 then None else Some(FromNode(nodes[i - 1].name))
  }

  ghost predicate Strand(nodes: seq<Entry>) {
    forall i :: 0 <= i < |nodes| ==> Linked(nodes, i)
  }

  predicate RefersTo(e: Entry, name: string) {
    e.node.input == Some(FromNode(name))
  }

  /** How many entries read the named node's output directly. */
  function Referrers(nodes: seq<Entry>, name: string): nat {
    if nodes == [] then 0
    else Referrers(nodes[..|nodes| - 1], name) + (if RefersTo(nodes[|nodes| - 1], name) then 1 else 0)
  }

  ghost predicate TallyHolds(nodes: seq<Entry>) {
    forall name :: Referrers(nodes, name) <= 1
  }

  ghost predicate SimpleChain(graph: NodeGraph, branches: Branches) {
    branches.decisions == [] && Strand(graph.nodes) && TallyHolds(graph.nodes)
  }

  function CountOf(counts: map<string, nat>, name: string): nat {
    if name in counts then counts[name] else 0
  }

  /** The explicit fan-out tally: the referenced names, counted. */
  method Tally(nodes: seq<Entry>) returns (r: bool)
    ensures r <==> TallyHolds(nodes)
  {
    var counts: map<string, nat> := map[];
    for i := 0 to |nodes|
      invariant forall name :: CountOf(counts, name) == Referrers(nodes[..i], name)
    {
      assert nodes[..i + 1][..i] == nodes[..i];
      var input := nodes[i].node.input;
      if input.Some? && input.value.FromNode? {
        counts := counts[input.value.node := CountOf(counts, input.value.node) + 1];
      }
    }
    assert nodes[..|nodes|] == nodes;
    r := forall name :: name in counts ==> counts[name] <= 1;
    if r {
      forall name ensures Referrers(nodes, name) <= 1 { assert CountOf(counts, name) <= 1; }
    } else {
      var name :| name in counts && counts[name] > 1;
      assert CountOf(counts, name) > 1;
    }
  }

  method IsSimpleChain(graph: NodeGraph, branches: Branches) returns (r: bool)
    ensures r <==> SimpleChain(graph, branches)
  {
    if branches.decisions != [] {
      return false;
    }
    var nodes := graph.nodes;
    for i := 0 to |nodes|
      invariant forall k :: 0 <= k < i ==> Linked(nodes, k)
    {
      var node := nodes[i].node;
      if node.repeatUntil.Some? || node.over.Some? {
        assert !Linked(nodes, i);
        return false;
      }
      if i == 0 {
        if node.input.Some? {
          assert !Linked(nodes, i);
          return false;
        }
      } else if node.input.Some? && node.input.value.FromNode? {
        if node.input.value.node != nodes[i - 1].name {
          assert !Linked(nodes, i);
          return false;
        }
      } else {
        assert !Linked(nodes, i);
        return false;
      }
    }
    r := Tally(nodes);
  }

  // ---------------------------------------------------------------- when the tally can fail

  function Occurrences(nodes: seq<Entry>, name: string): nat {
    if nodes == [] then 0
    else Occurrences(nodes[..|nodes| - 1], name) + (if nodes[|nodes| - 1].name == name then 1 else 0)
  }

  lemma {:induction false} OccursWhere(nodes: seq<Entry>, name: string)
    ensures Occurrences(nodes, name) == 0 <==> forall i :: 0 <= i < |nodes| ==> nodes[i].name != name
  {
    if nodes != [] {
      OccursWhere(nodes[..|nodes| - 1], name);
      assert nodes[|nodes| - 1].name == name ==> Occurrences(nodes, name) > 0;
    }
  }

  lemma {:induction false} DistinctOccurOnce(nodes: seq<Entry>, name: string)
    requires DistinctNames(nodes)
    ensures Occurrences(nodes, name) <= 1
  {
    if nodes != [] {
      DistinctOccurOnce(nodes[..|nodes| - 1], name);
      OccursWhere(nodes[..|nodes| - 1], name);
    }
  }

  lemma {:induction false} RepeatedOccursTwice(nodes: seq<Entry>, i: nat, j: nat)
    requires i < j < |nodes| && nodes[i].name == nodes[j].name
    ensures Occurrences(nodes, nodes[i].name) >= 2
  {
    var front := nodes[..|nodes| - 1];
    if j < |front| {
      RepeatedOccursTwice(front, i, j);
    } else {
      OccursWhere(front, nodes[i].name);
      assert front[i].name == nodes[i].name;
    }
  }

  /** Along a strand, a name is read once for every entry but the last that bears it. */
  lemma {:induction false} ReadOncePerEntry(nodes: seq<Entry>, k: nat, name: string)
    requires Strand(nodes) && 1 <= k <= |nodes|
    ensures Referrers(nodes[..k], name) == Occurrences(nodes[..k - 1], name)
  {
    assert Linked(nodes, k - 1);
    assert nodes[..k][..k - 1] == nodes[..k - 1];
    if k == 1 {
      assert nodes[..0] == [];
    } else {
      ReadOncePerEntry(nodes, k - 1, name);
      assert nodes[..k - 1][..k - 2] == nodes[..k - 2];
    }
  }

  /** The tally fails on a strand exactly when two entries before the last share a name. */
  lemma TallyExactly(nodes: seq<Entry>)
    requires Strand(nodes) && nodes != []
    ensures TallyHolds(nodes) <==> DistinctNames(nodes[..|nodes| - 1])
  {
    var front := nodes[..|nodes| - 1];
    assert nodes[..|nodes|] == nodes;
    forall name ensures Referrers(nodes, name) == Occurrences(front, name) {
      ReadOncePerEntry(nodes, |nodes|, name);
    }
    if DistinctNames(front) {
      forall name ensures Referrers(nodes, name) <= 1 { DistinctOccurOnce(front, name); }
    } else {
      var i, j :| 0 <= i < j < |front| && front[i].name == front[j].name;
      RepeatedOccursTwice(front, i, j);
    }
  }

  /** So with distinct names the tally is redundant. */
  lemma DistinctStrandIsSimple(graph: NodeGraph, branches: Branches)
    requires branches.decisions == [] && Strand(graph.nodes) && DistinctNames(graph.nodes)
    ensures SimpleChain(graph, branches)
  {
    if graph.nodes == [] {
      forall name ensures Referrers(graph.nodes, name) <= 1 {}
    } else {
      TallyExactly(graph.nodes);
    }
  }

  /** And without them it is not: three entries named a, a, b pass every other test. */
  lemma TallyCanFail()
    ensures var bare := Node(None, None, None, None, []);
            var nodes := [Entry("a", bare), Entry("a", bare.(input := Some(FromNode("a")))), Entry("b", bare.(input := Some(FromNode("a"))))];
            Strand(nodes) && !SimpleChain(NodeGraph(nodes), Branches([]))
  {
    var bare := Node(None, None, None, None, []);
    var nodes := [Entry("a", bare), Entry("a", bare.(input := Some(FromNode("a")))), Entry("b", bare.(input := Some(FromNode("a"))))];
    assert Strand(nodes);
    TallyExactly(nodes);
    assert nodes[..2][0].name == nodes[..2][1].name;
  }

  // ---------------------------------------------------------------- the order of a chain

  function NamesIn(nodes: seq<Entry>): seq<string> {
    seq(|nodes|, i requires 0 <= i < |nodes| => nodes[i].name)
  }

  function Positions(nodes: seq<Entry>): map<string, nat> {
    if nodes == [] then map[] else Positions(nodes[..|nodes| - 1])[nodes[|nodes| - 1].name := |nodes| - 1]
  }

  lemma {:induction false} PositionsAre(nodes: seq<Entry>)
    requires DistinctNames(nodes)
    ensures Positions(nodes).Keys == NameSet(nodes)
    ensures forall i :: 0 <= i < |nodes| ==> nodes[i].name in Positions(nodes) && Positions(nodes)[nodes[i].name] == i
  {
    if nodes != [] {
      var front := nodes[..|nodes| - 1];
      PositionsAre(front);
      forall i | 0 <= i < |nodes| ensures nodes[i].name in Positions(nodes) && Positions(nodes)[nodes[i].name] == i {
        if i < |front| { assert front[i].name != nodes[|nodes| - 1].name; }
      }
    }
  }

  lemma ChainDeps(nodes: seq<Entry>, i: nat)
    requires Strand(nodes) && DistinctNames(nodes) && i < |nodes|
    ensures nodes[i].name in DepsOf(nodes)
    ensures DepsOf(nodes)[nodes[i].name] == if i == 0 then {} else {nodes[i - 1].name}
  {
    assert Linked(nodes, i) && nodes[i] in nodes;
    DepsOfEntry(nodes, nodes[i]);
  }

  lemma PositionsAreDepths(nodes: seq<Entry>)
    requires Strand(nodes) && DistinctNames(nodes)
    ensures IsDepth(DepsOf(nodes), Positions(nodes))
  {
    var deps, depth := DepsOf(nodes), Positions(nodes);
    PositionsAre(nodes);
    forall n | n in depth
      ensures forall d :: d in deps[n] ==> d in depth && depth[d] < depth[n]
      ensures depth[n] > 0 ==> HasDepAt(deps, depth, n, depth[n] - 1)
    {
      var i := NameSetFrom(nodes, n);
      ChainDeps(nodes, i);
      if i > 0 { assert nodes[i - 1].name in deps[n] && depth[nodes[i - 1].name] == i - 1; }
    }
  }

  lemma ChainKnown(graph: NodeGraph)
    requires Strand(graph.nodes)
    ensures AllKnown(graph)
  {
    forall e | e in graph.nodes ensures KnownEntry(graph, e) {
      var i :| 0 <= i < |graph.nodes| && graph.nodes[i] == e;
      assert Linked(graph.nodes, i);
      if i > 0 { NameSetHas(graph.nodes, i - 1); }
    }
  }

  lemma PositionsOrder(nodes: seq<Entry>)
    requires DistinctNames(nodes)
    ensures OrderedBy(Positions(nodes), NamesIn(nodes))
  {
    var depth, names := Positions(nodes), NamesIn(nodes);
    PositionsAre(nodes);
    forall n ensures n in names <==> n in depth {
      if n in depth {
        var i := NameSetFrom(nodes, n);
        assert names[i] == n;
      }
    }
  }

  lemma ChainIsKahn(nodes: seq<Entry>)
    requires Strand(nodes) && DistinctNames(nodes)
    ensures Acyclic(DepsOf(nodes)) && IsKahnOrder(DepsOf(nodes), NamesIn(nodes))
  {
    var deps, depth := DepsOf(nodes), Positions(nodes);
    PositionsAre(nodes);
    PositionsAreDepths(nodes);
    PositionsOrder(nodes);
    forall n | n in deps ensures !ReachesCycle(deps, n) { DepthMeansNoCycle(deps, depth, n); }
  }

  /** A chain with distinct names is sorted, and the order is the one it is declared in. */
  lemma ChainOrder(graph: NodeGraph, order: seq<string>)
    requires Strand(graph.nodes) && DistinctNames(graph.nodes)
    ensures SortsAs(graph, Ordered(order)) <==> order == NamesIn(graph.nodes)
  {
    ChainIsKahn(graph.nodes);
    ChainKnown(graph);
    if SortsAs(graph, Ordered(order)) {
      KahnOrderUnique(DepsOf(graph.nodes), order, NamesIn(graph.nodes));
    }
  }

  // ---------------------------------------------------------------- the linear check

  datatype StageInput = StageInput(name: string, declared: Result<Signature, string>)
  datatype Stage = Stage(name: string, signature: Signature)

  datatype PipelineError =
    | EmptyPipeline
    | Uninspectable(name: string, message: string)
    | Mismatch(producer: string, consumer: string)

  /** The input can be read, and takes what the one before it produces. */
  predicate StageFits(inputs: seq<StageInput>, i: nat)
    requires i < |inputs|
  {
    inputs[i].declared.Ok? &&
    (i > 0 && inputs[i - 1].declared.Ok? ==> inputs[i - 1].declared.value.output.AssignableTo(inputs[i].declared.value.input))
  }

  ghost predicate PipelineFits(inputs: seq<StageInput>) {
    inputs != [] && forall i :: 0 <= i < |inputs| ==> StageFits(inputs, i)
  }

  /** The error names the first stage that cannot be read, with why, or that does not take what the one before produces. */
  ghost predicate FailsFirst(inputs: seq<StageInput>, error: PipelineError) {
    match error
    case EmptyPipeline => inputs == []
    case Uninspectable(name, message) => exists i: nat :: FailsAt(inputs, i) && inputs[i] == StageInput(name, Err(message))
    case Mismatch(producer, consumer) =>
      exists i: nat :: FailsAt(inputs, i) && i > 0 && inputs[i].declared.Ok? && inputs[i - 1].name == producer && inputs[i].name == consumer
  }

  /** Stage `i` is the first that does not fit. */
  ghost predicate FailsAt(inputs: seq<StageInput>, i: nat) {
    i < |inputs| && !StageFits(inputs, i) && forall k :: 0 <= k < i ==> StageFits(inputs, k)
  }

  /** Stops at the first stage that cannot be read or does not take what the last one produces. */
  method CheckPipeline(inputs: seq<StageInput>) returns (r: Result<seq<Stage>, PipelineError>)
    ensures r.Ok? <==> PipelineFits(inputs)
    ensures r.Ok? ==> |r.value| == |inputs|
    ensures r.Ok? ==> forall i :: 0 <= i < |inputs| ==> inputs[i] == StageInput(r.value[i].name, Ok(r.value[i].signature))
    ensures r.Err? ==> FailsFirst(inputs, r.error)
  {
    if inputs == [] {
      return Err(EmptyPipeline);
    }
    var stages: seq<Stage> := [];
    for i := 0 to |inputs|
      invariant |stages| == i && forall k :: 0 <= k < i ==> StageFits(inputs, k)
      invariant forall k :: 0 <= k < i ==> inputs[k] == StageInput(stages[k].name, Ok(stages[k].signature))
    {
      match inputs[i].declared {
        case Err(message) =>
          assert FailsAt(inputs, i);
          return Err(Uninspectable(inputs[i].name, message));
        case Ok(signature) =>
          if stages != [] && !stages[|stages| - 1].signature.output.AssignableTo(signature.input) {
            assert FailsAt(inputs, i);
            return Err(Mismatch(stages[|stages| - 1].name, inputs[i].name));
          }
          stages := stages + [Stage(inputs[i].name, signature)];
      }
    }
    return Ok(stages);
  }

  /** The stages of a graph, in declaration order. */
  function StagesOf(graph: NodeGraph, declared: Declared): seq<StageInput>
    requires forall i :: 0 <= i < |graph.nodes| ==> graph.nodes[i].name in declared
  {
    seq(|graph.nodes|, i requires 0 <= i < |graph.nodes| => StageInput(graph.nodes[i].name, declared[graph.nodes[i].name]))
  }

  lemma ChainSeam(graph: NodeGraph, declared: Declared, i: nat)
    requires Strand(graph.nodes) && DistinctNames(graph.nodes) && Readable(graph, declared) && i < |graph.nodes|
    ensures EntrySeamFits(graph, declared, i) <==> StageFits(StagesOf(graph, declared), i)
  {
    var nodes := graph.nodes;
    assert Linked(nodes, i);
    if i > 0 {
      assert Linked(nodes, i - 1);
      SignatureOfEntry(nodes, declared, i - 1);
    }
  }

  lemma ChainSeams(graph: NodeGraph, declared: Declared)
    requires Strand(graph.nodes) && DistinctNames(graph.nodes) && graph.nodes != []
    requires forall i :: 0 <= i < |graph.nodes| ==> graph.nodes[i].name in declared
    ensures PipelineFits(StagesOf(graph, declared)) <==> Readable(graph, declared) && AllSeamsFit(graph, declared)
  {
    var stages := StagesOf(graph, declared);
    if PipelineFits(stages) {
      forall i | 0 <= i < |graph.nodes| ensures declared[graph.nodes[i].name].Ok? { assert StageFits(stages, i); }
    }
    if Readable(graph, declared) {
      forall i | 0 <= i < |graph.nodes| ensures EntrySeamFits(graph, declared, i) <==> StageFits(stages, i) {
        ChainSeam(graph, declared, i);
      }
    }
  }

  /** On chains the two checkers accept the same graphs. */
  lemma CheckersAgree(graph: NodeGraph, branches: Branches, declared: Declared)
    requires SimpleChain(graph, branches) && DistinctNames(graph.nodes)
    requires forall i :: 0 <= i < |graph.nodes| ==> graph.nodes[i].name in declared
    ensures PipelineFits(StagesOf(graph, declared)) <==> Acceptable(graph, branches, declared)
  {
    if graph.nodes != [] {
      ChainIsKahn(graph.nodes);
      ChainKnown(graph);
      NoBranchesNoMarks(graph, branches);
      ChainSeams(graph, declared);
    }
  }

  lemma {:induction false} NothingInherited(nodes: seq<Entry>, i: nat)
    requires i <= |nodes|
    ensures PassFrom(nodes, i, map[]) == Ok(map[])
    decreases |nodes| - i
  {
    if i < |nodes| {
      if nodes[i].node.input.Some? { NothingFound(nodes[i].node.input.value.Refs(), 0); }
      NothingInherited(nodes, i + 1);
    }
  }

  lemma {:induction false} NothingFound(refs: seq<string>, j: nat)
    requires j <= |refs|
    ensures Scan(refs, j, map[], None) == Ok(None)
    decreases |refs| - j
  {
    if j < |refs| { NothingFound(refs, j + 1); }
  }

  lemma NoBranchesNoMarks(graph: NodeGraph, branches: Branches)
    requires branches.decisions == []
    ensures BranchExclusivity(graph, branches) == Ok(map[])
  {
    NothingInherited(graph.nodes, 0);
  }

  /** And an accepted chain runs in declaration order with the signatures the linear check saw. */
  lemma CheckedAsStages(graph: NodeGraph, branches: Branches, declared: Declared, checked: CheckedGraph, i: nat)
    requires SimpleChain(graph, branches) && AcceptedAs(graph, branches, declared, checked) && i < |graph.nodes|
    ensures |checked.nodes| == |graph.nodes| && checked.nodes[i].name == graph.nodes[i].name
    ensures StagesOf(graph, declared)[i] == StageInput(checked.nodes[i].name, Ok(checked.nodes[i].signature))
  {
    ChainOrder(graph, NamesOf(checked.nodes));
    assert NamesOf(checked.nodes) == NamesIn(graph.nodes);
    assert |NamesOf(checked.nodes)| == |NamesIn(graph.nodes)|;
    assert NamesOf(checked.nodes)[i] == NamesIn(graph.nodes)[i];
    assert FromEntry(graph, declared, checked.nodes[i]);
    var e :| e in graph.nodes && e.name in declared && declared[e.name].Ok? && checked.nodes[i] == CheckedEntry(e, declared[e.name].value);
    var k :| 0 <= k < |graph.nodes| && graph.nodes[k] == e;
    assert k == i;
    assert Linked(graph.nodes, i);
  }
}
