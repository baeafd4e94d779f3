/** The whole check of a graph before anything runs. */
module GraphCheck {
  import opened Wrappers
  import opened Types
  import opened Graphs
  import opened TopoSort
  import opened Exclusivity
  import opened Composition
  import opened Paths
  import TypeCodec

  datatype CheckedNode = CheckedNode(
    name: string,
    signature: Signature,
    input: Option<InputExpr>,
    repeatUntil: Option<string>,
    maxIterations: Option<nat>,
    over: Option<string>,
    itemOutput: Option<Ty>,
    onFail: seq<Rung>)

  datatype CheckedGraph = CheckedGraph(nodes: seq<CheckedNode>, exclusiveTo: Marks)

  datatype CheckOutcome = Accepted(checked: CheckedGraph) | Refused(error: DagError) | Panics

  /** What each node's block declares, or why it could not be read. */
  type Declared = map<string, Result<Signature, string>>

  /** What a fan-out node presents downstream, whatever its block returns per item. */
  function FanoutCollectionTy(): Ty {
    Record(map["results_path" := Text, "failures_path" := Text, "succeeded" := Json, "failed" := Json])
  }

  /** A node's signature as the rest of the graph sees it. */
  function Presented(node: Node, block: Signature): Signature {
    if node.over.Some? then block.(output := FanoutCollectionTy()) else block
  }

  predicate Readable(graph: NodeGraph, declared: Declared) {
    forall i :: 0 <= i < |graph.nodes| ==> graph.nodes[i].name in declared && declared[graph.nodes[i].name].Ok?
  }

  /** The signatures by name; under a repeated name the last entry stays. */
  function SignaturesOf(nodes: seq<Entry>, declared: Declared): Signatures
    requires forall i :: 0 <= i < |nodes| ==> nodes[i].name in declared && declared[nodes[i].name].Ok?
  {
    if nodes == [] then map[]
    else
      var e := nodes[|nodes| - 1];
      SignaturesOf(nodes[..|nodes| - 1], declared)[e.name := Presented(e.node, declared[e.name].value)]
  }

  predicate SeamFits(input: Option<InputExpr>, signature: Signature, signatures: Signatures) {
    input.None? ||
    (EvaluateTy(input.value, signatures).Ok? && EvaluateTy(input.value, signatures).value.AssignableTo(signature.input))
  }

  function CheckedEntry(e: Entry, block: Signature): CheckedNode {
    CheckedNode(e.name, Presented(e.node, block), e.node.input, e.node.repeatUntil, e.node.maxIterations, e.node.over,
                if e.node.over.Some? then Some(block.output) else None, e.node.onFail)
  }

  /** A checked node is its entry with what its block declares: nothing lost, nothing mixed up. */
  predicate Carries(node: CheckedNode, e: Entry, block: Signature) {
    && node.name == e.name && node.input == e.node.input && node.onFail == e.node.onFail
    && node.repeatUntil == e.node.repeatUntil && node.maxIterations == e.node.maxIterations && node.over == e.node.over
    && node.signature.input == block.input
    && (e.node.over.None? ==> node.signature.output == block.output && node.itemOutput.None?)
    && (e.node.over.Some? ==>
          node.itemOutput == Some(block.output) &&
          node.signature.output == Record(map["results_path" := Text, "failures_path" := Text, "succeeded" := Json, "failed" := Json]))
  }

  function NamesOf(nodes: seq<CheckedNode>): seq<string> {
    seq(|nodes|, i requires 0 <= i < |nodes| => nodes[i].name)
  }

  /** What acceptance stands for. */
  ghost predicate AcceptedAs(graph: NodeGraph, branches: Branches, declared: Declared, checked: CheckedGraph) {
    && graph.nodes != []
    && Readable(graph, declared)
    && SortsAs(graph, Ordered(NamesOf(checked.nodes)))
    && BranchExclusivity(graph, branches) == Ok(checked.exclusiveTo)
    && (forall i :: 0 <= i < |checked.nodes| ==> FromEntry(graph, declared, checked.nodes[i]))
    && AllSeamsFit(graph, declared)
  }

  ghost predicate FromEntry(graph: NodeGraph, declared: Declared, node: CheckedNode) {
    exists e :: e in graph.nodes && e.name in declared && declared[e.name].Ok? && node == CheckedEntry(e, declared[e.name].value)
  }

  lemma {:induction false} SignatureOfEntry(nodes: seq<Entry>, declared: Declared, i: nat)
    requires forall i :: 0 <= i < |nodes| ==> nodes[i].name in declared && declared[nodes[i].name].Ok?
    requires DistinctNames(nodes) && i < |nodes|
    ensures nodes[i].name in SignaturesOf(nodes, declared)
    ensures SignaturesOf(nodes, declared)[nodes[i].name] == Presented(nodes[i].node, declared[nodes[i].name].value)
  {
    if i < |nodes| - 1 {
      SignatureOfEntry(nodes[..|nodes| - 1], declared, i);
      assert nodes[i].name != nodes[|nodes| - 1].name;
    }
  }

  lemma {:induction false} SignaturesKeys(nodes: seq<Entry>, declared: Declared)
    requires forall i :: 0 <= i < |nodes| ==> nodes[i].name in declared && declared[nodes[i].name].Ok?
    ensures SignaturesOf(nodes, declared).Keys == NameSet(nodes)
  {
    if nodes != [] { SignaturesKeys(nodes[..|nodes| - 1], declared); }
  }

  /** Step one: every node's signature, stopping at the first that cannot be read. */
  method ReadSignatures(graph: NodeGraph, declared: Declared)
    returns (r: Result<Signatures, DagError>, itemOutputs: map<string, Ty>)
    requires forall i :: 0 <= i < |graph.nodes| ==> graph.nodes[i].name in declared
    ensures r.Ok? <==> Readable(graph, declared)
    ensures r.Ok? ==> r.value == SignaturesOf(graph.nodes, declared)
    ensures r.Err? ==> FirstUnreadable(graph, declared, r.error)
    ensures r.Ok? && DistinctNames(graph.nodes) ==> ItemOutputsOf(graph, declared, itemOutputs)
  {
    hide FirstUnreadable, DistinctNames, ItemOutputsBelow, ItemOutputsOf;
    NoItemOutputs(graph, declared);
    var signatures: Signatures := map[];
    itemOutputs := map[];
    for i := 0 to |graph.nodes|
      invariant forall k :: 0 <= k < i ==> declared[graph.nodes[k].name].Ok?
      invariant signatures == SignaturesOf(graph.nodes[..i], declared)
      invariant DistinctNames(graph.nodes) ==> ItemOutputsBelow(graph, declared, itemOutputs, i)
    {
      var e := graph.nodes[i];
      assert graph.nodes[..i + 1][..i] == graph.nodes[..i];
      match declared[e.name] {
        case Err(message) =>
          r := Err(Pipeline(e.name, message));
          UnreadableHere(graph, declared, i);
          return;
        case Ok(block) =>
          var signature := block;
          ghost var before := itemOutputs;
          if e.node.over.Some? {
            itemOutputs := itemOutputs[e.name := block.output];
            signature := signature.(output := FanoutCollectionTy());
          }
          signatures := signatures[e.name := signature];
          if DistinctNames(graph.nodes) { ItemOutputsNext(graph, declared, before, i); }
      }
    }
    assert graph.nodes[..|graph.nodes|] == graph.nodes;
    ItemOutputsAll(graph, declared, itemOutputs);
    r := Ok(signatures);
  }

  lemma UnreadableHere(graph: NodeGraph, declared: Declared, i: nat)
    requires forall k :: 0 <= k < |graph.nodes| ==> graph.nodes[k].name in declared
    requires i < |graph.nodes| && declared[graph.nodes[i].name].Err? && forall k :: 0 <= k < i ==> declared[graph.nodes[k].name].Ok?
    ensures var name := graph.nodes[i].name; FirstUnreadable(graph, declared, Pipeline(name, declared[name].error))
  {
    var name := graph.nodes[i].name;
    assert UnreadableAt(graph, declared, i, Pipeline(name, declared[name].error));
  }

  /** Of the first `i` entries, the fan-out nodes and no others have an item type, which is their block's. */
  ghost predicate ItemOutputsBelow(graph: NodeGraph, declared: Declared, itemOutputs: map<string, Ty>, i: nat)
    requires i <= |graph.nodes| && forall k :: 0 <= k < i ==> graph.nodes[k].name in declared && declared[graph.nodes[k].name].Ok?
  {
    (forall n :: n in itemOutputs ==> exists k :: 0 <= k < i && graph.nodes[k].name == n) &&
    forall k :: 0 <= k < i ==>
      (graph.nodes[k].name in itemOutputs <==> graph.nodes[k].node.over.Some?) &&
      (graph.nodes[k].name in itemOutputs ==> itemOutputs[graph.nodes[k].name] == declared[graph.nodes[k].name].value.output)
  }

  lemma NoItemOutputs(graph: NodeGraph, declared: Declared)
    ensures ItemOutputsBelow(graph, declared, map[], 0)
  {}

  lemma ItemOutputsNext(graph: NodeGraph, declared: Declared, before: map<string, Ty>, i: nat)
    requires i < |graph.nodes| && forall k :: 0 <= k <= i ==> graph.nodes[k].name in declared && declared[graph.nodes[k].name].Ok?
    requires DistinctNames(graph.nodes) && ItemOutputsBelow(graph, declared, before, i)
    ensures var e := graph.nodes[i];
            var after := if e.node.over.Some? then before[e.name := declared[e.name].value.output] else before;
            ItemOutputsBelow(graph, declared, after, i + 1)
  {}

  lemma ItemOutputsAll(graph: NodeGraph, declared: Declared, itemOutputs: map<string, Ty>)
    requires Readable(graph, declared)
    ensures ItemOutputsBelow(graph, declared, itemOutputs, |graph.nodes|) ==> ItemOutputsOf(graph, declared, itemOutputs)
  {}

  /** The first node whose block cannot be read, and why. */
  ghost predicate FirstUnreadable(graph: NodeGraph, declared: Declared, error: DagError)
    requires forall i :: 0 <= i < |graph.nodes| ==> graph.nodes[i].name in declared
  {
    error.Pipeline? && exists i :: 0 <= i < |graph.nodes| && UnreadableAt(graph, declared, i, error)
  }

  predicate UnreadableAt(graph: NodeGraph, declared: Declared, i: nat, error: DagError)
    requires forall i :: 0 <= i < |graph.nodes| ==> graph.nodes[i].name in declared
    requires i < |graph.nodes| && error.Pipeline?
  {
    graph.nodes[i].name == error.node && declared[error.node] == Err(error.message) &&
    forall k :: 0 <= k < i ==> declared[graph.nodes[k].name].Ok?
  }

  ghost predicate ItemOutputsOf(graph: NodeGraph, declared: Declared, itemOutputs: map<string, Ty>)
    requires Readable(graph, declared)
  {
    forall i :: 0 <= i < |graph.nodes| ==>
      (graph.nodes[i].name in itemOutputs <==> graph.nodes[i].node.over.Some?) &&
      (graph.nodes[i].name in itemOutputs ==> itemOutputs[graph.nodes[i].name] == declared[graph.nodes[i].name].value.output)
  }

  ghost predicate EntrySeamFits(graph: NodeGraph, declared: Declared, i: nat)
    requires Readable(graph, declared) && i < |graph.nodes|
  {
    SeamFits(graph.nodes[i].node.input, Presented(graph.nodes[i].node, declared[graph.nodes[i].name].value),
             SignaturesOf(graph.nodes, declared))
  }

  /** Every seam of the graph fits, whatever the order. */
  ghost predicate AllSeamsFit(graph: NodeGraph, declared: Declared)
    requires Readable(graph, declared)
  {
    forall i :: 0 <= i < |graph.nodes| ==> EntrySeamFits(graph, declared, i)
  }

  /**
   Entry `i` is refused with this error: what its input composes to is not accepted by what its
   block declares, or it does not compose at all.
   */
  ghost predicate Misfits(graph: NodeGraph, declared: Declared, i: nat, error: DagError)
    requires Readable(graph, declared) && i < |graph.nodes|
  {
    var e, signatures := graph.nodes[i], SignaturesOf(graph.nodes, declared);
    e.node.input.Some? &&
    match error
    case SeamMismatch(producer, consumer, expected) =>
      consumer == e.name && expected == TypeCodec.Describe(declared[e.name].value.input) &&
      producer == (if e.node.input.value.FromNode? then e.node.input.value.node else "<composite>") &&
      exists produced: Ty :: TypedAs(e.node.input.value, signatures, produced) && !produced.AssignableTo(declared[e.name].value.input)
    case UnknownReference(node, referenced) => node == "?" && exists path :: Untyped(e.node.input.value, signatures, path, referenced)
    case _ => false
  }

  lemma MisfitsWhenMistyped(graph: NodeGraph, declared: Declared, i: nat, produced: Ty, error: DagError)
    requires Readable(graph, declared) && i < |graph.nodes| && graph.nodes[i].node.input.Some?
    requires EvaluateTy(graph.nodes[i].node.input.value, SignaturesOf(graph.nodes, declared)) == Ok(produced)
    requires !produced.AssignableTo(declared[graph.nodes[i].name].value.input)
    requires var expr := graph.nodes[i].node.input.value;
             error == SeamMismatch(if expr.FromNode? then expr.node else "<composite>", graph.nodes[i].name,
                                   TypeCodec.Describe(declared[graph.nodes[i].name].value.input))
    ensures Misfits(graph, declared, i, error)
  {
    ComposedTyExactly(graph.nodes[i].node.input.value, SignaturesOf(graph.nodes, declared), produced);
  }

  lemma MisfitsWhenUntyped(graph: NodeGraph, declared: Declared, i: nat, error: DagError)
    requires Readable(graph, declared) && i < |graph.nodes| && graph.nodes[i].node.input.Some?
    requires EvaluateTy(graph.nodes[i].node.input.value, SignaturesOf(graph.nodes, declared)) == Err(error)
    ensures Misfits(graph, declared, i, error)
  {
    var path, referenced := NoTyMeans(graph.nodes[i].node.input.value, SignaturesOf(graph.nodes, declared));
  }

  /** Step four for one node: evaluate its input expression and compare the seam. */
  method CheckNode(graph: NodeGraph, declared: Declared, signatures: Signatures, itemOutputs: map<string, Ty>, name: string)
    returns (r: Result<CheckedNode, DagError>)
    requires Readable(graph, declared) && DistinctNames(graph.nodes) && name in graph.Names()
    requires signatures == SignaturesOf(graph.nodes, declared) && ItemOutputsOf(graph, declared, itemOutputs)
    ensures forall i :: 0 <= i < |graph.nodes| && graph.nodes[i].name == name ==>
              (r.Ok? <==> EntrySeamFits(graph, declared, i)) &&
              (r.Ok? ==> r.value == CheckedEntry(graph.nodes[i], declared[name].value)) &&
              (r.Ok? ==> Carries(r.value, graph.nodes[i], declared[name].value)) &&
              (r.Err? ==> Misfits(graph, declared, i, r.error))
  {
    hide Misfits, TypedAs, EvaluateTy;
    LookupExactly(graph.nodes, name);
    var node := graph.Get(name).value;
    ghost var at := LookupFrom(graph.nodes, name);
    assert forall i :: 0 <= i < |graph.nodes| && graph.nodes[i].name == name ==> i == at;
    SignatureOfEntry(graph.nodes, declared, at);
    var signature := signatures[name];
    if node.input.Some? {
      var produced := EvaluateTy(node.input.value, signatures);
      if produced.Err? {
        r := Err(produced.error);
        MisfitsWhenUntyped(graph, declared, at, r.error);
        return;
      }
      if !produced.value.AssignableTo(signature.input) {
        var producer := if node.input.value.FromNode? then node.input.value.node else "<composite>";
        r := Err(SeamMismatch(producer, name, TypeCodec.Describe(signature.input)));
        MisfitsWhenMistyped(graph, declared, at, produced.value, r.error);
        return;
      }
    }
    var itemOutput := if name in itemOutputs then Some(itemOutputs[name]) else None;
    r := Ok(CheckedNode(name, signature, node.input, node.repeatUntil, node.maxIterations, node.over, itemOutput, node.onFail));
  }

  /** Step four: the nodes in run order, stopping at the first seam that does not fit. */
  method CheckSeams(graph: NodeGraph, declared: Declared, signatures: Signatures, itemOutputs: map<string, Ty>, order: seq<string>)
    returns (r: Result<seq<CheckedNode>, DagError>)
    requires Readable(graph, declared) && DistinctNames(graph.nodes)
    requires forall n :: n in order <==> n in graph.Names()
    requires signatures == SignaturesOf(graph.nodes, declared) && ItemOutputsOf(graph, declared, itemOutputs)
    ensures r.Ok? <==> AllSeamsFit(graph, declared)
    ensures r.Ok? ==> NamesOf(r.value) == order && forall i :: 0 <= i < |r.value| ==> FromEntry(graph, declared, r.value[i])
    ensures r.Err? ==> FirstMisfit(graph, declared, order, r.error)
  {
    hide Misfits, EntrySeamFits, SignaturesOf, ItemOutputsOf, Carries, DistinctNames;
    var nodes: seq<CheckedNode> := [];
    ghost var seen: seq<nat> := [];
    for i := 0 to |order|
      invariant |nodes| == i && |seen| == i
      invariant forall k :: 0 <= k < i ==> seen[k] < |graph.nodes| && graph.nodes[seen[k]].name == order[k]
      invariant forall k :: 0 <= k < i ==> EntrySeamFits(graph, declared, seen[k])
      invariant forall k :: 0 <= k < i ==> nodes[k].name == order[k] && FromEntry(graph, declared, nodes[k])
    {
      assert order[i] in order;
      ghost var at := NameSetFrom(graph.nodes, order[i]);
      var checked := CheckNode(graph, declared, signatures, itemOutputs, order[i]);
      if checked.Err? {
        r := Err(checked.error);
        assert MisfitsFirst(graph, declared, order, i, at, seen, r.error);
        return;
      }
      assert graph.nodes[at] in graph.nodes;
      nodes := nodes + [checked.value];
      seen := seen + [at];
    }
    assert NamesOf(nodes) == order;
    SeamsOfAll(graph, declared, order, seen);
    r := Ok(nodes);
  }

  /** Entry `at`, the `k`-th to run, is refused; `seen` are the entries before it, all of which fit. */
  ghost predicate MisfitsFirst(graph: NodeGraph, declared: Declared, order: seq<string>, k: nat, at: nat, seen: seq<nat>, error: DagError)
    requires Readable(graph, declared)
  {
    k < |order| && at < |graph.nodes| && graph.nodes[at].name == order[k] && Misfits(graph, declared, at, error) && |seen| == k &&
    forall j :: 0 <= j < k ==> seen[j] < |graph.nodes| && graph.nodes[seen[j]].name == order[j] && EntrySeamFits(graph, declared, seen[j])
  }

  /** The error is that of the first node, in run order, whose seam does not fit. */
  ghost predicate FirstMisfit(graph: NodeGraph, declared: Declared, order: seq<string>, error: DagError)
    requires Readable(graph, declared)
  {
    exists k, at, seen :: MisfitsFirst(graph, declared, order, k, at, seen, error)
  }

  /** Checking the nodes in run order checks every entry. */
  lemma SeamsOfAll(graph: NodeGraph, declared: Declared, order: seq<string>, seen: seq<nat>)
    requires Readable(graph, declared) && DistinctNames(graph.nodes) && |seen| == |order|
    requires forall n :: n in graph.Names() ==> n in order
    requires forall k :: 0 <= k < |order| ==> seen[k] < |graph.nodes| && graph.nodes[seen[k]].name == order[k]
    requires forall k :: 0 <= k < |order| ==> EntrySeamFits(graph, declared, seen[k])
    ensures AllSeamsFit(graph, declared)
  {
    forall i | 0 <= i < |graph.nodes| ensures EntrySeamFits(graph, declared, i) {
      NameSetHas(graph.nodes, i);
      assert graph.nodes[i].name in order;
      var k :| 0 <= k < |order| && order[k] == graph.nodes[i].name;
      assert seen[k] == i;
    }
  }

  /** What a graph must satisfy to be accepted. */
  ghost predicate Acceptable(graph: NodeGraph, branches: Branches, declared: Declared) {
    && graph.nodes != []
    && Readable(graph, declared)
    && AllKnown(graph) && Acyclic(DepsOf(graph.nodes)) && DistinctNames(graph.nodes)
    && BranchExclusivity(graph, branches).Ok?
    && AllSeamsFit(graph, declared)
  }

  ghost predicate CanSort(graph: NodeGraph) {
    exists order :: SortsAs(graph, Ordered(order))
  }

  /** An undeclared target of the decision, or a node that needs the two labels reported. */
  ghost predicate BranchesBroken(graph: NodeGraph, branches: Branches, error: DagError) {
    match error
    case UnknownReference(decision, target) => UndeclaredTarget(graph, branches, decision, target)
    case ConflictingBranchFanIn(n, d, a, b) => Torn(graph, branches, n, d, a, b)
    case _ => false
  }

  /** What a refusal says, by how far the check got. */
  ghost predicate RefusedFor(graph: NodeGraph, branches: Branches, declared: Declared, error: DagError)
    requires forall i :: 0 <= i < |graph.nodes| ==> graph.nodes[i].name in declared
  {
    if graph.nodes == [] then error == Empty
    else if !Readable(graph, declared) then FirstUnreadable(graph, declared, error)
    else if !CanSort(graph) then SortsAs(graph, Rejected(error))
    else if BranchExclusivity(graph, branches).Err? then
      BranchExclusivity(graph, branches).error == error && BranchesBroken(graph, branches, error)
    else exists order :: SortsAs(graph, Ordered(order)) && FirstMisfit(graph, declared, order, error)
  }

  lemma NoNodesIsRefused(graph: NodeGraph, branches: Branches, declared: Declared)
    requires graph.nodes == []
    ensures RefusedFor(graph, branches, declared, Empty)
  {}

  /** One outcome of the sort excludes another. */
  lemma RejectedCannotSort(graph: NodeGraph, error: DagError)
    requires SortsAs(graph, Rejected(error))
    ensures !CanSort(graph)
  {}

  lemma UnreadableIsRefused(graph: NodeGraph, branches: Branches, declared: Declared, error: DagError)
    requires forall i :: 0 <= i < |graph.nodes| ==> graph.nodes[i].name in declared
    requires graph.nodes != [] && !Readable(graph, declared) && FirstUnreadable(graph, declared, error)
    ensures RefusedFor(graph, branches, declared, error) && error != Empty
  {}

  lemma UnsortedIsRefused(graph: NodeGraph, branches: Branches, declared: Declared, error: DagError)
    requires graph.nodes != [] && Readable(graph, declared) && SortsAs(graph, Rejected(error))
    ensures RefusedFor(graph, branches, declared, error) && error != Empty
  {
    RejectedCannotSort(graph, error);
  }

  lemma BrokenBranchesAreRefused(graph: NodeGraph, branches: Branches, declared: Declared, order: seq<string>, error: DagError)
    requires graph.nodes != [] && Readable(graph, declared) && SortsAs(graph, Ordered(order))
    requires BranchExclusivity(graph, branches) == Err(error)
    ensures RefusedFor(graph, branches, declared, error) && error != Empty
  {
    hide SortsAs, BranchExclusivity, Readable;
    ErrorsAreReal(graph, branches);
  }

  lemma MisfitIsRefused(graph: NodeGraph, branches: Branches, declared: Declared, order: seq<string>, error: DagError)
    requires graph.nodes != [] && Readable(graph, declared) && SortsAs(graph, Ordered(order))
    requires BranchExclusivity(graph, branches).Ok? && FirstMisfit(graph, declared, order, error)
    ensures RefusedFor(graph, branches, declared, error) && error != Empty
  {
    hide SortsAs, BranchExclusivity, Readable;
  }

  method CheckGraph(graph: NodeGraph, branches: Branches, declared: Declared) returns (r: CheckOutcome)
    // The caller reads one declaration per node before checking.
    requires forall i :: 0 <= i < |graph.nodes| ==> graph.nodes[i].name in declared
    ensures r.Accepted? ==> AcceptedAs(graph, branches, declared, r.checked)
    ensures r.Accepted? <==> Acceptable(graph, branches, declared)
    ensures r.Panics? <==>
              graph.nodes != [] && Readable(graph, declared) &&
              AllKnown(graph) && Acyclic(DepsOf(graph.nodes)) && !DistinctNames(graph.nodes)
    ensures r.Refused? ==> RefusedFor(graph, branches, declared, r.error)
    ensures r.Refused? && r.error == Empty <==> graph.nodes == []
  {
    hide RefusedFor, FirstMisfit, FirstUnreadable, CanSort, ReachesCycle, FirstUnknown, BranchExclusivity;
    if graph.nodes == [] {
      NoNodesIsRefused(graph, branches, declared);
      return Refused(Empty);
    }
    var read, itemOutputs := ReadSignatures(graph, declared);
    if read.Err? {
      UnreadableIsRefused(graph, branches, declared, read.error);
      return Refused(read.error);
    }
    var sorted := TopologicalOrder(graph);
    match sorted {
      case Panicked => return Panics;
      case Rejected(error) =>
        UnsortedIsRefused(graph, branches, declared, error);
        return Refused(error);
      case Ordered(order) =>
        var marks, _ := ComputeBranchExclusivity(graph, branches);
        if marks.Err? {
          BrokenBranchesAreRefused(graph, branches, declared, order, marks.error);
          return Refused(marks.error);
        }
        KahnOrderIsTopological(DepsOf(graph.nodes), order);
        var nodes := CheckSeams(graph, declared, read.value, itemOutputs, order);
        if nodes.Err? {
          MisfitIsRefused(graph, branches, declared, order, nodes.error);
          return Refused(nodes.error);
        }
        return Accepted(CheckedGraph(nodes.value, marks.value));
    }
  }
}
