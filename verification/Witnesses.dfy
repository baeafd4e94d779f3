/** Accepted graphs whose branches do not do what their declarations suggest. */
module Witnesses {
  import opened Wrappers
  import opened Strings
  import opened Types
  import opened Graphs
  import opened TopoSort
  import opened Exclusivity
  import opened Composition
  import opened GraphCheck
  import opened Ladder
  import opened Ledger
  import opened RunSpec
  import opened Interruption
  import opened CrashResume
  import opened Soundness
  import opened BranchSkips

  // ---------------------------------------------------------------- small accepted graphs

  const BARE := Node(None, None, None, None, [])
  const ANY := Signature(Ty.Json, Ty.Json)

  function DeclaredAny(nodes: seq<Entry>): Declared {
    map i | 0 <= i < |nodes| :: nodes[i].name := Ok(ANY)
  }

  function CheckedAny(nodes: seq<Entry>): seq<CheckedNode> {
    seq(|nodes|, i requires 0 <= i < |nodes| => CheckedEntry(nodes[i], ANY))
  }

  /** The job is that of the graph as accepted, every block declaring `json -> json`. */
  ghost predicate IsAccepted(graph: NodeGraph, branches: Branches, job: Job) {
    AcceptedAs(graph, branches, DeclaredAny(graph.nodes), CheckedGraph(job.nodes, job.exclusiveTo))
  }

  /** Entries that feed on nothing, or on earlier ones, listed in run order, are accepted as they stand. */
  lemma AcceptedAsListed(graph: NodeGraph, branches: Branches, depth: map<string, nat>)
    requires graph.nodes != [] && DistinctNames(graph.nodes) && AllKnown(graph)
    requires forall i :: 0 <= i < |graph.nodes| ==> graph.nodes[i].node.over.None?
    requires forall i :: 0 <= i < |graph.nodes| && graph.nodes[i].node.input.Some? ==> graph.nodes[i].node.input.value.FromNode?
    requires BranchExclusivity(graph, branches).Ok?
    requires IsDepth(DepsOf(graph.nodes), depth) && depth.Keys == graph.Names()
    requires forall i, j :: 0 <= i < j < |graph.nodes| ==>
               graph.nodes[i].name in depth && graph.nodes[j].name in depth && Before(depth, graph.nodes[i].name, graph.nodes[j].name)
    ensures AcceptedAs(graph, branches, DeclaredAny(graph.nodes), CheckedGraph(CheckedAny(graph.nodes), BranchExclusivity(graph, branches).value))
  {
    hide SortsAs, IsDepth, OrderedBy, EntrySeamFits, FromEntry, BranchExclusivity, AllKnown;
    var nodes, declared, checked := graph.nodes, DeclaredAny(graph.nodes), CheckedAny(graph.nodes);
    var order := NamesOf(checked);
    ListedInOrder(nodes, order, depth);
    SortsByDepth(graph, depth, order);
    forall i | 0 <= i < |checked| ensures FromEntry(graph, declared, checked[i]) { EntryOfAny(graph, i); }
    forall i | 0 <= i < |nodes| ensures EntrySeamFits(graph, declared, i) { SeamOfAny(graph, i); }
  }

  lemma ListedInOrder(nodes: seq<Entry>, order: seq<string>, depth: map<string, nat>)
    requires depth.Keys == NameSet(nodes) && |order| == |nodes| && forall i :: 0 <= i < |nodes| ==> order[i] == nodes[i].name
    requires forall i, j :: 0 <= i < j < |nodes| ==>
               nodes[i].name in depth && nodes[j].name in depth && Before(depth, nodes[i].name, nodes[j].name)
    ensures OrderedBy(depth, order)
  {
    hide Before, NameSet;
    forall n | n in depth ensures n in order {
      var i := NameSetFrom(nodes, n);
      assert order[i] == n;
    }
    forall n | n in order ensures n in depth {
      var i :| 0 <= i < |order| && order[i] == n;
      NameSetHas(nodes, i);
    }
    forall i, j | 0 <= i < j < |order| ensures Before(depth, order[i], order[j]) {
      assert Before(depth, nodes[i].name, nodes[j].name);
    }
  }

  lemma EntryOfAny(graph: NodeGraph, i: nat)
    requires i < |graph.nodes|
    ensures FromEntry(graph, DeclaredAny(graph.nodes), CheckedAny(graph.nodes)[i])
  {
    var e := graph.nodes[i];
    assert e in graph.nodes && CheckedAny(graph.nodes)[i] == CheckedEntry(e, DeclaredAny(graph.nodes)[e.name].value);
  }

  lemma SortsByDepth(graph: NodeGraph, depth: map<string, nat>, order: seq<string>)
    requires DistinctNames(graph.nodes) && AllKnown(graph)
    requires IsDepth(DepsOf(graph.nodes), depth) && depth.Keys == graph.Names() && OrderedBy(depth, order)
    ensures SortsAs(graph, Ordered(order))
  {
    hide AllKnown, IsDepth, OrderedBy;
    var deps := DepsOf(graph.nodes);
    forall n | n in deps ensures !ReachesCycle(deps, n) { DepthMeansNoCycle(deps, depth, n); }
  }

  lemma SeamOfAny(graph: NodeGraph, i: nat)
    requires AllKnown(graph) && i < |graph.nodes| && graph.nodes[i].node.over.None?
    requires graph.nodes[i].node.input.Some? ==> graph.nodes[i].node.input.value.FromNode?
    ensures Readable(graph, DeclaredAny(graph.nodes)) && EntrySeamFits(graph, DeclaredAny(graph.nodes), i)
  {
    var e := graph.nodes[i];
    SignaturesKeys(graph.nodes, DeclaredAny(graph.nodes));
    assert e in graph.nodes && KnownEntry(graph, e);
    if e.node.input.Some? { assert e.node.input.value.node in e.node.input.value.Refs(); }
  }

  /** A block that answers at once. */
  lemma AnswersAtOnce(world: World, node: CheckedNode, input: Value, answer: Value)
    requires node.repeatUntil.None? && node.onFail == [] && node.signature.output == Ty.Json
    requires world.run(Site(node.name, None), 0, 0, Default, input) == Produced(answer)
    requires world.objection(Site(node.name, None), 0, input, answer) == None
    ensures Climb(world, NodeWork(node, input)) == Done(answer)
  {}

  // ---------------------------------------------------------------- runs in which every node executes

  /** The labels that the deciding nodes answer. */
  type Routes = map<string, string>

  function Answer(routes: Routes, node: string): Value {
    if node in routes then Object(map["route" := Str(routes[node])]) else Null
  }

  function EnvOf(routes: Routes): Env {
    Env(World((site: Site, attempt, iteration, backend, input) => Produced(Answer(routes, site.node)),
              (site: Site, attempt, input, value) => None, {}),
        path => Unreadable("no such file"), "job")
  }

  /** No node loops, fans out or retries, and any output is of its type. */
  ghost predicate Simple(job: Job) {
    forall i :: 0 <= i < |job.nodes| ==>
      var node := job.nodes[i];
      node.over.None? && node.repeatUntil.None? && node.onFail == [] && node.signature == ANY
  }

  lemma CheckedAnyIsSimple(nodes: seq<Entry>, marks: Marks, input: Value)
    requires forall i :: 0 <= i < |nodes| ==> var node := nodes[i].node; node.over.None? && node.repeatUntil.None? && node.onFail == []
    ensures Simple(Job(CheckedAny(nodes), marks, input))
  {}

  /** What the run has in memory, and in its ledger, when it comes to node `i`, all before having run. */
  function Memory(job: Job, routes: Routes, i: nat): Volatile
    requires i <= |job.nodes|
  {
    if i == 0 then NOTHING_YET
    else WithOutput(Memory(job, routes, i - 1), job.nodes[i - 1].name, Answer(routes, job.nodes[i - 1].name))
  }

  function RowFor(job: Job, routes: Routes, i: nat): Write
    requires i < |job.nodes|
  {
    Put(Key(job.nodes[i].name, None), CompletedRow(Answer(routes, job.nodes[i].name), None))
  }

  function LedgerSoFar(job: Job, routes: Routes, i: nat): Store
    requires i <= |job.nodes|
  {
    if i == 0 then EMPTY_STORE else Apply(LedgerSoFar(job, routes, i - 1), RowFor(job, routes, i - 1))
  }

  /** No branch taken so far excludes node `i`, and its answer is accepted. */
  ghost predicate Runs(job: Job, routes: Routes, i: nat)
    requires i < |job.nodes|
  {
    var name := job.nodes[i].name;
    !BranchedAway(job.exclusiveTo, name, Memory(job, routes, i).routes) && RouteAccepted(job.exclusiveTo, name, Answer(routes, name))
  }

  lemma {:induction false} SoFar(job: Job, routes: Routes, i: nat)
    requires i <= |job.nodes|
    ensures LedgerSoFar(job, routes, i).manifests == map[] && Memory(job, routes, i).skipped == {}
    ensures forall key :: key in LedgerSoFar(job, routes, i).rows ==> exists k :: 0 <= k < i && key.node == job.nodes[k].name
  {
    if i > 0 { SoFar(job, routes, i - 1); }
  }

  lemma {:induction false} RoutesSoFar(job: Job, routes: Routes, i: nat, node: string)
    requires i <= |job.nodes|
    ensures var memory := Memory(job, routes, i);
            (node in memory.routes <==> node in routes && exists k :: 0 <= k < i && job.nodes[k].name == node) &&
            (node in memory.routes ==> memory.routes[node] == routes[node]) &&
            (node in memory.outputs <==> exists k :: 0 <= k < i && job.nodes[k].name == node)
  {
    if i > 0 { RoutesSoFar(job, routes, i - 1, node); }
  }

  lemma RunsOnce(job: Job, routes: Routes, i: nat)
    requires Simple(job) && Distinct(NamesOf(job.nodes)) && i < |job.nodes| && Runs(job, routes, i)
    ensures NodeStep(EnvOf(routes), job, job.nodes[i], Memory(job, routes, i), LedgerSoFar(job, routes, i))
         == Advance([RowFor(job, routes, i)], WithOutput(Memory(job, routes, i), job.nodes[i].name, Answer(routes, job.nodes[i].name)))
  {
    hide Climb, BranchedAway, RouteAccepted, ReferencesAny;
    var node, memory, ledger := job.nodes[i], Memory(job, routes, i), LedgerSoFar(job, routes, i);
    SoFar(job, routes, i);
    assert Key(node.name, None) !in ledger.rows by {
      forall k | 0 <= k < i ensures job.nodes[k].name != node.name { assert NamesOf(job.nodes)[k] != NamesOf(job.nodes)[i]; }
    }
    if node.input.Some? { ReferencesAnyMeans(node.input.value, memory.skipped); }
    AnswersAtOnce(EnvOf(routes).world, node, InputOf(job, node, memory.outputs), Answer(routes, node.name));
  }

  lemma {:induction false} RunsFrom(job: Job, routes: Routes, i: nat)
    requires Simple(job) && Distinct(NamesOf(job.nodes)) && i <= |job.nodes|
    requires forall k :: 0 <= k < |job.nodes| ==> Runs(job, routes, k)
    ensures var n := |job.nodes|;
            var t := Traverse(StepOf(EnvOf(routes), job), n, i, Memory(job, routes, i), LedgerSoFar(job, routes, i));
            t.vol == Memory(job, routes, n) && t.stop.None?
    decreases |job.nodes| - i
  {
    hide NodeStep, Runs, Simple, RowFor;
    if i < |job.nodes| {
      RunsOnce(job, routes, i);
      ApplyOne(LedgerSoFar(job, routes, i), RowFor(job, routes, i));
      RunsFrom(job, routes, i + 1);
    }
  }

  /** Such a run comes to its end with every node's answer in memory. */
  lemma RunsToTheEnd(job: Job, routes: Routes)
    requires Simple(job) && Distinct(NamesOf(job.nodes)) && job.nodes != []
    requires forall k :: 0 <= k < |job.nodes| ==> Runs(job, routes, k)
    ensures var run := Start(EnvOf(routes), job, EMPTY_STORE);
            run.envelope.Finished? && run.vol == Memory(job, routes, |job.nodes|)
  {
    hide Traverse, StepOf, Runs;
    RunsFrom(job, routes, 0);
    RoutesSoFar(job, routes, |job.nodes|, job.nodes[|job.nodes| - 1].name);
  }

  // ---------------------------------------------------------------- a declared answer refused

  function SharedGraph(): NodeGraph {
    NodeGraph([Entry("d", BARE), Entry("x", BARE.(input := Some(FromNode("d"))))])
  }

  function SharedBranches(): Branches {
    Branches([Decision("d", [Label("p", "x"), Label("q", "x")])])
  }

  function SharedJob(): Job {
    Job(CheckedAny(SharedGraph().nodes), map["x" := Exclusive("d", "q")], Null)
  }

  lemma SharedAccepted()
    ensures IsAccepted(SharedGraph(), SharedBranches(), SharedJob())
  {
    hide AcceptedAs, BranchExclusivity, Declares, LabelsOf, NameSet, DepsOf, SortedSeq;
    var graph := SharedGraph();
    var depth: map<string, nat> := map["d" := 0, "x" := 1];
    SharedTargetLosesALabel();
    var deps := DepsOf(graph.nodes);
    assert DistinctNames(graph.nodes);
    assert graph.nodes[0] in graph.nodes && graph.nodes[1] in graph.nodes;
    NameSetHas(graph.nodes, 0);
    NameSetHas(graph.nodes, 1);
    forall n | n in graph.Names() ensures n in depth { var i := NameSetFrom(graph.nodes, n); }
    DepsOfEntry(graph.nodes, graph.nodes[0]);
    DepsOfEntry(graph.nodes, graph.nodes[1]);
    assert "d" in graph.nodes[1].node.input.value.Refs();
    assert deps["x"] == {"d"} && deps["d"] == {};
    assert HasDepAt(deps, depth, "x", 0);
    AcceptedAsListed(graph, SharedBranches(), depth);
  }

  const ANSWERS_P: Routes := map["d" := "p"]

  /** The graph is accepted, the decision answers a label it was declared with, and the job fails. */
  lemma DeclaredAnswerRefused()
    ensures Start(EnvOf(ANSWERS_P), SharedJob(), EMPTY_STORE) == Run([], NOTHING_YET, Broken("the route matches no declared label"))
    ensures Declares(SharedBranches(), "d", "p")
    ensures IsAccepted(SharedGraph(), SharedBranches(), SharedJob())
  {
    SharedAccepted();
    SharedTargetLosesALabel();
    RefusedAtOnce();
  }

  lemma RefusedAtOnce()
    ensures Start(EnvOf(ANSWERS_P), SharedJob(), EMPTY_STORE) == Run([], NOTHING_YET, Broken("the route matches no declared label"))
  {
    var env, job := EnvOf(ANSWERS_P), SharedJob();
    var node, answer := job.nodes[0], Answer(ANSWERS_P, "d");
    hide Climb;
    AnswersAtOnce(env.world, node, Null, answer);
    assert answer.GetText("route") == Some("p");
    assert job.exclusiveTo["x"].decision == "d" && "q" in LabelsOf(job.exclusiveTo, "d");
    assert !RouteAccepted(job.exclusiveTo, "d", answer);
    assert NodeStep(env, job, node, NOTHING_YET, EMPTY_STORE) == Halt([], Broken("the route matches no declared label"));
    assert StepOf(env, job)(0, NOTHING_YET, EMPTY_STORE) == NodeStep(env, job, node, NOTHING_YET, EMPTY_STORE);
  }

  // ---------------------------------------------------------------- a target that runs before its decision

  function LateGraph(): NodeGraph {
    NodeGraph([Entry("a", BARE), Entry("b", BARE), Entry("d", BARE)])
  }

  function LateBranches(): Branches {
    Branches([Decision("d", [Label("p", "a"), Label("q", "b")])])
  }

  const P := Exclusive("d", "p")
  const Q := Exclusive("d", "q")

  function LateJob(): Job {
    Job(CheckedAny(LateGraph().nodes), map["a" := P, "b" := Q], Null)
  }

  lemma LateMarks()
    ensures BranchExclusivity(LateGraph(), LateBranches()) == Ok(LateJob().exclusiveTo)
  {
    var graph, labels, marks := LateGraph(), LateBranches().decisions[0].labels, LateJob().exclusiveTo;
    LookupFinds(graph.nodes, 0);
    LookupFinds(graph.nodes, 1);
    assert map["a" := P]["b" := Q] == marks;
    assert SeedLabels(graph, "d", labels, 2, marks) == Ok(marks);
    assert SeedLabels(graph, "d", labels, 1, map["a" := P]) == Ok(marks);
    assert SeedLabels(graph, "d", labels, 0, map[]) == Ok(marks);
    assert SeedDecisions(graph, LateBranches().decisions, 1, marks) == Ok(marks);
    assert SeedDecisions(graph, LateBranches().decisions, 0, map[]) == Ok(marks);
    assert PassFrom(graph.nodes, 3, marks) == Ok(marks);
    assert PassFrom(graph.nodes, 2, marks) == Ok(marks);
    assert PassFrom(graph.nodes, 1, marks) == Ok(marks);
    assert PassFrom(graph.nodes, 0, marks) == Ok(marks);
  }

  lemma LateAccepted()
    ensures IsAccepted(LateGraph(), LateBranches(), LateJob())
  {
    hide AcceptedAs, BranchExclusivity, NameSet, DepsOf;
    var graph := LateGraph();
    var depth: map<string, nat> := map["a" := 0, "b" := 0, "d" := 0];
    LateMarks();
    var deps := DepsOf(graph.nodes);
    NameSetHas(graph.nodes, 0);
    NameSetHas(graph.nodes, 1);
    NameSetHas(graph.nodes, 2);
    forall n | n in graph.Names() ensures n in depth { var i := NameSetFrom(graph.nodes, n); }
    forall n, d | n in deps ensures d !in deps[n] { DepsFromEntry(graph.nodes, n, d); }
    assert Less("a", "b") && Less("b", "d") && Less("a", "d");
    AcceptedAsListed(graph, LateBranches(), depth);
  }

  const ANSWERS_Q: Routes := map["d" := "q"]

  lemma LateRuns(i: nat)
    requires i < 3
    ensures Runs(LateJob(), ANSWERS_Q, i)
  {
    var job := LateJob();
    RoutesSoFar(job, ANSWERS_Q, i, "d");
    assert job.nodes[0].name == "a" && job.nodes[1].name == "b" && job.nodes[2].name == "d";
    assert job.exclusiveTo["a"].decision == "d" && job.exclusiveTo["b"].label_ == "q";
    assert "q" in LabelsOf(job.exclusiveTo, "d");
    assert Answer(ANSWERS_Q, "d").GetText("route") == Some("q");
  }

  /** The graph is accepted, its only decision takes the other label, and the target has run all the same. */
  lemma TargetRunsBeforeItsDecision()
    ensures var run := Start(EnvOf(ANSWERS_Q), LateJob(), EMPTY_STORE);
            run.envelope.Finished? && NotTaken(P, run.vol.routes) &&
            "a" in run.vol.outputs && "a" !in run.vol.skipped
    ensures IsTarget(LateBranches(), "a", P)
    ensures IsAccepted(LateGraph(), LateBranches(), LateJob())
  {
    hide IsAccepted, Start, IsTarget;
    LateAccepted();
    LateTarget();
    LateEnds();
  }

  lemma LateTarget()
    ensures IsTarget(LateBranches(), "a", P)
  {
    assert LateBranches().decisions[0].labels[0] == Label("p", "a");
  }

  lemma LateEnds()
    ensures var run := Start(EnvOf(ANSWERS_Q), LateJob(), EMPTY_STORE);
            run.envelope.Finished? && NotTaken(P, run.vol.routes) &&
            "a" in run.vol.outputs && "a" !in run.vol.skipped
  {
    hide Start, Memory, Runs;
    var job := LateJob();
    CheckedAnyIsSimple(LateGraph().nodes, job.exclusiveTo, Null);
    forall i | 0 <= i < |job.nodes| ensures Runs(job, ANSWERS_Q, i) { LateRuns(i); }
    RunsToTheEnd(job, ANSWERS_Q);
    SoFar(job, ANSWERS_Q, 3);
    assert job.nodes[0].name == "a" && job.nodes[2].name == "d";
    RoutesSoFar(job, ANSWERS_Q, 3, "a");
    RoutesSoFar(job, ANSWERS_Q, 3, "d");
  }

  // ---------------------------------------------------------------- a decision inside another's branch

  function InnerGraph(): NodeGraph {
    NodeGraph([
      Entry("d", BARE),
      Entry("e", BARE.(input := Some(FromNode("d")))),
      Entry("y", BARE.(input := Some(FromNode("e")))),
      Entry("z", BARE.(input := Some(FromNode("e"))))])
  }

  function InnerBranches(): Branches {
    Branches([Decision("d", [Label("p", "e")]), Decision("e", [Label("c", "y"), Label("f", "z")])])
  }

  function InnerJob(): Job {
    Job(CheckedAny(InnerGraph().nodes), map["e" := P, "y" := P, "z" := P], Null)
  }

  const C := Exclusive("e", "c")
  const F := Exclusive("e", "f")

  lemma InnerSeeds()
    ensures SeedDecisions(InnerGraph(), InnerBranches().decisions, 0, map[]) == Ok(map["e" := P, "y" := C, "z" := F])
  {
    var graph, outer, inner := InnerGraph(), InnerBranches().decisions[0].labels, InnerBranches().decisions[1].labels;
    var one, two, three: Marks := map["e" := P], map["e" := P, "y" := C], map["e" := P, "y" := C, "z" := F];
    LookupFinds(graph.nodes, 1);
    LookupFinds(graph.nodes, 2);
    LookupFinds(graph.nodes, 3);
    assert one["y" := C] == two && two["z" := F] == three;
    assert SeedLabels(graph, "d", outer, 1, one) == Ok(one);
    assert SeedLabels(graph, "d", outer, 0, map[]) == Ok(one);
    assert SeedLabels(graph, "e", inner, 2, three) == Ok(three);
    assert SeedLabels(graph, "e", inner, 1, two) == Ok(three);
    assert SeedLabels(graph, "e", inner, 0, one) == Ok(three);
    assert SeedDecisions(graph, InnerBranches().decisions, 2, three) == Ok(three);
    assert SeedDecisions(graph, InnerBranches().decisions, 1, one) == Ok(three);
  }

  lemma InnerPass()
    ensures PassFrom(InnerGraph().nodes, 0, map["e" := P, "y" := C, "z" := F]) == Ok(InnerJob().exclusiveTo)
  {
    var nodes, seeds, final := InnerGraph().nodes, map["e" := P, "y" := C, "z" := F], InnerJob().exclusiveTo;
    var mid := seeds["y" := P];
    assert mid["z" := P] == final;
    assert Scan(["d"], 1, seeds, None) == Ok(None);
    assert Scan(["e"], 1, seeds, Some(P)) == Ok(Some(P)) && Scan(["e"], 1, mid, Some(P)) == Ok(Some(P));
    assert Visit(nodes[0], seeds) == Ok(seeds) && Visit(nodes[1], seeds) == Ok(seeds);
    assert Visit(nodes[2], seeds) == Ok(mid) && Visit(nodes[3], mid) == Ok(final);
    assert PassFrom(nodes, 4, final) == Ok(final);
    assert PassFrom(nodes, 3, mid) == Ok(final);
    assert PassFrom(nodes, 2, seeds) == Ok(final);
    assert PassFrom(nodes, 1, seeds) == Ok(final);
  }

  lemma InnerMarks()
    ensures BranchExclusivity(InnerGraph(), InnerBranches()) == Ok(InnerJob().exclusiveTo)
  {
    hide PassFrom, SeedDecisions;
    InnerSeeds();
    InnerPass();
  }

  const INNER_DEPTH: map<string, nat> := map["d" := 0, "e" := 1, "y" := 2, "z" := 2]

  lemma InnerAccepted()
    ensures IsAccepted(InnerGraph(), InnerBranches(), InnerJob())
  {
    hide AcceptedAs, BranchExclusivity, NameSet, DepsOf, SortedSeq, InnerBranches, IsDepth, AllKnown;
    InnerMarks();
    InnerDeps();
    InnerIsLayered();
    assert Less("y", "z");
    AcceptedAsListed(InnerGraph(), InnerBranches(), INNER_DEPTH);
  }

  lemma InnerIsLayered()
    ensures IsDepth(DepsOf(InnerGraph().nodes), INNER_DEPTH) && AllKnown(InnerGraph())
  {
    hide NameSet, DepsOf;
    var graph, depth := InnerGraph(), INNER_DEPTH;
    var deps := DepsOf(graph.nodes);
    InnerDeps();
    assert HasDepAt(deps, depth, "e", 0) && HasDepAt(deps, depth, "y", 1) && HasDepAt(deps, depth, "z", 1);
    assert graph.Names() == deps.Keys;
  }

  lemma InnerDeps()
    ensures DistinctNames(InnerGraph().nodes)
    ensures var deps := DepsOf(InnerGraph().nodes);
            deps.Keys == {"d", "e", "y", "z"} && deps["d"] == {} && deps["e"] == {"d"} && deps["y"] == {"e"} && deps["z"] == {"e"}
  {
    hide NameSet, DepsOf;
    var nodes := InnerGraph().nodes;
    var deps := DepsOf(nodes);
    assert nodes[0] in nodes && nodes[1] in nodes && nodes[2] in nodes && nodes[3] in nodes;
    DepsOfEntry(nodes, nodes[0]);
    DepsOfEntry(nodes, nodes[1]);
    DepsOfEntry(nodes, nodes[2]);
    DepsOfEntry(nodes, nodes[3]);
    assert "d" in nodes[1].node.input.value.Refs() && "e" in nodes[2].node.input.value.Refs() && "e" in nodes[3].node.input.value.Refs();
    forall n | n in NameSet(nodes) ensures n in {"d", "e", "y", "z"} { var i := NameSetFrom(nodes, n); }
    assert deps.Keys == {"d", "e", "y", "z"};
  }

  const ANSWERS_P_F: Routes := map["d" := "p", "e" := "f"]

  lemma InnerRuns(i: nat)
    requires i < 4
    ensures Runs(InnerJob(), ANSWERS_P_F, i)
  {
    var job := InnerJob();
    RoutesSoFar(job, ANSWERS_P_F, i, "d");
    assert job.nodes[0].name == "d" && job.nodes[1].name == "e" && job.nodes[2].name == "y" && job.nodes[3].name == "z";
    assert job.exclusiveTo["e"] == P && job.exclusiveTo["y"] == P && job.exclusiveTo["z"] == P;
    assert "p" in LabelsOf(job.exclusiveTo, "d");
    assert Answer(ANSWERS_P_F, "d").GetText("route") == Some("p");
    forall node | node != "d" ensures LabelsOf(job.exclusiveTo, node) == {} {}
  }

  lemma InnerEnds()
    ensures var run := Start(EnvOf(ANSWERS_P_F), InnerJob(), EMPTY_STORE);
            run.envelope.Finished? && NotTaken(C, run.vol.routes) && "y" in run.vol.outputs && "y" !in run.vol.skipped
  {
    hide Start, Memory, Runs;
    var job := InnerJob();
    CheckedAnyIsSimple(InnerGraph().nodes, job.exclusiveTo, Null);
    forall i | 0 <= i < |job.nodes| ensures Runs(job, ANSWERS_P_F, i) { InnerRuns(i); }
    RunsToTheEnd(job, ANSWERS_P_F);
    SoFar(job, ANSWERS_P_F, 4);
    assert job.nodes[1].name == "e" && job.nodes[2].name == "y";
    RoutesSoFar(job, ANSWERS_P_F, 4, "e");
    RoutesSoFar(job, ANSWERS_P_F, 4, "y");
  }

  /**
   The graph is accepted, and a decision that is itself a target of another loses all its labels to
   it: whatever it answers is accepted, and the target of the label not taken runs.
   */
  lemma InnerDecisionIsIgnored()
    ensures var run := Start(EnvOf(ANSWERS_P_F), InnerJob(), EMPTY_STORE);
            run.envelope.Finished? && NotTaken(C, run.vol.routes) && "y" in run.vol.outputs && "y" !in run.vol.skipped
    ensures forall answer :: RouteAccepted(InnerJob().exclusiveTo, "e", answer)
    ensures IsTarget(InnerBranches(), "y", C)
    ensures IsAccepted(InnerGraph(), InnerBranches(), InnerJob())
  {
    hide IsAccepted, Start, IsTarget;
    InnerAccepted();
    InnerTarget();
    InnerEnds();
    assert LabelsOf(InnerJob().exclusiveTo, "e") == {};
  }

  lemma InnerTarget()
    ensures IsTarget(InnerBranches(), "y", C)
  {
    assert InnerBranches().decisions[1].labels[0] == Label("c", "y");
  }
}
