/** What a run of a checked graph does from a given ledger: its checkpoints, its state, its result. */
module RunSpec {
  import opened Wrappers
  import opened Types
  import opened Graphs
  import opened Exclusivity
  import opened Composition
  import opened GraphCheck
  import opened Ladder
  import opened Ledger

  datatype Line = Blank | Json(value: Value) | Malformed(message: string)

  /** A fan-out manifest file as the host finds it. */
  datatype Manifest = Unreadable(message: string) | Manifest(digest: string, lines: seq<Line>)

  datatype Env = Env(world: World, manifests: string -> Manifest, jobDir: string)

  datatype Job = Job(nodes: seq<CheckedNode>, exclusiveTo: Marks, input: Value)

  /** The three maps a run keeps in memory, and loses with the process. */
  datatype Volatile = Volatile(outputs: Outputs, skipped: set<string>, routes: map<string, string>)

  const NOTHING_YET := Volatile(map[], {}, map[])

  datatype Envelope = Finished(result: Value) | Broken(message: string) | Aborted

  /** A repeat_until node has a bound; the parser refuses a spec without one. */
  predicate LoopsBounded(nodes: seq<CheckedNode>) {
    forall i :: 0 <= i < |nodes| ==> nodes[i].repeatUntil.Some? ==> nodes[i].maxIterations.Some?
  }

  // ---------------------------------------------------------------- fan-out

  /** The manifest's values, blank lines left out; one malformed line refuses the whole file. */
  function ReadItems(lines: seq<Line>, i: nat): Result<seq<Value>, string>
    requires i <= |lines|
    decreases |lines| - i
  {
    if i == |lines| then Ok([])
    else
      match lines[i]
      case Blank => ReadItems(lines, i + 1)
      case Malformed(message) => Err(message)
      case Json(value) =>
        match ReadItems(lines, i + 1)
        case Ok(rest) => Ok([value] + rest)
        case Err(e) => Err(e)
  }

  function ItemWork(node: CheckedNode, item: nat, input: Value): Work {
    Work(Site(node.name, Some(item)), if node.itemOutput.Some? then node.itemOutput.value else node.signature.output,
         None, None, node.onFail, input)
  }

  /** How one item concludes, or None when the whole job must stop. */
  function ItemRow(env: Env, node: CheckedNode, item: nat, input: Value): Option<Row> {
    if !node.signature.input.MatchesValue(input) then Some(FailedRow("does not match the declared input", Some(input)))
    else
      match Climb(env.world, ItemWork(node, item, input))
      case Done(value) => Some(CompletedRow(value, Some(input)))
      case Stopped => None
      case Exhausted(reason, escalated, _) =>
        Some(if escalated then EscalatedRow(reason, Some(input)) else FailedRow(reason, Some(input)))
  }

  datatype Fan = Fan(writes: seq<Write>, stopped: bool)

  /** The items from `i` on: those with a row are left alone, the others conclude and leave one. */
  function FanFrom(env: Env, node: CheckedNode, items: seq<Value>, i: nat, rows: map<Key, Row>): Fan
    requires i <= |items|
    decreases |items| - i
  {
    if i == |items| then Fan([], false)
    else if Key(node.name, Some(i)) in rows then FanFrom(env, node, items, i + 1, rows)
    else
      match ItemRow(env, node, i, items[i])
      case None => Fan([], true)
      case Some(row) =>
        var rest := FanFrom(env, node, items, i + 1, rows);
        Fan([Put(Key(node.name, Some(i)), row)] + rest.writes, rest.stopped)
  }

  /** How many of the first `n` items have a completed row. */
  function Succeeded(rows: map<Key, Row>, node: string, n: nat): (k: nat)
    ensures k <= n
  {
    if n == 0 then 0
    else
      Succeeded(rows, node, n - 1) +
      (if Key(node, Some(n - 1)) in rows && rows[Key(node, Some(n - 1))].CompletedRow? then 1 else 0)
  }

  /** The two files a fan-out node leaves, one entry per line. */
  datatype Files = Files(results: seq<(nat, Value)>, failures: seq<(nat, string)>)

  function Project(items: seq<Concluded>, i: nat, files: Files): Files
    requires i <= |items|
    decreases |items| - i
  {
    if i == |items| then files
    else if items[i].output.Some? then
      Project(items, i + 1, files.(results := files.results + [(items[i].item, items[i].output.value)]))
    else if items[i].error.Some? then
      Project(items, i + 1, files.(failures := files.failures + [(items[i].item, items[i].error.value)]))
    else Project(items, i + 1, files)
  }

  function Collection(jobDir: string, node: string, succeeded: nat, failed: nat): Value {
    Object(map[
      "results_path" := Str(jobDir + "/results/" + node + ".results.jsonl"),
      "failures_path" := Str(jobDir + "/results/" + node + ".failures.jsonl"),
      "succeeded" := Num(succeeded as real),
      "failed" := Num(failed as real)])
  }

  datatype Fanned =
    | Collected(writes: seq<Write>, value: Value, files: Files)
    | Bailed(writes: seq<Write>, envelope: Envelope)

  /** The values a manifest supplies, or why the node cannot run over it. */
  function UsableItems(manifest: Manifest): Result<seq<Value>, string> {
    match manifest
    case Unreadable(message) => Err(message)
    case Manifest(_, lines) =>
      match ReadItems(lines, 0)
      case Err(e) => Err(e)
      case Ok(items) => if items == [] then Err("the manifest is empty") else Ok(items)
  }

  function PinFirst(store: Store, node: string, digest: string, items: nat): seq<Write> {
    if node in store.manifests then [] else [Pin(node, Pinned(digest, items))]
  }

  /** Pin the manifest if this is the first run over it, then run the items. */
  function PinnedWrites(env: Env, node: CheckedNode, store: Store, digest: string, items: seq<Value>): Fan {
    var pin := PinFirst(store, node.name, digest, |items|);
    var fan := FanFrom(env, node, items, 0, store.rows);
    Fan(pin + fan.writes, fan.stopped)
  }

  /** What the node presents once its items are through, `rows` being the ledger by then. */
  function FanoutEnd(env: Env, node: string, n: nat, fan: Fan, rows: map<Key, Row>): Fanned {
    var succeeded := Succeeded(rows, node, n);
    if fan.stopped then Bailed(fan.writes, Aborted)
    else if succeeded == 0 then Bailed(fan.writes, Broken("all fan-out items failed"))
    else
      Collected(fan.writes, Collection(env.jobDir, node, succeeded, n - succeeded),
                Project(AllConcluded(rows, node), 0, Files([], [])))
  }

  function RunFanout(env: Env, node: CheckedNode, store: Store): Fanned
    requires node.over.Some?
  {
    var manifest := env.manifests(node.over.value);
    match UsableItems(manifest)
    case Err(message) => Bailed([], Broken(message))
    case Ok(items) =>
      if node.name in store.manifests && store.manifests[node.name].digest != manifest.digest then
        Bailed([], Broken("the manifest has changed since this job first ran"))
      else
        var fan := PinnedWrites(env, node, store, manifest.digest, items);
        FanoutEnd(env, node.name, |items|, fan, ApplyAll(store, fan.writes).rows)
  }

  // ---------------------------------------------------------------- one node

  datatype Step = Advance(writes: seq<Write>, vol: Volatile) | Halt(writes: seq<Write>, envelope: Envelope)

  function NodeWork(node: CheckedNode, input: Value): Work {
    Work(Site(node.name, None), node.signature.output, node.repeatUntil, node.maxIterations, node.onFail, input)
  }

  /** Record an output, and the route it names if it names one. */
  function WithOutput(vol: Volatile, node: string, value: Value): Volatile {
    var route := value.GetText("route");
    vol.(outputs := vol.outputs[node := value],
         routes := if route.Some? then vol.routes[node := route.value] else vol.routes)
  }

  function WithSkip(vol: Volatile, node: string): Volatile {
    vol.(skipped := vol.skipped + {node})
  }

  predicate RouteAccepted(exclusiveTo: Marks, node: string, value: Value) {
    LabelsOf(exclusiveTo, node) == {} ||
    (value.GetText("route").Some? && value.GetText("route").value in LabelsOf(exclusiveTo, node))
  }

  /** The branch taken excludes the node. */
  predicate BranchedAway(exclusiveTo: Marks, node: string, routes: map<string, string>) {
    && node in exclusiveTo
    && exclusiveTo[node].decision in routes
    && routes[exclusiveTo[node].decision] != exclusiveTo[node].label_
  }

  predicate NeedsSkipped(node: CheckedNode, skipped: set<string>) {
    node.input.Some? && ReferencesAny(node.input.value, skipped)
  }

  function InputOf(job: Job, node: CheckedNode, outputs: Outputs): Value {
    match node.input
    case None => job.input
    case Some(expr) => Evaluate(expr, outputs)
  }

  /** A fan-out node's turn, its own row written after its items. */
  function FanoutStep(fanned: Fanned, node: string, vol: Volatile): Step {
    match fanned
    case Bailed(writes, envelope) => Halt(writes, envelope)
    case Collected(writes, value, _) =>
      Advance(writes + [Put(Key(node, None), CompletedRow(value, None))], vol.(outputs := vol.outputs[node := value]))
  }

  /** Actually running a node that the ledger does not know and no branch excludes. */
  function Execute(env: Env, job: Job, node: CheckedNode, vol: Volatile, store: Store): Step
    requires node.repeatUntil.Some? ==> node.maxIterations.Some?
  {
    if node.over.Some? then FanoutStep(RunFanout(env, node, store), node.name, vol)
    else
      var input := InputOf(job, node, vol.outputs);
      match Climb(env.world, NodeWork(node, input))
      case Stopped => Halt([], Aborted)
      case Exhausted(reason, escalated, _) =>
        Halt(if escalated then [Put(Key(node.name, None), EscalatedRow(reason, Some(input)))] else [], Broken(reason))
      case Done(value) =>
        if RouteAccepted(job.exclusiveTo, node.name, value) then
          Advance([Put(Key(node.name, None), CompletedRow(value, None))], WithOutput(vol, node.name, value))
        else Halt([], Broken("the route matches no declared label"))
  }

  function NodeStep(env: Env, job: Job, node: CheckedNode, vol: Volatile, store: Store): Step
    requires node.repeatUntil.Some? ==> node.maxIterations.Some?
  {
    var key := Key(node.name, None);
    if key in store.rows && store.rows[key].SkippedRow? then Advance([], WithSkip(vol, node.name))
    else if key in store.rows && store.rows[key].CompletedRow? then
      Advance([], WithOutput(vol, node.name, store.rows[key].output))
    else if BranchedAway(job.exclusiveTo, node.name, vol.routes) || NeedsSkipped(node, vol.skipped) then
      Advance([Put(key, SkippedRow)], WithSkip(vol, node.name))
    else Execute(env, job, node, vol, store)
  }

  // ---------------------------------------------------------------- the whole run

  /** The output of the last node, in run order, that has one. */
  function LastOutput(nodes: seq<CheckedNode>, outputs: Outputs): Option<Value> {
    if nodes == [] then None
    else if nodes[|nodes| - 1].name in outputs then Some(outputs[nodes[|nodes| - 1].name])
    else LastOutput(nodes[..|nodes| - 1], outputs)
  }

  function Conclude(job: Job, vol: Volatile): Envelope {
    match LastOutput(job.nodes, vol.outputs)
    case Some(value) => Finished(value)
    case None => Broken("every node in this job was skipped")
  }

  /** What a node loop comes to: its checkpoints, the memory it ends with, and why it stopped early if it did. */
  datatype Traversal = Traversal(writes: seq<Write>, vol: Volatile, stop: Option<Envelope>)

  /** The node loop over any step function: nodes `i` to `n`, each seeing the ledger its predecessors left. */
  function Traverse(step: (nat, Volatile, Store) -> Step, n: nat, i: nat, vol: Volatile, store: Store): Traversal
    requires i <= n
    decreases n - i
  {
    if i == n then Traversal([], vol, None)
    else
      match step(i, vol, store)
      case Halt(writes, envelope) => Traversal(writes, vol, Some(envelope))
      case Advance(writes, vol') =>
        var rest := Traverse(step, n, i + 1, vol', ApplyAll(store, writes));
        Traversal(writes + rest.writes, rest.vol, rest.stop)
  }

  function StepOf(env: Env, job: Job): (nat, Volatile, Store) -> Step
    requires LoopsBounded(job.nodes)
  {
    (i: nat, vol: Volatile, store: Store) =>
      if i < |job.nodes| then NodeStep(env, job, job.nodes[i], vol, store) else Halt([], Aborted)
  }

  datatype Run = Run(writes: seq<Write>, vol: Volatile, envelope: Envelope)

  /** A fresh process: nothing in memory, whatever the ledger holds. */
  function Start(env: Env, job: Job, store: Store): Run
    requires LoopsBounded(job.nodes)
  {
    if job.nodes == [] then Run([], NOTHING_YET, Broken("this job has no nodes to run"))
    else
      var t := Traverse(StepOf(env, job), |job.nodes|, 0, NOTHING_YET, store);
      Run(t.writes, t.vol, if t.stop.Some? then t.stop.value else Conclude(job, t.vol))
  }

  function StatusOf(envelope: Envelope): JobStatus {
    match envelope
    case Finished(_) => JobStatus.Completed
    case Broken(_) => JobStatus.Failed
    case Aborted => JobStatus.Cancelled
  }
}
