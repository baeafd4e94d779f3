/** One unit of work and its recovery ladder: attempts, retries, reroutes, escalation. */
module Ladder {
  import opened Wrappers
  import opened Types
  import opened Graphs

  /** Where an attempt is made: a node, or one item of a fan-out node. */
  datatype Site = Site(node: string, item: Option<nat>)

  datatype Backend = Default | Alternate(model: string)

  /** What running a block once came to. */
  datatype BlockRun = Produced(value: Value) | BlockFailed(message: string) | Cancelled

  /**
   Everything outside the host that a run depends on. Blocks, schemas and judges answer as
   functions of where they are asked and what they are given, so a rerun gets the same answers.
   */
  datatype World = World(
    run: (Site, nat, nat, Backend, Value) -> BlockRun,
    objection: (Site, nat, Value, Value) -> Option<string>,
    alternates: set<string>)

  /** What one piece of work is held to. */
  datatype Work = Work(
    site: Site,
    expected: Ty,
    repeatUntil: Option<string>,
    maxIterations: Option<nat>,
    onFail: seq<Rung>,
    input: Value)
  {
    /** A loop field comes with a bound: the parser refuses a spec without one. */
    predicate Bounded() { repeatUntil.Some? ==> maxIterations.Some? }
  }

  datatype Attempt =
    | Accepted(value: Value)
    | Rejected(reason: string, envelope: Option<string>)
    | Fatal

  // ---------------------------------------------------------------- one attempt

  function Judged(world: World, work: Work, attempt: nat, value: Value): Attempt {
    if !work.expected.MatchesValue(value) then Rejected("does not match the declared output", None)
    else
      match world.objection(work.site, attempt, work.input, value)
      case None => Accepted(value)
      case Some(why) => Rejected(why, None)
  }

  /** The bounded loop from a given iteration on, then the checks. */
  function AttemptFrom(world: World, work: Work, attempt: nat, backend: Backend, iterations: nat, current: Value): Attempt
    requires work.Bounded()
    decreases if work.repeatUntil.Some? then work.maxIterations.value - iterations else 0
  {
    match world.run(work.site, attempt, iterations, backend, current)
    case Cancelled => Fatal
    case BlockFailed(message) => Rejected(message, Some(message))
    case Produced(produced) =>
      if work.repeatUntil.None? || produced.GetText(work.repeatUntil.value) == Some("done") then
        Judged(world, work, attempt, produced)
      else if iterations + 1 >= work.maxIterations.value then
        Rejected("did not reach repeat_until within max_iterations", None)
      else AttemptFrom(world, work, attempt, backend, iterations + 1, produced)
  }

  method RunAttempt(world: World, work: Work, attempt: nat, backend: Backend) returns (r: Attempt)
    requires work.Bounded()
    ensures r == AttemptFrom(world, work, attempt, backend, 0, work.input)
  {
    var current := work.input;
    var iterations: nat := 0;
    var value;
    while true
      invariant AttemptFrom(world, work, attempt, backend, 0, work.input)
             == AttemptFrom(world, work, attempt, backend, iterations, current)
      invariant iterations > 0 ==> work.repeatUntil.Some? && iterations < work.maxIterations.value
      decreases if work.repeatUntil.Some? then work.maxIterations.value - iterations else 0
    {
      var produced;
      match world.run(work.site, attempt, iterations, backend, current) {
        case Cancelled => return Fatal;
        case BlockFailed(message) => return Rejected(message, Some(message));
        case Produced(v) => produced := v;
      }
      if work.repeatUntil.None? {
        value := produced;
        break;
      }
      if produced.GetText(work.repeatUntil.value) == Some("done") {
        value := produced;
        break;
      }
      if iterations + 1 >= work.maxIterations.value {
        return Rejected("did not reach repeat_until within max_iterations", None);
      }
      iterations := iterations + 1;
      current := produced;
    }
    return Judged(world, work, attempt, value);
  }

  /** An accepted value has the declared type. */
  lemma {:induction false} AcceptedMatches(world: World, work: Work, attempt: nat, backend: Backend, iterations: nat, current: Value)
    requires work.Bounded()
    ensures var a := AttemptFrom(world, work, attempt, backend, iterations, current);
            a.Accepted? ==> work.expected.MatchesValue(a.value)
    decreases if work.repeatUntil.Some? then work.maxIterations.value - iterations else 0
  {
    var ran := world.run(work.site, attempt, iterations, backend, current);
    if ran.Produced? && work.repeatUntil.Some? && iterations + 1 < work.maxIterations.value {
      AcceptedMatches(world, work, attempt, backend, iterations + 1, ran.value);
    }
  }

  // ---------------------------------------------------------------- the flat plan

  /** How a ladder that never succeeds ends. */
  datatype End = RanOut | Escalates | Unresolved(model: string)

  /** The further attempts a ladder allows, in order, and what comes after the last. */
  datatype Plan = Plan(attempts: seq<Backend>, end: End)

  function Repeat(backend: Backend, times: nat): (r: seq<Backend>)
    ensures |r| == times
  {
    if times == 0 then [] else [backend] + Repeat(backend, times - 1)
  }

  /** Rungs written out as single attempts; a retry stays on the backend last switched to. */
  function Expand(rungs: seq<Rung>, backend: Backend, alternates: set<string>): Plan {
    if rungs == [] then Plan([], RanOut)
    else
      match rungs[0]
      case Escalate => Plan([], Escalates)
      case Retry(n) =>
        var rest := Expand(rungs[1..], backend, alternates);
        Plan(Repeat(backend, n) + rest.attempts, rest.end)
      case Reroute(model) =>
        if model !in alternates then Plan([], Unresolved(model))
        else
          var rest := Expand(rungs[1..], Alternate(model), alternates);
          Plan([Alternate(model)] + rest.attempts, rest.end)
  }

  function PlanOf(world: World, work: Work): Plan {
    var more := Expand(work.onFail, Default, world.alternates);
    Plan([Default] + more.attempts, more.end)
  }

  datatype Climbed =
    | Done(value: Value)
    | Exhausted(reason: string, escalated: bool, envelope: Option<string>)
    | Stopped

  function GiveUp(end: End, last: Attempt): Climbed
    requires last.Rejected?
  {
    match end
    case RanOut => Exhausted(last.reason, false, last.envelope)
    case Escalates => Exhausted(last.reason, true, last.envelope)
    case Unresolved(model) => Exhausted("reroute names unresolved model " + model, false, None)
  }

  function Try(world: World, work: Work, attempt: nat, backend: Backend): Attempt
    requires work.Bounded()
  {
    AttemptFrom(world, work, attempt, backend, 0, work.input)
  }

  /** Work through a flat list of attempts until one is accepted or fatal. */
  function Follow(world: World, work: Work, plan: Plan, k: nat): Climbed
    requires work.Bounded() && k < |plan.attempts|
    decreases |plan.attempts| - k
  {
    match Try(world, work, k, plan.attempts[k])
    case Accepted(value) => Done(value)
    case Fatal => Stopped
    case Rejected(reason, envelope) =>
      if k + 1 == |plan.attempts| then GiveUp(plan.end, Rejected(reason, envelope))
      else Follow(world, work, plan, k + 1)
  }

  function Climb(world: World, work: Work): Climbed
    requires work.Bounded()
  {
    Follow(world, work, PlanOf(world, work), 0)
  }

  /** What is left of the plan between attempts: retries still owed, then the rungs from `rung` on. */
  ghost function Todo(backend: Backend, retriesLeft: nat, rungs: seq<Rung>, rung: nat, alternates: set<string>): Plan
    requires rung <= |rungs|
  {
    var rest := Expand(rungs[rung..], backend, alternates);
    Plan(Repeat(backend, retriesLeft) + rest.attempts, rest.end)
  }

  ghost function Then(backend: Backend, rest: Plan): Plan {
    Plan([backend] + rest.attempts, rest.end)
  }

  lemma TodoStep(backend: Backend, retriesLeft: nat, rungs: seq<Rung>, rung: nat, alternates: set<string>)
    requires rung <= |rungs|
    ensures var todo := Todo(backend, retriesLeft, rungs, rung, alternates);
            if retriesLeft > 0 then todo == Then(backend, Todo(backend, retriesLeft - 1, rungs, rung, alternates))
            else if rung == |rungs| then todo == Plan([], RanOut)
            else
              match rungs[rung]
              case Escalate => todo == Plan([], Escalates)
              case Retry(n) => todo == Todo(backend, n, rungs, rung + 1, alternates)
              case Reroute(m) =>
                if m in alternates then todo == Then(Alternate(m), Todo(Alternate(m), 0, rungs, rung + 1, alternates))
                else todo == Plan([], Unresolved(m))
  {
    if retriesLeft == 0 && rung < |rungs| {
      assert rungs[rung..][0] == rungs[rung] && rungs[rung..][1..] == rungs[rung + 1..];
    }
  }

  /** The attempts made, then those of `rest`, are the whole plan. */
  ghost predicate Splits(plan: Plan, tried: seq<Backend>, rest: Plan) {
    plan.end == rest.end && plan.attempts == tried + rest.attempts
  }

  lemma SplitNext(plan: Plan, tried: seq<Backend>, backend: Backend, rest: Plan)
    requires Splits(plan, tried, Then(backend, rest))
    ensures Splits(plan, tried + [backend], rest)
    ensures |tried| < |plan.attempts| && plan.attempts[|tried|] == backend && tried <= plan.attempts
  {
    assert plan.attempts == tried + ([backend] + rest.attempts);
  }

  lemma SplitEnd(plan: Plan, tried: seq<Backend>, end: End)
    requires Splits(plan, tried, Plan([], end))
    ensures plan == Plan(tried, end)
  {
    assert tried + [] == tried;
  }

  ghost predicate AllRejected(world: World, work: Work, tried: seq<Backend>)
    requires work.Bounded()
  {
    forall k :: 0 <= k < |tried| ==> Try(world, work, k, tried[k]).Rejected?
  }

  /** One attempt of the plan. */
  lemma FollowNext(world: World, work: Work, plan: Plan, k: nat)
    requires work.Bounded() && k < |plan.attempts|
    ensures match Try(world, work, k, plan.attempts[k])
            case Accepted(value) => Follow(world, work, plan, k) == Done(value)
            case Fatal => Follow(world, work, plan, k) == Stopped
            case Rejected(reason, envelope) =>
              Follow(world, work, plan, k) ==
              if k + 1 == |plan.attempts| then GiveUp(plan.end, Rejected(reason, envelope)) else Follow(world, work, plan, k + 1)
  {}

  /** The two nested loops; `tried` records the backends of the attempts that were rejected. */
  method RunLadder(world: World, work: Work) returns (r: Climbed, ghost tried: seq<Backend>)
    requires work.Bounded()
    ensures r == Climb(world, work)
    ensures tried <= PlanOf(world, work).attempts && AllRejected(world, work, tried)
    ensures r.Exhausted? <==> tried == PlanOf(world, work).attempts
  {
    hide AttemptFrom, Expand;
    ghost var plan := PlanOf(world, work);
    var backend := Default;
    var rung := 0;
    var retriesLeft: nat := 0;
    var attempt: nat := 0;
    tried := [];
    assert work.onFail[0..] == work.onFail;
    assert Splits(plan, [], Then(Default, Todo(Default, 0, work.onFail, 0, world.alternates)));
    hide Todo, Then, Splits, Follow;
    label ladder: while true
      invariant 0 <= rung <= |work.onFail| && attempt == |tried|
      invariant Splits(plan, tried, Then(backend, Todo(backend, retriesLeft, work.onFail, rung, world.alternates)))
      invariant |tried| < |plan.attempts|
      invariant Climb(world, work) == Follow(world, work, plan, |tried|)
      invariant AllRejected(world, work, tried)
      decreases |work.onFail| - rung, retriesLeft
    {
      SplitNext(plan, tried, backend, Todo(backend, retriesLeft, work.onFail, rung, world.alternates));
      FollowNext(world, work, plan, attempt);
      var outcome := RunAttempt(world, work, attempt, backend);
      match outcome {
        case Accepted(value) => r := Done(value); return;
        case Fatal => r := Stopped; return;
        case Rejected(_, _) =>
      }
      tried := tried + [backend];
      attempt := attempt + 1;
      while true
        invariant 0 <= rung <= |work.onFail|
        invariant Splits(plan, tried, Todo(backend, retriesLeft, work.onFail, rung, world.alternates))
        decreases |work.onFail| - rung, retriesLeft
      {
        TodoStep(backend, retriesLeft, work.onFail, rung, world.alternates);
        if retriesLeft > 0 {
          retriesLeft := retriesLeft - 1;
          SplitNext(plan, tried, backend, Todo(backend, retriesLeft, work.onFail, rung, world.alternates));
          continue ladder;
        }
        if rung == |work.onFail| {
          SplitEnd(plan, tried, RanOut);
          r := GiveUp(RanOut, outcome);
          return;
        }
        match work.onFail[rung] {
          case Retry(n) =>
            rung := rung + 1;
            retriesLeft := n;
          case Reroute(model) =>
            rung := rung + 1;
            if model in world.alternates {
              backend := Alternate(model);
              SplitNext(plan, tried, backend, Todo(backend, 0, work.onFail, rung, world.alternates));
              continue ladder;
            } else {
              SplitEnd(plan, tried, Unresolved(model));
              r := GiveUp(Unresolved(model), outcome);
              return;
            }
          case Escalate =>
            SplitEnd(plan, tried, Escalates);
            r := GiveUp(Escalates, outcome);
            return;
        }
      }
    }
  }

  // ---------------------------------------------------------------- what the plan guarantees

  function RungCost(rung: Rung): nat {
    match rung
    case Retry(n) => n
    case Reroute(_) => 1
    case Escalate => 0
  }

  function TotalCost(rungs: seq<Rung>): nat {
    if rungs == [] then 0 else RungCost(rungs[0]) + TotalCost(rungs[1..])
  }

  lemma {:induction false} ExpandBound(rungs: seq<Rung>, backend: Backend, alternates: set<string>)
    ensures |Expand(rungs, backend, alternates).attempts| <= TotalCost(rungs)
  {
    if rungs != [] && !rungs[0].Escalate? {
      ExpandBound(rungs[1..], if rungs[0].Retry? then backend else Alternate(rungs[0].model), alternates);
    }
  }

  /** At most one attempt, plus the retries, plus one per reroute. */
  lemma AttemptsBounded(world: World, work: Work)
    ensures |PlanOf(world, work).attempts| <= 1 + TotalCost(work.onFail)
  {
    ExpandBound(work.onFail, Default, world.alternates);
  }

  /** A rung that leads on to the next one. */
  predicate LeadsOn(rung: Rung, alternates: set<string>) {
    rung.Retry? || (rung.Reroute? && rung.model in alternates)
  }

  /** Rung `i` is `escalate`, and every rung before it leads on. */
  predicate EscalatesAt(rungs: seq<Rung>, i: nat, alternates: set<string>) {
    i < |rungs| && rungs[i] == Escalate && forall j :: 0 <= j < i ==> LeadsOn(rungs[j], alternates)
  }

  lemma {:induction false} EndsInEscalation(rungs: seq<Rung>, backend: Backend, alternates: set<string>)
    ensures Expand(rungs, backend, alternates).end == Escalates <==>
            exists i :: EscalatesAt(rungs, i, alternates)
  {
    if rungs != [] {
      if rungs[0] == Escalate {
        assert EscalatesAt(rungs, 0, alternates);
      } else if LeadsOn(rungs[0], alternates) {
        EndsInEscalation(rungs[1..], if rungs[0].Retry? then backend else Alternate(rungs[0].model), alternates);
        if i: nat :| EscalatesAt(rungs[1..], i, alternates) {
          forall j | 0 <= j < i + 1 ensures LeadsOn(rungs[j], alternates) {
            if j > 0 { assert rungs[j] == rungs[1..][j - 1]; }
          }
          assert EscalatesAt(rungs, i + 1, alternates);
        }
        if i: nat :| EscalatesAt(rungs, i, alternates) {
          forall j | 0 <= j < i - 1 ensures LeadsOn(rungs[1..][j], alternates) { assert rungs[1..][j] == rungs[j + 1]; }
          assert EscalatesAt(rungs[1..], i - 1, alternates);
        }
      }
    }
  }

  lemma {:induction false} FollowMeans(world: World, work: Work, plan: Plan, k: nat)
    requires work.Bounded() && k < |plan.attempts|
    ensures var r := Follow(world, work, plan, k);
            (r.Exhausted? <==> forall i :: k <= i < |plan.attempts| ==> Try(world, work, i, plan.attempts[i]).Rejected?) &&
            (r.Exhausted? ==> (r.escalated <==> plan.end == Escalates)) &&
            (r.Done? ==> work.expected.MatchesValue(r.value))
    decreases |plan.attempts| - k
  {
    AcceptedMatches(world, work, k, plan.attempts[k], 0, work.input);
    if Try(world, work, k, plan.attempts[k]).Rejected? && k + 1 < |plan.attempts| {
      FollowMeans(world, work, plan, k + 1);
    }
  }

  /**
   The ladder gives up when every attempt of the flat plan was rejected, and calls for
   a human exactly when, besides, the first rung that leads nowhere is `escalate`.
   */
  lemma ClimbMeans(world: World, work: Work)
    requires work.Bounded()
    ensures var r, plan := Climb(world, work), PlanOf(world, work);
            (r.Exhausted? <==> forall i :: 0 <= i < |plan.attempts| ==> Try(world, work, i, plan.attempts[i]).Rejected?) &&
            (r.Done? ==> work.expected.MatchesValue(r.value)) &&
            (r.Exhausted? ==>
              (r.escalated <==> exists i :: EscalatesAt(work.onFail, i, world.alternates)))
  {
    FollowMeans(world, work, PlanOf(world, work), 0);
    EndsInEscalation(work.onFail, Default, world.alternates);
  }
}
