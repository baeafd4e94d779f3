/** Kahn's algorithm over a graph's references, and what its answer means. */
module TopoSort {
  import opened Wrappers
  import opened Strings
  import opened Graphs

  type Deps = map<string, set<string>>

  /** What one entry must wait for: its references, except its own marked loop. */
  function EntryDeps(e: Entry): set<string> {
    match e.node.input
    case None => {}
    case Some(expr) => set r | r in expr.Refs() && !(r == e.name && e.node.repeatUntil.Some?)
  }

  /** Entries declared under one name are merged. */
  function DepsOf(nodes: seq<Entry>): (deps: Deps)
    ensures deps.Keys == NameSet(nodes)
  {
    if nodes == [] then map[]
    else
      var e, before := nodes[|nodes| - 1], DepsOf(nodes[..|nodes| - 1]);
      before[e.name := (if e.name in before then before[e.name] else {}) + EntryDeps(e)]
  }

  ghost predicate AllKnown(graph: NodeGraph) {
    forall e :: e in graph.nodes ==> KnownEntry(graph, e)
  }

  ghost predicate KnownEntry(graph: NodeGraph, e: Entry) {
    e.node.input.Some? ==> forall r :: r in e.node.input.value.Refs() ==> r in graph.Names()
  }

  // ---------------------------------------------------------------- cycles

  predicate Edge(deps: Deps, a: string, b: string) {
    a in deps && b in deps && b in deps[a]
  }

  /** A walk along dependencies. */
  ghost predicate Walk(deps: Deps, p: seq<string>) {
    && p != []
    && p[0] in deps
    && forall i, j :: 0 <= i < |p| && 0 <= j < |p| && j == i + 1 ==> Edge(deps, p[i], p[j])
  }

  ghost predicate Repeats(p: seq<string>) {
    exists i, j :: 0 <= i < j < |p| && p[i] == p[j]
  }

  /** Following dependencies from `name` one can come by some node twice. */
  ghost predicate ReachesCycle(deps: Deps, name: string) {
    exists p :: Walk(deps, p) && p[0] == name && Repeats(p)
  }

  ghost predicate Acyclic(deps: Deps) {
    forall n :: n in deps ==> !ReachesCycle(deps, n)
  }

  ghost predicate ClosedDeps(deps: Deps) {
    forall n, d :: n in deps && d in deps[n] ==> d in deps
  }

  // ---------------------------------------------------------------- depth

  ghost predicate HasDepAt(deps: Deps, depth: map<string, nat>, n: string, k: int) {
    n in deps && exists d :: d in deps[n] && d in depth && depth[d] == k
  }

  /** `depth` is the length of the longest chain of dependencies below each of its nodes. */
  ghost predicate IsDepth(deps: Deps, depth: map<string, nat>) {
    && depth.Keys <= deps.Keys
    && (forall n, d :: n in depth && d in deps[n] ==> d in depth && depth[d] < depth[n])
    && (forall n {:trigger HasDepAt(deps, depth, n, depth[n] - 1)} ::
          n in depth && depth[n] > 0 ==> HasDepAt(deps, depth, n, depth[n] - 1))
  }

  predicate Before(depth: map<string, nat>, a: string, b: string)
    requires a in depth && b in depth
  {
    depth[a] < depth[b] || (depth[a] == depth[b] && Less(a, b))
  }

  /** The nodes of `order`, by increasing depth and by name within one depth. */
  ghost predicate OrderedBy(depth: map<string, nat>, order: seq<string>) {
    && (forall n :: n in order <==> n in depth)
    && (forall i, j :: 0 <= i < j < |order| ==> Before(depth, order[i], order[j]))
  }

  /** What a successful sort returns. */
  ghost predicate IsKahnOrder(deps: Deps, order: seq<string>) {
    exists depth :: IsDepth(deps, depth) && depth.Keys == deps.Keys && OrderedBy(depth, order)
  }

  ghost predicate DepsBefore(deps: Deps, order: seq<string>, i: nat)
    requires i < |order|
  {
    order[i] in deps && forall d :: d in deps[order[i]] ==> d in order[..i]
  }

  /** Every node once, each after everything it waits for. */
  ghost predicate IsTopological(deps: Deps, order: seq<string>) {
    && (forall i, j :: 0 <= i < j < |order| ==> order[i] != order[j])
    && (forall n :: n in order <==> n in deps)
    && (forall i {:trigger DepsBefore(deps, order, i)} :: 0 <= i < |order| ==> DepsBefore(deps, order, i))
  }

  lemma {:induction false} DepthUnique(deps: Deps, f: map<string, nat>, g: map<string, nat>, n: string)
    requires IsDepth(deps, f) && IsDepth(deps, g) && n in f && n in g
    ensures f[n] == g[n]
    decreases f[n] + g[n]
  {
    if f[n] > 0 {
      assert HasDepAt(deps, f, n, f[n] - 1);
      var d :| d in deps[n] && d in f && f[d] == f[n] - 1;
      DepthUnique(deps, f, g, d);
    }
    if g[n] > 0 {
      assert HasDepAt(deps, g, n, g[n] - 1);
      var d :| d in deps[n] && d in g && g[d] == g[n] - 1;
      DepthUnique(deps, f, g, d);
    }
  }

  lemma BeforeAsymmetric(depth: map<string, nat>, a: string, b: string)
    requires a in depth && b in depth && Before(depth, a, b)
    ensures !Before(depth, b, a) && a != b
  {
    LessTrichotomy(a, b);
  }

  lemma {:induction false} OrderUnique(depth: map<string, nat>, s: seq<string>, t: seq<string>)
    requires forall n :: n in s <==> n in t
    requires forall n :: n in s ==> n in depth
    requires forall i, j :: 0 <= i < j < |s| ==> Before(depth, s[i], s[j])
    requires forall i, j :: 0 <= i < j < |t| ==> Before(depth, t[i], t[j])
    ensures s == t
  {
    if s == [] {
      assert forall i :: 0 <= i < |t| ==> t[i] in t;
    } else {
      assert s[0] in t;
      var i :| 0 <= i < |t| && t[i] == s[0];
      assert t[0] in s;
      var j :| 0 <= j < |s| && s[j] == t[0];
      if i > 0 {
        BeforeAsymmetric(depth, t[0], t[i]);
        assert false;
      }
      forall n ensures n in s[1..] <==> n in t[1..] {
        if n in s[1..] {
          var k :| 1 <= k < |s| && s[k] == n;
          BeforeAsymmetric(depth, s[0], n);
          assert n in t;
        }
        if n in t[1..] {
          var k :| 1 <= k < |t| && t[k] == n;
          BeforeAsymmetric(depth, t[0], n);
          assert n in s;
        }
      }
      OrderUnique(depth, s[1..], t[1..]);
      assert s == [s[0]] + s[1..] && t == [t[0]] + t[1..];
    }
  }

  lemma SameDepth(deps: Deps, f: map<string, nat>, g: map<string, nat>)
    requires IsDepth(deps, f) && IsDepth(deps, g) && f.Keys == g.Keys
    ensures f == g
  {
    forall n | n in f ensures f[n] == g[n] { DepthUnique(deps, f, g, n); }
  }

  /** The order depends on the dependencies alone, not on how a hash map walks them. */
  lemma KahnOrderUnique(deps: Deps, s: seq<string>, t: seq<string>)
    requires IsKahnOrder(deps, s) && IsKahnOrder(deps, t)
    ensures s == t
  {
    var f :| IsDepth(deps, f) && f.Keys == deps.Keys && OrderedBy(f, s);
    var g :| IsDepth(deps, g) && g.Keys == deps.Keys && OrderedBy(g, t);
    SameDepth(deps, f, g);
    OrderUnique(f, s, t);
  }

  lemma OrderedDistinct(depth: map<string, nat>, order: seq<string>)
    requires OrderedBy(depth, order)
    ensures forall i, j :: 0 <= i < j < |order| ==> order[i] != order[j]
  {
    forall i, j | 0 <= i < j < |order| ensures order[i] != order[j] {
      BeforeAsymmetric(depth, order[i], order[j]);
    }
  }

  lemma ShallowerEarlier(depth: map<string, nat>, order: seq<string>, i: nat, d: string)
    requires OrderedBy(depth, order) && i < |order| && d in depth && depth[d] < depth[order[i]]
    ensures d in order[..i]
  {
    var k :| 0 <= k < |order| && order[k] == d;
    if i < k {
      BeforeAsymmetric(depth, order[i], order[k]);
    }
    assert order[..i][k] == d;
  }

  lemma OrderedByIsTopological(deps: Deps, depth: map<string, nat>, order: seq<string>)
    requires IsDepth(deps, depth) && depth.Keys == deps.Keys && OrderedBy(depth, order)
    ensures IsTopological(deps, order)
  {
    OrderedDistinct(depth, order);
    forall i | 0 <= i < |order| ensures DepsBefore(deps, order, i) {
      assert order[i] in depth;
      forall d | d in deps[order[i]] ensures d in order[..i] {
        ShallowerEarlier(depth, order, i, d);
      }
    }
  }

  lemma KahnOrderIsTopological(deps: Deps, order: seq<string>)
    requires IsKahnOrder(deps, order)
    ensures IsTopological(deps, order)
  {
    var depth :| IsDepth(deps, depth) && depth.Keys == deps.Keys && OrderedBy(depth, order);
    OrderedByIsTopological(deps, depth, order);
  }

  // ---------------------------------------------------------------- depth against cycles

  lemma {:induction false} DepthFalls(deps: Deps, depth: map<string, nat>, p: seq<string>, i: nat, j: nat)
    requires IsDepth(deps, depth) && Walk(deps, p) && p[0] in depth && i < j < |p|
    ensures p[i] in depth && p[j] in depth && depth[p[j]] < depth[p[i]]
    decreases j
  {
    if i + 1 < j {
      DepthFalls(deps, depth, p, i, j - 1);
    } else if i > 0 {
      DepthFalls(deps, depth, p, i - 1, i);
    }
    assert Edge(deps, p[j - 1], p[j]);
  }

  /** A node with a depth does not depend on a cycle. */
  lemma DepthMeansNoCycle(deps: Deps, depth: map<string, nat>, n: string)
    requires IsDepth(deps, depth) && n in depth
    ensures !ReachesCycle(deps, n)
  {
    forall p | Walk(deps, p) && p[0] == n ensures !Repeats(p) {
      forall i, j | 0 <= i < j < |p| ensures p[i] != p[j] {
        DepthFalls(deps, depth, p, i, j);
      }
    }
  }

  ghost predicate HasDepIn(deps: Deps, s: set<string>, n: string) {
    n in deps && exists d :: d in deps[n] && d in s
  }

  /** Where every node waits for another of the same set, walks go on forever. */
  ghost predicate Stuck(deps: Deps, s: set<string>) {
    s <= deps.Keys && forall n {:trigger HasDepIn(deps, s, n)} :: n in s ==> HasDepIn(deps, s, n)
  }

  lemma {:induction false} LongWalk(deps: Deps, s: set<string>, n: string, k: nat) returns (p: seq<string>)
    requires Stuck(deps, s) && n in s
    ensures Walk(deps, p) && p[0] == n && |p| == k + 1
    ensures forall x :: x in p ==> x in s
  {
    if k == 0 {
      p := [n];
    } else {
      var q := LongWalk(deps, s, n, k - 1);
      var last := q[|q| - 1];
      assert last in s;
      assert HasDepIn(deps, s, last);
      var d :| d in deps[last] && d in s;
      p := q + [d];
    }
  }

  lemma {:induction false} Pigeonhole(p: seq<string>, s: set<string>)
    requires forall x :: x in p ==> x in s
    requires |p| > |s|
    ensures Repeats(p)
    decreases |p|
  {
    var last, front := p[|p| - 1], p[..|p| - 1];
    assert last in p;
    if last in front {
      var i :| 0 <= i < |front| && front[i] == last;
      assert p[i] == p[|p| - 1];
    } else {
      forall x | x in front ensures x in s - {last} { assert x in p; }
      Pigeonhole(front, s - {last});
      var i, j :| 0 <= i < j < |front| && front[i] == front[j];
      assert p[i] == p[j];
    }
  }

  lemma StuckReachesCycle(deps: Deps, s: set<string>, n: string)
    requires Stuck(deps, s) && n in s
    ensures ReachesCycle(deps, n)
  {
    var p := LongWalk(deps, s, n, |s|);
    Pigeonhole(p, s);
  }

  // ---------------------------------------------------------------- the method

  /** A sort either orders the nodes, rejects the graph, or takes a missing value and panics. */
  datatype SortOutcome = Ordered(order: seq<string>) | Rejected(error: DagError) | Panicked

  /** The first reference, in declaration order, to a name that is not declared. */
  ghost predicate FirstUnknown(graph: NodeGraph, node: string, referenced: string) {
    exists i, j :: 0 <= i < |graph.nodes| && graph.nodes[i].node.input.Some? &&
      0 <= j < |graph.nodes[i].node.input.value.Refs()| && UnknownAt(graph, i, j) &&
      node == graph.nodes[i].name && referenced == graph.nodes[i].node.input.value.Refs()[j] &&
      (forall k :: 0 <= k < i ==> KnownEntry(graph, graph.nodes[k])) &&
      (forall k :: 0 <= k < j ==> graph.nodes[i].node.input.value.Refs()[k] in graph.Names())
  }

  ghost predicate UnknownAt(graph: NodeGraph, i: nat, j: nat)
    requires i < |graph.nodes| && graph.nodes[i].node.input.Some?
    requires j < |graph.nodes[i].node.input.value.Refs()|
  {
    graph.nodes[i].node.input.value.Refs()[j] !in graph.Names()
  }

  lemma DepsSnoc(nodes: seq<Entry>, i: nat)
    requires i < |nodes|
    ensures var deps, e := DepsOf(nodes[..i]), nodes[i];
            DepsOf(nodes[..i + 1]) == deps[e.name := (if e.name in deps then deps[e.name] else {}) + EntryDeps(e)]
  {
    assert nodes[..i + 1][..i] == nodes[..i];
  }

  /** One entry's dependencies, or its first reference to a name that is not declared. */
  method CollectEntry(graph: NodeGraph, e: Entry) returns (r: Result<set<string>, nat>)
    ensures r.Ok? ==> KnownEntry(graph, e) && r.value == EntryDeps(e)
    ensures r.Err? ==> e.node.input.Some? && r.error < |e.node.input.value.Refs()|
    ensures r.Err? ==> e.node.input.value.Refs()[r.error] !in graph.Names()
    ensures r.Err? ==> forall k :: 0 <= k < r.error ==> e.node.input.value.Refs()[k] in graph.Names()
  {
    var own := {};
    if e.node.input.Some? {
      var refs := e.node.input.value.Refs();
      for j := 0 to |refs|
        invariant forall k :: 0 <= k < j ==> refs[k] in graph.Names()
        invariant own == set r | r in refs[..j] && !(r == e.name && e.node.repeatUntil.Some?)
      {
        LookupExactly(graph.nodes, refs[j]);
        if graph.Get(refs[j]).None? {
          return Err(j);
        }
        var isMarkedSelfLoop := refs[j] == e.name && e.node.repeatUntil.Some?;
        if !isMarkedSelfLoop {
          own := own + {refs[j]};
        }
        assert forall x :: x in refs[..j + 1] <==> x in refs[..j] || x == refs[j];
      }
      assert refs[..|refs|] == refs;
    }
    return Ok(own);
  }

  /** Collect every entry's dependencies, stopping at the first unknown reference. */
  method CollectDeps(graph: NodeGraph) returns (r: Result<Deps, DagError>)
    ensures r.Ok? ==> AllKnown(graph) && r.value == DepsOf(graph.nodes)
    ensures r.Err? ==> !AllKnown(graph)
    ensures r.Err? ==> r.error.UnknownReference? && FirstUnknown(graph, r.error.node, r.error.referenced)
  {
    hide KnownEntry, AllKnown, DepsOf, EntryDeps;
    var deps: Deps := map[];
    NoDeps();
    for i := 0 to |graph.nodes|
      invariant deps == DepsOf(graph.nodes[..i])
      invariant forall k :: 0 <= k < i ==> KnownEntry(graph, graph.nodes[k])
    {
      var e := graph.nodes[i];
      var own := CollectEntry(graph, e);
      if own.Err? {
        FirstUnknownAt(graph, i, own.error);
        return Err(UnknownReference(e.name, e.node.input.value.Refs()[own.error]));
      }
      DepsSnoc(graph.nodes, i);
      deps := deps[e.name := (if e.name in deps then deps[e.name] else {}) + own.value];
    }
    assert graph.nodes[..|graph.nodes|] == graph.nodes;
    KnownEntries(graph);
    return Ok(deps);
  }

  lemma NoDeps()
    ensures DepsOf([]) == map[]
  {}

  lemma FirstUnknownAt(graph: NodeGraph, i: nat, j: nat)
    requires i < |graph.nodes| && graph.nodes[i].node.input.Some? && j < |graph.nodes[i].node.input.value.Refs()|
    requires graph.nodes[i].node.input.value.Refs()[j] !in graph.Names()
    requires forall k :: 0 <= k < j ==> graph.nodes[i].node.input.value.Refs()[k] in graph.Names()
    requires forall k :: 0 <= k < i ==> KnownEntry(graph, graph.nodes[k])
    ensures !AllKnown(graph) && FirstUnknown(graph, graph.nodes[i].name, graph.nodes[i].node.input.value.Refs()[j])
  {
    assert UnknownAt(graph, i, j);
    assert graph.nodes[i] in graph.nodes;
  }

  lemma KnownEntries(graph: NodeGraph)
    requires forall k :: 0 <= k < |graph.nodes| ==> KnownEntry(graph, graph.nodes[k])
    ensures AllKnown(graph)
  {
    forall e | e in graph.nodes ensures KnownEntry(graph, e) {
      var k :| 0 <= k < |graph.nodes| && graph.nodes[k] == e;
    }
  }

  /** `n` waits for a node that is not placed yet, or that the last round placed. */
  ghost predicate WaitsSince(deps: Deps, depth: map<string, nat>, n: string, round: nat) {
    n in deps && exists d :: d in deps[n] && (d !in depth || depth[d] == round)
  }

  function Ready(remaining: Deps): set<string> {
    set n | n in remaining && remaining[n] == {}
  }

  /** The rest of a round's state: what is left waits for what is not placed, and not since long. */
  ghost predicate Waiting(deps: Deps, depth: map<string, nat>, remaining: Deps, round: nat) {
    && remaining.Keys == deps.Keys - depth.Keys
    && (forall n :: n in remaining ==> remaining[n] == deps[n] - depth.Keys)
    && (round > 0 ==> forall n {:trigger WaitsSince(deps, depth, n, round - 1)} ::
          n in remaining ==> WaitsSince(deps, depth, n, round - 1))
  }

  ghost predicate AllBelow(depth: map<string, nat>, round: nat) {
    forall n :: n in depth ==> depth[n] < round
  }

  /** The rounds: take everything that waits for nothing, in name order, and strike it out. */
  method Rounds(deps: Deps) returns (order: seq<string>, remaining: Deps, ghost depth: map<string, nat>)
    requires ClosedDeps(deps)
    ensures IsDepth(deps, depth) && OrderedBy(depth, order)
    ensures remaining.Keys == deps.Keys - depth.Keys
    ensures Stuck(deps, remaining.Keys)
  {
    hide IsDepth, OrderedBy, Waiting, Ready, Stuck;
    order := [];
    remaining := deps;
    depth := map[];
    ghost var round: nat := 0;
    NothingPlaced(deps);
    while true
      invariant IsDepth(deps, depth) && AllBelow(depth, round)
      invariant OrderedBy(depth, order)
      invariant Waiting(deps, depth, remaining, round)
      decreases remaining.Keys
    {
      var ready := SortedSeq(Ready(remaining));
      if ready == [] {
        NothingReady(deps, depth, remaining, round);
        break;
      }
      ReadyFacts(deps, depth, remaining, round, ready);
      DepthGrows(deps, depth, ready, round);
      SortedSeqSorted(Ready(remaining));
      OrderGrows(depth, order, ready, round);
      WaitingKeeps(deps, depth, remaining, round, ready);
      StrikeShrinks(remaining, ready);
      order := order + ready;
      remaining := Strike(remaining, ready);
      depth := Place(depth, ready, round);
      round := round + 1;
    }
  }

  lemma NothingReady(deps: Deps, depth: map<string, nat>, remaining: Deps, round: nat)
    requires ClosedDeps(deps) && Waiting(deps, depth, remaining, round)
    requires SortedSeq(Ready(remaining)) == []
    ensures Stuck(deps, remaining.Keys) && remaining.Keys == deps.Keys - depth.Keys
  {
    forall n | n in remaining ensures HasDepIn(deps, remaining.Keys, n) {
      assert n !in SortedSeq(Ready(remaining));
      var d :| d in remaining[n];
    }
  }

  lemma NothingPlaced(deps: Deps)
    requires ClosedDeps(deps)
    ensures IsDepth(deps, map[]) && OrderedBy(map[], []) && Waiting(deps, map[], deps, 0)
  {}

  lemma StrikeShrinks(remaining: Deps, ready: seq<string>)
    requires ready != [] && ready == SortedSeq(Ready(remaining))
    ensures Strike(remaining, ready).Keys < remaining.Keys
  {
    assert ready[0] in Ready(remaining);
    assert ready[0] in remaining && ready[0] !in Strike(remaining, ready);
  }

  function Strike(remaining: Deps, ready: seq<string>): Deps {
    map n | n in remaining && n !in ready :: remaining[n] - set r | r in ready
  }

  ghost function Place(depth: map<string, nat>, ready: seq<string>, round: nat): (grown: map<string, nat>)
    ensures grown.Keys == depth.Keys + set r | r in ready
  {
    depth + map n | n in ready :: round
  }

  lemma ReadyFacts(deps: Deps, depth: map<string, nat>, remaining: Deps, round: nat, ready: seq<string>)
    requires Waiting(deps, depth, remaining, round)
    requires ready == SortedSeq(Ready(remaining))
    ensures forall n :: n in ready ==> n in deps && n !in depth && deps[n] <= depth.Keys
    ensures forall n :: n in ready && round > 0 ==> HasDepAt(deps, depth, n, round - 1)
  {
    forall n | n in ready
      ensures n in deps && n !in depth && deps[n] <= depth.Keys
      ensures round > 0 ==> HasDepAt(deps, depth, n, round - 1)
    {
      assert n in Ready(remaining);
      assert deps[n] <= depth.Keys by {
        var unplaced := deps[n] - depth.Keys;
        assert unplaced == {};
        assert deps[n] == unplaced + deps[n] * depth.Keys;
      }
      if round > 0 { assert WaitsSince(deps, depth, n, round - 1); }
    }
  }

  lemma StillWaiting(deps: Deps, depth: map<string, nat>, remaining: Deps, ready: seq<string>, round: nat, n: string)
    requires n in remaining && n in deps && remaining[n] == deps[n] - depth.Keys
    requires ready == SortedSeq(Ready(remaining)) && n !in ready
    ensures WaitsSince(deps, Place(depth, ready, round), n, round)
  {
    assert n !in Ready(remaining);
    var d :| d in remaining[n];
  }

  lemma WaitingKeeps(deps: Deps, depth: map<string, nat>, remaining: Deps, round: nat, ready: seq<string>)
    requires Waiting(deps, depth, remaining, round)
    requires ready == SortedSeq(Ready(remaining))
    ensures Waiting(deps, Place(depth, ready, round), Strike(remaining, ready), round + 1)
  {
    var left, grown := Strike(remaining, ready), Place(depth, ready, round);
    forall n | n in left
      ensures WaitsSince(deps, grown, n, round)
      ensures left[n] == deps[n] - grown.Keys
    {
      StillWaiting(deps, depth, remaining, ready, round, n);
    }
    assert left.Keys == deps.Keys - grown.Keys by {
      forall n | n in ready ensures n in remaining { assert n in Ready(remaining); }
    }
  }

  lemma DepthGrows(deps: Deps, depth: map<string, nat>, ready: seq<string>, round: nat)
    requires IsDepth(deps, depth) && AllBelow(depth, round)
    requires forall n :: n in ready ==> n in deps && n !in depth && deps[n] <= depth.Keys
    requires forall n :: n in ready && round > 0 ==> HasDepAt(deps, depth, n, round - 1)
    ensures IsDepth(deps, Place(depth, ready, round))
  {
    hide Place, HasDepAt;
    var grown := Place(depth, ready, round);
    forall n | n in depth ensures n in grown && grown[n] == depth[n] {
      PlaceKeeps(depth, ready, round, n);
    }
    forall n | n in ready ensures n in grown && grown[n] == round { PlaceAdds(depth, ready, round, n); }
    forall n, d | n in grown && d in deps[n] ensures d in grown && grown[d] < grown[n] {
      assert n in depth || n in ready;
      assert d in depth;
    }
    forall n | n in grown && grown[n] > 0 ensures HasDepAt(deps, grown, n, grown[n] - 1) {
      assert HasDepAt(deps, depth, n, grown[n] - 1);
      HasDepStays(deps, depth, ready, round, n, grown[n] - 1);
    }
  }

  lemma PlaceKeeps(depth: map<string, nat>, ready: seq<string>, round: nat, n: string)
    requires n in depth && n !in ready
    ensures n in Place(depth, ready, round) && Place(depth, ready, round)[n] == depth[n]
  {}

  lemma PlaceAdds(depth: map<string, nat>, ready: seq<string>, round: nat, n: string)
    requires n in ready
    ensures n in Place(depth, ready, round) && Place(depth, ready, round)[n] == round
  {}

  lemma HasDepStays(deps: Deps, depth: map<string, nat>, ready: seq<string>, round: nat, n: string, k: int)
    requires HasDepAt(deps, depth, n, k) && forall m :: m in ready ==> m !in depth
    ensures HasDepAt(deps, Place(depth, ready, round), n, k)
  {
    var d :| d in deps[n] && d in depth && depth[d] == k;
    PlaceKeeps(depth, ready, round, d);
  }

  lemma OrderGrows(depth: map<string, nat>, order: seq<string>, ready: seq<string>, round: nat)
    requires OrderedBy(depth, order) && AllBelow(depth, round)
    requires Sorted(ready) && forall n :: n in ready ==> n !in depth
    ensures OrderedBy(Place(depth, ready, round), order + ready)
  {
    var grown, all := Place(depth, ready, round), order + ready;
    forall i, j | 0 <= i < j < |all| ensures Before(grown, all[i], all[j]) {
      if j < |order| {
        assert all[i] in order && all[j] in order;
      } else if i < |order| {
        assert all[i] in order && all[j] in ready;
      } else {
        assert all[i] in ready && all[j] in ready;
      }
    }
  }

  /** The first declared name that was not ordered. */
  ghost predicate FirstOutside(nodes: seq<Entry>, s: set<string>, name: string) {
    exists i :: 0 <= i < |nodes| && nodes[i].name == name && name in s &&
      forall k :: 0 <= k < i ==> nodes[k].name !in s
  }

  /** Which outcome a graph gets, in terms of cycles and names only. */
  ghost predicate SortsAs(graph: NodeGraph, r: SortOutcome) {
    var deps := DepsOf(graph.nodes);
    match r
    case Ordered(order) =>
      AllKnown(graph) && Acyclic(deps) && DistinctNames(graph.nodes) && IsKahnOrder(deps, order)
    case Rejected(UnknownReference(node, referenced)) =>
      !AllKnown(graph) && FirstUnknown(graph, node, referenced)
    case Rejected(UnmarkedCycle(node)) =>
      AllKnown(graph) && FirstOutside(graph.nodes, (set n | n in deps && ReachesCycle(deps, n)), node)
    case Panicked =>
      AllKnown(graph) && Acyclic(deps) && !DistinctNames(graph.nodes)
    case _ => false
  }

  /** The first declared name that the rounds left out. */
  method FirstLeftOut(nodes: seq<Entry>, order: seq<string>) returns (i: nat)
    ensures i <= |nodes|
    ensures forall k :: 0 <= k < i ==> nodes[k].name in order
    ensures i < |nodes| ==> nodes[i].name !in order
  {
    i := 0;
    while i < |nodes| && nodes[i].name in order
      invariant i <= |nodes|
      invariant forall k :: 0 <= k < i ==> nodes[k].name in order
    {
      i := i + 1;
    }
  }

  method TopologicalOrder(graph: NodeGraph) returns (r: SortOutcome)
    ensures SortsAs(graph, r)
    ensures r.Ordered? <==> AllKnown(graph) && Acyclic(DepsOf(graph.nodes)) && DistinctNames(graph.nodes)
  {
    var collected := CollectDeps(graph);
    if collected.Err? {
      return Rejected(collected.error);
    }
    var deps := collected.value;
    KnownMeansClosed(graph);
    ghost var depth: map<string, nat>;
    var order, remaining;
    order, remaining, depth := Rounds(deps);
    RoundsDecide(graph, depth, order, remaining.Keys);
    if |order| != |graph.nodes| {
      var i := FirstLeftOut(graph.nodes, order);
      if i == |graph.nodes| {
        // Every name is ordered, so there is no stuck node to name.
        NoneLeftOut(graph.nodes, depth.Keys);
        return Panicked;
      }
      NameSetHas(graph.nodes, i);
      return Rejected(UnmarkedCycle(graph.nodes[i].name));
    }
    return Ordered(order);
  }

  lemma NoneLeftOut(nodes: seq<Entry>, ordered: set<string>)
    requires forall k :: 0 <= k < |nodes| ==> nodes[k].name in ordered
    ensures NameSet(nodes) <= ordered
  {
    forall n | n in NameSet(nodes) ensures n in ordered {
      var i := NameSetFrom(nodes, n);
    }
  }

  /** What the length of the order says once the rounds are over. */
  lemma RoundsDecide(graph: NodeGraph, depth: map<string, nat>, order: seq<string>, stuck: set<string>)
    requires var deps := DepsOf(graph.nodes);
             IsDepth(deps, depth) && OrderedBy(depth, order) && stuck == deps.Keys - depth.Keys && Stuck(deps, stuck)
    ensures var deps := DepsOf(graph.nodes);
            (stuck == set n | n in deps && ReachesCycle(deps, n)) &&
            (stuck == {} <==> Acyclic(deps)) &&
            (|order| == |graph.nodes| <==> stuck == {} && DistinctNames(graph.nodes)) &&
            (stuck == {} ==> IsKahnOrder(deps, order))
  {
    var deps := DepsOf(graph.nodes);
    CycleIsWhatRemains(deps, depth, stuck);
    assert stuck == {} <==> Acyclic(deps) by {
      if stuck != {} { var n :| n in stuck; }
    }
    OrderedDistinct(depth, order);
    DistinctSize(order, depth.Keys);
    SizeOfNames(graph.nodes);
    SubsetSize(depth.Keys, deps.Keys);
    if stuck == {} {
      assert depth.Keys == deps.Keys;
    }
  }

  // ---------------------------------------------------------------- counting

  lemma KnownMeansClosed(graph: NodeGraph)
    requires AllKnown(graph)
    ensures ClosedDeps(DepsOf(graph.nodes))
  {
    forall n, d | n in DepsOf(graph.nodes) && d in DepsOf(graph.nodes)[n] ensures d in DepsOf(graph.nodes) {
      DepsFromEntry(graph.nodes, n, d);
    }
  }

  lemma {:induction false} DepsFromEntry(nodes: seq<Entry>, n: string, d: string)
    requires n in DepsOf(nodes)
    ensures d in DepsOf(nodes)[n] <==> exists e :: e in nodes && e.name == n && d in EntryDeps(e)
  {
    if nodes != [] {
      var e, before := nodes[|nodes| - 1], nodes[..|nodes| - 1];
      assert forall x :: x in nodes <==> x in before || x == e;
      if n !in DepsOf(before) {
        forall x | x in before ensures x.name != n {
          var i :| 0 <= i < |before| && before[i] == x;
          NameSetHas(before, i);
        }
      } else {
        DepsFromEntry(before, n, d);
      }
    }
  }

  /** Node `a` has to wait for `b`: some entry of that name mentions it, and is not a marked loop on itself. */
  ghost predicate WaitsOn(nodes: seq<Entry>, a: string, b: string) {
    exists i :: 0 <= i < |nodes| && nodes[i].name == a && nodes[i].node.input.Some? && nodes[i].node.input.value.Mentions(b) &&
      !(a == b && nodes[i].node.repeatUntil.Some?)
  }

  /** The dependencies sorted by are exactly what the expressions mention, but for marked loops. */
  lemma DepsExactly(nodes: seq<Entry>, a: string, b: string)
    ensures (a in DepsOf(nodes) && b in DepsOf(nodes)[a]) <==> WaitsOn(nodes, a, b)
  {
    if a in DepsOf(nodes) {
      DepsFromEntry(nodes, a, b);
      if e :| e in nodes && e.name == a && b in EntryDeps(e) {
        var i :| 0 <= i < |nodes| && nodes[i] == e;
        e.node.input.value.RefsAreMentions(b);
      }
    }
    if i :| 0 <= i < |nodes| && nodes[i].name == a && nodes[i].node.input.Some? && nodes[i].node.input.value.Mentions(b) &&
            !(a == b && nodes[i].node.repeatUntil.Some?)
    {
      NameSetHas(nodes, i);
      nodes[i].node.input.value.RefsAreMentions(b);
      assert nodes[i] in nodes && b in EntryDeps(nodes[i]);
      DepsFromEntry(nodes, a, b);
    }
  }

  lemma CycleIsWhatRemains(deps: Deps, depth: map<string, nat>, stuck: set<string>)
    requires IsDepth(deps, depth) && stuck == deps.Keys - depth.Keys && Stuck(deps, stuck)
    ensures stuck == set n | n in deps && ReachesCycle(deps, n)
  {
    forall n | n in deps ensures n in stuck <==> ReachesCycle(deps, n) {
      if n in stuck {
        StuckReachesCycle(deps, stuck, n);
      } else {
        DepthMeansNoCycle(deps, depth, n);
      }
    }
  }

  lemma {:induction false} DistinctSize(s: seq<string>, members: set<string>)
    requires forall i, j :: 0 <= i < j < |s| ==> s[i] != s[j]
    requires forall x :: x in s <==> x in members
    ensures |s| == |members|
  {
    if s == [] {
      assert members == {};
    } else {
      var last, front := s[|s| - 1], s[..|s| - 1];
      assert last in members;
      forall x ensures x in front <==> x in members - {last} {
        assert x in s <==> x in front || x == last;
      }
      DistinctSize(front, members - {last});
    }
  }

  lemma SubsetSize(a: set<string>, b: set<string>)
    requires a <= b
    ensures |a| <= |b| && (|a| == |b| ==> a == b)
  {
    assert |b| == |a| + |b - a| by { assert b == a + (b - a); }
    if |a| == |b| { assert b - a == {}; }
  }

  lemma DistinctSnoc(before: seq<Entry>, e: Entry)
    ensures DistinctNames(before + [e]) <==> DistinctNames(before) && e.name !in NameSet(before)
  {
    var nodes := before + [e];
    assert forall i :: 0 <= i < |before| ==> nodes[i] == before[i];
    if e.name in NameSet(before) {
      var i := NameSetFrom(before, e.name);
      assert nodes[i].name == nodes[|before|].name;
    } else if DistinctNames(before) {
      forall i, j | 0 <= i < j < |nodes| ensures nodes[i].name != nodes[j].name {
        NameSetHas(before, i);
      }
    } else {
      var i, j :| 0 <= i < j < |before| && before[i].name == before[j].name;
      assert nodes[i].name == nodes[j].name;
    }
  }

  /** There are as many names as entries exactly when no name is declared twice. */
  lemma {:induction false} SizeOfNames(nodes: seq<Entry>)
    ensures |NameSet(nodes)| <= |nodes|
    ensures |NameSet(nodes)| == |nodes| <==> DistinctNames(nodes)
  {
    if nodes != [] {
      var e, before := nodes[|nodes| - 1], nodes[..|nodes| - 1];
      SizeOfNames(before);
      DistinctSnoc(before, e);
      assert before + [e] == nodes;
    }
  }

  /** With distinct names, one entry alone decides what its name waits for. */
  lemma DepsOfEntry(nodes: seq<Entry>, e: Entry)
    requires DistinctNames(nodes) && e in nodes
    ensures e.name in DepsOf(nodes) && DepsOf(nodes)[e.name] == EntryDeps(e)
  {
    var k :| 0 <= k < |nodes| && nodes[k] == e;
    NameSetHas(nodes, k);
    forall d ensures d in DepsOf(nodes)[e.name] <==> d in EntryDeps(e) {
      DepsFromEntry(nodes, e.name, d);
      forall x | x in nodes && x.name == e.name ensures x == e {
        var i :| 0 <= i < |nodes| && nodes[i] == x;
        var j :| 0 <= j < |nodes| && nodes[j] == e;
      }
    }
  }

  /** Declaring the same nodes in another order does not change the order they run in. */
  lemma DeclarationOrderIrrelevant(g: NodeGraph, h: NodeGraph, s: seq<string>, t: seq<string>)
    requires DistinctNames(g.nodes) && DistinctNames(h.nodes)
    requires forall e :: e in g.nodes <==> e in h.nodes
    requires SortsAs(g, Ordered(s)) && SortsAs(h, Ordered(t))
    ensures s == t
  {
    hide DepsOf, EntryDeps, Acyclic;
    var dg, dh := DepsOf(g.nodes), DepsOf(h.nodes);
    forall n | n in dg ensures n in dh && dg[n] == dh[n] {
      var i := NameSetFrom(g.nodes, n);
      var e := g.nodes[i];
      DepsOfEntry(g.nodes, e);
      DepsOfEntry(h.nodes, e);
    }
    forall n | n in dh ensures n in dg {
      var i := NameSetFrom(h.nodes, n);
      DepsOfEntry(g.nodes, h.nodes[i]);
    }
    assert dg == dh;
    KahnOrderUnique(dg, s, t);
  }

  /** Two nodes under one name are not rejected: the sort panics. */
  lemma DuplicateNamesPanic()
    ensures var node := Node(None, None, None, None, []);
            SortsAs(NodeGraph([Entry("a", node), Entry("a", node)]), Panicked)
  {
    var node := Node(None, None, None, None, []);
    var nodes := [Entry("a", node), Entry("a", node)];
    assert nodes[0].name == nodes[1].name;
    var deps := DepsOf(nodes);
    assert nodes[..1] == [Entry("a", node)];
    forall n | n in deps ensures !ReachesCycle(deps, n) {
      forall d ensures d !in deps[n] { DepsFromEntry(nodes, n, d); }
      forall p | Walk(deps, p) && p[0] == n ensures |p| == 1 {
        assert |p| > 1 ==> Edge(deps, p[0], p[1]);
      }
    }
  }
}
