/** Which nodes run only when a branch decision takes a certain label. */
module Exclusivity {
  import opened Wrappers
  import opened Strings
  import opened Graphs
  import opened TopoSort

  datatype Exclusive = Exclusive(decision: string, label_: string)

  type Marks = map<string, Exclusive>

  // ---------------------------------------------------------------- the algorithm

  /** Seed one decision's targets, each of which must be declared. */
  function SeedLabels(graph: NodeGraph, decision: string, labels: seq<Label>, j: nat, marks: Marks): Result<Marks, DagError>
    requires j <= |labels|
    decreases |labels| - j
  {
    if j == |labels| then Ok(marks)
    else if graph.Get(labels[j].target).None? then Err(UnknownReference(decision, labels[j].target))
    else SeedLabels(graph, decision, labels, j + 1, marks[labels[j].target := Exclusive(decision, labels[j].name)])
  }

  function SeedDecisions(graph: NodeGraph, decisions: seq<Decision>, i: nat, marks: Marks): Result<Marks, DagError>
    requires i <= |decisions|
    decreases |decisions| - i
  {
    if i == |decisions| then Ok(marks)
    else
      match SeedLabels(graph, decisions[i].node, decisions[i].labels, 0, marks)
      case Err(e) => Err(e)
      case Ok(marks') => SeedDecisions(graph, decisions, i + 1, marks')
  }

  datatype Clash = Clash(first: Exclusive, second: Exclusive)

  predicate Clashes(a: Exclusive, b: Exclusive) {
    a.decision == b.decision && a.label_ != b.label_
  }

  /** The first mark among the references, unless a later one belongs to another label of the same decision. */
  function Scan(refs: seq<string>, j: nat, marks: Marks, found: Option<Exclusive>): Result<Option<Exclusive>, Clash>
    requires j <= |refs|
    decreases |refs| - j
  {
    if j == |refs| then Ok(found)
    else if refs[j] !in marks then Scan(refs, j + 1, marks, found)
    else if found.None? then Scan(refs, j + 1, marks, Some(marks[refs[j]]))
    else if Clashes(found.value, marks[refs[j]]) then Err(Clash(found.value, marks[refs[j]]))
    else Scan(refs, j + 1, marks, found)
  }

  function Visit(e: Entry, marks: Marks): Result<Marks, DagError> {
    if e.node.input.None? then Ok(marks)
    else
      match Scan(e.node.input.value.Refs(), 0, marks, None)
      case Err(clash) =>
        Err(ConflictingBranchFanIn(e.name, clash.second.decision, clash.first.label_, clash.second.label_))
      case Ok(found) => if found.Some? then Ok(marks[e.name := found.value]) else Ok(marks)
  }

  /** The rest of one pass over the entries, each seeing the marks left by the ones before it. */
  function PassFrom(nodes: seq<Entry>, i: nat, marks: Marks): (r: Result<Marks, DagError>)
    requires i <= |nodes|
    decreases |nodes| - i
  {
    if i == |nodes| then Ok(marks)
    else
      match Visit(nodes[i], marks)
      case Err(e) => Err(e)
      case Ok(marks') => PassFrom(nodes, i + 1, marks')
  }

  lemma {:induction false} PassAdds(nodes: seq<Entry>, i: nat, marks: Marks)
    requires i <= |nodes| && marks.Keys <= NameSet(nodes)
    ensures var r := PassFrom(nodes, i, marks); r.Ok? ==> marks.Keys <= r.value.Keys <= NameSet(nodes)
    decreases |nodes| - i
  {
    if i < |nodes| {
      NameSetHas(nodes, i);
      var r := Visit(nodes[i], marks);
      if r.Ok? { PassAdds(nodes, i + 1, r.value); }
    }
  }

  /** Passes until one marks no further node. */
  function Propagate(nodes: seq<Entry>, marks: Marks): Result<Marks, DagError>
    requires marks.Keys <= NameSet(nodes)
    decreases NameSet(nodes) - marks.Keys
  {
    PassAdds(nodes, 0, marks);
    match PassFrom(nodes, 0, marks)
    case Err(e) => Err(e)
    case Ok(marks') =>
      if marks'.Keys == marks.Keys then Ok(marks')
      else
        assert NameSet(nodes) - marks'.Keys < NameSet(nodes) - marks.Keys by {
          var n :| n in marks'.Keys && n !in marks.Keys;
          assert n in NameSet(nodes) - marks.Keys;
        }
        Propagate(nodes, marks')
  }

  lemma {:induction false} SeedLabelsKnown(graph: NodeGraph, decision: string, labels: seq<Label>, j: nat, marks: Marks)
    requires j <= |labels| && marks.Keys <= graph.Names()
    ensures var r := SeedLabels(graph, decision, labels, j, marks); r.Ok? ==> r.value.Keys <= graph.Names()
    decreases |labels| - j
  {
    if j < |labels| {
      LookupExactly(graph.nodes, labels[j].target);
      if graph.Get(labels[j].target).Some? {
        SeedLabelsKnown(graph, decision, labels, j + 1, marks[labels[j].target := Exclusive(decision, labels[j].name)]);
      }
    }
  }

  lemma {:induction false} SeedsKnown(graph: NodeGraph, decisions: seq<Decision>, i: nat, marks: Marks)
    requires i <= |decisions| && marks.Keys <= graph.Names()
    ensures var r := SeedDecisions(graph, decisions, i, marks); r.Ok? ==> r.value.Keys <= graph.Names()
    decreases |decisions| - i
  {
    if i < |decisions| {
      SeedLabelsKnown(graph, decisions[i].node, decisions[i].labels, 0, marks);
      var r := SeedLabels(graph, decisions[i].node, decisions[i].labels, 0, marks);
      if r.Ok? { SeedsKnown(graph, decisions, i + 1, r.value); }
    }
  }

  /** What `compute_branch_exclusivity` returns. */
  function BranchExclusivity(graph: NodeGraph, branches: Branches): Result<Marks, DagError> {
    SeedsKnown(graph, branches.decisions, 0, map[]);
    match SeedDecisions(graph, branches.decisions, 0, map[])
    case Err(e) => Err(e)
    case Ok(seeds) => Propagate(graph.nodes, seeds)
  }

  /** One pass in place; `changed` says whether a node was marked that was not before. */
  method Pass(nodes: seq<Entry>, start: Marks) returns (r: Result<Marks, DagError>, changed: bool)
    requires start.Keys <= NameSet(nodes)
    ensures r == PassFrom(nodes, 0, start)
    ensures r.Ok? ==> start.Keys <= r.value.Keys <= NameSet(nodes)
    ensures r.Ok? ==> (changed <==> r.value.Keys != start.Keys)
  {
    var exclusiveTo := start;
    changed := false;
    for i := 0 to |nodes|
      invariant PassFrom(nodes, 0, start) == PassFrom(nodes, i, exclusiveTo)
      invariant start.Keys <= exclusiveTo.Keys <= NameSet(nodes)
      invariant changed <==> exclusiveTo.Keys != start.Keys
    {
      NameSetHas(nodes, i);
      if nodes[i].node.input.Some? {
        var refs := nodes[i].node.input.value.Refs();
        var found: Option<Exclusive> := None;
        for j := 0 to |refs|
          invariant Scan(refs, 0, exclusiveTo, None) == Scan(refs, j, exclusiveTo, found)
        {
          if refs[j] in exclusiveTo {
            var ex := exclusiveTo[refs[j]];
            if found.None? {
              found := Some(ex);
            } else if found.value.decision == ex.decision && found.value.label_ != ex.label_ {
              r := Err(ConflictingBranchFanIn(nodes[i].name, ex.decision, found.value.label_, ex.label_));
              return;
            }
          }
        }
        if found.Some? {
          if nodes[i].name !in exclusiveTo {
            changed := true;
          }
          exclusiveTo := exclusiveTo[nodes[i].name := found.value];
        }
      }
    }
    r := Ok(exclusiveTo);
  }

  method ComputeBranchExclusivity(graph: NodeGraph, branches: Branches)
    returns (r: Result<Marks, DagError>, ghost passes: nat)
    ensures r == BranchExclusivity(graph, branches)
    ensures passes <= |graph.Names()| + 1
  {
    var exclusiveTo: Marks := map[];
    passes := 0;
    for i := 0 to |branches.decisions|
      invariant SeedDecisions(graph, branches.decisions, 0, map[]) == SeedDecisions(graph, branches.decisions, i, exclusiveTo)
    {
      var decision := branches.decisions[i];
      ghost var before := exclusiveTo;
      for j := 0 to |decision.labels|
        invariant SeedLabels(graph, decision.node, decision.labels, 0, before)
               == SeedLabels(graph, decision.node, decision.labels, j, exclusiveTo)
      {
        var target := decision.labels[j].target;
        if graph.Get(target).None? {
          return Err(UnknownReference(decision.node, target)), 0;
        }
        exclusiveTo := exclusiveTo[target := Exclusive(decision.node, decision.labels[j].name)];
      }
    }
    SeedsKnown(graph, branches.decisions, 0, map[]);
    var changed := true;
    while changed
      invariant exclusiveTo.Keys <= graph.Names()
      invariant changed ==> BranchExclusivity(graph, branches) == Propagate(graph.nodes, exclusiveTo)
      invariant !changed ==> BranchExclusivity(graph, branches) == Ok(exclusiveTo)
      invariant changed ==> passes + |graph.Names() - exclusiveTo.Keys| <= |graph.Names()|
      invariant passes <= |graph.Names()| + 1
      decreases changed, graph.Names() - exclusiveTo.Keys
    {
      ghost var before := exclusiveTo;
      assert passes <= |graph.Names()|;
      r, changed := Pass(graph.nodes, exclusiveTo);
      passes := passes + 1;
      if r.Err? {
        return;
      }
      exclusiveTo := r.value;
      if changed {
        FewerLeft(graph.Names(), before.Keys, exclusiveTo.Keys);
      }
    }
    r := Ok(exclusiveTo);
  }

  lemma FewerLeft(all: set<string>, before: set<string>, after: set<string>)
    requires before <= after <= all && before != after
    ensures all - after < all - before && |all - after| < |all - before|
  {
    var n :| n in after && n !in before;
    assert n in all - before;
    assert all - before == (all - after) + (after - before);
    assert n in after - before;
  }

  // ---------------------------------------------------------------- what a mark should mean

  ghost predicate IsTarget(branches: Branches, name: string, ex: Exclusive) {
    exists i, j :: 0 <= i < |branches.decisions| && 0 <= j < |branches.decisions[i].labels| &&
      branches.decisions[i].labels[j] == Label(ex.label_, name) && branches.decisions[i].node == ex.decision
  }

  /** Node `a` needs the output of `b`. */
  ghost predicate Feeds(nodes: seq<Entry>, a: string, b: string) {
    exists i :: 0 <= i < |nodes| && nodes[i].name == a && nodes[i].node.input.Some? && b in nodes[i].node.input.value.Refs()
  }

  ghost predicate FeedPath(nodes: seq<Entry>, p: seq<string>) {
    p != [] && forall i, j :: 0 <= i < |p| && 0 <= j < |p| && j == i + 1 ==> Feeds(nodes, p[i], p[j])
  }

  /** `p` leads from `name` through inputs to a target of `ex`. */
  ghost predicate LeadsTo(graph: NodeGraph, branches: Branches, p: seq<string>, name: string, ex: Exclusive) {
    FeedPath(graph.nodes, p) && p[0] == name && IsTarget(branches, p[|p| - 1], ex)
  }

  /** The node is a target of the label, or needs one through its inputs. */
  ghost predicate Reaches(graph: NodeGraph, branches: Branches, name: string, ex: Exclusive) {
    exists p :: LeadsTo(graph, branches, p, name, ex)
  }

  lemma TargetReaches(graph: NodeGraph, branches: Branches, name: string, ex: Exclusive)
    requires IsTarget(branches, name, ex)
    ensures Reaches(graph, branches, name, ex)
  {
    assert LeadsTo(graph, branches, [name], name, ex);
  }

  lemma FeedReaches(graph: NodeGraph, branches: Branches, a: string, b: string, ex: Exclusive)
    requires Feeds(graph.nodes, a, b) && Reaches(graph, branches, b, ex)
    ensures Reaches(graph, branches, a, ex)
  {
    var p :| LeadsTo(graph, branches, p, b, ex);
    assert LeadsTo(graph, branches, [a] + p, a, ex);
  }

  /** Unless it is a target itself, a node reaches a label through another node it needs. */
  lemma {:induction false} ReachesThrough(graph: NodeGraph, branches: Branches, p: seq<string>, a: string, ex: Exclusive) returns (b: string)
    requires LeadsTo(graph, branches, p, a, ex) && !IsTarget(branches, a, ex)
    ensures b != a && Feeds(graph.nodes, a, b) && Reaches(graph, branches, b, ex)
    decreases |p|
  {
    assert |p| > 1;
    var q := p[1..];
    assert Feeds(graph.nodes, p[0], p[1]);
    assert LeadsTo(graph, branches, q, p[1], ex);
    if p[1] == a {
      b := ReachesThrough(graph, branches, q, a, ex);
    } else {
      b := p[1];
    }
  }

  // ---------------------------------------------------------------- every mark is truthful

  ghost predicate Truthful(graph: NodeGraph, branches: Branches, marks: Marks) {
    forall n {:trigger Reaches(graph, branches, n, marks[n])} :: n in marks ==> Reaches(graph, branches, n, marks[n])
  }

  /** Every target is marked. */
  ghost predicate Seeded(branches: Branches, keys: set<string>) {
    forall n, ex :: IsTarget(branches, n, ex) ==> n in keys
  }

  lemma {:induction false} SeedLabelsTruthful(graph: NodeGraph, branches: Branches, i: nat, j: nat, marks: Marks)
    requires i < |branches.decisions| && j <= |branches.decisions[i].labels|
    requires Truthful(graph, branches, marks)
    ensures var d := branches.decisions[i];
            var r := SeedLabels(graph, d.node, d.labels, j, marks);
            r.Ok? ==> Truthful(graph, branches, r.value) && marks.Keys <= r.value.Keys &&
                      forall k :: j <= k < |d.labels| ==> d.labels[k].target in r.value
    ensures var d := branches.decisions[i];
            var r := SeedLabels(graph, d.node, d.labels, j, marks);
            r.Err? <==> exists k :: j <= k < |d.labels| && d.labels[k].target !in graph.Names()
    decreases |branches.decisions[i].labels| - j
  {
    var d := branches.decisions[i];
    if j < |d.labels| {
      var target, ex := d.labels[j].target, Exclusive(d.node, d.labels[j].name);
      LookupExactly(graph.nodes, target);
      assert d.labels[j] == Label(ex.label_, target);
      TargetReaches(graph, branches, target, ex);
      if graph.Get(target).Some? {
        SeedLabelsTruthful(graph, branches, i, j + 1, marks[target := ex]);
      }
    }
  }

  ghost predicate UnknownTarget(graph: NodeGraph, branches: Branches, i: nat) {
    i < |branches.decisions| &&
    exists k :: 0 <= k < |branches.decisions[i].labels| && branches.decisions[i].labels[k].target !in graph.Names()
  }

  lemma {:induction false} SeedsTruthful(graph: NodeGraph, branches: Branches, i: nat, marks: Marks)
    requires i <= |branches.decisions|
    requires Truthful(graph, branches, marks)
    ensures var r := SeedDecisions(graph, branches.decisions, i, marks);
            r.Ok? ==> Truthful(graph, branches, r.value) && marks.Keys <= r.value.Keys &&
                      forall k, j :: i <= k < |branches.decisions| && 0 <= j < |branches.decisions[k].labels| ==>
                        branches.decisions[k].labels[j].target in r.value
    ensures SeedDecisions(graph, branches.decisions, i, marks).Err? <==>
            exists k :: i <= k && UnknownTarget(graph, branches, k)
    decreases |branches.decisions| - i
  {
    if i < |branches.decisions| {
      SeedLabelsTruthful(graph, branches, i, 0, marks);
      var r := SeedLabels(graph, branches.decisions[i].node, branches.decisions[i].labels, 0, marks);
      assert r.Err? <==> UnknownTarget(graph, branches, i);
      if r.Ok? { SeedsTruthful(graph, branches, i + 1, r.value); }
    }
  }

  lemma {:induction false} ScanFrom(refs: seq<string>, j: nat, marks: Marks, found: Option<Exclusive>)
    requires j <= |refs|
    ensures match Scan(refs, j, marks, found)
            case Ok(Some(ex)) => found == Some(ex) || exists k :: j <= k < |refs| && refs[k] in marks && marks[refs[k]] == ex
            case Ok(None) => found.None? && forall k :: j <= k < |refs| ==> refs[k] !in marks
            case Err(clash) =>
              Clashes(clash.first, clash.second) &&
              (exists k :: j <= k < |refs| && refs[k] in marks && marks[refs[k]] == clash.second) &&
              (found == Some(clash.first) || exists k :: j <= k < |refs| && refs[k] in marks && marks[refs[k]] == clash.first)
    decreases |refs| - j
  {
    if j < |refs| {
      if refs[j] !in marks {
        ScanFrom(refs, j + 1, marks, found);
      } else if found.None? {
        ScanFrom(refs, j + 1, marks, Some(marks[refs[j]]));
      } else if !Clashes(found.value, marks[refs[j]]) {
        ScanFrom(refs, j + 1, marks, found);
      }
    }
  }

  /** A clash reported for a node: it needs two labels of one decision. */
  ghost predicate Torn(graph: NodeGraph, branches: Branches, name: string, decision: string, a: string, b: string) {
    a != b && Reaches(graph, branches, name, Exclusive(decision, a)) && Reaches(graph, branches, name, Exclusive(decision, b))
  }

  lemma VisitTruthful(graph: NodeGraph, branches: Branches, i: nat, marks: Marks)
    requires i < |graph.nodes| && Truthful(graph, branches, marks)
    ensures match Visit(graph.nodes[i], marks)
            case Ok(marks') => Truthful(graph, branches, marks') && marks.Keys <= marks'.Keys
            case Err(ConflictingBranchFanIn(n, d, a, b)) => Torn(graph, branches, n, d, a, b)
            case Err(_) => false
  {
    var e := graph.nodes[i];
    if e.node.input.Some? {
      var refs := e.node.input.value.Refs();
      ScanFrom(refs, 0, marks, None);
      forall k | 0 <= k < |refs| && refs[k] in marks ensures Reaches(graph, branches, e.name, marks[refs[k]]) {
        assert Feeds(graph.nodes, e.name, refs[k]);
        FeedReaches(graph, branches, e.name, refs[k], marks[refs[k]]);
      }
    }
  }

  lemma {:induction false} PassTruthful(graph: NodeGraph, branches: Branches, i: nat, marks: Marks)
    requires i <= |graph.nodes| && Truthful(graph, branches, marks)
    ensures match PassFrom(graph.nodes, i, marks)
            case Ok(marks') => Truthful(graph, branches, marks') && marks.Keys <= marks'.Keys
            case Err(ConflictingBranchFanIn(n, d, a, b)) => Torn(graph, branches, n, d, a, b)
            case Err(_) => false
    decreases |graph.nodes| - i
  {
    if i < |graph.nodes| {
      VisitTruthful(graph, branches, i, marks);
      var r := Visit(graph.nodes[i], marks);
      if r.Ok? { PassTruthful(graph, branches, i + 1, r.value); }
    }
  }

  // ---------------------------------------------------------------- what the last pass saw

  /** The state of the marks when a pass came to entry `i`. */
  function MarksAt(nodes: seq<Entry>, i: nat, marks: Marks): Marks
    requires i <= |nodes|
    decreases i
  {
    if i == 0 then marks
    else
      var before := MarksAt(nodes, i - 1, marks);
      var r := Visit(nodes[i - 1], before);
      if r.Ok? then r.value else before
  }

  lemma {:induction false} MarksAtPass(nodes: seq<Entry>, i: nat, marks: Marks)
    requires i <= |nodes| && PassFrom(nodes, 0, marks).Ok?
    ensures PassFrom(nodes, i, MarksAt(nodes, i, marks)) == PassFrom(nodes, 0, marks)
    ensures i < |nodes| ==> Visit(nodes[i], MarksAt(nodes, i, marks)).Ok?
    decreases i
  {
    if i > 0 { MarksAtPass(nodes, i - 1, marks); }
  }

  lemma {:induction false} MarksAtTruthful(graph: NodeGraph, branches: Branches, i: nat, marks: Marks)
    requires i <= |graph.nodes| && Truthful(graph, branches, marks)
    ensures Truthful(graph, branches, MarksAt(graph.nodes, i, marks)) && marks.Keys <= MarksAt(graph.nodes, i, marks).Keys
    decreases i
  {
    if i > 0 {
      MarksAtTruthful(graph, branches, i - 1, marks);
      VisitTruthful(graph, branches, i - 1, MarksAt(graph.nodes, i - 1, marks));
    }
  }

  /** A pass that adds no key leaves the marked nodes closed under "needs a marked node". */
  lemma LastPassClosed(graph: NodeGraph, branches: Branches, marks: Marks, a: string, b: string)
    requires Truthful(graph, branches, marks)
    requires PassFrom(graph.nodes, 0, marks).Ok? && PassFrom(graph.nodes, 0, marks).value.Keys == marks.Keys
    requires Feeds(graph.nodes, a, b) && b in marks
    ensures a in marks
  {
    var i :| 0 <= i < |graph.nodes| && graph.nodes[i].name == a && graph.nodes[i].node.input.Some? && b in graph.nodes[i].node.input.value.Refs();
    var here := MarksAt(graph.nodes, i, marks);
    MarksAtPass(graph.nodes, i, marks);
    MarksAtTruthful(graph, branches, i, marks);
    var refs := graph.nodes[i].node.input.value.Refs();
    ScanFrom(refs, 0, here, None);
    assert b in here;
    var after := Visit(graph.nodes[i], here).value;
    assert a in after;
    MarksAtTruthful(graph, branches, i, marks);
    VisitTruthful(graph, branches, i, here);
    PassTruthful(graph, branches, i + 1, after);
  }

  lemma {:induction false} ReachersMarked(graph: NodeGraph, branches: Branches, marks: Marks, p: seq<string>, name: string, ex: Exclusive)
    requires Truthful(graph, branches, marks) && Seeded(branches, marks.Keys)
    requires PassFrom(graph.nodes, 0, marks).Ok? && PassFrom(graph.nodes, 0, marks).value.Keys == marks.Keys
    requires LeadsTo(graph, branches, p, name, ex)
    ensures name in marks
    decreases |p|
  {
    if |p| > 1 {
      assert Feeds(graph.nodes, p[0], p[1]);
      assert LeadsTo(graph, branches, p[1..], p[1], ex);
      ReachersMarked(graph, branches, marks, p[1..], p[1], ex);
      LastPassClosed(graph, branches, marks, name, p[1]);
    }
  }

  // ---------------------------------------------------------------- exactness

  ghost predicate OnlyReaches(graph: NodeGraph, branches: Branches, name: string, ex: Exclusive) {
    Reaches(graph, branches, name, ex) && forall x :: Reaches(graph, branches, name, x) ==> x == ex
  }

  /**
   The hypotheses under which marks are exact: a target's only label, through itself or
   through its inputs, is the one it is declared under, and no node depends on two decisions.
   */
  ghost predicate TargetsAlone(graph: NodeGraph, branches: Branches) {
    forall n, ex, x :: IsTarget(branches, n, ex) && Reaches(graph, branches, n, x) ==> x == ex
  }

  ghost predicate DecisionsApart(graph: NodeGraph, branches: Branches) {
    forall n, x, y :: Reaches(graph, branches, n, x) && Reaches(graph, branches, n, y) ==> x.decision == y.decision
  }

  lemma {:induction false} ScanAgrees(refs: seq<string>, j: nat, marks: Marks, found: Option<Exclusive>, decision: string, k: nat)
    requires j <= k < |refs| && refs[k] in marks
    requires forall i :: j <= i < |refs| && refs[i] in marks ==> marks[refs[i]].decision == decision
    requires found.Some? ==> found.value.decision == decision
    requires Scan(refs, j, marks, found).Ok?
    ensures Scan(refs, j, marks, found) == Ok(Some(marks[refs[k]]))
    decreases |refs| - j
  {
    if j == k {
      var found' := if found.None? then Some(marks[refs[k]]) else found;
      ScanKeeps(refs, j + 1, marks, found');
    } else if refs[j] in marks && found.None? {
      ScanAgrees(refs, j + 1, marks, Some(marks[refs[j]]), decision, k);
    } else {
      ScanAgrees(refs, j + 1, marks, found, decision, k);
    }
  }

  lemma {:induction false} ScanKeeps(refs: seq<string>, j: nat, marks: Marks, found: Option<Exclusive>)
    requires j <= |refs| && found.Some? && Scan(refs, j, marks, found).Ok?
    ensures Scan(refs, j, marks, found) == Ok(found)
    decreases |refs| - j
  {
    if j < |refs| { ScanKeeps(refs, j + 1, marks, found); }
  }

  /** Two nodes that one entry needs and that have one label each have the same label. */
  lemma FeedersAgree(graph: NodeGraph, branches: Branches, marks: Marks, a: string, b: string, c: string, x: Exclusive, y: Exclusive)
    requires DecisionsApart(graph, branches) && DistinctNames(graph.nodes)
    requires Truthful(graph, branches, marks) && Seeded(branches, marks.Keys)
    requires PassFrom(graph.nodes, 0, marks).Ok? && PassFrom(graph.nodes, 0, marks).value.Keys == marks.Keys
    requires Feeds(graph.nodes, a, b) && OnlyReaches(graph, branches, b, x)
    requires Feeds(graph.nodes, a, c) && OnlyReaches(graph, branches, c, y)
    ensures x == y
  {
    var i :| 0 <= i < |graph.nodes| && graph.nodes[i].name == a && graph.nodes[i].node.input.Some? && b in graph.nodes[i].node.input.value.Refs();
    var k :| 0 <= k < |graph.nodes| && graph.nodes[k].name == a && graph.nodes[k].node.input.Some? && c in graph.nodes[k].node.input.value.Refs();
    assert i == k;
    var p :| LeadsTo(graph, branches, p, b, x);
    ReachersMarked(graph, branches, marks, p, b, x);
    var q :| LeadsTo(graph, branches, q, c, y);
    ReachersMarked(graph, branches, marks, q, c, y);
    var refs, here := graph.nodes[i].node.input.value.Refs(), MarksAt(graph.nodes, i, marks);
    MarksAtPass(graph.nodes, i, marks);
    MarksAtTruthful(graph, branches, i, marks);
    assert Reaches(graph, branches, b, here[b]) && Reaches(graph, branches, c, here[c]);
    FeedReaches(graph, branches, a, b, x);
    forall m | 0 <= m < |refs| && refs[m] in here ensures here[refs[m]].decision == x.decision {
      assert Feeds(graph.nodes, a, refs[m]);
      FeedReaches(graph, branches, a, refs[m], here[refs[m]]);
    }
    var j :| 0 <= j < |refs| && refs[j] == b;
    var l :| 0 <= l < |refs| && refs[l] == c;
    ScanAgrees(refs, 0, here, None, x.decision, j);
    ScanAgrees(refs, 0, here, None, x.decision, l);
  }

  /** Once a last pass went through without a clash, no node reaches two labels. */
  lemma {:induction false} NoneTorn(graph: NodeGraph, branches: Branches, marks: Marks, depth: map<string, nat>, n: string, x: Exclusive, y: Exclusive)
    requires TargetsAlone(graph, branches) && DecisionsApart(graph, branches) && DistinctNames(graph.nodes)
    requires Truthful(graph, branches, marks) && Seeded(branches, marks.Keys)
    requires PassFrom(graph.nodes, 0, marks).Ok? && PassFrom(graph.nodes, 0, marks).value.Keys == marks.Keys
    requires IsDepth(DepsOf(graph.nodes), depth) && depth.Keys == NameSet(graph.nodes) && AllKnown(graph)
    requires n in depth && Reaches(graph, branches, n, x) && Reaches(graph, branches, n, y)
    ensures x == y
    decreases depth[n]
  {
    if IsTarget(branches, n, x) || IsTarget(branches, n, y) {
      return;
    }
    var p :| LeadsTo(graph, branches, p, n, x);
    var b := ReachesThrough(graph, branches, p, n, x);
    var q :| LeadsTo(graph, branches, q, n, y);
    var c := ReachesThrough(graph, branches, q, n, y);
    FeederShallower(graph, depth, n, b);
    FeederShallower(graph, depth, n, c);
    forall z | Reaches(graph, branches, b, z) ensures z == x {
      NoneTorn(graph, branches, marks, depth, b, z, x);
    }
    forall z | Reaches(graph, branches, c, z) ensures z == y {
      NoneTorn(graph, branches, marks, depth, c, z, y);
    }
    FeedersAgree(graph, branches, marks, n, b, c, x, y);
  }

  /** A node needed by another is shallower, unless it is the same one looping on itself. */
  lemma FeederShallower(graph: NodeGraph, depth: map<string, nat>, a: string, b: string)
    requires IsDepth(DepsOf(graph.nodes), depth) && depth.Keys == NameSet(graph.nodes)
    requires DistinctNames(graph.nodes) && Feeds(graph.nodes, a, b) && a != b
    ensures a in depth && b in depth && depth[b] < depth[a]
  {
    var i :| 0 <= i < |graph.nodes| && graph.nodes[i].name == a && graph.nodes[i].node.input.Some? && b in graph.nodes[i].node.input.value.Refs();
    hide NameSet, DepsOf;
    NameSetHas(graph.nodes, i);
    DepsOfEntry(graph.nodes, graph.nodes[i]);
    assert b in EntryDeps(graph.nodes[i]);
  }

  /** The marks are exactly "reaches a target of this label through inputs". */
  ghost predicate ExactMarks(graph: NodeGraph, branches: Branches, marks: Marks) {
    && marks.Keys <= graph.Names()
    && forall n, ex :: Reaches(graph, branches, n, ex) <==> n in marks && marks[n] == ex
  }

  ghost predicate SomeTorn(graph: NodeGraph, branches: Branches) {
    exists n, d, a, b :: Torn(graph, branches, n, d, a, b)
  }

  lemma {:induction false} PropagateExact(graph: NodeGraph, branches: Branches, marks: Marks, depth: map<string, nat>)
    requires TargetsAlone(graph, branches) && DecisionsApart(graph, branches) && DistinctNames(graph.nodes)
    requires Truthful(graph, branches, marks) && Seeded(branches, marks.Keys) && marks.Keys <= graph.Names()
    requires IsDepth(DepsOf(graph.nodes), depth) && depth.Keys == NameSet(graph.nodes) && AllKnown(graph)
    ensures match Propagate(graph.nodes, marks)
            case Ok(final) => ExactMarks(graph, branches, final) && !SomeTorn(graph, branches)
            case Err(ConflictingBranchFanIn(n, d, a, b)) => Torn(graph, branches, n, d, a, b)
            case Err(_) => false
    decreases NameSet(graph.nodes) - marks.Keys
  {
    PassTruthful(graph, branches, 0, marks);
    PassAdds(graph.nodes, 0, marks);
    var r := PassFrom(graph.nodes, 0, marks);
    if r.Ok? {
      if r.value.Keys == marks.Keys {
        LastPassExact(graph, branches, marks, depth);
      } else {
        FewerLeft(graph.Names(), marks.Keys, r.value.Keys);
        PropagateExact(graph, branches, r.value, depth);
      }
    }
  }

  lemma LastPassExact(graph: NodeGraph, branches: Branches, marks: Marks, depth: map<string, nat>)
    requires TargetsAlone(graph, branches) && DecisionsApart(graph, branches) && DistinctNames(graph.nodes)
    requires Truthful(graph, branches, marks) && Seeded(branches, marks.Keys) && marks.Keys <= graph.Names()
    requires IsDepth(DepsOf(graph.nodes), depth) && depth.Keys == NameSet(graph.nodes) && AllKnown(graph)
    requires PassFrom(graph.nodes, 0, marks).Ok? && PassFrom(graph.nodes, 0, marks).value.Keys == marks.Keys
    ensures ExactMarks(graph, branches, PassFrom(graph.nodes, 0, marks).value) && !SomeTorn(graph, branches)
  {
    var final := PassFrom(graph.nodes, 0, marks).value;
    PassTruthful(graph, branches, 0, marks);
    forall n, x, y | Reaches(graph, branches, n, x) && Reaches(graph, branches, n, y) ensures n in marks && x == y {
      var p :| LeadsTo(graph, branches, p, n, x);
      ReachersMarked(graph, branches, marks, p, n, x);
      NoneTorn(graph, branches, marks, depth, n, x, y);
    }
    forall n, ex ensures Reaches(graph, branches, n, ex) <==> n in final && final[n] == ex {
      if n in final { assert Reaches(graph, branches, n, final[n]); }
    }
    forall n, d, a, b ensures !Torn(graph, branches, n, d, a, b) {}
  }

  /**
   After a successful sort, with targets alone and decisions apart: the check fails
   exactly when a target is undeclared or some node needs two labels of one decision,
   and otherwise marks exactly the nodes that reach each label.
   */
  lemma ExclusivityExactly(graph: NodeGraph, branches: Branches, order: seq<string>)
    requires SortsAs(graph, Ordered(order))
    requires TargetsAlone(graph, branches) && DecisionsApart(graph, branches)
    ensures var r := BranchExclusivity(graph, branches);
            (r.Err? <==> SomeTorn(graph, branches) || exists k :: UnknownTarget(graph, branches, k)) &&
            (r.Ok? ==> ExactMarks(graph, branches, r.value))
  {
    var deps := DepsOf(graph.nodes);
    var depth :| IsDepth(deps, depth) && depth.Keys == deps.Keys && OrderedBy(depth, order);
    SeedsTruthful(graph, branches, 0, map[]);
    SeedsKnown(graph, branches.decisions, 0, map[]);
    var seeds := SeedDecisions(graph, branches.decisions, 0, map[]);
    assert seeds.Err? <==> exists k :: UnknownTarget(graph, branches, k) by {
      if k :| UnknownTarget(graph, branches, k) { assert 0 <= k; }
    }
    if seeds.Ok? {
      PropagateExact(graph, branches, seeds.value, depth);
    }
  }

  /** No node needs two labels, of one decision or of two. */
  ghost predicate OneLabelEach(graph: NodeGraph, branches: Branches) {
    forall n, x, y :: Reaches(graph, branches, n, x) && Reaches(graph, branches, n, y) ==> x == y
  }

  /**
   The exact condition, for every graph that sorts: the check succeeds with marks that say
   precisely which labels each node needs if and only if no node needs two and every target is
   declared.
   */
  lemma MarksExactly(graph: NodeGraph, branches: Branches, order: seq<string>)
    requires SortsAs(graph, Ordered(order))
    ensures var r := BranchExclusivity(graph, branches);
            r.Ok? && ExactMarks(graph, branches, r.value) <==>
            OneLabelEach(graph, branches) && !exists k :: UnknownTarget(graph, branches, k)
  {
    var r := BranchExclusivity(graph, branches);
    SeedsTruthful(graph, branches, 0, map[]);
    if OneLabelEach(graph, branches) {
      forall n, ex, x | IsTarget(branches, n, ex) && Reaches(graph, branches, n, x) ensures x == ex {
        TargetReaches(graph, branches, n, ex);
      }
      ExclusivityExactly(graph, branches, order);
    }
  }

  // ---------------------------------------------------------------- what any marks mean

  lemma {:induction false} PropagateTruthful(graph: NodeGraph, branches: Branches, marks: Marks)
    requires Truthful(graph, branches, marks) && marks.Keys <= NameSet(graph.nodes)
    ensures match Propagate(graph.nodes, marks)
            case Ok(final) => Truthful(graph, branches, final) && marks.Keys <= final.Keys
            case Err(ConflictingBranchFanIn(n, d, a, b)) => Torn(graph, branches, n, d, a, b)
            case Err(_) => false
    decreases NameSet(graph.nodes) - marks.Keys
  {
    PassTruthful(graph, branches, 0, marks);
    PassAdds(graph.nodes, 0, marks);
    var r := PassFrom(graph.nodes, 0, marks);
    if r.Ok? && r.value.Keys != marks.Keys {
      FewerLeft(graph.Names(), marks.Keys, r.value.Keys);
      PropagateTruthful(graph, branches, r.value);
    }
  }

  /** Whatever the graph, a mark that comes out is a label the node needs, and every target has one. */
  lemma MarksAreTruthful(graph: NodeGraph, branches: Branches)
    ensures var r := BranchExclusivity(graph, branches);
            r.Ok? ==> Truthful(graph, branches, r.value) && Seeded(branches, r.value.Keys)
  {
    SeedsTruthful(graph, branches, 0, map[]);
    SeedsKnown(graph, branches.decisions, 0, map[]);
    var seeds := SeedDecisions(graph, branches.decisions, 0, map[]);
    if seeds.Ok? {
      PropagateTruthful(graph, branches, seeds.value);
    }
  }

  /** The decision has a label whose target is no node of the graph. */
  ghost predicate UndeclaredTarget(graph: NodeGraph, branches: Branches, decision: string, target: string) {
    target !in graph.Names() &&
    exists i, j :: 0 <= i < |branches.decisions| && 0 <= j < |branches.decisions[i].labels| &&
      branches.decisions[i].node == decision && branches.decisions[i].labels[j].target == target
  }

  lemma {:induction false} SeedLabelsRefuse(graph: NodeGraph, decision: string, labels: seq<Label>, j: nat, marks: Marks)
    requires j <= |labels|
    ensures match SeedLabels(graph, decision, labels, j, marks)
            case Err(UnknownReference(d, t)) => d == decision && t !in graph.Names() && exists k :: j <= k < |labels| && labels[k].target == t
            case Err(_) => false
            case Ok(_) => true
    decreases |labels| - j
  {
    if j < |labels| {
      LookupExactly(graph.nodes, labels[j].target);
      SeedLabelsRefuse(graph, decision, labels, j + 1, marks[labels[j].target := Exclusive(decision, labels[j].name)]);
    }
  }

  lemma {:induction false} SeedsRefuse(graph: NodeGraph, branches: Branches, i: nat, marks: Marks)
    requires i <= |branches.decisions|
    ensures match SeedDecisions(graph, branches.decisions, i, marks)
            case Err(UnknownReference(d, t)) => UndeclaredTarget(graph, branches, d, t)
            case Err(_) => false
            case Ok(_) => true
    decreases |branches.decisions| - i
  {
    if i < |branches.decisions| {
      var d := branches.decisions[i];
      SeedLabelsRefuse(graph, d.node, d.labels, 0, marks);
      var r := SeedLabels(graph, d.node, d.labels, 0, marks);
      if r.Ok? { SeedsRefuse(graph, branches, i + 1, r.value); }
    }
  }

  /** Whatever the graph, an error that is reported is real: an undeclared target, or a node needing the two labels named. */
  lemma ErrorsAreReal(graph: NodeGraph, branches: Branches)
    ensures match BranchExclusivity(graph, branches)
            case Err(UnknownReference(d, t)) => UndeclaredTarget(graph, branches, d, t)
            case Err(ConflictingBranchFanIn(n, d, a, b)) => Torn(graph, branches, n, d, a, b)
            case Err(_) => false
            case Ok(_) => true
  {
    hide Torn, Truthful, UndeclaredTarget, UnknownTarget;
    SeedsRefuse(graph, branches, 0, map[]);
    NothingIsTruthful(graph, branches);
    SeedsTruthful(graph, branches, 0, map[]);
    SeedsKnown(graph, branches.decisions, 0, map[]);
    var seeds := SeedDecisions(graph, branches.decisions, 0, map[]);
    if seeds.Ok? {
      PropagateTruthful(graph, branches, seeds.value);
    }
  }

  lemma NothingIsTruthful(graph: NodeGraph, branches: Branches)
    ensures Truthful(graph, branches, map[])
  {}

  /** A target with no label but its own keeps it. */
  lemma AloneKeepsItsMark(graph: NodeGraph, branches: Branches, marks: Marks, target: string, ex: Exclusive)
    requires Truthful(graph, branches, marks) && Seeded(branches, marks.Keys)
    requires TargetsAlone(graph, branches) && IsTarget(branches, target, ex)
    ensures target in marks && marks[target] == ex
  {
    assert Reaches(graph, branches, target, marks[target]);
  }

  /** The labels a decision node is declared with. */
  ghost predicate Declares(branches: Branches, decision: string, name: string) {
    exists i, j :: 0 <= i < |branches.decisions| && 0 <= j < |branches.decisions[i].labels| &&
      branches.decisions[i].node == decision && branches.decisions[i].labels[j].name == name
  }

  /** The labels of the decision this node makes, if it makes one, as far as some mark names them. */
  function LabelsOf(exclusiveTo: Marks, node: string): set<string> {
    set n | n in exclusiveTo && exclusiveTo[n].decision == node :: exclusiveTo[n].label_
  }

  lemma MarkedIsDeclared(graph: NodeGraph, branches: Branches, marks: Marks, decision: string, name: string)
    requires Truthful(graph, branches, marks) && name in LabelsOf(marks, decision)
    ensures Declares(branches, decision, name)
  {
    var n :| n in marks && marks[n] == Exclusive(decision, name);
    assert Reaches(graph, branches, n, marks[n]);
    var p :| LeadsTo(graph, branches, p, n, marks[n]);
    var i, j :| 0 <= i < |branches.decisions| && 0 <= j < |branches.decisions[i].labels| &&
      branches.decisions[i].labels[j] == Label(name, p[|p| - 1]) && branches.decisions[i].node == decision;
  }

  /**
   A decision's answer is held to the labels its marks name. They are never more than the declared
   ones, and with targets alone they are exactly those.
   */
  lemma LabelsAreDeclared(graph: NodeGraph, branches: Branches, decision: string, name: string)
    requires BranchExclusivity(graph, branches).Ok?
    ensures name in LabelsOf(BranchExclusivity(graph, branches).value, decision) ==> Declares(branches, decision, name)
    ensures TargetsAlone(graph, branches) ==>
              (name in LabelsOf(BranchExclusivity(graph, branches).value, decision) <==> Declares(branches, decision, name))
  {
    var marks := BranchExclusivity(graph, branches).value;
    MarksAreTruthful(graph, branches);
    if name in LabelsOf(marks, decision) { MarkedIsDeclared(graph, branches, marks, decision, name); }
    if TargetsAlone(graph, branches) && Declares(branches, decision, name) {
      var i, j :| 0 <= i < |branches.decisions| && 0 <= j < |branches.decisions[i].labels| &&
        branches.decisions[i].node == decision && branches.decisions[i].labels[j].name == name;
      var target := branches.decisions[i].labels[j].target;
      assert branches.decisions[i].labels[j] == Label(name, target);
      AloneKeepsItsMark(graph, branches, marks, target, Exclusive(decision, name));
    }
  }

  /** Two labels with one target: the first is declared, and no mark names it. */
  lemma SharedTargetLosesALabel()
    ensures var bare := Node(None, None, None, None, []);
            var graph := NodeGraph([Entry("d", bare), Entry("x", bare.(input := Some(FromNode("d"))))]);
            var branches := Branches([Decision("d", [Label("p", "x"), Label("q", "x")])]);
            BranchExclusivity(graph, branches) == Ok(map["x" := Exclusive("d", "q")]) &&
            Declares(branches, "d", "p") && "p" !in LabelsOf(map["x" := Exclusive("d", "q")], "d") &&
            "q" in LabelsOf(map["x" := Exclusive("d", "q")], "d")
  {
    var bare := Node(None, None, None, None, []);
    var dn, xn := Entry("d", bare), Entry("x", bare.(input := Some(FromNode("d"))));
    var nodes := [dn, xn];
    var graph := NodeGraph(nodes);
    var labels := [Label("p", "x"), Label("q", "x")];
    var branches := Branches([Decision("d", labels)]);
    var p, q := Exclusive("d", "p"), Exclusive("d", "q");
    var seeds: Marks := map["x" := q];
    assert graph.Get("x").Some? by { LookupFinds(nodes, 1); }
    assert SeedLabels(graph, "d", labels, 2, seeds) == Ok(seeds);
    assert map["x" := p]["x" := q] == seeds;
    assert SeedLabels(graph, "d", labels, 1, map["x" := p]) == Ok(seeds);
    assert SeedLabels(graph, "d", labels, 0, map[]) == Ok(seeds);
    assert SeedDecisions(graph, branches.decisions, 1, seeds) == Ok(seeds);
    assert SeedDecisions(graph, branches.decisions, 0, map[]) == Ok(seeds);
    assert Scan(["d"], 1, seeds, None) == Ok(None);
    assert Visit(dn, seeds) == Ok(seeds) && Visit(xn, seeds) == Ok(seeds);
    assert PassFrom(nodes, 2, seeds) == Ok(seeds);
    assert PassFrom(nodes, 1, seeds) == Ok(seeds);
    assert PassFrom(nodes, 0, seeds) == Ok(seeds);
    assert branches.decisions[0].labels[0].name == "p";
    assert seeds["x"].label_ == "q";
  }

  /** A target that needs another label's target loses its own mark, and no clash is reported. */
  lemma InheritedMarkWins()
    ensures var bare := Node(None, None, None, None, []);
            var graph := NodeGraph([
              Entry("d", bare),
              Entry("x", bare.(input := Some(FromNode("d")))),
              Entry("y", bare.(input := Some(FromNode("x"))))]);
            var branches := Branches([Decision("d", [Label("p", "x"), Label("q", "y")])]);
            var mark := Exclusive("d", "p");
            BranchExclusivity(graph, branches) == Ok(map["x" := mark, "y" := mark]) &&
            Torn(graph, branches, "y", "d", "p", "q")
  {
    var bare := Node(None, None, None, None, []);
    var dn, xn, yn := Entry("d", bare), Entry("x", bare.(input := Some(FromNode("d")))), Entry("y", bare.(input := Some(FromNode("x"))));
    var nodes := [dn, xn, yn];
    var graph := NodeGraph(nodes);
    var labels := [Label("p", "x"), Label("q", "y")];
    var branches := Branches([Decision("d", labels)]);
    hide Torn;
    var p, q := Exclusive("d", "p"), Exclusive("d", "q");
    var seeds: Marks := map["x" := p, "y" := q];
    assert graph.Get("x").Some? && graph.Get("y").Some? by {
      LookupFinds(nodes, 1);
      LookupFinds(nodes, 2);
    }
    assert SeedLabels(graph, "d", labels, 2, seeds) == Ok(seeds);
    assert SeedLabels(graph, "d", labels, 1, map["x" := p]) == Ok(seeds);
    assert SeedLabels(graph, "d", labels, 0, map[]) == Ok(seeds);
    assert SeedDecisions(graph, branches.decisions, 1, seeds) == Ok(seeds);
    assert SeedDecisions(graph, branches.decisions, 0, map[]) == Ok(seeds);
    var final := seeds["y" := p];
    assert Scan(["x"], 1, seeds, Some(p)) == Ok(Some(p));
    assert Scan(["d"], 1, seeds, None) == Ok(None);
    assert Visit(dn, seeds) == Ok(seeds) && Visit(xn, seeds) == Ok(seeds) && Visit(yn, seeds) == Ok(final);
    assert PassFrom(nodes, 3, final) == Ok(final);
    assert PassFrom(nodes, 2, seeds) == Ok(final);
    assert PassFrom(nodes, 1, seeds) == Ok(final);
    assert PassFrom(nodes, 0, seeds) == Ok(final);
    assert final == map["x" := p, "y" := p];
    TornBetween(graph, branches);
  }

  lemma TornBetween(graph: NodeGraph, branches: Branches)
    requires branches.decisions == [Decision("d", [Label("p", "x"), Label("q", "y")])]
    requires |graph.nodes| == 3 && graph.nodes[2].name == "y" && graph.nodes[2].node.input == Some(FromNode("x"))
    ensures Torn(graph, branches, "y", "d", "p", "q")
  {
    var p, q := Exclusive("d", "p"), Exclusive("d", "q");
    assert branches.decisions[0].labels[0] == Label("p", "x") && branches.decisions[0].labels[1] == Label("q", "y");
    TargetReaches(graph, branches, "x", p);
    TargetReaches(graph, branches, "y", q);
    assert "x" in graph.nodes[2].node.input.value.Refs();
    FeedReaches(graph, branches, "y", "x", p);
  }

  lemma ThreeRefs(a: string, b: string, c: string)
    ensures Items([FromNode(a), FromNode(b), FromNode(c)]).Refs() == [a, b, c]
  {
    var e := Items([FromNode(a), FromNode(b), FromNode(c)]);
    assert e.RefsOfItems(1) == [a];
    assert e.RefsOfItems(2) == [a, b];
    assert e.RefsOfItems(3) == [a, b, c];
  }

  /**
   A node needing a label of one decision and then two of another, in that order: each is compared
   with the first alone, and the conflict is not reported.
   */
  lemma OtherDecisionHidesAConflict()
    ensures var bare := Node(None, None, None, None, []);
            var joined := bare.(input := Some(Items([FromNode("x"), FromNode("y"), FromNode("z")])));
            var graph := NodeGraph([Entry("x", bare), Entry("y", bare), Entry("z", bare), Entry("n", joined)]);
            var branches := Branches([Decision("e", [Label("c", "x")]), Decision("d", [Label("a", "y"), Label("b", "z")])]);
            BranchExclusivity(graph, branches).Ok? && Torn(graph, branches, "n", "d", "a", "b") &&
            var marks := BranchExclusivity(graph, branches).value; "n" in marks && marks["n"] == Exclusive("e", "c")
  {
    var bare := Node(None, None, None, None, []);
    var joined := bare.(input := Some(Items([FromNode("x"), FromNode("y"), FromNode("z")])));
    var nodes := [Entry("x", bare), Entry("y", bare), Entry("z", bare), Entry("n", joined)];
    var graph := NodeGraph(nodes);
    var branches := Branches([Decision("e", [Label("c", "x")]), Decision("d", [Label("a", "y"), Label("b", "z")])]);
    ThreeRefs("x", "y", "z");
    JoinedMarks(nodes, branches);
    JoinedIsTorn(graph, branches);
  }

  lemma JoinedIsTorn(graph: NodeGraph, branches: Branches)
    requires branches.decisions == [Decision("e", [Label("c", "x")]), Decision("d", [Label("a", "y"), Label("b", "z")])]
    requires |graph.nodes| == 4 && graph.nodes[3].name == "n" && graph.nodes[3].node.input.Some?
    requires graph.nodes[3].node.input.value.Refs() == ["x", "y", "z"]
    ensures Torn(graph, branches, "n", "d", "a", "b")
  {
    var refs := graph.nodes[3].node.input.value.Refs();
    assert branches.decisions[1].labels[0] == Label("a", "y") && branches.decisions[1].labels[1] == Label("b", "z");
    TargetReaches(graph, branches, "y", Exclusive("d", "a"));
    TargetReaches(graph, branches, "z", Exclusive("d", "b"));
    assert refs[1] == "y" && refs[2] == "z";
    FeedReaches(graph, branches, "n", "y", Exclusive("d", "a"));
    FeedReaches(graph, branches, "n", "z", Exclusive("d", "b"));
    assert "a" != "b" by { assert "a"[0] != "b"[0]; }
  }

  lemma JoinedMarks(nodes: seq<Entry>, branches: Branches)
    requires branches.decisions == [Decision("e", [Label("c", "x")]), Decision("d", [Label("a", "y"), Label("b", "z")])]
    requires |nodes| == 4 && nodes[0].name == "x" && nodes[1].name == "y" && nodes[2].name == "z" && nodes[3].name == "n"
    requires forall i :: 0 <= i < 3 ==> nodes[i].node.input.None?
    requires nodes[3].node.input.Some? && nodes[3].node.input.value.Refs() == ["x", "y", "z"]
    ensures var r := BranchExclusivity(NodeGraph(nodes), branches); r.Ok? && "n" in r.value && r.value["n"] == Exclusive("e", "c")
  {
    var x, y, z := Exclusive("e", "c"), Exclusive("d", "a"), Exclusive("d", "b");
    var seeds: Marks := map["x" := x, "y" := y, "z" := z];
    JoinedSeeds(nodes, branches);
    var final := seeds["n" := x];
    JoinedPass(nodes, seeds);
    JoinedPass(nodes, final);
    assert final["n" := x] == final;
    assert seeds.Keys <= NameSet(nodes) && final.Keys <= NameSet(nodes) by {
      NameSetHas(nodes, 0);
      NameSetHas(nodes, 1);
      NameSetHas(nodes, 2);
      NameSetHas(nodes, 3);
    }
    assert Propagate(nodes, final) == Ok(final);
    assert "n" in final.Keys && "n" !in seeds.Keys;
    assert Propagate(nodes, seeds) == Propagate(nodes, final);
  }

  lemma JoinedSeeds(nodes: seq<Entry>, branches: Branches)
    requires branches.decisions == [Decision("e", [Label("c", "x")]), Decision("d", [Label("a", "y"), Label("b", "z")])]
    requires |nodes| == 4 && nodes[0].name == "x" && nodes[1].name == "y" && nodes[2].name == "z"
    ensures SeedDecisions(NodeGraph(nodes), branches.decisions, 0, map[])
         == Ok(map["x" := Exclusive("e", "c"), "y" := Exclusive("d", "a"), "z" := Exclusive("d", "b")])
  {
    var graph, first, second := NodeGraph(nodes), branches.decisions[0].labels, branches.decisions[1].labels;
    var x, y, z := Exclusive("e", "c"), Exclusive("d", "a"), Exclusive("d", "b");
    var one, two, three: Marks := map["x" := x], map["x" := x, "y" := y], map["x" := x, "y" := y, "z" := z];
    LookupFinds(nodes, 0);
    LookupFinds(nodes, 1);
    LookupFinds(nodes, 2);
    assert map["x" := x]["y" := y] == two && two["z" := z] == three;
    assert SeedLabels(graph, "e", first, 1, one) == Ok(one);
    assert SeedLabels(graph, "e", first, 0, map[]) == Ok(one);
    assert SeedLabels(graph, "d", second, 2, three) == Ok(three);
    assert SeedLabels(graph, "d", second, 1, two) == Ok(three);
    assert SeedLabels(graph, "d", second, 0, one) == Ok(three);
    assert SeedDecisions(graph, branches.decisions, 2, three) == Ok(three);
    assert SeedDecisions(graph, branches.decisions, 1, one) == Ok(three);
  }

  lemma JoinedPass(nodes: seq<Entry>, marks: Marks)
    requires |nodes| == 4 && (forall i :: 0 <= i < 3 ==> nodes[i].node.input.None?) && nodes[3].name == "n"
    requires nodes[3].node.input.Some? && nodes[3].node.input.value.Refs() == ["x", "y", "z"]
    requires "x" in marks && marks["x"] == Exclusive("e", "c") && "y" in marks && marks["y"] == Exclusive("d", "a")
    requires "z" in marks && marks["z"] == Exclusive("d", "b")
    ensures PassFrom(nodes, 0, marks) == Ok(marks["n" := Exclusive("e", "c")])
  {
    var x, refs := Exclusive("e", "c"), nodes[3].node.input.value.Refs();
    assert "e" != "d" by { assert "e"[0] != "d"[0]; }
    assert Scan(refs, 3, marks, Some(x)) == Ok(Some(x));
    assert Scan(refs, 2, marks, Some(x)) == Ok(Some(x));
    assert Scan(refs, 1, marks, Some(x)) == Ok(Some(x));
    assert Scan(refs, 0, marks, None) == Ok(Some(x));
    var final := marks["n" := x];
    assert Visit(nodes[3], marks) == Ok(final);
    assert PassFrom(nodes, 4, final) == Ok(final);
    assert PassFrom(nodes, 3, marks) == Ok(final);
    assert PassFrom(nodes, 2, marks) == Ok(final);
    assert PassFrom(nodes, 1, marks) == Ok(final);
  }
}
