/** The graph a spec declares: nodes, what feeds them, and the branch decisions. */
module Graphs {
  import opened Wrappers
  import opened Strings

  /** What feeds a node's input. */
  datatype InputExpr =
    | FromNode(node: string)
    | Fields(fields: map<string, InputExpr>)
    | Items(items: seq<InputExpr>)
  {
    /** Whether the expression needs `name`'s output, at any depth. */
    predicate Mentions(name: string) {
      match this
      case FromNode(n) => n == name
      case Fields(fields) => exists f :: f in fields && fields[f].Mentions(name)
      case Items(items) => exists i :: 0 <= i < |items| && items[i].Mentions(name)
    }

    /** The referenced nodes, in the order the host walks them. */
    function Refs(): seq<string>
      decreases this
    {
      match this
      case FromNode(n) => [n]
      case Fields(fields) => RefsOfFields(SortedSeq(fields.Keys))
      case Items(items) => RefsOfItems(|items|)
    }

    function RefsOfFields(names: seq<string>): seq<string>
      requires Fields? && forall f :: f in names ==> f in fields
      decreases this, |names|
    {
      if names == [] then [] else fields[names[0]].Refs() + RefsOfFields(names[1..])
    }

    function RefsOfItems(k: nat): seq<string>
      requires Items? && k <= |items|
      decreases this, k
    {
      if k == 0 then [] else RefsOfItems(k - 1) + items[k - 1].Refs()
    }

    lemma {:induction false} RefsAreMentions(name: string)
      ensures name in Refs() <==> Mentions(name)
      decreases this
    {
      match this
      case FromNode(_) =>
      case Fields(fields) =>
        var names := SortedSeq(fields.Keys);
        FieldRefsAreMentions(names, name);
        assert forall f :: f in names <==> f in fields;
      case Items(items) =>
        ItemRefsAreMentions(|items|, name);
    }

    lemma {:induction false} FieldRefsAreMentions(names: seq<string>, name: string)
      requires Fields? && forall f :: f in names ==> f in fields
      ensures name in RefsOfFields(names) <==> exists f :: f in names && fields[f].Mentions(name)
      decreases this, |names|
    {
      if names != [] {
        fields[names[0]].RefsAreMentions(name);
        FieldRefsAreMentions(names[1..], name);
        assert forall f :: f in names <==> f == names[0] || f in names[1..];
      }
    }

    lemma {:induction false} ItemRefsAreMentions(k: nat, name: string)
      requires Items? && k <= |items|
      ensures name in RefsOfItems(k) <==> exists i :: 0 <= i < k && items[i].Mentions(name)
      decreases this, k
    {
      if k > 0 {
        items[k - 1].RefsAreMentions(name);
        ItemRefsAreMentions(k - 1, name);
      }
    }
  }

  /** One rung of a node's recovery ladder. */
  datatype Rung = Retry(times: nat) | Reroute(model: string) | Escalate

  datatype Node = Node(
    input: Option<InputExpr>,
    repeatUntil: Option<string>,
    maxIterations: Option<nat>,
    over: Option<string>,
    onFail: seq<Rung>)

  datatype Entry = Entry(name: string, node: Node)

  datatype NodeGraph = NodeGraph(nodes: seq<Entry>) {
    /** The first node declared under `name`. */
    function Get(name: string): Option<Node> { Lookup(nodes, name) }

    function Names(): set<string> { NameSet(nodes) }
  }

  function NameSet(nodes: seq<Entry>): set<string> {
    if nodes == [] then {} else NameSet(nodes[..|nodes| - 1]) + {nodes[|nodes| - 1].name}
  }

  function Lookup(nodes: seq<Entry>, name: string): Option<Node> {
    if nodes == [] then None
    else if nodes[0].name == name then Some(nodes[0].node)
    else Lookup(nodes[1..], name)
  }

  lemma {:induction false} NameSetHas(nodes: seq<Entry>, i: nat)
    requires i < |nodes|
    ensures nodes[i].name in NameSet(nodes)
  {
    if i < |nodes| - 1 { NameSetHas(nodes[..|nodes| - 1], i); }
  }

  lemma {:induction false} NameSetFrom(nodes: seq<Entry>, name: string) returns (i: nat)
    requires name in NameSet(nodes)
    ensures i < |nodes| && nodes[i].name == name
  {
    i := |nodes| - 1;
    if nodes[i].name != name {
      i := NameSetFrom(nodes[..|nodes| - 1], name);
    }
  }

  lemma {:induction false} LookupFinds(nodes: seq<Entry>, i: nat)
    requires i < |nodes|
    ensures Lookup(nodes, nodes[i].name).Some?
  {
    if nodes[0].name != nodes[i].name { LookupFinds(nodes[1..], i - 1); }
  }

  lemma {:induction false} LookupFrom(nodes: seq<Entry>, name: string) returns (i: nat)
    requires Lookup(nodes, name).Some?
    ensures i < |nodes| && nodes[i] == Entry(name, Lookup(nodes, name).value)
  {
    i := 0;
    if nodes[0].name != name {
      var j := LookupFrom(nodes[1..], name);
      i := j + 1;
    }
  }

  lemma LookupExactly(nodes: seq<Entry>, name: string)
    ensures Lookup(nodes, name).Some? <==> name in NameSet(nodes)
  {
    if Lookup(nodes, name).Some? {
      var i := LookupFrom(nodes, name);
      NameSetHas(nodes, i);
    }
    if name in NameSet(nodes) {
      var i := NameSetFrom(nodes, name);
      LookupFinds(nodes, i);
    }
  }

  ghost predicate DistinctNames(nodes: seq<Entry>) {
    forall i, j :: 0 <= i < j < |nodes| ==> nodes[i].name != nodes[j].name
  }

  datatype Label = Label(name: string, target: string)
  datatype Decision = Decision(node: string, labels: seq<Label>)
  datatype Branches = Branches(decisions: seq<Decision>)

  /** Why a graph is rejected. */
  datatype DagError =
    | Pipeline(node: string, message: string)
    | UnknownReference(node: string, referenced: string)
    | UnmarkedCycle(node: string)
    | ConflictingBranchFanIn(node: string, decision: string, labelA: string, labelB: string)
    | SeamMismatch(producer: string, consumer: string, expected: string)
    | Empty
}
