/** What an input composes to, told path by path: which node's output, or type, stands where. */
module Paths {
  import opened Wrappers
  import opened Strings
  import opened Types
  import opened Graphs
  import opened Composition

  datatype Leg = Field(name: string) | At(index: nat)

  type Path = seq<Leg>

  /** The part of an expression at the end of a path of field names and list positions. */
  function PartAt(expr: InputExpr, path: Path): Option<InputExpr>
    decreases |path|
  {
    if path == [] then Some(expr)
    else
      match (expr, path[0])
      case (Fields(fields), Field(name)) => if name in fields then PartAt(fields[name], path[1..]) else None
      case (Items(items), At(i)) => if i < |items| then PartAt(items[i], path[1..]) else None
      case _ => None
  }

  /** The same in a value. */
  function ValueAt(v: Value, path: Path): Option<Value>
    decreases |path|
  {
    if path == [] then Some(v)
    else
      match (v, path[0])
      case (Object(members), Field(name)) => if name in members then ValueAt(members[name], path[1..]) else None
      case (Array(items), At(i)) => if i < |items| then ValueAt(items[i], path[1..]) else None
      case _ => None
  }

  function OutputOf(outputs: Outputs, node: string): Value {
    if node in outputs then outputs[node] else Null
  }

  /** A node's output where it is named, an object with just these fields, a list of just this length. */
  predicate Delivers(part: InputExpr, outputs: Outputs, v: Value) {
    match part
    case FromNode(node) => v == OutputOf(outputs, node)
    case Fields(fields) => v.Object? && v.members.Keys == fields.Keys
    case Items(items) => v.Array? && |v.items| == |items|
  }

  predicate DeliversAt(expr: InputExpr, outputs: Outputs, v: Value, path: Path) {
    PartAt(expr, path).Some? ==> ValueAt(v, path).Some? && Delivers(PartAt(expr, path).value, outputs, ValueAt(v, path).value)
  }

  /** The value has at every path what the expression has there. */
  ghost predicate Composes(expr: InputExpr, outputs: Outputs, v: Value) {
    forall path :: DeliversAt(expr, outputs, v, path)
  }

  lemma {:induction false} EvaluateDelivers(expr: InputExpr, outputs: Outputs, path: Path)
    ensures DeliversAt(expr, outputs, Evaluate(expr, outputs), path)
    decreases |path|
  {
    if path != [] && PartAt(expr, path).Some? {
      match expr
      case Fields(fields) => EvaluateDelivers(fields[path[0].name], outputs, path[1..]);
      case Items(items) =>
        EvaluatedItem(expr, |items|, path[0].index, outputs);
        EvaluateDelivers(items[path[0].index], outputs, path[1..]);
      case _ =>
    }
  }

  lemma ComposesMember(fields: map<string, InputExpr>, outputs: Outputs, v: Value, f: string)
    requires Composes(Fields(fields), outputs, v) && f in fields
    ensures v.Object? && f in v.members && Composes(fields[f], outputs, v.members[f])
  {
    assert DeliversAt(Fields(fields), outputs, v, []);
    forall path ensures DeliversAt(fields[f], outputs, v.members[f], path) {
      assert DeliversAt(Fields(fields), outputs, v, [Field(f)] + path);
      assert ([Field(f)] + path)[1..] == path;
    }
  }

  lemma ComposesItem(items: seq<InputExpr>, outputs: Outputs, v: Value, i: nat)
    requires Composes(Items(items), outputs, v) && i < |items|
    ensures v.Array? && i < |v.items| && Composes(items[i], outputs, v.items[i])
  {
    assert DeliversAt(Items(items), outputs, v, []);
    forall path ensures DeliversAt(items[i], outputs, v.items[i], path) {
      assert DeliversAt(Items(items), outputs, v, [At(i)] + path);
      assert ([At(i)] + path)[1..] == path;
    }
  }

  lemma {:induction false} ComposesOnce(expr: InputExpr, outputs: Outputs, v: Value)
    requires Composes(expr, outputs, v)
    ensures v == Evaluate(expr, outputs)
    decreases expr
  {
    assert DeliversAt(expr, outputs, v, []);
    hide Composes;
    match expr
    case FromNode(_) =>
    case Fields(fields) =>
      forall f | f in fields ensures v.members[f] == Evaluate(fields[f], outputs) {
        ComposesMember(fields, outputs, v, f);
        ComposesOnce(fields[f], outputs, v.members[f]);
      }
      assert v.members == Evaluate(expr, outputs).members;
    case Items(items) =>
      forall i | 0 <= i < |items| ensures v.items[i] == EvaluateItems(expr, |items|, outputs)[i] {
        ComposesItem(items, outputs, v, i);
        ComposesOnce(items[i], outputs, v.items[i]);
        EvaluatedItem(expr, |items|, i, outputs);
      }
      assert v.items == EvaluateItems(expr, |items|, outputs);
  }

  /** The composed value is the one, and the only one, with the right thing at every path. */
  lemma ComposedExactly(expr: InputExpr, outputs: Outputs, v: Value)
    ensures v == Evaluate(expr, outputs) <==> Composes(expr, outputs, v)
  {
    forall path ensures DeliversAt(expr, outputs, Evaluate(expr, outputs), path) { EvaluateDelivers(expr, outputs, path); }
    if Composes(expr, outputs, v) { ComposesOnce(expr, outputs, v); }
  }

  /** And it has nothing else: what is at a path the expression does not have is inside some node's output. */
  lemma {:induction false} NothingElse(expr: InputExpr, outputs: Outputs, path: Path) returns (k: nat)
    requires ValueAt(Evaluate(expr, outputs), path).Some? && PartAt(expr, path).None?
    ensures k < |path| && PartAt(expr, path[..k]).Some? && PartAt(expr, path[..k]).value.FromNode?
    ensures ValueAt(OutputOf(outputs, PartAt(expr, path[..k]).value.node), path[k..]) == ValueAt(Evaluate(expr, outputs), path)
    decreases |path|
  {
    match expr
    case FromNode(_) =>
      k := 0;
      assert path[..0] == [] && path[0..] == path;
    case Fields(fields) =>
      k := NothingElse(fields[path[0].name], outputs, path[1..]);
      k := k + 1;
      assert path[..k][1..] == path[1..][..k - 1] && path[1..][k - 1..] == path[k..];
    case Items(items) =>
      EvaluatedItem(expr, |items|, path[0].index, outputs);
      k := NothingElse(items[path[0].index], outputs, path[1..]);
      k := k + 1;
      assert path[..k][1..] == path[1..][..k - 1] && path[1..][k - 1..] == path[k..];
  }

  // ---------------------------------------------------------------- over types

  /** The check looks into fields and at the first item of lists. */
  predicate LooksFirst(path: Path) {
    forall i :: 0 <= i < |path| ==> path[i].At? ==> path[i].index == 0
  }

  function TyAt(t: Ty, path: Path): Option<Ty>
    decreases |path|
  {
    if path == [] then Some(t)
    else
      match (t, path[0])
      case (Record(fields), Field(name)) => if name in fields then TyAt(fields[name], path[1..]) else None
      case (List(element), At(_)) => TyAt(element, path[1..])
      case _ => None
  }

  predicate Presents(part: InputExpr, signatures: Signatures, t: Ty) {
    match part
    case FromNode(node) => node in signatures && t == signatures[node].output
    case Fields(fields) => t.Record? && t.fields.Keys == fields.Keys
    case Items(items) => t.List? && items != []
  }

  predicate PresentsAt(expr: InputExpr, signatures: Signatures, t: Ty, path: Path) {
    LooksFirst(path) && PartAt(expr, path).Some? ==>
      TyAt(t, path).Some? && Presents(PartAt(expr, path).value, signatures, TyAt(t, path).value)
  }

  /** The type has at every path the check looks at what the expression has there. */
  ghost predicate TypedAs(expr: InputExpr, signatures: Signatures, t: Ty) {
    forall path :: PresentsAt(expr, signatures, t, path)
  }

  /** Nothing can stand at the path: a node that is not there, or a list without a first item. */
  ghost predicate Untyped(expr: InputExpr, signatures: Signatures, path: Path, referenced: string) {
    LooksFirst(path) &&
    match PartAt(expr, path)
    case Some(FromNode(node)) => node !in signatures && referenced == node
    case Some(Items(items)) => items == [] && referenced == "<empty list>"
    case _ => false
  }

  lemma LooksFurther(path: Path, leg: Leg)
    requires LooksFirst(path) && (leg.At? ==> leg.index == 0)
    ensures LooksFirst([leg] + path)
  {}

  lemma LooksOn(path: Path)
    requires LooksFirst(path) && path != []
    ensures LooksFirst(path[1..]) && (path[0].At? ==> path[0].index == 0)
  {
    forall i | 0 <= i < |path[1..]| && path[1..][i].At? ensures path[1..][i].index == 0 { assert path[1..][i] == path[i + 1]; }
  }

  lemma {:induction false} EvaluateTyPresents(expr: InputExpr, signatures: Signatures, path: Path)
    requires EvaluateTy(expr, signatures).Ok?
    ensures PresentsAt(expr, signatures, EvaluateTy(expr, signatures).value, path)
    decreases |path|
  {
    if LooksFirst(path) && PartAt(expr, path).Some? {
      if expr.Fields? { FieldsTy(expr, signatures); }
      if path != [] {
        LooksOn(path);
        match expr
        case Fields(fields) => EvaluateTyPresents(fields[path[0].name], signatures, path[1..]);
        case Items(items) => EvaluateTyPresents(items[0], signatures, path[1..]);
        case _ =>
      }
    }
  }

  lemma {:induction false} TypedOnce(expr: InputExpr, signatures: Signatures, t: Ty)
    requires TypedAs(expr, signatures, t)
    ensures EvaluateTy(expr, signatures) == Ok(t)
    decreases expr
  {
    assert PresentsAt(expr, signatures, t, []);
    match expr
    case FromNode(_) =>
    case Fields(fields) =>
      forall f | f in fields ensures EvaluateTy(fields[f], signatures) == Ok(t.fields[f]) {
        forall path ensures PresentsAt(fields[f], signatures, t.fields[f], path) {
          if LooksFirst(path) {
            LooksFurther(path, Field(f));
            assert PresentsAt(expr, signatures, t, [Field(f)] + path);
            assert ([Field(f)] + path)[1..] == path;
          }
        }
        TypedOnce(fields[f], signatures, t.fields[f]);
      }
      FieldsTy(expr, signatures);
      assert EvaluateTy(expr, signatures).value.fields == t.fields;
    case Items(items) =>
      forall path ensures PresentsAt(items[0], signatures, t.element, path) {
        if LooksFirst(path) {
          LooksFurther(path, At(0));
          assert PresentsAt(expr, signatures, t, [At(0)] + path);
          assert ([At(0)] + path)[1..] == path;
        }
      }
      TypedOnce(items[0], signatures, t.element);
  }

  /** The composed type is the one, and the only one, with the right thing at every path looked at. */
  lemma ComposedTyExactly(expr: InputExpr, signatures: Signatures, t: Ty)
    ensures EvaluateTy(expr, signatures) == Ok(t) <==> TypedAs(expr, signatures, t)
  {
    if EvaluateTy(expr, signatures) == Ok(t) {
      forall path ensures PresentsAt(expr, signatures, t, path) { EvaluateTyPresents(expr, signatures, path); }
    }
    if TypedAs(expr, signatures, t) { TypedOnce(expr, signatures, t); }
  }

  lemma {:induction false} FieldTysFail(expr: InputExpr, names: seq<string>, signatures: Signatures) returns (f: string)
    requires expr.Fields? && forall f :: f in names ==> f in expr.fields
    requires EvaluateFieldTys(expr, names, signatures).Err?
    ensures f in expr.fields && EvaluateTy(expr.fields[f], signatures) == Err(EvaluateFieldTys(expr, names, signatures).error)
    decreases |names|
  {
    f := names[0];
    if EvaluateTy(expr.fields[f], signatures).Ok? {
      f := FieldTysFail(expr, names[1..], signatures);
    }
  }

  /** An expression without a composed type names a node that is not there, or has an empty list, where the check looks. */
  lemma {:induction false} NoTyMeans(expr: InputExpr, signatures: Signatures) returns (path: Path, referenced: string)
    requires EvaluateTy(expr, signatures).Err?
    ensures EvaluateTy(expr, signatures) == Err(UnknownReference("?", referenced)) && Untyped(expr, signatures, path, referenced)
    decreases expr
  {
    match expr
    case FromNode(node) => path, referenced := [], node;
    case Fields(fields) =>
      var f := FieldTysFail(expr, SortedSeq(fields.Keys), signatures);
      path, referenced := NoTyMeans(fields[f], signatures);
      LooksFurther(path, Field(f));
      assert ([Field(f)] + path)[1..] == path;
      path := [Field(f)] + path;
    case Items(items) =>
      if items == [] {
        path, referenced := [], "<empty list>";
      } else {
        path, referenced := NoTyMeans(items[0], signatures);
        LooksFurther(path, At(0));
        assert ([At(0)] + path)[1..] == path;
        path := [At(0)] + path;
      }
  }
}
