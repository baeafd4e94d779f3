/** Composing a node's input: once over types when the graph is checked, once over values when it runs. */
module Composition {
  import opened Wrappers
  import opened Strings
  import opened Types
  import opened Graphs

  type Signatures = map<string, Signature>
  type Outputs = map<string, Value>

  /** The type an input expression produces. A list takes the type of its first item alone. */
  function EvaluateTy(expr: InputExpr, signatures: Signatures): Result<Ty, DagError>
    decreases expr
  {
    match expr
    case FromNode(n) =>
      if n in signatures then Ok(signatures[n].output) else Err(UnknownReference("?", n))
    case Fields(fields) =>
      (match EvaluateFieldTys(expr, SortedSeq(fields.Keys), signatures)
       case Ok(tys) => Ok(Record(tys))
       case Err(e) => Err(e))
    case Items(items) =>
      if items == [] then Err(UnknownReference("?", "<empty list>"))
      else
        match EvaluateTy(items[0], signatures)
        case Ok(t) => Ok(List(t))
        case Err(e) => Err(e)
  }

  /** The named fields in turn; the first that fails decides the error. */
  function EvaluateFieldTys(expr: InputExpr, names: seq<string>, signatures: Signatures): Result<map<string, Ty>, DagError>
    requires expr.Fields? && forall f :: f in names ==> f in expr.fields
    decreases expr, |names|
  {
    if names == [] then Ok(map[])
    else
      match EvaluateTy(expr.fields[names[0]], signatures)
      case Err(e) => Err(e)
      case Ok(t) =>
        match EvaluateFieldTys(expr, names[1..], signatures)
        case Err(e) => Err(e)
        case Ok(others) => Ok(map[names[0] := t] + others)
  }

  /** The value an input expression produces; a node without an output counts as null. */
  function Evaluate(expr: InputExpr, outputs: Outputs): Value
    decreases expr
  {
    match expr
    case FromNode(n) => if n in outputs then outputs[n] else Null
    case Fields(fields) => Object(map f | f in fields :: Evaluate(fields[f], outputs))
    case Items(items) => Array(EvaluateItems(expr, |items|, outputs))
  }

  function EvaluateItems(expr: InputExpr, k: nat, outputs: Outputs): (vs: seq<Value>)
    requires expr.Items? && k <= |expr.items|
    ensures |vs| == k
    decreases expr, k
  {
    if k == 0 then [] else EvaluateItems(expr, k - 1, outputs) + [Evaluate(expr.items[k - 1], outputs)]
  }

  /** Whether an expression needs the output of any of the given nodes. */
  predicate ReferencesAny(expr: InputExpr, nodes: set<string>) {
    match expr
    case FromNode(n) => n in nodes
    case Fields(fields) => exists f :: f in fields && ReferencesAny(fields[f], nodes)
    case Items(items) => exists i :: 0 <= i < |items| && ReferencesAny(items[i], nodes)
  }

  lemma {:induction false} ReferencesAnyMeans(expr: InputExpr, nodes: set<string>)
    ensures ReferencesAny(expr, nodes) <==> exists n :: n in nodes && expr.Mentions(n)
    decreases expr
  {
    match expr
    case FromNode(n) =>
    case Fields(fields) =>
      forall f | f in fields
        ensures ReferencesAny(fields[f], nodes) <==> exists n :: n in nodes && fields[f].Mentions(n)
      {
        ReferencesAnyMeans(fields[f], nodes);
      }
    case Items(items) =>
      forall i | 0 <= i < |items|
        ensures ReferencesAny(items[i], nodes) <==> exists n :: n in nodes && items[i].Mentions(n)
      {
        ReferencesAnyMeans(items[i], nodes);
      }
  }

  lemma {:induction false} EvaluatedItem(expr: InputExpr, k: nat, i: nat, outputs: Outputs)
    requires expr.Items? && i < k <= |expr.items|
    ensures EvaluateItems(expr, k, outputs)[i] == Evaluate(expr.items[i], outputs)
  {
    if i < k - 1 { EvaluatedItem(expr, k - 1, i, outputs); }
  }

  lemma {:induction false} FieldTysMean(expr: InputExpr, names: seq<string>, signatures: Signatures)
    requires expr.Fields? && forall f :: f in names ==> f in expr.fields
    ensures var r := EvaluateFieldTys(expr, names, signatures);
            (r.Ok? <==> forall f :: f in names ==> EvaluateTy(expr.fields[f], signatures).Ok?) &&
            (r.Ok? ==> forall f :: f in r.value <==> f in names) &&
            (r.Ok? ==> forall f :: f in names ==> EvaluateTy(expr.fields[f], signatures) == Ok(r.value[f]))
    decreases |names|
  {
    if names != [] {
      FieldTysMean(expr, names[1..], signatures);
      assert forall f :: f in names <==> f == names[0] || f in names[1..];
    }
  }

  lemma FieldsTy(expr: InputExpr, signatures: Signatures)
    requires expr.Fields?
    ensures var r := EvaluateTy(expr, signatures);
            (r.Ok? <==> forall f :: f in expr.fields ==> EvaluateTy(expr.fields[f], signatures).Ok?) &&
            (r.Ok? ==> r.value.Record? && r.value.fields.Keys == expr.fields.Keys) &&
            (r.Ok? ==> forall f :: f in expr.fields ==> EvaluateTy(expr.fields[f], signatures) == Ok(r.value.fields[f]))
  {
    FieldTysMean(expr, SortedSeq(expr.fields.Keys), signatures);
  }

  // ---------------------------------------------------------------- which inputs fit

  /** Each part of the expression delivers what the same part of `need` asks for. */
  predicate Fits(expr: InputExpr, signatures: Signatures, need: Ty)
    decreases expr
  {
    need.Json? ||
    match expr
    case FromNode(n) => n in signatures && signatures[n].output.AssignableTo(need)
    case Fields(fields) =>
      need.Record? &&
      forall f :: f in need.fields ==> f in fields && Fits(fields[f], signatures, need.fields[f])
    case Items(items) =>
      need.List? && forall i :: 0 <= i < |items| ==> Fits(items[i], signatures, need.element)
  }

  /** Every known node has an output of its declared type. */
  ghost predicate WellTyped(outputs: Outputs, signatures: Signatures) {
    forall n :: n in signatures ==> n in outputs && signatures[n].output.MatchesValue(outputs[n])
  }

  /** A fitting expression delivers a matching value, whatever the nodes it needs produced. */
  lemma {:induction false} FitsSound(expr: InputExpr, signatures: Signatures, need: Ty, outputs: Outputs)
    requires Fits(expr, signatures, need)
    requires forall n :: n in signatures && expr.Mentions(n) ==> n in outputs && signatures[n].output.MatchesValue(outputs[n])
    ensures need.MatchesValue(Evaluate(expr, outputs))
    decreases expr
  {
    if need.Json? { return; }
    match expr
    case FromNode(n) =>
      AssignablePreservesMatch(signatures[n].output, need, outputs[n]);
    case Fields(fields) =>
      var v := Evaluate(expr, outputs);
      forall f | f in need.fields ensures f in v.members && need.fields[f].MatchesValue(v.members[f]) {
        FitsSound(fields[f], signatures, need.fields[f], outputs);
      }
    case Items(items) =>
      var v := Evaluate(expr, outputs);
      forall i | 0 <= i < |v.items| ensures need.element.MatchesValue(v.items[i]) {
        EvaluatedItem(expr, |items|, i, outputs);
        FitsSound(items[i], signatures, need.element, outputs);
      }
  }

  ghost function AnyOutputs(signatures: Signatures): (outputs: Outputs)
    ensures WellTyped(outputs, signatures)
  {
    map n | n in signatures :: Inhabitant(signatures[n].output)
  }

  /** An expression that does not fit has well-typed outputs on which it fails. */
  lemma {:induction false} MisfitWitness(expr: InputExpr, signatures: Signatures, need: Ty) returns (outputs: Outputs)
    requires need.Checkable() && !Fits(expr, signatures, need)
    ensures WellTyped(outputs, signatures) && outputs.Keys == signatures.Keys
    ensures !need.MatchesValue(Evaluate(expr, outputs))
    decreases expr
  {
    outputs := AnyOutputs(signatures);
    match expr
    case FromNode(n) =>
      if n in signatures {
        var v := Distinguish(signatures[n].output, need);
        outputs := outputs[n := v];
      }
    case Fields(fields) =>
      if need.Record? {
        var f :| f in need.fields && !(f in fields && Fits(fields[f], signatures, need.fields[f]));
        if f in fields {
          outputs := MisfitWitness(fields[f], signatures, need.fields[f]);
          assert Evaluate(expr, outputs).members[f] == Evaluate(fields[f], outputs);
        } else {
          assert f !in Evaluate(expr, outputs).members;
        }
      }
    case Items(items) =>
      if need.List? {
        var i :| 0 <= i < |items| && !Fits(items[i], signatures, need.element);
        outputs := MisfitWitness(items[i], signatures, need.element);
        EvaluatedItem(expr, |items|, i, outputs);
        assert Evaluate(expr, outputs).items[i] == Evaluate(items[i], outputs);
      }
  }

  /** Where every part of the need can be checked, fitting is the exact condition. */
  lemma CheckedFitsExactly(expr: InputExpr, signatures: Signatures, need: Ty)
    requires need.Checkable()
    ensures Fits(expr, signatures, need) <==>
            forall outputs: Outputs :: WellTyped(outputs, signatures) ==> need.MatchesValue(Evaluate(expr, outputs))
  {
    if Fits(expr, signatures, need) {
      forall outputs: Outputs | WellTyped(outputs, signatures) ensures need.MatchesValue(Evaluate(expr, outputs)) {
        FitsSound(expr, signatures, need, outputs);
      }
    } else {
      var outputs := MisfitWitness(expr, signatures, need);
    }
  }

  /** The signatures with every uncheckable part of an output read as `json`. */
  function Loosened(signatures: Signatures): Signatures {
    map n | n in signatures :: signatures[n].(output := signatures[n].output.Loosen())
  }

  lemma LoosenedWellTyped(outputs: Outputs, signatures: Signatures)
    ensures WellTyped(outputs, Loosened(signatures)) <==> WellTyped(outputs, signatures)
  {
    forall n | n in signatures && n in outputs
      ensures Loosened(signatures)[n].output.MatchesValue(outputs[n]) <==> signatures[n].output.MatchesValue(outputs[n])
    {
      LoosenKeepsValues(signatures[n].output, outputs[n]);
    }
    assert Loosened(signatures).Keys == signatures.Keys;
  }

  /**
   The exact condition, for every need and every expression: an input is right on every run
   when, and only when, it fits part by part with bytes, images and documents read as `json`.
   */
  lemma FitsExactly(expr: InputExpr, signatures: Signatures, need: Ty)
    ensures Fits(expr, Loosened(signatures), need.Loosen()) <==>
            forall outputs: Outputs :: WellTyped(outputs, signatures) ==> need.MatchesValue(Evaluate(expr, outputs))
  {
    CheckedFitsExactly(expr, Loosened(signatures), need.Loosen());
    forall outputs: Outputs
      ensures WellTyped(outputs, Loosened(signatures)) <==> WellTyped(outputs, signatures)
      ensures need.Loosen().MatchesValue(Evaluate(expr, outputs)) <==> need.MatchesValue(Evaluate(expr, outputs))
    {
      LoosenedWellTyped(outputs, signatures);
      LoosenKeepsValues(need, Evaluate(expr, outputs));
    }
  }

  /** The input fits when node `own` has no output yet, and is read as null wherever it is named. */
  predicate FitsReadingNull(expr: InputExpr, signatures: Signatures, need: Ty, own: string) {
    Fits(expr, Loosened(signatures - {own}), need.Loosen())
  }

  lemma FitsReadingNullSound(expr: InputExpr, signatures: Signatures, need: Ty, own: string, outputs: Outputs)
    requires FitsReadingNull(expr, signatures, need, own)
    requires forall n :: n in signatures && n != own && expr.Mentions(n) ==> n in outputs && signatures[n].output.MatchesValue(outputs[n])
    ensures need.MatchesValue(Evaluate(expr, outputs))
  {
    var others := Loosened(signatures - {own});
    forall n | n in others && expr.Mentions(n) ensures n in outputs && others[n].output.MatchesValue(outputs[n]) {
      LoosenKeepsValues(signatures[n].output, outputs[n]);
    }
    FitsSound(expr, others, need.Loosen(), outputs);
    LoosenKeepsValues(need, Evaluate(expr, outputs));
  }

  /** Exactly so: it is the condition for the input to be right whatever the other nodes delivered. */
  lemma FitsReadingNullExactly(expr: InputExpr, signatures: Signatures, need: Ty, own: string)
    ensures FitsReadingNull(expr, signatures, need, own) <==>
            forall outputs: Outputs :: WellTyped(outputs, signatures - {own}) && own !in outputs ==> need.MatchesValue(Evaluate(expr, outputs))
  {
    var others := signatures - {own};
    if FitsReadingNull(expr, signatures, need, own) {
      forall outputs: Outputs | WellTyped(outputs, others) ensures need.MatchesValue(Evaluate(expr, outputs)) {
        FitsReadingNullSound(expr, signatures, need, own, outputs);
      }
    } else {
      var outputs := MisfitWitness(expr, Loosened(others), need.Loosen());
      LoosenedWellTyped(outputs, others);
      LoosenKeepsValues(need, Evaluate(expr, outputs));
      assert own !in Loosened(others);
    }
  }

  /** For an input that does not name the node, that is fitting, with unchecked parts read as `json`. */
  lemma {:induction false} FittingReadsNoNull(expr: InputExpr, signatures: Signatures, need: Ty, own: string)
    requires Fits(expr, signatures, need) && !expr.Mentions(own)
    ensures FitsReadingNull(expr, signatures, need, own)
    decreases expr
  {
    if need.Json? { return; }
    match expr
    case FromNode(n) =>
      AssignableLoosened(signatures[n].output, need);
    case Fields(fields) =>
      forall f | f in need.fields ensures f in fields && Fits(fields[f], Loosened(signatures - {own}), need.Loosen().fields[f]) {
        FittingReadsNoNull(fields[f], signatures, need.fields[f], own);
      }
    case Items(items) =>
      forall i | 0 <= i < |items| ensures Fits(items[i], Loosened(signatures - {own}), need.Loosen().element) {
        FittingReadsNoNull(items[i], signatures, need.element, own);
      }
  }

  lemma AssignableLoosened(a: Ty, b: Ty)
    requires a.AssignableTo(b)
    ensures a.Loosen().AssignableTo(b.Loosen())
  {
    forall v: Value | a.MatchesValue(v) ensures b.MatchesValue(v) { AssignablePreservesMatch(a, b, v); }
    InclusionExactly(a, b);
  }

  // ---------------------------------------------------------------- the check against the exact condition

  /** In every list, each item's type is assignable to the first one's. */
  predicate Homogeneous(expr: InputExpr, signatures: Signatures) {
    match expr
    case FromNode(_) => true
    case Fields(fields) => forall f :: f in fields ==> Homogeneous(fields[f], signatures)
    case Items(items) =>
      && (forall i :: 0 <= i < |items| ==> Homogeneous(items[i], signatures))
      && (forall i :: 0 <= i < |items| ==> SameAsFirst(items, i, signatures))
  }

  predicate SameAsFirst(items: seq<InputExpr>, i: nat, signatures: Signatures)
    requires i < |items|
  {
    var (first, ty) := (EvaluateTy(items[0], signatures), EvaluateTy(items[i], signatures));
    first.Ok? ==> ty.Ok? && ty.value.AssignableTo(first.value)
  }

  /** With homogeneous lists, the check accepts only what fits. */
  lemma {:induction false} AcceptedFits(expr: InputExpr, signatures: Signatures, need: Ty)
    requires Homogeneous(expr, signatures)
    requires EvaluateTy(expr, signatures).Ok? && EvaluateTy(expr, signatures).value.AssignableTo(need)
    ensures Fits(expr, signatures, need)
    decreases expr
  {
    if need.Json? { return; }
    match expr
    case FromNode(n) =>
    case Fields(fields) =>
      FieldsTy(expr, signatures);
      forall f | f in need.fields ensures f in fields && Fits(fields[f], signatures, need.fields[f]) {
        AcceptedFits(fields[f], signatures, need.fields[f]);
      }
    case Items(items) =>
      forall i | 0 <= i < |items| ensures Fits(items[i], signatures, need.element) {
        assert SameAsFirst(items, i, signatures);
        AssignableTransitive(EvaluateTy(items[i], signatures).value, EvaluateTy(items[0], signatures).value, need.element);
        AcceptedFits(items[i], signatures, need.element);
      }
  }

  /** The check never refuses what fits, homogeneous or not. */
  lemma {:induction false} FittingAccepted(expr: InputExpr, signatures: Signatures, need: Ty)
    requires EvaluateTy(expr, signatures).Ok? && Fits(expr, signatures, need)
    ensures EvaluateTy(expr, signatures).value.AssignableTo(need)
    decreases expr
  {
    if need.Json? { return; }
    match expr
    case FromNode(n) =>
    case Fields(fields) =>
      FieldsTy(expr, signatures);
      forall f | f in need.fields
        ensures f in fields && EvaluateTy(expr, signatures).value.fields[f].AssignableTo(need.fields[f])
      {
        FittingAccepted(fields[f], signatures, need.fields[f]);
      }
    case Items(items) =>
      FittingAccepted(items[0], signatures, need.element);
  }

  /** A list of a text and a number passes where a list of texts is needed, and then delivers the number. */
  lemma MixedListAccepted()
    ensures var signatures: Signatures := map["a" := Signature(Json, Text), "b" := Signature(Json, Number)];
            var expr := Items([FromNode("a"), FromNode("b")]);
            var outputs: Outputs := map["a" := Str("one"), "b" := Num(2.0)];
            EvaluateTy(expr, signatures) == Ok(List(Text)) &&
            WellTyped(outputs, signatures) && !List(Text).MatchesValue(Evaluate(expr, outputs))
  {
    var expr := Items([FromNode("a"), FromNode("b")]);
    var outputs: Outputs := map["a" := Str("one"), "b" := Num(2.0)];
    EvaluatedItem(expr, 2, 1, outputs);
    assert Evaluate(expr, outputs).items[1] == Num(2.0);
  }
}
