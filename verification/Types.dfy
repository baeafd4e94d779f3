/** The shapes a block declares, and the JSON values that flow between blocks. */
module Types {
  import opened Wrappers

  datatype Value =
    | Null
    | Boolean(truth: bool)
    | Num(number: real)
    | Str(text: string)
    | Array(items: seq<Value>)
    | Object(members: map<string, Value>)
  {
    /** `value.get(name)`: only an object has fields. */
    function Get(name: string): Option<Value> {
      if Object? && name in members then Some(members[name]) else None
    }

    /** `value.get(name).and_then(as_str)`. */
    function GetText(name: string): Option<string> {
      match Get(name)
      case Some(Str(s)) => Some(s)
      case _ => None
    }
  }

  datatype Ty =
    | Text
    | Number
    | Bool
    | Bytes
    | Image
    | Document
    | Json
    | List(element: Ty)
    | Record(fields: map<string, Ty>)
  {
    /** A consumer that declares `expected` accepts a producer of this type. */
    predicate AssignableTo(expected: Ty)
      decreases expected
    {
      match (this, expected)
      case (_, Json) => true
      case (List(a), List(b)) => a.AssignableTo(b)
      case (Record(have), Record(need)) =>
        forall name :: name in need ==> name in have && have[name].AssignableTo(need[name])
      case _ => this == expected
    }

    /** The value passes the host's check at a seam declared with this type. */
    predicate MatchesValue(value: Value) {
      match this
      case Json => true
      case Bytes => true
      case Image => true
      case Document => true
      case Text => value.Str?
      case Number => value.Num?
      case Bool => value.Boolean?
      case List(inner) =>
        value.Array? && forall i :: 0 <= i < |value.items| ==> inner.MatchesValue(value.items[i])
      case Record(need) =>
        value.Object? &&
        forall name :: name in need ==> name in value.members && need[name].MatchesValue(value.members[name])
    }

    /** No part of the type is one of the three the host cannot check. */
    predicate Checkable() {
      match this
      case Bytes => false
      case Image => false
      case Document => false
      case List(inner) => inner.Checkable()
      case Record(need) => forall name :: name in need ==> need[name].Checkable()
      case _ => true
    }

    /** The type with every uncheckable part read as `json`. */
    function Loosen(): (loose: Ty)
      ensures loose.Checkable()
    {
      match this
      case Bytes => Json
      case Image => Json
      case Document => Json
      case List(inner) => List(inner.Loosen())
      case Record(need) => Record(map name | name in need :: need[name].Loosen())
      case _ => this
    }
  }

  datatype Signature = Signature(input: Ty, output: Ty)

  // ------------------------------------------------ a partial order with top

  lemma {:induction false} AssignableReflexive(a: Ty)
    ensures a.AssignableTo(a)
    decreases a
  {
    match a
    case List(inner) => AssignableReflexive(inner);
    case Record(need) =>
      forall name | name in need ensures need[name].AssignableTo(need[name]) {
        AssignableReflexive(need[name]);
      }
    case _ =>
  }

  lemma {:induction false} AssignableTransitive(a: Ty, b: Ty, c: Ty)
    requires a.AssignableTo(b) && b.AssignableTo(c)
    ensures a.AssignableTo(c)
    decreases c
  {
    match (b, c)
    case (List(y), List(z)) => AssignableTransitive(a.element, y, z);
    case (Record(y), Record(z)) =>
      forall name | name in z ensures name in a.fields && a.fields[name].AssignableTo(z[name]) {
        AssignableTransitive(a.fields[name], y[name], z[name]);
      }
    case _ =>
  }

  lemma {:induction false} AssignableAntisymmetric(a: Ty, b: Ty)
    requires a.AssignableTo(b) && b.AssignableTo(a)
    ensures a == b
    decreases b
  {
    match (a, b)
    case (List(x), List(y)) => AssignableAntisymmetric(x, y);
    case (Record(x), Record(y)) =>
      forall name | name in y ensures name in x && x[name] == y[name] {
        AssignableAntisymmetric(x[name], y[name]);
      }
      assert x == y;
    case _ =>
  }

  /** The order has exactly one top: `json`. */
  lemma JsonIsTheOnlyTop(t: Ty)
    ensures (forall a: Ty :: a.AssignableTo(t)) <==> t == Json
  {
    if t != Json {
      assert !Json.AssignableTo(t);
    }
  }

  // ------------------------------------------------ the static check and the live one

  /** An accepted seam never lets a value through that the consumer would refuse. */
  lemma {:induction false} AssignablePreservesMatch(a: Ty, b: Ty, v: Value)
    requires a.AssignableTo(b) && a.MatchesValue(v)
    ensures b.MatchesValue(v)
    decreases b
  {
    match (a, b)
    case (List(x), List(y)) =>
      forall i | 0 <= i < |v.items| ensures y.MatchesValue(v.items[i]) {
        AssignablePreservesMatch(x, y, v.items[i]);
      }
    case (Record(x), Record(y)) =>
      forall name | name in y ensures name in v.members && y[name].MatchesValue(v.members[name]) {
        AssignablePreservesMatch(x[name], y[name], v.members[name]);
      }
    case _ =>
  }

  /** Every type has a value. */
  function Inhabitant(t: Ty): (v: Value)
    ensures t.MatchesValue(v)
  {
    match t
    case Text => Str("")
    case Number => Num(0.0)
    case Bool => Boolean(false)
    case List(_) => Array([])
    case Record(need) => Object(map name | name in need :: Inhabitant(need[name]))
    case _ => Null
  }

  /** A refused seam has a witness: a value of `a` that `b` does not accept. */
  lemma {:induction false} Distinguish(a: Ty, b: Ty) returns (v: Value)
    requires b.Checkable() && !a.AssignableTo(b)
    ensures a.MatchesValue(v) && !b.MatchesValue(v)
    decreases b
  {
    match (a, b)
    case (List(x), List(y)) =>
      var inner := Distinguish(x, y);
      v := Array([inner]);
      assert v.items[0] == inner;
    case (Record(x), Record(y)) =>
      var name :| name in y && !(name in x && x[name].AssignableTo(y[name]));
      v := Inhabitant(a);
      if name in x {
        var inner := Distinguish(x[name], y[name]);
        v := Object(v.members[name := inner]);
      }
    case _ =>
      v := Inhabitant(a);
  }

  /** On everything the host can check, acceptance is exactly inclusion of values. */
  lemma AssignableIsInclusion(a: Ty, b: Ty)
    requires b.Checkable()
    ensures a.AssignableTo(b) <==> forall v: Value :: a.MatchesValue(v) ==> b.MatchesValue(v)
  {
    if a.AssignableTo(b) {
      forall v: Value | a.MatchesValue(v) ensures b.MatchesValue(v) {
        AssignablePreservesMatch(a, b, v);
      }
    } else {
      var v := Distinguish(a, b);
    }
  }

  lemma {:induction false} LoosenKeepsValues(t: Ty, v: Value)
    ensures t.Loosen().MatchesValue(v) <==> t.MatchesValue(v)
    decreases t
  {
    match t
    case List(inner) =>
      if v.Array? {
        forall i | 0 <= i < |v.items|
          ensures inner.Loosen().MatchesValue(v.items[i]) <==> inner.MatchesValue(v.items[i])
        {
          LoosenKeepsValues(inner, v.items[i]);
        }
      }
    case Record(need) =>
      if v.Object? {
        forall name | name in need && name in v.members
          ensures need[name].Loosen().MatchesValue(v.members[name]) <==> need[name].MatchesValue(v.members[name])
        {
          LoosenKeepsValues(need[name], v.members[name]);
        }
        assert t.Loosen().fields.Keys == need.Keys;
      }
    case _ =>
  }

  /** The exact rule for all types: bytes, images and documents count as `json` on both sides. */
  lemma InclusionExactly(a: Ty, b: Ty)
    ensures (forall v: Value :: a.MatchesValue(v) ==> b.MatchesValue(v)) <==> a.Loosen().AssignableTo(b.Loosen())
  {
    var la, lb := a.Loosen(), b.Loosen();
    AssignableIsInclusion(la, lb);
    if la.AssignableTo(lb) {
      forall v: Value | a.MatchesValue(v) ensures b.MatchesValue(v) {
        LoosenKeepsValues(a, v);
        LoosenKeepsValues(b, v);
      }
    } else {
      var v := Distinguish(la, lb);
      LoosenKeepsValues(a, v);
      LoosenKeepsValues(b, v);
    }
  }

  /** `text` is refused where `bytes` is needed although every text value is accepted there. */
  lemma RefusedYetIncluded()
    ensures !Text.AssignableTo(Bytes)
    ensures forall v: Value :: Text.MatchesValue(v) ==> Bytes.MatchesValue(v)
  {}
}
