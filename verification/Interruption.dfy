/** Stopping a node loop anywhere and starting it again, for any step function that keeps to its own rows. */
module Interruption {
  import opened Wrappers
  import opened Ledger
  import opened RunSpec

  type StepFunction = (nat, Volatile, Store) -> Step

  // ---------------------------------------------------------------- one node's share of the ledger

  predicate Touches(w: Write, node: string) {
    match w
    case Put(key, _) => key.node == node
    case Pin(n, _) => n == node
  }

  ghost predicate AllTouch(ws: seq<Write>, node: string) {
    forall i :: 0 <= i < |ws| ==> Touches(ws[i], node)
  }

  ghost predicate NoneTouches(ws: seq<Write>, node: string) {
    forall i :: 0 <= i < |ws| ==> !Touches(ws[i], node)
  }

  /** The two ledgers hold the same rows and the same pin for the node. */
  ghost predicate AgreeOn(a: Store, b: Store, node: string) {
    && (forall item :: Key(node, item) in a.rows <==> Key(node, item) in b.rows)
    && (forall item :: Key(node, item) in a.rows ==> a.rows[Key(node, item)] == b.rows[Key(node, item)])
    && (node in a.manifests <==> node in b.manifests)
    && (node in a.manifests ==> a.manifests[node] == b.manifests[node])
  }

  /** The ledger knows nothing about the node. */
  ghost predicate Fresh(s: Store, node: string) {
    (forall item :: Key(node, item) !in s.rows) && node !in s.manifests
  }

  lemma {:induction false} UntouchedAgrees(s: Store, ws: seq<Write>, node: string)
    requires NoneTouches(ws, node)
    ensures AgreeOn(s, ApplyAll(s, ws), node)
    decreases |ws|
  {
    if ws != [] {
      assert !Touches(ws[0], node);
      assert AgreeOn(s, Apply(s, ws[0]), node);
      forall i | 0 <= i < |ws[1..]| ensures !Touches(ws[1..][i], node) { assert ws[1..][i] == ws[i + 1]; }
      UntouchedAgrees(Apply(s, ws[0]), ws[1..], node);
    }
  }

  lemma UntouchedFresh(s: Store, ws: seq<Write>, node: string)
    requires NoneTouches(ws, node) && Fresh(s, node)
    ensures Fresh(ApplyAll(s, ws), node)
  {
    UntouchedAgrees(s, ws, node);
  }

  lemma {:induction false} AgreeKept(a: Store, b: Store, ws: seq<Write>, node: string)
    requires AgreeOn(a, b, node)
    ensures AgreeOn(ApplyAll(a, ws), ApplyAll(b, ws), node)
    decreases |ws|
  {
    if ws != [] {
      AgreeKept(Apply(a, ws[0]), Apply(b, ws[0]), ws[1..], node);
    }
  }

  // ---------------------------------------------------------------- what is asked of a step

  ghost predicate Distinct(names: seq<string>) {
    forall i, j :: 0 <= i < j < |names| ==> names[i] != names[j]
  }

  /** Each step reads and writes its own node's share only. */
  ghost predicate Local(step: StepFunction, names: seq<string>) {
    && (forall i: nat, vol, a, b {:trigger step(i, vol, a), step(i, vol, b)} ::
          i < |names| && AgreeOn(a, b, names[i]) ==> step(i, vol, a) == step(i, vol, b))
    && (forall i: nat, vol, s {:trigger step(i, vol, s)} ::
          i < |names| ==> AllTouch(step(i, vol, s).writes, names[i]))
  }

  /** What the interrupted step still has to write, or, when it had halted on its last write, that write again. */
  ghost predicate Remainder(rest: seq<Write>, all: seq<Write>, m: nat)
    requires m <= |all|
  {
    rest == all[m..] || (m == |all| && m > 0 && rest == [all[m - 1]])
  }

  ghost predicate ResumesAfter(first: Step, again: Step, m: nat)
    requires m <= |first.writes|
  {
    match first
    case Advance(writes, vol) => again == Advance(writes[m..], vol)
    case Halt(writes, envelope) => again.Halt? && again.envelope == envelope && Remainder(again.writes, writes, m)
  }

  /** A step interrupted after `m` of its writes does the rest when it is taken again. */
  ghost predicate ResumableAt(step: StepFunction, names: seq<string>, i: nat, vol: Volatile, s: Store, m: nat)
    requires i < |names| && m <= |step(i, vol, s).writes|
  {
    ResumesAfter(step(i, vol, s), step(i, vol, ApplyAll(s, step(i, vol, s).writes[..m])), m)
  }

  ghost predicate Resumable(step: StepFunction, names: seq<string>) {
    forall i: nat, vol, s, m: nat {:trigger ResumableAt(step, names, i, vol, s, m)} ::
      i < |names| && Fresh(s, names[i]) && m <= |step(i, vol, s).writes| ==> ResumableAt(step, names, i, vol, s, m)
  }

  // ---------------------------------------------------------------- the loop

  ghost predicate FreshFrom(s: Store, names: seq<string>, i: nat) {
    forall k :: i <= k < |names| ==> Fresh(s, names[k])
  }

  ghost predicate Resumed(whole: Traversal, again: Traversal, j: nat)
    requires j <= |whole.writes|
  {
    again.vol == whole.vol && again.stop == whole.stop && Remainder(again.writes, whole.writes, j)
  }

  lemma {:induction false} LaterTouches(step: StepFunction, names: seq<string>, i: nat, vol: Volatile, s: Store, k: nat)
    requires Distinct(names) && Local(step, names) && k < i <= |names|
    ensures NoneTouches(Traverse(step, |names|, i, vol, s).writes, names[k])
    decreases |names| - i
  {
    if i < |names| {
      var first := step(i, vol, s);
      assert AllTouch(first.writes, names[i]);
      if first.Advance? {
        LaterTouches(step, names, i + 1, first.vol, ApplyAll(s, first.writes), k);
      }
    }
  }

  lemma {:induction false} StillFresh(s: Store, ws: seq<Write>, names: seq<string>, i: nat)
    requires Distinct(names) && i < |names| && FreshFrom(s, names, i) && AllTouch(ws, names[i])
    ensures FreshFrom(ApplyAll(s, ws), names, i + 1)
  {
    forall k | i + 1 <= k < |names| ensures Fresh(ApplyAll(s, ws), names[k]) {
      UntouchedFresh(s, ws, names[k]);
    }
  }

  /** Interrupted within the node it is at. */
  lemma ResumeHere(step: StepFunction, names: seq<string>, i: nat, vol: Volatile, s: Store, j: nat)
    requires Distinct(names) && Local(step, names) && Resumable(step, names)
    requires i < |names| && FreshFrom(s, names, i)
    requires j <= |step(i, vol, s).writes|
    ensures var whole := Traverse(step, |names|, i, vol, s);
            j <= |whole.writes| && Resumed(whole, Traverse(step, |names|, i, vol, ApplyAll(s, whole.writes[..j])), j)
  {
    hide Traverse, ApplyAll;
    var first := step(i, vol, s);
    var whole := Traverse(step, |names|, i, vol, s);
    TraverseFirst(step, |names|, i, vol, s);
    assert ResumableAt(step, names, i, vol, s, j);
    assert whole.writes[..j] == first.writes[..j];
    var mid := ApplyAll(s, first.writes[..j]);
    TraverseFirst(step, |names|, i, vol, mid);
    ApplyConcat(s, first.writes[..j], first.writes[j..]);
    assert first.writes[..j] + first.writes[j..] == first.writes;
    if first.Advance? {
      var rest := Traverse(step, |names|, i + 1, first.vol, ApplyAll(s, first.writes));
      CutInFirst(first.writes, rest.writes, j);
    }
  }

  lemma CutInFirst<T>(a: seq<T>, b: seq<T>, j: nat)
    requires j <= |a|
    ensures (a + b)[..j] == a[..j] && (a + b)[j..] == a[j..] + b
  {}

  lemma TraverseFirst(step: StepFunction, n: nat, i: nat, vol: Volatile, s: Store)
    requires i < n
    ensures var first := step(i, vol, s);
            (first.Halt? ==> Traverse(step, n, i, vol, s) == Traversal(first.writes, vol, Some(first.envelope))) &&
            (first.Advance? ==>
              var rest := Traverse(step, n, i + 1, first.vol, ApplyAll(s, first.writes));
              Traverse(step, n, i, vol, s) == Traversal(first.writes + rest.writes, rest.vol, rest.stop))
  {}

  lemma ShiftResumed(whole: Traversal, rest: Traversal, again: Traversal, head: seq<Write>, j: nat)
    requires |head| < j <= |whole.writes| && whole == Traversal(head + rest.writes, rest.vol, rest.stop)
    requires Resumed(rest, again, j - |head|)
    ensures Resumed(whole, again, j)
  {
    assert whole.writes[j..] == rest.writes[j - |head|..];
  }

  lemma ResumeAtEnd(step: StepFunction, n: nat, vol: Volatile, s: Store, j: nat)
    requires j <= |Traverse(step, n, n, vol, s).writes|
    ensures var whole := Traverse(step, n, n, vol, s); Resumed(whole, Traverse(step, n, n, vol, ApplyAll(s, whole.writes[..j])), j)
  {}

  lemma OwnWrites(step: StepFunction, names: seq<string>, i: nat, vol: Volatile, s: Store)
    requires Local(step, names) && i < |names|
    ensures AllTouch(step(i, vol, s).writes, names[i])
  {}

  /** The crux: a loop cut after `j` writes and started over writes what was left, and nothing else. */
  lemma {:induction false} TraverseResumes(step: StepFunction, names: seq<string>, i: nat, vol: Volatile, s: Store, j: nat)
    requires Distinct(names) && Local(step, names) && Resumable(step, names)
    requires i <= |names| && FreshFrom(s, names, i)
    requires j <= |Traverse(step, |names|, i, vol, s).writes|
    ensures var whole := Traverse(step, |names|, i, vol, s);
            Resumed(whole, Traverse(step, |names|, i, vol, ApplyAll(s, whole.writes[..j])), j)
    decreases |names| - i
  {
    hide Local, Resumable, Traverse, ApplyAll, Resumed, FreshFrom;
    if i == |names| {
      ResumeAtEnd(step, |names|, vol, s, j);
    } else {
      var first := step(i, vol, s);
      if j <= |first.writes| {
        ResumeHere(step, names, i, vol, s, j);
      } else {
        ResumeLater(step, names, i, vol, s, j);
        var s1, later := ApplyAll(s, first.writes), j - |first.writes|;
        OwnWrites(step, names, i, vol, s);
        TraverseFirst(step, |names|, i, vol, s);
        StillFresh(s, first.writes, names, i);
        TraverseResumes(step, names, i + 1, first.vol, s1, later);
        var rest := Traverse(step, |names|, i + 1, first.vol, s1);
        ShiftResumed(Traverse(step, |names|, i, vol, s), rest,
                     Traverse(step, |names|, i + 1, first.vol, ApplyAll(s1, rest.writes[..later])), first.writes, j);
      }
    }
  }

  /** Interrupted further on: the node here is passed over without a write. */
  lemma ResumeLater(step: StepFunction, names: seq<string>, i: nat, vol: Volatile, s: Store, j: nat)
    requires Distinct(names) && Local(step, names) && Resumable(step, names)
    requires i < |names| && FreshFrom(s, names, i)
    requires |step(i, vol, s).writes| < j <= |Traverse(step, |names|, i, vol, s).writes|
    ensures step(i, vol, s).Advance?
    ensures var first := step(i, vol, s);
            var whole := Traverse(step, |names|, i, vol, s);
            var rest := Traverse(step, |names|, i + 1, first.vol, ApplyAll(s, first.writes));
            var cut := ApplyAll(ApplyAll(s, first.writes), rest.writes[..j - |first.writes|]);
            whole.writes == first.writes + rest.writes && ApplyAll(s, whole.writes[..j]) == cut &&
            step(i, vol, cut) == Advance([], first.vol) &&
            Traverse(step, |names|, i, vol, cut) == Traverse(step, |names|, i + 1, first.vol, cut)
  {
    var first := step(i, vol, s);
    var rest := Traverse(step, |names|, i + 1, first.vol, ApplyAll(s, first.writes));
    var s1, head := ApplyAll(s, first.writes), rest.writes[..j - |first.writes|];
    var cut := ApplyAll(s1, head);
    assert (first.writes + rest.writes)[..j] == first.writes + head;
    ApplyConcat(s, first.writes, head);
    LaterTouches(step, names, i + 1, first.vol, s1, i);
    UntouchedAgrees(s1, head, names[i]);
    assert ResumableAt(step, names, i, vol, s, |first.writes|);
    assert first.writes[..|first.writes|] == first.writes && first.writes[|first.writes|..] == [];
    assert step(i, vol, s1) == Advance([], first.vol);
    assert step(i, vol, cut) == step(i, vol, s1);
    assert ApplyAll(cut, []) == cut;
    var after := Traverse(step, |names|, i + 1, first.vol, cut);
    assert [] + after.writes == after.writes;
  }

  ghost predicate AllAre(good: Write -> bool, ws: seq<Write>) {
    forall k :: 0 <= k < |ws| ==> good(ws[k])
  }

  /** What holds of every write of every step holds of every write of the loop. */
  lemma {:induction false} TraverseAllAre(step: StepFunction, n: nat, i: nat, vol: Volatile, s: Store, good: Write -> bool)
    requires i <= n
    requires forall k: nat, v, t {:trigger step(k, v, t)} :: k < n ==> AllAre(good, step(k, v, t).writes)
    ensures AllAre(good, Traverse(step, n, i, vol, s).writes)
    decreases n - i
  {
    if i < n {
      var first := step(i, vol, s);
      if first.Advance? { TraverseAllAre(step, n, i + 1, first.vol, ApplyAll(s, first.writes), good); }
    }
  }

  // ---------------------------------------------------------------- cancellation

  /** `cut` does what `step` does, or stops the job part of the way. */
  ghost predicate CutsShort(cut: Step, step: Step) {
    cut == step || (cut.Halt? && cut.envelope == Aborted && cut.writes <= step.writes)
  }

  /** A loop that may be cancelled anywhere writes a prefix of what the loop writes. */
  lemma {:induction false} TraverseCutShort(cut: StepFunction, step: StepFunction, n: nat, i: nat, vol: Volatile, s: Store)
    requires i <= n
    requires forall k: nat, v, t {:trigger step(k, v, t)} :: k < n ==> CutsShort(cut(k, v, t), step(k, v, t))
    ensures Traverse(cut, n, i, vol, s).writes <= Traverse(step, n, i, vol, s).writes
    decreases n - i
  {
    if i < n {
      var first := step(i, vol, s);
      if cut(i, vol, s) == first && first.Advance? {
        TraverseCutShort(cut, step, n, i + 1, first.vol, ApplyAll(s, first.writes));
      }
    }
  }

  /** Two loops that agree wherever the ledger has the rows it had at the start do the same. */
  lemma {:induction false} TraverseSame(a: StepFunction, b: StepFunction, names: seq<string>, i: nat, vol: Volatile, s: Store, start: Store)
    requires Distinct(names) && Local(a, names) && i <= |names|
    requires forall k: nat, v, t {:trigger b(k, v, t)} ::
      k < |names| && AgreeOn(start, t, names[k]) ==> a(k, v, t) == b(k, v, t)
    requires forall k :: i <= k < |names| ==> AgreeOn(start, s, names[k])
    ensures Traverse(a, |names|, i, vol, s) == Traverse(b, |names|, i, vol, s)
    decreases |names| - i
  {
    if i < |names| {
      var first := b(i, vol, s);
      assert first == a(i, vol, s);
      if first.Advance? {
        var s1 := ApplyAll(s, first.writes);
        forall k | i + 1 <= k < |names| ensures AgreeOn(start, s1, names[k]) {
          assert AllTouch(first.writes, names[i]);
          UntouchedAgrees(s, first.writes, names[k]);
        }
        TraverseSame(a, b, names, i + 1, first.vol, s1, start);
      }
    }
  }
}
