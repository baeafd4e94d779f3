/** Collecting EXIF fields: following directory pointers without being led in circles. */
module Exif {
  import opened Wrappers
  import opened Types

  /** A field of a directory: a pointer to another one, a field that is reported, or one that is not. */
  datatype Field = Pointer(target: nat) | Reported(key: string, value: Value) | Other

  /** What reading the directory at an offset gives. */
  type Directories = nat -> Result<seq<Field>, string>

  const LIMIT: nat := 8

  type Found = map<string, Value>

  /** The first value reported under a key stays. */
  function Insert(found: Found, key: string, value: Value): Found {
    if key in found then found else found[key := value]
  }

  function TakeFields(fields: seq<Field>, i: nat, queue: seq<nat>, found: Found): (seq<nat>, Found)
    requires i <= |fields|
    decreases |fields| - i
  {
    if i == |fields| then (queue, found)
    else
      match fields[i]
      case Pointer(target) => TakeFields(fields, i + 1, queue + [target], found)
      case Reported(key, value) => TakeFields(fields, i + 1, queue, Insert(found, key, value))
      case Other => TakeFields(fields, i + 1, queue, found)
  }

  /** What a walk ends with: the directories read, in order, and the fields, or the first read that failed. */
  datatype Walked = Walked(seen: seq<nat>, found: Result<Found, string>)

  /** The last pointer is taken first; one already read, or past the limit, is dropped. */
  function WalkFrom(dirs: Directories, queue: seq<nat>, seen: seq<nat>, found: Found): Walked
    decreases if |seen| <= LIMIT then LIMIT + 1 - |seen| else 0, |queue|
  {
    if queue == [] then Walked(seen, Ok(found))
    else
      var offset, rest := queue[|queue| - 1], queue[..|queue| - 1];
      if offset in seen || |seen| > LIMIT then WalkFrom(dirs, rest, seen, found)
      else
        match dirs(offset)
        case Err(e) => Walked(seen + [offset], Err(e))
        case Ok(fields) =>
          var (more, taken) := TakeFields(fields, 0, rest, found);
          WalkFrom(dirs, more, seen + [offset], taken)
  }

  method Exif(dirs: Directories, ifd0: nat) returns (r: Result<Found, string>, seen: seq<nat>)
    ensures Walked(seen, r) == WalkFrom(dirs, [ifd0], [], map[])
  {
    var found: Found := map[];
    var queue := [ifd0];
    seen := [];
    while queue != []
      invariant WalkFrom(dirs, [ifd0], [], map[]) == WalkFrom(dirs, queue, seen, found)
      decreases if |seen| <= LIMIT then LIMIT + 1 - |seen| else 0, |queue|
    {
      var offset := queue[|queue| - 1];
      queue := queue[..|queue| - 1];
      if offset in seen || |seen| > LIMIT {
        continue;
      }
      seen := seen + [offset];
      var read := dirs(offset);
      if read.Err? {
        return Err(read.error), seen;
      }
      var fields := read.value;
      ghost var before, start := queue, found;
      for i := 0 to |fields|
        invariant TakeFields(fields, 0, before, start) == TakeFields(fields, i, queue, found)
      {
        match fields[i] {
          case Pointer(target) => queue := queue + [target];
          case Reported(key, value) => found := Insert(found, key, value);
          case Other =>
        }
      }
    }
    return Ok(found), seen;
  }

  // ---------------------------------------------------------------- how many directories are read

  ghost predicate Distinct(seen: seq<nat>) {
    forall i, j :: 0 <= i < j < |seen| ==> seen[i] != seen[j]
  }

  /** However the pointers go, at most nine directories are read, none of them twice. */
  lemma {:induction false} AtMostNineReads(dirs: Directories, queue: seq<nat>, seen: seq<nat>, found: Found)
    requires |seen| <= LIMIT + 1 && Distinct(seen)
    ensures var w := WalkFrom(dirs, queue, seen, found); |w.seen| <= LIMIT + 1 && Distinct(w.seen) && seen <= w.seen
    decreases if |seen| <= LIMIT then LIMIT + 1 - |seen| else 0, |queue|
  {
    if queue != [] {
      var offset, rest := queue[|queue| - 1], queue[..|queue| - 1];
      if offset in seen || |seen| > LIMIT {
        AtMostNineReads(dirs, rest, seen, found);
      } else {
        assert Distinct(seen + [offset]);
        var read := dirs(offset);
        if read.Ok? {
          var (more, taken) := TakeFields(read.value, 0, rest, found);
          AtMostNineReads(dirs, more, seen + [offset], taken);
          assert seen <= seen + [offset];
        }
      }
    }
  }

  // ---------------------------------------------------------------- which directories are read

  ghost predicate PointsTo(dirs: Directories, a: nat, b: nat) {
    dirs(a).Ok? && Pointer(b) in dirs(a).value
  }

  ghost predicate IsPath(dirs: Directories, p: seq<nat>) {
    p != [] && forall i, j :: 0 <= i < |p| && 0 <= j < |p| && j == i + 1 ==> PointsTo(dirs, p[i], p[j])
  }

  ghost predicate Leads(dirs: Directories, p: seq<nat>, a: nat, b: nat) {
    IsPath(dirs, p) && p[0] == a && p[|p| - 1] == b
  }

  ghost predicate Reachable(dirs: Directories, a: nat, b: nat) {
    exists p :: Leads(dirs, p, a, b)
  }

  lemma ReachesItself(dirs: Directories, a: nat)
    ensures Reachable(dirs, a, a)
  {
    assert Leads(dirs, [a], a, a);
  }

  lemma ReachesOn(dirs: Directories, a: nat, b: nat, c: nat)
    requires Reachable(dirs, a, b) && PointsTo(dirs, b, c)
    ensures Reachable(dirs, a, c)
  {
    var p :| Leads(dirs, p, a, b);
    var q := p + [c];
    forall i, j | 0 <= i < |q| && 0 <= j < |q| && j == i + 1 ensures PointsTo(dirs, q[i], q[j]) {
      if j < |p| { assert q[i] == p[i] && q[j] == p[j]; }
    }
    assert Leads(dirs, q, a, c);
  }

  lemma {:induction false} TakenQueue(fields: seq<Field>, i: nat, queue: seq<nat>, found: Found, x: nat)
    requires i <= |fields|
    ensures x in TakeFields(fields, i, queue, found).0 <==> x in queue || Pointer(x) in fields[i..]
    decreases |fields| - i
  {
    if i < |fields| {
      assert fields[i..] == [fields[i]] + fields[i + 1..];
      match fields[i]
      case Pointer(target) => TakenQueue(fields, i + 1, queue + [target], found, x);
      case Reported(key, value) => TakenQueue(fields, i + 1, queue, Insert(found, key, value), x);
      case Other => TakenQueue(fields, i + 1, queue, found, x);
    }
  }

  lemma TakenQueueHas(dirs: Directories, offset: nat, rest: seq<nat>, found: Found)
    requires dirs(offset).Ok?
    ensures forall x :: x in TakeFields(dirs(offset).value, 0, rest, found).0 <==> x in rest || PointsTo(dirs, offset, x)
  {
    var fields := dirs(offset).value;
    assert fields[0..] == fields;
    forall x ensures x in TakeFields(fields, 0, rest, found).0 <==> x in rest || PointsTo(dirs, offset, x) {
      TakenQueue(fields, 0, rest, found, x);
    }
  }

  /** Everything seen or waiting can be reached, and what a seen directory points to is seen or waiting. */
  ghost predicate Sound(dirs: Directories, ifd0: nat, queue: seq<nat>, seen: seq<nat>) {
    && (forall x :: x in queue || x in seen ==> Reachable(dirs, ifd0, x))
  }

  ghost predicate Complete(dirs: Directories, ifd0: nat, queue: seq<nat>, seen: seq<nat>) {
    && (ifd0 in queue || ifd0 in seen)
    && (forall a, b :: a in seen && PointsTo(dirs, a, b) ==> b in queue || b in seen)
  }

  lemma SoundNext(dirs: Directories, ifd0: nat, rest: seq<nat>, seen: seq<nat>, offset: nat, more: seq<nat>)
    requires Sound(dirs, ifd0, rest + [offset], seen)
    requires forall x :: x in more <==> x in rest || PointsTo(dirs, offset, x)
    ensures Sound(dirs, ifd0, more, seen + [offset])
  {
    assert offset in rest + [offset];
    forall x | x in more || x in seen + [offset] ensures Reachable(dirs, ifd0, x) {
      if x in rest { assert x in rest + [offset]; }
      if x in more && x !in rest { ReachesOn(dirs, ifd0, offset, x); }
    }
  }

  lemma CompleteNext(dirs: Directories, ifd0: nat, rest: seq<nat>, seen: seq<nat>, offset: nat, more: seq<nat>)
    requires Complete(dirs, ifd0, rest + [offset], seen)
    requires forall x :: x in more <==> x in rest || PointsTo(dirs, offset, x)
    ensures Complete(dirs, ifd0, more, seen + [offset])
  {}

  lemma {:induction false} WalkReads(dirs: Directories, ifd0: nat, queue: seq<nat>, seen: seq<nat>, found: Found)
    requires |seen| <= LIMIT + 1 && Sound(dirs, ifd0, queue, seen) && (|seen| <= LIMIT ==> Complete(dirs, ifd0, queue, seen))
    ensures var w := WalkFrom(dirs, queue, seen, found);
            Sound(dirs, ifd0, [], w.seen) && (w.found.Ok? && |w.seen| <= LIMIT ==> Complete(dirs, ifd0, [], w.seen))
    decreases if |seen| <= LIMIT then LIMIT + 1 - |seen| else 0, |queue|
  {
    if queue != [] {
      var offset, rest := queue[|queue| - 1], queue[..|queue| - 1];
      assert queue == rest + [offset];
      if offset in seen || |seen| > LIMIT {
        WalkReads(dirs, ifd0, rest, seen, found);
      } else {
        var read := dirs(offset);
        if read.Ok? {
          var (more, taken) := TakeFields(read.value, 0, rest, found);
          TakenQueueHas(dirs, offset, rest, found);
          SoundNext(dirs, ifd0, rest, seen, offset, more);
          CompleteNext(dirs, ifd0, rest, seen, offset, more);
          WalkReads(dirs, ifd0, more, seen + [offset], taken);
        } else {
          assert offset in queue;
        }
      }
    }
  }

  lemma {:induction false} ClosedReaches(dirs: Directories, ifd0: nat, seen: seq<nat>, p: seq<nat>, i: nat)
    requires Complete(dirs, ifd0, [], seen) && IsPath(dirs, p) && p[0] == ifd0 && i < |p|
    ensures p[i] in seen
  {
    if i > 0 {
      ClosedReaches(dirs, ifd0, seen, p, i - 1);
      assert PointsTo(dirs, p[i - 1], p[i]);
    }
  }

  /**
   On any directories, pointers in circles included, at most nine are read and each once; only
   those that can be reached from the first are read; and when the walk succeeds on fewer than
   nine, all of those are.
   */
  lemma ExifReadsExactly(dirs: Directories, ifd0: nat)
    ensures var w := WalkFrom(dirs, [ifd0], [], map[]);
            |w.seen| <= LIMIT + 1 && Distinct(w.seen) &&
            (forall x :: x in w.seen ==> Reachable(dirs, ifd0, x)) &&
            (w.found.Ok? && |w.seen| <= LIMIT ==> forall x :: Reachable(dirs, ifd0, x) ==> x in w.seen)
  {
    AtMostNineReads(dirs, [ifd0], [], map[]);
    ReachesItself(dirs, ifd0);
    WalkReads(dirs, ifd0, [ifd0], [], map[]);
    var w := WalkFrom(dirs, [ifd0], [], map[]);
    if w.found.Ok? && |w.seen| <= LIMIT {
      forall x | Reachable(dirs, ifd0, x) ensures x in w.seen {
        var p :| Leads(dirs, p, ifd0, x);
        ClosedReaches(dirs, ifd0, w.seen, p, |p| - 1);
      }
    }
  }

  // ---------------------------------------------------------------- what is found

  /** The `i`-th field of the `k`-th directory read reports the key. */
  predicate Reports(dirs: Directories, seen: seq<nat>, k: nat, i: nat, key: string) {
    k < |seen| && dirs(seen[k]).Ok? && i < |dirs(seen[k]).value| &&
    dirs(seen[k]).value[i].Reported? && dirs(seen[k]).value[i].key == key
  }

  /** It is the first to do so. */
  ghost predicate ReportsFirst(dirs: Directories, seen: seq<nat>, k: nat, i: nat, key: string) {
    Reports(dirs, seen, k, i, key) &&
    (forall l: nat, j: nat :: l < k ==> !Reports(dirs, seen, l, j, key)) && forall j: nat :: j < i ==> !Reports(dirs, seen, k, j, key)
  }

  ghost predicate FirstReport(dirs: Directories, seen: seq<nat>, key: string, value: Value) {
    exists k: nat, i: nat :: ReportsFirst(dirs, seen, k, i, key) && dirs(seen[k]).value[i].value == value
  }

  /** Under every key the first value reported for it, and no other key. */
  ghost predicate Gathers(dirs: Directories, seen: seq<nat>, found: Found) {
    && (forall key :: key in found ==> FirstReport(dirs, seen, key, found[key]))
    && (forall key, k: nat, i: nat :: Reports(dirs, seen, k, i, key) ==> key in found)
  }

  /** Field `i` is the first of these to report the key. */
  ghost predicate FirstOf(fields: seq<Field>, i: nat, key: string, value: Value) {
    i < |fields| && fields[i] == Reported(key, value) && forall j :: 0 <= j < i ==> !(fields[j].Reported? && fields[j].key == key)
  }

  ghost predicate ReportsKey(fields: seq<Field>, key: string) {
    exists i :: 0 <= i < |fields| && fields[i].Reported? && fields[i].key == key
  }

  /** One directory adds the first value of each key not found before. */
  lemma {:induction false} TakenFound(fields: seq<Field>, i: nat, queue: seq<nat>, found: Found, key: string)
    requires i <= |fields|
    ensures var taken := TakeFields(fields, i, queue, found).1;
            (key in found ==> key in taken && taken[key] == found[key]) &&
            (key !in found && key in taken ==> exists j :: FirstOf(fields[i..], j, key, taken[key])) &&
            (key in taken <==> key in found || ReportsKey(fields[i..], key))
    decreases |fields| - i
  {
    if i < |fields| {
      var (rest, later) := (fields[i..], fields[i + 1..]);
      assert rest[0] == fields[i] && rest[1..] == later;
      var next := if fields[i].Reported? then Insert(found, fields[i].key, fields[i].value) else found;
      var waiting := if fields[i].Pointer? then queue + [fields[i].target] else queue;
      TakenFound(fields, i + 1, waiting, next, key);
      var taken := TakeFields(fields, i, queue, found).1;
      ReportsKeyNext(rest, key);
      if key !in found && key in taken {
        if fields[i].Reported? && fields[i].key == key {
          assert FirstOf(rest, 0, key, taken[key]);
        } else {
          var j :| FirstOf(later, j, key, taken[key]);
          FirstOfNext(rest, j, key, taken[key]);
        }
      }
    }
  }

  lemma ReportsKeyNext(fields: seq<Field>, key: string)
    requires fields != []
    ensures ReportsKey(fields, key) <==> (fields[0].Reported? && fields[0].key == key) || ReportsKey(fields[1..], key)
  {
    if i :| 0 <= i < |fields| && fields[i].Reported? && fields[i].key == key {
      if i > 0 { assert fields[1..][i - 1] == fields[i]; }
    }
    if i :| 0 <= i < |fields[1..]| && fields[1..][i].Reported? && fields[1..][i].key == key { assert fields[i + 1] == fields[1..][i]; }
  }

  lemma FirstOfNext(fields: seq<Field>, j: nat, key: string, value: Value)
    requires fields != [] && FirstOf(fields[1..], j, key, value) && !(fields[0].Reported? && fields[0].key == key)
    ensures FirstOf(fields, j + 1, key, value)
  {
    forall l | 0 <= l < j + 1 ensures !(fields[l].Reported? && fields[l].key == key) {
      if l > 0 { assert fields[l] == fields[1..][l - 1]; }
    }
  }

  /** What was gathered before, and one more directory. */
  lemma GathersNext(dirs: Directories, seen: seq<nat>, offset: nat, found: Found, queue: seq<nat>)
    requires Gathers(dirs, seen, found) && dirs(offset).Ok?
    ensures Gathers(dirs, seen + [offset], TakeFields(dirs(offset).value, 0, queue, found).1)
  {
    var fields := dirs(offset).value;
    var more, taken := seen + [offset], TakeFields(fields, 0, queue, found).1;
    assert fields[0..] == fields;
    forall key | key in taken ensures FirstReport(dirs, more, key, taken[key]) {
      TakenFound(fields, 0, queue, found, key);
      GathersKey(dirs, seen, offset, found, taken, key);
    }
    forall key, k: nat, i: nat | Reports(dirs, more, k, i, key) ensures key in taken {
      TakenFound(fields, 0, queue, found, key);
      if k < |seen| { assert Reports(dirs, seen, k, i, key); }
    }
  }

  lemma GathersKey(dirs: Directories, seen: seq<nat>, offset: nat, found: Found, taken: Found, key: string)
    requires Gathers(dirs, seen, found) && dirs(offset).Ok? && key in taken
    requires key in found ==> taken[key] == found[key]
    requires key !in found ==> exists j :: FirstOf(dirs(offset).value, j, key, taken[key])
    ensures FirstReport(dirs, seen + [offset], key, taken[key])
  {
    var more := seen + [offset];
    if key in found {
      var k: nat, i: nat :| ReportsFirst(dirs, seen, k, i, key) && dirs(seen[k]).value[i].value == found[key];
      assert Reports(dirs, more, k, i, key);
      forall l: nat, j: nat | l < k ensures !Reports(dirs, more, l, j, key) { assert !Reports(dirs, seen, l, j, key); }
      forall j: nat | j < i ensures !Reports(dirs, more, k, j, key) { assert !Reports(dirs, seen, k, j, key); }
      assert ReportsFirst(dirs, more, k, i, key);
    } else {
      var j :| FirstOf(dirs(offset).value, j, key, taken[key]);
      forall l: nat, i: nat | l < |seen| ensures !Reports(dirs, more, l, i, key) { assert !Reports(dirs, seen, l, i, key); }
      assert ReportsFirst(dirs, more, |seen|, j, key);
    }
  }

  lemma {:induction false} WalkGathers(dirs: Directories, queue: seq<nat>, seen: seq<nat>, found: Found)
    requires Gathers(dirs, seen, found) && AllRead(dirs, seen)
    ensures var w := WalkFrom(dirs, queue, seen, found);
            match w.found
            case Ok(all) => Gathers(dirs, w.seen, all) && AllRead(dirs, w.seen)
            case Err(e) => w.seen != [] && dirs(w.seen[|w.seen| - 1]) == Err(e) && AllRead(dirs, w.seen[..|w.seen| - 1])
    decreases if |seen| <= LIMIT then LIMIT + 1 - |seen| else 0, |queue|
  {
    hide Gathers, TakeFields;
    if queue != [] {
      var offset, rest := queue[|queue| - 1], queue[..|queue| - 1];
      if offset in seen || |seen| > LIMIT {
        WalkGathers(dirs, rest, seen, found);
      } else if dirs(offset).Ok? {
        var (more, taken) := TakeFields(dirs(offset).value, 0, rest, found);
        GathersNext(dirs, seen, offset, found, rest);
        WalkGathers(dirs, more, seen + [offset], taken);
      } else {
        assert (seen + [offset])[..|seen|] == seen;
      }
    }
  }

  ghost predicate AllRead(dirs: Directories, seen: seq<nat>) {
    forall k :: 0 <= k < |seen| ==> dirs(seen[k]).Ok?
  }

  /** What the walk reports: under each key the first value in reading order; or the first directory that cannot be read. */
  lemma ExifFindsFirst(dirs: Directories, ifd0: nat)
    ensures var w := WalkFrom(dirs, [ifd0], [], map[]);
            match w.found
            case Ok(all) => Gathers(dirs, w.seen, all) && AllRead(dirs, w.seen)
            case Err(e) => w.seen != [] && dirs(w.seen[|w.seen| - 1]) == Err(e) && AllRead(dirs, w.seen[..|w.seen| - 1])
  {
    WalkGathers(dirs, [ifd0], [], map[]);
  }

  // ---------------------------------------------------------------- in which order

  /** `x` is the last of these not seen yet. */
  ghost predicate LastUnseen(queue: seq<nat>, seen: seq<nat>, x: nat) {
    exists i :: 0 <= i < |queue| && queue[i] == x && x !in seen && forall j :: i < j < |queue| ==> queue[j] in seen
  }

  lemma {:induction false} ReadNext(dirs: Directories, queue: seq<nat>, seen: seq<nat>, found: Found, x: nat)
    requires |seen| <= LIMIT && LastUnseen(queue, seen, x)
    ensures var w := WalkFrom(dirs, queue, seen, found); |seen| < |w.seen| && w.seen[|seen|] == x
    decreases |queue|
  {
    var i :| 0 <= i < |queue| && queue[i] == x && x !in seen && forall j :: i < j < |queue| ==> queue[j] in seen;
    var offset, rest := queue[|queue| - 1], queue[..|queue| - 1];
    if i < |queue| - 1 {
      assert rest[i] == x;
      ReadNext(dirs, rest, seen, found, x);
    } else if dirs(offset).Ok? {
      var (more, taken) := TakeFields(dirs(offset).value, 0, rest, found);
      GrowsFrom(dirs, more, seen + [offset], taken);
      assert (seen + [offset])[|seen|] == offset;
    }
  }

  lemma {:induction false} GrowsFrom(dirs: Directories, queue: seq<nat>, seen: seq<nat>, found: Found)
    ensures seen <= WalkFrom(dirs, queue, seen, found).seen
    decreases if |seen| <= LIMIT then LIMIT + 1 - |seen| else 0, |queue|
  {
    if queue != [] {
      var offset, rest := queue[|queue| - 1], queue[..|queue| - 1];
      if offset in seen || |seen| > LIMIT {
        GrowsFrom(dirs, rest, seen, found);
      } else if dirs(offset).Ok? {
        var (more, taken) := TakeFields(dirs(offset).value, 0, rest, found);
        GrowsFrom(dirs, more, seen + [offset], taken);
        assert seen <= seen + [offset];
      }
    }
  }

  /** The last of the fields that points to a directory not seen yet points to `x`. */
  ghost predicate LastPointer(fields: seq<Field>, seen: seq<nat>, x: nat) {
    exists i :: 0 <= i < |fields| && fields[i] == Pointer(x) && x !in seen &&
      forall j :: i < j < |fields| && fields[j].Pointer? ==> fields[j].target in seen
  }

  lemma {:induction false} TakenLast(fields: seq<Field>, i: nat, queue: seq<nat>, found: Found, seen: seq<nat>, x: nat)
    requires i <= |fields|
    requires LastPointer(fields[i..], seen, x) ||
             (LastUnseen(queue, seen, x) && forall j :: i <= j < |fields| && fields[j].Pointer? ==> fields[j].target in seen)
    ensures LastUnseen(TakeFields(fields, i, queue, found).0, seen, x)
    decreases |fields| - i
  {
    if i < |fields| {
      var rest := fields[i..];
      assert rest[0] == fields[i] && rest[1..] == fields[i + 1..];
      var next := if fields[i].Reported? then Insert(found, fields[i].key, fields[i].value) else found;
      var waiting := if fields[i].Pointer? then queue + [fields[i].target] else queue;
      if LastPointer(rest, seen, x) {
        var k :| 0 <= k < |rest| && rest[k] == Pointer(x) && x !in seen && forall j :: k < j < |rest| && rest[j].Pointer? ==> rest[j].target in seen;
        if k == 0 {
          assert waiting[|queue|] == x;
          forall j | i + 1 <= j < |fields| && fields[j].Pointer? ensures fields[j].target in seen { assert fields[j] == rest[j - i]; }
        } else {
          var later := fields[i + 1..];
          assert later[k - 1] == Pointer(x);
          forall j | k - 1 < j < |later| && later[j].Pointer? ensures later[j].target in seen {
            assert later[j] == rest[j + 1];
          }
        }
      } else {
        var k :| 0 <= k < |queue| && queue[k] == x && x !in seen && forall j :: k < j < |queue| ==> queue[j] in seen;
        assert waiting[k] == x;
      }
      TakenLast(fields, i + 1, waiting, next, seen, x);
    } else {
      assert fields[i..] == [];
    }
  }

  /** After a directory the last one it points to, of those not seen, is read next. */
  lemma {:induction false} LastPointerNext(dirs: Directories, queue: seq<nat>, seen: seq<nat>, found: Found, k: nat, x: nat)
    requires |seen| <= k < LIMIT
    requires var w := WalkFrom(dirs, queue, seen, found);
             k < |w.seen| && dirs(w.seen[k]).Ok? && LastPointer(dirs(w.seen[k]).value, w.seen[..k + 1], x)
    ensures var w := WalkFrom(dirs, queue, seen, found); k + 1 < |w.seen| && w.seen[k + 1] == x
    decreases if |seen| <= LIMIT then LIMIT + 1 - |seen| else 0, |queue|
  {
    hide LastPointer, TakeFields;
    if queue != [] {
      var offset, rest := queue[|queue| - 1], queue[..|queue| - 1];
      if offset in seen {
        LastPointerNext(dirs, rest, seen, found, k, x);
      } else if dirs(offset).Ok? {
        var (more, taken) := TakeFields(dirs(offset).value, 0, rest, found);
        GrowsFrom(dirs, more, seen + [offset], taken);
        if |seen| == k {
          assert WalkFrom(dirs, queue, seen, found).seen[..k + 1] == seen + [offset];
          assert dirs(offset).value[0..] == dirs(offset).value;
          TakenLast(dirs(offset).value, 0, rest, found, seen + [offset], x);
          ReadNext(dirs, more, seen + [offset], taken, x);
        } else {
          LastPointerNext(dirs, more, seen + [offset], taken, k, x);
        }
      }
    }
  }
}
