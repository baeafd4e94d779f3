/** Reading a file through bounded windows: the host's handles and the loops that walk them. */
module Windows {
  import opened Wrappers
  import opened Utf8

  datatype HandleError =
    | BadHandle(handle: nat)
    | OffsetPastEnd(offset: nat, fileLen: nat)
    | WindowTooSmall(window: nat)

  /** A window's text, as its bytes, and where it really ended. */
  datatype Window = Window(text: Bytes, nextOffset: nat)

  function Min(a: nat, b: nat): nat { if a <= b then a else b }

  // ---------------------------------------------------------------- one window

  /** The bytes a window of `len` covers, clamped at the end of the file. */
  function Covered(file: Bytes, offset: nat, len: nat): Bytes
    requires offset <= |file|
  {
    file[offset..offset + Min(len, |file| - offset)]
  }

  function RawWindow(file: Bytes, offset: nat, len: nat): Result<Window, HandleError> {
    if offset > |file| then Err(OffsetPastEnd(offset, |file|))
    else Ok(Window(Covered(file, offset, len), offset + |Covered(file, offset, len)|))
  }

  /** Cut back to the last whole character; a window with no whole character is an error. */
  function TextWindow(file: Bytes, offset: nat, len: nat): Result<Window, HandleError> {
    if offset > |file| then Err(OffsetPastEnd(offset, |file|))
    else
      var buf := Covered(file, offset, len);
      var valid := ValidUpTo(buf);
      if valid == 0 && buf != [] then Err(WindowTooSmall(len)) else Ok(Window(buf[..valid], offset + valid))
  }

  datatype OpenFile = OpenFile(bytes: Bytes, kind: string)

  class Handles {
    var next: nat
    var open: map<nat, OpenFile>

    ghost predicate Valid()
      reads this
    {
      forall h :: h in open ==> h < next
    }

    constructor ()
      ensures Valid() && open == map[]
    {
      next, open := 0, map[];
    }

    /** A new handle never names anything that was open before. */
    method Open(file: Bytes, kind: string) returns (handle: nat, len: nat)
      requires Valid()
      modifies this
      ensures Valid() && handle !in old(open) && len == |file|
      ensures open == old(open)[handle := OpenFile(file, kind)]
    {
      handle, len := next, |file|;
      next := next + 1;
      open := open[handle := OpenFile(file, kind)];
    }

    method Kind(handle: nat) returns (r: Result<string, HandleError>)
      ensures r == if handle in open then Ok(open[handle].kind) else Err(BadHandle(handle))
    {
      return if handle in open then Ok(open[handle].kind) else Err(BadHandle(handle));
    }

    method ReadAll(handle: nat) returns (r: Result<Bytes, HandleError>)
      ensures r == if handle in open then Ok(open[handle].bytes) else Err(BadHandle(handle))
    {
      return if handle in open then Ok(open[handle].bytes) else Err(BadHandle(handle));
    }

    method SliceBytes(handle: nat, offset: nat, len: nat) returns (r: Result<Window, HandleError>)
      ensures r == if handle in open then RawWindow(open[handle].bytes, offset, len) else Err(BadHandle(handle))
      ensures r.Ok? <==> handle in open && offset <= |open[handle].bytes|
      ensures r.Ok? ==> offset <= r.value.nextOffset <= |open[handle].bytes| && r.value.text == open[handle].bytes[offset..r.value.nextOffset]
      ensures r.Ok? ==> r.value.nextOffset == offset + len || r.value.nextOffset == |open[handle].bytes| < offset + len
    {
      if handle !in open {
        return Err(BadHandle(handle));
      }
      var file := open[handle].bytes;
      if offset > |file| {
        return Err(OffsetPastEnd(offset, |file|));
      }
      var buf := ReadExact(file, offset, Min(len, |file| - offset));
      return Ok(Window(buf[..], offset + buf.Length));
    }

    method Slice(handle: nat, offset: nat, len: nat) returns (r: Result<Window, HandleError>)
      ensures r == if handle in open then TextWindow(open[handle].bytes, offset, len) else Err(BadHandle(handle))
    {
      hide CharLen, ValidUpTo;
      if handle !in open {
        return Err(BadHandle(handle));
      }
      var file := open[handle].bytes;
      if offset > |file| {
        return Err(OffsetPastEnd(offset, |file|));
      }
      var buf := ReadExact(file, offset, Min(len, |file| - offset));
      var valid := CheckUtf8(buf[..]);
      if valid == 0 && buf.Length != 0 {
        return Err(WindowTooSmall(len));
      }
      return Ok(Window(buf[..valid], offset + valid));
    }
  }

  /** Fill a buffer from the file. */
  method ReadExact(file: Bytes, offset: nat, want: nat) returns (buf: array<Byte>)
    requires offset + want <= |file|
    ensures fresh(buf) && buf[..] == file[offset..offset + want]
  {
    buf := new Byte[want](_ => 0);
    for i := 0 to want
      invariant forall k :: 0 <= k < i ==> buf[k] == file[offset + k]
    {
      buf[i] := file[offset + i];
    }
  }

  /** `str::from_utf8`: how far the bytes are valid. */
  method CheckUtf8(buf: Bytes) returns (valid: nat)
    ensures valid == ValidUpTo(buf)
  {
    valid := 0;
    while CharLen(buf[valid..]) != 0
      invariant valid <= |buf| && ValidUpTo(buf) == valid + ValidUpTo(buf[valid..])
      decreases |buf| - valid
    {
      assert buf[valid..][CharLen(buf[valid..])..] == buf[valid + CharLen(buf[valid..])..];
      valid := valid + CharLen(buf[valid..]);
    }
  }

  /** What a window over bytes that are there holds: their longest valid beginning, if it is not empty or nothing was asked. */
  ghost predicate CutBack(buf: Bytes, offset: nat, len: nat, n: nat, r: Result<Window, HandleError>) {
    LongestValid(buf, n) && r == if n == 0 && buf != [] then Err(WindowTooSmall(len)) else Ok(Window(buf[..n], offset + n))
  }

  /** A window, exactly: past the end it is refused, and otherwise holds the longest valid text it covers. */
  lemma WindowExactly(file: Bytes, offset: nat, len: nat, r: Result<Window, HandleError>)
    ensures TextWindow(file, offset, len) == r <==>
            if offset > |file| then r == Err(OffsetPastEnd(offset, |file|))
            else
              var buf := if offset + len <= |file| then file[offset..offset + len] else file[offset..];
              exists n: nat :: CutBack(buf, offset, len, n, r)
  {
    hide ValidUpTo;
    if offset <= |file| {
      var buf := if offset + len <= |file| then file[offset..offset + len] else file[offset..];
      assert buf == Covered(file, offset, len);
      LongestValidExactly(buf, ValidUpTo(buf));
      assert CutBack(buf, offset, len, ValidUpTo(buf), TextWindow(file, offset, len));
      forall n: nat | CutBack(buf, offset, len, n, r) ensures n == ValidUpTo(buf) { LongestValidExactly(buf, n); }
    }
  }

  // ---------------------------------------------------------------- walking a text file

  lemma WindowAdvances(file: Bytes, offset: nat, w: nat)
    requires offset < |file| && w > 0
    ensures var r := TextWindow(file, offset, w);
            r.Ok? ==> r.value.text != [] && offset < r.value.nextOffset <= |file|
  {}

  /** The texts of a walk that asks for `w` bytes at a time and resumes where each window ended. */
  function Walk(file: Bytes, w: nat, offset: nat): Result<seq<Bytes>, HandleError>
    requires w > 0 && offset <= |file|
    decreases |file| - offset
  {
    if offset == |file| then Ok([])
    else
      WindowAdvances(file, offset, w);
      match TextWindow(file, offset, w)
      case Err(e) => Err(e)
      case Ok(window) =>
        match Walk(file, w, window.nextOffset)
        case Err(e) => Err(e)
        case Ok(rest) => Ok([window.text] + rest)
  }

  function Concat(texts: seq<Bytes>): Bytes {
    if texts == [] then [] else texts[0] + Concat(texts[1..])
  }

  function Then(texts: seq<Bytes>, rest: Result<seq<Bytes>, HandleError>): Result<seq<Bytes>, HandleError> {
    match rest
    case Ok(more) => Ok(texts + more)
    case Err(e) => Err(e)
  }

  lemma ThenAtEnds(texts: seq<Bytes>, rest: Result<seq<Bytes>, HandleError>)
    ensures Then([], rest) == rest && Then(texts, Ok([])) == Ok(texts)
  {
    if rest.Ok? { assert [] + rest.value == rest.value; }
    assert texts + [] == texts;
  }

  lemma WalkNext(file: Bytes, w: nat, offset: nat, texts: seq<Bytes>)
    requires w > 0 && offset < |file|
    ensures var r := TextWindow(file, offset, w);
            (r.Err? ==> Then(texts, Walk(file, w, offset)) == Err(r.error)) &&
            (r.Ok? ==> offset < r.value.nextOffset <= |file| &&
                       Then(texts, Walk(file, w, offset)) == Then(texts + [r.value.text], Walk(file, w, r.value.nextOffset)))
  {
    WindowAdvances(file, offset, w);
    var r := TextWindow(file, offset, w);
    if r.Ok? {
      var rest := Walk(file, w, r.value.nextOffset);
      if rest.Ok? { assert texts + ([r.value.text] + rest.value) == texts + [r.value.text] + rest.value; }
    }
  }

  /** A block's loop over a file it has open. */
  method WalkFile(handles: Handles, handle: nat, w: nat) returns (r: Result<seq<Bytes>, HandleError>)
    requires w > 0 && handle in handles.open
    ensures r == Walk(handles.open[handle].bytes, w, 0)
  {
    var len := |handles.open[handle].bytes|;
    ghost var file := handles.open[handle].bytes;
    var offset, texts: seq<Bytes> := 0, [];
    ThenAtEnds([], Walk(file, w, 0));
    while offset < len
      invariant offset <= len && Walk(file, w, 0) == Then(texts, Walk(file, w, offset))
      decreases len - offset
    {
      WalkNext(file, w, offset, texts);
      var window := handles.Slice(handle, offset, w);
      if window.Err? {
        return Err(window.error);
      }
      texts := texts + [window.value.text];
      offset := window.value.nextOffset;
    }
    ThenAtEnds(texts, Walk(file, w, offset));
    return Ok(texts);
  }

  /** Every character, as far as the bytes are valid, is at most `w` bytes long. */
  predicate CharsWithin(s: Bytes, w: nat) {
    CharLen(s) > 0 ==> CharLen(s) <= w && CharsWithin(s[CharLen(s)..], w)
  }

  lemma {:induction false} CharsWithinLength(s: Bytes, w: nat)
    requires |s| <= w || w >= 4
    ensures CharsWithin(s, w)
  {
    if CharLen(s) > 0 { CharsWithinLength(s[CharLen(s)..], w); }
  }

  lemma {:induction false} CharsWithinFrom(s: Bytes, v: nat, w: nat)
    requires v <= |s| && Valid(s[..v]) && v <= w
    ensures CharsWithin(s, w) <==> CharsWithin(s[v..], w)
    decreases v
  {
    if v == 0 {
      assert s[0..] == s;
    } else {
      var n := CharLen(s);
      CharLenCut(s, v);
      assert s[..v][n..] == s[n..][..v - n];
      assert s[n..][v - n..] == s[v..];
      CharsWithinFrom(s[n..], v - n, w);
    }
  }

  /** One window of a walk, seen from what is left of the file. */
  lemma WindowOfRest(file: Bytes, offset: nat, w: nat) returns (v: nat)
    requires offset < |file| && w > 0
    ensures var s := file[offset..];
            StopsAt(s, Min(w, |s|), v) &&
            TextWindow(file, offset, w) == if v == 0 then Err(WindowTooSmall(w)) else Ok(Window(s[..v], offset + v))
  {
    hide CharLen, ValidUpTo;
    var s := file[offset..];
    v := ValidUpToCut(s, Min(w, |s|));
    assert Covered(file, offset, w) == s[..Min(w, |s|)];
    assert s[..Min(w, |s|)][..v] == s[..v];
  }

  /** What a walk from `offset` delivers. */
  ghost predicate Delivers(s: Bytes, w: nat, r: Result<seq<Bytes>, HandleError>) {
    && (r.Ok? <==> Valid(s) && CharsWithin(s, w))
    && (r.Ok? ==> Concat(r.value) == s && forall i :: 0 <= i < |r.value| ==> r.value[i] != [] && Valid(r.value[i]))
  }

  lemma DeliversFirst(s: Bytes, w: nat, v: nat, rest: Result<seq<Bytes>, HandleError>)
    requires 0 < v <= Min(w, |s|) && StopsAt(s, Min(w, |s|), v) && Delivers(s[v..], w, rest)
    ensures Delivers(s, w, Then([s[..v]], rest))
  {
    hide CharLen;
    CharsWithinFrom(s, v, w);
    if rest.Ok? {
      assert ([s[..v]] + rest.value)[1..] == rest.value;
      assert s == s[..v] + s[v..];
    }
  }

  lemma NothingFits(s: Bytes, w: nat)
    requires s != [] && StopsAt(s, Min(w, |s|), 0)
    ensures !(Valid(s) && CharsWithin(s, w))
  {
    assert s[0..] == s;
  }

  lemma {:induction false} WalkDelivers(file: Bytes, w: nat, offset: nat)
    requires w > 0 && offset <= |file|
    ensures Delivers(file[offset..], w, Walk(file, w, offset))
    decreases |file| - offset
  {
    hide CharLen, ValidUpTo, CharsWithin;
    if offset == |file| {
      EmptyDelivers(w);
    } else {
      var s := file[offset..];
      var v := WindowOfRest(file, offset, w);
      if v == 0 {
        NothingFits(s, w);
      } else {
        WalkDelivers(file, w, offset + v);
        assert file[offset + v..] == s[v..];
        DeliversFirst(s, w, v, Walk(file, w, offset + v));
      }
    }
  }

  lemma EmptyDelivers(w: nat)
    ensures Delivers([], w, Ok([]))
  {}

  /**
   A walk gets through a file exactly when the file is valid UTF-8 and no character is longer
   than the window; its texts are then whole characters and put together are the file.
   */
  lemma WalkExactly(file: Bytes, w: nat)
    requires w > 0
    ensures Delivers(file, w, Walk(file, w, 0))
  {
    WalkDelivers(file, w, 0);
    assert file[0..] == file;
  }

  /** Four bytes hold any character. */
  lemma FourBytesSuffice(file: Bytes, w: nat)
    requires w >= 4
    ensures Walk(file, w, 0).Ok? <==> Valid(file)
  {
    WalkExactly(file, w);
    CharsWithinLength(file, w);
  }

  /** A window that is not the last falls at most three bytes short. */
  lemma NearlyFull(s: Bytes, w: nat, v: nat)
    requires w >= 4 && StopsAt(s, Min(w, |s|), v) && Valid(s) && v < |s|
    ensures v >= w - 3 && Valid(s[v..])
  {}

  lemma OneMoreWindow(m: nat, k: nat, left: nat, v: nat)
    requires m * k < left && v >= k
    ensures (m + 1) * k < left + v
  {
    assert (m + 1) * k == m * k + k;
  }

  lemma {:induction false} WalkCount(file: Bytes, w: nat, offset: nat)
    requires w >= 4 && offset < |file| && Valid(file[offset..])
    ensures var r := Walk(file, w, offset);
            r.Ok? && r.value != [] && (|r.value| - 1) * (w - 3) < |file| - offset
    decreases |file| - offset
  {
    hide CharLen, ValidUpTo, CharsWithin;
    var s := file[offset..];
    WalkDelivers(file, w, offset);
    CharsWithinLength(s, w);
    var v := WindowOfRest(file, offset, w);
    var r := Walk(file, w, offset);
    if offset + v < |file| {
      NearlyFull(s, w, v);
      assert file[offset + v..] == s[v..];
      WalkCount(file, w, offset + v);
      var rest := Walk(file, w, offset + v).value;
      OneMoreWindow(|rest| - 1, w - 3, |file| - offset - v, v);
    }
  }

  /** A valid file of n bytes takes at most n / (w - 3) windows, rounded up. */
  lemma WindowsNeeded(file: Bytes, w: nat)
    requires w >= 4 && Valid(file)
    ensures Walk(file, w, 0).Ok? && |Walk(file, w, 0).value| <= (|file| + w - 4) / (w - 3)
  {
    if file != [] {
      assert file[0..] == file;
      WalkCount(file, w, 0);
      var m := |Walk(file, w, 0).value|;
      DivideUp(m, w - 3, |file|);
    }
  }

  lemma MoreOf(a: nat, b: nat, k: nat)
    requires a >= b
    ensures a * k >= b * k
  {
    assert a * k == b * k + (a - b) * k;
  }

  lemma DivideUp(m: nat, k: nat, n: nat)
    requires k > 0 && m > 0 && (m - 1) * k < n
    ensures m <= (n + k - 1) / k
  {
    var q := (n + k - 1) / k;
    assert m * k == (m - 1) * k + k;
    assert n + k - 1 < (q + 1) * k;
    if m >= q + 1 { MoreOf(m, q + 1, k); }
  }

  /**
   Before the end of a file, a window moves on exactly when the character at its start is whole,
   well formed and fits; it is reported as too small exactly when it does not and bytes were asked
   for; and asked for no bytes at all, and only then, the host reports no error and nothing moves.
   */
  lemma WindowMovesExactly(file: Bytes, offset: nat, w: nat)
    requires offset < |file|
    ensures var r, n := TextWindow(file, offset, w), CharLen(file[offset..]);
            (r.Ok? && r.value.nextOffset > offset <==> 0 < n <= w) &&
            (r == Err(WindowTooSmall(w)) <==> w > 0 && !(0 < n <= w)) &&
            (r.Ok? && r.value.nextOffset == offset <==> w == 0)
  {
    hide CharLen;
    var k := Min(w, |file| - offset);
    assert Covered(file, offset, w) == file[offset..][..k];
    CharLenCut(file[offset..], k);
  }

  // ---------------------------------------------------------------- reading a whole binary file

  const WINDOW: nat := 1048576
  const MAX_BYTES: nat := 67108864

  datatype Request = SliceBytes(handle: nat, offset: nat, len: nat) | Parse | Unsupported

  /** A block that gathers a workbook window by window. */
  class SheetExtract {
    var handle: nat
    var len: nat
    var bytes: Bytes

    constructor ()
      ensures bytes == [] && len == 0
    {
      handle, len, bytes := 0, 0, [];
    }

    method NextWindow() returns (r: Request)
      requires |bytes| <= len
      ensures r == SliceBytes(handle, |bytes|, Min(WINDOW, len - |bytes|))
    {
      return SliceBytes(handle, |bytes|, Min(WINDOW, len - |bytes|));
    }

    method OnOpened(handle: nat, len: nat, binary: bool) returns (r: Request)
      modifies this
      ensures r.Unsupported? <==> !binary || len > MAX_BYTES
      ensures !r.Unsupported? ==> this.handle == handle && this.len == len && bytes == []
      ensures !r.Unsupported? ==> r == SliceBytes(handle, 0, Min(WINDOW, len))
    {
      if !binary || len > MAX_BYTES {
        return Unsupported;
      }
      this.handle, this.len, bytes := handle, len, [];
      r := NextWindow();
    }

    method OnSlicedBytes(chunk: Bytes) returns (r: Request)
      modifies this`bytes
      ensures bytes == old(bytes) + chunk
      ensures r == if |bytes| < len then SliceBytes(handle, |bytes|, Min(WINDOW, len - |bytes|)) else Parse
    {
      bytes := bytes + chunk;
      if |bytes| < len {
        r := NextWindow();
      } else {
        r := Parse;
      }
    }
  }

  /** How many windows a file of `n` bytes takes; an empty one still takes one. */
  function RequestsFor(n: nat): nat {
    if n == 0 then 1 else (n + WINDOW - 1) / WINDOW
  }

  method ReadWorkbook(handles: Handles, handle: nat) returns (block: SheetExtract, requests: nat)
    requires handle in handles.open && |handles.open[handle].bytes| <= MAX_BYTES
    ensures block.bytes == handles.open[handle].bytes
    ensures requests == RequestsFor(|block.bytes|)
  {
    block := new SheetExtract();
    ghost var file := handles.open[handle].bytes;
    var r := block.OnOpened(handle, |handles.open[handle].bytes|, true);
    requests := 0;
    while r.SliceBytes?
      invariant fresh(block) && block.handle == handle && block.len == |file| && |block.bytes| <= |file|
      invariant block.bytes == file[..|block.bytes|] && |block.bytes| == Min(requests * WINDOW, |file|)
      invariant !r.Unsupported?
      invariant r.SliceBytes? ==> r == SliceBytes(handle, |block.bytes|, Min(WINDOW, |file| - |block.bytes|))
      invariant r.SliceBytes? ==> requests == 0 || |block.bytes| < |file|
      invariant r.Parse? ==> |block.bytes| == |file| && requests > 0 && (requests - 1) * WINDOW < |file| + (if requests == 1 then 1 else 0)
      decreases if r.SliceBytes? then 1 + |file| - |block.bytes| else 0
    {
      var window := handles.SliceBytes(r.handle, r.offset, r.len);
      r := block.OnSlicedBytes(window.value.text);
      requests := requests + 1;
    }
  }
}
