/** The brace-depth scanner of the device's alert stream
    (`iniciar_escucha_background`, biometrico_driver.py lines 90-103).

    The stream is read one character at a time. A `{` seen while idle starts a
    capture; every character seen while capturing is appended to the buffer;
    `{` raises the depth and `}` lowers it (the decrement only happens while
    capturing, so a stray `}` between objects is dropped); when the depth comes
    back to zero the buffer is handed on as one frame and the scanner is idle
    again. Braces inside JSON strings are counted like structural ones. */
module FrameExtractor {
  import opened Wrappers

  /** The loop's three local variables `buffer`, `llaves`, `capturando`. */
  datatype ExtractorState = ExtractorState(buffer: string, llaves: int, capturando: bool)

  /** The state a fresh connection starts from (line 90). */
  const Initial := ExtractorState("", 0, false)

  /** What one character does: the new state, and the frame passed to
      `procesar_json` if this character completed one. */
  datatype StepResult = StepResult(state: ExtractorState, frame: Option<string>)

  /** What a run over many characters does: the final state and the frames
      emitted, in order. */
  datatype Scan = Scan(state: ExtractorState, frames: seq<string>)

  // ---------------------------------------------------------------------
  // Brace counting

  /** Number of occurrences of `c` in `s`. */
  function Count(s: string, c: char): (n: nat)
    ensures n <= |s|
  {
    if s == [] then 0 else (if s[0] == c then 1 else 0) + Count(s[1..], c)
  }

  lemma {:induction false} CountConcat(a: string, b: string, c: char)
    ensures Count(a + b, c) == Count(a, c) + Count(b, c)
  {
    if a == [] {
      assert a + b == b;
    } else {
      assert (a + b)[1..] == a[1..] + b;
      CountConcat(a[1..], b, c);
    }
  }

  /** Net nesting depth of `s`: opening braces minus closing braces. */
  function Depth(s: string): int {
    Count(s, '{') - Count(s, '}')
  }

  /** How one character moves the depth. */
  function Delta(ch: char): int {
    if ch == '{' then 1 else if ch == '}' then -1 else 0
  }

  lemma DepthSnoc(s: string, ch: char)
    ensures Depth(s + [ch]) == Depth(s) + Delta(ch)
  {
    CountConcat(s, [ch], '{');
    CountConcat(s, [ch], '}');
  }

  lemma DepthCons(ch: char, s: string)
    ensures Depth([ch] + s) == Delta(ch) + Depth(s)
  {
    CountConcat([ch], s, '{');
    CountConcat([ch], s, '}');
  }

  /** A capture in progress: starts with `{` and every non-empty prefix,
      the whole buffer included, is still open. */
  predicate OpenPrefix(b: string) {
    |b| > 0 && b[0] == '{' && forall k :: 0 < k <= |b| ==> Depth(b[..k]) > 0
  }

  /** A complete top-level object as the scanner delimits it: it begins with
      `{`, ends with `}`, has as many `{` as `}`, and every proper non-empty
      prefix has strictly more `{` than `}`. */
  predicate IsFrame(f: string) {
    && |f| > 0
    && f[0] == '{'
    && f[|f| - 1] == '}'
    && Count(f, '{') == Count(f, '}')
    && forall k :: 0 < k < |f| ==> Count(f[..k], '{') > Count(f[..k], '}')
  }

  /** The invariant the loop keeps: the depth is never negative, the scanner is
      capturing exactly when the depth is positive, an idle scanner holds no
      text, and a capturing one holds an open prefix whose depth is `llaves`. */
  predicate Valid(st: ExtractorState) {
    && st.llaves >= 0
    && (st.capturando <==> st.llaves > 0)
    && (!st.capturando ==> st.buffer == "")
    && (st.capturando ==> OpenPrefix(st.buffer) && Depth(st.buffer) == st.llaves)
  }

  // ---------------------------------------------------------------------
  // One character (lines 94-103)

  function Step(st: ExtractorState, ch: char): (r: StepResult)
    // idle: everything but `{`, a stray `}` included, is dropped (lines 94-99)
    ensures !st.capturando && ch != '{' ==> r == StepResult(st, None)
    // a `{` always leaves the scanner capturing, one level deeper
    ensures ch == '{' ==> r.frame == None && r.state.capturando && r.state.llaves == st.llaves + 1
    // after a frame is handed on the scanner is back where a connection starts
    ensures r.frame.Some? ==> r.state == Initial && ch == '}'
    // the text captured is exactly what was read since the opening `{`
    ensures r.frame.Some? ==> st.capturando && r.frame.value == st.buffer + [ch]
    ensures r.state.capturando ==>
              r.state.buffer == (if st.capturando then st.buffer else "") + [ch]
    // and a `}` that brings the depth from 1 to 0 does hand the object on
    ensures st.capturando && ch == '}' && st.llaves == 1 ==> r.frame == Some(st.buffer + [ch])
  {
    // lines 94-96
    var armed :=
      if ch == '{' then
        ExtractorState(if st.capturando then st.buffer else "", st.llaves + 1, true)
      else st;
    // lines 97-103
    if armed.capturando then
      var buffer := armed.buffer + [ch];
      if ch == '}' then
        if armed.llaves - 1 == 0 then StepResult(Initial, Some(buffer))
        else StepResult(ExtractorState(buffer, armed.llaves - 1, true), None)
      else StepResult(ExtractorState(buffer, armed.llaves, true), None)
    else StepResult(armed, None)
  }

  lemma AppendKeepsOpen(b: string, ch: char)
    requires OpenPrefix(b)
    requires Depth(b) + Delta(ch) > 0
    ensures OpenPrefix(b + [ch]) && Depth(b + [ch]) == Depth(b) + Delta(ch)
  {
    var b' := b + [ch];
    DepthSnoc(b, ch);
    forall k | 0 < k <= |b'| ensures Depth(b'[..k]) > 0 {
      if k <= |b| {
        assert b'[..k] == b[..k];
      } else {
        assert b'[..k] == b';
      }
    }
  }

  lemma CloseMakesFrame(b: string)
    requires OpenPrefix(b)
    requires Depth(b) == 1
    ensures IsFrame(b + ['}'])
  {
    var f := b + ['}'];
    DepthSnoc(b, '}');
    forall k | 0 < k < |f| ensures Count(f[..k], '{') > Count(f[..k], '}') {
      assert f[..k] == b[..k];
    }
  }

  /** Every step keeps the invariant, and every frame it hands on is a
      balanced top-level object. */
  lemma StepValid(st: ExtractorState, ch: char)
    requires Valid(st)
    ensures Valid(Step(st, ch).state)
    ensures Step(st, ch).frame.Some? ==> IsFrame(Step(st, ch).frame.value)
  {
    if ch == '{' {
      if st.capturando {
        AppendKeepsOpen(st.buffer, ch);
      } else {
        assert OpenPrefix("{") by {
          assert "{"[..1] == "{";
        }
      }
    } else if st.capturando {
      if ch == '}' && st.llaves == 1 {
        CloseMakesFrame(st.buffer);
      } else {
        AppendKeepsOpen(st.buffer, ch);
      }
    }
  }

  // ---------------------------------------------------------------------
  // Many characters: the `for chunk in r.iter_content(chunk_size=1)` loop

  /** The loop as a left fold over single characters. */
  function Run(st: ExtractorState, s: string): (r: Scan)
    ensures |r.frames| <= |s|
    decreases |s|
  {
    if s == [] then Scan(st, [])
    else
      var first := Step(st, s[0]);
      var rest := Run(first.state, s[1..]);
      Scan(rest.state, first.frame.ToSeq() + rest.frames)
  }

  /** The frames one connection hands to `procesar_json`. */
  function Frames(s: string): (frames: seq<string>)
    ensures |frames| <= |s|
    ensures forall f :: f in frames ==> IsFrame(f)
  {
    RunValid(Initial, s);
    Run(Initial, s).frames
  }

  /** Running over `a + b` is running over `a`, then over `b` from where `a`
      left off. */
  lemma {:induction false} RunConcat(st: ExtractorState, a: string, b: string)
    ensures Run(st, a + b).state == Run(Run(st, a).state, b).state
    ensures Run(st, a + b).frames == Run(st, a).frames + Run(Run(st, a).state, b).frames
    decreases |a|
  {
    if a == [] {
      assert a + b == b;
    } else {
      assert (a + b)[0] == a[0];
      assert (a + b)[1..] == a[1..] + b;
      RunConcat(Step(st, a[0]).state, a[1..], b);
    }
  }

  /** Appending one character is one more step. */
  lemma RunSnoc(st: ExtractorState, s: string, ch: char)
    ensures Run(st, s + [ch]).state == Step(Run(st, s).state, ch).state
    ensures Run(st, s + [ch]).frames == Run(st, s).frames + Step(Run(st, s).state, ch).frame.ToSeq()
  {
    RunConcat(st, s, [ch]);
  }

  /** The invariant holds after any input, and every frame emitted is a
      balanced top-level object. */
  lemma {:induction false} RunValid(st: ExtractorState, s: string)
    requires Valid(st)
    ensures Valid(Run(st, s).state)
    ensures forall f :: f in Run(st, s).frames ==> IsFrame(f)
    decreases |s|
  {
    if s != [] {
      StepValid(st, s[0]);
      RunValid(Step(st, s[0]).state, s[1..]);
    }
  }

  /** Transport chunking: the stream fed chunk by chunk, each chunk scanned
      from where the previous one left off. */
  function RunChunks(st: ExtractorState, chunks: seq<string>): Scan
    decreases |chunks|
  {
    if chunks == [] then Scan(st, [])
    else
      var first := Run(st, chunks[0]);
      var rest := RunChunks(first.state, chunks[1..]);
      Scan(rest.state, first.frames + rest.frames)
  }

  function Flatten(chunks: seq<string>): string
    decreases |chunks|
  {
    if chunks == [] then [] else chunks[0] + Flatten(chunks[1..])
  }

  /** However the bytes are split into chunks, the same frames come out and
      the scanner ends in the same state. */
  lemma {:induction false} ChunkingIrrelevant(st: ExtractorState, chunks: seq<string>)
    ensures RunChunks(st, chunks) == Run(st, Flatten(chunks))
    decreases |chunks|
  {
    if chunks != [] {
      RunConcat(st, chunks[0], Flatten(chunks[1..]));
      ChunkingIrrelevant(Run(st, chunks[0]).state, chunks[1..]);
    }
  }

  // ---------------------------------------------------------------------
  // What the scanner does with particular inputs

  /** While idle, text without `{` (keep-alive noise, stray `}`) is dropped
      and changes nothing. */
  lemma {:induction false} IdleSkipsNoise(st: ExtractorState, s: string)
    requires !st.capturando
    requires '{' !in s
    ensures Run(st, s) == Scan(st, [])
    decreases |s|
  {
    if s != [] {
      assert s[0] in s;
      assert forall c :: c in s[1..] ==> c in s;
      IdleSkipsNoise(st, s[1..]);
    }
  }

  /** While capturing, text that never brings the depth down to zero is
      appended to the buffer and nothing is emitted. */
  lemma {:induction false} CaptureAccumulates(st: ExtractorState, s: string)
    requires Valid(st) && st.capturando
    requires forall k :: 0 < k <= |s| ==> st.llaves + Depth(s[..k]) > 0
    ensures Run(st, s) == Scan(ExtractorState(st.buffer + s, st.llaves + Depth(s), true), [])
    decreases |s|
  {
    if s == [] {
      assert st.buffer + s == st.buffer;
    } else {
      var ch := s[0];
      assert s[..1] == [ch];
      DepthCons(ch, []);
      assert [ch] + [] == [ch];
      var next := Step(st, ch).state;
      assert Step(st, ch).frame == None;
      assert next == ExtractorState(st.buffer + [ch], st.llaves + Delta(ch), true);
      StepValid(st, ch);
      forall k | 0 < k <= |s[1..]| ensures next.llaves + Depth(s[1..][..k]) > 0 {
        assert s[..k + 1] == [ch] + s[1..][..k];
        DepthCons(ch, s[1..][..k]);
      }
      CaptureAccumulates(next, s[1..]);
      assert st.buffer + [ch] + s[1..] == st.buffer + s;
      assert s == [ch] + s[1..];
      DepthCons(ch, s[1..]);
    }
  }

  /** A truncated object (one the connection drops before it closes) emits
      nothing and leaves exactly its own text in the buffer. */
  lemma OpenPrefixCaptured(p: string)
    requires OpenPrefix(p)
    ensures Run(Initial, p) == Scan(ExtractorState(p, Depth(p), true), [])
  {
    var first := ExtractorState("{", 1, true);
    assert OpenPrefix("{") && Depth("{") == 1 by {
      assert "{"[..1] == "{";
    }
    assert Step(Initial, p[0]) == StepResult(first, None);
    var rest := p[1..];
    forall k | 0 < k <= |rest| ensures first.llaves + Depth(rest[..k]) > 0 {
      assert p[..k + 1] == ['{'] + rest[..k];
      DepthCons('{', rest[..k]);
    }
    CaptureAccumulates(first, rest);
    assert p == ['{'] + rest;
    DepthCons('{', rest);
  }

  /** The scanner's state is determined by its buffer: replaying the buffer
      on a fresh connection reaches the same state. */
  lemma ReplayBuffer(st: ExtractorState)
    requires Valid(st)
    ensures Run(Initial, st.buffer) == Scan(st, [])
  {
    if st.capturando {
      OpenPrefixCaptured(st.buffer);
    }
  }

  /** A balanced object fed to a fresh scanner comes out whole, and the
      scanner is idle again. */
  lemma FrameRoundTrip(f: string)
    requires IsFrame(f)
    ensures Run(Initial, f) == Scan(Initial, [f])
  {
    var p := f[..|f| - 1];
    assert f == p + ['}'];
    CountConcat(p, ['}'], '{');
    CountConcat(p, ['}'], '}');
    assert Depth(p) == 1;
    forall k | 0 < k <= |p| ensures Depth(p[..k]) > 0 {
      assert p[..k] == f[..k];
    }
    OpenPrefixCaptured(p);
    RunSnoc(Initial, p, '}');
  }

  /** A stream made of noise pieces without `{` (`gaps`) around balanced
      objects. */
  function Interleave(gaps: seq<string>, frames: seq<string>): string
    requires |gaps| == |frames| + 1
    decreases |frames|
  {
    if frames == [] then gaps[0]
    else gaps[0] + frames[0] + Interleave(gaps[1..], frames[1..])
  }

  /** Only the balanced top-level objects come out of a stream that embeds
      them in noise, stray `}` included, and the noise does not disturb the
      objects that follow it. */
  lemma {:induction false} NoiseAroundFrames(gaps: seq<string>, frames: seq<string>)
    requires |gaps| == |frames| + 1
    requires forall i :: 0 <= i < |gaps| ==> '{' !in gaps[i]
    requires forall i :: 0 <= i < |frames| ==> IsFrame(frames[i])
    ensures Run(Initial, Interleave(gaps, frames)) == Scan(Initial, frames)
    decreases |frames|
  {
    assert '{' !in gaps[0];
    IdleSkipsNoise(Initial, gaps[0]);
    if frames != [] {
      var tail := Interleave(gaps[1..], frames[1..]);
      assert forall i :: 0 <= i < |gaps[1..]| ==> '{' !in gaps[1..][i] by {
        forall i | 0 <= i < |gaps[1..]| ensures '{' !in gaps[1..][i] {
          assert gaps[1..][i] == gaps[i + 1];
        }
      }
      assert IsFrame(frames[0]);
      FrameRoundTrip(frames[0]);
      NoiseAroundFrames(gaps[1..], frames[1..]);
      assert gaps[0] + frames[0] + tail == gaps[0] + (frames[0] + tail);
      RunConcat(Initial, gaps[0], frames[0] + tail);
      RunConcat(Initial, frames[0], tail);
      assert frames == [frames[0]] + frames[1..];
    }
  }

  // ---------------------------------------------------------------------
  // Where the frames come from

  /** The text the scanner does not emit, cut at the frames it emits: one
      piece before each frame, and a last piece holding the text after the
      last frame (any capture still in progress included). */
  function Gaps(st: ExtractorState, s: string): (gaps: seq<string>)
    ensures |gaps| == |Run(st, s).frames| + 1
    decreases |s|
  {
    if s == [] then [st.buffer]
    else
      var r := Step(st, s[0]);
      var rest := Gaps(r.state, s[1..]);
      if r.frame.Some? then [""] + rest
      else if !st.capturando && !r.state.capturando then [[s[0]] + rest[0]] + rest[1..]
      else rest
  }

  /** `last` is dropped text without `{` followed by the pending capture. */
  predicate EndsWithPending(last: string, pending: string) {
    && |pending| <= |last|
    && last[|last| - |pending|..] == pending
    && '{' !in last[..|last| - |pending|]
  }

  lemma InterleavePrepend(x: string, gaps: seq<string>, frames: seq<string>)
    requires |gaps| == |frames| + 1
    ensures Interleave([x + gaps[0]] + gaps[1..], frames) == x + Interleave(gaps, frames)
  {
    var gaps' := [x + gaps[0]] + gaps[1..];
    if frames != [] {
      assert gaps'[1..] == gaps[1..];
    }
  }

  lemma EndsWithPendingCons(c: char, last: string, pending: string)
    requires c != '{'
    requires EndsWithPending(last, pending)
    ensures EndsWithPending([c] + last, pending)
  {
    var last' := [c] + last;
    assert last'[|last'| - |pending|..] == last[|last| - |pending|..];
    assert last'[..|last'| - |pending|] == [c] + last[..|last| - |pending|];
  }

  /** `pre + s` is cut exactly into `frames` and the `gaps` around them;
      every gap before a frame is free of `{`; a capture already in progress
      (`capturing`) has nothing dropped before its frame; and the last gap is
      `{`-free noise followed by the capture still `pending` at the end. */
  predicate Fits(pre: string, capturing: bool, s: string, gaps: seq<string>,
                 frames: seq<string>, pending: string) {
    && |gaps| == |frames| + 1
    && pre + s == Interleave(gaps, frames)
    && (forall i :: 0 <= i < |gaps| - 1 ==> '{' !in gaps[i])
    && (capturing && |gaps| > 1 ==> gaps[0] == "")
    && (capturing && |gaps| == 1 ==> gaps[0] == pending)
    && EndsWithPending(gaps[|gaps| - 1], pending)
  }

  /** A character that closes the frame `pre + [c]`, read before a rest that
      fits from the idle state. */
  lemma FitsAfterFrame(pre: string, s: string, g: seq<string>,
                       tail: seq<string>, pending: string)
    requires s != []
    requires Fits("", false, s[1..], g, tail, pending)
    ensures Fits(pre, true, s, [""] + g, [pre + [s[0]]] + tail, pending)
  {
    var gaps := [""] + g;
    var frames := [pre + [s[0]]] + tail;
    assert gaps[1..] == g && frames[1..] == tail;
    assert pre + s == "" + (pre + [s[0]]) + s[1..];
    forall i | 0 <= i < |gaps| - 1 ensures '{' !in gaps[i] {
      if i > 0 {
        assert gaps[i] == g[i - 1];
      }
    }
    assert gaps[|gaps| - 1] == g[|g| - 1];
  }

  /** A character other than `{` read while idle is dropped into the first
      gap. */
  lemma FitsAfterNoise(s: string, g: seq<string>, tail: seq<string>, pending: string)
    requires s != [] && s[0] != '{'
    requires Fits("", false, s[1..], g, tail, pending)
    ensures Fits("", false, s, [[s[0]] + g[0]] + g[1..], tail, pending)
  {
    var c := s[0];
    var gaps := [[c] + g[0]] + g[1..];
    assert s == [c] + s[1..];
    InterleavePrepend([c], g, tail);
    forall i | 0 <= i < |gaps| - 1 ensures '{' !in gaps[i] {
      if i == 0 {
        assert '{' !in g[0];
      } else {
        assert gaps[i] == g[i];
      }
    }
    if |g| == 1 {
      EndsWithPendingCons(c, g[0], pending);
    } else {
      assert gaps[|gaps| - 1] == g[|g| - 1];
    }
  }

  /** A character added to a capture moves from the input into the pending
      text. */
  lemma FitsInCapture(pre: string, capturing: bool, s: string,
                      g: seq<string>, tail: seq<string>, pending: string)
    requires s != []
    requires Fits(pre + [s[0]], true, s[1..], g, tail, pending)
    ensures Fits(pre, capturing, s, g, tail, pending)
  {
    assert pre + s == (pre + [s[0]]) + s[1..];
  }

  /** The cut of the rest of the input, after the scanner's first step. */
  ghost predicate TailFits(st: ExtractorState, s: string)
    requires s != []
  {
    var r := Step(st, s[0]);
    var tail := Run(r.state, s[1..]);
    Fits(r.state.buffer, r.state.capturando, s[1..], Gaps(r.state, s[1..]), tail.frames, tail.state.buffer)
  }

  /** The cut of the whole input, from the scanner's state `st`. */
  ghost predicate ScanFits(st: ExtractorState, s: string) {
    var scan := Run(st, s);
    Fits(st.buffer, st.capturando, s, Gaps(st, s), scan.frames, scan.state.buffer)
  }

  lemma GapsOnFrame(st: ExtractorState, s: string)
    requires Valid(st) && s != [] && Step(st, s[0]).frame.Some?
    requires TailFits(st, s)
    ensures ScanFits(st, s)
  {
    var r := Step(st, s[0]);
    var g := Gaps(r.state, s[1..]);
    var tail := Run(r.state, s[1..]);
    assert Gaps(st, s) == [""] + g;
    assert Run(st, s) == Scan(tail.state, [r.frame.value] + tail.frames);
    FitsAfterFrame(st.buffer, s, g, tail.frames, tail.state.buffer);
  }

  lemma GapsOnNoise(st: ExtractorState, s: string)
    requires Valid(st) && s != [] && !st.capturando && !Step(st, s[0]).state.capturando
    requires TailFits(st, s)
    ensures ScanFits(st, s)
  {
    var r := Step(st, s[0]);
    var g := Gaps(r.state, s[1..]);
    var tail := Run(r.state, s[1..]);
    assert r.state == st && st.buffer == "";
    assert Gaps(st, s) == [[s[0]] + g[0]] + g[1..];
    assert Run(st, s) == tail;
    FitsAfterNoise(s, g, tail.frames, tail.state.buffer);
  }

  lemma GapsOnCapture(st: ExtractorState, s: string)
    requires Valid(st) && s != [] && Step(st, s[0]).frame.None?
    requires st.capturando || Step(st, s[0]).state.capturando
    requires TailFits(st, s)
    ensures ScanFits(st, s)
  {
    var r := Step(st, s[0]);
    var g := Gaps(r.state, s[1..]);
    var tail := Run(r.state, s[1..]);
    assert r.state.buffer == st.buffer + [s[0]];
    assert Gaps(st, s) == g;
    assert Run(st, s) == tail;
    FitsInCapture(st.buffer, st.capturando, s, g, tail.frames, tail.state.buffer);
  }

  /** The gaps and frames of a scan fit the scanner's pending text followed by
      its input. */
  lemma {:induction false} GapsSplit(st: ExtractorState, s: string)
    requires Valid(st)
    ensures ScanFits(st, s)
    decreases |s|
  {
    if s == [] {
      assert st.buffer + s == st.buffer;
      assert st.buffer[|st.buffer| - |st.buffer|..] == st.buffer;
    } else {
      var r := Step(st, s[0]);
      StepValid(st, s[0]);
      GapsSplit(r.state, s[1..]);
      if r.frame.Some? {
        GapsOnFrame(st, s);
      } else if !st.capturando && !r.state.capturando {
        GapsOnNoise(st, s);
      } else {
        GapsOnCapture(st, s);
      }
    }
  }

  /** Every input is its frames, in order and without overlap, separated by
      dropped text that holds no `{`, followed by text that is dropped noise
      and then the capture still pending when the input ends. Together with
      NoiseAroundFrames: the frames are exactly the balanced top-level objects
      of the input. */
  lemma FramesTileInput(s: string)
    ensures var frames := Frames(s);
            var gaps := Gaps(Initial, s);
            && s == Interleave(gaps, frames)
            && (forall i :: 0 <= i < |frames| ==> '{' !in gaps[i])
            && EndsWithPending(gaps[|frames|], Run(Initial, s).state.buffer)
  {
    GapsSplit(Initial, s);
    assert Initial.buffer + s == s;
  }

  /** An object that is opened and never closed holds the scanner for the
      rest of the connection: balanced objects that follow it are absorbed
      into the open capture and none of them is emitted. */
  lemma UnclosedObjectSwallowsFrames(st: ExtractorState, f: string)
    requires Valid(st) && st.capturando
    requires IsFrame(f)
    ensures Run(st, f).frames == []
    ensures Run(st, f).state == ExtractorState(st.buffer + f, st.llaves, true)
  {
    forall k | 0 < k <= |f| ensures st.llaves + Depth(f[..k]) > 0 {
      if k == |f| {
        assert f[..k] == f;
      }
    }
    CaptureAccumulates(st, f);
  }
}
