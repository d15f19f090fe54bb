/** One streaming connection of the background monitor
    (`iniciar_escucha_background`, biometrico_driver.py lines 90-103): the
    scanner's three variables start fresh, every character received goes
    through the brace-depth loop, and every completed frame is handed to
    `procesar_json` before the next character is read.

    The HTTP connection, its status check and the retry loop around it are
    not modelled: the characters the connection delivers are the method's
    input, and a new connection is a new call. `json.loads` is the parameter
    `decode`, and the `guardar_log` calls are returned in order as `logs`. */
module Monitor {
  import opened Wrappers
  import opened JsonValue
  import opened FrameExtractor
  import opened EventClassifier

  /** The `guardar_log` calls that `procesar_json` makes for `frames`, in order. */
  function Logs(decode: string -> Option<Json>, frames: seq<string>): (r: seq<LogEntry>)
    ensures |r| <= |frames|
    decreases |frames|
  {
    if frames == [] then []
    else Logs(decode, frames[..|frames| - 1]) + Classify(decode(frames[|frames| - 1])).ToSeq()
  }

  lemma LogsSnoc(decode: string -> Option<Json>, frames: seq<string>, f: string)
    ensures Logs(decode, frames + [f]) == Logs(decode, frames) + Classify(decode(f)).ToSeq()
  {
    assert (frames + [f])[..|frames|] == frames;
  }

  /** Every log entry comes from one of the frames, and from the classifier. */
  lemma {:induction false} LogsFromFrames(decode: string -> Option<Json>, frames: seq<string>)
    ensures forall e :: e in Logs(decode, frames) ==>
              exists f :: f in frames && Classify(decode(f)) == Some(e)
    decreases |frames|
  {
    if frames != [] {
      var init := frames[..|frames| - 1];
      LogsFromFrames(decode, init);
      assert forall f :: f in init ==> f in frames;
    }
  }

  /** Frames that the classifier drops (heartbeats, unknown codes, malformed
      text) contribute nothing; the others contribute one entry each, in order. */
  lemma {:induction false} LogsConcat(decode: string -> Option<Json>, a: seq<string>, b: seq<string>)
    ensures Logs(decode, a + b) == Logs(decode, a) + Logs(decode, b)
    decreases |b|
  {
    if b == [] {
      assert a + b == a;
    } else {
      var b', last := b[..|b| - 1], b[|b| - 1];
      assert b == b' + [last];
      assert a + b == (a + b') + [last];
      LogsConcat(decode, a, b');
      LogsSnoc(decode, a + b', last);
      LogsSnoc(decode, b', last);
      var x := Classify(decode(last)).ToSeq();
      assert (Logs(decode, a) + Logs(decode, b')) + x == Logs(decode, a) + (Logs(decode, b') + x);
    }
  }

  /** The body of the loop (lines 94-103) for one character; the frame it
      returns is the argument of the `procesar_json` call at line 102. */
  method Feed(buffer: string, llaves: int, capturando: bool, ch: char)
    returns (buffer': string, llaves': int, capturando': bool, frame: Option<string>)
    ensures StepResult(ExtractorState(buffer', llaves', capturando'), frame)
            == Step(ExtractorState(buffer, llaves, capturando), ch)
  {
    buffer', llaves', capturando', frame := buffer, llaves, capturando, None;
    if ch == '{' {
      if !capturando' {
        capturando' := true; buffer' := "";
      }
      llaves' := llaves' + 1;
    }
    if capturando' {
      buffer' := buffer' + [ch];
      if ch == '}' {
        llaves' := llaves' - 1;
        if llaves' == 0 {
          frame := Some(buffer');
          capturando' := false; buffer' := "";
        }
      }
    }
  }

  /** Reading the character at position `i` is one more step of the fold. */
  lemma RunPrefixStep(input: string, i: nat)
    requires i < |input|
    ensures var prev := Run(Initial, input[..i]);
            var r := Step(prev.state, input[i]);
            && (r.frame.None? ==> Run(Initial, input[..i + 1]) == Scan(r.state, prev.frames))
            && (r.frame.Some? ==> Run(Initial, input[..i + 1]) == Scan(r.state, prev.frames + [r.frame.value]))
  {
    assert input[..i + 1] == input[..i] + [input[i]];
    RunSnoc(Initial, input[..i], input[i]);
    assert Run(Initial, input[..i]).frames + [] == Run(Initial, input[..i]).frames;
  }

  /** The loop of lines 90-103 over the characters one connection delivers:
      the frames handed to `procesar_json` and the logs it writes for them. */
  method Listen(input: string, decode: string -> Option<Json>)
    returns (frames: seq<string>, logs: seq<LogEntry>)
    ensures frames == Frames(input)
    ensures logs == Logs(decode, frames)
  {
    var buffer, llaves, capturando := "", 0, false;
    frames, logs := [], [];
    var i := 0;
    assert input[..0] == [];
    while i < |input|
      invariant i <= |input|
      invariant Run(Initial, input[..i]) == Scan(ExtractorState(buffer, llaves, capturando), frames)
      invariant logs == Logs(decode, frames)
    {
      var ch := input[i];
      RunPrefixStep(input, i);
      var frame;
      buffer, llaves, capturando, frame := Feed(buffer, llaves, capturando, ch);
      if frame.Some? {
        // procesar_json(buffer)
        LogsSnoc(decode, frames, frame.value);
        var entry := Classify(decode(frame.value));
        logs := logs + entry.ToSeq();
        frames := frames + [frame.value];
      }
      i := i + 1;
    }
    assert input[..i] == input;
  }

  /** A connection that drops in the middle of an object emits nothing for the
      truncated text, and the next connection starts from a clean scanner. */
  lemma TruncatedTailEmitsNothing(s: string, partial: string)
    requires !Run(Initial, s).state.capturando
    requires OpenPrefix(partial)
    ensures Frames(s + partial) == Frames(s)
  {
    RunValid(Initial, s);
    assert Run(Initial, s).state == Initial;
    RunConcat(Initial, s, partial);
    OpenPrefixCaptured(partial);
  }

  /** An attendance event from the terminal, surrounded by keep-alive noise,
      produces exactly one log: the employee id verbatim, the timestamp without
      its offset and with a space for the `T`, labelled as fingerprint
      attendance. */
  lemma AttendanceAmidNoise(
    junk1: string, frame: string, junk2: string, decode: string -> Option<Json>,
    employee: string, date: string, time: string, offset: string)
    requires '{' !in junk1 && '{' !in junk2
    requires IsFrame(frame)
    requires '+' !in date && 'T' !in date && '+' !in time && 'T' !in time
    requires decode(frame) == Some(DeviceEvent(Some(38), Some(employee), Some(date + "T" + time + "+" + offset)))
    ensures Frames(junk1 + frame + junk2) == [frame]
    ensures Logs(decode, Frames(junk1 + frame + junk2)) ==
              [LogEntry(date + " " + time, JStr(employee), "ASISTENCIA", "Huella")]
  {
    var gaps := [junk1, junk2];
    assert Interleave(gaps, [frame]) == junk1 + frame + junk2 by {
      assert Interleave(gaps[1..], []) == junk2;
    }
    NoiseAroundFrames(gaps, [frame]);
    ClassifyDeviceEvent(Some(38), Some(employee), Some(date + "T" + time + "+" + offset));
    NormalizeIsoStamp(date, time, offset);
    assert [frame][..0] == [];
  }
}
