# Biometric terminal event monitor — a Dafny model

The attendance system listens to the alert stream of a fingerprint terminal.
The stream is an endless HTTP body of characters. JSON objects describing
access-control events are embedded in it, between keep-alive text. This
project models the two pieces of `biometrico_driver.py` that turn that
stream into attendance logs:

* **The brace-depth frame extractor.** This is the inner loop of
  `iniciar_escucha_background`, lines 90-103. It reads one character at a
  time and keeps three variables: `buffer`, the depth counter `llaves` and
  the flag `capturando`. It cuts out each top-level `{...}` object and hands
  it to `procesar_json`.
  * `FrameExtractor.Step` models one character.
  * `FrameExtractor.Run` is the fold over a whole input.
  * `Monitor.Feed` and `Monitor.Listen` are the same loop written
    imperatively. They are proved equal to the fold.
* **The event classifier.** This is `procesar_json`, lines 109-127. It
  decodes a frame and reads the event's `subEventType`. It maps codes 38, 75,
  1 and 39 to a label and an origin. It normalises the `dateTime` stamp:
  everything after the first `+` is cut and `T` becomes a space. It then
  produces the arguments of one `guardar_log` call, or no call.
  * `EventClassifier.Classify` models this function.
  * `JsonValue` models the decoded document. It also models the two Python
    operations used on it: `dict.get`, which returns a stored `null` as
    itself, and `==` against an integer, under which `True == 1` and
    `False == 0`.
  * `json.loads` itself is a parameter. `None` stands for "it raised".
  * Every exception path ends in the bare `except: pass`, which the model
    writes as "no log". These paths are: a document or event that is not an
    object, and a `dateTime` that is not a string.

## What is proved

* **The loop's invariant.** The depth is never negative. The scanner is
  capturing exactly when the depth is positive. An idle scanner holds
  nothing. A capturing scanner holds an open prefix whose depth is `llaves`.
  Every frame handed on is a balanced object: it starts with `{`, ends with
  `}`, is balanced, and every proper prefix is still open.
* **Chunking does not matter.** The same frames come out however the input
  is split into pieces.
* **The frames tile the input.** Any input is exactly its frames, in order
  and without overlap, with `{`-free dropped text between them. After the
  last frame come dropped text and the capture still pending.
* **Round trip.** Conversely, balanced objects separated by `{`-free noise
  are emitted exactly, and in order.
* **The classification table.** The table covers every decoded document,
  whatever other keys the document or its event carry. For a document with
  an event object and a string or missing `dateTime`:
  * a missing code counts as 0;
  * codes 38, 75, 1 and 39 are logged with their labels, the employee id as
    stored (or "Desconocido") and the normalised stamp (or "");
  * every other code is not logged.
  
  A missing or non-object event, or a non-string `dateTime`, is never
  logged. The `T`/`+` normalisation of a device stamp is proved, and so is
  the fact that `-hh:mm` offsets survive it.
* **Listen.** The imperative loop returns exactly the frames and the logs
  the functional model gives.

Three behaviours of the code on this path:

* **No negative depth.** A stray `}` while idle is simply dropped, because
  the decrement only happens while capturing. The depth never goes negative,
  so nothing ever has to reset it.
* **A missing `dateTime` gives an empty `fecha`.** The empty string is what
  gets stored.
* **No actuation.** Nothing here opens the door or checks permissions.

Two behaviours of the code are stated as lemmas:

* An object that is opened but never closed holds the scanner for the rest
  of the connection, swallowing every later object
  (`UnclosedObjectSwallowsFrames`). A connection that is cut mid-object
  loses only that object (`TruncatedTailEmitsNothing`).
* Only `+` offsets are removed from timestamps (`NegativeOffsetKept`).

## Model

| member | source | states |
|---|---|---|
| FrameExtractor.Step | biometrico_driver.py:94-103 | An idle scanner ignores every character but `{`, a stray `}` included. A `{` always leaves it capturing one level deeper. A frame is emitted only on `}`; it is the buffer plus that `}`, and the scanner is back in the initial state afterwards. While capturing, the buffer is the previous buffer plus the character, or just the character when the capture starts. A `}` read while capturing at depth 1 does emit the buffer plus that `}`. |
| FrameExtractor.StepValid | biometrico_driver.py:90-103 | One character keeps the loop invariant: depth ≥ 0, capturing ⇔ depth > 0, an idle buffer is empty, and a capturing buffer is an open prefix of depth `llaves`. Any frame emitted is a balanced top-level object. |
| FrameExtractor.Run | biometrico_driver.py:91-103 | The per-character loop as a fold of Step; at most one frame per character read. |
| FrameExtractor.RunValid | biometrico_driver.py:90-103 | After any input from a valid state, the invariant still holds and every frame emitted is a balanced top-level object. |
| FrameExtractor.RunConcat | biometrico_driver.py:91-103 | Scanning `a + b` ends where scanning `b` from the end state of `a` ends. It emits the frames of `a` followed by those of `b`. |
| FrameExtractor.RunSnoc | biometrico_driver.py:91-103 | One more character is one more Step, and its frame, if any, is appended last. |
| FrameExtractor.ChunkingIrrelevant | biometrico_driver.py:91-103 | Feeding the stream chunk by chunk, each chunk resuming the previous state, gives the same frames and final state as feeding it all at once. |
| FrameExtractor.IdleSkipsNoise | biometrico_driver.py:94-99 | While idle, text without `{` changes nothing and emits nothing. |
| FrameExtractor.CaptureAccumulates | biometrico_driver.py:97-101 | While capturing, text that never brings the depth to zero is appended to the buffer and the depth moves by its net brace count. No frame is emitted. |
| FrameExtractor.OpenPrefixCaptured | biometrico_driver.py:90-101 | An unfinished object fed to a fresh scanner emits nothing and leaves exactly its own text in the buffer, at its depth. |
| FrameExtractor.ReplayBuffer | biometrico_driver.py:90-103 | Every valid state is reached from a fresh connection by replaying its buffer. |
| FrameExtractor.FrameRoundTrip | biometrico_driver.py:90-103 | A balanced object fed to a fresh scanner is emitted whole, and the scanner ends in the initial state. |
| FrameExtractor.NoiseAroundFrames | biometrico_driver.py:90-103 | Balanced objects separated by `{`-free noise (stray `}` allowed) are emitted exactly, in order, and the scanner ends idle. |
| FrameExtractor.GapsSplit | biometrico_driver.py:90-103 | From any valid state, the pending buffer plus the input is cut exactly into the emitted frames and the gaps between them. Each gap before a frame is `{`-free. The last gap is `{`-free text followed by the final pending buffer. |
| FrameExtractor.FramesTileInput | biometrico_driver.py:90-103 | Every input equals its frames interleaved with dropped gaps: in order, non-overlapping and contiguous. No gap before a frame contains `{`. The tail is dropped text followed by the capture still open. |
| FrameExtractor.UnclosedObjectSwallowsFrames | biometrico_driver.py:94-101 | While an object is open, a complete balanced object that follows is absorbed into the buffer and not emitted. |
| FrameExtractor.Frames | biometrico_driver.py:90-103 | The frames of one connection: the fold from the fresh state of line 90. There is at most one per character, and each is a balanced top-level object. |
| Monitor.Feed | biometrico_driver.py:94-103 | The imperative loop body, applied to the three variables, gives exactly the new state and frame of Step. |
| Monitor.Listen | biometrico_driver.py:90-103 | The imperative loop over a connection's characters hands on exactly `Frames(input)`. It writes exactly the logs the classifier gives for them, in order. |
| Monitor.RunPrefixStep | biometrico_driver.py:91-103 | Reading position `i` of the input extends the fold by one Step. The fold's frames grow by that step's frame, if any. |
| Monitor.TruncatedTailEmitsNothing | biometrico_driver.py:90-103 | A connection cut in the middle of an object emits the same frames as one cut just before that object. |
| Monitor.Logs | biometrico_driver.py:102 | At most one `guardar_log` per frame handed to `procesar_json`. |
| Monitor.LogsSnoc | biometrico_driver.py:102 | One more frame adds that frame's classification, if any, at the end of the logs. |
| Monitor.LogsFromFrames | biometrico_driver.py:109-125 | Every log entry is the classification of one of the frames. |
| Monitor.LogsConcat | biometrico_driver.py:102 | The logs of two frame runs are the logs of the first followed by the logs of the second. |
| Monitor.AttendanceAmidNoise | biometrico_driver.py:90-125 | A code-38 device event between two pieces of `{`-free noise is the only frame emitted. It produces exactly one log: the normalised stamp, the employee id verbatim, "ASISTENCIA" and "Huella". |
| JsonValue.Get | biometrico_driver.py:112-117 | `dict.get(key, default)`: the stored value when the key is present (a stored `null` included), the default otherwise. |
| JsonValue.PyEqInt | biometrico_driver.py:115-123 | Python `==` against an integer literal. Only numbers and booleans can be equal: numbers by value, `True`/`False` as 1/0. |
| JsonValue.PyEqIntUnique | biometrico_driver.py:119-123 | A value equals at most one integer, so at most one branch of the `if`/`elif` chain applies. |
| EventClassifier.BeforePlus | biometrico_driver.py:117 | `split('+')[0]`: a prefix of the input without `+`, which stops at the first `+` or runs to the end. |
| EventClassifier.BeforePlusConcat | biometrico_driver.py:117 | A `+`-free head is kept whole and the cut continues into what follows. |
| EventClassifier.ReplaceT | biometrico_driver.py:117 | `replace('T', ' ')` keeps the length. |
| EventClassifier.ReplaceTAt | biometrico_driver.py:117 | Position by position, each `T` becomes a space and every other character is kept. |
| EventClassifier.ReplaceTConcat | biometrico_driver.py:117 | The replacement of a concatenation is the concatenation of the replacements. |
| EventClassifier.ReplaceTFree | biometrico_driver.py:117 | Text without `T` is unchanged. |
| EventClassifier.Normalize | biometrico_driver.py:117 | The stored `fecha` is no longer than the stamp and contains neither `+` nor `T`. A stamp with neither is stored unchanged. |
| EventClassifier.NormalizeAt | biometrico_driver.py:117 | The result is the prefix before the first `+`, with each `T` replaced by a space. |
| EventClassifier.NormalizeIdempotent | biometrico_driver.py:117 | Normalising twice is the same as normalising once. |
| EventClassifier.ReplaceTStamp | biometrico_driver.py:117 | In `<date>T<time><rest>` with no other `T`, only the separator becomes a space. |
| EventClassifier.BeforePlusStamp | biometrico_driver.py:117 | The cut of `<date>T<time>+<offset>` falls at the offset's `+`. |
| EventClassifier.NormalizeIsoStamp | biometrico_driver.py:117 | `<date>T<time>+<offset>` is stored as `<date> <time>`; for example `2024-01-05T08:15:00+00:00` becomes `2024-01-05 08:15:00`. |
| EventClassifier.NegativeOffsetKept | biometrico_driver.py:117 | `<date>T<time>-<offset>` keeps its offset: it is stored as `<date> <time>-<offset>`. |
| EventClassifier.Label | biometrico_driver.py:119-123 | A label exists exactly when the code equals 38, 75, 1 or 39 under Python `==`, booleans included. |
| EventClassifier.Classify | biometrico_driver.py:109-127 | A frame `json.loads` rejects is not logged, and neither is a document that is not an object. Every stored `fecha` is free of `+` and `T`. |
| EventClassifier.ClassifyNeedsKnownCode | biometrico_driver.py:112-125 | A log is written only if the document has an event object with a `subEventType`. That code's label is the logged event and origin. |
| EventClassifier.ClassifyEvent | biometrico_driver.py:112-125 | The full table for any document with an `AccessControllerEvent` object and a string or missing `dateTime`, whatever other keys it and the event carry. A code equal (Python `==`) to 38, 75, 1 or 39 is logged with its label. Every other code is not logged, and a missing code counts as 0. The employee entry is logged as stored, or "Desconocido" when missing. The `fecha` is the normalised stamp, or empty when it is missing. |
| EventClassifier.ClassifyDeviceEvent | biometrico_driver.py:112-125 | The same table for the smallest documents of the terminal's shape, with the integer code, employee id and stamp given as optional plain values. |
| EventClassifier.NonObjectEventDropped | biometrico_driver.py:112-113 | An `AccessControllerEvent` entry that is not an object has no `.get`, so nothing is logged. |
| EventClassifier.NoEventNoLog | biometrico_driver.py:112-115 | A document without `AccessControllerEvent` (a heartbeat) is never logged. |
| EventClassifier.BooleanCodes | biometrico_driver.py:113-122 | A boolean `subEventType` of true is logged as the exit button. False counts as 0 and is not logged. |
| EventClassifier.NonStringDateTimeDropsEvent | biometrico_driver.py:117 | In any document, a present `dateTime` that is not a string makes `.split` raise, so nothing is logged, whatever the code. |

## Left out

- **Connection handling.** The HTTP connection, digest authentication, the
  status check and the sleep-and-retry loop (lines 86-89 and 104-107) are
  not modelled. The input is the character sequence one connection
  delivers, and reconnecting is a new call to `Listen`.
- **Decoding to characters.** The per-byte `chunk.decode('utf-8',
  errors='ignore')` (line 93) is not modelled, because the input is already
  characters. In the code, a multi-byte character arrives one byte at a time
  and is dropped.
- **`json.loads`** is not modelled: its outcome is the `decode` parameter.
- **Floating-point JSON numbers.** These are not modelled, because `Json`
  numbers are integers. In the code, `38.0 == 38` also selects a label.
- **Storage.** `guardar_log` (lines 59-68), the SQLite connection and
  `init_db` are not part of this model. The model returns the arguments of
  each `guardar_log` call.
- **The "Ahora" substitution.** `guardar_log` replaces a `fecha` equal to
  the literal "Ahora" with the current time (line 61). This is not
  modelled. As a result, a device stamp that normalises to "Ahora" would be
  stored as the current time.
- **Other operations.** `abrir_puerta_remota`, the web application
  (`app.py`), `config.py` and the maintenance scripts are not part of this
  model.
- **Concurrency.** The background thread that runs the monitor is not
  modelled.
- **Output.** Console `print` output is not modelled.
