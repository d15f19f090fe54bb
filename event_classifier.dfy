/** `procesar_json` (biometrico_driver.py lines 109-127): from a decoded frame
    to the arguments of one `guardar_log` call, or to no call at all.

    `json.loads` is not modelled: its result arrives as `Option<Json>`, with
    `None` standing for a frame it rejects. Every exception the body can raise
    (`.get` on something that is not a dict, `.split` on something that is not
    a string) lands in the bare `except: pass` and so also means "no log". */
module EventClassifier {
  import opened Wrappers
  import opened JsonValue

  /** The four values passed to `guardar_log(fecha, uid, evento, origen)`. */
  datatype LogEntry = LogEntry(fecha: string, uid: Json, evento: string, origen: string)

  // ---------------------------------------------------------------------
  // Timestamp normalisation (line 117)

  /** `s.split('+')[0]`: the text before the first `+`, or all of `s`. */
  function BeforePlus(s: string): (r: string)
    ensures r <= s
    ensures '+' !in r
    ensures |r| < |s| ==> s[|r|] == '+'
    decreases |s|
  {
    if s == [] || s[0] == '+' then [] else [s[0]] + BeforePlus(s[1..])
  }

  /** `s.replace('T', ' ')`. */
  function ReplaceT(s: string): (r: string)
    ensures |r| == |s|
    decreases |s|
  {
    if s == [] then [] else [if s[0] == 'T' then ' ' else s[0]] + ReplaceT(s[1..])
  }

  /** Each `T` becomes a space and every other character is kept. */
  lemma {:induction false} ReplaceTAt(s: string)
    ensures forall i :: 0 <= i < |s| ==> ReplaceT(s)[i] == if s[i] == 'T' then ' ' else s[i]
    decreases |s|
  {
    if s != [] {
      ReplaceTAt(s[1..]);
      forall i | 1 <= i < |s| ensures ReplaceT(s)[i] == ReplaceT(s[1..])[i - 1] {
      }
    }
  }

  /** The `fecha` stored for a device timestamp: the offset after the first
      `+` is cut off and the date/time separator `T` becomes a space. */
  function Normalize(dateTime: string): (r: string)
    ensures |r| <= |dateTime|
    ensures '+' !in r && 'T' !in r
    ensures '+' !in dateTime && 'T' !in dateTime ==> r == dateTime
  {
    var cut := BeforePlus(dateTime);
    var r := ReplaceT(cut);
    ReplaceTAt(cut);
    assert '+' !in r by {
      forall i | 0 <= i < |r| ensures r[i] != '+' {
        assert cut[i] in cut;
      }
    }
    assert '+' !in dateTime && 'T' !in dateTime ==> r == dateTime by {
      if '+' !in dateTime && 'T' !in dateTime {
        assert cut == dateTime;
        forall i | 0 <= i < |r| ensures r[i] == dateTime[i] {
          assert dateTime[i] in dateTime;
        }
      }
    }
    r
  }

  /** Position by position: the result is the prefix before the first `+`,
      with each `T` replaced by a space. */
  lemma NormalizeAt(dateTime: string)
    ensures var r := Normalize(dateTime);
            && r <= ReplaceT(dateTime)
            && '+' !in dateTime[..|r|]
            && (|r| < |dateTime| ==> dateTime[|r|] == '+')
  {
    var cut := BeforePlus(dateTime);
    var r := Normalize(dateTime);
    var full := ReplaceT(dateTime);
    ReplaceTAt(cut);
    ReplaceTAt(dateTime);
    assert dateTime[..|r|] == cut;
    forall i | 0 <= i < |r| ensures r[i] == full[i] {
      assert cut[i] == dateTime[i];
    }
  }

  /** Normalising an already normalised timestamp changes nothing. */
  lemma NormalizeIdempotent(dateTime: string)
    ensures Normalize(Normalize(dateTime)) == Normalize(dateTime)
  {
  }

  /** Text without `+` is kept whole by the cut, which then goes on in what
      follows it. */
  lemma {:induction false} BeforePlusConcat(a: string, b: string)
    requires '+' !in a
    ensures BeforePlus(a + b) == a + BeforePlus(b)
    decreases |a|
  {
    if a == [] {
      assert a + b == b;
    } else {
      assert a[0] in a;
      assert (a + b)[1..] == a[1..] + b;
      BeforePlusConcat(a[1..], b);
      assert a == [a[0]] + a[1..];
    }
  }

  /** `T` is replaced piece by piece. */
  lemma {:induction false} ReplaceTConcat(a: string, b: string)
    ensures ReplaceT(a + b) == ReplaceT(a) + ReplaceT(b)
    decreases |a|
  {
    if a == [] {
      assert a + b == b;
    } else {
      assert (a + b)[1..] == a[1..] + b;
      ReplaceTConcat(a[1..], b);
    }
  }

  /** Text without `T` is left alone by the replacement. */
  lemma {:induction false} ReplaceTFree(a: string)
    requires 'T' !in a
    ensures ReplaceT(a) == a
    decreases |a|
  {
    if a != [] {
      assert a[0] in a;
      assert 'T' !in a[1..] by {
        forall i | 0 <= i < |a[1..]| ensures a[1..][i] != 'T' {
          assert a[1..][i] == a[i + 1];
          assert a[i + 1] in a;
        }
      }
      ReplaceTFree(a[1..]);
      assert a == [a[0]] + a[1..];
    }
  }

  /** The date/time separator of a timestamp whose parts hold no `T`
      becomes a space. */
  lemma ReplaceTStamp(date: string, sep: string, time: string)
    requires 'T' !in date && 'T' !in time && 'T' !in sep
    ensures ReplaceT(date + "T" + time + sep) == date + " " + time + sep
  {
    var a := date + "T";
    var b := a + time;
    assert ReplaceT("T") == " ";
    ReplaceTFree(date);
    ReplaceTConcat(date, "T");
    assert ReplaceT(a) == date + " ";
    ReplaceTFree(time);
    ReplaceTConcat(a, time);
    assert ReplaceT(b) == date + " " + time;
    ReplaceTFree(sep);
    ReplaceTConcat(b, sep);
  }

  /** The cut of a timestamp whose date and time hold no `+` falls on the
      `+` that starts its offset. */
  lemma BeforePlusStamp(date: string, time: string, offset: string)
    requires '+' !in date && '+' !in time
    ensures BeforePlus(date + "T" + time + "+" + offset) == date + "T" + time
  {
    var plus := "+" + offset;
    assert BeforePlus(plus) == [];
    BeforePlusConcat(date + "T" + time, plus);
    assert date + "T" + time + "+" + offset == (date + "T" + time) + plus;
  }

  /** A device timestamp `<date>T<time>+<offset>` is stored as
      `<date> <time>`. */
  lemma NormalizeIsoStamp(date: string, time: string, offset: string)
    requires '+' !in date && 'T' !in date
    requires '+' !in time && 'T' !in time
    ensures Normalize(date + "T" + time + "+" + offset) == date + " " + time
  {
    BeforePlusStamp(date, time, offset);
    ReplaceTStamp(date, "", time);
    assert date + "T" + time + "" == date + "T" + time;
    assert date + " " + time + "" == date + " " + time;
  }

  /** Only `+` offsets are cut: a timestamp with a negative offset is stored
      with the offset still attached. */
  lemma NegativeOffsetKept(date: string, time: string, offset: string)
    requires '+' !in date && 'T' !in date
    requires '+' !in time && 'T' !in time
    requires '+' !in offset && 'T' !in offset
    ensures Normalize(date + "T" + time + "-" + offset) == date + " " + time + "-" + offset
  {
    var s := date + "T" + time + "-" + offset;
    assert BeforePlus(s) == s by {
      assert '+' !in s;
      BeforePlusConcat(s, []);
      assert s + [] == s;
    }
    ReplaceTStamp(date, "-" + offset, time);
    assert date + "T" + time + ("-" + offset) == s;
    assert date + " " + time + ("-" + offset) == date + " " + time + "-" + offset;
  }

  // ---------------------------------------------------------------------
  // Classification (lines 112-125)

  /** The `(msg, origen)` pair of the if/elif chain at lines 119-123, or None
      when `msg` stays None. */
  function Label(sub: Json): (r: Option<(string, string)>)
    ensures r.Some? <==> PyEqInt(sub, 38) || PyEqInt(sub, 75) || PyEqInt(sub, 1) || PyEqInt(sub, 39)
  {
    if PyEqInt(sub, 38) then Some(("ASISTENCIA", "Huella"))
    else if PyEqInt(sub, 75) then Some(("VERIFICACIÓN OK", "Huella"))
    else if PyEqInt(sub, 1) then Some(("BOTON SALIDA", "Físico"))
    else if PyEqInt(sub, 39) then Some(("FALLO LOGIN", "Huella"))
    else None
  }

  /** The `guardar_log` call `procesar_json` makes for a decoded frame, if any. */
  function Classify(data: Option<Json>): (r: Option<LogEntry>)
    // json.loads failed: swallowed by `except: pass`
    ensures data.None? ==> r.None?
    // a document that is not an object cannot be `.get`-ed
    ensures data.Some? && !data.value.JObj? ==> r.None?
    // what is stored is always a normalised timestamp and one of four labels
    ensures r.Some? ==> '+' !in r.value.fecha && 'T' !in r.value.fecha
  {
    match data
    case None => None
    case Some(doc) =>
      if !doc.JObj? then None
      else
        var evt := Get(doc.fields, "AccessControllerEvent", JObj(map[]));
        if !evt.JObj? then None
        else
          var sub := Get(evt.fields, "subEventType", JNum(0));
          if PyEqInt(sub, 0) then None
          else
            var uid := Get(evt.fields, "employeeNoString", JStr("Desconocido"));
            var dateTime := Get(doc.fields, "dateTime", JStr(""));
            if !dateTime.JStr? then None
            else
              var fecha := Normalize(dateTime.s);
              match Label(sub)
              case None => None
              case Some(tag) => Some(LogEntry(fecha, uid, tag.0, tag.1))
  }

  /** Only an event object carrying a `subEventType` that the if/elif chain
      recognises is logged, under that code's label. */
  lemma ClassifyNeedsKnownCode(data: Option<Json>)
    requires Classify(data).Some?
    ensures var doc := data.value;
            && doc.JObj? && "AccessControllerEvent" in doc.fields
            && var evt := doc.fields["AccessControllerEvent"];
            && evt.JObj? && "subEventType" in evt.fields
            && Label(evt.fields["subEventType"]) ==
                 Some((Classify(data).value.evento, Classify(data).value.origen))
  {
  }

  // ---------------------------------------------------------------------
  // The table, for any event document

  /** The table for every document holding an `AccessControllerEvent`
      object, whatever other keys it or the event carry: a missing
      `subEventType` counts as 0; a code equal (under Python `==`) to 38, 75,
      1 or 39 is logged with its label, the `employeeNoString` value as stored
      (or "Desconocido") and the normalised `dateTime` (or ""); any other code
      is not logged. */
  lemma ClassifyEvent(fields: map<string, Json>, evt: map<string, Json>)
    requires "AccessControllerEvent" in fields && fields["AccessControllerEvent"] == JObj(evt)
    requires "dateTime" in fields ==> fields["dateTime"].JStr?
    ensures var r := Classify(Some(JObj(fields)));
            var sub := Get(evt, "subEventType", JNum(0));
            var stamp := if "dateTime" in fields then fields["dateTime"].s else "";
            var entry := (e: string, o: string) =>
              LogEntry(Normalize(stamp), Get(evt, "employeeNoString", JStr("Desconocido")), e, o);
            && (PyEqInt(sub, 38) ==> r == Some(entry("ASISTENCIA", "Huella")))
            && (PyEqInt(sub, 75) ==> r == Some(entry("VERIFICACIÓN OK", "Huella")))
            && (PyEqInt(sub, 1) ==> r == Some(entry("BOTON SALIDA", "Físico")))
            && (PyEqInt(sub, 39) ==> r == Some(entry("FALLO LOGIN", "Huella")))
            && (!(PyEqInt(sub, 38) || PyEqInt(sub, 75) || PyEqInt(sub, 1) || PyEqInt(sub, 39)) ==> r == None)
  {
  }

  /** An `AccessControllerEvent` entry that is not an object (a list, a
      string, null) has no `.get`, so the event is not logged. */
  lemma NonObjectEventDropped(fields: map<string, Json>)
    requires "AccessControllerEvent" in fields && !fields["AccessControllerEvent"].JObj?
    ensures Classify(Some(JObj(fields))) == None
  {
  }

  /** A `dateTime` that is present but not a string makes `.split` raise, so
      no event is logged, whatever its code. */
  lemma NonStringDateTimeDropsEvent(fields: map<string, Json>)
    requires "dateTime" in fields && !fields["dateTime"].JStr?
    ensures Classify(Some(JObj(fields))) == None
  {
  }

  // ---------------------------------------------------------------------
  // The shape the terminal actually sends

  /** The smallest document of the terminal's shape: an
      `AccessControllerEvent` object with an optional integer `subEventType`
      and an optional `employeeNoString`, next to an optional top-level
      `dateTime` string, and no other keys. */
  function DeviceEvent(code: Option<int>, employee: Option<string>, dateTime: Option<string>): Json {
    var evt :=
      (if code.Some? then map["subEventType" := JNum(code.value)] else map[]) +
      (if employee.Some? then map["employeeNoString" := JStr(employee.value)] else map[]);
    JObj(map["AccessControllerEvent" := JObj(evt)] +
         (if dateTime.Some? then map["dateTime" := JStr(dateTime.value)] else map[]))
  }

  /** ClassifyEvent for such minimal documents, with the code and the fields
      as plain values. */
  lemma ClassifyDeviceEvent(code: Option<int>, employee: Option<string>, dateTime: Option<string>)
    ensures var r := Classify(Some(DeviceEvent(code, employee, dateTime)));
            var c := code.GetOr(0);
            var entry := (s: string, o: string) =>
              LogEntry(Normalize(dateTime.GetOr("")), JStr(employee.GetOr("Desconocido")), s, o);
            && (c == 38 ==> r == Some(entry("ASISTENCIA", "Huella")))
            && (c == 75 ==> r == Some(entry("VERIFICACIÓN OK", "Huella")))
            && (c == 1 ==> r == Some(entry("BOTON SALIDA", "Físico")))
            && (c == 39 ==> r == Some(entry("FALLO LOGIN", "Huella")))
            && (c != 38 && c != 75 && c != 1 && c != 39 ==> r == None)
  {
    var doc := DeviceEvent(code, employee, dateTime);
    var evt := doc.fields["AccessControllerEvent"].fields;
    ClassifyEvent(doc.fields, evt);
    assert Get(evt, "subEventType", JNum(0)) == JNum(code.GetOr(0));
    assert Get(evt, "employeeNoString", JStr("Desconocido")) == JStr(employee.GetOr("Desconocido"));
  }

  /** A frame without an `AccessControllerEvent` object (a heartbeat, say) is
      never logged. */
  lemma NoEventNoLog(fields: map<string, Json>)
    requires "AccessControllerEvent" !in fields
    ensures Classify(Some(JObj(fields))) == None
  {
  }

  /** Python compares `True == 1`: a boolean `subEventType` of true is logged
      as the exit button, and false counts as the heartbeat code 0. */
  lemma BooleanCodes(dateTime: string)
    ensures var doc := (b: bool) =>
              JObj(map["AccessControllerEvent" := JObj(map["subEventType" := JBool(b)]),
                       "dateTime" := JStr(dateTime)]);
            && Classify(Some(doc(true))) ==
                 Some(LogEntry(Normalize(dateTime), JStr("Desconocido"), "BOTON SALIDA", "Físico"))
            && Classify(Some(doc(false))) == None
  {
  }

}
