/** `ConstructTelemetry`: one raw serial line, `value|voltage|current`,
    becomes a telemetry request carrying a fingerprint of the line and the
    time it was read. */
module Telemetry {
  import opened Wrappers
  import opened GoStrings
  import opened StrConv
  import opened Base64Url

  /** A SHA-1 digest: 20 bytes. */
  type Digest = d: Bytes | |d| == 20 witness seq(20, _ => 0)

  /** The record sent to the sink (`well.WellTelemetryRequest`). `F` stands
      for Go's `float32`; the model never looks inside it. */
  datatype Request<F> = Request(hash: Bytes, timestamp: Bytes, value: Int32, voltage: F, current: F)

  /** The four ways a line is rejected, in the order they are checked. */
  datatype ParseError = MinimumMatchNotFound | BadValue | BadVoltage | BadCurrent

  /** The error text the program reports for each rejection. */
  function Message(e: ParseError): string {
    match e
    case MinimumMatchNotFound => "Minimum match not found"
    case BadValue => "Couldn't parse value"
    case BadVoltage => "Couldn't parse voltage"
    case BadCurrent => "Couldn't parse current"
  }

  /** The text that is hashed: the timestamp and the raw line joined by `|`. */
  function MacInput(timetext: Bytes, data: Bytes): (m: Bytes)
    ensures m == timetext + [Pipe] + data
  {
    JoinCons(timetext, [data], [Pipe]);
    assert [timetext] + [data] == [timetext, data];
    Join([timetext, data], [Pipe])
  }

  /** Splitting the hashed text at its first `|` recovers the timestamp and
      the line, as long as the timestamp holds no `|` (Go's rendering of a
      time never does): the fingerprint's input names its pair uniquely. */
  lemma MacInputInjective(t1: Bytes, d1: Bytes, t2: Bytes, d2: Bytes)
    requires Pipe !in t1 && Pipe !in t2
    requires MacInput(t1, d1) == MacInput(t2, d2)
    ensures t1 == t2 && d1 == d2
  {
    var m := MacInput(t1, d1);
    IndexAfterSingleFree(t1, Pipe, d1);
    IndexAfterSingleFree(t2, Pipe, d2);
    assert |t1| == |t2|;
    assert t1 == m[..|t1|] && t2 == m[..|t2|];
    assert d1 == m[|t1| + 1..] && d2 == m[|t2| + 1..];
  }

  /** The `Hash` field: the SHA-1 digest of `MacInput` in padded URL-safe
      base64. Twenty bytes take six full quanta and one quantum of two
      bytes, so the text is 27 alphabet characters and one `=`, and it
      decodes back to the digest. */
  function Fingerprint(sha1: Bytes -> Digest, timetext: Bytes, data: Bytes): (h: Bytes)
    ensures |h| == 28 && h[27] == Pad
    ensures forall i :: 0 <= i < 27 ==> IsSymbol(h[i])
    ensures Decode(h) == Some(sha1(MacInput(timetext, data)))
  {
    var d := sha1(MacInput(timetext, data));
    EncodePadded(d);
    DecodeEncode(d);
    Encode(d)
  }

  /** Equal fingerprints mean equal timestamps and lines, unless SHA-1
      collides on the two hashed texts. */
  lemma FingerprintBinds(sha1: Bytes -> Digest, t1: Bytes, d1: Bytes, t2: Bytes, d2: Bytes)
    requires Pipe !in t1 && Pipe !in t2
    requires sha1(MacInput(t1, d1)) == sha1(MacInput(t2, d2)) ==> MacInput(t1, d1) == MacInput(t2, d2)
    requires Fingerprint(sha1, t1, d1) == Fingerprint(sha1, t2, d2)
    ensures t1 == t2 && d1 == d2
  {
    EncodeInjective(sha1(MacInput(t1, d1)), sha1(MacInput(t2, d2)));
    MacInputInjective(t1, d1, t2, d2);
  }

  /** Go's `ConstructTelemetry(data, sep)`, with the clock reading
      `timetext`, the float parser and SHA-1 as parameters. The line must
      split into at least three fields; field 0 must be a Go `int`, fields
      1 and 2 floats, checked in that order, and the first failure is the
      error. Fields after the third are not looked at. */
  function ConstructTelemetry<F>(data: Bytes, sep: Bytes, timetext: Bytes,
                                 parseFloat: Bytes -> Option<F>, sha1: Bytes -> Digest)
    : (r: Result<Request<F>, ParseError>)
    requires |sep| > 0
    ensures r == Failure(MinimumMatchNotFound) <==> |Split(data, sep)| < 3
    ensures r == Failure(BadValue) <==>
              |Split(data, sep)| >= 3 && Atoi(Split(data, sep)[0]).None?
    ensures r == Failure(BadVoltage) <==>
              |Split(data, sep)| >= 3 && Atoi(Split(data, sep)[0]).Some?
              && parseFloat(Split(data, sep)[1]).None?
    ensures r == Failure(BadCurrent) <==>
              |Split(data, sep)| >= 3 && Atoi(Split(data, sep)[0]).Some?
              && parseFloat(Split(data, sep)[1]).Some? && parseFloat(Split(data, sep)[2]).None?
    ensures r.Success? ==>
              && r.value.timestamp == timetext
              && r.value.hash == Fingerprint(sha1, timetext, data)
              && r.value.value == WrapInt32(Atoi(Split(data, sep)[0]).value)
              && Some(r.value.voltage) == parseFloat(Split(data, sep)[1])
              && Some(r.value.current) == parseFloat(Split(data, sep)[2])
  {
    var s := Split(data, sep);
    if |s| < 3 then Failure(MinimumMatchNotFound)
    else
      var value := Atoi(s[0]);
      if value.None? then Failure(BadValue)
      else
        var voltage := parseFloat(s[1]);
        if voltage.None? then Failure(BadVoltage)
        else
          var current := parseFloat(s[2]);
          if current.None? then Failure(BadCurrent)
          else
            Success(Request(Fingerprint(sha1, timetext, data), timetext, WrapInt32(value.value),
                            voltage.value, current.value))
  }

  /** A line without the separator is one field, and is rejected with the
      text "Minimum match not found". */
  lemma NoDelimiterRejected<F>(data: Bytes, sep: Bytes, timetext: Bytes,
                               parseFloat: Bytes -> Option<F>, sha1: Bytes -> Digest)
    requires |sep| > 0
    requires !Contains(data, sep)
    ensures ConstructTelemetry(data, sep, timetext, parseFloat, sha1) == Failure(MinimumMatchNotFound)
    ensures Message(ConstructTelemetry(data, sep, timetext, parseFloat, sha1).error) == "Minimum match not found"
  {
    SplitWithoutSeparator(data, sep);
  }

  /** What a request says about the measurement, leaving out the hash and
      the timestamp. */
  datatype Reading<F> = Reading(value: Int32, voltage: F, current: F)

  function ReadingOf<F>(r: Result<Request<F>, ParseError>): Result<Reading<F>, ParseError> {
    match r
    case Success(q) => Success(Reading(q.value, q.voltage, q.current))
    case Failure(e) => Failure(e)
  }

  /** Fields beyond the third are ignored: once a line has three fields,
      appending a separator and anything at all changes neither the
      reading nor the error. */
  lemma ExtraFieldsIgnored<F>(data: Bytes, c: Byte, rest: Bytes, timetext: Bytes,
                              parseFloat: Bytes -> Option<F>, sha1: Bytes -> Digest)
    requires |Split(data, [c])| >= 3
    ensures ReadingOf(ConstructTelemetry(data + [c] + rest, [c], timetext, parseFloat, sha1))
         == ReadingOf(ConstructTelemetry(data, [c], timetext, parseFloat, sha1))
  {
    SplitAppendSingle(data, c, rest);
    var s := Split(data + [c] + rest, [c]);
    assert s[0] == Split(data, [c])[0] && s[1] == Split(data, [c])[1] && s[2] == Split(data, [c])[2];
  }

  /** Round trip of the integer field, as in the documented line
      `133|0.65|0.43`: rendering a 64-bit integer and two parsable
      float fields into a line, the request carries the integer narrowed
      to 32 bits, which is the integer itself when it fits. */
  lemma IntegerRoundTrip<F>(v: int, a: Bytes, b: Bytes, timetext: Bytes,
                            parseFloat: Bytes -> Option<F>, sha1: Bytes -> Digest)
    requires MinInt64 <= v <= MaxInt64
    requires Pipe !in a && Pipe !in b
    requires parseFloat(a).Some? && parseFloat(b).Some?
    ensures var data := Itoa(v) + [Pipe] + a + [Pipe] + b;
            var r := ConstructTelemetry(data, [Pipe], timetext, parseFloat, sha1);
            && r.Success?
            && r.value.value == WrapInt32(v)
            && (-0x8000_0000 <= v < 0x8000_0000 ==> r.value.value == v)
            && r.value.voltage == parseFloat(a).value
            && r.value.current == parseFloat(b).value
  {
    var parts := [Itoa(v), a, b];
    JoinThree(Itoa(v), a, b, Pipe);
    ItoaPipeFree(v);
    SplitJoinSingle(parts, Pipe);
    AtoiItoa(v);
  }

  lemma JoinThree(x: Bytes, y: Bytes, z: Bytes, c: Byte)
    ensures Join([x, y, z], [c]) == x + [c] + y + [c] + z
  {
    JoinCons(x, [y, z], [c]);
    JoinCons(y, [z], [c]);
    assert [x] + [y, z] == [x, y, z];
    assert [y] + [z] == [y, z];
  }

  lemma ItoaPipeFree(v: int)
    ensures Pipe !in Itoa(v)
  {
  }

  /** The line documented beside the function: `133|0.65|0.43` yields the
      value 133 whenever the two float fields parse. */
  lemma DocumentedLine<F>(timetext: Bytes, parseFloat: Bytes -> Option<F>, sha1: Bytes -> Digest)
    requires parseFloat(Voltage065).Some? && parseFloat(Current043).Some?
    ensures var r := ConstructTelemetry(DocumentedData, [Pipe], timetext, parseFloat, sha1);
            r.Success? && r.value.value == 133
  {
    DocumentedData133();
    IntegerRoundTrip(133, Voltage065, Current043, timetext, parseFloat, sha1);
  }

  const Voltage065: Bytes := [0x30, 0x2E, 0x36, 0x35]   // "0.65"
  const Current043: Bytes := [0x30, 0x2E, 0x34, 0x33]   // "0.43"
  /** `133|0.65|0.43` */
  const DocumentedData: Bytes := [0x31, 0x33, 0x33, Pipe] + Voltage065 + [Pipe] + Current043

  lemma DocumentedData133()
    ensures DocumentedData == Itoa(133) + [Pipe] + Voltage065 + [Pipe] + Current043
  {
    assert NatToDigits(1) == [0x31];
    assert NatToDigits(13) == [0x31, 0x33];
    assert NatToDigits(133) == [0x31, 0x33, 0x33];
  }
}
