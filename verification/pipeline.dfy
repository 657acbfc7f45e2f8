/** The scanner goroutine of `main`. Each line read from the serial port
    becomes a request and is sent to the sink, whose echoed hash confirms
    it. Any per-line failure is logged and the loop moves on to the next
    line. */
module Pipeline {
  import opened Wrappers
  import opened GoStrings
  import opened Base64Url
  import opened Telemetry

  /** What `grpcClient.SendTelemetry` gives back: an error, or a response
      carrying a hash. */
  datatype SendResult = SendError | Answered(hash: Bytes)

  /** One scanned line, with the clock reading taken while it was
      converted and the reply the sink gives if its request is sent. */
  datatype ScannedLine = ScannedLine(data: Bytes, timetext: Bytes, reply: SendResult)

  /** How the handling of one line ends; all four continue the loop. */
  datatype Outcome = ParseFailed(error: ParseError) | SendFailed | Unconfirmed | Confirmed

  /** The request built from a line, with the separator `|` of the call
      in `main`. */
  function Build<F>(line: ScannedLine, parseFloat: Bytes -> Option<F>, sha1: Bytes -> Digest)
    : Result<Request<F>, ParseError>
  {
    ConstructTelemetry(line.data, [Pipe], line.timetext, parseFloat, sha1)
  }

  /** One pass of the scanner loop. A line that cannot be converted is
      never sent. A sent line is confirmed exactly when the sink echoes the
      request's hash, which is then the fingerprint of this very
      timestamp and line. */
  function Handle<F>(line: ScannedLine, parseFloat: Bytes -> Option<F>, sha1: Bytes -> Digest)
    : (o: Outcome)
    ensures o.ParseFailed? <==> Build(line, parseFloat, sha1).Failure?
    ensures o.ParseFailed? ==> o.error == Build(line, parseFloat, sha1).error
    ensures o == SendFailed <==> Build(line, parseFloat, sha1).Success? && line.reply == SendError
    ensures o == Confirmed <==>
              Build(line, parseFloat, sha1).Success?
              && line.reply == Answered(Build(line, parseFloat, sha1).value.hash)
    ensures o == Confirmed ==>
              |line.reply.hash| == 28
              && Decode(line.reply.hash) == Some(sha1(line.timetext + [Pipe] + line.data))
  {
    match Build(line, parseFloat, sha1)
    case Failure(e) => ParseFailed(e)
    case Success(request) =>
      match line.reply
      case SendError => SendFailed
      case Answered(hash) => if hash == request.hash then Confirmed else Unconfirmed
  }

  /** The requests handed to `SendTelemetry`, in line order. */
  function Sent<F>(lines: seq<ScannedLine>, parseFloat: Bytes -> Option<F>, sha1: Bytes -> Digest)
    : seq<Request<F>>
    decreases |lines|
  {
    if |lines| == 0 then []
    else
      var last := lines[|lines| - 1];
      Sent(lines[..|lines| - 1], parseFloat, sha1)
        + (match Build(last, parseFloat, sha1) case Success(q) => [q] case Failure(_) => [])
  }

  /** Number of lines rejected before sending. */
  function CountParseFailed(outcomes: seq<Outcome>): nat
    decreases |outcomes|
  {
    if |outcomes| == 0 then 0
    else CountParseFailed(outcomes[..|outcomes| - 1]) + (if outcomes[|outcomes| - 1].ParseFailed? then 1 else 0)
  }

  /** The outcome of every line, in line order. */
  function Outcomes<F>(lines: seq<ScannedLine>, parseFloat: Bytes -> Option<F>, sha1: Bytes -> Digest)
    : (os: seq<Outcome>)
    ensures |os| == |lines|
    decreases |lines|
  {
    if |lines| == 0 then []
    else Outcomes(lines[..|lines| - 1], parseFloat, sha1) + [Handle(lines[|lines| - 1], parseFloat, sha1)]
  }

  /** Each line's outcome is decided by that line alone. */
  lemma {:induction false} OutcomesAt<F>(lines: seq<ScannedLine>, parseFloat: Bytes -> Option<F>, sha1: Bytes -> Digest)
    ensures forall i :: 0 <= i < |lines| ==> Outcomes(lines, parseFloat, sha1)[i] == Handle(lines[i], parseFloat, sha1)
    decreases |lines|
  {
    if |lines| > 0 {
      var init := lines[..|lines| - 1];
      OutcomesAt(init, parseFloat, sha1);
      assert forall i :: 0 <= i < |init| ==> init[i] == lines[i];
    }
  }

  /** Every line is either sent or rejected before sending. */
  lemma {:induction false} SentCount<F>(lines: seq<ScannedLine>, parseFloat: Bytes -> Option<F>, sha1: Bytes -> Digest)
    ensures |Sent(lines, parseFloat, sha1)| + CountParseFailed(Outcomes(lines, parseFloat, sha1)) == |lines|
    decreases |lines|
  {
    if |lines| > 0 {
      var init := lines[..|lines| - 1];
      SentCount(init, parseFloat, sha1);
      CountStep(Outcomes(init, parseFloat, sha1), Handle(lines[|lines| - 1], parseFloat, sha1));
    }
  }

  /** The scanner loop over all lines the port yields. No failure stops
      it: there is one outcome per line (`OutcomesAt` says each is decided
      by its own line alone), and the lines that convert are sent, in
      order. */
  method ScanLoop<F>(lines: seq<ScannedLine>, parseFloat: Bytes -> Option<F>, sha1: Bytes -> Digest)
    returns (outcomes: seq<Outcome>, sent: seq<Request<F>>)
    ensures outcomes == Outcomes(lines, parseFloat, sha1)
    ensures sent == Sent(lines, parseFloat, sha1)
  {
    outcomes := [];
    sent := [];
    var i := 0;
    while i < |lines|
      invariant 0 <= i <= |lines|
      invariant outcomes == Outcomes(lines[..i], parseFloat, sha1)
      invariant sent == Sent(lines[..i], parseFloat, sha1)
    {
      var o := Handle(lines[i], parseFloat, sha1);
      var built := Build(lines[i], parseFloat, sha1);
      SentStep(lines, i, parseFloat, sha1);
      if built.Success? {
        sent := sent + [built.value];
      }
      outcomes := outcomes + [o];
      i := i + 1;
    }
    assert lines[..i] == lines;
  }

  /** The requests sent up to line `i` inclusive. */
  lemma SentStep<F>(lines: seq<ScannedLine>, i: nat, parseFloat: Bytes -> Option<F>, sha1: Bytes -> Digest)
    requires i < |lines|
    ensures Sent(lines[..i + 1], parseFloat, sha1)
         == Sent(lines[..i], parseFloat, sha1)
            + (if Build(lines[i], parseFloat, sha1).Success? then [Build(lines[i], parseFloat, sha1).value] else [])
    ensures Outcomes(lines[..i + 1], parseFloat, sha1)
         == Outcomes(lines[..i], parseFloat, sha1) + [Handle(lines[i], parseFloat, sha1)]
  {
    assert lines[..i + 1][..i] == lines[..i];
    assert lines[..i + 1][i] == lines[i];
  }

  lemma CountStep(outcomes: seq<Outcome>, o: Outcome)
    ensures CountParseFailed(outcomes + [o]) == CountParseFailed(outcomes) + (if o.ParseFailed? then 1 else 0)
  {
    assert (outcomes + [o])[..|outcomes|] == outcomes;
  }

  /** Handling is compositional: the requests sent for two batches of
      lines are those of the first followed by those of the second. */
  lemma {:induction false} SentAppend<F>(a: seq<ScannedLine>, b: seq<ScannedLine>,
                                         parseFloat: Bytes -> Option<F>, sha1: Bytes -> Digest)
    ensures Sent(a + b, parseFloat, sha1) == Sent(a, parseFloat, sha1) + Sent(b, parseFloat, sha1)
    decreases |b|
  {
    if |b| == 0 {
      assert a + b == a;
    } else {
      AppendInit(a, b);
      SentAppend(a, b[..|b| - 1], parseFloat, sha1);
    }
  }

  lemma AppendInit<T>(a: seq<T>, b: seq<T>)
    requires |b| > 0
    ensures (a + b)[..|a + b| - 1] == a + b[..|b| - 1]
    ensures (a + b)[|a + b| - 1] == b[|b| - 1]
  {
  }
}
