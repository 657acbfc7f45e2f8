/** The `grpcwait` loop of `main`: a `select` over three channels that
    waits until a gRPC connection to the sink is established.

    - `timer.C`, the timeout ticker, only logs.
    - `ticker.C`, the retry ticker, dials. A failed dial leaves the nil
      handle that `grpc.Dial` returns in `grpcConnection`. A successful
      dial stores the handle and puts `true` into `connected`, a channel
      with a buffer of one.
    - `connected` leaves the loop once a value is waiting in it.

    Timers and the scheduler become a trace of events, each naming the
    `select` case that was taken. */
module GrpcWait {
  import opened Wrappers
  import opened GoStrings

  /** One pass through the `select`. `Tick(dialOk)` is the retry ticker
      together with the outcome of `grpc.Dial`. `Receive` is the
      `connected` case; it is ready only while a value waits in the
      buffer, and otherwise the scheduler cannot pick it. */
  datatype Event = Timeout | Tick(dialOk: bool) | Receive

  /** The loop's variables. `attempts` counts dials. `conn` is
      `grpcConnection`: `Some(k)` is the handle from the `k`-th dial and
      `None` is nil. `pending` says whether `connected` holds a value. */
  datatype Loop = Loop(attempts: nat, conn: Option<nat>, pending: bool)

  /** Still selecting, left through `break grpcwait`, or blocked for ever
      on a send into the full `connected` buffer. */
  datatype State = Waiting(loop: Loop) | Exited(loop: Loop) | Stuck(loop: Loop)

  const Start: State := Waiting(Loop(0, None, false))

  /** Number of dials in a trace. */
  function CountTicks(t: seq<Event>): nat {
    if |t| == 0 then 0 else (if t[0].Tick? then 1 else 0) + CountTicks(t[1..])
  }

  /** The `k`-th dial and what it leaves in `grpcConnection`. */
  function Dial(l: Loop, ok: bool): (l': Loop)
    ensures l'.attempts == l.attempts + 1 && l'.pending == l.pending
    ensures ok <==> l'.conn == Some(l'.attempts)
    ensures !ok <==> l'.conn.None?
  {
    var n := l.attempts + 1;
    l.(attempts := n, conn := if ok then Some(n) else None)
  }

  /** One `select` case of the loop as written. */
  function Step(s: State, e: Event): (r: State)
    ensures e == Timeout || !s.Waiting? ==> r == s
    ensures s.Waiting? && r.Exited? ==> e == Receive && s.loop.pending && r.loop.conn == s.loop.conn
    ensures s.Waiting? && r.Stuck? ==> e == Tick(true) && s.loop.pending
  {
    match s
    case Waiting(l) =>
      (match e
       case Timeout => s
       case Receive => if l.pending then Exited(l.(pending := false)) else s
       case Tick(ok) =>
         if !ok then Waiting(Dial(l, ok))
         else if l.pending then Stuck(Dial(l, ok))
         else Waiting(Dial(l, ok).(pending := true)))
    case _ => s
  }

  /** The loop as written, run over a trace. */
  function Run(s: State, t: seq<Event>): State
    decreases |t|
  {
    if |t| == 0 then s else Run(Step(s, t[0]), t[1..])
  }

  /** `Run` over two traces is `Run` over the first, then over the second. */
  lemma {:induction false} RunAppend(s: State, a: seq<Event>, b: seq<Event>)
    ensures Run(s, a + b) == Run(Run(s, a), b)
    decreases |a|
  {
    if |a| == 0 {
      assert a + b == b;
    } else {
      assert (a + b)[0] == a[0];
      assert (a + b)[1..] == a[1..] + b;
      RunAppend(Step(s, a[0]), a[1..], b);
    }
  }

  /** The trace without its timeouts. */
  function WithoutTimeouts(t: seq<Event>): (u: seq<Event>)
    ensures |u| <= |t| && Timeout !in u
  {
    if |t| == 0 then []
    else if t[0] == Timeout then WithoutTimeouts(t[1..])
    else [t[0]] + WithoutTimeouts(t[1..])
  }

  /** The timeout ticker only logs: however often it fires, and wherever,
      the loop ends in the same state. */
  lemma {:induction false} TimeoutsIgnored(s: State, t: seq<Event>)
    ensures Run(s, t) == Run(s, WithoutTimeouts(t))
    decreases |t|
  {
    if |t| > 0 {
      TimeoutsIgnored(Step(s, t[0]), t[1..]);
      if t[0] != Timeout {
        var u := [t[0]] + WithoutTimeouts(t[1..]);
        assert u[0] == t[0] && u[1..] == WithoutTimeouts(t[1..]);
      }
    }
  }

  /** Until a dial succeeds, the loop keeps waiting: every tick is a dial,
      and after the first one the handle is nil. */
  lemma {:induction false} NoSuccessKeepsWaiting(l: Loop, t: seq<Event>)
    requires !l.pending
    requires Tick(true) !in t
    ensures Run(Waiting(l), t)
         == Waiting(Loop(l.attempts + CountTicks(t), if CountTicks(t) == 0 then l.conn else None, false))
    decreases |t|
  {
    if |t| > 0 {
      assert t[0] != Tick(true);
      assert Tick(true) !in t[1..] by { assert forall i :: 0 <= i < |t[1..]| ==> t[1..][i] == t[i + 1]; }
      NoSuccessKeepsWaiting(Step(Waiting(l), t[0]).loop, t[1..]);
    }
  }

  /** As written, the loop is never left unless some dial succeeded. */
  lemma ExitNeedsSuccess(t: seq<Event>)
    requires !Run(Start, t).Waiting?
    ensures Tick(true) in t
  {
    if Tick(true) !in t {
      NoSuccessKeepsWaiting(Start.loop, t);
    }
  }

  /** When the `connected` case is taken right after the successful dial,
      the loop leaves with that dial's handle. */
  lemma PromptReceiveExits(p: seq<Event>)
    requires Tick(true) !in p
    ensures Run(Start, p + [Tick(true), Receive])
         == Exited(Loop(CountTicks(p) + 1, Some(CountTicks(p) + 1), false))
  {
    NoSuccessKeepsWaiting(Start.loop, p);
    RunAppend(Start, p, [Tick(true), Receive]);
    assert [Tick(true), Receive][1..] == [Receive];
  }

  /** As written, a failed dial after a successful one overwrites the
      handle with nil while `true` still waits in `connected`: the loop is
      then left with no connection. */
  lemma NilHandleAfterExit()
    ensures Run(Start, [Tick(true), Tick(false), Receive]) == Exited(Loop(2, None, false))
  {
  }

  /** As written, two successful dials before `connected` is read block
      the second send for ever: nothing else reads the channel. */
  lemma SecondSuccessBlocks()
    ensures Run(Start, [Tick(true), Tick(true)]) == Stuck(Loop(2, Some(2), true))
  {
  }

  /** The loop as evidently intended: a successful dial leaves the loop at
      once with its handle, as `connected` being read next would. */
  function StepFixed(s: State, e: Event): (r: State)
    ensures e == Timeout || e == Receive || !s.Waiting? ==> r == s
    ensures s.Waiting? && r.Exited? <==> s.Waiting? && e == Tick(true)
    ensures !r.Stuck? || s.Stuck?
  {
    match s
    case Waiting(l) =>
      (match e
       case Tick(ok) => if ok then Exited(Dial(l, ok)) else Waiting(Dial(l, ok))
       case _ => s)
    case _ => s
  }

  function RunFixed(s: State, t: seq<Event>): State
    decreases |t|
  {
    if |t| == 0 then s else RunFixed(StepFixed(s, t[0]), t[1..])
  }

  /** Before any successful dial the corrected loop keeps waiting, with
      nil after the first failure. */
  lemma {:induction false} FixedNoSuccessKeepsWaiting(l: Loop, t: seq<Event>)
    requires !l.pending
    requires Tick(true) !in t
    ensures RunFixed(Waiting(l), t)
         == Waiting(Loop(l.attempts + CountTicks(t), if CountTicks(t) == 0 then l.conn else None, false))
    decreases |t|
  {
    if |t| > 0 {
      assert t[0] != Tick(true);
      assert Tick(true) !in t[1..] by { assert forall i :: 0 <= i < |t[1..]| ==> t[1..][i] == t[i + 1]; }
      FixedNoSuccessKeepsWaiting(StepFixed(Waiting(l), t[0]).loop, t[1..]);
    }
  }

  /** Once left, the corrected loop stays left. */
  lemma {:induction false} FixedExitedStays(l: Loop, t: seq<Event>)
    ensures RunFixed(Exited(l), t) == Exited(l)
    decreases |t|
  {
    if |t| > 0 {
      FixedExitedStays(l, t[1..]);
    }
  }

  /** The corrected loop is left exactly at the first successful dial, with
      that dial's handle, whatever happens afterwards. */
  lemma FixedExitsAtFirstSuccess(p: seq<Event>, q: seq<Event>)
    requires Tick(true) !in p
    ensures RunFixed(Start, p + [Tick(true)] + q)
         == Exited(Loop(CountTicks(p) + 1, Some(CountTicks(p) + 1), false))
  {
    FixedNoSuccessKeepsWaiting(Start.loop, p);
    var u := p + [Tick(true)] + q;
    FixedRunAppend(Start, p, [Tick(true)] + q);
    assert u == p + ([Tick(true)] + q);
    var l := Loop(CountTicks(p) + 1, Some(CountTicks(p) + 1), false);
    FixedExitedStays(l, q);
    assert ([Tick(true)] + q)[1..] == q;
  }

  lemma {:induction false} FixedRunAppend(s: State, a: seq<Event>, b: seq<Event>)
    ensures RunFixed(s, a + b) == RunFixed(RunFixed(s, a), b)
    decreases |a|
  {
    if |a| == 0 {
      assert a + b == b;
    } else {
      assert (a + b)[0] == a[0];
      assert (a + b)[1..] == a[1..] + b;
      FixedRunAppend(StepFixed(s, a[0]), a[1..], b);
    }
  }

  /** The corrected loop is left if and only if some dial succeeds, and it
      is then left holding a connection. */
  lemma FixedExitsIffSuccess(t: seq<Event>)
    ensures RunFixed(Start, t).Exited? <==> Tick(true) in t
    ensures RunFixed(Start, t).Exited? ==> RunFixed(Start, t).loop.conn.Some?
  {
    if Tick(true) in t {
      var i :| 0 <= i < |t| && t[i] == Tick(true);
      var k := FirstSuccess(t, i);
      assert t == t[..k] + [Tick(true)] + t[k + 1..];
      FixedExitsAtFirstSuccess(t[..k], t[k + 1..]);
    } else {
      FixedNoSuccessKeepsWaiting(Start.loop, t);
    }
  }

  /** The position of the first successful dial, at or before `i`. */
  lemma {:induction false} FirstSuccess(t: seq<Event>, i: nat) returns (k: nat)
    requires i < |t| && t[i] == Tick(true)
    ensures k <= i && t[k] == Tick(true) && Tick(true) !in t[..k]
    decreases i
  {
    if Tick(true) in t[..i] {
      var j :| 0 <= j < i && t[..i][j] == Tick(true);
      k := FirstSuccess(t, j);
    } else {
      k := i;
    }
  }

  /** On traces where `connected` is read right after the first successful
      dial, the loop as written and the corrected loop end alike. */
  lemma AgreeOnPromptReceive(p: seq<Event>)
    requires Tick(true) !in p
    ensures Run(Start, p + [Tick(true), Receive]) == RunFixed(Start, p + [Tick(true)])
  {
    PromptReceiveExits(p);
    FixedExitsAtFirstSuccess(p, []);
    assert p + [Tick(true)] + [] == p + [Tick(true)];
  }

  /** The corrected loop never blocks. */
  lemma {:induction false} FixedNeverStuck(s: State, t: seq<Event>)
    requires !s.Stuck?
    ensures !RunFixed(s, t).Stuck?
    decreases |t|
  {
    if |t| > 0 {
      FixedNeverStuck(StepFixed(s, t[0]), t[1..]);
    }
  }

  /** `main` enters the loop only when a sink address is configured; with
      an empty address nothing is dialled and the handle stays nil.
      Otherwise the loop as written runs over the trace: it is neither left
      nor blocked before a dial succeeds, and until then it holds nil after
      every dial. */
  function Connect(address: Bytes, t: seq<Event>): (s: State)
    ensures |address| == 0 ==> s == Exited(Loop(0, None, false))
    ensures |address| > 0 && !s.Waiting? ==> Tick(true) in t
    ensures |address| > 0 && Tick(true) !in t ==> s == Waiting(Loop(CountTicks(t), None, false))
    ensures |address| > 0 && s.Waiting? ==>
              s.loop.attempts == CountTicks(t)
              && s.loop.conn == (if LastTick(t) == Some(true) then Some(CountTicks(t)) else None)
  {
    if |address| == 0 then Exited(Start.loop)
    else
      LastDialHandle(t);
      if Tick(true) in t then Run(Start, t)
      else
        NoSuccessKeepsWaiting(Start.loop, t);
        Run(Start, t)
  }

  /** `Connect` with the corrected loop: it never blocks, and it is left
      exactly when a dial succeeds, holding that connection. */
  function ConnectFixed(address: Bytes, t: seq<Event>): (s: State)
    ensures |address| == 0 ==> s == Exited(Loop(0, None, false))
    ensures |address| > 0 ==> (s.Exited? <==> Tick(true) in t)
    ensures |address| > 0 && s.Exited? ==> s.loop.conn.Some?
    ensures !s.Stuck?
  {
    if |address| == 0 then Exited(Start.loop)
    else
      FixedExitsIffSuccess(t);
      FixedNeverStuck(Start, t);
      RunFixed(Start, t)
  }

  /** The outcome of the last dial in a trace, if there was one. */
  function LastTick(t: seq<Event>): Option<bool>
    decreases |t|
  {
    if |t| == 0 then None
    else if t[|t| - 1].Tick? then Some(t[|t| - 1].dialOk)
    else LastTick(t[..|t| - 1])
  }

  lemma {:induction false} CountTicksSnoc(p: seq<Event>, e: Event)
    ensures CountTicks(p + [e]) == CountTicks(p) + (if e.Tick? then 1 else 0)
    decreases |p|
  {
    if |p| > 0 {
      assert (p + [e])[1..] == p[1..] + [e];
      CountTicksSnoc(p[1..], e);
    } else {
      assert p + [e] == [e];
    }
  }

  /** While the loop as written is still waiting, every tick has been one
      dial, and `grpcConnection` holds what the last dial returned: the
      handle of that dial when it succeeded, nil when it failed or when
      there was none. A value waits in `connected` from the first success
      on, even when later dials failed. */
  lemma {:induction false} LastDialHandle(t: seq<Event>)
    ensures Run(Start, t).Waiting? ==>
              Run(Start, t).loop.attempts == CountTicks(t)
              && Run(Start, t).loop.conn == (if LastTick(t) == Some(true) then Some(CountTicks(t)) else None)
              && Run(Start, t).loop.pending == (Tick(true) in t)
    decreases |t|
  {
    if |t| > 0 {
      var p := t[..|t| - 1];
      var e := t[|t| - 1];
      assert t == p + [e];
      LastDialHandle(p);
      RunAppend(Start, p, [e]);
      CountTicksSnoc(p, e);
      assert Run(Step(Run(Start, p), e), []) == Step(Run(Start, p), e);
    }
  }
}
