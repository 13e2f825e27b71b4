/**
 * One client connection to an nsqd broker: the RDY flow-control counters and
 * the back-off flag, the watermark that ordered consumption checks messages
 * against, the handshake and close flags, and the two one-element queues
 * (`requests`, `responses`) that keep at most one command waiting for its
 * response.
 *
 * The transitions are pure functions over a `State` value; the class
 * `NSQConnection` holds the same state in fields, and each of its methods is
 * proved to perform exactly the matching transition. The channel's liveness,
 * the outcome of an asynchronous write and what happens while a command
 * waits for its response are inputs.
 */
module Connection {
  import opened Wrappers
  import opened JavaNumbers
  import opened Entity

  /** The commands the connection writes; `Rdy.BACK_OFF` is `Rdy(0)`, `Other` stands for any other command. */
  datatype Command = Magic | Identify | Rdy(count: int32) | Cls | Other(name: string)

  /** A frame the broker sends back. */
  datatype Frame = ResponseFrame(payload: seq<byte>) | ErrorFrame(payload: seq<byte>)

  /** What the connection reads from its `NSQConfig`. */
  datatype Config = Config(ordered: bool, rdy: int32)

  /** The newest (internal id, disk queue offset) pair accepted by the order check. */
  datatype Watermark = Watermark(internalID: int64, diskQueueOffset: int64)

  /**
   * Everything the connection's methods read and write. `request` and
   * `response` are the two capacity-one queues; `written` is the sequence of
   * commands handed to the channel, in order.
   */
  datatype State = State(
    identitySent: bool, closing: bool, backoff: bool,
    currentRdy: int32, lastRdy: int32, expectedRdy: int32,
    latest: Watermark,
    request: Option<Command>, response: Option<Frame>,
    topic: Option<Topic>,
    written: seq<Command>)

  const NO_WATERMARK := Watermark(-1, -1)

  predicate WatermarkLe(a: Watermark, b: Watermark) {
    a.internalID <= b.internalID && a.diskQueueOffset <= b.diskQueueOffset
  }

  /**
   * What every transition preserves: the two RDY counters are never
   * negative, the watermark never falls below its initial (-1, -1), and the
   * CLS command has been written at most once, and only once `closing` is set.
   */
  predicate Inv(s: State) {
    && 0 <= s.currentRdy && 0 <= s.lastRdy
    && WatermarkLe(NO_WATERMARK, s.latest)
    && multiset(s.written)[Cls] <= (if s.closing then 1 else 0)
  }

  /** `expectedRdy` stays within 0 and the configured RDY. */
  predicate ExpectedInRange(s: State, config: Config) {
    0 <= s.expectedRdy <= config.rdy
  }

  /** The state the constructor sets up. */
  function Initial(config: Config): (s: State)
    ensures Inv(s)
    ensures 0 <= config.rdy ==> ExpectedInRange(s, config)
    ensures !s.identitySent && !s.closing && !s.backoff && s.written == []
  {
    State(false, false, false, 1, 1, config.rdy, NO_WATERMARK, None, None, None, [])
  }

  /** `isConnected()`: the channel is active and the connection is not closing. */
  predicate Connected(s: State, channelActive: bool) {
    channelActive && !s.closing
  }

  // ---------------------------------------------------------------- order check

  datatype OrderCheck = OrderCheck(accepted: bool, latest: Watermark)

  /** `checkOrder`: with ordering on, accepts a message not older than the watermark in either component. */
  function OrderStep(ordered: bool, w: Watermark, internalID: int64, diskQueueOffset: int64): (r: OrderCheck)
    ensures !ordered ==> r == OrderCheck(true, w)
    ensures ordered ==> (r.accepted <==> WatermarkLe(w, Watermark(internalID, diskQueueOffset)))
    ensures ordered && r.accepted ==> r.latest == Watermark(internalID, diskQueueOffset)
    ensures !r.accepted ==> r.latest == w
    ensures WatermarkLe(w, r.latest)
  {
    if !ordered then OrderCheck(true, w)
    else if internalID >= w.internalID && diskQueueOffset >= w.diskQueueOffset then
      OrderCheck(true, Watermark(internalID, diskQueueOffset))
    else OrderCheck(false, w)
  }

  /** The verdicts of checking `ms` one after another, starting from watermark `w`. */
  function OrderVerdicts(ordered: bool, w: Watermark, ms: seq<Watermark>): (r: seq<bool>)
    ensures |r| == |ms|
    decreases |ms|
  {
    if ms == [] then []
    else
      var c := OrderStep(ordered, w, ms[0].internalID, ms[0].diskQueueOffset);
      [c.accepted] + OrderVerdicts(ordered, c.latest, ms[1..])
  }

  /** With ordering off every message is accepted. */
  lemma {:induction false} UnorderedAcceptsAll(w: Watermark, ms: seq<Watermark>)
    ensures forall i :: 0 <= i < |ms| ==> OrderVerdicts(false, w, ms)[i]
  {
    if ms != [] {
      UnorderedAcceptsAll(w, ms[1..]);
    }
  }

  /** An accepted message is not older than the watermark the run started from. */
  lemma {:induction false} AcceptedAboveStart(w: Watermark, ms: seq<Watermark>, k: nat)
    requires k < |ms| && OrderVerdicts(true, w, ms)[k]
    ensures WatermarkLe(w, ms[k])
    decreases k
  {
    var c := OrderStep(true, w, ms[0].internalID, ms[0].diskQueueOffset);
    if k > 0 {
      AcceptedAboveStart(c.latest, ms[1..], k - 1);
    }
  }

  /** Accepted messages come in non-decreasing order in both components. */
  lemma {:induction false} AcceptedInOrder(w: Watermark, ms: seq<Watermark>, i: nat, j: nat)
    requires i < j < |ms|
    requires OrderVerdicts(true, w, ms)[i] && OrderVerdicts(true, w, ms)[j]
    ensures WatermarkLe(ms[i], ms[j])
    decreases i
  {
    var c := OrderStep(true, w, ms[0].internalID, ms[0].diskQueueOffset);
    if i == 0 {
      AcceptedAboveStart(c.latest, ms[1..], j - 1);
    } else {
      AcceptedInOrder(c.latest, ms[1..], i - 1, j - 1);
    }
  }

  /** Messages that arrive in non-decreasing order, none older than the start, are all accepted. */
  lemma {:induction false} InOrderAllAccepted(w: Watermark, ms: seq<Watermark>)
    requires ms != [] ==> WatermarkLe(w, ms[0])
    requires forall i :: 0 < i < |ms| ==> WatermarkLe(ms[i - 1], ms[i])
    ensures forall i :: 0 <= i < |ms| ==> OrderVerdicts(true, w, ms)[i]
    decreases |ms|
  {
    if ms != [] {
      InOrderAllAccepted(ms[0], ms[1..]);
    }
  }

  // ---------------------------------------------------------------- RDY counters

  /** `setCurrentRdyCount(n)`: ignores a negative or unchanged count, else remembers the old count in `lastRdy`. */
  function SetCurrentRdy(s: State, n: int32): (r: State)
    ensures Inv(s) ==> Inv(r)
    ensures r.(currentRdy := s.currentRdy, lastRdy := s.lastRdy) == s
    ensures n >= 0 ==> r.currentRdy == n
    ensures n < 0 || n == s.currentRdy ==> r == s
    ensures n >= 0 && n != s.currentRdy ==> r.lastRdy == s.currentRdy
  {
    if n < 0 || s.currentRdy == n then s
    else s.(lastRdy := s.currentRdy, currentRdy := n)
  }

  /** `declineExpectedRdy`: one less, unless that would be negative; the Java `int` wraps at its minimum. */
  function DeclineExpected(e: int32): (r: int32)
    ensures 0 <= e ==> 0 <= r
    ensures 0 < e ==> r as int == e as int - 1
    ensures INT32_MIN < e as int <= 0 ==> r == e
    ensures e as int == INT32_MIN ==> r as int == INT32_MAX
  {
    if Wrap32(e as int - 1) >= 0 then Wrap32(e as int - 1) else e
  }

  /** `increaseExpectedRdy`: one more, unless that would pass `limit`; the Java `int` wraps at its maximum. */
  function IncreaseExpected(e: int32, limit: int32): (r: int32)
    ensures e as int < INT32_MAX && e < limit ==> r as int == e as int + 1
    ensures e >= limit && e as int < INT32_MAX ==> r == e
    ensures e <= limit && limit as int < INT32_MAX ==> r <= limit
    ensures e as int == INT32_MAX ==> r as int == INT32_MIN
  {
    if Inc32(e) <= limit then Inc32(e) else e
  }

  function DeclineTimes(e: int32, n: nat): int32 {
    if n == 0 then e else DeclineExpected(DeclineTimes(e, n - 1))
  }

  function IncreaseTimes(e: int32, limit: int32, n: nat): int32 {
    if n == 0 then e else IncreaseExpected(IncreaseTimes(e, limit, n - 1), limit)
  }

  /** n declines from a non-negative count reach `max(e - n, 0)`. */
  lemma {:induction false} DeclineTimesFloor(e: int32, n: nat)
    requires 0 <= e
    ensures DeclineTimes(e, n) as int == if e as int - n >= 0 then e as int - n else 0
  {
    if n > 0 {
      DeclineTimesFloor(e, n - 1);
    }
  }

  /** n increases from at most `limit` reach `min(e + n, limit)`. */
  lemma {:induction false} IncreaseTimesCeiling(e: int32, limit: int32, n: nat)
    requires e <= limit && limit as int < INT32_MAX
    ensures IncreaseTimes(e, limit, n) as int == if e as int + n <= limit as int then e as int + n else limit as int
  {
    if n > 0 {
      IncreaseTimesCeiling(e, limit, n - 1);
    }
  }

  /** With the configured RDY at `Integer.MAX_VALUE`, one more increase wraps to `Integer.MIN_VALUE`. */
  lemma IncreaseWrapsAtMax()
    ensures IncreaseExpected(INT32_MAX as int32, INT32_MAX as int32) as int == INT32_MIN
  {
  }

  /**
   * `expectedRdy` does not bound `currentRdy`: a configured RDY of 0 starts
   * with a count of 1 above it, `onRdy` sets any count the caller passes, and
   * a decline lowers the expected count while the current one stays put.
   */
  lemma CurrentRdyAboveExpected()
    ensures var s := Initial(Config(false, 0)); s.currentRdy > s.expectedRdy
    ensures var s := Initial(Config(false, 5)); RdyStep(s, true, 100, true).state.currentRdy > s.expectedRdy
    ensures var s := Initial(Config(false, 1)); s.currentRdy > DeclineExpected(s.expectedRdy)
  {
  }

  datatype Step = Step(state: State, callback: Option<(int32, int32)>)

  /** `onRdy(rdy)`: writes RDY unless disconnected or backed off; a completed write updates the count and calls back (rdy, previous). */
  function RdyStep(s: State, channelActive: bool, rdy: int32, success: bool): (r: Step)
    ensures !Connected(s, channelActive) || s.backoff ==> r == Step(s, Some((s.currentRdy, s.currentRdy)))
    ensures Connected(s, channelActive) && !s.backoff ==>
      && r.state.written == s.written + [Rdy(rdy)]
      && r.state.backoff == s.backoff
      && (r.callback.Some? <==> success)
      && (success ==> r.callback.value == (rdy, s.currentRdy))
      && (success ==> r.state == SetCurrentRdy(s.(written := r.state.written), rdy))
      && (!success ==> r.state == s.(written := r.state.written))
    ensures Inv(s) ==> Inv(r.state)
  {
    if !Connected(s, channelActive) || s.backoff then Step(s, Some((s.currentRdy, s.currentRdy)))
    else
      var sent := s.(written := s.written + [Rdy(rdy)]);
      if success then Step(SetCurrentRdy(sent, rdy), Some((rdy, s.currentRdy)))
      else Step(sent, None)
  }

  /** `onBackoff`: sets `backoff` and writes RDY 0 when connected and not yet backed off; a completed write zeroes the count. */
  function BackoffStep(s: State, channelActive: bool, success: bool): (r: Step)
    ensures !Connected(s, channelActive) || s.backoff ==> r == Step(s, Some((0, 0)))
    ensures Connected(s, channelActive) && !s.backoff ==>
      && r.state.backoff
      && r.state.written == s.written + [Rdy(0)]
      && (r.callback.Some? <==> success)
      && (success ==> r.callback.value == (0, s.currentRdy) && r.state.currentRdy == 0)
      && (success ==> r.state == SetCurrentRdy(s.(backoff := true, written := r.state.written), 0))
      && (!success ==> r.state == s.(backoff := true, written := r.state.written))
    ensures Inv(s) ==> Inv(r.state)
  {
    if !Connected(s, channelActive) || s.backoff then Step(s, Some((0, 0)))
    else
      var sent := s.(backoff := true, written := s.written + [Rdy(0)]);
      if success then Step(SetCurrentRdy(sent, 0), Some((0, s.currentRdy)))
      else Step(sent, None)
  }

  /** `onResume`: when backed off, clears `backoff` and writes RDY `lastRdy`; a completed write restores the count. */
  function ResumeStep(s: State, channelActive: bool, success: bool): (r: Step)
    ensures !Connected(s, channelActive) || !s.backoff ==> r == Step(s, Some((s.currentRdy, s.currentRdy)))
    ensures Connected(s, channelActive) && s.backoff ==>
      && !r.state.backoff
      && r.state.written == s.written + [Rdy(s.lastRdy)]
      && (r.callback.Some? <==> success)
      && (success ==> r.callback.value == (s.lastRdy, s.currentRdy))
      && (success ==> r.state == SetCurrentRdy(s.(backoff := false, written := r.state.written), s.lastRdy))
      && (!success ==> r.state == s.(backoff := false, written := r.state.written))
    ensures Inv(s) ==> Inv(r.state)
  {
    if !Connected(s, channelActive) || !s.backoff then Step(s, Some((s.currentRdy, s.currentRdy)))
    else
      var rdy := s.lastRdy;
      var sent := s.(backoff := false, written := s.written + [Rdy(rdy)]);
      if success then Step(SetCurrentRdy(sent, rdy), Some((rdy, s.currentRdy)))
      else Step(sent, None)
  }

  /** A completed back-off followed by a completed resume restores a positive count. */
  lemma BackoffThenResume(s: State, channelActive: bool)
    requires Connected(s, channelActive) && !s.backoff && s.currentRdy > 0
    ensures var b := BackoffStep(s, channelActive, true);
      var r := ResumeStep(b.state, channelActive, true);
      && b.state.currentRdy == 0
      && r.state.currentRdy == s.currentRdy
      && !r.state.backoff
      && r.callback == Some((s.currentRdy, 0))
      && r.state.written == s.written + [Rdy(0), Rdy(s.currentRdy)]
  {
    var b := BackoffStep(s, channelActive, true);
    assert b.state.lastRdy == s.currentRdy;
    assert b.state.written + [Rdy(s.currentRdy)] == s.written + [Rdy(0), Rdy(s.currentRdy)];
  }

  /**
   * Back-off does not imply a zero count: a back-off whose RDY 0 write does
   * not complete leaves `backoff` set and the count at its old value, and
   * later `onRdy` calls are refused.
   */
  lemma BackedOffWithoutZeroCount(s: State, channelActive: bool, rdy: int32, success: bool)
    requires Connected(s, channelActive) && !s.backoff
    ensures var b := BackoffStep(s, channelActive, false);
      && b.state.backoff && b.state.currentRdy == s.currentRdy
      && RdyStep(b.state, channelActive, rdy, success) == Step(b.state, Some((s.currentRdy, s.currentRdy)))
  {
  }

  /** Applies a sequence of `onRdy` calls, each with its count and write outcome. */
  function RdyRun(s: State, channelActive: bool, calls: seq<(int32, bool)>): State
    decreases |calls|
  {
    if calls == [] then s
    else RdyRun(RdyStep(s, channelActive, calls[0].0, calls[0].1).state, channelActive, calls[1..])
  }

  /** While backed off, any number of `onRdy` calls write nothing and change nothing. */
  lemma {:induction false} BackedOffIgnoresRdy(s: State, channelActive: bool, calls: seq<(int32, bool)>)
    requires s.backoff
    ensures RdyRun(s, channelActive, calls) == s
  {
    if calls != [] {
      BackedOffIgnoresRdy(s, channelActive, calls[1..]);
    }
  }

  /** The RDY commands a run of `onRdy` calls asks for, one per call with its count. */
  function RdyWrites(calls: seq<(int32, bool)>): (cmds: seq<Command>)
    ensures |cmds| == |calls|
  {
    seq(|calls|, i requires 0 <= i < |calls| => Rdy(calls[i].0))
  }

  lemma RdyWritesCons(calls: seq<(int32, bool)>)
    requires calls != []
    ensures RdyWrites(calls) == [Rdy(calls[0].0)] + RdyWrites(calls[1..])
  {
  }

  /** Connected and not backed off, completed `onRdy` calls with counts 0 or more leave the count at the last one. */
  lemma {:induction false} RdyRunLast(s: State, channelActive: bool, calls: seq<(int32, bool)>)
    requires Connected(s, channelActive) && !s.backoff && calls != []
    requires forall i :: 0 <= i < |calls| ==> calls[i].0 >= 0 && calls[i].1
    ensures RdyRun(s, channelActive, calls).currentRdy == calls[|calls| - 1].0
    ensures RdyRun(s, channelActive, calls).written == s.written + RdyWrites(calls)
    decreases |calls|
  {
    var next := RdyStep(s, channelActive, calls[0].0, calls[0].1).state;
    assert next.written == s.written + [Rdy(calls[0].0)] && next.currentRdy == calls[0].0;
    RdyWritesCons(calls);
    if |calls| > 1 {
      RdyRunLast(next, channelActive, calls[1..]);
    }
  }

  // ---------------------------------------------------------------- single-flight exchange

  /** `addResponseFrame`: queued only while a request is outstanding and the response slot is free; dropped otherwise. */
  function ResponseArrives(s: State, f: Frame): (r: State)
    ensures s.request.None? || s.response.Some? ==> r == s
    ensures s.request.Some? && s.response.None? ==> r == s.(response := Some(f))
  {
    if s.request.Some? && s.response.None? then s.(response := Some(f)) else s
  }

  /** `addErrorFrame`: queued whenever the response slot is free, with or without an outstanding request. */
  function ErrorArrives(s: State, f: Frame): (r: State)
    ensures s.response.Some? ==> r == s
    ensures s.response.None? ==> r == s.(response := Some(f))
  {
    if s.response.None? then s.(response := Some(f)) else s
  }

  /** The I/O thread hands the connection a frame of either kind, or nothing. */
  function Deliver(s: State, arrival: Option<Frame>): State {
    match arrival
    case None => s
    case Some(f) => if f.ResponseFrame? then ResponseArrives(s, f) else ErrorArrives(s, f)
  }

  /** What happens once the command is written: the write times out, the thread is interrupted, or a frame (or none) arrives before the poll gives up. */
  datatype Wait = WriteTimedOut | Interrupted | Answered(arrival: Option<Frame>)

  datatype Outcome = Got(frame: Frame) | TimedOut | WasInterrupted

  datatype Exchanged = Exchanged(state: State, outcome: Outcome)

  /**
   * `_commandAndGetResposne`: take the request slot (a busy slot times the
   * offer out), clear the response slot, write the command, wait, and on a
   * response free both slots. Only that last path frees the request slot.
   */
  function Exchange(s: State, cmd: Command, wait: Wait): (r: Exchanged)
    ensures s.request.Some? ==> r == Exchanged(s, TimedOut)
    ensures s.request.None? ==> r.state.written == s.written + [cmd] && r.state.response.None?
    ensures s.request.None? ==> (r.outcome.Got? <==> wait.Answered? && wait.arrival.Some?)
    ensures r.outcome.Got? ==> wait == Answered(Some(r.outcome.frame))
    ensures s.request.None? && wait.Interrupted? ==> r.outcome == WasInterrupted
    ensures s.request.None? && (wait.WriteTimedOut? || wait == Answered(None)) ==> r.outcome == TimedOut
    ensures r.outcome.Got? <==> r.state.request.None?
    ensures !r.outcome.Got? ==> r.state.request.Some?
    ensures r.state.(request := s.request, response := s.response, written := s.written) == s
  {
    if s.request.Some? then Exchanged(s, TimedOut)
    else
      var sent := s.(request := Some(cmd), response := None, written := s.written + [cmd]);
      match wait
      case WriteTimedOut => Exchanged(sent, TimedOut)
      case Interrupted => Exchanged(sent, WasInterrupted)
      case Answered(arrival) =>
        var got := Deliver(sent, arrival);
        if got.response.Some? then Exchanged(got.(response := None, request := None), Got(got.response.value))
        else Exchanged(got, TimedOut)
  }

  /**
   * The commands a writer may send without breaking the invariant: anything
   * but CLS, and CLS only once close has begun and none was written yet.
   */
  predicate MayWrite(s: State, cmd: Command) {
    cmd != Cls || (s.closing && Cls !in s.written)
  }

  /** Writing a permitted command keeps the invariant. */
  lemma WriteKeepsInv(s: State, cmd: Command)
    requires Inv(s) && MayWrite(s, cmd)
    ensures Inv(s.(written := s.written + [cmd]))
  {
    var m := multiset(s.written + [cmd]);
    assert m == multiset(s.written) + multiset{cmd};
    if cmd == Cls {
      assert multiset(s.written)[Cls] == 0;
    }
  }

  /** An exchange of a permitted command keeps the invariant. */
  lemma ExchangeKeepsInv(s: State, cmd: Command, wait: Wait)
    ensures Inv(s) && MayWrite(s, cmd) ==> Inv(Exchange(s, cmd, wait).state)
  {
    if Inv(s) && MayWrite(s, cmd) && s.request.None? {
      WriteKeepsInv(s, cmd);
    }
  }

  /**
   * After an exchange that times out or is interrupted the request slot stays
   * taken, so every later exchange times out without writing its command.
   */
  lemma {:induction false} FailedExchangeBlocksLater(s: State, cmd: Command, wait: Wait, later: seq<(Command, Wait)>)
    requires !Exchange(s, cmd, wait).outcome.Got?
    ensures var t := Exchange(s, cmd, wait).state;
      forall i :: 0 <= i < |later| ==> Exchange(t, later[i].0, later[i].1) == Exchanged(t, TimedOut)
  {
  }

  /** A response frame with no outstanding request is dropped and cannot answer the next command. */
  lemma UnsolicitedResponseDropped(s: State, f: Frame, cmd: Command)
    requires s.request.None? && s.response.None?
    ensures ResponseArrives(s, f) == s
    ensures Exchange(ResponseArrives(s, f), cmd, Answered(None)).outcome == TimedOut
  {
  }

  datatype JavaException = TimeoutException | IllegalStateException

  datatype After<T> = After(state: State, result: Result<T, JavaException>)

  /**
   * `commandAndGetResponse`: an inactive channel throws a timeout without
   * touching anything; an interrupted wait returns null (the channel is then
   * closed, which is not part of this model).
   */
  function RequestStep(s: State, channelActive: bool, cmd: Command, wait: Wait): (r: After<Option<Frame>>)
    ensures !channelActive ==> r == After(s, Failure(TimeoutException))
    ensures channelActive ==> r.state == Exchange(s, cmd, wait).state
    ensures channelActive ==> match Exchange(s, cmd, wait).outcome
      case Got(f) => r.result == Success(Some(f))
      case TimedOut => r.result == Failure(TimeoutException)
      case WasInterrupted => r.result == Success(None)
  {
    if !channelActive then After(s, Failure(TimeoutException))
    else
      var e := Exchange(s, cmd, wait);
      match e.outcome
      case Got(f) => After(e.state, Success(Some(f)))
      case TimedOut => After(e.state, Failure(TimeoutException))
      case WasInterrupted => After(e.state, Success(None))
  }

  // ---------------------------------------------------------------- handshake and close

  /**
   * `_init`: only the first call after construction (or after a close)
   * writes MAGIC and exchanges IDENTIFY; no response is an
   * `IllegalStateException`, a timeout propagates. `identitySent` stays set
   * either way.
   */
  function InitStep(s: State, wait: Wait): (r: After<()>)
    ensures s.identitySent ==> r == After(s, Success(()))
    ensures r.state.identitySent
    ensures !s.identitySent && s.request.None? ==> r.state.written == s.written + [Magic, Identify]
    ensures !s.identitySent && s.request.Some? ==> r.state.written == s.written + [Magic]
    ensures r.result.Success? <==> s.identitySent || (s.request.None? && wait.Answered? && wait.arrival.Some?)
    ensures !s.identitySent && s.request.Some? ==> r.result == Failure(TimeoutException)
    ensures !s.identitySent && s.request.None? && wait.Interrupted? ==> r.result == Failure(IllegalStateException)
    ensures !s.identitySent && s.request.None? && (wait.WriteTimedOut? || wait == Answered(None)) ==>
      r.result == Failure(TimeoutException)
    ensures !s.identitySent ==> r.state == Exchange(s.(identitySent := true, written := s.written + [Magic]), Identify, wait).state
    ensures r.state.(identitySent := s.identitySent, request := s.request, response := s.response, written := s.written) == s
    ensures Inv(s) ==> Inv(r.state)
  {
    if s.identitySent then After(s, Success(()))
    else
      var greeted := s.(identitySent := true, written := s.written + [Magic]);
      assert Inv(s) ==> multiset(greeted.written)[Cls] == multiset(s.written)[Cls];
      ExchangeKeepsInv(greeted, Identify, wait);
      var e := Exchange(greeted, Identify, wait);
      After(e.state, InitResult(e.outcome))
  }

  /** How `init` reports the IDENTIFY exchange: only a timeout propagates as such. */
  function InitResult(o: Outcome): (r: Result<(), JavaException>)
    ensures r.Success? <==> o.Got?
    ensures o.TimedOut? ==> r == Failure(TimeoutException)
    ensures o.WasInterrupted? ==> r == Failure(IllegalStateException)
  {
    match o
    case Got(_) => Success(())
    case TimedOut => Failure(TimeoutException)
    case WasInterrupted => Failure(IllegalStateException)
  }

  /** `init(topic)`: the handshake, then the topic is recorded if it did not throw. */
  function InitTopicStep(s: State, topic: Topic, wait: Wait): (r: After<()>)
    ensures r.result == InitStep(s, wait).result
    ensures r.result.Success? ==> r.state == InitStep(s, wait).state.(topic := Some(topic))
    ensures r.result.Failure? ==> r.state == InitStep(s, wait).state
    ensures Inv(s) ==> Inv(r.state)
  {
    var i := InitStep(s, wait);
    if i.result.Success? then After(i.state.(topic := Some(topic)), i.result) else i
  }

  /** A repeated `_init` writes nothing, even after a failed handshake. */
  lemma InitOnce(s: State, wait: Wait, wait': Wait)
    ensures var first := InitStep(s, wait).state;
      InitStep(first, wait') == After(first, Success(()))
  {
  }

  /**
   * `_onClose`: clears `identitySent` if set, and only when it was set and
   * `closing` was not, sets `closing` and exchanges CLS, ignoring its
   * outcome. `closing` is never cleared again.
   */
  function CloseStep(s: State, wait: Wait): (r: State)
    ensures !r.identitySent
    ensures r.closing == (s.closing || s.identitySent)
    ensures r.written == s.written + (if s.identitySent && !s.closing && s.request.None? then [Cls] else [])
    ensures !s.identitySent ==> r == s
    ensures s.identitySent && s.closing ==> r == s.(identitySent := false)
    ensures s.identitySent && !s.closing ==> r == Exchange(s.(identitySent := false, closing := true), Cls, wait).state
    ensures r.(identitySent := s.identitySent, closing := s.closing, request := s.request, response := s.response, written := s.written) == s
    ensures Inv(s) ==> Inv(r)
  {
    if !s.identitySent then s
    else if s.closing then s.(identitySent := false)
    else Exchange(s.(identitySent := false, closing := true), Cls, wait).state
  }

  /** A second close, even after a new handshake, does not write CLS again. */
  lemma CloseOnce(s: State, w1: Wait, w2: Wait, w3: Wait)
    requires Inv(s)
    ensures var c := CloseStep(InitStep(CloseStep(s, w1), w2).state, w3);
      multiset(c.written)[Cls] <= 1 && c.closing
  {
  }

  // ---------------------------------------------------------------- whole histories

  /** One call on the connection, with the inputs that stand for the channel and the other threads. */
  datatype Op =
    | CheckOrderOp(internalID: int64, diskQueueOffset: int64)
    | SetCurrentRdyOp(count: int32)
    | DeclineOp
    | IncreaseOp
    | RdyOp(channelActive: bool, rdy: int32, success: bool)
    | BackoffOp(channelActive: bool, success: bool)
    | ResumeOp(channelActive: bool, success: bool)
    | ResponseFrameOp(responseFrame: Frame)
    | ErrorFrameOp(errorFrame: Frame)
    | WriteOp(name: string)
    | RequestOp(channelActive: bool, requestName: string, wait: Wait)
    | InitOp(initWait: Wait)
    | InitTopicOp(topic: Topic, topicWait: Wait)
    | CloseOp(closeWait: Wait)

  function Apply(s: State, config: Config, op: Op): State {
    match op
    case CheckOrderOp(id, off) => s.(latest := OrderStep(config.ordered, s.latest, id, off).latest)
    case SetCurrentRdyOp(n) => SetCurrentRdy(s, n)
    case DeclineOp => s.(expectedRdy := DeclineExpected(s.expectedRdy))
    case IncreaseOp => s.(expectedRdy := IncreaseExpected(s.expectedRdy, config.rdy))
    case RdyOp(a, n, ok) => RdyStep(s, a, n, ok).state
    case BackoffOp(a, ok) => BackoffStep(s, a, ok).state
    case ResumeOp(a, ok) => ResumeStep(s, a, ok).state
    case ResponseFrameOp(f) => ResponseArrives(s, f)
    case ErrorFrameOp(f) => ErrorArrives(s, f)
    case WriteOp(name) => s.(written := s.written + [Other(name)])
    case RequestOp(a, name, w) => RequestStep(s, a, Other(name), w).state
    case InitOp(w) => InitStep(s, w).state
    case InitTopicOp(t, w) => InitTopicStep(s, t, w).state
    case CloseOp(w) => CloseStep(s, w)
  }

  function Run(s: State, config: Config, ops: seq<Op>): State
    decreases |ops|
  {
    if ops == [] then s else Run(Apply(s, config, ops[0]), config, ops[1..])
  }

  /** `closing` is never cleared, so once close has begun the connection never reports itself connected again. */
  lemma {:induction false} ClosingStaysDisconnected(s: State, config: Config, ops: seq<Op>, channelActive: bool)
    requires s.closing
    ensures Run(s, config, ops).closing
    ensures !Connected(Run(s, config, ops), channelActive)
    decreases |ops|
  {
    if ops != [] {
      ClosingStaysDisconnected(Apply(s, config, ops[0]), config, ops[1..], channelActive);
    }
  }

  lemma ApplyKeepsInv(s: State, config: Config, op: Op)
    requires Inv(s)
    ensures Inv(Apply(s, config, op))
  {
    match op
    case WriteOp(name) =>
      assert multiset(s.written + [Other(name)])[Cls] == multiset(s.written)[Cls];
    case RequestOp(a, name, w) =>
      ExchangeKeepsInv(s, Other(name), w);
    case _ =>
  }

  /** Only the two expected-count operations touch `expectedRdy`, and they keep it in range. */
  lemma ApplyKeepsExpected(s: State, config: Config, op: Op)
    requires 0 <= config.rdy && config.rdy as int < INT32_MAX && ExpectedInRange(s, config)
    ensures ExpectedInRange(Apply(s, config, op), config)
  {
    match op
    case DeclineOp =>
    case IncreaseOp =>
    case _ =>
      assert Apply(s, config, op).expectedRdy == s.expectedRdy;
  }

  /**
   * Over any history from construction: the RDY counters stay non-negative,
   * the watermark stays at or above (-1, -1), CLS is written at most once,
   * and with a configured RDY below `Integer.MAX_VALUE` the expected count
   * stays within 0 and that RDY.
   */
  lemma {:induction false} RunKeepsInv(s: State, config: Config, ops: seq<Op>)
    requires Inv(s)
    ensures Inv(Run(s, config, ops))
    ensures multiset(Run(s, config, ops).written)[Cls] <= 1
    ensures 0 <= config.rdy && config.rdy as int < INT32_MAX && ExpectedInRange(s, config) ==>
      ExpectedInRange(Run(s, config, ops), config)
    decreases |ops|
  {
    if ops != [] {
      ApplyKeepsInv(s, config, ops[0]);
      if 0 <= config.rdy && config.rdy as int < INT32_MAX && ExpectedInRange(s, config) {
        ApplyKeepsExpected(s, config, ops[0]);
      }
      RunKeepsInv(Apply(s, config, ops[0]), config, ops[1..]);
    }
  }

  // ---------------------------------------------------------------- the connection object

  class NSQConnection {
    const config: Config
    var identitySent: bool
    var closing: bool
    var backoff: bool
    var currentRdy: int32
    var lastRdy: int32
    var expectedRdy: int32
    var latestInternalID: int64
    var latestDiskQueueOffset: int64
    var requests: Option<Command>
    var responses: Option<Frame>
    var topic: Option<Topic>
    /** The commands handed to the channel so far (`channel.writeAndFlush`). */
    var written: seq<Command>

    function Snapshot(): State
      reads this
    {
      State(identitySent, closing, backoff, currentRdy, lastRdy, expectedRdy,
            Watermark(latestInternalID, latestDiskQueueOffset), requests, responses, topic, written)
    }

    ghost predicate Valid()
      reads this
    {
      Inv(Snapshot())
    }

    /** Counts 1 and 1, the configured RDY expected, watermark (-1, -1), both flags and both slots clear. */
    constructor (config: Config)
      ensures this.config == config
      ensures Snapshot() == Initial(config)
      ensures Valid()
    {
      this.config := config;
      identitySent, closing, backoff := false, false, false;
      currentRdy := 1;
      lastRdy := 1;
      expectedRdy := config.rdy;
      latestInternalID, latestDiskQueueOffset := -1, -1;
      requests, responses, topic := None, None, None;
      written := [];
    }

    predicate IsConnected(channelActive: bool)
      reads this
      ensures IsConnected(channelActive) == Connected(Snapshot(), channelActive)
    {
      channelActive && !closing
    }

    method CheckOrder(internalID: int64, diskQueueOffset: int64) returns (ok: bool)
      requires Valid()
      modifies this
      ensures Valid()
      ensures var c := OrderStep(config.ordered, old(Snapshot()).latest, internalID, diskQueueOffset);
        ok == c.accepted && Snapshot() == old(Snapshot()).(latest := c.latest)
    {
      if !config.ordered {
        return true;
      }
      if internalID >= latestInternalID && diskQueueOffset >= latestDiskQueueOffset {
        latestInternalID := internalID;
        latestDiskQueueOffset := diskQueueOffset;
        return true;
      }
      return false;
    }

    method SetCurrentRdyCount(newCount: int32)
      requires Valid()
      modifies this
      ensures Valid()
      ensures Snapshot() == SetCurrentRdy(old(Snapshot()), newCount)
    {
      if newCount < 0 || currentRdy == newCount {
        return;
      }
      lastRdy := currentRdy;
      currentRdy := newCount;
    }

    method DeclineExpectedRdy() returns (v: int32)
      requires Valid()
      modifies this
      ensures Valid()
      ensures v == DeclineExpected(old(expectedRdy))
      ensures Snapshot() == old(Snapshot()).(expectedRdy := v)
    {
      if Wrap32(expectedRdy as int - 1) >= 0 {
        expectedRdy := Wrap32(expectedRdy as int - 1);
      }
      v := expectedRdy;
    }

    method IncreaseExpectedRdy() returns (v: int32)
      requires Valid()
      modifies this
      ensures Valid()
      ensures v == IncreaseExpected(old(expectedRdy), config.rdy)
      ensures Snapshot() == old(Snapshot()).(expectedRdy := v)
    {
      if Inc32(expectedRdy) <= config.rdy {
        expectedRdy := Inc32(expectedRdy);
      }
      v := expectedRdy;
    }

    /** `command(cmd)`: hands the command to the channel. */
    method Command(cmd: Command)
      requires Valid() && MayWrite(Snapshot(), cmd)
      modifies this
      ensures Valid()
      ensures Snapshot() == old(Snapshot()).(written := old(written) + [cmd])
    {
      WriteKeepsInv(Snapshot(), cmd);
      written := written + [cmd];
    }

    method OnRdy(channelActive: bool, rdy: int32, success: bool) returns (callback: Option<(int32, int32)>)
      requires Valid()
      modifies this
      ensures Valid()
      ensures var r := RdyStep(old(Snapshot()), channelActive, rdy, success);
        Snapshot() == r.state && callback == r.callback
    {
      if !IsConnected(channelActive) {
        return Some((currentRdy, currentRdy));
      }
      if backoff {
        return Some((currentRdy, currentRdy));
      }
      Command(Rdy(rdy));
      if success {
        var previous := currentRdy;
        SetCurrentRdyCount(rdy);
        callback := Some((rdy, previous));
      } else {
        callback := None;
      }
    }

    method OnBackoff(channelActive: bool, success: bool) returns (callback: Option<(int32, int32)>)
      requires Valid()
      modifies this
      ensures Valid()
      ensures var r := BackoffStep(old(Snapshot()), channelActive, success);
        Snapshot() == r.state && callback == r.callback
    {
      if !IsConnected(channelActive) {
        return Some((0, 0));
      }
      if !backoff {
        backoff := true;
        Command(Rdy(0));
        if success {
          var previous := currentRdy;
          SetCurrentRdyCount(0);
          callback := Some((0, previous));
        } else {
          callback := None;
        }
      } else {
        callback := Some((0, 0));
      }
    }

    method OnResume(channelActive: bool, success: bool) returns (callback: Option<(int32, int32)>)
      requires Valid()
      modifies this
      ensures Valid()
      ensures var r := ResumeStep(old(Snapshot()), channelActive, success);
        Snapshot() == r.state && callback == r.callback
    {
      if !IsConnected(channelActive) {
        return Some((currentRdy, currentRdy));
      }
      if backoff {
        backoff := false;
        var rdy := lastRdy;
        Command(Rdy(rdy));
        if success {
          var previous := currentRdy;
          SetCurrentRdyCount(rdy);
          callback := Some((rdy, previous));
        } else {
          callback := None;
        }
      } else {
        callback := Some((currentRdy, currentRdy));
      }
    }

    method AddResponseFrame(frame: Frame)
      requires Valid()
      modifies this
      ensures Valid()
      ensures Snapshot() == ResponseArrives(old(Snapshot()), frame)
    {
      if requests.Some? {
        if responses.None? {
          responses := Some(frame);
        }
      }
    }

    method AddErrorFrame(frame: Frame)
      requires Valid()
      modifies this
      ensures Valid()
      ensures Snapshot() == ErrorArrives(old(Snapshot()), frame)
    {
      if responses.None? {
        responses := Some(frame);
      }
    }

    /** `_commandAndGetResposne`. */
    method ExchangeCommand(cmd: Command, wait: Wait) returns (outcome: Outcome)
      requires Valid() && MayWrite(Snapshot(), cmd)
      modifies this
      ensures Valid()
      ensures var e := Exchange(old(Snapshot()), cmd, wait);
        Snapshot() == e.state && outcome == e.outcome
    {
      ExchangeKeepsInv(Snapshot(), cmd, wait);
      if requests.Some? {
        return TimedOut;
      }
      requests := Some(cmd);
      responses := None;
      Command(cmd);
      ghost var sent := Snapshot();
      assert sent == old(Snapshot()).(request := Some(cmd), response := None, written := old(written) + [cmd]);
      match wait {
        case WriteTimedOut =>
          outcome := TimedOut;
        case Interrupted =>
          outcome := WasInterrupted;
        case Answered(arrival) =>
          if arrival.Some? {
            if arrival.value.ResponseFrame? {
              AddResponseFrame(arrival.value);
            } else {
              AddErrorFrame(arrival.value);
            }
          }
          assert Snapshot() == Deliver(sent, arrival);
          if responses.Some? {
            outcome := Got(responses.value);
            responses := None;
            requests := None;
          } else {
            outcome := TimedOut;
          }
      }
    }

    method CommandAndGetResponse(channelActive: bool, cmd: Command, wait: Wait) returns (result: Result<Option<Frame>, JavaException>)
      requires Valid() && MayWrite(Snapshot(), cmd)
      modifies this
      ensures Valid()
      ensures var r := RequestStep(old(Snapshot()), channelActive, cmd, wait);
        Snapshot() == r.state && result == r.result
    {
      if !channelActive {
        return Failure(TimeoutException);
      }
      var outcome := ExchangeCommand(cmd, wait);
      match outcome {
        case Got(f) => result := Success(Some(f));
        case TimedOut => result := Failure(TimeoutException);
        case WasInterrupted => result := Success(None);
      }
    }

    /** `_init`. */
    method Init(wait: Wait) returns (result: Result<(), JavaException>)
      requires Valid()
      modifies this
      ensures Valid()
      ensures var r := InitStep(old(Snapshot()), wait);
        Snapshot() == r.state && result == r.result
    {
      if identitySent {
        return Success(());
      }
      identitySent := true;
      Command(Magic);
      ghost var greeted := Snapshot();
      assert greeted == old(Snapshot()).(identitySent := true, written := old(written) + [Magic]);
      var outcome := ExchangeCommand(Identify, wait);
      result := InitResult(outcome);
      assert InitStep(old(Snapshot()), wait) == After(Snapshot(), result);
    }

    /** `init(topic)`. */
    method InitWithTopic(t: Topic, wait: Wait) returns (result: Result<(), JavaException>)
      requires Valid()
      modifies this
      ensures Valid()
      ensures var r := InitTopicStep(old(Snapshot()), t, wait);
        Snapshot() == r.state && result == r.result
    {
      result := Init(wait);
      if result.Success? {
        topic := Some(t);
      }
    }

    /** `_onClose`. */
    method OnClose(wait: Wait)
      requires Valid()
      modifies this
      ensures Valid()
      ensures Snapshot() == CloseStep(old(Snapshot()), wait)
    {
      if identitySent {
        identitySent := false;
        if !closing {
          assert Cls !in written by {
            assert multiset(written)[Cls] == 0;
          }
          closing := true;
          var _ := ExchangeCommand(Cls, wait);
        }
      }
    }
  }
}
