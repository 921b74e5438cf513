/**
 * The command/response layer of one serial link (instrument.py): a message
 * envelope with a response slot, and a port that owns a FIFO queue of
 * envelopes drained by a worker, one write-then-read exchange at a time.
 *
 * The serial transport is an oracle: each call that touches it takes, as
 * parameters, what the transport did (whether opening, closing or writing
 * succeeded, and which line a read returned). What the port did to the
 * transport is recorded in `wire`. The worker thread becomes the method
 * `WorkerStep` (one pass of its loop) and `RunWorker` (passes until the queue
 * is empty); `Transmit` takes, instead of waiting on the clock, the outcome
 * each of its awaits observed.
 */
module Instrument {
  import opened Wrappers
  import Text

  /** Response the worker records when writing a command to the transport fails. */
  const SendError: string := "~"

  /** First character of an instrument's error reply; also `transmit`'s reply after a timeout. */
  const ErrorMark: char := '?'

  /** Seconds `SerialMessage.response` waits when asked to wait 0 seconds. */
  const DefaultAwait: real := 60.0

  /** Attempts `transmit` makes unless told otherwise. */
  const DefaultAttempts: int := 2

  /** One thing the port did to its transport. */
  datatype WireEvent =
    | Write(data: string, ok: bool)  // a write of `data`, which succeeded or failed
    | Read(line: Option<string>)     // the worker's read of one line, and what it returned
    | Discard                        // a caller's read of one stray line, whose text is dropped

  /** What the transport does during one exchange: whether the write succeeds, and the line read back. */
  datatype Transfer = Transfer(writeOk: bool, line: Option<string>)

  /** What one pass of the worker's loop did. */
  datatype Step =
    | Stopped    // the port was closed: the loop ends
    | Idle       // the queue was empty: the worker sleeps and polls again
    | Exchanged  // the head of the queue was sent and its response recorded

  /**
   * The text written for a command: the command without surrounding
   * whitespace, terminated by exactly one newline.
   */
  function Frame(message: string): (line: string)
    ensures |line| >= 1 && line[|line| - 1] == '\n'
  {
    Text.Strip(message, Text.Whitespace) + "\n"
  }

  /**
   * The response recorded for a line read back: the line without newlines at
   * either end, or the empty text when the read returned nothing.
   */
  function Unframe(line: Option<string>): (response: string)
    ensures Text.Clean(response, {'\n'})
    ensures line.None? ==> response == ""
    ensures line.Some? && Text.Clean(line.value, {'\n'}) ==> response == line.value
  {
    match line
    case None => ""
    case Some(text) =>
      Text.StripClean(text, {'\n'});
      Text.Strip(text, {'\n'})
  }

  /** Reading back what was written gives the command without its surrounding whitespace. */
  lemma {:induction false} FrameRoundTrip(message: string)
    ensures Unframe(Some(Frame(message))) == Text.Strip(message, Text.Whitespace)
  {
    var m := Text.Strip(message, Text.Whitespace);
    if m == [] {
      assert Frame(message) == "\n";
      assert Text.Strip("\n", {'\n'}) == [];
    } else {
      assert [] + m + "\n" == Frame(message);
      Text.StripPadding([], m, "\n", {'\n'});
    }
  }

  /** Whitespace around a command does not change what is written. */
  lemma {:induction false} FramePadded(a: string, m: string, b: string)
    requires Text.AllIn(a, Text.Whitespace) && Text.AllIn(b, Text.Whitespace)
    requires m != [] && Text.Clean(m, Text.Whitespace)
    ensures Frame(a + m + b) == m + "\n"
  {
    Text.StripPadding(a, m, b, Text.Whitespace);
  }

  /**
   * The response the worker records for one exchange. An instrument that
   * answers `~` cannot be told from a failed write.
   */
  function ExchangeReply(t: Transfer): (response: string)
    ensures !t.writeOk ==> response == SendError
    ensures t.writeOk ==> response == Unframe(t.line)
    ensures response == SendError <==> !t.writeOk || Unframe(t.line) == SendError
  {
    if t.writeOk then Unframe(t.line) else SendError
  }

  /** What one exchange of `message` does to the wire: a write and, when the write succeeded, a read. */
  function ExchangeEvents(message: string, t: Transfer): (events: seq<WireEvent>)
    ensures Writes(events) == [Frame(message)]
    ensures |events| >= 1 && events[0] == Write(Frame(message), t.writeOk)
    ensures |events| == 2 <==> t.writeOk
    ensures !t.writeOk ==> |events| == 1
    ensures t.writeOk ==> events[1] == Read(t.line)
  {
    var tail := if t.writeOk then [Read(t.line)] else [];
    assert Writes(tail) == [] by {
      if t.writeOk {
        assert tail[1..] == [];
      }
    }
    assert ([Write(Frame(message), t.writeOk)] + tail)[1..] == tail;
    [Write(Frame(message), t.writeOk)] + tail
  }

  /** The wire events of exchanging `messages` in order, the k-th with the k-th transfer. */
  function Exchanges(messages: seq<string>, ts: seq<Transfer>): seq<WireEvent>
    requires |messages| == |ts|
  {
    if messages == [] then [] else ExchangeEvents(messages[0], ts[0]) + Exchanges(messages[1..], ts[1..])
  }

  /** The texts written to the wire, in order. */
  function Writes(wire: seq<WireEvent>): seq<string> {
    if wire == [] then []
    else (if wire[0].Write? then [wire[0].data] else []) + Writes(wire[1..])
  }

  /** The frames of `messages`, in order. */
  function Frames(messages: seq<string>): (lines: seq<string>)
    ensures |lines| == |messages|
    ensures forall k :: 0 <= k < |messages| ==> lines[k] == Frame(messages[k])
  {
    if messages == [] then [] else [Frame(messages[0])] + Frames(messages[1..])
  }

  lemma {:induction false} WritesAppend(u: seq<WireEvent>, v: seq<WireEvent>)
    ensures Writes(u + v) == Writes(u) + Writes(v)
  {
    if u != [] {
      assert (u + v)[1..] == u[1..] + v;
      WritesAppend(u[1..], v);
    } else {
      assert u + v == v;
    }
  }

  /**
   * FIFO on the wire: exchanging messages one after another writes exactly
   * their frames, in the same order, whatever the transport does.
   */
  lemma {:induction false} ExchangesWriteInOrder(messages: seq<string>, ts: seq<Transfer>)
    requires |messages| == |ts|
    ensures Writes(Exchanges(messages, ts)) == Frames(messages)
  {
    if messages != [] {
      var head := ExchangeEvents(messages[0], ts[0]);
      WritesAppend(head, Exchanges(messages[1..], ts[1..]));
      ExchangesWriteInOrder(messages[1..], ts[1..]);
      if ts[0].writeOk {
        WritesAppend([Write(Frame(messages[0]), true)], [Read(ts[0].line)]);
      }
      assert Writes(head) == [Frame(messages[0])];
    }
  }

  lemma {:induction false} ExchangesAppend(messages: seq<string>, ts: seq<Transfer>, m: string, t: Transfer)
    requires |messages| == |ts|
    ensures Exchanges(messages + [m], ts + [t]) == Exchanges(messages, ts) + ExchangeEvents(m, t)
  {
    if messages == [] {
      assert messages + [m] == [m] && ts + [t] == [t];
    } else {
      var ms, us := messages + [m], ts + [t];
      assert ms[0] == messages[0] && ts[0] == us[0];
      assert ms[1..] == messages[1..] + [m];
      assert us[1..] == ts[1..] + [t];
      ExchangesAppend(messages[1..], ts[1..], m, t);
      var head := ExchangeEvents(messages[0], ts[0]);
      calc {
        Exchanges(ms, us);
        head + Exchanges(ms[1..], us[1..]);
        head + (Exchanges(messages[1..], ts[1..]) + ExchangeEvents(m, t));
        (head + Exchanges(messages[1..], ts[1..])) + ExchangeEvents(m, t);
      }
    }
  }

  /** Serving one more envelope adds its exchange to the wire. */
  lemma ExchangesExtend(pending: seq<SerialMessage>, script: seq<Transfer>, n: nat)
    requires n < |pending| && n < |script|
    ensures Exchanges(Messages(pending[..n + 1]), script[..n + 1])
         == Exchanges(Messages(pending[..n]), script[..n]) + ExchangeEvents(pending[n].message, script[n])
  {
    assert Messages(pending[..n + 1]) == Messages(pending[..n]) + [pending[n].message];
    assert script[..n + 1] == script[..n] + [script[n]];
    ExchangesAppend(Messages(pending[..n]), script[..n], pending[n].message, script[n]);
  }

  // ---------------------------------------------------------------------
  // transmit's acceptance rule, over the outcomes its awaits observe
  // ---------------------------------------------------------------------

  /**
   * An await outcome `transmit` accepts: a reply that is not empty and does
   * not start with `?`. A timeout, an empty reply and `?` are all rejected;
   * the worker's send-error flag is accepted.
   */
  function Accepted(outcome: Option<string>): (ok: bool)
    ensures ok ==> outcome.Some? && outcome.value != [] && outcome.value != [ErrorMark]
    ensures outcome.None? ==> !ok
    ensures outcome.Some? && outcome.value != [] ==> (ok <==> outcome.value[0] != ErrorMark)
    ensures outcome == Some(SendError) ==> ok
  {
    outcome.Some? && |outcome.value| > 0 && outcome.value[0] != ErrorMark
  }

  /**
   * The number of attempts `transmit` makes when its successive awaits
   * observe `outcomes` (one per allowed attempt): it stops at the first
   * accepted outcome, or after the last allowed one.
   */
  function AttemptsMade(outcomes: seq<Option<string>>): (n: nat)
    requires |outcomes| >= 1
    ensures 1 <= n <= |outcomes|
    ensures forall k :: 0 <= k < n - 1 ==> !Accepted(outcomes[k])
    ensures n < |outcomes| ==> Accepted(outcomes[n - 1])
  {
    if |outcomes| == 1 || Accepted(outcomes[0]) then 1 else 1 + AttemptsMade(outcomes[1..])
  }

  /**
   * The outcome of `transmit`'s last await: accepted whenever any outcome
   * is, and otherwise the last allowed one.
   */
  function FinalOutcome(outcomes: seq<Option<string>>): (last: Option<string>)
    requires |outcomes| >= 1
    ensures Accepted(last) || last == outcomes[|outcomes| - 1]
    ensures (exists k :: 0 <= k < |outcomes| && Accepted(outcomes[k])) ==> Accepted(last)
  {
    outcomes[AttemptsMade(outcomes) - 1]
  }

  /**
   * What `transmit` returns for its last await's outcome: a reply verbatim,
   * `?` after a timeout, so a timeout cannot be told from a bare `?` reply.
   */
  function ReplyFor(last: Option<string>): (reply: string)
    ensures last.Some? ==> reply == last.value
    ensures reply == [ErrorMark] <==> last.None? || last == Some([ErrorMark])
  {
    last.GetOr([ErrorMark])
  }

  /**
   * Whether `transmit` prints its error message: only after a final timeout
   * or a final `?` reply. Every outcome is accepted, reported, or else the
   * empty reply, which is neither.
   */
  function ReportsError(last: Option<string>): (reports: bool)
    ensures reports ==> !Accepted(last)
    ensures !reports && !Accepted(last) <==> last == Some([])
  {
    last.None? || (|last.value| > 0 && last.value[0] == ErrorMark)
  }

  /**
   * The reply of `transmit` whose awaits observe `outcomes`: it reads as an
   * accepted reply exactly when the last outcome was accepted.
   */
  function TransmitReply(outcomes: seq<Option<string>>): (reply: string)
    requires |outcomes| >= 1
    ensures Accepted(Some(reply)) <==> Accepted(FinalOutcome(outcomes))
  {
    ReplyFor(FinalOutcome(outcomes))
  }

  /** `transmit` stops at the first accepted outcome and returns its text, reporting nothing. */
  lemma {:induction false} TransmitTakesFirstAccepted(outcomes: seq<Option<string>>, i: nat)
    requires i < |outcomes| && Accepted(outcomes[i])
    requires forall k :: 0 <= k < i ==> !Accepted(outcomes[k])
    ensures AttemptsMade(outcomes) == i + 1
    ensures TransmitReply(outcomes) == outcomes[i].value
    ensures !ReportsError(FinalOutcome(outcomes))
  {
    if i > 0 {
      assert !Accepted(outcomes[0]);
      TransmitTakesFirstAccepted(outcomes[1..], i - 1);
    }
  }

  /**
   * When no outcome is accepted, every attempt is made and the reply is the
   * last outcome verbatim (empty or starting with `?`) or `?` after a
   * timeout; the error is reported exactly when that reply is not empty.
   */
  lemma {:induction false} TransmitExhausted(outcomes: seq<Option<string>>)
    requires |outcomes| >= 1
    requires forall k :: 0 <= k < |outcomes| ==> !Accepted(outcomes[k])
    ensures AttemptsMade(outcomes) == |outcomes|
    ensures TransmitReply(outcomes) == ReplyFor(outcomes[|outcomes| - 1])
    ensures var reply := TransmitReply(outcomes);
      && (reply == [] || reply[0] == ErrorMark)
      && (ReportsError(FinalOutcome(outcomes)) <==> reply != [])
  {
    if |outcomes| > 1 {
      TransmitExhausted(outcomes[1..]);
    }
  }

  /**
   * The reply is accepted exactly when some outcome was; otherwise it is
   * empty or starts with `?`. A reply is always some outcome's text or `?`.
   */
  lemma {:induction false} TransmitReplyShape(outcomes: seq<Option<string>>)
    requires |outcomes| >= 1
    ensures var reply := TransmitReply(outcomes);
      && (Accepted(Some(reply)) <==> exists k :: 0 <= k < |outcomes| && Accepted(outcomes[k]))
      && (reply == [ErrorMark] || exists k :: 0 <= k < |outcomes| && outcomes[k] == Some(reply))
  {
    var n := AttemptsMade(outcomes);
    if Accepted(outcomes[n - 1]) {
      TransmitTakesFirstAccepted(outcomes, n - 1);
    } else {
      assert n == |outcomes|;
      TransmitExhausted(outcomes);
    }
  }

  /**
   * The worker's send-error flag `~` is not empty and does not start with
   * `?`, so `transmit` accepts it like a reply: it does not retry after a
   * failed write and reports no error.
   */
  lemma SendErrorAccepted(later: seq<Option<string>>)
    ensures AttemptsMade([Some(SendError)] + later) == 1
    ensures TransmitReply([Some(SendError)] + later) == SendError
    ensures !ReportsError(FinalOutcome([Some(SendError)] + later))
  {
  }

  /** The await budget of `SerialMessage.response`: a zero timeout means the default wait. */
  function AwaitBudget(timeout: real): (seconds: real)
    ensures seconds != 0.0
    ensures timeout != 0.0 ==> seconds == timeout
    ensures timeout == 0.0 ==> seconds == DefaultAwait
  {
    if timeout == 0.0 then DefaultAwait else timeout
  }

  /** `n` copies of `x`: the stray-line reads of `n` rejected attempts, or the commands they sent. */
  function Repeat<T>(x: T, n: nat): (xs: seq<T>)
    ensures |xs| == n
    ensures forall k :: 0 <= k < n ==> xs[k] == x
  {
    if n == 0 then [] else Repeat(x, n - 1) + [x]
  }

  /** The queue of `after` is that of `before` followed by `n` envelopes for `message`. */
  ghost predicate AppendedCopies(before: seq<SerialMessage>, after: seq<SerialMessage>, n: nat,
                                 message: string, printResponse: bool)
  {
    && |after| == |before| + n
    && after[..|before|] == before
    && forall k :: |before| <= k < |after| ==>
         after[k].message == message && after[k].printResponse == printResponse
  }

  /** The queue of `after` holds the texts of `before` followed by `n` copies of `message`. */
  lemma AppendedCopiesMessages(before: seq<SerialMessage>, after: seq<SerialMessage>, n: nat,
                               message: string, printResponse: bool)
    requires AppendedCopies(before, after, n, message, printResponse)
    ensures Messages(after) == Messages(before) + Repeat(message, n)
  {
    assert forall k :: 0 <= k < |before| ==> after[k] == before[k];
  }

  /**
   * What can be observed of a port: the texts of the commands in its queue,
   * in order, what it did to its transport, and the errors it printed. The
   * modelled `transmit` leaves every envelope it submits in the queue,
   * answered or not, so `sent` holds every command submitted and not yet
   * served by `WorkerStep`.
   */
  datatype PortLog = PortLog(sent: seq<string>, wire: seq<WireEvent>, reported: seq<string>)

  /**
   * The log after `transmit(message, errorMessage)` whose awaits observed
   * `tries`: one command queued per attempt made, one stray line discarded per
   * rejected attempt, and the error message printed if the exchange failed.
   */
  function TransmitLog(before: PortLog, message: string, errorMessage: Option<string>,
                       tries: seq<Option<string>>): (after: PortLog)
    requires |tries| >= 1
    ensures |before.sent| < |after.sent| <= |before.sent| + |tries|
    ensures after.sent[..|before.sent|] == before.sent
    ensures forall k :: |before.sent| <= k < |after.sent| ==> after.sent[k] == message
    ensures |before.wire| <= |after.wire| < |before.wire| + |after.sent| - |before.sent| + 1
    ensures after.wire[..|before.wire|] == before.wire
    ensures forall k :: |before.wire| <= k < |after.wire| ==> after.wire[k] == Discard
    ensures after.reported == before.reported || (errorMessage.Some? && after.reported == before.reported + [errorMessage.value])
  {
    var n := AttemptsMade(tries);
    PortLog(before.sent + Repeat(message, n),
            before.wire + Repeat(Discard, if Accepted(tries[n - 1]) then n - 1 else n),
            before.reported + (if errorMessage.Some? && ReportsError(FinalOutcome(tries)) then [errorMessage.value] else []))
  }

  /**
   * A command waiting in a port's queue: the command text and trace flag,
   * fixed at creation, and the response slot, empty until the worker fills it.
   */
  class SerialMessage {
    const message: string
    const printResponse: bool
    var response: Option<string>

    constructor (message: string, printResponse: bool)
      ensures this.message == message && this.printResponse == printResponse
      ensures response == None
    {
      this.message := message;
      this.printResponse := printResponse;
      response := None;
    }

    /**
     * The slot's value when the wait ends: the response once the worker has
     * set it, `None` when the wait timed out first. Also gives the number of
     * seconds the wait may last. It stands alone: the modelled transmit
     * does not call it, because its awaits read scripted outcomes instead.
     */
    method Response(timeout: real) returns (value: Option<string>, budget: real)
      ensures value == response
      ensures budget == AwaitBudget(timeout)
    {
      value := response;
      budget := AwaitBudget(timeout);
    }
  }

  /** The text of each message of `queue`, in order. */
  function Messages(queue: seq<SerialMessage>): (texts: seq<string>)
    ensures |texts| == |queue|
    ensures forall k :: 0 <= k < |queue| ==> texts[k] == queue[k].message
  {
    if queue == [] then [] else [queue[0].message] + Messages(queue[1..])
  }

  /**
   * One serial link. `port` is the name callers configure, `device` the name
   * the transport was last tried with, even if that open failed (`None`
   * before the first open),
   * `queue` the envelopes waiting for the worker, `wire` what the port did
   * to the transport, and `reported` the error messages `transmit` printed.
   */
  class SerialPort {
    var port: string
    var device: Option<string>
    var isOpen: bool
    var queue: seq<SerialMessage>
    var wire: seq<WireEvent>
    var reported: seq<string>

    /**
     * Envelopes in the queue are distinct and still await their response:
     * only the worker fills a slot, and only after taking it off the queue.
     */
    ghost predicate Valid()
      reads this, queue
    {
      && (forall k :: 0 <= k < |queue| ==> queue[k].response.None?)
      && (forall j, k :: 0 <= j < k < |queue| ==> queue[j] != queue[k])
    }

    /** What this port has queued, done to its transport, and printed so far. */
    function Log(): PortLog
      reads this
    {
      PortLog(Messages(queue), wire, reported)
    }

    constructor ()
      ensures Valid()
      ensures port == "" && device == None && !isOpen
      ensures queue == [] && wire == [] && reported == []
    {
      port := "";
      device := None;
      isOpen := false;
      queue := [];
      wire := [];
      reported := [];
    }

    /**
     * Opens the link on `portname`, or on `port` when none is given, unless
     * it is open already. `opens` is whether the transport opened.
     */
    method Open(portname: Option<string>, opens: bool) returns (ok: bool)
      requires Valid()
      modifies this
      ensures Valid()
      ensures old(isOpen) ==> !ok && isOpen && device == old(device)
      ensures !old(isOpen) ==> ok == opens && isOpen == opens && device == Some(portname.GetOr(old(port)))
      ensures port == old(port) && queue == old(queue) && wire == old(wire) && reported == old(reported)
    {
      if !isOpen {
        device := Some(if portname.Some? then portname.value else port);
        if !opens {
          return false;
        }
        isOpen := true;
        return true;
      }
      return false;
    }

    /**
     * Closes the link if it is open. The link counts as closed even when the
     * transport fails to close (`closes` is false); the result says whether
     * it closed.
     */
    method Close(closes: bool) returns (ok: bool)
      requires Valid()
      modifies this
      ensures Valid()
      ensures !isOpen
      ensures ok == (old(isOpen) && closes)
      ensures port == old(port) && device == old(device)
      ensures queue == old(queue) && wire == old(wire) && reported == old(reported)
    {
      if isOpen {
        isOpen := false;
        return closes;
      }
      return false;
    }

    /**
     * One pass of the worker's loop. On a closed port the loop ends; on an
     * empty queue the worker idles; otherwise the head envelope is taken off
     * the queue, its framed command written, and its response set once: to
     * `~` when the write failed, else to the line read back.
     */
    method WorkerStep(t: Transfer) returns (step: Step)
      requires Valid()
      modifies this, if queue == [] then {} else {queue[0]}
      ensures Valid()
      ensures !old(isOpen) ==> step == Stopped && queue == old(queue) && wire == old(wire)
      ensures old(isOpen) && old(queue) == [] ==> step == Idle && queue == [] && wire == old(wire)
      ensures old(isOpen) && old(queue) != [] ==>
        && step == Exchanged
        && old(queue[0].response) == None
        && old(queue)[0].response == Some(ExchangeReply(t))
        && queue == old(queue)[1..]
        && wire == old(wire) + ExchangeEvents(old(queue)[0].message, t)
      ensures isOpen == old(isOpen) && port == old(port) && device == old(device) && reported == old(reported)
    {
      if !isOpen {
        return Stopped;
      }
      if queue == [] {
        return Idle;
      }
      var envelope := queue[0];
      queue := queue[1..];
      wire := wire + ExchangeEvents(envelope.message, t);
      if !t.writeOk {
        envelope.response := Some(SendError);
      } else {
        envelope.response := Some(Unframe(t.line));
      }
      assert forall k :: 0 <= k < |queue| ==> queue[k] != envelope;
      return Exchanged;
    }

    /**
     * The worker loop, run while the port stays open and the queue holds
     * envelopes, with the k-th exchange meeting the transport behaviour
     * `script[k]`, until the script runs out. Envelopes are served in queue
     * order, each exactly once.
     */
    method RunWorker(script: seq<Transfer>) returns (served: nat)
      requires Valid()
      modifies this, queue
      ensures Valid()
      ensures served == if !old(isOpen) then 0 else if |script| < |old(queue)| then |script| else |old(queue)|
      ensures queue == old(queue)[served..]
      ensures wire == old(wire) + Exchanges(Messages(old(queue)[..served]), script[..served])
      ensures forall k :: 0 <= k < served ==> old(queue)[k].response == Some(ExchangeReply(script[k]))
      ensures isOpen == old(isOpen) && port == old(port) && device == old(device) && reported == old(reported)
    {
      ghost var pending := queue;
      ghost var wire0 := wire;
      served := 0;
      if !isOpen {
        return;
      }
      while served < |script| && queue != []
        invariant Valid() && isOpen
        invariant served <= |pending| && served <= |script|
        invariant queue == pending[served..]
        invariant wire == wire0 + Exchanges(Messages(pending[..served]), script[..served])
        invariant forall k :: 0 <= k < served ==> pending[k].response == Some(ExchangeReply(script[k]))
        invariant port == old(port) && device == old(device) && reported == old(reported)
      {
        ghost var done := Exchanges(Messages(pending[..served]), script[..served]);
        ghost var next := ExchangeEvents(pending[served].message, script[served]);
        var step := WorkerStep(script[served]);
        assert wire == wire0 + done + next;
        ExchangesExtend(pending, script, served);
        served := served + 1;
      }
    }

    /** Adds an envelope that is not queued yet and awaits its response at the end of the queue. */
    method Put(envelope: SerialMessage)
      requires Valid()
      requires envelope.response == None && envelope !in queue
      modifies this`queue
      ensures Valid()
      ensures queue == old(queue) + [envelope]
    {
      queue := queue + [envelope];
    }

    /**
     * The end of `transmit`: a reply is returned verbatim and a timeout as
     * `?`; the error message is printed after a timeout or a `?` reply.
     */
    method Conclude(response: Option<string>, errorMessage: Option<string>) returns (reply: string)
      modifies this`reported
      ensures reply == ReplyFor(response)
      ensures reported == old(reported) + (if errorMessage.Some? && ReportsError(response) then [errorMessage.value] else [])
    {
      if response.Some? {
        if |response.value| > 0 && response.value[0] == ErrorMark && errorMessage.Some? {
          reported := reported + [errorMessage.value];
        }
        reply := response.value;
      } else {
        if errorMessage.Some? {
          reported := reported + [errorMessage.value];
        }
        reply := [ErrorMark];
      }
    }

    /**
     * The retry loop of `transmit`: up to `attempts` times, enqueue a fresh
     * envelope for `message` and await it, stopping at the first accepted
     * outcome; each rejected attempt discards one stray line. `outcomes[k]` is
     * what the k-th await observed: the response the worker recorded, or
     * `None` if the wait timed out. Returns the last outcome.
     */
    method Attempt(message: string, printResponse: bool, attempts: int, outcomes: seq<Option<string>>)
      returns (response: Option<string>)
      requires Valid() && isOpen
      requires 1 <= attempts <= |outcomes|
      modifies this`queue, this`wire
      ensures Valid()
      ensures response == FinalOutcome(outcomes[..attempts])
      ensures var n := AttemptsMade(outcomes[..attempts]);
        && AppendedCopies(old(queue), queue, n, message, printResponse)
        && (forall k :: |old(queue)| <= k < |queue| ==> fresh(queue[k]))
        && wire == old(wire) + Repeat(Discard, if Accepted(response) then n - 1 else n)
    {
      ghost var tries := outcomes[..attempts];
      ghost var sent: seq<SerialMessage> := [];
      var left := attempts;
      response := None;
      var i := 0;
      while left > 0
        invariant 0 <= i <= attempts && left == attempts - i
        invariant forall k :: 0 <= k < i ==> !Accepted(tries[k])
        invariant i > 0 ==> response == tries[i - 1]
        invariant Valid()
        invariant |sent| == i && queue == old(queue) + sent
        invariant forall k :: 0 <= k < i ==> fresh(sent[k]) && sent[k].message == message && sent[k].printResponse == printResponse
        invariant wire == old(wire) + Repeat(Discard, i)
      {
        var transmission := new SerialMessage(message, printResponse);
        Put(transmission);
        sent := sent + [transmission];
        // the await: what transmission.response() observed for this attempt
        response := outcomes[i];
        if Accepted(response) {
          i := i + 1;
          break;
        }
        wire := wire + [Discard];
        left := left - 1;
        i := i + 1;
      }
      if Accepted(tries[i - 1]) {
        TransmitTakesFirstAccepted(tries, i - 1);
      } else {
        TransmitExhausted(tries);
      }
      assert queue[..|old(queue)|] == old(queue);
    }

    /**
     * `transmit`: sends `message` with up to `attempts` attempts and returns
     * the reply, printing `errorMessage` (when given) if the exchange failed.
     */
    method Transmit(message: string, errorMessage: Option<string>, printResponse: bool,
                    attempts: int, outcomes: seq<Option<string>>) returns (reply: string)
      requires Valid() && isOpen
      requires 1 <= attempts <= |outcomes|
      modifies this
      ensures Valid()
      ensures reply == TransmitReply(outcomes[..attempts])
      ensures var n := AttemptsMade(outcomes[..attempts]);
        && AppendedCopies(old(queue), queue, n, message, printResponse)
        && (forall k :: |old(queue)| <= k < |queue| ==> fresh(queue[k]))
        && wire == old(wire) + Repeat(Discard, if Accepted(outcomes[n - 1]) then n - 1 else n)
      ensures reported == old(reported) +
        (if errorMessage.Some? && ReportsError(FinalOutcome(outcomes[..attempts])) then [errorMessage.value] else [])
      ensures isOpen == old(isOpen) && port == old(port) && device == old(device)
      ensures Log() == TransmitLog(old(Log()), message, errorMessage, outcomes[..attempts])
    {
      var response := Attempt(message, printResponse, attempts, outcomes);
      reply := Conclude(response, errorMessage);
      AppendedCopiesMessages(old(queue), queue, AttemptsMade(outcomes[..attempts]), message, printResponse);
    }
  }
}
