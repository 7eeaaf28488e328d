/**
 * `HttpRawSock.sendRecv` and `_contains_connection_closed`
 * (restler/engine/transport_layer/messaging.py): one request is framed, sent
 * and its response read; a failure is classified as a timeout, a closed
 * connection or an unknown error, and everything except a timeout (and an
 * empty response) is retried once over a fresh connection.
 *
 * The source retries by calling itself with `reconnect=True`; here that is a
 * loop whose flag can be raised once. The socket's behaviour during each
 * attempt is an argument: whether closing the old socket, setting up the
 * connection and `sendall` succeed, and what `_recvResponse` returns.
 */
module Transport {
  import opened Wrappers
  import opened Text
  import opened Http
  import opened Framing
  import opened Receive

  /** An operation on the socket that may raise a TransportLayerException with the given text. */
  datatype Step = Done | Fails(error: string)

  /**
   * How the socket behaves during one attempt: closing the old socket,
   * setting up the connection, `sendall`, and what `_recvResponse` returns
   * (`Receive.Assemble` over that attempt's reads).
   */
  datatype Peer = Peer(close: Step, setup: Step, send: Step, received: Assembly)

  /** The first attempt, and the one that follows a reconnect. */
  datatype Environment = Environment(first: Peer, retry: Peer)

  /** The settings `HttpRawSock` reads when it is built. */
  datatype Settings = Settings(includeUserAgent: bool, version: string)

  /** The status code given to an `HttpResponse`: parsed from its text, or one of the two overrides. */
  datatype Status = FromText | TimeoutCode | ConnectionClosedCode

  /** An `HttpResponse`: the text it is built from and its status code. */
  datatype Response = Response(text: string, status: Status)

  /** An exception other than TransportLayerException, which `sendRecv` does not catch. */
  datatype Escape = NoSeparator | UndecodableBytes

  /** What a `sendRecv` call ends with: the `(bool, response)` pair, or an uncaught exception. */
  datatype Outcome = Returned(ok: bool, response: Response) | Uncaught(why: Escape)

  /** The result of one pass through the `try` block, before the `except` clause looks at it. */
  datatype Raw = Delivered(data: string) | Errored(error: string) | Crashed(why: Escape)

  /** What `sendRecv` does with one pass: return, or call itself again with `reconnect=True`. */
  datatype Decision = Return(outcome: Outcome) | Retry

  /** One pass: its result, whether the socket is connected afterwards, what was handed to `sendall`. */
  datatype Attempted = Attempted(raw: Raw, connected: bool, sent: seq<string>)

  /** A whole `sendRecv` call, with the number of passes it made. */
  datatype Run = Run(outcome: Outcome, connected: bool, sent: seq<string>, attempts: nat)

  /** The error texts that mean the server closed the connection (Windows twice, Linux once). */
  const ClosedMarkers: seq<string> := ["[WinError 10054]", "[WinError 10053]", "[Errno 104]"]

  /** The text that marks a timeout. */
  const TimedOut: string := "timed out"

  /** `_contains_connection_closed`. */
  predicate ContainsConnectionClosed(error: string)
  {
    Contains(error, ClosedMarkers[0]) || Contains(error, ClosedMarkers[1]) || Contains(error, ClosedMarkers[2])
  }

  /** The closed-connection test holds exactly when one of the markers occurs somewhere in the text. */
  lemma ConnectionClosedIffMarker(error: string)
    ensures ContainsConnectionClosed(error)
        <==> exists i: nat, k: nat :: i < |ClosedMarkers| && OccursAt(error, ClosedMarkers[i], k)
  {
    FindFirst(error, ClosedMarkers[0]);
    FindFirst(error, ClosedMarkers[1]);
    FindFirst(error, ClosedMarkers[2]);
    if !ContainsConnectionClosed(error) {
      forall i: nat, k: nat | i < |ClosedMarkers| ensures !OccursAt(error, ClosedMarkers[i], k) {
        assert i == 0 || i == 1 || i == 2;
      }
    }
  }

  /**
   * The connecting part of a pass: nothing when already connected and not
   * reconnecting; otherwise the old socket is closed (only when reconnecting
   * and one exists) and the connection is set up again.
   */
  function Connect(connected: bool, reconnect: bool, p: Peer): (s: Step)
    ensures !reconnect && connected ==> s == Done
    ensures !reconnect && !connected ==> s == p.setup
  {
    if !reconnect && connected then Done
    else if reconnect && connected && p.close.Fails? then Fails("Exception: " + p.close.error)
    else p.setup
  }

  /**
   * `_sendRequest` and `_recvResponse` on a connected socket, given the
   * framed request (None where framing raises), and what was handed to `sendall`.
   */
  function Transmit(framed: Option<string>, p: Peer): (r: (Raw, seq<string>))
    ensures framed.None? ==> r == (Crashed(NoSeparator), [])
    ensures framed.Some? ==> r.1 == [framed.value]
    ensures framed.Some? && p.send.Fails? ==> r.0 == Errored("Exception Sending Data: " + p.send.error)
    ensures framed.Some? && p.send.Done? && p.received.Assembled? ==> r.0 == Delivered(p.received.data)
    ensures framed.Some? && p.send.Done? && p.received.ReadFailed? ==> r.0 == Errored(p.received.message)
    ensures framed.Some? && p.send.Done? && p.received == DecodeFailed ==> r.0 == Crashed(UndecodableBytes)
  {
    match framed
    case None => (Crashed(NoSeparator), [])
    case Some(framed) =>
      if p.send.Fails? then (Errored("Exception Sending Data: " + p.send.error), [framed])
      else match p.received
        case Assembled(data) => (Delivered(data), [framed])
        case ReadFailed(error) => (Errored(error), [framed])
        case DecodeFailed => (Crashed(UndecodableBytes), [framed])
  }

  /** One pass through the `try` block of `sendRecv`. */
  function AttemptSpec(connected: bool, reconnect: bool, framed: Option<string>, p: Peer): (a: Attempted)
  {
    match Connect(connected, reconnect, p)
    case Fails(error) => Attempted(Errored(error), connected, [])
    case Done =>
      var (raw, sent) := Transmit(framed, p);
      Attempted(raw, true, sent)
  }

  /** The passes that `sendRecv` follows with a reconnect, when it is not already reconnecting. */
  predicate Retriable(raw: Raw)
  {
    (raw.Delivered? && raw.data == []) || (raw.Errored? && !Contains(raw.error, TimedOut))
  }

  /** The end of `sendRecv`'s `try` block and its `except TransportLayerException` clause. */
  function Decide(raw: Raw, reconnect: bool): (d: Decision)
    ensures d.Retry? <==> !reconnect && Retriable(raw)
    ensures d.Return? && d.outcome.Returned? ==> (d.outcome.ok <==> raw.Delivered?)
    ensures d.Return? && d.outcome.Uncaught? <==> raw.Crashed?
    ensures d.Return? && raw.Delivered? ==> d.outcome == Returned(true, Response(raw.data, FromText))
    ensures raw.Crashed? ==> d == Return(Uncaught(raw.why))
  {
    match raw
    case Crashed(why) => Return(Uncaught(why))
    case Delivered(data) =>
      if data == [] && !reconnect then Retry else Return(Returned(true, Response(data, FromText)))
    case Errored(error) =>
      var text := StripQuotes(error);
      if Contains(error, TimedOut) then Return(Returned(false, Response(text, TimeoutCode)))
      else if !reconnect then Retry
      else if ContainsConnectionClosed(error) then Return(Returned(false, Response(text, ConnectionClosedCode)))
      else Return(Returned(false, Response(text, FromText)))
  }

  /** A failure that is returned carries the quote-stripped error text and its classification. */
  lemma FailureClassified(error: string, reconnect: bool)
    requires Decide(Errored(error), reconnect).Return?
    ensures var o := Decide(Errored(error), reconnect).outcome;
      && o.Returned? && !o.ok && o.response.text == StripQuotes(error)
      && (o.response.status == TimeoutCode <==> Contains(error, TimedOut))
      && (o.response.status == ConnectionClosedCode
          <==> !Contains(error, TimedOut) && ContainsConnectionClosed(error))
  {
  }

  /**
   * The passes of one `sendRecv` call that frames its message as `framed`
   * (`_sendRequest` frames the same text on every pass).
   */
  function ExchangeSpec(connected: bool, framed: Option<string>, env: Environment): (r: Run)
  {
    var a := AttemptSpec(connected, false, framed, env.first);
    Combine(a, AttemptSpec(a.connected, true, framed, env.retry))
  }

  /** The whole `sendRecv` call starting from the `_connected` state `connected`. */
  function SendRecvSpec(s: Settings, connected: bool, message: string, env: Environment): (r: Run)
  {
    ExchangeSpec(connected, FrameRequest(message, s.includeUserAgent, s.version), env)
  }

  /**
   * What `sendRecv` makes of its first pass `a` and of the pass `b` that a
   * retry would make (with the connection `a` leaves behind).
   */
  function Combine(a: Attempted, b: Attempted): (r: Run)
  {
    match Decide(a.raw, false)
    case Return(outcome) => Run(outcome, a.connected, a.sent, 1)
    case Retry => Run(Decide(b.raw, true).outcome, b.connected, a.sent + b.sent, 2)
  }

  /** What every pass guarantees: at most one message handed to `sendall`, and it is the framed request. */
  predicate SendsFramed(framed: Option<string>, sent: seq<string>)
  {
    |sent| <= 1 && forall j :: 0 <= j < |sent| ==> framed == Some(sent[j])
  }

  /** What every pass guarantees about the connection: kept once made, and made whenever a response came back. */
  predicate KeepsConnection(connected: bool, a: Attempted)
  {
    (connected ==> a.connected) && (a.raw.Delivered? ==> a.connected)
  }

  /** A pass sends at most once, and only the framed request. */
  lemma PassSendsFramed(connected: bool, reconnect: bool, framed: Option<string>, p: Peer)
    ensures SendsFramed(framed, AttemptSpec(connected, reconnect, framed, p).sent)
  {
  }

  /** A pass never drops a connection, and a response comes only over a connection. */
  lemma PassKeepsConnection(connected: bool, reconnect: bool, framed: Option<string>, p: Peer)
    ensures KeepsConnection(connected, AttemptSpec(connected, reconnect, framed, p))
  {
  }

  /**
   * A message without a separator that needs framing raises a ValueError
   * before anything is sent, once the connection stands.
   */
  lemma UnframeablePass(s: Settings, connected: bool, reconnect: bool, message: string, p: Peer)
    requires !Contains(message, Delim) && (!Contains(message, LengthHeader) || s.includeUserAgent)
    requires Connect(connected, reconnect, p).Done?
    ensures AttemptSpec(connected, reconnect, FrameRequest(message, s.includeUserAgent, s.version), p)
            == Attempted(Crashed(NoSeparator), true, [])
  {
  }

  /**
   * At most one reconnect-and-retry: a second pass happens exactly when the
   * first is retriable, and the messages sent are those of the passes made.
   */
  lemma AtMostOneRetry(a: Attempted, b: Attempted)
    ensures var r := Combine(a, b);
      && (r.attempts == 2 <==> Retriable(a.raw))
      && (r.attempts == 1 <==> !Retriable(a.raw))
      && r.sent == (if r.attempts == 1 then a.sent else a.sent + b.sent)
  {
  }

  /** Every message a whole call hands to `sendall` is the framed request, and there are at most two. */
  lemma SentIsFramed(s: Settings, connected: bool, message: string, env: Environment)
    ensures var r := SendRecvSpec(s, connected, message, env);
      |r.sent| <= r.attempts <= 2
      && forall j :: 0 <= j < |r.sent| ==> FrameRequest(message, s.includeUserAgent, s.version) == Some(r.sent[j])
  {
    var framed := FrameRequest(message, s.includeUserAgent, s.version);
    var a := AttemptSpec(connected, false, framed, env.first);
    PassSendsFramed(connected, false, framed, env.first);
    PassSendsFramed(a.connected, true, framed, env.retry);
    FramedSendsCombine(framed, a, AttemptSpec(a.connected, true, framed, env.retry));
  }

  /** Two passes that each send only the framed request make a call that does too. */
  lemma FramedSendsCombine(framed: Option<string>, a: Attempted, b: Attempted)
    requires SendsFramed(framed, a.sent) && SendsFramed(framed, b.sent)
    ensures var r := Combine(a, b);
      |r.sent| <= r.attempts <= 2 && forall j :: 0 <= j < |r.sent| ==> framed == Some(r.sent[j])
  {
    var r := Combine(a, b);
    if r.attempts == 2 {
      forall j | 0 <= j < |r.sent| ensures framed == Some(r.sent[j]) {
        if j >= |a.sent| {
          assert r.sent[j] == b.sent[j - |a.sent|];
        }
      }
    }
  }

  /** A timeout on the first pass is never retried and comes back as `(False, TIMEOUT_CODE)`. */
  lemma TimeoutNotRetried(a: Attempted, b: Attempted)
    requires a.raw.Errored? && Contains(a.raw.error, TimedOut)
    ensures Combine(a, b) == Run(Returned(false, Response(StripQuotes(a.raw.error), TimeoutCode)), a.connected, a.sent, 1)
  {
  }

  /** An uncaught exception on the first pass ends the call at once. */
  lemma CrashNotRetried(a: Attempted, b: Attempted)
    requires a.raw.Crashed?
    ensures Combine(a, b) == Run(Uncaught(a.raw.why), a.connected, a.sent, 1)
  {
  }

  /** A response received on the first pass that is not empty is returned as it is. */
  lemma ResponseReturned(a: Attempted, b: Attempted)
    requires a.raw.Delivered? && a.raw.data != []
    ensures Combine(a, b) == Run(Returned(true, Response(a.raw.data, FromText)), a.connected, a.sent, 1)
  {
  }

  /** An empty response is retried once; if the retry is empty too, it counts as a success. */
  lemma EmptyResponseTwice(a: Attempted, b: Attempted)
    requires a.raw == Delivered([]) && b.raw == Delivered([])
    ensures var r := Combine(a, b);
      r.attempts == 2 && r.outcome == Returned(true, Response([], FromText))
  {
  }

  /** A response received on the retry is returned as it is, empty or not. */
  lemma RetryResponseReturned(a: Attempted, b: Attempted)
    requires Retriable(a.raw) && b.raw.Delivered?
    ensures Combine(a, b) == Run(Returned(true, Response(b.raw.data, FromText)), b.connected, a.sent + b.sent, 2)
  {
  }

  /** An uncaught exception on the retry ends the call with that exception. */
  lemma RetryCrashEscapes(a: Attempted, b: Attempted)
    requires Retriable(a.raw) && b.raw.Crashed?
    ensures Combine(a, b) == Run(Uncaught(b.raw.why), b.connected, a.sent + b.sent, 2)
  {
  }

  /**
   * A decoding error in the first pass's receive is not a
   * TransportLayerException: it escapes the call at once, with no retry,
   * after the framed request was sent.
   */
  lemma DecodeFailureEscapes(connected: bool, framed: Option<string>, env: Environment)
    requires Connect(connected, false, env.first).Done? && framed.Some?
    requires env.first.send.Done? && env.first.received == DecodeFailed
    ensures ExchangeSpec(connected, framed, env) == Run(Uncaught(UndecodableBytes), true, [framed.value], 1)
  {
  }

  /**
   * A read error in the first pass's receive is a TransportLayerException:
   * a timeout (the text a socket timeout carries) is returned as
   * `(False, TIMEOUT_CODE)`; any other read error brings a reconnect and a
   * second pass.
   */
  lemma ReadFailureHandled(connected: bool, framed: Option<string>, env: Environment, message: string)
    requires Connect(connected, false, env.first).Done? && framed.Some?
    requires env.first.send.Done? && env.first.received == ReadFailed(message)
    ensures var r := ExchangeSpec(connected, framed, env);
      && (Contains(message, TimedOut) ==>
            r == Run(Returned(false, Response(StripQuotes(message), TimeoutCode)), true, [framed.value], 1))
      && (!Contains(message, TimedOut) ==> r.attempts == 2 && r.sent[..1] == [framed.value])
      && (message == TimeoutMessage ==> r.attempts == 1 && r.outcome.response.status == TimeoutCode)
  {
    assert Contains(TimeoutMessage, TimedOut) by {
      assert OccursAt(TimeoutMessage, TimedOut, 11);
      OccurrenceIsFound(TimeoutMessage, TimedOut, 11);
    }
  }

  /** A failure on the retry is returned: timed out, connection closed, or the error text itself. */
  lemma RetryFailureReturned(a: Attempted, b: Attempted)
    requires Retriable(a.raw) && b.raw.Errored?
    ensures var r := Combine(a, b);
      var text := StripQuotes(b.raw.error);
      && r.attempts == 2
      && (Contains(b.raw.error, TimedOut) ==> r.outcome == Returned(false, Response(text, TimeoutCode)))
      && (!Contains(b.raw.error, TimedOut) && ContainsConnectionClosed(b.raw.error)
          ==> r.outcome == Returned(false, Response(text, ConnectionClosedCode)))
      && (!Contains(b.raw.error, TimedOut) && !ContainsConnectionClosed(b.raw.error)
          ==> r.outcome == Returned(false, Response(text, FromText)))
  {
  }

  /**
   * The retry always reconnects: it closes the socket of a connected
   * instance first, and otherwise goes straight to the connection setup.
   */
  lemma RetryReconnects(connected: bool, p: Peer)
    ensures connected && p.close.Fails? ==> Connect(connected, true, p) == Fails("Exception: " + p.close.error)
    ensures !connected || p.close.Done? ==> Connect(connected, true, p) == p.setup
  {
  }

  /** A successful call leaves the socket connected, and a connected socket stays connected. */
  lemma ConnectedAfterSuccess(connected: bool, a: Attempted, b: Attempted)
    requires KeepsConnection(connected, a) && KeepsConnection(a.connected, b)
    ensures var r := Combine(a, b);
      && (r.outcome.Returned? && r.outcome.ok ==> r.connected)
      && (connected ==> r.connected)
  {
  }

  /** The raw socket transport: its settings and the `_connected` flag the calls update. */
  class HttpRawSock {
    const settings: Settings
    /** `_connected`: a connection has been set up (the source's `_sock` is set alongside). */
    var connected: bool
    /** Everything handed to `sendall` so far, in order: the socket's outgoing side. */
    var wire: seq<string>

    /** The second `__init__`: nothing is connected yet. */
    constructor (settings: Settings)
      ensures this.settings == settings && !connected && wire == []
    {
      this.settings := settings;
      connected := false;
      wire := [];
    }

    /**
     * `sendRecv`. The framing is a function of the message alone, so it is
     * computed once; each pass sends it, or raises where `_sendRequest` would.
     */
    method SendRecv(message: string, env: Environment) returns (outcome: Outcome)
      modifies this
      ensures var r := SendRecvSpec(settings, old(connected), message, env);
        outcome == r.outcome && connected == r.connected && wire == old(wire) + r.sent
    {
      var framed := FrameRequest(message, settings.includeUserAgent, settings.version);
      outcome := Exchange(framed, env);
    }

    /** The passes of `sendRecv`, until one is not retried; the reconnect flag is raised at most once. */
    method Exchange(framed: Option<string>, env: Environment) returns (outcome: Outcome)
      modifies this
      ensures var r := ExchangeSpec(old(connected), framed, env);
        outcome == r.outcome && connected == r.connected && wire == old(wire) + r.sent
    {
      ghost var first := AttemptSpec(connected, false, framed, env.first);
      var reconnect := false;
      while true
        invariant !reconnect ==> connected == old(connected) && wire == old(wire)
        invariant reconnect ==> Retriable(first.raw) && connected == first.connected
                                && wire == old(wire) + first.sent
        decreases !reconnect
      {
        var raw := Attempt(framed, if reconnect then env.retry else env.first, reconnect);
        var d := Decide(raw, reconnect);
        if d.Return? {
          return d.outcome;
        }
        reconnect := true;
      }
    }

    /** One pass through the `try` block of `sendRecv`. */
    method Attempt(framed: Option<string>, p: Peer, reconnect: bool) returns (raw: Raw)
      modifies this
      ensures var a := AttemptSpec(old(connected), reconnect, framed, p);
        raw == a.raw && connected == a.connected && wire == old(wire) + a.sent
    {
      if reconnect || !connected {
        if reconnect && connected && p.close.Fails? {
          return Errored("Exception: " + p.close.error);
        }
        if p.setup.Fails? {
          return Errored(p.setup.error);
        }
        connected := true;
      }
      if framed.None? {
        return Crashed(NoSeparator);
      }
      wire := wire + [framed.value];
      if p.send.Fails? {
        return Errored("Exception Sending Data: " + p.send.error);
      }
      match p.received
      case Assembled(data) => raw := Delivered(data);
      case ReadFailed(error) => raw := Errored(error);
      case DecodeFailed => raw := Crashed(UndecodableBytes);
    }
  }
}
