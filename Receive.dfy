/**
 * `HttpRawSock._recvResponse`: reading one HTTP/1.1 response off the socket.
 *
 * The socket is a script of reads. Each entry is what one `recv(2**20)` call
 * produced: a buffer of `size` bytes whose UTF-8 decoding is `text` (with
 * offending bytes dropped when `invalid` and decoding failures are ignored),
 * or an exception. A read past the end of the script is the socket timing
 * out. Three loops consume the script: the header loop reads until the
 * buffer holds the separator, then either the chunked loop reads until the
 * buffer ends with the separator, or the body loop counts down the bytes the
 * header announced.
 */
module Receive {
  import opened Wrappers
  import opened Text
  import opened Http

  /** One `recv` call on the socket. */
  datatype Read = Bytes(size: nat, text: string, invalid: bool) | Raised(error: string)

  /** What the transport makes of one read: the outcomes the loops tell apart. */
  datatype Pulled = Closed | Failed(message: string) | Undecodable | Got(text: string, size: nat)

  /** How a receive ends: a response text, a TransportLayerException, or an uncaught decoding error. */
  datatype Assembly = Assembled(data: string) | ReadFailed(message: string) | DecodeFailed

  /** The outcome together with how many entries of the script were used. */
  datatype Received = Received(result: Assembly, consumed: nat)

  /** The text a socket timeout carries once wrapped. */
  const TimeoutMessage: string := "Exception: timed out"

  /** The two spellings of the chunked transfer coding that are recognised. */
  const ChunkedField: string := "Transfer-Encoding: chunked\r\n"
  const ChunkedFieldLower: string := "transfer-encoding: chunked\r\n"

  /** The length assumed when no Content-Length can be read (2**20). */
  const FallbackLength: nat := 0x10_0000

  /** The server closed the connection: `recv` returned no bytes. */
  predicate IsClose(r: Read)
  {
    r.Bytes? && r.size == 0
  }

  /** Read `i` yields text the loops append. */
  predicate Delivers(r: Read, ignoreDecodingFailures: bool)
  {
    r.Bytes? && r.size > 0 && (!r.invalid || ignoreDecodingFailures)
  }

  /** The index after read `i`, or `i` when the script is exhausted. */
  function Taken(script: seq<Read>, i: nat): nat
  {
    if i < |script| then i + 1 else i
  }

  /**
   * One `recv` followed by `decode_buf`: a timeout past the script's end, the
   * wrapped exception, an empty buffer, a decoding error, or decoded text.
   */
  function Pull(script: seq<Read>, i: nat, ignoreDecodingFailures: bool): (p: Pulled)
    ensures p.Got? <==> i < |script| && Delivers(script[i], ignoreDecodingFailures)
    ensures p.Got? ==> p.text == script[i].text && p.size == script[i].size
    ensures p.Closed? <==> i < |script| && IsClose(script[i])
    ensures p.Failed? && i < |script| ==> script[i].Raised? && p.message == "Exception: " + script[i].error
    ensures i < |script| && script[i].Raised? ==> p == Failed("Exception: " + script[i].error)
    ensures p.Undecodable? <==>
      i < |script| && script[i].Bytes? && script[i].size > 0 && script[i].invalid && !ignoreDecodingFailures
    ensures i >= |script| ==> p == Failed(TimeoutMessage)
  {
    if i >= |script| then Failed(TimeoutMessage)
    else match script[i]
      case Raised(e) => Failed("Exception: " + e)
      case Bytes(size, text, invalid) =>
        if size == 0 then Closed
        else if invalid && !ignoreDecodingFailures then Undecodable
        else Got(text, size)
  }

  /** The buffer announces the chunked transfer coding, in one of the two spellings. */
  predicate IsChunked(data: string)
  {
    Contains(data, ChunkedField) || Contains(data, ChunkedFieldLower)
  }

  /** The buffer starts with a 204 or 304 status line. */
  predicate HasNoBodyStatus(data: string)
  {
    |data| >= 12 && (data[..12] == "HTTP/1.1 204" || data[..12] == "HTTP/1.1 304")
  }

  /** The characters up to and including the first separator. */
  function HeaderLength(data: string): (n: nat)
    requires Contains(data, Delim)
    ensures |Delim| <= n <= |data| && data[n - |Delim|..n] == Delim
    ensures forall j: nat :: j < n - |Delim| ==> !OccursAt(data, Delim, j)
  {
    FindFirst(data, Delim);
    Find(data, Delim).value + |Delim|
  }

  /** The body length the receiver waits for. */
  function ExpectedBodyLength(data: string, methodName: string): nat
  {
    if HasNoBodyStatus(data) then 0
    else if ToUpper(methodName) == "HEAD" then 0
    else match DeclaredLength(ToLower(data))
      case Some(n) => n
      case None => FallbackLength
  }

  /** Where the header loop leaves off: a finished receive, or a buffer holding the separator. */
  datatype HeaderOutcome = Ended(outcome: Received) | Headed(next: nat, data: string, received: nat)

  /** The header loop: read until the buffer holds the separator. */
  function HeaderPhase(script: seq<Read>, i: nat, data: string, received: nat,
                       ignoreDecodingFailures: bool): (h: HeaderOutcome)
    ensures h.Headed? ==> Contains(h.data, Delim)
    decreases |script| - i
  {
    if Contains(data, Delim) then Headed(i, data, received)
    else match Pull(script, i, ignoreDecodingFailures)
      case Closed => Ended(Received(Assembled(data), i + 1))
      case Failed(message) => Ended(Received(ReadFailed(message), Taken(script, i)))
      case Undecodable => Ended(Received(DecodeFailed, i + 1))
      case Got(text, size) => HeaderPhase(script, i + 1, data + text, received + size, ignoreDecodingFailures)
  }

  /** What follows a complete header: the chunked loop, or the countdown of the announced body. */
  function AfterHeader(script: seq<Read>, i: nat, data: string, received: nat,
                       methodName: string, ignoreDecodingFailures: bool): (r: Received)
    requires Contains(data, Delim)
  {
    if IsChunked(data) then
      if EndsWith(data, Delim) then Received(Assembled(data), i)
      else ChunkPhase(script, i, data, ignoreDecodingFailures)
    else
      BodyPhase(script, i, data,
                ExpectedBodyLength(data, methodName) - received + HeaderLength(data),
                ignoreDecodingFailures)
  }

  /** The chunked loop: read until the buffer ends with the separator. */
  function ChunkPhase(script: seq<Read>, i: nat, data: string, ignoreDecodingFailures: bool): (r: Received)
    decreases |script| - i
  {
    match Pull(script, i, ignoreDecodingFailures)
    case Closed => Received(Assembled(data), i + 1)
    case Failed(message) => Received(ReadFailed(message), Taken(script, i))
    case Undecodable => Received(DecodeFailed, i + 1)
    case Got(text, _) =>
      if EndsWith(data + text, Delim) then Received(Assembled(data + text), i + 1)
      else ChunkPhase(script, i + 1, data + text, ignoreDecodingFailures)
  }

  /** The body loop: read while bytes remain. */
  function BodyPhase(script: seq<Read>, i: nat, data: string, remain: int,
                     ignoreDecodingFailures: bool): (r: Received)
    decreases |script| - i
  {
    if remain <= 0 then Received(Assembled(data), i)
    else match Pull(script, i, ignoreDecodingFailures)
      case Closed => Received(Assembled(data), i + 1)
      case Failed(message) => Received(ReadFailed(message), Taken(script, i))
      case Undecodable => Received(DecodeFailed, i + 1)
      case Got(text, size) => BodyPhase(script, i + 1, data + text, remain - size, ignoreDecodingFailures)
  }

  /** The whole receive, from an empty buffer at the start of the script. */
  function Assemble(script: seq<Read>, methodName: string, ignoreDecodingFailures: bool): (r: Received)
  {
    match HeaderPhase(script, 0, "", 0, ignoreDecodingFailures)
    case Ended(r) => r
    case Headed(i, data, received) => AfterHeader(script, i, data, received, methodName, ignoreDecodingFailures)
  }

  /** `_recvResponse` itself: the three loops over the socket's script. */
  method RecvResponse(script: seq<Read>, methodName: string, ignoreDecodingFailures: bool)
    returns (r: Received)
    ensures r == Assemble(script, methodName, ignoreDecodingFailures)
  {
    var data := "";
    var received := 0;
    var i := 0;
    while !Contains(data, Delim)
      invariant i <= |script|
      invariant HeaderPhase(script, i, data, received, ignoreDecodingFailures)
                == HeaderPhase(script, 0, "", 0, ignoreDecodingFailures)
      decreases |script| - i
    {
      match Pull(script, i, ignoreDecodingFailures)
      case Closed =>
        return Received(Assembled(data), i + 1);
      case Failed(message) =>
        return Received(ReadFailed(message), Taken(script, i));
      case Undecodable =>
        return Received(DecodeFailed, i + 1);
      case Got(text, size) =>
        received := received + size;
        data := data + text;
        i := i + 1;
    }

    r := ReadAfterHeader(script, i, data, received, methodName, ignoreDecodingFailures);
  }

  /** The rest of `_recvResponse` once the buffer `data` holds a complete header. */
  method ReadAfterHeader(script: seq<Read>, i: nat, data: string, received: nat,
                         methodName: string, ignoreDecodingFailures: bool)
    returns (r: Received)
    requires i <= |script| && Contains(data, Delim)
    ensures r == AfterHeader(script, i, data, received, methodName, ignoreDecodingFailures)
  {
    if IsChunked(data) {
      // a single chunk that already ends the message: the next read would only wait
      if EndsWith(data, Delim) {
        ChunkedHeaderDone(script, i, data, received, methodName, ignoreDecodingFailures);
        return Received(Assembled(data), i);
      }
      ChunksFollowHeader(script, i, data, received, methodName, ignoreDecodingFailures);
      r := ReadChunked(script, i, data, ignoreDecodingFailures);
      return;
    }

    var headerLength := HeaderLength(data);
    var contentLength := ExpectedBodyLength(data, methodName);
    var remain: int := contentLength - received + headerLength;
    BodyFollowsHeader(script, i, data, received, methodName, ignoreDecodingFailures);
    r := ReadBody(script, i, data, remain, ignoreDecodingFailures);
  }

  /** The chunked loop of `_recvResponse`, from read `i` with buffer `data`. */
  method ReadChunked(script: seq<Read>, i0: nat, data0: string, ignoreDecodingFailures: bool)
    returns (r: Received)
    requires i0 <= |script|
    ensures r == ChunkPhase(script, i0, data0, ignoreDecodingFailures)
  {
    var data := data0;
    var i := i0;
    while true
      invariant i <= |script|
      invariant ChunkPhase(script, i, data, ignoreDecodingFailures)
                == ChunkPhase(script, i0, data0, ignoreDecodingFailures)
      decreases |script| - i
    {
      match Pull(script, i, ignoreDecodingFailures)
      case Closed =>
        return Received(Assembled(data), i + 1);
      case Failed(message) =>
        return Received(ReadFailed(message), Taken(script, i));
      case Undecodable =>
        return Received(DecodeFailed, i + 1);
      case Got(text, _) =>
        data := data + text;
        i := i + 1;
        if EndsWith(data, Delim) {
          return Received(Assembled(data), i);
        }
    }
  }

  /** The body loop of `_recvResponse`: read while `remain` bytes are still due. */
  method ReadBody(script: seq<Read>, i0: nat, data0: string, remain0: int, ignoreDecodingFailures: bool)
    returns (r: Received)
    requires i0 <= |script|
    ensures r == BodyPhase(script, i0, data0, remain0, ignoreDecodingFailures)
  {
    var data := data0;
    var i := i0;
    var remain := remain0;
    while remain > 0
      invariant i <= |script|
      invariant BodyPhase(script, i, data, remain, ignoreDecodingFailures)
                == BodyPhase(script, i0, data0, remain0, ignoreDecodingFailures)
      decreases |script| - i
    {
      match Pull(script, i, ignoreDecodingFailures)
      case Closed =>
        return Received(Assembled(data), i + 1);
      case Failed(message) =>
        return Received(ReadFailed(message), Taken(script, i));
      case Undecodable =>
        return Received(DecodeFailed, i + 1);
      case Got(text, size) =>
        remain := remain - size;
        data := data + text;
        i := i + 1;
    }
    return Received(Assembled(data), i);
  }

  /** A chunked response whose buffer already ends with the separator is complete. */
  lemma ChunkedHeaderDone(script: seq<Read>, i: nat, data: string, received: nat,
                          methodName: string, ignoreDecodingFailures: bool)
    requires Contains(data, Delim) && IsChunked(data) && EndsWith(data, Delim)
    ensures AfterHeader(script, i, data, received, methodName, ignoreDecodingFailures)
            == Received(Assembled(data), i)
  {
  }

  /** A chunked response not yet ending with the separator goes on with the chunked loop. */
  lemma ChunksFollowHeader(script: seq<Read>, i: nat, data: string, received: nat,
                           methodName: string, ignoreDecodingFailures: bool)
    requires Contains(data, Delim) && IsChunked(data) && !EndsWith(data, Delim)
    ensures AfterHeader(script, i, data, received, methodName, ignoreDecodingFailures)
            == ChunkPhase(script, i, data, ignoreDecodingFailures)
  {
  }

  /** The receive goes on from wherever the header loop leaves off. */
  lemma AssembleAfterHeader(script: seq<Read>, methodName: string, ignoreDecodingFailures: bool)
    ensures var h := HeaderPhase(script, 0, "", 0, ignoreDecodingFailures);
      h.Headed? ==> Assemble(script, methodName, ignoreDecodingFailures)
                    == AfterHeader(script, h.next, h.data, h.received, methodName, ignoreDecodingFailures)
  {
  }

  /** Without the chunked coding, a complete header leads to the body countdown. */
  lemma BodyFollowsHeader(script: seq<Read>, i: nat, data: string, received: nat,
                          methodName: string, ignoreDecodingFailures: bool)
    requires Contains(data, Delim) && !IsChunked(data)
    ensures AfterHeader(script, i, data, received, methodName, ignoreDecodingFailures)
            == BodyPhase(script, i, data, ExpectedBodyLength(data, methodName) - received + HeaderLength(data),
                         ignoreDecodingFailures)
  {
  }
}
