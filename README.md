# restler raw HTTP/1.1 transport, modelled in Dafny

This project models the raw-socket HTTP/1.1 transport of RESTler, in
`restler/engine/transport_layer/messaging.py`. That transport sends a fuzzing
request as text and reads the response back, without any HTTP library. The
model has three parts.

- **Framing** (`HttpRawSock._sendRequest`) turns a message into the text handed
  to `sendall`. It inserts `Content-Length: n` before the first `\r\n\r\n`
  unless the text `Content-Length: ` already occurs anywhere in the message.
  Then, when the settings ask for it, it inserts `User-Agent: restler/<version>`.
  A message without a separator makes `message.index` raise ValueError when a
  step needs it. These are pure functions on strings (`Framing`), with the
  Python string operations they use in `Text` and `Http`.
- **Receiving** (`HttpRawSock._recvResponse`) runs three loops over the socket:
  - read until the buffer holds the separator;
  - then either read chunks until the buffer ends with the separator;
  - or count down the announced Content-Length in bytes.

  The socket is a script of reads (`Receive.Read`). Each read is a byte count,
  the decoded text and whether decoding failed, or an exception text. Reading
  past the end of the script is a socket timeout. The method `RecvResponse`
  keeps the three `while` loops, and each loop is proved equal to a recursive
  specification function. `ReceiveFacts` proves what those functions promise.
- **Retrying** (`HttpRawSock.sendRecv` and `_contains_connection_closed`) is a
  class holding the `_connected` flag. `SendRecv` makes passes in a loop that
  can raise the reconnect flag once; the source recurses with `reconnect=True`
  instead. Failures are classified as a timeout, a closed connection or an
  unknown error. What closing, connection setup, `sendall` and `_recvResponse`
  do in each pass is an argument (`Transport.Peer`).

The message-slicing helpers `_get_method_from_message`,
`_get_payload_from_message` and `_get_uri_segment_from_message` are in
`Slicing`. They keep Python's `find() == -1` behaviour.

## Model

| member | source | states |
|---|---|---|
| Text.Find | restler/engine/transport_layer/messaging.py:316-317 | `message.index(DELIM)`: a result is an index where the separator occurs |
| Text.FindFirst | restler/engine/transport_layer/messaging.py:316-317 | the index reported is the first occurrence, and None means there is none at all |
| Text.FindIsFirst | restler/engine/transport_layer/messaging.py:316-317 | an occurrence with none before it is the index `index` returns |
| Text.OccurrenceIsFound | restler/engine/transport_layer/messaging.py:326 | any occurrence makes `in` true, and `index` returns it or an earlier one |
| Text.PyFind | restler/engine/transport_layer/messaging.py:82 | `find` returns -1 exactly when the pattern does not occur, otherwise the lowest index where it occurs |
| Text.PySlice | restler/engine/transport_layer/messaging.py:83 | `s[lo:hi]` is the characters from `lo` up to `hi` for in-range bounds, stops `-hi` characters short of the end for a negative `hi` (the `[0:-1]` case), is empty when `0 <= hi <= lo` or when a negative `hi` lands at or before `lo`, is the suffix from `lo` when `hi` is at or past the end, and is never longer than the string |
| Text.PySliceFrom | restler/engine/transport_layer/messaging.py:90 | `s[lo:]` is the suffix from `lo`, or empty when `lo` is past the end |
| Text.ToLower | restler/engine/transport_layer/messaging.py:444 | `lower()` keeps the length and maps every character on its own |
| Text.ToUpper | restler/engine/transport_layer/messaging.py:440 | `upper()` keeps the length and maps every character on its own |
| Text.ToLowerOccurs | restler/engine/transport_layer/messaging.py:444-445 | a text that occurs in a string still occurs there, at the same index, after both are lower-cased |
| Text.NatToDecimal | restler/engine/transport_layer/messaging.py:328 | `f"{n}"` is a non-empty run of digits with no leading zero |
| Text.ParseDecimal | restler/engine/transport_layer/messaging.py:446 | the digit-only stand-in for `int()` succeeds exactly on a non-empty run of decimal digits |
| Text.DecimalRoundTrip | restler/engine/transport_layer/messaging.py:328 | parsing the decimal text of a number gives the number back |
| Text.StripQuotes | restler/engine/transport_layer/messaging.py:266 | `strip('"\'')` removes exactly the quote characters at both ends, and the result neither starts nor ends with a quote |
| Http.UpTo | restler/engine/transport_layer/messaging.py:446 | `split(sep)[0]` is a prefix ending where the separator first occurs, or the whole text when there is none |
| Http.UpToStopsAtFirst | restler/engine/transport_layer/messaging.py:446 | no occurrence of the separator lies inside that prefix |
| Http.DeclaredLength | restler/engine/transport_layer/messaging.py:444-448 | a length is read only when `content-length: ` occurs in the lower-cased buffer |
| Http.DeclaredLengthOfDigits | restler/engine/transport_layer/messaging.py:444-446 | when the first `content-length: ` is followed by digits and a line break, the length read is the number those digits spell |
| Http.FieldValueIsDigits | restler/engine/transport_layer/messaging.py:445-446 | splitting at the field name and then at the line break yields the digits that follow the field name |
| Slicing.FindChar | restler/engine/transport_layer/messaging.py:82 | finding a single character yields its first position, and none when it does not occur |
| Slicing.GetMethodFromMessage | restler/engine/transport_layer/messaging.py:81-84 | the text before the first space, which contains no space; without a space, the message minus its last character |
| Slicing.GetPayloadFromMessage | restler/engine/transport_layer/messaging.py:86-91 | the text after the first separator; without a separator, the message from index 3 on |
| Slicing.PayloadFollowsFirstSeparator | restler/engine/transport_layer/messaging.py:86-91 | with a separator, the message is the header, the first separator and the payload, and the header holds no separator |
| Slicing.GetUriSegmentFromMessage | restler/engine/transport_layer/messaging.py:93-97 | the text between the first space and the next one, or its `find() == -1` variants |
| Framing.AppendToHeader | restler/engine/transport_layer/messaging.py:316-324 | `_append_to_header` raises exactly when the message has no separator |
| Framing.AppendedLine | restler/engine/transport_layer/messaging.py:322-324 | appending puts a line break and the content right before the first separator, and keeps the rest as it was |
| Framing.AppendedKeepsSeparator | restler/engine/transport_layer/messaging.py:322-324 | the appended message still holds a separator |
| Framing.SeparatorStaysFirst | restler/engine/transport_layer/messaging.py:322-324 | a line break and a line without line breaks put before the first separator do not create an earlier one |
| Framing.FrameRequest | restler/engine/transport_layer/messaging.py:326-330 | framing raises exactly when the message has no separator and some step needs one: the Content-Length step because `Content-Length: ` is absent, or the User-Agent step |
| Framing.ContentLengthStepKeepsSeparator | restler/engine/transport_layer/messaging.py:326-328 | after the Content-Length step the message holds a separator exactly when it held one before |
| Framing.LengthLineInserted | restler/engine/transport_layer/messaging.py:326-328 | without `Content-Length: ` anywhere, the inserted line is `Content-Length: ` and the character count of the text after the first separator |
| Framing.ContentLengthStep | restler/engine/transport_layer/messaging.py:326-328 | the Content-Length step inserts its line, or nothing, right before the first separator |
| Framing.ContentLengthKeepsSeparator | restler/engine/transport_layer/messaging.py:326-328 | after the Content-Length step the first separator is the old one, moved past the inserted line |
| Framing.UserAgentStep | restler/engine/transport_layer/messaging.py:329-330 | the User-Agent line is inserted right before the first separator only when `include_user_agent` is set |
| Framing.InsertionKeepsSeparator | restler/engine/transport_layer/messaging.py:322-324 | inserting one line before the first separator keeps that separator the first, and keeps what follows it |
| Framing.TwoInsertionsKeepSeparator | restler/engine/transport_layer/messaging.py:326-330 | two insertions in a row keep the separator first, moved past both lines |
| Framing.FramedLayout | restler/engine/transport_layer/messaging.py:322-330 | the framed message is the old header, then the Content-Length line if due, then the User-Agent line if due, then the old separator and body |
| Framing.FramedSeparator | restler/engine/transport_layer/messaging.py:326-330 | the first separator of the framed message is the old one, moved past the inserted lines, and the body after it is unchanged |
| Framing.FramedBodyUnchanged | restler/engine/transport_layer/messaging.py:326-330 | framing succeeds on a message with a separator, and the payload of the framed message is the payload of the original |
| Framing.LowerCasedHeaderFound | restler/engine/transport_layer/messaging.py:326 | a `Content-Length: ` anywhere in the message is a `content-length: ` in its lower-cased text |
| Framing.InsertedFieldComesFirst | restler/engine/transport_layer/messaging.py:444-445 | once lower-cased, the first `content-length: ` of the framed message is the inserted one |
| Framing.FramedLengthRoundTrip | restler/engine/transport_layer/messaging.py:326-328 | when the message holds no `Content-Length: ` and its header no Content-Length field in another letter case, the length read back from the framed message the way `_recvResponse` reads it is the character count of the original body, whatever the body holds |
| Framing.CallerFieldKept | restler/engine/transport_layer/messaging.py:326-328 | a header carrying its own Content-Length field in another letter case keeps it: the first field found in the lower-cased framed message is the caller's, where it was in the original |
| Receive.Pull | restler/engine/transport_layer/messaging.py:399-409 | one `recv` and `decode_buf`: a raised read gives `Exception: <text>` and only a raised read does; past the script, a timeout; empty means closed; a decoding error exactly for a non-empty invalid read when failures are not ignored; text otherwise |
| Receive.HeaderLength | restler/engine/transport_layer/messaging.py:436 | `header_len` ends with the first separator: the separator sits just before it, none starts earlier, and it lies within the buffer |
| Receive.HeaderPhase | restler/engine/transport_layer/messaging.py:398-409 | the header loop hands on a buffer only when it holds the separator |
| Receive.RecvResponse | restler/engine/transport_layer/messaging.py:372-466 | the three loops return what the specification function `Assemble` computes from the script; `ReceiveFacts.AssembledResponse`, `CloseReturnsResponse` and `ReceiveErrors` state its responses, its closes and its errors |
| Receive.ReadAfterHeader | restler/engine/transport_layer/messaging.py:412-466 | once the header is complete, the chunked or body loop returns what `AfterHeader` computes |
| Receive.ReadChunked | restler/engine/transport_layer/messaging.py:420-434 | the chunked loop returns what `ChunkPhase` computes |
| Receive.ReadBody | restler/engine/transport_layer/messaging.py:454-466 | the body loop returns what `BodyPhase` computes |
| Receive.ChunkedHeaderDone | restler/engine/transport_layer/messaging.py:412-418 | a chunked buffer that already ends with the separator is returned with no further read |
| ReceiveFacts.HeaderPhaseHeaded | restler/engine/transport_layer/messaging.py:397-409 | the header loop's buffer is the old buffer followed by the text of the reads taken, and its byte count is their total |
| ReceiveFacts.HeaderPhaseEnded | restler/engine/transport_layer/messaging.py:398-409 | the header loop returns a response of its own exactly when the server closed: a close returns the text read so far, and nothing else ends the loop without an error |
| ReceiveFacts.HeaderReaches | restler/engine/transport_layer/messaging.py:398-409 | reads that bring no separator keep the header loop going, and it stops at the first read after which the buffer holds one |
| ReceiveFacts.ChunkPhaseFacts | restler/engine/transport_layer/messaging.py:420-434 | the chunked loop returns the buffer followed by the text of the reads it took, in order |
| ReceiveFacts.ChunkPhaseEnds | restler/engine/transport_layer/messaging.py:420-434 | the chunked loop stops with a buffer ending in the separator, or because the server closed; no earlier read left the buffer ending with the separator; a close returns the buffer rather than an error |
| ReceiveFacts.ChunkPhaseReaches | restler/engine/transport_layer/messaging.py:420-434 | delivering reads that first make the buffer end with the separator at read `k - 1` end the chunked loop there, returning that buffer |
| ReceiveFacts.BodyPhaseFacts | restler/engine/transport_layer/messaging.py:454-466 | the body loop returns the buffer followed by the text of the reads it took, in order |
| ReceiveFacts.BodyPhaseStops | restler/engine/transport_layer/messaging.py:454-464 | the body loop stops at the first read whose bytes cover what remains, or earlier only on a close or an error, and a close returns the buffer rather than an error |
| ReceiveFacts.AfterHeaderFacts | restler/engine/transport_layer/messaging.py:412-466 | whichever loop follows the header appends the text of the reads it took, in order |
| ReceiveFacts.BytesCoverText | restler/engine/transport_layer/messaging.py:402 | when decoding never adds characters, the bytes taken are at least the characters appended |
| ReceiveFacts.AssembledResponse | restler/engine/transport_layer/messaging.py:372-466 | a returned response is exactly the text of the reads consumed, in order, and holds the separator unless the server closed first |
| ReceiveFacts.CloseReturnsResponse | restler/engine/transport_layer/messaging.py:406-407 | a zero-length read in any of the three loops ends the receive without an error, returning the text of every read before it, in order |
| ReceiveFacts.HeaderPhaseErrors | restler/engine/transport_layer/messaging.py:398-409 | the header loop ends with an error exactly as its last read says: a raised read gives `Exception: ` and its text, an undecodable read the decoding error, a read past the end the timeout |
| ReceiveFacts.ChunkPhaseErrors | restler/engine/transport_layer/messaging.py:420-434 | the chunked loop ends with an error exactly as its last read says |
| ReceiveFacts.BodyPhaseErrors | restler/engine/transport_layer/messaging.py:454-466 | the body loop ends with an error exactly as its last read says |
| ReceiveFacts.ReceiveErrors | restler/engine/transport_layer/messaging.py:372-466 | the whole receive raises a TransportLayerException with `Exception: <text>` exactly for a raised last read or the timeout past the script's end, and the decoding error exactly for an undecodable last read when failures are not ignored |
| ReceiveFacts.NoBodyStopsAtHeader | restler/engine/transport_layer/messaging.py:436-441 | for a 204 or 304 status or a HEAD request, the receive returns the buffer as soon as the header is complete |
| ReceiveFacts.SingleChunkResponse | restler/engine/transport_layer/messaging.py:412-418 | a first read that is a whole chunked response is returned as it is, with no second read |
| ReceiveFacts.ChunkedResponseEnds | restler/engine/transport_layer/messaging.py:420-434 | a chunked response ends with the separator unless the server closed first |
| ReceiveFacts.BodyCountdown | restler/engine/transport_layer/messaging.py:450-464 | measured in bytes since the start, the body loop stops at the first read that reaches the awaited total, or earlier only on a close or an error, and a close returns the buffer rather than an error |
| ReceiveFacts.DeclaredBodyAwaited | restler/engine/transport_layer/messaging.py:436-464 | outside chunked, 204/304 and HEAD, the receive reads on until the bytes reach the header length plus the announced Content-Length, or the server closes |
| ReceiveFacts.FallbackBodyAwaited | restler/engine/transport_layer/messaging.py:443-464 | without a readable Content-Length, it awaits the header length plus 2**20 bytes |
| ReceiveFacts.AwaitedLength | restler/engine/transport_layer/messaging.py:438-448 | outside 204/304 and HEAD, the expected length is the announced one, or 2**20 when none can be read |
| ReceiveFacts.HeaderEndsAt | restler/engine/transport_layer/messaging.py:398-409 | reads that complete the header exactly at read `k` end the header loop there, with all their text and bytes |
| Transport.ConnectionClosedIffMarker | restler/engine/transport_layer/messaging.py:283-304 | `_contains_connection_closed` holds exactly when one of `[WinError 10054]`, `[WinError 10053]` or `[Errno 104]` occurs in the text |
| Transport.Connect | restler/engine/transport_layer/messaging.py:243-248 | the connection is set up lazily: a connected socket that is not reconnecting does nothing, an unconnected one runs the connection setup |
| Transport.Transmit | restler/engine/transport_layer/messaging.py:250-259 | without a framing, raises before sending; otherwise sends the framed request once, and a send error becomes `Exception Sending Data: <text>`, a read error stays a TransportLayerException, a decoding error escapes uncaught, and a response is delivered |
| Transport.Decide | restler/engine/transport_layer/messaging.py:254-281 | a pass is retried exactly when not already reconnecting and it gave an empty response or a non-timeout failure; `ok` is true exactly for a response, and a returned response is `(True, response)` on either pass; an uncaught exception passes through unchanged |
| Transport.FailureClassified | restler/engine/transport_layer/messaging.py:265-281 | a returned failure is `(False, response)` with the quote-stripped error text, TIMEOUT_CODE exactly when it contains `timed out`, CONNECTION_CLOSED_CODE exactly when it does not and names a closed connection |
| Transport.PassSendsFramed | restler/engine/transport_layer/messaging.py:250 | a pass hands at most one message to `sendall`, and that message is the framed request |
| Transport.PassKeepsConnection | restler/engine/transport_layer/messaging.py:243-248 | a pass never clears `_connected`, and a response arrives only over a connection |
| Transport.UnframeablePass | restler/engine/transport_layer/messaging.py:316-328 | once connected, a message that cannot be framed raises before anything is sent |
| Transport.AtMostOneRetry | restler/engine/transport_layer/messaging.py:254-257 | a call makes a second pass exactly when the first is retriable, and no third |
| Transport.SentIsFramed | restler/engine/transport_layer/messaging.py:337 | a call hands `sendall` at most two messages, each of them the framed request |
| Transport.TimeoutNotRetried | restler/engine/transport_layer/messaging.py:267-269 | a timeout on the first pass ends the call with `(False, TIMEOUT_CODE)` and no retry |
| Transport.CrashNotRetried | restler/engine/transport_layer/messaging.py:265 | an exception other than TransportLayerException ends the call at once |
| Transport.ResponseReturned | restler/engine/transport_layer/messaging.py:259-264 | a non-empty response on the first pass is returned as `(True, response)` |
| Transport.EmptyResponseTwice | restler/engine/transport_layer/messaging.py:254-264 | an empty response is retried once, and an empty retry is returned as `(True, "")` |
| Transport.RetryResponseReturned | restler/engine/transport_layer/messaging.py:254-264 | a response received on the retry, empty or not, is returned as `(True, response)` after two passes |
| Transport.RetryCrashEscapes | restler/engine/transport_layer/messaging.py:259-265 | an uncaught exception on the retry ends the call with that exception |
| Transport.DecodeFailureEscapes | restler/engine/transport_layer/messaging.py:259-265 | a decoding error in the first receive escapes the call at once, with no retry, after one send of the framed request |
| Transport.ReadFailureHandled | restler/engine/transport_layer/messaging.py:259-281 | a read error in the first receive returns `(False, TIMEOUT_CODE)` when it says `timed out` (as the timeout past the script's end does), and otherwise brings a second pass |
| Transport.RetryFailureReturned | restler/engine/transport_layer/messaging.py:265-281 | a failure on the retry is returned as a timeout, a closed connection or the error text itself |
| Transport.RetryReconnects | restler/engine/transport_layer/messaging.py:243-248 | the retry closes the socket when there is one, and otherwise sets up the connection right away |
| Transport.ConnectedAfterSuccess | restler/engine/transport_layer/messaging.py:243-264 | a successful call leaves the socket connected, and a connected socket stays connected |
| Transport.HttpRawSock.constructor | restler/engine/transport_layer/messaging.py:196-213 | a new transport is not connected and has sent nothing |
| Transport.HttpRawSock.Attempt | restler/engine/transport_layer/messaging.py:242-264 | one pass gives the result, connection state and sent text that `AttemptSpec` gives |
| Transport.HttpRawSock.Exchange | restler/engine/transport_layer/messaging.py:242-281 | the retry loop ends with the outcome, connection state and sent texts of `ExchangeSpec` |
| Transport.HttpRawSock.SendRecv | restler/engine/transport_layer/messaging.py:227-281 | `sendRecv` ends with the outcome, connection state and sent texts of `SendRecvSpec` |

## Left out

- The request throttle (`_begin_throttle_request`, `_end_throttle_request`) is treated as a no-op. It is wall-clock time, `sleep` and a process-wide semaphore.
- Socket and TLS construction is left out. This includes the first `__init__`, which the second definition replaces.
- `set_up_connection` is not part of this model: the file calls it but does not define it. It is an operation that either succeeds or raises a TransportLayerException with a given text. `_closeSocket` is modelled the same way.
- `Http2Sock` and the `HttpSock` proxy are left out. They only delegate. Of `BaseSocket`, only its message-slicing helpers (messaging.py:81-97) are modelled, in `Slicing`; its abstract `sendRecv` has no body.
- The test-socket branch is left out. With `use_test_socket`, `sendRecv` still frames and sends the request, but skips `_recvResponse` and the empty-response retry, and returns `(True, response)` with whatever the test socket's `recv()` gives (messaging.py:250-263). The model covers only the real socket.
- `RAW_LOGGING`, `print` and `__del__` are left out. None of them affects what is returned.
- Transport.HttpRawSock: `_sock` and `_connected` are one field, `connected`. This assumes that `set_up_connection` sets `_sock` exactly when it succeeds, so a socket exists exactly when the transport is connected.
- `HttpResponse` and its status codes come from a file that is not part of this model. A response is its text plus a status: parsed from the text, TIMEOUT_CODE or CONNECTION_CLOSED_CODE.
- UTF-8 decoding is not modelled. A read carries its byte count, its decoded text and whether decoding failed. With `ignore_decoding_failures`, the given text stands for what `decode(..., "ignore")` keeps.
- `settimeout` and `req_timeout_sec` are not modelled. A timeout is the read after the end of the script, whose exception text is `timed out`.
- Transport.HttpRawSock.Attempt: what `_recvResponse` returns is an input of each pass (`Peer.received`), stated as the `Assembly` that `Receive.RecvResponse` computes. The transport does not re-derive it from a read script.
- Transport.HttpRawSock.SendRecv: the framing is computed once per call, because `_sendRequest` frames the same text on every pass. Each pass still raises where `_sendRequest` would.
- Text.ToLower: only ASCII letters change case. Python's `lower()` also maps other alphabets.
- Text.ToUpper: only ASCII letters change case. Python's `upper()` also maps other alphabets; no non-ASCII character upper-cases into `HEAD`, so the HEAD test is unaffected.
- Text.ParseDecimal: accepts only a non-empty run of ASCII decimal digits. Python's `int()` also strips surrounding whitespace and accepts a sign, underscores between digits and non-ASCII digits.
- Http.DeclaredLength: the field value must be a run of decimal digits. Python's `int()` also accepts surrounding whitespace, a sign and underscores, so such a value falls back to 2**20 here.
- Framing.FramedBodyUnchanged: requires the User-Agent version to hold no line break. A version holding `\r\n` could form an earlier separator, and the payload would then differ.
- Framing.FramedSeparator: requires the same condition on the version, for the same reason.

## Behaviour of the code worth noting

The model keeps each of these as the code has it.

- The inserted Content-Length is `len()` of the Python string, so it counts characters, not bytes (messaging.py:327).
- Chunked transfer coding is recognised only in two exact spellings, `Transfer-Encoding: chunked\r\n` and `transfer-encoding: chunked\r\n` (messaging.py:413-414). Any other letter case is read as a body with a Content-Length.
- A decoding error is re-raised by `decode_buf` outside the `try` blocks (messaging.py:394, 409). It is not a TransportLayerException, so it escapes `sendRecv` instead of becoming a failed response.
- The byte countdown subtracts `bytes_received`, a count of bytes, and adds `header_len`, a count of characters (messaging.py:450). The model keeps the two units apart (`Read.size` and `Read.text`), and `ReceiveFacts.BytesCoverText` relates them when decoding never adds characters.
