/**
 * What `_recvResponse` guarantees about the response it returns: it is the
 * received text in order; it lacks the separator only when the server closed
 * the connection first; the chunked loop stops at a buffer ending with the
 * separator; the body loop stops at the first read that covers the bytes
 * still due; and a response without a body is returned as soon as its
 * header is complete.
 */
module ReceiveFacts {
  import opened Wrappers
  import opened Text
  import opened Http
  import opened Receive

  /** The text a read appends to the buffer (nothing for an empty or failed read). */
  function TextOf(r: Read): string
  {
    if r.Bytes? && r.size > 0 then r.text else []
  }

  /** The text of reads `i` up to (not including) `c`, in order. */
  function Joined(script: seq<Read>, i: nat, c: nat): string
    requires i <= c <= |script|
    decreases c - i
  {
    if i == c then [] else TextOf(script[i]) + Joined(script, i + 1, c)
  }

  /** The bytes a read takes off the socket. */
  function SizeOf(r: Read): nat
  {
    if r.Bytes? then r.size else 0
  }

  /** The bytes reads `i` up to (not including) `c` take off the socket. */
  function ByteTotal(script: seq<Read>, i: nat, c: nat): nat
    requires i <= c <= |script|
    decreases c - i
  {
    if i == c then 0 else SizeOf(script[i]) + ByteTotal(script, i + 1, c)
  }

  /** Decoding never yields more characters than it was given bytes. */
  predicate WellSized(script: seq<Read>)
  {
    forall j :: 0 <= j < |script| && script[j].Bytes? ==> |script[j].text| <= script[j].size
  }

  /** Reading one more entry extends the joined text at its end. */
  lemma {:induction false} JoinedExtend(script: seq<Read>, i: nat, c: nat)
    requires i <= c < |script|
    ensures Joined(script, i, c + 1) == Joined(script, i, c) + TextOf(script[c])
    decreases c - i
  {
    if i < c {
      JoinedExtend(script, i + 1, c);
      Associate(TextOf(script[i]), Joined(script, i + 1, c), TextOf(script[c]));
    }
  }

  /** A separator in a prefix is a separator in the whole. */
  lemma ContainsExtends(data: string, more: string)
    requires Contains(data, Delim)
    ensures Contains(data + more, Delim)
  {
    var k := Find(data, Delim).value;
    assert (data + more)[k..k + |Delim|] == data[k..k + |Delim|];
    OccurrenceIsFound(data + more, Delim, k);
  }

  /** The chunked loop returns the buffer followed by the text of the reads it took. */
  lemma {:induction false} ChunkPhaseFacts(script: seq<Read>, i: nat, data: string, ignoreDecodingFailures: bool)
    requires i <= |script|
    ensures var r := ChunkPhase(script, i, data, ignoreDecodingFailures);
      r.result.Assembled? ==>
        && i < r.consumed <= |script|
        && r.result.data == data + Joined(script, i, r.consumed)
    decreases |script| - i
  {
    match Pull(script, i, ignoreDecodingFailures)
    case Closed =>
      assert Joined(script, i, i + 1) == [];
    case Failed(_) =>
    case Undecodable =>
    case Got(text, _) =>
      assert Joined(script, i + 1, i + 1) == [];
      ChunkPhaseFacts(script, i + 1, data + text, ignoreDecodingFailures);
      var r := ChunkPhase(script, i + 1, data + text, ignoreDecodingFailures);
      if r.result.Assembled? {
        Associate(data, text, Joined(script, i + 1, r.consumed));
      }
  }

  /**
   * The chunked loop stops at the first read after which the buffer ends
   * with the separator, or because the server closed; a close returns the
   * buffer rather than an error.
   */
  lemma {:induction false} ChunkPhaseEnds(script: seq<Read>, i: nat, data: string, ignoreDecodingFailures: bool)
    ensures var r := ChunkPhase(script, i, data, ignoreDecodingFailures);
      && i <= r.consumed
      && (r.result.Assembled? ==>
            EndsWith(r.result.data, Delim) || (0 < r.consumed <= |script| && IsClose(script[r.consumed - 1])))
      && (i < r.consumed <= |script| && IsClose(script[r.consumed - 1]) ==> r.result.Assembled?)
      && (forall x :: i < x < r.consumed && x <= |script| ==> !EndsWith(data + Joined(script, i, x), Delim))
    decreases |script| - i
  {
    match Pull(script, i, ignoreDecodingFailures)
    case Closed =>
    case Failed(_) =>
    case Undecodable =>
    case Got(text, _) =>
      assert Joined(script, i, i + 1) == text by {
        assert Joined(script, i + 1, i + 1) == [];
      }
      if !EndsWith(data + text, Delim) {
        ChunkPhaseEnds(script, i + 1, data + text, ignoreDecodingFailures);
        var r := ChunkPhase(script, i + 1, data + text, ignoreDecodingFailures);
        forall x | i < x < r.consumed && x <= |script|
          ensures !EndsWith(data + Joined(script, i, x), Delim)
        {
          if x > i + 1 {
            assert Joined(script, i, x) == text + Joined(script, i + 1, x);
            Associate(data, text, Joined(script, i + 1, x));
          }
        }
      }
  }

  /**
   * Reads that deliver text, none of which leaves the buffer ending with the
   * separator until read `k - 1` does, make the chunked loop return that
   * buffer after read `k - 1`.
   */
  lemma {:induction false} ChunkPhaseReaches(script: seq<Read>, i: nat, k: nat, data: string,
                                             ignoreDecodingFailures: bool)
    requires i < k <= |script|
    requires forall x :: i <= x < k ==> Delivers(script[x], ignoreDecodingFailures)
    requires forall x :: i < x < k ==> !EndsWith(data + Joined(script, i, x), Delim)
    requires EndsWith(data + Joined(script, i, k), Delim)
    ensures ChunkPhase(script, i, data, ignoreDecodingFailures) == Received(Assembled(data + Joined(script, i, k)), k)
    decreases k - i
  {
    var text := script[i].text;
    assert Pull(script, i, ignoreDecodingFailures) == Got(text, script[i].size);
    assert Joined(script, i, i + 1) == text by {
      assert Joined(script, i + 1, i + 1) == [];
    }
    if i + 1 < k {
      assert !EndsWith(data + text, Delim) by {
        assert !EndsWith(data + Joined(script, i, i + 1), Delim);
      }
      var next := i + 1;
      forall x | next < x < k
        ensures !EndsWith(data + text + Joined(script, next, x), Delim)
      {
        assert Joined(script, i, x) == text + Joined(script, next, x);
        Associate(data, text, Joined(script, next, x));
        assert !EndsWith(data + Joined(script, i, x), Delim);
      }
      assert Joined(script, i, k) == text + Joined(script, i + 1, k);
      Associate(data, text, Joined(script, i + 1, k));
      ChunkPhaseReaches(script, i + 1, k, data + text, ignoreDecodingFailures);
    }
  }

  /** The body loop returns the buffer followed by the text of the reads it took. */
  lemma {:induction false} BodyPhaseFacts(script: seq<Read>, i: nat, data: string, remain: int,
                                          ignoreDecodingFailures: bool)
    requires i <= |script|
    ensures var r := BodyPhase(script, i, data, remain, ignoreDecodingFailures);
      r.result.Assembled? ==>
        && i <= r.consumed <= |script|
        && r.result.data == data + Joined(script, i, r.consumed)
    decreases |script| - i
  {
    if remain <= 0 {
      assert data + Joined(script, i, i) == data;
    } else {
      match Pull(script, i, ignoreDecodingFailures)
      case Closed =>
        assert Joined(script, i, i + 1) == [];
      case Failed(_) =>
      case Undecodable =>
      case Got(text, size) =>
        BodyPhaseFacts(script, i + 1, data + text, remain - size, ignoreDecodingFailures);
        var r := BodyPhase(script, i + 1, data + text, remain - size, ignoreDecodingFailures);
        if r.result.Assembled? {
          Associate(data, text, Joined(script, i + 1, r.consumed));
        }
    }
  }

  /**
   * The body loop stops at the first read at which the bytes taken cover
   * `remain`, or earlier when the server closes or a read fails; a close
   * returns the buffer rather than an error.
   */
  lemma {:induction false} BodyPhaseStops(script: seq<Read>, i: nat, data: string, remain: int,
                                          ignoreDecodingFailures: bool)
    requires i <= |script|
    ensures var r := BodyPhase(script, i, data, remain, ignoreDecodingFailures);
      && i <= r.consumed <= |script|
      && (r.consumed > i ==> ByteTotal(script, i, r.consumed - 1) < remain)
      && (r.result.Assembled? ==>
            ByteTotal(script, i, r.consumed) >= remain || (r.consumed > i && IsClose(script[r.consumed - 1])))
      && (r.consumed > i && IsClose(script[r.consumed - 1]) ==> r.result.Assembled?)
    decreases |script| - i
  {
    if remain > 0 {
      match Pull(script, i, ignoreDecodingFailures)
      case Closed =>
      case Failed(_) =>
      case Undecodable =>
      case Got(text, size) =>
        BodyPhaseStops(script, i + 1, data + text, remain - size, ignoreDecodingFailures);
    }
  }

  /** Whichever loop follows the header returns the buffer followed by the text of the reads it took. */
  lemma AfterHeaderFacts(script: seq<Read>, i: nat, data: string, received: nat,
                         methodName: string, ignoreDecodingFailures: bool)
    requires i <= |script| && Contains(data, Delim)
    ensures var r := AfterHeader(script, i, data, received, methodName, ignoreDecodingFailures);
      r.result.Assembled? ==>
        && i <= r.consumed <= |script|
        && r.result.data == data + Joined(script, i, r.consumed)
  {
    if IsChunked(data) {
      if EndsWith(data, Delim) {
        assert data + Joined(script, i, i) == data;
      } else {
        ChunkPhaseFacts(script, i, data, ignoreDecodingFailures);
      }
    } else {
      BodyAfterHeaderFacts(script, i, data, received, methodName, ignoreDecodingFailures);
    }
  }

  /** The non-chunked case of `AfterHeaderFacts`: the body countdown. */
  lemma BodyAfterHeaderFacts(script: seq<Read>, i: nat, data: string, received: nat,
                             methodName: string, ignoreDecodingFailures: bool)
    requires i <= |script| && Contains(data, Delim) && !IsChunked(data)
    ensures var r := AfterHeader(script, i, data, received, methodName, ignoreDecodingFailures);
      r.result.Assembled? ==>
        && i <= r.consumed <= |script|
        && r.result.data == data + Joined(script, i, r.consumed)
  {
    var remain := ExpectedBodyLength(data, methodName) - received + HeaderLength(data);
    BodyFollowsHeader(script, i, data, received, methodName, ignoreDecodingFailures);
    BodyPhaseFacts(script, i, data, remain, ignoreDecodingFailures);
  }

  /** Splitting a run of reads splits its text. */
  lemma {:induction false} JoinedSplit(script: seq<Read>, a: nat, b: nat, c: nat)
    requires a <= b <= c <= |script|
    ensures Joined(script, a, c) == Joined(script, a, b) + Joined(script, b, c)
    decreases b - a
  {
    if a < b {
      JoinedSplit(script, a + 1, b, c);
      Associate(TextOf(script[a]), Joined(script, a + 1, b), Joined(script, b, c));
    }
  }

  /** Splitting a run of reads splits its byte count. */
  lemma {:induction false} ByteTotalSplit(script: seq<Read>, a: nat, b: nat, c: nat)
    requires a <= b <= c <= |script|
    ensures ByteTotal(script, a, c) == ByteTotal(script, a, b) + ByteTotal(script, b, c)
    decreases b - a
  {
    if a < b {
      ByteTotalSplit(script, a + 1, b, c);
    }
  }

  /** When decoding never adds characters, the bytes taken cover the text appended. */
  lemma {:induction false} BytesCoverText(script: seq<Read>, i: nat, c: nat)
    requires WellSized(script) && i <= c <= |script|
    ensures |Joined(script, i, c)| <= ByteTotal(script, i, c)
    decreases c - i
  {
    if i < c {
      BytesCoverText(script, i + 1, c);
    }
  }

  /**
   * The header loop leaves off with the buffer followed by the text of the
   * reads it took, and counts their bytes.
   */
  lemma {:induction false} HeaderPhaseHeaded(script: seq<Read>, i: nat, data: string, received: nat,
                                             ignoreDecodingFailures: bool)
    requires i <= |script|
    ensures var h := HeaderPhase(script, i, data, received, ignoreDecodingFailures);
      h.Headed? ==>
        && i <= h.next <= |script|
        && h.data == data + Joined(script, i, h.next)
        && h.received == received + ByteTotal(script, i, h.next)
    decreases |script| - i
  {
    if Contains(data, Delim) {
      assert data + Joined(script, i, i) == data;
    } else {
      var p := Pull(script, i, ignoreDecodingFailures);
      if p.Got? {
        var h := HeaderPhase(script, i + 1, data + p.text, received + p.size, ignoreDecodingFailures);
        assert HeaderPhase(script, i, data, received, ignoreDecodingFailures) == h;
        HeaderPhaseHeaded(script, i + 1, data + p.text, received + p.size, ignoreDecodingFailures);
        if h.Headed? {
          Associate(data, p.text, Joined(script, i + 1, h.next));
        }
      }
    }
  }

  /** The header loop hands on a buffer only after a read that delivered text. */
  lemma {:induction false} HeaderPhaseLastDelivers(script: seq<Read>, i: nat, data: string, received: nat,
                                                   ignoreDecodingFailures: bool)
    ensures var h := HeaderPhase(script, i, data, received, ignoreDecodingFailures);
      h.Headed? ==>
        i <= h.next && (h.next > i ==> h.next <= |script| && Delivers(script[h.next - 1], ignoreDecodingFailures))
    decreases |script| - i
  {
    if !Contains(data, Delim) {
      var p := Pull(script, i, ignoreDecodingFailures);
      if p.Got? {
        HeaderPhaseLastDelivers(script, i + 1, data + p.text, received + p.size, ignoreDecodingFailures);
      }
    }
  }

  /**
   * The header loop returns a response of its own exactly when the server
   * closed, and then it is the text read so far.
   */
  lemma {:induction false} HeaderPhaseEnded(script: seq<Read>, i: nat, data: string, received: nat,
                                            ignoreDecodingFailures: bool)
    requires i <= |script|
    ensures var h := HeaderPhase(script, i, data, received, ignoreDecodingFailures);
      && (h.Ended? ==> i <= h.outcome.consumed)
      && (h.Ended? && h.outcome.result.Assembled? ==>
            && i < h.outcome.consumed <= |script|
            && h.outcome.result.data == data + Joined(script, i, h.outcome.consumed)
            && IsClose(script[h.outcome.consumed - 1]))
      && (h.Ended? && i < h.outcome.consumed <= |script| && IsClose(script[h.outcome.consumed - 1]) ==>
            h.outcome.result.Assembled?)
    decreases |script| - i
  {
    if !Contains(data, Delim) {
      var p := Pull(script, i, ignoreDecodingFailures);
      if p.Closed? {
        assert Joined(script, i, i + 1) == [];
      } else if p.Got? {
        var h := HeaderPhase(script, i + 1, data + p.text, received + p.size, ignoreDecodingFailures);
        assert HeaderPhase(script, i, data, received, ignoreDecodingFailures) == h;
        HeaderPhaseEnded(script, i + 1, data + p.text, received + p.size, ignoreDecodingFailures);
        if h.Ended? && h.outcome.result.Assembled? {
          Associate(data, p.text, Joined(script, i + 1, h.outcome.consumed));
        }
      }
    }
  }

  /**
   * A returned response is exactly the text of the reads consumed, in order,
   * and holds the header/body separator unless the server closed the
   * connection before sending one.
   */
  lemma AssembledResponse(script: seq<Read>, methodName: string, ignoreDecodingFailures: bool)
    ensures var r := Assemble(script, methodName, ignoreDecodingFailures);
      r.result.Assembled? ==>
        && r.consumed <= |script|
        && r.result.data == Joined(script, 0, r.consumed)
        && (Contains(r.result.data, Delim) || (r.consumed > 0 && IsClose(script[r.consumed - 1])))
  {
    HeaderPhaseHeaded(script, 0, "", 0, ignoreDecodingFailures);
    HeaderPhaseEnded(script, 0, "", 0, ignoreDecodingFailures);
    var r := Assemble(script, methodName, ignoreDecodingFailures);
    match HeaderPhase(script, 0, "", 0, ignoreDecodingFailures)
    case Ended(e) =>
      if r.result.Assembled? {
        assert "" + Joined(script, 0, r.consumed) == Joined(script, 0, r.consumed);
      }
    case Headed(n, d, rec) =>
      AfterHeaderFacts(script, n, d, rec, methodName, ignoreDecodingFailures);
      if r.result.Assembled? {
        assert d == Joined(script, 0, n) by {
          assert "" + Joined(script, 0, n) == Joined(script, 0, n);
        }
        JoinedSplit(script, 0, n, r.consumed);
        ContainsExtends(d, Joined(script, n, r.consumed));
      }
  }

  /**
   * A zero-length read in any phase ends the receive without an error: the
   * response is the text of every read before it, in order.
   */
  lemma CloseReturnsResponse(script: seq<Read>, methodName: string, ignoreDecodingFailures: bool)
    ensures var r := Assemble(script, methodName, ignoreDecodingFailures);
      0 < r.consumed <= |script| && IsClose(script[r.consumed - 1]) ==>
        r.result == Assembled(Joined(script, 0, r.consumed))
  {
    var r := Assemble(script, methodName, ignoreDecodingFailures);
    if 0 < r.consumed <= |script| && IsClose(script[r.consumed - 1]) {
      assert r.result.Assembled? by {
        CloseIsAssembled(script, methodName, ignoreDecodingFailures);
      }
      AssembledResponse(script, methodName, ignoreDecodingFailures);
    }
  }

  /** A receive that ends on a close ends without an error. */
  lemma CloseIsAssembled(script: seq<Read>, methodName: string, ignoreDecodingFailures: bool)
    ensures var r := Assemble(script, methodName, ignoreDecodingFailures);
      0 < r.consumed <= |script| && IsClose(script[r.consumed - 1]) ==> r.result.Assembled?
  {
    HeaderPhaseLastDelivers(script, 0, "", 0, ignoreDecodingFailures);
    HeaderPhaseEnded(script, 0, "", 0, ignoreDecodingFailures);
    var h := HeaderPhase(script, 0, "", 0, ignoreDecodingFailures);
    if h.Headed? {
      assert h.next > 0 by {
        HeaderPhaseHeaded(script, 0, "", 0, ignoreDecodingFailures);
        assert !Contains("", Delim) by {
          assert Find("", Delim) == None;
        }
      }
      AssembleAfterHeader(script, methodName, ignoreDecodingFailures);
      AfterHeaderClose(script, h.next, h.data, h.received, methodName, ignoreDecodingFailures);
    }
  }

  /** After a header that ended with a delivering read, a close ends the receive with the buffer. */
  lemma AfterHeaderClose(script: seq<Read>, n: nat, d: string, received: nat,
                         methodName: string, ignoreDecodingFailures: bool)
    requires 0 < n <= |script| && Contains(d, Delim) && Delivers(script[n - 1], ignoreDecodingFailures)
    ensures var r := AfterHeader(script, n, d, received, methodName, ignoreDecodingFailures);
      n <= r.consumed && (r.consumed <= |script| && IsClose(script[r.consumed - 1]) ==> r.result.Assembled?)
  {
    if IsChunked(d) {
      if !EndsWith(d, Delim) {
        ChunksFollowHeader(script, n, d, received, methodName, ignoreDecodingFailures);
        ChunkPhaseEnds(script, n, d, ignoreDecodingFailures);
      }
    } else {
      BodyFollowsHeader(script, n, d, received, methodName, ignoreDecodingFailures);
      BodyPhaseStops(script, n, d, ExpectedBodyLength(d, methodName) - received + HeaderLength(d),
                     ignoreDecodingFailures);
    }
  }

  /** A non-empty read whose bytes do not decode, while decoding failures are not ignored. */
  predicate FailsToDecode(r: Read, ignoreDecodingFailures: bool)
  {
    r.Bytes? && r.size > 0 && r.invalid && !ignoreDecodingFailures
  }

  /**
   * How a receive that started at read `i` fails, judged by the last read it
   * consumed: a raised read gives its wrapped text, a read that cannot be
   * decoded gives the decoding error, and a read past the end of the script
   * gives the timeout; no other read ends it with an error.
   */
  predicate ErrorsFromReads(script: seq<Read>, i: nat, r: Received, ignoreDecodingFailures: bool)
  {
    && i <= r.consumed
    && (i < r.consumed <= |script| && script[r.consumed - 1].Raised? ==>
          r.result == ReadFailed("Exception: " + script[r.consumed - 1].error))
    && (i < r.consumed <= |script| && FailsToDecode(script[r.consumed - 1], ignoreDecodingFailures) ==>
          r.result == DecodeFailed)
    && (r.result.ReadFailed? ==>
          || (i < r.consumed <= |script| && script[r.consumed - 1].Raised?)
          || (r.consumed == |script| && r.result.message == TimeoutMessage))
    && (r.result.DecodeFailed? ==>
          i < r.consumed <= |script| && FailsToDecode(script[r.consumed - 1], ignoreDecodingFailures))
  }

  /** The header loop fails exactly as its last read says. */
  lemma {:induction false} HeaderPhaseErrors(script: seq<Read>, i: nat, data: string, received: nat,
                                             ignoreDecodingFailures: bool)
    requires i <= |script|
    ensures var h := HeaderPhase(script, i, data, received, ignoreDecodingFailures);
      h.Ended? ==> ErrorsFromReads(script, i, h.outcome, ignoreDecodingFailures)
    decreases |script| - i
  {
    if !Contains(data, Delim) {
      var p := Pull(script, i, ignoreDecodingFailures);
      if p.Got? {
        HeaderPhaseErrors(script, i + 1, data + p.text, received + p.size, ignoreDecodingFailures);
      }
    }
  }

  /** The chunked loop fails exactly as its last read says. */
  lemma {:induction false} ChunkPhaseErrors(script: seq<Read>, i: nat, data: string, ignoreDecodingFailures: bool)
    requires i <= |script|
    ensures ErrorsFromReads(script, i, ChunkPhase(script, i, data, ignoreDecodingFailures), ignoreDecodingFailures)
    decreases |script| - i
  {
    match Pull(script, i, ignoreDecodingFailures)
    case Closed =>
    case Failed(_) =>
    case Undecodable =>
    case Got(text, _) =>
      if !EndsWith(data + text, Delim) {
        ChunkPhaseErrors(script, i + 1, data + text, ignoreDecodingFailures);
      }
  }

  /** The body loop fails exactly as its last read says. */
  lemma {:induction false} BodyPhaseErrors(script: seq<Read>, i: nat, data: string, remain: int,
                                           ignoreDecodingFailures: bool)
    requires i <= |script|
    ensures ErrorsFromReads(script, i, BodyPhase(script, i, data, remain, ignoreDecodingFailures),
                            ignoreDecodingFailures)
    decreases |script| - i
  {
    if remain > 0 {
      match Pull(script, i, ignoreDecodingFailures)
      case Closed =>
      case Failed(_) =>
      case Undecodable =>
      case Got(text, size) =>
        BodyPhaseErrors(script, i + 1, data + text, remain - size, ignoreDecodingFailures);
    }
  }

  /** A loop that starts right after a delivering read fails as the whole receive would say. */
  lemma ErrorsFromEarlier(script: seq<Read>, n: nat, r: Received, ignoreDecodingFailures: bool)
    requires 0 < n <= |script| && Delivers(script[n - 1], ignoreDecodingFailures)
    requires ErrorsFromReads(script, n, r, ignoreDecodingFailures)
    ensures ErrorsFromReads(script, 0, r, ignoreDecodingFailures)
  {
  }

  /**
   * The whole receive fails exactly as the last read it consumed says: a
   * raised read gives `Exception: ` and its text (a TransportLayerException),
   * an undecodable read gives the decoding error, a read past the script's
   * end gives the timeout, and nothing else gives an error.
   */
  lemma ReceiveErrors(script: seq<Read>, methodName: string, ignoreDecodingFailures: bool)
    ensures ErrorsFromReads(script, 0, Assemble(script, methodName, ignoreDecodingFailures), ignoreDecodingFailures)
  {
    HeaderPhaseErrors(script, 0, "", 0, ignoreDecodingFailures);
    var h := HeaderPhase(script, 0, "", 0, ignoreDecodingFailures);
    if h.Headed? {
      HeaderPhaseLastDelivers(script, 0, "", 0, ignoreDecodingFailures);
      HeaderPhaseHeaded(script, 0, "", 0, ignoreDecodingFailures);
      assert h.next > 0 by {
        assert !Contains("", Delim) by {
          assert Find("", Delim) == None;
        }
      }
      AssembleAfterHeader(script, methodName, ignoreDecodingFailures);
      AfterHeaderErrors(script, h.next, h.data, h.received, methodName, ignoreDecodingFailures);
      ErrorsFromEarlier(script, h.next,
                        AfterHeader(script, h.next, h.data, h.received, methodName, ignoreDecodingFailures),
                        ignoreDecodingFailures);
    }
  }

  /** Whichever loop follows the header fails exactly as its last read says. */
  lemma AfterHeaderErrors(script: seq<Read>, n: nat, d: string, received: nat,
                          methodName: string, ignoreDecodingFailures: bool)
    requires n <= |script| && Contains(d, Delim)
    ensures ErrorsFromReads(script, n, AfterHeader(script, n, d, received, methodName, ignoreDecodingFailures),
                            ignoreDecodingFailures)
  {
    if IsChunked(d) {
      if !EndsWith(d, Delim) {
        ChunksFollowHeader(script, n, d, received, methodName, ignoreDecodingFailures);
        ChunkPhaseErrors(script, n, d, ignoreDecodingFailures);
      }
    } else {
      BodyFollowsHeader(script, n, d, received, methodName, ignoreDecodingFailures);
      BodyPhaseErrors(script, n, d, ExpectedBodyLength(d, methodName) - received + HeaderLength(d),
                      ignoreDecodingFailures);
    }
  }

  /** Reads that bring no separator keep the header loop going until the one that does. */
  lemma {:induction false} HeaderReaches(script: seq<Read>, j: nat, k: nat, ignoreDecodingFailures: bool)
    requires j <= k <= |script|
    requires forall x :: j <= x < k ==> Delivers(script[x], ignoreDecodingFailures)
    requires forall x :: j <= x < k ==> !Contains(Joined(script, 0, x), Delim)
    requires Contains(Joined(script, 0, k), Delim)
    ensures HeaderPhase(script, j, Joined(script, 0, j), ByteTotal(script, 0, j), ignoreDecodingFailures)
            == Headed(k, Joined(script, 0, k), ByteTotal(script, 0, k))
    decreases k - j
  {
    if j < k {
      assert Pull(script, j, ignoreDecodingFailures) == Got(script[j].text, script[j].size);
      JoinedExtend(script, 0, j);
      ByteTotalSplit(script, 0, j, j + 1);
      HeaderReaches(script, j + 1, k, ignoreDecodingFailures);
    }
  }

  /**
   * A 204 or 304 response, or any response to HEAD, is returned as soon as
   * the buffer holds the separator: whatever the script holds after that read
   * is never asked for.
   */
  lemma NoBodyStopsAtHeader(script: seq<Read>, k: nat, methodName: string, ignoreDecodingFailures: bool)
    requires WellSized(script) && k <= |script|
    requires forall x :: 0 <= x < k ==> Delivers(script[x], ignoreDecodingFailures)
    requires forall x :: 0 <= x < k ==> !Contains(Joined(script, 0, x), Delim)
    requires Contains(Joined(script, 0, k), Delim) && !IsChunked(Joined(script, 0, k))
    requires HasNoBodyStatus(Joined(script, 0, k)) || ToUpper(methodName) == "HEAD"
    ensures Assemble(script, methodName, ignoreDecodingFailures) == Received(Assembled(Joined(script, 0, k)), k)
  {
    var d := Joined(script, 0, k);
    HeaderReaches(script, 0, k, ignoreDecodingFailures);
    BytesCoverText(script, 0, k);
    BodyFollowsHeader(script, k, d, ByteTotal(script, 0, k), methodName, ignoreDecodingFailures);
  }

  /**
   * A chunked response that arrives whole in the first read, ending with the
   * separator, is returned without a second read.
   */
  lemma SingleChunkResponse(script: seq<Read>, methodName: string, ignoreDecodingFailures: bool)
    requires |script| > 0 && Delivers(script[0], ignoreDecodingFailures)
    requires IsChunked(script[0].text) && EndsWith(script[0].text, Delim)
    ensures Assemble(script, methodName, ignoreDecodingFailures) == Received(Assembled(script[0].text), 1)
  {
    var t := script[0].text;
    assert !Contains("", Delim) by {
      assert Find("", Delim) == None;
    }
    assert Contains(t, Delim) by {
      assert OccursAt(t, Delim, |t| - |Delim|);
      OccurrenceIsFound(t, Delim, |t| - |Delim|);
    }
    assert Joined(script, 0, 1) == t by {
      assert t + [] == t;
    }
    HeaderReaches(script, 0, 1, ignoreDecodingFailures);
    AssembleAfterHeader(script, methodName, ignoreDecodingFailures);
    ChunkedHeaderDone(script, 1, t, script[0].size, methodName, ignoreDecodingFailures);
  }

  /**
   * A chunked response ends with the separator, unless the server closed
   * the connection first.
   */
  lemma ChunkedResponseEnds(script: seq<Read>, methodName: string, ignoreDecodingFailures: bool)
    ensures var h := HeaderPhase(script, 0, "", 0, ignoreDecodingFailures);
      var r := Assemble(script, methodName, ignoreDecodingFailures);
      h.Headed? && IsChunked(h.data) && r.result.Assembled? ==>
        EndsWith(r.result.data, Delim) || (0 < r.consumed <= |script| && IsClose(script[r.consumed - 1]))
  {
    var h := HeaderPhase(script, 0, "", 0, ignoreDecodingFailures);
    if h.Headed? && IsChunked(h.data) && !EndsWith(h.data, Delim) {
      ChunkPhaseEnds(script, h.next, h.data, ignoreDecodingFailures);
    }
  }

  /**
   * The body countdown from read `n` ended in `r` with `want` bytes in view:
   * it stopped at the first read that brought the total to `want`, or
   * earlier only because the server closed, and a close returned the buffer.
   */
  predicate Countdown(script: seq<Read>, n: nat, r: Received, want: int)
  {
    && n <= r.consumed <= |script|
    && (r.consumed > n ==> ByteTotal(script, 0, r.consumed - 1) < want)
    && (r.result.Assembled? ==>
          ByteTotal(script, 0, r.consumed) >= want || (r.consumed > n && IsClose(script[r.consumed - 1])))
    && (r.consumed > n && IsClose(script[r.consumed - 1]) ==> r.result.Assembled?)
  }

  /**
   * The body countdown, in bytes taken since the start of the receive: it
   * stops at the first read at which they cover `want`, or earlier when the
   * server closes (returning the buffer) or a read fails.
   */
  lemma BodyCountdown(script: seq<Read>, n: nat, data: string, want: int, ignoreDecodingFailures: bool)
    requires n <= |script|
    ensures Countdown(script, n, BodyPhase(script, n, data, want - ByteTotal(script, 0, n), ignoreDecodingFailures), want)
  {
    var remain := want - ByteTotal(script, 0, n);
    BodyPhaseStops(script, n, data, remain, ignoreDecodingFailures);
    var r := BodyPhase(script, n, data, remain, ignoreDecodingFailures);
    if r.consumed > n {
      ByteTotalSplit(script, 0, n, r.consumed - 1);
    }
    ByteTotalSplit(script, 0, n, r.consumed);
  }

  /**
   * Without the chunked coding, a body is awaited for every response but a
   * 204 or 304 one and every request but HEAD: the receive reads on until
   * the bytes received reach the header's characters plus the announced
   * Content-Length, or the server closes.
   */
  lemma DeclaredBodyAwaited(script: seq<Read>, k: nat, methodName: string, ignoreDecodingFailures: bool)
    requires k <= |script|
    requires forall x :: 0 <= x < k ==> Delivers(script[x], ignoreDecodingFailures)
    requires forall x :: 0 <= x < k ==> !Contains(Joined(script, 0, x), Delim)
    requires Contains(Joined(script, 0, k), Delim) && !IsChunked(Joined(script, 0, k))
    requires !HasNoBodyStatus(Joined(script, 0, k)) && ToUpper(methodName) != "HEAD"
    ensures var d := DeclaredLength(ToLower(Joined(script, 0, k)));
      d.Some? ==> Countdown(script, k, Assemble(script, methodName, ignoreDecodingFailures),
                            HeaderLength(Joined(script, 0, k)) + d.value)
  {
    HeaderEndsAt(script, k, ignoreDecodingFailures);
    AwaitedLength(Joined(script, 0, k), methodName);
    AssembleCountsDown(script, k, methodName, ignoreDecodingFailures);
  }

  /** Without a readable Content-Length the receive waits for 2**20 body bytes, or for the server to close. */
  lemma FallbackBodyAwaited(script: seq<Read>, k: nat, methodName: string, ignoreDecodingFailures: bool)
    requires k <= |script|
    requires forall x :: 0 <= x < k ==> Delivers(script[x], ignoreDecodingFailures)
    requires forall x :: 0 <= x < k ==> !Contains(Joined(script, 0, x), Delim)
    requires Contains(Joined(script, 0, k), Delim) && !IsChunked(Joined(script, 0, k))
    requires !HasNoBodyStatus(Joined(script, 0, k)) && ToUpper(methodName) != "HEAD"
    requires DeclaredLength(ToLower(Joined(script, 0, k))).None?
    ensures var r := Assemble(script, methodName, ignoreDecodingFailures);
      Countdown(script, k, r, HeaderLength(Joined(script, 0, k)) + FallbackLength)
  {
    HeaderEndsAt(script, k, ignoreDecodingFailures);
    AwaitedLength(Joined(script, 0, k), methodName);
    AssembleCountsDown(script, k, methodName, ignoreDecodingFailures);
  }

  /** Outside the no-body cases the awaited length is the announced one, or the fallback. */
  lemma AwaitedLength(d: string, methodName: string)
    requires !HasNoBodyStatus(d) && ToUpper(methodName) != "HEAD"
    ensures DeclaredLength(ToLower(d)).Some? ==> ExpectedBodyLength(d, methodName) == DeclaredLength(ToLower(d)).value
    ensures DeclaredLength(ToLower(d)).None? ==> ExpectedBodyLength(d, methodName) == FallbackLength
  {
  }

  /** Reads that deliver text and complete the header exactly at read `k` end the header loop there. */
  lemma HeaderEndsAt(script: seq<Read>, k: nat, ignoreDecodingFailures: bool)
    requires k <= |script|
    requires forall x :: 0 <= x < k ==> Delivers(script[x], ignoreDecodingFailures)
    requires forall x :: 0 <= x < k ==> !Contains(Joined(script, 0, x), Delim)
    requires Contains(Joined(script, 0, k), Delim)
    ensures HeaderPhase(script, 0, "", 0, ignoreDecodingFailures)
            == Headed(k, Joined(script, 0, k), ByteTotal(script, 0, k))
  {
    HeaderReaches(script, 0, k, ignoreDecodingFailures);
  }

  /** Once the header is complete at read `k`, a non-chunked receive counts down the awaited bytes. */
  lemma AssembleCountsDown(script: seq<Read>, k: nat, methodName: string, ignoreDecodingFailures: bool)
    requires k <= |script| && Contains(Joined(script, 0, k), Delim) && !IsChunked(Joined(script, 0, k))
    requires HeaderPhase(script, 0, "", 0, ignoreDecodingFailures)
             == Headed(k, Joined(script, 0, k), ByteTotal(script, 0, k))
    ensures var d := Joined(script, 0, k);
      Countdown(script, k, Assemble(script, methodName, ignoreDecodingFailures),
                HeaderLength(d) + ExpectedBodyLength(d, methodName))
  {
    var d := Joined(script, 0, k);
    HeaderLeadsToCountdown(script, k, methodName, ignoreDecodingFailures);
    CountdownOf(script, k, Assemble(script, methodName, ignoreDecodingFailures), d,
                HeaderLength(d) + ExpectedBodyLength(d, methodName), ignoreDecodingFailures);
  }

  /** Whatever equals the body countdown from read `k` counts down to `want`. */
  lemma CountdownOf(script: seq<Read>, k: nat, r: Received, data: string, want: int, ignoreDecodingFailures: bool)
    requires k <= |script|
    requires r == BodyPhase(script, k, data, want - ByteTotal(script, 0, k), ignoreDecodingFailures)
    ensures Countdown(script, k, r, want)
  {
    BodyCountdown(script, k, data, want, ignoreDecodingFailures);
  }

  /** Once the header is complete at read `k`, a non-chunked receive is the body countdown from there. */
  lemma HeaderLeadsToCountdown(script: seq<Read>, k: nat, methodName: string, ignoreDecodingFailures: bool)
    requires k <= |script| && Contains(Joined(script, 0, k), Delim) && !IsChunked(Joined(script, 0, k))
    requires HeaderPhase(script, 0, "", 0, ignoreDecodingFailures)
             == Headed(k, Joined(script, 0, k), ByteTotal(script, 0, k))
    ensures var d := Joined(script, 0, k);
      Assemble(script, methodName, ignoreDecodingFailures)
      == BodyPhase(script, k, d, HeaderLength(d) + ExpectedBodyLength(d, methodName) - ByteTotal(script, 0, k),
                   ignoreDecodingFailures)
  {
    var d := Joined(script, 0, k);
    AssembleAfterHeader(script, methodName, ignoreDecodingFailures);
    BodyFollowsHeader(script, k, d, ByteTotal(script, 0, k), methodName, ignoreDecodingFailures);
  }
}
