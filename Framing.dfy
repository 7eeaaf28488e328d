/**
 * Outgoing message framing, the first half of `HttpRawSock._sendRequest`:
 * a `Content-Length` line is inserted just before the first header/body
 * separator unless the text `Content-Length: ` already occurs anywhere in the
 * message, and then, when the connection settings ask for it, a `User-Agent`
 * line. Finding the separator uses `message.index`, which raises ValueError
 * when there is none; that is the `None` result here.
 */
module Framing {
  import opened Wrappers
  import opened Text
  import opened Http
  import opened Slicing

  /** The header whose presence (anywhere, body included) suppresses insertion. */
  const LengthHeader: string := "Content-Length: "

  /** The start of the inserted User-Agent line; the product version follows. */
  const AgentPrefix: string := "User-Agent: restler/"

  predicate NoLineBreak(s: string)
  {
    forall i :: 0 <= i < |s| ==> s[i] != '\r' && s[i] != '\n'
  }

  /** The line `_sendRequest` inserts for a body of `n` characters. */
  function LengthLine(n: nat): string
  {
    LengthHeader + NatToDecimal(n)
  }

  /** The line `_sendRequest` inserts when the user agent is included. */
  function AgentLine(version: string): string
  {
    AgentPrefix + version
  }

  /**
   * `_append_to_header`: the header up to the first separator, a line break,
   * `content`, the separator and the rest of the message; None where
   * `message.index(DELIM)` raises.
   */
  function AppendToHeader(m: string, content: string): (r: Option<string>)
    ensures r.None? <==> !Contains(m, Delim)
  {
    match Find(m, Delim)
    case None => None
    case Some(e) => Some(m[..e] + "\r\n" + content + Delim + m[e + |Delim|..])
  }

  /** The appended message still holds a separator. */
  lemma AppendedKeepsSeparator(m: string, content: string)
    requires Contains(m, Delim)
    ensures Contains(AppendToHeader(m, content).value, Delim)
  {
    var e := Find(m, Delim).value;
    var r := AppendToHeader(m, content).value;
    assert OccursAt(r, Delim, e + 2 + |content|) by {
      assert r[e + 2 + |content|..e + 2 + |content| + |Delim|] == Delim;
    }
    OccurrenceIsFound(r, Delim, e + 2 + |content|);
  }

  /** Appending a line puts a line break and the line in front of the first separator. */
  lemma AppendedLine(m: string, e: nat, content: string)
    requires Find(m, Delim) == Some(e)
    ensures AppendToHeader(m, content) == Some(m[..e] + ("\r\n" + content) + m[e..])
  {
    assert m[e..] == Delim + m[e + |Delim|..] by {
      assert m[e..e + |Delim|] == Delim;
    }
    assert m[..e] + "\r\n" + content + Delim + m[e + |Delim|..]
           == m[..e] + ("\r\n" + content) + (Delim + m[e + |Delim|..]);
  }

  /** A window lying wholly in the old header is no separator, since the old separator was the first. */
  lemma WindowInHeader(m: string, e: nat, s: string, j: nat)
    requires Find(m, Delim) == Some(e) && j + |Delim| <= e
    requires |s| >= e && s[..e] == m[..e]
    ensures !OccursAt(s, Delim, j)
  {
    FindFirst(m, Delim);
    assert !OccursAt(m, Delim, j);
    assert s[j..j + |Delim|] == s[..e][j..j + |Delim|];
    assert m[j..j + |Delim|] == m[..e][j..j + |Delim|];
  }

  /**
   * The window ending with the inserted line break reads like the window of
   * `m` ending with the first two characters of its separator, which is no
   * separator either.
   */
  lemma WindowAtLineBreak(m: string, e: nat, s: string, j: nat)
    requires Find(m, Delim) == Some(e) && j + 2 == e
    requires |s| >= e + 2 && s[..e] == m[..e] && s[e] == '\r' && s[e + 1] == '\n'
    ensures !OccursAt(s, Delim, j)
  {
    FindFirst(m, Delim);
    assert !OccursAt(m, Delim, j);
    assert OccursAt(m, Delim, e);
    assert m[e] == '\r' && m[e + 1] == '\n' by {
      assert m[e..e + |Delim|][0] == m[e] && m[e..e + |Delim|][1] == m[e + 1];
    }
    assert s[j] == m[j] && s[j + 1] == m[j + 1];
    assert s[j..j + |Delim|] == m[j..j + |Delim|];
  }

  /** A window with one character that differs from the separator's is no separator. */
  lemma WindowMismatch(s: string, j: nat, x: nat)
    requires j <= x < j + |Delim| && x < |s| && s[x] != Delim[x - j]
    ensures !OccursAt(s, Delim, j)
  {
    if j + |Delim| <= |s| {
      assert s[j..j + |Delim|][x - j] == s[x];
    }
  }

  /**
   * A line break and a line without line breaks, put in front of the first
   * separator, cannot form an earlier separator: the old separator is still
   * the first one.
   */
  lemma SeparatorStaysFirst(m: string, e: nat, content: string)
    requires Find(m, Delim) == Some(e) && NoLineBreak(content) && |content| > 0
    ensures Find(m[..e] + ("\r\n" + content) + m[e..], Delim) == Some(e + 2 + |content|)
  {
    var s := m[..e] + ("\r\n" + content) + m[e..];
    var p := e + 2 + |content|;
    assert OccursAt(s, Delim, p) by {
      assert OccursAt(m, Delim, e);
      assert s[p..] == m[e..];
      assert s[p..p + |Delim|] == m[e..e + |Delim|];
    }
    assert s[..e] == m[..e] && s[e] == '\r' && s[e + 1] == '\n';
    forall j: nat | j < p ensures !OccursAt(s, Delim, j) {
      if j + |Delim| <= e {
        WindowInHeader(m, e, s, j);
      } else if j + 2 == e {
        WindowAtLineBreak(m, e, s, j);
      } else if j + 3 == e {
        WindowMismatch(s, j, e);
      } else {
        // the window covers a character of the inserted line
        var x := if j >= e + 2 then j else e + 2;
        assert s[x] == content[x - e - 2];
        WindowMismatch(s, j, x);
      }
    }
    FindIsFirst(s, Delim, p);
  }

  lemma LengthLineIsOneLine(n: nat)
    ensures NoLineBreak(LengthLine(n)) && |LengthLine(n)| > 0
  {
    var d := NatToDecimal(n);
    assert forall i :: 0 <= i < |d| ==> IsDigit(d[i]);
  }

  /** The Content-Length step: nothing when the text occurs anywhere, else the body's character count. */
  function AddContentLength(m: string): (r: Option<string>)
  {
    if Contains(m, LengthHeader) then Some(m)
    else match Find(m, Delim)
      case None => None
      case Some(e) => AppendToHeader(m, LengthLine(|m| - (e + |Delim|)))
  }

  /** The User-Agent step, taken only when the connection settings include the user agent. */
  function AddUserAgent(m: string, includeUserAgent: bool, version: string): (r: Option<string>)
  {
    if includeUserAgent then AppendToHeader(m, AgentLine(version)) else Some(m)
  }

  /**
   * The bytes `_sendRequest` hands to the socket for `m`. It fails (ValueError,
   * before anything is sent) exactly when there is no separator and some
   * step needs one.
   */
  function FrameRequest(m: string, includeUserAgent: bool, version: string): (r: Option<string>)
    ensures r.None? <==> !Contains(m, Delim) && (!Contains(m, LengthHeader) || includeUserAgent)
  {
    match AddContentLength(m)
    case None => None
    case Some(m1) =>
      ContentLengthStepKeepsSeparator(m);
      AddUserAgent(m1, includeUserAgent, version)
  }

  /** The Content-Length step keeps a separator exactly when there was one. */
  lemma ContentLengthStepKeepsSeparator(m: string)
    requires AddContentLength(m).Some?
    ensures Contains(AddContentLength(m).value, Delim) <==> Contains(m, Delim)
  {
    if !Contains(m, LengthHeader) {
      AppendedKeepsSeparator(m, LengthLine(|m| - (Find(m, Delim).value + |Delim|)));
    }
  }

  /** What the Content-Length step adds in front of the separator of `m`. */
  function InsertedLength(m: string): string
    requires Contains(m, Delim)
  {
    if Contains(m, LengthHeader) then []
    else "\r\n" + LengthLine(|m| - (Find(m, Delim).value + |Delim|))
  }

  /** What the User-Agent step adds in front of the separator. */
  function InsertedAgent(includeUserAgent: bool, version: string): string
  {
    if includeUserAgent then "\r\n" + AgentLine(version) else []
  }

  /** Without a `Content-Length: ` anywhere, the Content-Length step inserts a line break and the length line. */
  lemma LengthLineInserted(m: string, e: nat)
    requires Find(m, Delim) == Some(e) && !Contains(m, LengthHeader)
    ensures var line := LengthLine(|m| - (e + |Delim|));
      && InsertedLength(m) == "\r\n" + line
      && AddContentLength(m) == Some(m[..e] + ("\r\n" + line) + m[e..])
  {
    var line := LengthLine(|m| - (e + |Delim|));
    AppendedLine(m, e, line);
    assert AddContentLength(m) == AppendToHeader(m, line);
  }

  /** The Content-Length step inserts its line, if any, in front of the separator at `e`. */
  lemma ContentLengthStep(m: string, e: nat)
    requires Find(m, Delim) == Some(e)
    ensures AddContentLength(m) == Some(m[..e] + InsertedLength(m) + m[e..])
  {
    if !Contains(m, LengthHeader) {
      LengthLineInserted(m, e);
    } else {
      assert m[..e] + [] + m[e..] == m;
    }
  }

  /** After the Content-Length step the separator is still the first one, moved past the inserted line. */
  lemma ContentLengthKeepsSeparator(m: string, e: nat)
    requires Find(m, Delim) == Some(e)
    ensures AddContentLength(m).Some?
    ensures Find(AddContentLength(m).value, Delim) == Some(e + |InsertedLength(m)|)
  {
    ContentLengthStep(m, e);
    LengthInsertionKeepsSeparator(m, e);
  }

  /** Inserting what the Content-Length step adds keeps the separator first. */
  lemma LengthInsertionKeepsSeparator(m: string, e: nat)
    requires Find(m, Delim) == Some(e)
    ensures SeparatorMoved(m, e, m[..e] + InsertedLength(m) + m[e..], e + |InsertedLength(m)|)
  {
    InsertedLengthIsInsertion(m);
    InsertionKeepsSeparator(m, e, InsertedLength(m));
  }

  /** The User-Agent step inserts its line, if due, in front of the separator at `e`. */
  lemma UserAgentStep(m: string, e: nat, includeUserAgent: bool, version: string)
    requires Find(m, Delim) == Some(e)
    ensures AddUserAgent(m, includeUserAgent, version)
      == Some(m[..e] + InsertedAgent(includeUserAgent, version) + m[e..])
  {
    if includeUserAgent {
      AppendedLine(m, e, AgentLine(version));
    } else {
      assert m[..e] + [] + m[e..] == m;
    }
  }

  /** What follows an insertion at `e` is what followed `e` before. */
  lemma InsertionKeepsRest(m: string, e: nat, inserted: string)
    requires e + |Delim| <= |m|
    ensures (m[..e] + inserted + m[e..])[e + |inserted|..] == m[e..]
    ensures (m[..e] + inserted + m[e..])[e + |inserted| + |Delim|..] == m[e + |Delim|..]
  {
  }

  /**
   * `f` is `m` with lines inserted in front of its first separator: the first
   * separator of `f` is at `e2` where that of `m` is at `e`, and what follows
   * it is the same.
   */
  predicate SeparatorMoved(m: string, e: nat, f: string, e2: nat)
  {
    && Find(m, Delim) == Some(e)
    && Find(f, Delim) == Some(e2)
    && e + |Delim| <= |m|
    && e2 + |Delim| <= |f|
    && f[e2 + |Delim|..] == m[e + |Delim|..]
  }

  /** Two insertions in a row move the separator by both. */
  lemma SeparatorMovedTwice(m: string, e: nat, m1: string, e1: nat, f: string, e2: nat)
    requires SeparatorMoved(m, e, m1, e1) && SeparatorMoved(m1, e1, f, e2)
    ensures SeparatorMoved(m, e, f, e2)
  {
  }

  /** What framing may put in front of the separator: nothing, or a line break and a non-empty line. */
  predicate IsInsertion(x: string)
  {
    x == [] || (|x| > 2 && x[..2] == "\r\n" && NoLineBreak(x[2..]))
  }

  /** An insertion in front of the first separator keeps it first and keeps what follows it. */
  lemma InsertionKeepsSeparator(m: string, e: nat, x: string)
    requires Find(m, Delim) == Some(e) && IsInsertion(x)
    ensures SeparatorMoved(m, e, m[..e] + x + m[e..], e + |x|)
  {
    assert OccursAt(m, Delim, e);
    InsertionKeepsRest(m, e, x);
    if x == [] {
      assert m[..e] + x + m[e..] == m;
    } else {
      assert x == "\r\n" + x[2..];
      SeparatorStaysFirst(m, e, x[2..]);
    }
  }

  /** Two insertions in a row, the second right after the first, keep the separator first too. */
  lemma TwoInsertionsKeepSeparator(m: string, e: nat, a: string, b: string)
    requires Find(m, Delim) == Some(e) && IsInsertion(a) && IsInsertion(b)
    ensures SeparatorMoved(m, e, m[..e] + a + b + m[e..], e + |a| + |b|)
  {
    InsertionKeepsSeparator(m, e, a);
    var m1 := m[..e] + a + m[e..];
    InsertionKeepsSeparator(m1, e + |a|, b);
    assert m1[..e + |a|] + b + m1[e + |a|..] == m[..e] + a + b + m[e..] by {
      assert m1[..e + |a|] == m[..e] + a;
      assert m1[e + |a|..] == m[e..];
    }
    SeparatorMovedTwice(m, e, m1, e + |a|, m[..e] + a + b + m[e..], e + |a| + |b|);
  }

  /** The Content-Length step inserts nothing or one line. */
  lemma InsertedLengthIsInsertion(m: string)
    requires Contains(m, Delim)
    ensures IsInsertion(InsertedLength(m))
  {
    if !Contains(m, LengthHeader) {
      var line := LengthLine(|m| - (Find(m, Delim).value + |Delim|));
      LengthLineIsOneLine(|m| - (Find(m, Delim).value + |Delim|));
      assert ("\r\n" + line)[2..] == line;
    }
  }

  /** The User-Agent step inserts nothing or one line, given a version without line breaks. */
  lemma InsertedAgentIsInsertion(includeUserAgent: bool, version: string)
    requires includeUserAgent ==> NoLineBreak(version)
    ensures IsInsertion(InsertedAgent(includeUserAgent, version))
  {
    if includeUserAgent {
      var line := AgentLine(version);
      assert NoLineBreak(line) by {
        assert forall i :: 0 <= i < |AgentPrefix| ==> line[i] == AgentPrefix[i];
        assert forall i :: 0 <= i < |version| ==> line[|AgentPrefix| + i] == version[i];
      }
      assert ("\r\n" + line)[2..] == line;
    }
  }

  /**
   * The framed message is the original header, the inserted lines (Content-Length
   * first, User-Agent second, each only when due) and the original separator and
   * body, untouched.
   */
  lemma FramedLayout(m: string, includeUserAgent: bool, version: string)
    requires Contains(m, Delim)
    ensures var e := Find(m, Delim).value;
      FrameRequest(m, includeUserAgent, version)
        == Some(m[..e] + InsertedLength(m) + InsertedAgent(includeUserAgent, version) + m[e..])
  {
    var e := Find(m, Delim).value;
    var a := InsertedLength(m);
    var m1 := m[..e] + a + m[e..];
    ContentLengthStep(m, e);
    ContentLengthKeepsSeparator(m, e);
    UserAgentStep(m1, e + |a|, includeUserAgent, version);
    SplitAtInsertion(m[..e], a, m[e..], InsertedAgent(includeUserAgent, version));
  }

  /** Cutting `x + a + y` after `a` and putting `b` there. */
  lemma SplitAtInsertion<T>(x: seq<T>, a: seq<T>, y: seq<T>, b: seq<T>)
    ensures var z := x + a + y;
      z[..|x| + |a|] + b + z[|x| + |a|..] == x + a + b + y
  {
    var z := x + a + y;
    assert z[..|x| + |a|] == x + a;
    assert z[|x| + |a|..] == y;
  }

  /**
   * The body after the first separator is sent unchanged: framing moves the
   * separator but keeps it the first one, so the payload extracted from the
   * framed message is the original payload. (A user-agent version holding a
   * line break could forge an earlier separator, hence the condition.)
   */
  lemma FramedBodyUnchanged(m: string, includeUserAgent: bool, version: string)
    requires Contains(m, Delim)
    requires includeUserAgent ==> NoLineBreak(version)
    ensures FrameRequest(m, includeUserAgent, version).Some?
    ensures GetPayloadFromMessage(FrameRequest(m, includeUserAgent, version).value)
            == GetPayloadFromMessage(m)
  {
    FramedSeparator(m, Find(m, Delim).value, includeUserAgent, version);
  }

  /** In the framed message the separator is still the first one, moved past the inserted lines. */
  lemma FramedSeparator(m: string, e: nat, includeUserAgent: bool, version: string)
    requires Find(m, Delim) == Some(e)
    requires includeUserAgent ==> NoLineBreak(version)
    ensures FrameRequest(m, includeUserAgent, version).Some?
    ensures SeparatorMoved(m, e, FrameRequest(m, includeUserAgent, version).value,
                           e + |InsertedLength(m)| + |InsertedAgent(includeUserAgent, version)|)
  {
    FramedLayout(m, includeUserAgent, version);
    FramedInsertionsKeepSeparator(m, e, includeUserAgent, version);
  }

  /** Inserting both framing lines in front of the separator keeps it first. */
  lemma FramedInsertionsKeepSeparator(m: string, e: nat, includeUserAgent: bool, version: string)
    requires Find(m, Delim) == Some(e)
    requires includeUserAgent ==> NoLineBreak(version)
    ensures var a := InsertedLength(m);
      var b := InsertedAgent(includeUserAgent, version);
      SeparatorMoved(m, e, m[..e] + a + b + m[e..], e + |a| + |b|)
  {
    InsertedLengthIsInsertion(m);
    InsertedAgentIsInsertion(includeUserAgent, version);
    TwoInsertionsKeepSeparator(m, e, InsertedLength(m), InsertedAgent(includeUserAgent, version));
  }

  lemma LowerLengthHeader()
    ensures ToLower(LengthHeader) == LengthField
    ensures NoLineBreak(LengthField)
  {
  }

  /** A `Content-Length: ` in the message is a `content-length: ` in its lower-cased text. */
  lemma LowerCasedHeaderFound(m: string)
    ensures Contains(m, LengthHeader) ==> Contains(ToLower(m), LengthField)
  {
    if Contains(m, LengthHeader) {
      var k := Find(m, LengthHeader).value;
      ToLowerOccurs(m, LengthHeader, k);
      LowerLengthHeader();
      OccurrenceIsFound(ToLower(m), LengthField, k);
    }
  }

  /**
   * In the lower-cased framed message, the first `content-length: ` is the one
   * framing inserted, provided the original header had none in any case.
   */
  lemma InsertedFieldComesFirst(m: string, e: nat, f: string, rest: string)
    requires Find(m, Delim) == Some(e)
    requires !Contains(ToLower(m[..e]), LengthField)
    requires f == m[..e] + "\r\n" + LengthHeader + rest
    ensures Find(ToLower(f), LengthField) == Some(e + 2)
  {
    var low := ToLower(f);
    var h := e + 2;
    assert OccursAt(low, LengthField, h) by {
      LowerLengthHeader();
      assert f[h..h + |LengthField|] == LengthHeader;
      ToLowerSlice(f, h, h + |LengthField|);
    }
    assert e + |Delim| <= |m| by {
      assert OccursAt(m, Delim, e);
    }
    assert f[..e] == m[..e] && f[e] == '\r' && f[e + 1] == '\n';
    forall j: nat | j < h ensures !OccursAt(low, LengthField, j) {
      if j + |LengthField| <= e {
        LowerWindowInHeader(m, f, e, j);
      } else {
        // the window covers the line break in front of the inserted field
        LowerWindowOnBreak(f, j, if j <= e then e else e + 1);
      }
    }
    FindIsFirst(low, LengthField, h);
  }

  /** A window wholly in the original header holds no `content-length: ` once lower-cased. */
  lemma LowerWindowInHeader(m: string, f: string, e: nat, j: nat)
    requires j + |LengthField| <= e <= |m| && e <= |f| && f[..e] == m[..e]
    requires !Contains(ToLower(m[..e]), LengthField)
    ensures !OccursAt(ToLower(f), LengthField, j)
  {
    var header := m[..e];
    FindFirst(ToLower(header), LengthField);
    assert !OccursAt(ToLower(header), LengthField, j);
    forall k | j <= k < j + |LengthField| ensures f[k] == header[k] {
      assert f[..e][k] == f[k];
    }
    assert f[j..j + |LengthField|] == header[j..j + |LengthField|];
    ToLowerSlice(f, j, j + |LengthField|);
    ToLowerSlice(header, j, j + |LengthField|);
  }

  /** A window holding a line break is no `content-length: `, lower-cased or not. */
  lemma LowerWindowOnBreak(f: string, j: nat, x: nat)
    requires j <= x < j + |LengthField| && x < |f| && (f[x] == '\r' || f[x] == '\n')
    ensures !OccursAt(ToLower(f), LengthField, j)
  {
    var low := ToLower(f);
    assert low[x] == f[x];
    if j + |LengthField| <= |low| {
      assert low[j..j + |LengthField|][x - j] == low[x];
    }
  }


  /**
   * Round trip: when framing inserts the Content-Length line (the message
   * holds no `Content-Length: `) and the header carries no Content-Length
   * field in another letter case, reading the framed message's Content-Length
   * back the way `_recvResponse` reads a response header gives exactly the
   * length of the original body. The body may hold anything.
   */
  lemma FramedLengthRoundTrip(m: string, includeUserAgent: bool, version: string, f: string)
    requires Contains(m, Delim)
    requires !Contains(m, LengthHeader)
    requires !Contains(ToLower(UpTo(m, Delim)), LengthField)
    requires FrameRequest(m, includeUserAgent, version) == Some(f)
    ensures DeclaredLength(ToLower(f)) == Some(|GetPayloadFromMessage(m)|)
  {
    var e := Find(m, Delim).value;
    assert UpTo(m, Delim) == m[..e];
    RoundTripAt(m, e, includeUserAgent, version, f);
  }

  /** The round trip, with the first separator at `e`. */
  lemma RoundTripAt(m: string, e: nat, includeUserAgent: bool, version: string, f: string)
    requires Find(m, Delim) == Some(e)
    requires !Contains(m, LengthHeader) && !Contains(ToLower(m[..e]), LengthField)
    requires FrameRequest(m, includeUserAgent, version) == Some(f)
    ensures DeclaredLength(ToLower(f)) == Some(|m| - (e + |Delim|))
  {
    var n := |m| - (e + |Delim|);
    var tail := InsertedAgent(includeUserAgent, version) + m[e..];
    SeparatorFollowsDigits(m, e, includeUserAgent, version);
    FramedWithLength(m, includeUserAgent, version, e, n, f);
    FramedFieldValue(m, e, NatToDecimal(n), tail, f);
    DecimalRoundTrip(n);
  }

  /**
   * A header that already carries a Content-Length field in a letter case
   * other than `Content-Length: ` keeps it: framing still inserts its own
   * line, after the header, so the field `_recvResponse`-style reading finds
   * first in the framed message is the caller's, at the same place as in the
   * original message.
   */
  lemma CallerFieldKept(m: string, includeUserAgent: bool, version: string, f: string)
    requires Contains(m, Delim)
    requires Contains(ToLower(UpTo(m, Delim)), LengthField)
    requires FrameRequest(m, includeUserAgent, version) == Some(f)
    ensures Find(ToLower(f), LengthField) == Find(ToLower(UpTo(m, Delim)), LengthField)
    ensures Find(ToLower(f), LengthField) == Find(ToLower(m), LengthField)
  {
    var e := Find(m, Delim).value;
    var header := m[..e];
    FramedLayout(m, includeUserAgent, version);
    assert f[..e] == header;
    PrefixFieldFirst(header, f);
    PrefixFieldFirst(header, m);
  }

  /** The first lower-cased field of a prefix is the first of the whole text. */
  lemma PrefixFieldFirst(header: string, s: string)
    requires |header| <= |s| && s[..|header|] == header
    requires Contains(ToLower(header), LengthField)
    ensures Find(ToLower(s), LengthField) == Find(ToLower(header), LengthField)
  {
    var k := Find(ToLower(header), LengthField).value;
    FindFirst(ToLower(header), LengthField);
    forall j: nat | j <= k
      ensures OccursAt(ToLower(s), LengthField, j) == OccursAt(ToLower(header), LengthField, j)
    {
      if j + |LengthField| <= |header| {
        assert s[j..j + |LengthField|] == header[j..j + |LengthField|];
        ToLowerSlice(s, j, j + |LengthField|);
        ToLowerSlice(header, j, j + |LengthField|);
      }
    }
    FindIsFirst(ToLower(s), LengthField, k);
  }

  /** Whatever follows the inserted Content-Length line starts with a line break. */
  lemma SeparatorFollowsDigits(m: string, e: nat, includeUserAgent: bool, version: string)
    requires Find(m, Delim) == Some(e)
    ensures var tail := InsertedAgent(includeUserAgent, version) + m[e..];
      |tail| >= 2 && tail[..2] == "\r\n"
  {
    var tail := InsertedAgent(includeUserAgent, version) + m[e..];
    assert m[e] == '\r' && m[e + 1] == '\n' by {
      assert OccursAt(m, Delim, e);
      assert m[e..e + |Delim|][0] == m[e] && m[e..e + |Delim|][1] == m[e + 1];
    }
    var agent := InsertedAgent(includeUserAgent, version);
    if includeUserAgent {
      assert agent[0] == '\r' && agent[1] == '\n';
      assert tail[..2] == [agent[0], agent[1]];
    } else {
      assert tail[..2] == [m[e], m[e + 1]];
    }
  }

  /** Without a `Content-Length: ` anywhere, the framed text carries the inserted line for `n` characters. */
  lemma FramedWithLength(m: string, includeUserAgent: bool, version: string, e: nat, n: nat, f: string)
    requires Find(m, Delim) == Some(e) && !Contains(m, LengthHeader) && n == |m| - (e + |Delim|)
    requires FrameRequest(m, includeUserAgent, version) == Some(f)
    ensures f == m[..e] + "\r\n" + LengthHeader + (NatToDecimal(n) + (InsertedAgent(includeUserAgent, version) + m[e..]))
  {
    var agent := InsertedAgent(includeUserAgent, version);
    var line := InsertedLength(m);
    InsertedLengthLine(m, e, n);
    assert f == m[..e] + line + agent + m[e..] by {
      FramedLayout(m, includeUserAgent, version);
    }
    Regroup(m[..e], "\r\n", LengthHeader, NatToDecimal(n), agent, m[e..]);
  }

  /** Regrouping the pieces of a framed text. */
  lemma Regroup<T>(a: seq<T>, b: seq<T>, c: seq<T>, d: seq<T>, x: seq<T>, y: seq<T>)
    ensures a + (b + c + d) + x + y == a + b + c + (d + (x + y))
  {
  }

  lemma InsertedLengthLine(m: string, e: nat, n: nat)
    requires Find(m, Delim) == Some(e) && !Contains(m, LengthHeader) && n == |m| - (e + |Delim|)
    ensures InsertedLength(m) == "\r\n" + LengthHeader + NatToDecimal(n)
  {
    var line := LengthLine(n);
    assert InsertedLength(m) == "\r\n" + line;
    Associate("\r\n", LengthHeader, NatToDecimal(n));
  }

  /** The value read back from the lower-cased framed text is the inserted digits. */
  lemma FramedFieldValue(m: string, e: nat, d: string, tail: string, f: string)
    requires Find(m, Delim) == Some(e)
    requires !Contains(ToLower(m[..e]), LengthField)
    requires |d| > 0 && AllDigits(d)
    requires |tail| >= 2 && tail[..2] == "\r\n"
    requires f == m[..e] + "\r\n" + LengthHeader + (d + tail)
    ensures DeclaredLength(ToLower(f)) == ParseDecimal(d)
  {
    InsertedFieldComesFirst(m, e, f, d + tail);
    var start := e + 2 + |LengthField|;
    FieldValueFollowsName(m, e, d, tail, f);
    LoweredFieldValue(f, start, d);
    FieldValueIsDigits(ToLower(f)[start..], d);
  }

  /** In the framed header the digits and a line break follow the inserted field name. */
  lemma FieldValueFollowsName(m: string, e: nat, d: string, tail: string, f: string)
    requires e <= |m| && |tail| >= 2 && tail[..2] == "\r\n"
    requires f == m[..e] + "\r\n" + LengthHeader + (d + tail)
    ensures e + 2 + |LengthField| + |d| + 2 <= |f|
    ensures f[e + 2 + |LengthField|..e + 2 + |LengthField| + |d| + 2] == d + "\r\n"
  {
    var start := e + 2 + |LengthField|;
    assert f[start..] == d + tail;
    assert (d + tail)[..|d| + 2] == d + "\r\n";
  }

  /** Digits and a line break read the same in the lower-cased text. */
  lemma LoweredFieldValue(f: string, start: nat, d: string)
    requires AllDigits(d) && start + |d| + 2 <= |f| && f[start..start + |d| + 2] == d + "\r\n"
    ensures |d| + 2 <= |ToLower(f)[start..]| && ToLower(f)[start..][..|d| + 2] == d + "\r\n"
  {
    ToLowerSlice(f, start, start + |d| + 2);
    LowerKeepsDigits(d + "\r\n");
  }

  /** Lower-casing leaves digits and line breaks alone. */
  lemma LowerKeepsDigits(x: string)
    requires forall i :: 0 <= i < |x| ==> IsDigit(x[i]) || x[i] == '\r' || x[i] == '\n'
    ensures ToLower(x) == x
  {
  }
}
