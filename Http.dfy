/**
 * Wire constants of HTTP/1.1 as the transport uses them, and the way
 * `_recvResponse` reads a Content-Length value out of a buffered header.
 */
module Http {
  import opened Wrappers
  import opened Text

  /** The header/body separator (DELIM). */
  const Delim: string := "\r\n\r\n"

  /** The field name `_recvResponse` looks for, in the lower-cased buffer. */
  const LengthField: string := "content-length: "

  /** Python's `s.split(sep)[0]`: the text before the first `sep`, or all of `s`. */
  function UpTo(s: string, sep: string): (r: string)
    ensures |r| <= |s| && r == s[..|r|]
    ensures Contains(s, sep) ==> OccursAt(s, sep, |r|)
    ensures !Contains(s, sep) ==> r == s
  {
    match Find(s, sep)
    case Some(k) => s[..k]
    case None => s
  }

  /** `UpTo` stops at the first `sep`: none occurs earlier. */
  lemma UpToStopsAtFirst(s: string, sep: string)
    ensures forall j: nat :: j < |UpTo(s, sep)| ==> !OccursAt(s, sep, j)
  {
    FindFirst(s, sep);
  }

  /**
   * The Content-Length `_recvResponse` takes from the lower-cased buffer:
   * `lower.split("content-length: ")[1].split("\r\n")[0]` read as a decimal
   * number. None where Python raises (no such field, or not a number).
   */
  function DeclaredLength(lower: string): (r: Option<nat>)
    ensures r.Some? ==> Contains(lower, LengthField)
  {
    match Find(lower, LengthField)
    case None => None
    case Some(i) => ParseDecimal(UpTo(UpTo(lower[i + |LengthField|..], LengthField), "\r\n"))
  }

  /**
   * Reading the value of a field whose text starts with the digits `d` and a
   * line break, the way `_recvResponse` does, gives `d`.
   */
  lemma FieldValueIsDigits(after: string, d: string)
    requires |d| > 0 && AllDigits(d)
    requires |d| + 2 <= |after| && after[..|d| + 2] == d + "\r\n"
    ensures UpTo(UpTo(after, LengthField), "\r\n") == d
  {
    forall t: nat | t < |d| + 2 ensures !OccursAt(after, LengthField, t) {
      assert after[t] == (d + "\r\n")[t];
      assert after[t] != 'c' by {
        if t < |d| { assert IsDigit(d[t]); }
      }
      if t + |LengthField| <= |after| {
        assert after[t..t + |LengthField|][0] == after[t];
      }
    }
    var piece := UpTo(after, LengthField);
    assert |piece| >= |d| + 2;
    assert piece[..|d| + 2] == d + "\r\n";
    forall t: nat | t < |d| ensures !OccursAt(piece, "\r\n", t) {
      assert piece[t] == d[t] && IsDigit(d[t]);
      if t + 2 <= |piece| {
        assert piece[t..t + 2][0] == piece[t];
      }
    }
    assert OccursAt(piece, "\r\n", |d|) by {
      assert piece[|d|..|d| + 2] == (d + "\r\n")[|d|..|d| + 2];
    }
    var v := UpTo(piece, "\r\n");
    OccurrenceIsFound(piece, "\r\n", |d|);
    assert |v| == |d|;
    assert v == piece[..|d|];
  }

  /**
   * The value read: when the first `content-length: ` of the lower-cased
   * buffer is followed by a non-empty run of digits `d` and a line break,
   * the Content-Length is the number `d` spells.
   */
  lemma DeclaredLengthOfDigits(lower: string, i: nat, d: string)
    requires Find(lower, LengthField) == Some(i)
    requires |d| > 0 && AllDigits(d)
    requires i + |LengthField| + |d| + 2 <= |lower|
    requires lower[i + |LengthField|..i + |LengthField| + |d| + 2] == d + "\r\n"
    ensures DeclaredLength(lower) == ParseDecimal(d)
  {
    var after := lower[i + |LengthField|..];
    assert after[..|d| + 2] == lower[i + |LengthField|..i + |LengthField| + |d| + 2];
    FieldValueIsDigits(after, d);
  }
}
