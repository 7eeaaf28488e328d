/**
 * The message-slicing helpers of `BaseSocket` (restler/engine/transport_layer/messaging.py),
 * which take apart a raw request text with `find` and slices. Python's `find`
 * returns -1 when nothing is found and a slice bound of -1 means "one before
 * the end"; both quirks are kept.
 */
module Slicing {
  import opened Wrappers
  import opened Text
  import opened Http

  /** A one-character pattern is found exactly where the character is. */
  lemma FindChar(s: string, c: char)
    ensures Find(s, [c]).Some? ==> var k := Find(s, [c]).value;
      k < |s| && s[k] == c && forall j :: 0 <= j < k ==> s[j] != c
    ensures Find(s, [c]).None? ==> forall j :: 0 <= j < |s| ==> s[j] != c
  {
    FindFirst(s, [c]);
    if Find(s, [c]).Some? {
      var k := Find(s, [c]).value;
      assert s[k..k + 1] == [c];
      forall j | 0 <= j < k ensures s[j] != c {
        assert !OccursAt(s, [c], j);
        assert s[j..j + 1] == [s[j]];
      }
    } else {
      forall j | 0 <= j < |s| ensures s[j] != c {
        assert !OccursAt(s, [c], j);
        assert s[j..j + 1] == [s[j]];
      }
    }
  }

  /**
   * `_get_method_from_message`: the text before the first space. Without a
   * space `find` gives -1 and the slice `message[0:-1]` drops the last character.
   * (`HttpRawSock` repeats the same helper.)
   */
  function GetMethodFromMessage(m: string): (r: string)
    ensures Contains(m, " ") ==> |r| < |m| && r == m[..|r|] && m[|r|] == ' '
    ensures Contains(m, " ") ==> forall j :: 0 <= j < |r| ==> r[j] != ' '
    ensures !Contains(m, " ") ==> r == if m == [] then [] else m[..|m| - 1]
  {
    FindChar(m, ' ');
    PySlice(m, 0, PyFind(m, " "))
  }

  /**
   * `_get_payload_from_message`: the text after the first header/body
   * separator. Without one, `find` gives -1 and the slice starts at index 3.
   */
  function GetPayloadFromMessage(m: string): (r: string)
    ensures Contains(m, Delim) ==> var e := Find(m, Delim).value;
      e + |Delim| <= |m| && r == m[e + |Delim|..]
    ensures !Contains(m, Delim) ==> r == if |m| >= 3 then m[3..] else []
  {
    PySliceFrom(m, PyFind(m, Delim) + |Delim|)
  }

  /** With a separator, the payload is the suffix right after the first separator, and only that. */
  lemma PayloadFollowsFirstSeparator(m: string)
    requires Contains(m, Delim)
    ensures var r := GetPayloadFromMessage(m);
      && |r| + |Delim| <= |m|
      && r == m[|m| - |r|..]
      && OccursAt(m, Delim, |m| - |r| - |Delim|)
      && forall j: nat :: j < |m| - |r| - |Delim| ==> !OccursAt(m, Delim, j)
  {
    FindFirst(m, Delim);
  }

  /**
   * `_get_uri_segment_from_message`: the text between the first and the second
   * space, which starts right after the method. With one space only it is
   * empty; with none, the slice is `message[0:-1]` again.
   */
  function GetUriSegmentFromMessage(m: string): (r: string)
    ensures !Contains(m, " ") ==> r == if m == [] then [] else m[..|m| - 1]
    ensures Contains(m, " ") ==> var a := |GetMethodFromMessage(m)| + 1;
      && a + |r| <= |m|
      && r == m[a..a + |r|]
      && (forall j :: 0 <= j < |r| ==> r[j] != ' ')
      && ((a + |r| < |m| && m[a + |r|] == ' ')
          || (r == [] && forall j :: a <= j < |m| ==> m[j] != ' '))
  {
    var a := PyFind(m, " ");
    var rest := PySliceFrom(m, a + 1);
    var b := PyFind(rest, " ") + a + 1;
    FindChar(m, ' ');
    FindChar(rest, ' ');
    assert a >= 0 ==> a < |m| && rest == m[a + 1..];
    assert a >= 0 ==> a <= b <= |m|;
    PySlice(m, a + 1, b)
  }
}
