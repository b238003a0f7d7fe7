/** The leading-newline trim that cmdline::Cmdline applies to its usage text.
    Usage texts are usually written as raw string literals that begin with a
    line break; the constructor moves its cursor past every leading '\n' and
    every '\r' that is directly followed by '\n', one character per step,
    never looking at or beyond the end of the text. */
module Trim {

  /** The condition of the trim loop at cursor `i` in a buffer whose text
      ends at index `end`: the cursor is on a '\n', or on the '\r' of a
      "\r\n" pair. Only indices below `end` are read. */
  predicate Skippable(buf: seq<char>, end: nat, i: nat)
    requires end <= |buf|
  {
    (i < end && buf[i] == '\n') ||
    (i + 1 < end && buf[i] == '\r' && buf[i + 1] == '\n')
  }

  /** True when a text begins with a line break: '\n' or "\r\n". */
  predicate StartsWithNewline(s: seq<char>) {
    (|s| >= 1 && s[0] == '\n') || (|s| >= 2 && s[0] == '\r' && s[1] == '\n')
  }

  /** Where the trim loop stops when it starts at cursor `i`. */
  function SkipFrom(buf: seq<char>, end: nat, i: nat): (j: nat)
    requires i <= end <= |buf|
    ensures i <= j <= end
    ensures !Skippable(buf, end, j)
    ensures forall m :: i <= m < j ==> Skippable(buf, end, m)
    decreases end - i
  {
    if Skippable(buf, end, i) then SkipFrom(buf, end, i + 1) else i
  }

  /** The usage text left after the trim: the suffix of `text` from where the
      loop, run over the whole of `text`, stops. */
  function Trimmed(text: seq<char>): (r: seq<char>)
    ensures |r| <= |text| && r == text[|text| - |r|..]
    ensures !StartsWithNewline(r)
  {
    var k := SkipFrom(text, |text|, 0);
    assert StartsWithNewline(text[k..]) == Skippable(text, |text|, k);
    text[k..]
  }

  /** The loop stops at the FIRST cursor where its condition fails: any `j`
      reached through skippable positions and at which the condition fails
      is where SkipFrom stops. */
  lemma SkipFromFirstStop(buf: seq<char>, end: nat, i: nat, j: nat)
    requires i <= j <= end <= |buf|
    requires forall m :: i <= m < j ==> Skippable(buf, end, m)
    requires !Skippable(buf, end, j)
    ensures SkipFrom(buf, end, i) == j
  {
  }

  /** Nothing at or past `end` is read: two buffers that agree below `end`
      are trimmed to the same cursor. */
  lemma {:induction false} ReadsBelowEnd(a: seq<char>, b: seq<char>, end: nat, i: nat)
    requires i <= end <= |a| && end <= |b|
    requires a[..end] == b[..end]
    ensures SkipFrom(a, end, i) == SkipFrom(b, end, i)
    decreases end - i
  {
    assert i < end ==> a[i] == a[..end][i] == b[i];
    assert i + 1 < end ==> a[i + 1] == a[..end][i + 1] == b[i + 1];
    if Skippable(a, end, i) {
      ReadsBelowEnd(a, b, end, i + 1);
    }
  }

  /** The removed prefix holds only '\n' characters and '\r' characters
      that are immediately followed by '\n'. */
  lemma RemovedPrefix(text: seq<char>)
    ensures forall m :: 0 <= m < |text| - |Trimmed(text)| ==>
      text[m] == '\n' || (text[m] == '\r' && m + 1 < |text| && text[m + 1] == '\n')
  {
    var k := SkipFrom(text, |text|, 0);
    assert |text| - |Trimmed(text)| == k;
    forall m | 0 <= m < k
      ensures text[m] == '\n' || (text[m] == '\r' && m + 1 < |text| && text[m + 1] == '\n')
    {
      assert Skippable(text, |text|, m);
    }
  }

  /** A text is left unchanged exactly when it does not begin with a line
      break; in particular "\rX" is kept whole. */
  lemma UnchangedIff(text: seq<char>)
    ensures Trimmed(text) == text <==> !StartsWithNewline(text)
  {
  }

  /** Trimming twice is trimming once. */
  lemma Idempotent(text: seq<char>)
    ensures Trimmed(Trimmed(text)) == Trimmed(text)
  {
  }

  /** Trimming looks only at the front of the text: text appended after the
      point where the loop stops is kept verbatim, including trailing line
      breaks. This holds unless what is left is empty, where the appended
      text is trimmed in turn, or a lone '\r', which an appended '\n' would
      turn into a "\r\n" pair. */
  lemma {:induction false} AppendKept(text: seq<char>, tail: seq<char>)
    requires |Trimmed(text)| >= 2 || (|Trimmed(text)| == 1 && Trimmed(text)[0] != '\r')
    ensures Trimmed(text + tail) == Trimmed(text) + tail
  {
    var k := SkipFrom(text, |text|, 0);
    var whole := text + tail;
    forall m | 0 <= m < k
      ensures Skippable(whole, |whole|, m)
    {
      assert Skippable(text, |text|, m);
      assert whole[m] == text[m];
      assert m + 1 < |text| ==> whole[m + 1] == text[m + 1];
    }
    assert !Skippable(whole, |whole|, k) by {
      assert whole[k] == text[k];
      assert k + 1 < |text| ==> whole[k + 1] == text[k + 1];
    }
    SkipFromFirstStop(whole, |whole|, 0, k);
    assert whole[k..] == text[k..] + tail;
  }
}
