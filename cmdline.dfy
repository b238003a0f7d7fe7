/** The construction step of cmdline::Cmdline: it finds the end of the
    caller's usage text, skips the line breaks at its start, and keeps the
    rest as the usage message. The pointers `spec` and `specEnd` of the
    C++ class are indices into the caller's buffer here. */
module Cmdline {
  import opened CString
  import Trim

  datatype Option<T> = None | Some(value: T)

  /** One option's value: the text supplied for it (none when absent) and
      the flag that `exists()` reports. */
  datatype Value = Value(str: Option<seq<char>>, valid: bool)

  /** The state a default-constructed Value has: no text, flag set. */
  const DefaultValue: Value := Value(None, true)

  /** The usage message that construction produces from a caller's buffer:
      the C string's text with its leading line breaks trimmed. */
  function UsageOf(buf: seq<char>): (u: seq<char>)
    requires Terminated(buf)
    ensures |u| <= StrLen(buf) && u == buf[StrLen(buf) - |u|..StrLen(buf)]
    ensures !Trim.StartsWithNewline(u)
  {
    Trim.Trimmed(Text(buf))
  }

  /** Constructing again from an already-trimmed usage message (written
      into a buffer with its terminator) yields the same message. */
  lemma ReconstructIdempotent(buf: seq<char>, rest: seq<char>)
    requires Terminated(buf)
    ensures Terminated(UsageOf(buf) + [Nul] + rest)
    ensures UsageOf(UsageOf(buf) + [Nul] + rest) == UsageOf(buf)
  {
    var u := UsageOf(buf);
    assert Nul !in u by {
      assert u == Text(buf)[|Text(buf)| - |u|..];
    }
    TextOfTerminated(u, rest);
    Trim.Idempotent(Text(buf));
  }

  /** The cursors and the message that construction leaves for a caller's
      buffer: `specEnd` at the terminator, `spec` where the trim loop stops,
      and the message copied from between them. */
  ghost predicate Constructed(buf: seq<char>, spec: nat, specEnd: nat, usageMsg: seq<char>) {
    Terminated(buf) &&
    specEnd == StrLen(buf) &&
    spec == Trim.SkipFrom(buf, specEnd, 0) &&
    usageMsg == buf[spec..specEnd]
  }

  /** The state construction leaves holds the trimmed usage text: running
      the loop over the caller's buffer, bounded by the terminator, stops
      where it would stop on the C string's text alone. */
  lemma ConstructedUsage(buf: seq<char>, spec: nat, specEnd: nat, usageMsg: seq<char>)
    requires Constructed(buf, spec, specEnd, usageMsg)
    ensures usageMsg == UsageOf(buf)
  {
    Trim.ReadsBelowEnd(buf, Text(buf), specEnd, 0);
  }

  class Cmdline {
    /** The caller's memory that `spec` and `specEnd` point into. */
    ghost var buffer: seq<char>
    /** Cursor into `buffer`: the start of the usage text after trimming. */
    var spec: nat
    /** Index of the terminator that ends the usage text. */
    var specEnd: nat
    var usageMsg: seq<char>
    /** The table of options and their values (never filled by construction). */
    var options: map<seq<char>, Value>
    /** The ordered list of positional argument names. */
    var positionals: seq<seq<char>>
    /** The value handed out for options that are not present. */
    var noValue: Value

    /** The state construction leaves: the cursors delimit the trimmed text
        inside the caller's buffer and the usage message is a copy of it. */
    ghost predicate Valid()
      reads this
    {
      Constructed(buffer, spec, specEnd, usageMsg) &&
      options == map[] && positionals == [] &&
      noValue == DefaultValue
    }

    /** Builds the object from a usage text. The argument count and vector
        are accepted and ignored. */
    constructor (argc: int, argv: seq<seq<char>>, spec_: seq<char>)
      requires Terminated(spec_)
      ensures Valid()
      ensures buffer == spec_
      ensures specEnd == StrLen(spec_)
      ensures spec == Trim.SkipFrom(spec_, specEnd, 0)
      ensures usageMsg == CopyFrom(spec_, spec)
      ensures options == map[] && positionals == []
    {
      buffer := spec_;
      spec := 0;
      options := map[];
      positionals := [];
      noValue := DefaultValue;
      new;
      var len := StrLen(spec_);
      specEnd := spec + len;

      while (spec < specEnd && spec_[spec] == '\n') ||
            (spec + 1 < specEnd && spec_[spec] == '\r' && spec_[spec + 1] == '\n')
        invariant spec <= specEnd == StrLen(spec_)
        invariant forall m :: 0 <= m < spec ==> Trim.Skippable(spec_, specEnd, m)
        invariant buffer == spec_ && options == map[] && positionals == [] && noValue == DefaultValue
        decreases specEnd - spec
      {
        spec := spec + 1;
      }
      Trim.SkipFromFirstStop(spec_, specEnd, 0, spec);

      usageMsg := CopyFrom(spec_, spec);
    }

    /** The usage/help text: the stored message, returned without change. */
    method Usage() returns (msg: seq<char>)
      requires Valid()
      ensures msg == usageMsg
      ensures msg == UsageOf(buffer)
      ensures !Trim.StartsWithNewline(msg)
    {
      msg := usageMsg;
      ConstructedUsage(buffer, spec, specEnd, usageMsg);
    }
  }

  /** Asking for the usage text twice gives the same text both times, and
      the object is left as it was. */
  method RepeatedUsage(c: Cmdline) returns (first: seq<char>, second: seq<char>)
    requires c.Valid()
    ensures first == second == c.usageMsg
    ensures c.Valid()
  {
    first := c.Usage();
    second := c.Usage();
  }
}
