/** C strings as the constructor of cmdline::Cmdline sees them: a caller-owned
    buffer of characters that ends at its first NUL. A `char*` into it is an
    index `k`; `strlen` and the `std::string(const char*)` copy both stop at
    the first NUL at or after `k`. */
module CString {

  /** The character that ends a C string. */
  const Nul: char := '\0'

  /** True when a NUL follows index `k` of the buffer, so that a pointer to
      `k` is a valid C string. */
  predicate TerminatedAt(buf: seq<char>, k: nat) {
    exists j :: k <= j < |buf| && buf[j] == Nul
  }

  /** True when the buffer holds a terminator, as every C string does. */
  predicate Terminated(buf: seq<char>) {
    TerminatedAt(buf, 0)
  }

  /** `strlen(p + k)`: the number of characters from `k` up to the first
      NUL at or after `k`. */
  function StrLenAt(buf: seq<char>, k: nat): (n: nat)
    requires TerminatedAt(buf, k)
    ensures k + n < |buf| && buf[k + n] == Nul
    ensures forall j :: k <= j < k + n ==> buf[j] != Nul
    decreases |buf| - k
  {
    if buf[k] == Nul then 0
    else
      assert TerminatedAt(buf, k + 1) by {
        var j :| k <= j < |buf| && buf[j] == Nul;
        assert k + 1 <= j;
      }
      1 + StrLenAt(buf, k + 1)
  }

  /** `strlen(p)`: the index of the first NUL in the buffer. */
  function StrLen(buf: seq<char>): (n: nat)
    requires Terminated(buf)
    ensures n < |buf| && buf[n] == Nul
    ensures Nul !in buf[..n]
  {
    StrLenAt(buf, 0)
  }

  /** The text of a C string: the characters before its terminator. */
  function Text(buf: seq<char>): (s: seq<char>)
    requires Terminated(buf)
    ensures Nul !in s
    ensures |s| < |buf| && buf[..|s|] == s && buf[|s|] == Nul
  {
    buf[..StrLen(buf)]
  }

  /** The first NUL at or after `k` is the only index there that has a NUL
      and no NUL between `k` and it, so `strlen(p + k)` is determined by
      these two facts. */
  lemma StrLenAtUnique(buf: seq<char>, k: nat, n: nat)
    requires k + n < |buf| && buf[k + n] == Nul
    requires forall j :: k <= j < k + n ==> buf[j] != Nul
    ensures TerminatedAt(buf, k) && StrLenAt(buf, k) == n
  {
    assert buf[k + n] == Nul;
  }

  /** A pointer into the middle of a C string sees the rest of the same
      string: `strlen(p + k) == strlen(p) - k`. */
  lemma StrLenOfSuffix(buf: seq<char>, k: nat)
    requires Terminated(buf) && k <= StrLen(buf)
    ensures TerminatedAt(buf, k) && StrLenAt(buf, k) == StrLen(buf) - k
  {
    StrLenAtUnique(buf, k, StrLen(buf) - k);
  }

  /** `std::string(p + k)`: the characters from `k` up to the next NUL. From
      a cursor inside a C string the copy runs to the same terminator as the
      string itself. */
  function CopyFrom(buf: seq<char>, k: nat): (s: seq<char>)
    requires Terminated(buf) && k <= StrLen(buf)
    ensures s == buf[k..StrLen(buf)]
  {
    StrLenOfSuffix(buf, k);
    buf[k..k + StrLenAt(buf, k)]
  }

  /** Writing a string followed by a terminator into a buffer gives back
      exactly that string. */
  lemma TextOfTerminated(s: seq<char>, rest: seq<char>)
    requires Nul !in s
    ensures Terminated(s + [Nul] + rest)
    ensures Text(s + [Nul] + rest) == s
  {
    var buf := s + [Nul] + rest;
    assert buf[|s|] == Nul;
    assert buf[..|s|] == s;
    forall j | 0 <= j < |s|
      ensures buf[j] != Nul
    {
      assert buf[j] == s[j];
    }
    StrLenAtUnique(buf, 0, |s|);
  }
}
