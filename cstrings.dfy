/**
 * NUL-terminated text, the string convention of the plugin's C boundary:
 * every string handed to the host is written with a trailing NUL, and a
 * string received from the host is read up to its first NUL.
 */
module CStrings {

  const NUL: char := '\0'

  /** The buffer behind a C string pointer: the text followed by one NUL. */
  function Terminate(s: string): string
  {
    s + [NUL]
  }

  /**
   * What `CStr::from_ptr` reads from a buffer: everything before the first NUL.
   * A buffer without a NUL would be read past its end, which callers never do.
   */
  function ReadCStr(buf: string): (s: string)
    requires NUL in buf
    ensures NUL !in s
    ensures s + [NUL] <= buf
    decreases |buf|
  {
    if buf[0] == NUL then ""
    else
      assert NUL in buf[1..];
      [buf[0]] + ReadCStr(buf[1..])
  }

  /** Reading a terminated text back gives the text, provided it holds no NUL of its own. */
  lemma {:induction false} ReadTerminate(s: string)
    requires NUL !in s
    ensures ReadCStr(Terminate(s)) == s
    decreases |s|
  {
    if |s| > 0 {
      assert Terminate(s)[1..] == Terminate(s[1..]);
      ReadTerminate(s[1..]);
    }
  }

  /** A text holding a NUL reaches the reader cut off at that NUL. */
  lemma TerminateTruncates(s: string, t: string)
    requires NUL !in s
    ensures ReadCStr(Terminate(s + [NUL] + t)) == s
  {
    var buf := Terminate(s + [NUL] + t);
    assert buf == s + [NUL] + Terminate(t);
    ReadPrefix(s, Terminate(t));
  }

  /** `ReadCStr` stops at the first NUL whatever follows it. */
  lemma {:induction false} ReadPrefix(s: string, rest: string)
    requires NUL !in s
    ensures ReadCStr(s + [NUL] + rest) == s
    decreases |s|
  {
    if |s| > 0 {
      assert (s + [NUL] + rest)[1..] == s[1..] + [NUL] + rest;
      ReadPrefix(s[1..], rest);
    }
  }
}
