/** NUL-terminated strings, for the modules that read them. */
module CStrings {
  const NUL: char := '\0'

  /** A string as the C library sees it: without its terminator. */
  type CStr = s: string | NUL !in s

  /** A C string: the characters before the first NUL. */
  function CString(bytes: string): (s: CStr)
    ensures |s| <= |bytes| && s == bytes[..|s|]
    ensures |s| < |bytes| ==> bytes[|s|] == NUL
  {
    if |bytes| == 0 || bytes[0] == NUL then [] else [bytes[0]] + CString(bytes[1..])
  }

  /** Any NUL-free prefix that stops before a NUL is the C string. */
  lemma {:induction false} CStringIs(bytes: string, n: nat)
    requires n < |bytes| && bytes[n] == NUL && NUL !in bytes[..n]
    ensures CString(bytes) == bytes[..n]
    decreases n
  {
    if n > 0 {
      assert bytes[0] == bytes[..n][0] && bytes[1..][..n - 1] == bytes[..n][1..];
      CStringIs(bytes[1..], n - 1);
    }
  }

  lemma {:induction false} CStringAtLeast(t: string, n: nat)
    requires n <= |t| && NUL !in t[..n]
    ensures |CString(t)| >= n
    decreases n
  {
    if n > 0 {
      assert t[0] == t[..n][0] && t[1..][..n - 1] == t[..n][1..];
      CStringAtLeast(t[1..], n - 1);
    }
  }

  lemma {:induction false} NulFree(s: string)
    requires NUL !in s
    ensures CString(s) == s
    decreases |s|
  {
    if |s| > 0 { NulFree(s[1..]); }
  }
}
