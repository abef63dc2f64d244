/**
 * Bytes and C strings as the proxy's child process sees them: the buffer
 * `buf` of MAXBUFLEN chars that holds first the request and then the
 * response, the delimiter characters the request
 * parser uses, and "the string starting at a pointer", that is, the bytes
 * from an index up to the first NUL.
 */
module Bytes {

  /** One C `char` of the buffer, as an unsigned octet. */
  newtype byte = x: int | 0 <= x < 256

  const NUL: byte := 0
  const TAB: byte := 9
  const LF: byte := 10
  const CR: byte := 13
  const SPACE: byte := 32
  const SLASH: byte := 47

  /** Size of `char buf[MAXBUFLEN]`. */
  const MAXBUFLEN: nat := 16384

  /** Delimiters of the first strtok call (the request line). */
  const LineDelims: set<byte> := {TAB, LF}
  /** Delimiters of the token loop. */
  const TokenDelims: set<byte> := {SPACE, SLASH}

  /** A sequence of `n` zero bytes, what memset leaves behind. */
  function Zeros(n: nat): (z: seq<byte>)
    ensures |z| == n && forall k :: 0 <= k < n ==> z[k] == NUL
  {
    seq(n, _ => NUL)
  }

  /**
   * The C string at index `i` of `s`: the bytes from `i` up to, not
   * including, the first NUL at or after `i` (or up to the end of `s`).
   */
  function CStringAt(s: seq<byte>, i: nat): (r: seq<byte>)
    requires i <= |s|
    ensures i + |r| <= |s|
    decreases |s| - i
  {
    if i == |s| || s[i] == NUL then [] else [s[i]] + CStringAt(s, i + 1)
  }

  /**
   * The C string at `i` is the NUL-free slice of `s` from `i` that is
   * followed by a NUL or by the end of `s`; with CStringUnique, these
   * facts determine it.
   */
  lemma {:induction false} CStringAtShape(s: seq<byte>, i: nat)
    requires i <= |s|
    ensures var r := CStringAt(s, i);
      r == s[i..i + |r|] && NUL !in r && (i + |r| == |s| || s[i + |r|] == NUL)
    decreases |s| - i
  {
    if i < |s| && s[i] != NUL {
      CStringAtShape(s, i + 1);
    }
  }

  /** strlen: the length of the C string at the start of `s`. */
  function Strlen(s: seq<byte>): nat
  {
    |CStringAt(s, 0)|
  }

  /** Any NUL-free slice that is followed by a NUL (or the end) is the C string there. */
  lemma CStringUnique(s: seq<byte>, i: nat, t: seq<byte>)
    requires i + |t| <= |s| && s[i..i + |t|] == t && NUL !in t
    requires i + |t| == |s| || s[i + |t|] == NUL
    ensures CStringAt(s, i) == t
  {
    CStringAtShape(s, i);
  }

  /** The C string at `i` only depends on the bytes from `i` on. */
  lemma CStringAtSuffix(s: seq<byte>, s': seq<byte>, i: nat)
    requires i <= |s| == |s'| && s[i..] == s'[i..]
    ensures CStringAt(s, i) == CStringAt(s', i)
  {
    var r := CStringAt(s, i);
    CStringAtShape(s, i);
    assert s'[i..i + |r|] == s[i..i + |r|] by {
      assert s[i..i + |r|] == s[i..][..|r|];
      assert s'[i..i + |r|] == s'[i..][..|r|];
    }
    if i + |r| < |s| {
      assert s'[i + |r|] == s[i..][|r|];
    }
    CStringUnique(s', i, r);
  }

  /** A prefix of a C string that is followed by a NUL written over the next byte. */
  lemma CStringCut(s: seq<byte>, i: nat, e: nat)
    requires i <= e < |s| && NUL !in s[i..e]
    ensures CStringAt(s[e := NUL], i) == s[i..e]
  {
    var s' := s[e := NUL];
    assert s'[i..e] == s[i..e];
    CStringUnique(s', i, s[i..e]);
  }

  /**
   * strlen(buf) after `buf[n] = '\0'`: at most n, and the C string of the
   * buffer is the C string of its first n bytes.
   */
  lemma {:induction false} StrlenBounded(s: seq<byte>, n: nat)
    requires n < |s| && s[n] == NUL
    ensures Strlen(s) <= n
    ensures CStringAt(s, 0) == CStringAt(s[..n], 0)
  {
    var r := CStringAt(s, 0);
    CStringAtShape(s, 0);
    var q := s[..n];
    if |r| == n {
      assert q[0..|r|] == r;
      CStringUnique(q, 0, r);
    } else {
      assert q[0..|r|] == r;
      assert q[|r|] == NUL;
      CStringUnique(q, 0, r);
    }
  }
}
