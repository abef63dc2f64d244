/**
 * The request parser's working copy and the C library's strtok, following
 * glibc's strtok_r: the copy `strTknBuf` is an array that strtok cuts up in
 * place by writing NUL over the delimiter that ends each token, and
 * strtok keeps a hidden cursor from which a call with a NULL pointer resumes.
 */
module Strtok {
  import opened Bytes
  import opened Tokenization
  import opened Wrappers

  /** Between two states, bytes only change where a delimiter became a NUL. */
  ghost predicate OnlyDelimsCleared(before: seq<byte>, after: seq<byte>, d: set<byte>)
  {
    |after| == |before| &&
    forall k :: 0 <= k < |before| ==> after[k] == before[k] || (before[k] in d && after[k] == NUL)
  }

  /** A C string without delimiters is left intact when only delimiters are cleared. */
  lemma CStringSurvives(before: seq<byte>, after: seq<byte>, d: set<byte>, p: nat)
    requires OnlyDelimsCleared(before, after, d) && NUL !in d
    requires p <= |before| && DelimFree(CStringAt(before, p), d)
    ensures CStringAt(after, p) == CStringAt(before, p)
  {
    var t := CStringAt(before, p);
    CStringAtShape(before, p);
    forall k | 0 <= k < |t|
      ensures after[p + k] == t[k]
    {
      assert before[p + k] == t[k];
    }
    assert after[p..p + |t|] == t;
    if p + |t| < |before| {
      assert after[p + |t|] == NUL;
    }
    CStringUnique(after, p, t);
  }

  class Tokenizer {
    /** strTknBuf, the heap copy of the request that strtok cuts up. */
    const text: array<byte>
    /** strtok's hidden cursor: where a call with a NULL pointer resumes. */
    var save: nat
    /** Index of the NUL that ends the copied string; no strtok call looks past it. */
    ghost const term: nat

    ghost predicate Valid()
      reads this, text
    {
      term < text.Length && text[term] == NUL && save <= term
    }

    /** The C string at index `p` of the copy. */
    ghost function At(p: nat): seq<byte>
      reads text
      requires p <= text.Length
    {
      CStringAt(text[..], p)
    }

    /**
     * `strTknBuf = malloc(n + 1); strcpy(strTknBuf, buf);` where `buf[n]` is
     * the NUL the capture wrote: the copy holds the C string of `src`.
     */
    constructor Copy(src: seq<byte>, n: nat)
      requires n < |src| && src[n] == NUL
      ensures Valid() && fresh(text) && text.Length == n + 1
      ensures At(0) == CStringAt(src, 0) && term == Strlen(src)
    {
      StrlenBounded(src, n);
      var s := CStringAt(src, 0);
      CStringAtShape(src, 0);
      var a := new byte[n + 1];
      var i := 0;
      while src[i] != NUL
        invariant i <= |s| && a[..i] == s[..i]
        decreases |s| - i
      {
        a[i] := src[i];
        i := i + 1;
      }
      a[i] := NUL;
      assert a[..i] == s;
      CStringUnique(a[..], 0, s);
      text := a;
      term := i;
      save := i;
    }

    /** strspn: the first index from `from` on that holds no delimiter; the skipped bytes give no token. */
    method SkipDelims(from: nat, delims: set<byte>) returns (q: nat)
      requires Valid() && NUL !in delims && from <= term
      ensures from <= q <= term && text[q] !in delims
      ensures forall k :: from <= k < q ==> text[k] in delims
      ensures Tokens(At(q), delims) == Tokens(At(from), delims)
    {
      q := from;
      while text[q] in delims
        invariant from <= q <= term
        invariant forall k :: from <= k < q ==> text[k] in delims
        invariant Tokens(At(q), delims) == Tokens(At(from), delims)
        decreases term - q
      {
        SkipOne(text[..], q, delims);
        q := q + 1;
      }
    }

    /** strcspn: the end of the token that starts at `from`, at the next NUL or delimiter. */
    method TokenEnd(from: nat, delims: set<byte>) returns (e: nat)
      requires Valid() && from <= term && text[from] != NUL && text[from] !in delims
      ensures from < e <= term && (text[e] == NUL || text[e] in delims)
      ensures NUL !in text[from..e] && DelimFree(text[from..e], delims)
    {
      e := from;
      while text[e] != NUL && text[e] !in delims
        invariant from <= e <= term
        invariant NUL !in text[from..e] && DelimFree(text[from..e], delims)
        decreases term - e
      {
        e := e + 1;
      }
    }

    /**
     * `strtok(s, delims)`, with `None` for a NULL `s`. The string looked at
     * starts at `s`, or at the hidden cursor when `s` is NULL. Leading
     * delimiters are skipped; if nothing is left the result is NULL and
     * the cursor rests on the NUL. Otherwise the token runs to the next
     * delimiter, which is overwritten with NUL (the cursor moves past it),
     * or to the end of the string (the cursor rests on the NUL).
     */
    method Next(s: Option<nat>, delims: set<byte>) returns (tok: Option<nat>)
      requires Valid() && NUL !in delims
      requires s.Some? ==> s.value <= term
      modifies this`save, text
      ensures Valid()
      ensures OnlyDelimsCleared(old(text[..]), text[..], delims)
      ensures tok.None? ==> Tokens(Resumed(old(text[..]), s, old(save)), delims) == [] && CStringAt(text[..], save) == []
      ensures tok.Some? ==> tok.value <= term
      ensures tok.Some? ==>
        Tokens(Resumed(old(text[..]), s, old(save)), delims) == [CStringAt(text[..], tok.value)] + Tokens(CStringAt(text[..], save), delims)
    {
      var start := if s.Some? then s.value else save;
      ghost var b := text[..];
      ghost var view := Resumed(b, s, save);
      if text[start] == NUL {
        save := start;
        return None;
      }
      start := SkipDelims(start, delims);
      if text[start] == NUL {
        save := start;
        return None;
      }
      ghost var rest := Tokens(CStringAt(b, start), delims);
      assert rest == Tokens(view, delims);
      var e := TokenEnd(start, delims);
      if text[e] == NUL {
        TokenAtEnd(b, start, e, delims);
        save := e;
        return Some(start);
      }
      TokenCut(b, start, e, delims);
      text[e] := NUL;
      save := e + 1;
      assert text[..] == b[e := NUL];
      tok := Some(start);
    }
  }

  /** The string a strtok call looks at: from `s`, or from the cursor when `s` is NULL. */
  ghost function Resumed(b: seq<byte>, s: Option<nat>, save: nat): seq<byte>
    requires (if s.Some? then s.value else save) <= |b|
  {
    CStringAt(b, if s.Some? then s.value else save)
  }

  /** A leading delimiter of the C string at `i` gives no token. */
  lemma SkipOne(b: seq<byte>, i: nat, d: set<byte>)
    requires i < |b| && b[i] in d && NUL !in d
    ensures Tokens(CStringAt(b, i), d) == Tokens(CStringAt(b, i + 1), d)
  {
    SkipDelim(b[i], CStringAt(b, i + 1), d);
  }

  /** The bytes from `st` up to a NUL or delimiter at `e` are the next token. */
  lemma TokenEnds(b: seq<byte>, st: nat, e: nat, d: set<byte>)
    requires st < e < |b| && NUL !in b[st..e] && DelimFree(b[st..e], d)
    requires b[e] == NUL || b[e] in d
    ensures Tokens(CStringAt(b, st), d) == [b[st..e]] + Tokens(CStringAt(b, e), d)
  {
    var t := b[st..e];
    var w := CStringAt(b, e);
    CStringAtShape(b, e);
    assert b[st..e + |w|] == t + w;
    CStringUnique(b, st, t + w);
    TokensCons(t, w, d);
  }

  /** A token that ends at the string's NUL: strtok writes nothing and the cursor rests on the NUL. */
  lemma TokenAtEnd(b: seq<byte>, st: nat, e: nat, d: set<byte>)
    requires st < e < |b| && NUL !in b[st..e] && DelimFree(b[st..e], d) && b[e] == NUL
    ensures Tokens(CStringAt(b, st), d) == [CStringAt(b, st)] + Tokens(CStringAt(b, e), d)
    ensures CStringAt(b, e) == [] && OnlyDelimsCleared(b, b, d)
  {
    TokenEnds(b, st, e, d);
    CStringUnique(b, st, b[st..e]);
  }

  /** A token that ends at a delimiter: strtok writes NUL over it and resumes after it. */
  lemma TokenCut(b: seq<byte>, st: nat, e: nat, d: set<byte>)
    requires st < e < |b| && NUL !in b[st..e] && DelimFree(b[st..e], d)
    requires b[e] in d && NUL !in d
    ensures Tokens(CStringAt(b, st), d) == [CStringAt(b[e := NUL], st)] + Tokens(CStringAt(b[e := NUL], e + 1), d)
    ensures OnlyDelimsCleared(b, b[e := NUL], d)
  {
    TokenEnds(b, st, e, d);
    CStringCut(b, st, e);
    CutAfter(b, e, d);
  }

  /** Writing NUL over the delimiter at `e` changes nothing after it and only clears a delimiter. */
  lemma CutAfter(b: seq<byte>, e: nat, d: set<byte>)
    requires e < |b| && b[e] in d && NUL !in d
    ensures Tokens(CStringAt(b, e), d) == Tokens(CStringAt(b[e := NUL], e + 1), d)
    ensures OnlyDelimsCleared(b, b[e := NUL], d)
  {
    CStringAtSuffix(b, b[e := NUL], e + 1);
    SkipOne(b, e, d);
  }
}
