/**
 * What a run of strtok calls computes, stated on values: the tokens of a
 * NUL-free string for a delimiter set are its maximal non-empty runs of
 * non-delimiter bytes, in order. The imperative strtok of module Strtok is
 * proved against `Tokens`.
 */
module Tokenization {
  import opened Bytes
  import opened Wrappers

  /** No byte of `s` is a delimiter. */
  predicate DelimFree(s: seq<byte>, d: set<byte>)
  {
    forall k :: 0 <= k < |s| ==> s[k] !in d
  }

  /** The longest prefix of `s` without a delimiter (what strcspn measures). */
  function Run(s: seq<byte>, d: set<byte>): (r: seq<byte>)
    ensures |r| <= |s| && r == s[..|r|] && DelimFree(r, d)
    ensures |r| == |s| || s[|r|] in d
  {
    if s == [] || s[0] in d then []
    else
      var r' := Run(s[1..], d);
      assert s[1..][..|r'|] == s[1..|r'| + 1];
      [s[0]] + r'
  }

  /** The maximal non-empty delimiter-free runs of `s`, left to right. */
  function Tokens(s: seq<byte>, d: set<byte>): seq<seq<byte>>
    decreases |s|
  {
    if s == [] then []
    else if s[0] in d then Tokens(s[1..], d)
    else
      var t := Run(s, d);
      [t] + Tokens(s[|t|..], d)
  }

  /** All bytes except the delimiters, in order. */
  function Undelimited(s: seq<byte>, d: set<byte>): seq<byte>
  {
    if s == [] then [] else (if s[0] in d then [] else [s[0]]) + Undelimited(s[1..], d)
  }

  /** Concatenation of a list of tokens. */
  function Concat(ts: seq<seq<byte>>): seq<byte>
  {
    if ts == [] then [] else ts[0] + Concat(ts[1..])
  }

  lemma UndelimitedAppend(a: seq<byte>, b: seq<byte>, d: set<byte>)
    ensures Undelimited(a + b, d) == Undelimited(a, d) + Undelimited(b, d)
  {
    if a != [] {
      assert (a + b)[1..] == a[1..] + b;
      assert (a + b)[0] == a[0];
      UndelimitedAppend(a[1..], b, d);
    } else {
      assert a + b == b;
    }
  }

  lemma UndelimitedOfFree(t: seq<byte>, d: set<byte>)
    requires DelimFree(t, d)
    ensures Undelimited(t, d) == t
  {
    if t != [] {
      UndelimitedOfFree(t[1..], d);
    }
  }

  /** Every token is non-empty and contains no delimiter. */
  lemma {:induction false} TokensWellFormed(s: seq<byte>, d: set<byte>)
    ensures forall k :: 0 <= k < |Tokens(s, d)| ==> Tokens(s, d)[k] != [] && DelimFree(Tokens(s, d)[k], d)
    decreases |s|
  {
    if s == [] {
    } else if s[0] in d {
      TokensWellFormed(s[1..], d);
    } else {
      var t := Run(s, d);
      TokensWellFormed(s[|t|..], d);
    }
  }

  /** Joining the tokens gives back the input with its delimiters removed. */
  lemma {:induction false} TokensCover(s: seq<byte>, d: set<byte>)
    ensures Concat(Tokens(s, d)) == Undelimited(s, d)
    decreases |s|
  {
    if s == [] {
    } else if s[0] in d {
      TokensCover(s[1..], d);
      assert s == [s[0]] + s[1..];
      UndelimitedAppend([s[0]], s[1..], d);
    } else {
      var t := Run(s, d);
      TokensCover(s[|t|..], d);
      assert s == t + s[|t|..];
      UndelimitedAppend(t, s[|t|..], d);
      UndelimitedOfFree(t, d);
      assert Tokens(s, d)[1..] == Tokens(s[|t|..], d);
    }
  }

  /** A leading delimiter produces no token: `//` never yields an empty one. */
  lemma SkipDelim(x: byte, s: seq<byte>, d: set<byte>)
    requires x in d
    ensures Tokens([x] + s, d) == Tokens(s, d)
  {
    assert ([x] + s)[1..] == s;
  }

  /** A non-empty delimiter-free `t` followed by the end or a delimiter is the next token. */
  lemma {:induction false} TokensCons(t: seq<byte>, w: seq<byte>, d: set<byte>)
    requires t != [] && DelimFree(t, d)
    requires w == [] || w[0] in d
    ensures Tokens(t + w, d) == [t] + Tokens(w, d)
  {
    var s := t + w;
    RunOfFree(t, w, d);
    assert s[|t|..] == w;
  }

  lemma {:induction false} RunOfFree(t: seq<byte>, w: seq<byte>, d: set<byte>)
    requires DelimFree(t, d)
    requires w == [] || w[0] in d
    ensures Run(t + w, d) == t
  {
    var s := t + w;
    if t == [] {
    } else {
      assert s[1..] == t[1..] + w;
      RunOfFree(t[1..], w, d);
      assert s == [t[0]] + (t[1..] + w);
    }
  }

  /** A delimiter-free non-empty string is one token. */
  lemma TokensOfRun(t: seq<byte>, d: set<byte>)
    requires t != [] && DelimFree(t, d)
    ensures Tokens(t, d) == [t]
  {
    TokensCons(t, [], d);
    assert t + [] == t;
  }

  /** Splitting at any delimiter splits the token list: Tokens is determined by this and TokensOfRun. */
  lemma {:induction false} TokensSplit(a: seq<byte>, x: byte, b: seq<byte>, d: set<byte>)
    requires x in d
    ensures Tokens(a + [x] + b, d) == Tokens(a, d) + Tokens(b, d)
    decreases |a|
  {
    var s := a + [x] + b;
    if a == [] {
      assert s == [x] + b;
      SkipDelim(x, b, d);
    } else if a[0] in d {
      assert Tokens(s, d) == Tokens(a[1..] + [x] + b, d) by {
        assert s[0] == a[0] && s[1..] == a[1..] + [x] + b;
      }
      TokensSplit(a[1..], x, b, d);
    } else {
      var t := Run(a, d);
      var w := a[|t|..];
      var u := w + [x] + b;
      assert Tokens(a, d) == [t] + Tokens(w, d);
      assert Tokens(s, d) == [t] + Tokens(u, d) by {
        assert s == t + u by {
          assert a == t + w;
        }
        RunOfFree(t, u, d);
        assert s[|t|..] == u;
      }
      TokensSplit(w, x, b, d);
    }
  }

  /** Leading delimiters produce no token, however many there are. */
  lemma {:induction false} TokensAfterLead(lead: seq<byte>, s: seq<byte>, d: set<byte>)
    requires forall k :: 0 <= k < |lead| ==> lead[k] in d
    ensures Tokens(lead + s, d) == Tokens(s, d)
    decreases |lead|
  {
    if lead != [] {
      assert lead + s == [lead[0]] + (lead[1..] + s);
      SkipDelim(lead[0], lead[1..] + s, d);
      TokensAfterLead(lead[1..], s, d);
    } else {
      assert lead + s == s;
    }
  }

  /** A token followed by a delimiter comes first, then the tokens after the delimiter. */
  lemma TokenThenDelim(t: seq<byte>, x: byte, s: seq<byte>, d: set<byte>)
    requires t != [] && DelimFree(t, d) && x in d
    ensures Tokens(t + [x] + s, d) == [t] + Tokens(s, d)
  {
    TokensSplit(t, x, s, d);
    TokensOfRun(t, d);
  }

  /** The tokens `ts` put back together with one delimiter `x` between neighbours. */
  function Join(ts: seq<seq<byte>>, x: byte): seq<byte>
    decreases |ts|
  {
    if |ts| <= 1 then (if ts == [] then [] else ts[0])
    else ts[0] + [x] + Join(ts[1..], x)
  }

  /** Splitting undoes joining: non-empty, delimiter-free tokens joined by a delimiter are the tokens again. */
  lemma {:induction false} TokensOfJoin(ts: seq<seq<byte>>, x: byte, d: set<byte>)
    requires x in d
    requires forall k :: 0 <= k < |ts| ==> ts[k] != [] && DelimFree(ts[k], d)
    ensures Tokens(Join(ts, x), d) == ts
    decreases |ts|
  {
    if |ts| == 1 {
      TokensOfRun(ts[0], d);
    } else if |ts| > 1 {
      TokensOfJoin(ts[1..], x, d);
      TokenThenDelim(ts[0], x, Join(ts[1..], x), d);
      assert ts == [ts[0]] + ts[1..];
    }
  }

  /** The first token, if there is one. */
  function FirstToken(ts: seq<seq<byte>>): (r: Option<seq<byte>>)
    ensures r.Some? <==> ts != []
    ensures r.Some? ==> r.value == ts[0]
  {
    if ts == [] then None else Some(ts[0])
  }
}
