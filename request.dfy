/**
 * The child's handling of the client's request (proxy.c:140-163): one recv
 * into `buf`, the NUL terminator, the heap copy, the request
 * line cut out by strtok on tab and newline, and the token loop that fills
 * `lineTkn[10]`, whose second slot is then used as the host name.
 */
module Request {
  import opened Bytes
  import opened Io
  import opened Tokenization
  import opened Strtok
  import opened Wrappers

  /** How many pointers `char *lineTkn[10]` holds. */
  const TokenSlots: nat := 10

  /** A `char *` slot of lineTkn: never written, NULL, or a pointer into the copy. */
  datatype Slot = Unset | Null | Ptr(at: nat)

  /** What reading a slot as a C string gives. */
  datatype SlotValue = Indeterminate | NullPointer | Str(chars: seq<byte>)

  function Deref(text: seq<byte>, slot: Slot): SlotValue
  {
    match slot
    case Unset => Indeterminate
    case Null => NullPointer
    case Ptr(p) => if p <= |text| then Str(CStringAt(text, p)) else Indeterminate
  }

  function SlotOf(tok: Option<nat>): Slot
  {
    match tok
    case None => Null
    case Some(p) => Ptr(p)
  }

  /** The request line strtok cuts out of the C string at the start of `buf`. */
  function RequestLine(buf: seq<byte>): Option<seq<byte>>
  {
    FirstToken(Tokens(CStringAt(buf, 0), LineDelims))
  }

  /** The tokens of the request line; none when there is no request line. */
  function LineTokens(buf: seq<byte>): seq<seq<byte>>
  {
    match RequestLine(buf)
    case None => []
    case Some(line) => Tokens(line, TokenDelims)
  }

  /**
   * Slot `j` of lineTkn after the token loop when the line has the tokens
   * `ts` (and at most TokenSlots of them): the loop stores the token after
   * the current one, so slot j holds token j + 1, the last slot written
   * holds NULL, and slots the loop never reached are indeterminate.
   */
  function SlotAfterLoop(ts: seq<seq<byte>>, j: nat): SlotValue
  {
    if j + 1 < |ts| then Str(ts[j + 1])
    else if j + 1 == |ts| || (j == 0 && ts == []) then NullPointer
    else Indeterminate
  }

  /**
   * `recvdBytes = recv(clientfd, buf, MAXBUFLEN - 1, 0)` and, unless it
   * failed, `buf[recvdBytes] = '\0'`. The client has sent `client`.
   */
  method Capture(buf: array<byte>, client: seq<byte>, step: ReadStep) returns (recvdBytes: int)
    requires buf.Length == MAXBUFLEN
    modifies buf
    ensures recvdBytes == ReadReturn(step, MAXBUFLEN - 1, |client|)
    ensures recvdBytes < 0 ==> buf[..] == old(buf[..])
    ensures recvdBytes >= 0 ==> recvdBytes <= MAXBUFLEN - 1
    ensures recvdBytes >= 0 ==> buf[..] == client[..recvdBytes] + [NUL] + old(buf[..])[recvdBytes + 1..]
  {
    recvdBytes := ReadReturn(step, MAXBUFLEN - 1, |client|);
    if recvdBytes < 0 {
      return;
    }
    forall k | 0 <= k < recvdBytes {
      buf[k] := client[k];
    }
    buf[recvdBytes] := NUL;
    assert buf[..] == client[..recvdBytes] + [NUL] + old(buf[..])[recvdBytes + 1..];
  }

  /**
   * What the parser and the forward loop see of a captured request: the
   * client's bytes up to the first NUL among them.
   */
  lemma CapturedString(data: seq<byte>, rest: seq<byte>)
    ensures CStringAt(data + [NUL] + rest, 0) == CStringAt(data, 0)
  {
    var s := data + [NUL] + rest;
    var c := CStringAt(data, 0);
    CStringAtShape(data, 0);
    assert s[0..|c|] == c;
    CStringUnique(s, 0, c);
  }

  /** Slots 0..i-1 already hold what they hold after the loop, and the later ones are unwritten. */
  ghost predicate SlotsSoFar(text: seq<byte>, slots: seq<Slot>, ts: seq<seq<byte>>, i: nat)
  {
    i <= |slots| &&
    (forall j :: 0 <= j < i ==> Deref(text, slots[j]) == SlotAfterLoop(ts, j)) &&
    (forall j :: i < j < |slots| ==> slots[j] == Unset)
  }

  /** Every token is delimiter-free, so a strtok call leaves the stored tokens intact. */
  lemma SlotsSurvive(before: seq<byte>, after: seq<byte>, slots: seq<Slot>, ts: seq<seq<byte>>, i: nat)
    requires SlotsSoFar(before, slots, ts, i)
    requires OnlyDelimsCleared(before, after, TokenDelims)
    requires forall k :: 0 <= k < |ts| ==> DelimFree(ts[k], TokenDelims)
    ensures SlotsSoFar(after, slots, ts, i)
  {
    forall j | 0 <= j < i
      ensures Deref(after, slots[j]) == SlotAfterLoop(ts, j)
    {
      if slots[j].Ptr? && slots[j].at <= |before| {
        CStringSurvives(before, after, TokenDelims, slots[j].at);
      }
    }
  }

  /** Storing the slot value of turn `i` extends the slots already in place by one. */
  lemma SlotsExtend(text: seq<byte>, slots: seq<Slot>, ts: seq<seq<byte>>, i: nat, v: Slot)
    requires SlotsSoFar(text, slots, ts, i) && i < |slots|
    requires Deref(text, v) == SlotAfterLoop(ts, i)
    ensures SlotsSoFar(text, slots[i := v], ts, i + 1)
  {
  }

  /**
   * Lines 151-155: copy the request, cut out the request line with
   * strtok on tab and newline, and take its first token on space and
   * slash. The second call resumes on the request line, or, when there is
   * none, at the NUL the first call left the cursor on.
   */
  method StartTokens(buf: array<byte>, recvdBytes: nat) returns (tk: Tokenizer, strTkn: Option<nat>)
    requires recvdBytes < buf.Length && buf[recvdBytes] == NUL
    ensures fresh(tk) && fresh(tk.text) && tk.Valid()
    ensures strTkn.None? ==> LineTokens(buf[..]) == []
    ensures strTkn.Some? ==> strTkn.value <= tk.term
    ensures strTkn.Some? ==> LineTokens(buf[..]) == [tk.At(strTkn.value)] + Tokens(tk.At(tk.save), TokenDelims)
  {
    tk := new Tokenizer.Copy(buf[..], recvdBytes);
    var reqTkn0 := tk.Next(Some(0), LineDelims);
    assert reqTkn0.Some? ==> RequestLine(buf[..]) == Some(tk.At(reqTkn0.value));
    strTkn := tk.Next(reqTkn0, TokenDelims);
  }

  /**
   * Lines 156-161: the token loop. Before the loop lineTkn[0] gets the
   * first token; each turn fetches the next token and stores it at index
   * i, so the first token is overwritten and the NULL that ends the loop
   * is stored too. Writing lineTkn[i] for i >= TokenSlots overflows the
   * array; the model stops there with `overflow` set.
   */
  method SplitRequest(buf: array<byte>, recvdBytes: nat) returns (tk: Tokenizer, lineTkn: array<Slot>, overflow: bool)
    requires recvdBytes < buf.Length && buf[recvdBytes] == NUL
    ensures fresh(tk) && fresh(tk.text) && fresh(lineTkn) && tk.Valid() && lineTkn.Length == TokenSlots
    ensures overflow <==> |LineTokens(buf[..])| > TokenSlots
    ensures !overflow ==> SlotsSoFar(tk.text[..], lineTkn[..], LineTokens(buf[..]), TokenSlots)
  {
    ghost var ts := LineTokens(buf[..]);
    var strTkn;
    tk, strTkn := StartTokens(buf, recvdBytes);
    lineTkn := new Slot[TokenSlots](_ => Unset);
    lineTkn[0] := SlotOf(strTkn);
    assert forall k :: 0 <= k < |ts| ==> DelimFree(ts[k], TokenDelims) by {
      TokensWellFormed(if RequestLine(buf[..]).Some? then RequestLine(buf[..]).value else [], TokenDelims);
    }
    if strTkn.None? {
      overflow := false;
      assert SlotsSoFar(tk.text[..], lineTkn[..], ts, TokenSlots);
      return;
    }
    overflow := TokenLoop(tk, lineTkn, ts);
  }

  /**
   * The `while (strTkn != NULL)` loop itself, entered with the first
   * token in lineTkn[0] and strtok's cursor after it.
   */
  method TokenLoop(tk: Tokenizer, lineTkn: array<Slot>, ghost ts: seq<seq<byte>>) returns (overflow: bool)
    requires tk.Valid() && lineTkn.Length == TokenSlots && ts != []
    requires Tokens(tk.At(tk.save), TokenDelims) == ts[1..]
    requires forall k :: 0 <= k < |ts| ==> DelimFree(ts[k], TokenDelims)
    requires SlotsSoFar(tk.text[..], lineTkn[..], ts, 0)
    requires lineTkn[1] == Unset
    modifies tk`save, tk.text, lineTkn
    ensures tk.Valid()
    ensures overflow <==> |ts| > TokenSlots
    ensures !overflow ==> SlotsSoFar(tk.text[..], lineTkn[..], ts, TokenSlots)
  {
    var i := 0;
    var more := true;
    while more
      invariant tk.Valid() && i <= TokenSlots
      invariant more <==> i < |ts|
      invariant more ==> Tokens(tk.At(tk.save), TokenDelims) == ts[i + 1..]
      invariant SlotsSoFar(tk.text[..], lineTkn[..], ts, i)
      invariant 0 < i < TokenSlots ==> lineTkn[i] == Unset
      decreases |ts| - i
    {
      ghost var slots := lineTkn[..];
      var strTkn := NextToken(tk, ts, i, slots);
      if i >= TokenSlots {
        return true;
      }
      lineTkn[i] := SlotOf(strTkn);
      assert SlotsSoFar(tk.text[..], lineTkn[..], ts, i + 1) by {
        assert lineTkn[..] == slots[i := SlotOf(strTkn)];
        SlotsExtend(tk.text[..], slots, ts, i, SlotOf(strTkn));
      }
      i := i + 1;
      more := strTkn.Some?;
    }
    overflow := false;
    assert SlotsSoFar(tk.text[..], lineTkn[..], ts, TokenSlots);
  }

  /**
   * `strTkn = strtok(NULL, " /")` in turn `i` of the token loop: the next
   * token is token i + 1, or NULL after the last one, and the tokens
   * already stored in lineTkn stay intact.
   */
  method NextToken(tk: Tokenizer, ghost ts: seq<seq<byte>>, i: nat, ghost slots: seq<Slot>) returns (strTkn: Option<nat>)
    requires tk.Valid() && i < |ts|
    requires Tokens(tk.At(tk.save), TokenDelims) == ts[i + 1..]
    requires forall k :: 0 <= k < |ts| ==> DelimFree(ts[k], TokenDelims)
    requires SlotsSoFar(tk.text[..], slots, ts, i)
    modifies tk`save, tk.text
    ensures tk.Valid()
    ensures strTkn.Some? <==> i + 1 < |ts|
    ensures strTkn.Some? ==> Tokens(tk.At(tk.save), TokenDelims) == ts[i + 2..]
    ensures Deref(tk.text[..], SlotOf(strTkn)) == SlotAfterLoop(ts, i)
    ensures SlotsSoFar(tk.text[..], slots, ts, i)
  {
    ghost var before := tk.text[..];
    ghost var remaining := ts[i + 1..];
    strTkn := tk.Next(None, TokenDelims);
    SlotsSurvive(before, tk.text[..], slots, ts, i);
    if strTkn.Some? {
      assert remaining == [tk.At(strTkn.value)] + Tokens(tk.At(tk.save), TokenDelims);
      assert ts[i + 1] == remaining[0];
      assert ts[i + 2..] == remaining[1..];
    }
  }

  /**
   * Lines 163 and 170: lineTkn[1] is what the proxy prints and resolves as
   * the host. It is the third token of the request line; with exactly two
   * tokens it is NULL, and with fewer the slot was never written.
   */
  method Host(buf: array<byte>, recvdBytes: nat) returns (host: SlotValue, overflow: bool)
    requires recvdBytes < buf.Length && buf[recvdBytes] == NUL
    ensures overflow <==> |LineTokens(buf[..])| > TokenSlots
    ensures !overflow && |LineTokens(buf[..])| >= 3 ==> host == Str(LineTokens(buf[..])[2])
    ensures |LineTokens(buf[..])| == 2 ==> host == NullPointer
    ensures |LineTokens(buf[..])| < 2 ==> host == Indeterminate
  {
    var tk, lineTkn;
    tk, lineTkn, overflow := SplitRequest(buf, recvdBytes);
    if overflow {
      host := Indeterminate;
      return;
    }
    host := Deref(tk.text[..], lineTkn[1]);
  }

  /**
   * Lines 141-163 together: capture the client's request, then take the
   * host from it. A failed recv ends the child before any parsing; else
   * the host is determined by the tokens of what the client sent, up to
   * the first NUL among the captured bytes.
   */
  method RequestHost(buf: array<byte>, client: seq<byte>, step: ReadStep) returns (recvdBytes: int, host: SlotValue, overflow: bool)
    requires buf.Length == MAXBUFLEN
    modifies buf
    ensures recvdBytes == ReadReturn(step, MAXBUFLEN - 1, |client|)
    ensures recvdBytes >= 0 ==> (overflow <==> |LineTokens(client[..recvdBytes])| > TokenSlots)
    ensures recvdBytes >= 0 && !overflow && |LineTokens(client[..recvdBytes])| >= 3 ==>
      host == Str(LineTokens(client[..recvdBytes])[2])
    ensures recvdBytes >= 0 && |LineTokens(client[..recvdBytes])| == 2 ==> host == NullPointer
    ensures recvdBytes >= 0 && |LineTokens(client[..recvdBytes])| < 2 ==> host == Indeterminate
  {
    ghost var before := buf[..];
    recvdBytes := Capture(buf, client, step);
    if recvdBytes < 0 {
      host, overflow := Indeterminate, false;
      return;
    }
    assert LineTokens(buf[..]) == LineTokens(client[..recvdBytes]) by {
      CapturedString(client[..recvdBytes], before[recvdBytes + 1..]);
    }
    host, overflow := Host(buf, recvdBytes);
  }

  /**
   * The request line is the first run without tab or newline of the
   * captured C string: leading tabs and newlines are skipped, and a
   * carriage return, not being a delimiter, stays in the line.
   */
  lemma RequestLineOf(buf: seq<byte>, lead: seq<byte>, line: seq<byte>, more: seq<byte>)
    requires CStringAt(buf, 0) == lead + line + more
    requires forall k :: 0 <= k < |lead| ==> lead[k] in LineDelims
    requires line != [] && DelimFree(line, LineDelims)
    requires more == [] || more[0] in LineDelims
    ensures RequestLine(buf) == Some(line)
  {
    assert lead + line + more == lead + (line + more);
    TokensAfterLead(lead, line + more, LineDelims);
    TokensCons(line, more, LineDelims);
  }

  /**
   * A request as a client sends it, without NUL bytes: a request line,
   * then the end of the bytes or a line break. The tokens the proxy
   * works with are those of the line.
   */
  lemma LineOfRequest(request: seq<byte>, line: seq<byte>, more: seq<byte>)
    requires request == line + more && NUL !in request
    requires line != [] && DelimFree(line, LineDelims)
    requires more == [] || more[0] in LineDelims
    ensures LineTokens(request) == Tokens(line, TokenDelims)
  {
    CStringUnique(request, 0, request);
    assert request == [] + line + more;
    RequestLineOf(request, [], line, more);
  }

  /**
   * An absolute-form request line `M SP SCHEME "//" HOST "/" REST`: the
   * tokens are the method, the scheme with its colon, the host, and then
   * the tokens of the rest, so the host the proxy resolves is HOST.
   */
  lemma AbsoluteFormTokens(m: seq<byte>, scheme: seq<byte>, h: seq<byte>, rest: seq<byte>)
    requires m != [] && DelimFree(m, TokenDelims)
    requires scheme != [] && DelimFree(scheme, TokenDelims)
    requires h != [] && DelimFree(h, TokenDelims)
    ensures Tokens(m + [SPACE] + scheme + [SLASH, SLASH] + h + [SLASH] + rest, TokenDelims)
      == [m, scheme, h] + Tokens(rest, TokenDelims)
  {
    var d := TokenDelims;
    var t3 := h + [SLASH] + rest;
    var t1 := scheme + [SLASH] + ([SLASH] + t3);
    assert m + [SPACE] + scheme + [SLASH, SLASH] + h + [SLASH] + rest == m + [SPACE] + t1;
    assert Tokens(m + [SPACE] + t1, d) == [m] + Tokens(t1, d) by {
      TokenThenDelim(m, SPACE, t1, d);
    }
    assert Tokens(t1, d) == [scheme] + Tokens(t3, d) by {
      TokenThenDelim(scheme, SLASH, [SLASH] + t3, d);
      SkipDelim(SLASH, t3, d);
    }
    assert Tokens(t3, d) == [h] + Tokens(rest, d) by {
      TokenThenDelim(h, SLASH, rest, d);
    }
    assert [m] + ([scheme] + ([h] + Tokens(rest, d))) == [m, scheme, h] + Tokens(rest, d);
  }

  /**
   * An origin-form request line `M SP "/" SP PROTO "/" VERSION`: the path
   * gives no token, so the third token, taken as the host, is the version.
   */
  lemma OriginFormTokens(m: seq<byte>, proto: seq<byte>, version: seq<byte>)
    requires m != [] && DelimFree(m, TokenDelims)
    requires proto != [] && DelimFree(proto, TokenDelims)
    requires version != [] && DelimFree(version, TokenDelims)
    ensures Tokens(m + [SPACE, SLASH, SPACE] + proto + [SLASH] + version, TokenDelims) == [m, proto, version]
  {
    var d := TokenDelims;
    var t2 := proto + [SLASH] + version;
    var t1 := [SLASH] + ([SPACE] + t2);
    var t0 := m + [SPACE] + t1;
    assert Tokens(t2, d) == [proto, version] by {
      TokenThenDelim(proto, SLASH, version, d);
      TokensOfRun(version, d);
    }
    assert Tokens(t1, d) == Tokens(t2, d) by {
      SkipDelim(SPACE, t2, d);
      SkipDelim(SLASH, [SPACE] + t2, d);
    }
    assert Tokens(t0, d) == [m] + Tokens(t1, d) by {
      TokenThenDelim(m, SPACE, t1, d);
    }
    assert m + [SPACE, SLASH, SPACE] + proto + [SLASH] + version == t0;
  }

  /**
   * A whole absolute-form request `M SP SCHEME "//" HOST "/" REST`, then
   * a line break: the proxy takes HOST as the host.
   */
  lemma AbsoluteFormHost(request: seq<byte>, m: seq<byte>, scheme: seq<byte>, h: seq<byte>, rest: seq<byte>, more: seq<byte>)
    requires request == m + [SPACE] + scheme + [SLASH, SLASH] + h + [SLASH] + rest + more && NUL !in request
    requires m != [] && DelimFree(m, TokenDelims)
    requires scheme != [] && DelimFree(scheme, TokenDelims)
    requires h != [] && DelimFree(h, TokenDelims)
    requires DelimFree(m + [SPACE] + scheme + [SLASH, SLASH] + h + [SLASH] + rest, LineDelims)
    requires more == [] || more[0] in LineDelims
    ensures LineTokens(request) == [m, scheme, h] + Tokens(rest, TokenDelims)
    ensures LineTokens(request)[2] == h
  {
    LineOfRequest(request, m + [SPACE] + scheme + [SLASH, SLASH] + h + [SLASH] + rest, more);
    AbsoluteFormTokens(m, scheme, h, rest);
  }

  /**
   * A whole origin-form request `M SP "/" SP PROTO "/" VERSION`, then a
   * line break: the proxy takes VERSION as the host.
   */
  lemma OriginFormHost(request: seq<byte>, m: seq<byte>, proto: seq<byte>, version: seq<byte>, more: seq<byte>)
    requires request == m + [SPACE, SLASH, SPACE] + proto + [SLASH] + version + more && NUL !in request
    requires m != [] && DelimFree(m, TokenDelims)
    requires proto != [] && DelimFree(proto, TokenDelims)
    requires version != [] && DelimFree(version, TokenDelims)
    requires DelimFree(m + [SPACE, SLASH, SPACE] + proto + [SLASH] + version, LineDelims)
    requires more == [] || more[0] in LineDelims
    ensures LineTokens(request) == [m, proto, version]
  {
    LineOfRequest(request, m + [SPACE, SLASH, SPACE] + proto + [SLASH] + version, more);
    OriginFormTokens(m, proto, version);
  }
}
