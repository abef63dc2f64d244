# http-proxy: the child's request and relay logic

`proxy.c` is a forking HTTP proxy. For each client, a forked child:

1. receives the request into `buf[MAXBUFLEN]`, `main`'s one buffer for both the request and the response (the child has its own copy after `fork`), and terminates it with NUL;
2. copies it to the heap;
3. cuts the request line out of the copy with `strtok` on tab and newline;
4. splits that line with `strtok` on space and slash into `lineTkn[10]`;
5. resolves `lineTkn[1]` as the host and connects to the first address that accepts;
6. writes the request to the upstream in a loop;
7. reads the response into the zeroed buffer in a loop, flagging a full buffer as a possibly incomplete response;
8. sends the whole buffer back to the client.

The listener's bind loop has the same first-success shape as the connect loop.

This project models those steps in Dafny, in the source's own imperative form, and proves what they compute:

- the receive buffer is an array;
- the heap copy is the array of a `Tokenizer` object;
- strtok is a method that writes NUL over the delimiter ending each token and keeps the hidden resume cursor as a field;
- `lineTkn` is an array of slots;
- the four loops are `while` loops with invariants.

Each system call's result is an input.

- **Reads.** The peer's bytes are a stream. Each `read`/`recv` takes a `ReadStep`: either it fails (returning -1), or `n` bytes are ready, and it returns at most `n` bytes, no more than asked for and no more than the stream has left.
- **Writes.** Each `write`/`send` takes a `WriteStep`: either it fails, or it accepts up to `n` bytes.
- **Resolver and sockets.** The address list is a sequence of outcomes, one per entry, covering `socket`, `connect`, `setsockopt` and `bind`.

The steps form a finite sequence. If it runs out while the C loop would go on, the model stops with a separate "exhausted" outcome.

Modules, one per file:

| file | module | contents |
|---|---|---|
| `wrappers.dfy` | `Wrappers` | `Option` |
| `bytes.dfy` | `Bytes` | bytes, the constants, C strings (`CStringAt`, `Strlen`) |
| `io.dfy` | `Io` | read and write steps and their return values |
| `tokens.dfy` | `Tokenization` | what a run of strtok calls computes: the tokens of a string, on values |
| `strtok.dfy` | `Strtok` | the heap copy and strtok itself, proved against `Tokens` |
| `request.dfy` | `Request` | capture, request line, token loop into `lineTkn`, host |
| `upstream.dfy` | `Upstream` | the connect loop and the bind loop |
| `relay.dfy` | `Relay` | the forward loop, the read loop, the reply |

Where the code and the intended behaviour differ, the model follows the code:

- **The host is the third token.** The token loop stores each token at the index of the one before it. So `lineTkn[1]` is the third token of the request line, and `lineTkn[0]` is the second (the loop overwrites the first).
  - With exactly two tokens, `lineTkn[1]` is NULL.
  - With fewer, it was never written: an uninitialised automatic array.
  - An origin-form request `GET / HTTP/1.1` is not rejected. The path gives no token, and the host becomes `1.1` followed by the request's carriage return.
- **More than ten tokens overflow `lineTkn`.** The model stops at the first out-of-bounds write with `overflow` set, and proves that this happens exactly when the request line has more than ten tokens.
- **A -1 return is added to the byte counters.**
  - A failed first write or read makes the next call start one byte before the buffer. This is undefined behaviour; the model stops there.
  - A later failed write makes the next write send one byte again.
  - A later failed read makes the next read overwrite one byte.
- **The reply is always the whole buffer.** It is `MAXBUFLEN` bytes, and its last byte is always NUL. Without failed reads, and with as many read steps as the loop takes, it is the response cut at `MAXBUFLEN - 1` bytes, then zeros.
- **A full buffer is always flagged.** The incomplete flag `recvdBytes == totalBytes` is also raised for a complete response of exactly `MAXBUFLEN - 1` bytes.
- **A failed `setsockopt` aborts the bind loop.** `main` returns -1 instead of trying the next address.

## Model

| member | source | states |
|---|---|---|
| Bytes.CStringAt | proxy.c:152 | the C string at an index stays within the buffer |
| Bytes.CStringAtShape | proxy.c:152 | the C string at `i` is the slice of the buffer from `i` that contains no NUL and is followed by a NUL or the end of the buffer |
| Bytes.CStringUnique | proxy.c:152 | any NUL-free slice followed by a NUL or the end of the buffer is the C string there |
| Bytes.CStringAtSuffix | proxy.c:158 | the C string at `i` depends only on the bytes from `i` on, so writes before `i` do not change it |
| Bytes.CStringCut | proxy.c:158 | writing NUL at `e` makes the C string at `i` the bytes from `i` to `e` when they hold no NUL |
| Bytes.StrlenBounded | proxy.c:146-152 | after `buf[n] = '\0'`, `strlen(buf) <= n`, and the string `strcpy` copies is that of the first `n` bytes, so `malloc(n + 1)` is enough |
| Io.ReadReturn | proxy.c:221 | a read returns -1 exactly when it fails; otherwise it returns between 0 and both what was asked and what the stream has left, and 0 only when either is 0 |
| Io.WriteReturn | proxy.c:207 | a write returns -1 exactly when it fails; otherwise it returns at most what was offered, and at least 1 when the kernel takes some and some were offered |
| Tokenization.Run | proxy.c:153-154 | the longest delimiter-free prefix (what strtok's strcspn measures): a prefix, without delimiters, ending at the end or at a delimiter |
| Tokenization.TokensWellFormed | proxy.c:154-161 | every token is non-empty and contains no delimiter, so `//` never yields an empty token |
| Tokenization.TokensCover | proxy.c:154-161 | joining the tokens gives back the line with its delimiters removed: no byte is lost or reordered |
| Tokenization.SkipDelim | proxy.c:154-158 | a leading delimiter produces no token |
| Tokenization.TokensAfterLead | proxy.c:153 | any run of leading delimiters produces no token |
| Tokenization.TokensCons | proxy.c:154-158 | a non-empty delimiter-free run followed by the end or a delimiter is the next token |
| Tokenization.TokensOfRun | proxy.c:154-158 | a non-empty delimiter-free string is exactly one token |
| Tokenization.TokensSplit | proxy.c:154-161 | splitting at any delimiter splits the token list into the tokens before it and the tokens after |
| Tokenization.TokenThenDelim | proxy.c:154-158 | a token followed by a delimiter comes first, then the tokens after the delimiter |
| Tokenization.TokensOfJoin | proxy.c:154-161 | tokens joined by one delimiter split back into exactly those tokens |
| Strtok.CStringSurvives | proxy.c:156-160 | a delimiter-free C string in the copy stays the same while strtok only turns delimiters into NUL |
| Strtok.Tokenizer.Copy | proxy.c:151-152 | `malloc(n + 1)` and `strcpy`: a fresh array of `n + 1` bytes holding the C string of the buffer, with its terminating NUL |
| Strtok.Tokenizer.SkipDelims | proxy.c:153-154 | strtok's skip over leading delimiters stops at a non-delimiter without passing the NUL, and the skipped bytes give no token |
| Strtok.Tokenizer.TokenEnd | proxy.c:153-154 | a token ends at the first NUL or delimiter after its start, and holds neither |
| Strtok.Tokenizer.Next | proxy.c:153-158 | a strtok call returns NULL exactly when the string it resumes on has no tokens. Otherwise it returns that string's first token, and the resume cursor is left on the rest of the tokens. Only delimiters change, each to NUL |
| Strtok.SkipOne | proxy.c:153-158 | a delimiter at the cursor gives no token |
| Strtok.TokenEnds | proxy.c:153-158 | the bytes from the token start to the next NUL or delimiter are the next token |
| Strtok.TokenAtEnd | proxy.c:153-158 | a token that ends at the string's NUL is returned whole, nothing is written, and the cursor is left on the NUL |
| Strtok.TokenCut | proxy.c:153-158 | a token that ends at a delimiter is returned as the string cut by the NUL written there, and the remaining tokens start after it |
| Strtok.CutAfter | proxy.c:153-158 | writing NUL over a delimiter clears only that delimiter and leaves the tokens after it unchanged |
| Request.Capture | proxy.c:141-146 | `recv` is asked for at most `MAXBUFLEN - 1` bytes. On failure the buffer is unchanged. Otherwise the client's first `recvdBytes` bytes are followed by the NUL at `buf[recvdBytes]`, which is in bounds, and nothing after it changes |
| Request.CapturedString | proxy.c:146-152 | the C string of the captured buffer is that of the received bytes, whatever lies past the terminator |
| Request.SlotsSurvive | proxy.c:156-160 | the tokens already stored in `lineTkn` stay intact across further strtok calls |
| Request.SlotsExtend | proxy.c:159 | storing turn `i`'s token at `lineTkn[i]` extends the correctly filled prefix by one slot |
| Request.StartTokens | proxy.c:151-155 | after the copy and the first two strtok calls there is no first token exactly when the request has no tokens: no request line (`reqTkn[0]` NULL) or a line of delimiters only. Otherwise the first token and the cursor's remaining tokens are the request's tokens |
| Request.SplitRequest | proxy.c:151-161 | the token loop overflows `lineTkn` exactly when the request line has more than ten tokens. Otherwise slot `j` holds token `j + 1`, the slot after the last token holds NULL, and later slots are unwritten |
| Request.TokenLoop | proxy.c:156-161 | the while loop, entered with the first token stored, overflows exactly when there are more than ten tokens and otherwise leaves every slot as above |
| Request.NextToken | proxy.c:158-159 | in turn `i` (counting from 0, like the tokens), strtok yields token `i + 1`, or NULL after the last, and leaves the stored tokens intact |
| Request.Host | proxy.c:151-163 | the host `lineTkn[1]` overflows exactly when there are more than ten tokens. Without overflow it is the third token when there are at least three, NULL with two, and indeterminate with fewer |
| Request.RequestHost | proxy.c:141-163 | capture and host together: unless `recv` fails, the host is determined by the tokens of the received bytes as in `Host` |
| Request.RequestLineOf | proxy.c:153 | the request line is the first maximal run without tab or newline. Leading tabs and newlines are skipped, and a carriage return stays in the line |
| Request.LineOfRequest | proxy.c:141-154 | for a NUL-free request made of a line and then the end or a line break, the tokens worked with are those of the line |
| Request.AbsoluteFormTokens | proxy.c:154-161 | `M SP SCHEME // HOST / REST` has the tokens `M`, `SCHEME`, `HOST`, then those of `REST` |
| Request.OriginFormTokens | proxy.c:154-161 | `M SP / SP PROTO / VERSION` has exactly the tokens `M`, `PROTO`, `VERSION` |
| Request.AbsoluteFormHost | proxy.c:153-163 | in an absolute-form request the third token, the one `lineTkn[1]` ends up holding, is `HOST` |
| Request.OriginFormHost | proxy.c:153-163 | in an origin-form request the three tokens are method, protocol and version, so the host taken is the version |
| Upstream.ConnectFirst | proxy.c:175-200 | the chosen entry is the first whose `socket` and `connect` both succeed, and its socket is the one used. Every earlier entry failed, and the sockets of failed connects are exactly the ones closed. No choice means no entry succeeds |
| Upstream.BindFirst | proxy.c:72-97 | binding happens on the first entry whose `socket`, `setsockopt` and `bind` succeed, with every earlier entry passed over. A failed `setsockopt` aborts at its entry. No binding means every entry was passed over |
| Relay.Forward | proxy.c:204-213 | `sentBytes` never passes `strlen(buf)`. Without failed writes the upstream got exactly the first `sentBytes` bytes. With writes that always make progress the whole request is sent. A 0 write stops early. A failed first write ends at offset -1, and each failed write makes the upstream get one byte more than counted |
| Relay.ForwardStopping | proxy.c:204-213 | the loop as intended, stopping on a failed write: the upstream always gets exactly the first `sentBytes` bytes, and "sent" means the whole request |
| Relay.Memset | proxy.c:217 | `memset(buf, 0, sizeof buf)`: every one of the buffer's bytes becomes NUL, its length unchanged |
| Relay.ReadInto | proxy.c:221 | a read's bytes land at the offset and the rest of the buffer is unchanged |
| Relay.PlaceNext | proxy.c:221-227 | appending the next chunk keeps the buffer equal to a prefix of the response followed by zeros |
| Relay.ReadTurn | proxy.c:221-227 | one read of at most `totalBytes - recvdBytes` bytes moves the stream position by what it returned and places exactly those bytes at the offset |
| Relay.Fill | proxy.c:217-231 | `recvdBytes` never passes `MAXBUFLEN - 1`, so the last byte stays NUL. The incomplete flag is raised exactly when the buffer is full. End of stream means the response was all read. Without failed reads the buffer is the response's first `recvdBytes` bytes and then zeros, and with enough steps is the response cut at the capacity. A failed first read ends at offset -1 |
| Relay.Reply | proxy.c:238 | `send` is offered all `MAXBUFLEN` bytes, and the client gets the first bytes of the buffer, as many as it returned |
| Relay.Respond | proxy.c:217-238 | The read loop's offset stays at most `MAXBUFLEN - 1` and the response is flagged incomplete exactly when it reaches that. `send` returns what the kernel takes of the `MAXBUFLEN` bytes offered, and the client gets exactly that many first bytes of the buffer (nothing on failure). Without failed reads the buffer is the first `recvdBytes` response bytes then zeros, so a partial send delivers the first `sent` bytes of that; with enough read steps `recvdBytes` is the response length cut at `MAXBUFLEN - 1`. Without failed reads and with a send taken whole, the client gets exactly `MAXBUFLEN` bytes: the response cut at `MAXBUFLEN - 1`, padded with zeros. Whenever the whole buffer goes out, its last byte is NUL |

## Left out

- Listener setup (proxy.c:60-124): `getaddrinfo`, `listen`, `accept`, and the `sigaction` wiring are OS plumbing. Only the bind loop's first-success choice is modelled.
- `fork`, the `SIGCHLD` handler with `waitpid`, and the parent's `close` (proxy.c:41-46, 127, 245) are left out: they are about concurrency and signals.
- `getInAddr`, `inet_ntop`, and all `printf`/`perror` output are left out: they are casts over foreign structs and log text.
- DNS resolution is left out. `getaddrinfo(lineTkn[1], ...)` (proxy.c:170) is represented by its result, the sequence of entries.
- The early `return -1` paths are not given an error type, as the code has none. They are: a failed `recv`, `getaddrinfo` or `send`, and a connect loop in which no entry connected (`p == NULL`). The model returns the failing value or `None`.
- `malloc` without `free` (proxy.c:151, 162) is not modelled. A failing `malloc` is not modelled either: the copy always succeeds.
- `reqTkn` keeps only `reqTkn[0]`, which the parser uses.
- Sockets that are never closed on the error paths are not tracked.
- Kernel steps are a finite sequence. A loop that would go on after they run out, and so block in C, ends with an "exhausted" outcome instead.
- Undefined behaviour is not modelled past its first occurrence. This covers a write or read at offset -1 and a write to `lineTkn[10]` or beyond; at each, the model stops with a flag.
- Request.Host: on overflow, the value returned (indeterminate) does not model what the corrupted stack would hold.
- Relay.Forward: with failed writes, only the number of bytes the upstream got is stated, not which bytes.
- Relay.Fill: with failed reads, the buffer's contents are not stated, only that its last byte stays NUL and the offset bounds.
- Relay.Respond: a partial `send` is not retried by the code. With failed reads the client's bytes are stated only as the first `sent` bytes of the buffer, whose contents Fill then leaves unstated apart from the final NUL. When the read steps run out before the loop would stop, the buffer is stated as the first `recvdBytes` response bytes then zeros, but `recvdBytes` itself only as at most the response length and the capacity.
- Upstream.BindFirst: the `close` of a socket whose `bind` failed is not recorded, unlike in ConnectFirst.

## Findings

| source | as written | input that shows it | evidently intended | confidence | as-written member | corrected member |
|---|---|---|---|---|---|---|
| proxy.c:207-212 | the return value of `write` is added to `sentBytes` even when it is -1 | first write fails: `sentBytes` becomes -1, and the next write starts at `buf - 1`. Or the request `ab`, with writes taking 1 byte, failing, then taking 2 bytes: the upstream gets `aab` and the loop reports the request as sent | a failed write ends the loop, and the upstream gets each byte of the request once | not executed | Relay.Forward | Relay.ForwardStopping |
