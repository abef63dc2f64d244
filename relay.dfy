/**
 * The relay of the child process: the loop that writes the request to the
 * upstream (proxy.c:204-213), the loop that reads the response into the
 * zeroed buffer (proxy.c:217-231), and the single send of the whole buffer
 * back to the client (proxy.c:238). What each system call returns comes
 * from a sequence of kernel steps, see module Io.
 */
module Relay {
  import opened Bytes
  import opened Io

  // ---------------------------------------------------------------------
  // Forward loop
  // ---------------------------------------------------------------------

  /**
   * How the forward loop stops: `sentBytes` reached the request's length,
   * a write returned 0, the offset `buf + sentBytes` fell before the
   * buffer (undefined behaviour in C, where the model stops), or the
   * given steps ran out while the loop would go on.
   */
  datatype ForwardEnd = AllSent | ZeroWrite | OffsetBeforeBuffer | StepsExhausted

  /** How many of the writes failed. */
  function FailedWrites(steps: seq<WriteStep>): nat
  {
    if steps == [] then 0
    else FailedWrites(steps[..|steps| - 1]) + (if steps[|steps| - 1].WriteFails? then 1 else 0)
  }

  /** Every write takes at least one byte whenever it is offered some. */
  predicate AlwaysProgress(steps: seq<WriteStep>)
  {
    forall k :: 0 <= k < |steps| ==> steps[k].Accepts? && steps[k].n >= 1
  }

  /**
   * Lines 204-213: `totalBytes = strlen(buf)`, then a do-while loop whose
   * every turn writes `strlen(buf) - sentBytes` bytes from
   * `buf + sentBytes` and adds the return value, -1 included, to
   * `sentBytes`; a 0 return breaks out. `wire` records what the upstream
   * received and `used` how many steps the loop took.
   *
   * Without failed writes the upstream receives exactly the first
   * `sentBytes` bytes of the request, and with writes that always make
   * progress the whole request. Each failed write lowers `sentBytes` by
   * one, so the next write sends one byte again: the upstream then gets
   * more bytes than `sentBytes` says, and a loop that reports the request
   * as sent has sent something else.
   */
  method Forward(buf: array<byte>, steps: seq<WriteStep>) returns (sentBytes: int, end: ForwardEnd, ghost wire: seq<byte>, used: nat)
    requires NUL in buf[..]
    ensures used <= |steps| && sentBytes <= Strlen(buf[..])
    ensures |wire| == sentBytes + FailedWrites(steps[..used])
    ensures FailedWrites(steps[..used]) == 0 ==> 0 <= sentBytes && wire == CStringAt(buf[..], 0)[..sentBytes]
    ensures end == AllSent ==> sentBytes == Strlen(buf[..])
    ensures end == AllSent && FailedWrites(steps[..used]) > 0 ==> wire != CStringAt(buf[..], 0)
    ensures end == ZeroWrite ==> 0 <= sentBytes < Strlen(buf[..]) || sentBytes == Strlen(buf[..]) == 0
    ensures end == OffsetBeforeBuffer ==> sentBytes < 0
    ensures end == StepsExhausted ==> used == |steps|
    ensures AlwaysProgress(steps) && |steps| >= Strlen(buf[..]) ==> sentBytes == Strlen(buf[..]) && wire == CStringAt(buf[..], 0)
    ensures steps != [] && steps[0].WriteFails? ==> end == OffsetBeforeBuffer && sentBytes == -1
  {
    ghost var data := CStringAt(buf[..], 0);
    assert buf[..][..|data|] == data by {
      CStringAtShape(buf[..], 0);
    }
    var totalBytes := Strlen(buf[..]);
    sentBytes := 0;
    wire := [];
    used := 0;
    while true
      invariant used <= |steps| && sentBytes <= totalBytes == |data|
      invariant |wire| == sentBytes + FailedWrites(steps[..used])
      invariant FailedWrites(steps[..used]) == 0 ==> 0 <= sentBytes && wire == data[..sentBytes]
      invariant used > 0 ==> sentBytes < totalBytes
      invariant AlwaysProgress(steps) ==> used <= sentBytes
      invariant used == 0 ==> sentBytes == 0 && wire == []
      invariant used > 0 && steps[0].WriteFails? ==> used == 1 && sentBytes == -1
      invariant AlwaysProgress(steps) ==> FailedWrites(steps[..used]) == 0
      decreases |steps| - used
    {
      if sentBytes < 0 {
        end := OffsetBeforeBuffer;
        return;
      }
      if used == |steps| {
        end := StepsExhausted;
        return;
      }
      var currBytes := WriteReturn(steps[used], Strlen(buf[..]) - sentBytes);
      assert steps[..used + 1][..used] == steps[..used];
      ghost var chunk: seq<byte> := [];
      if currBytes > 0 {
        chunk := buf[sentBytes..sentBytes + currBytes];
        assert chunk == data[sentBytes..sentBytes + currBytes] by {
          SliceOfPrefix(buf[..], data, sentBytes, sentBytes + currBytes);
        }
      }
      used := used + 1;
      if currBytes == 0 {
        end := ZeroWrite;
        return;
      }
      wire := wire + chunk;
      sentBytes := sentBytes + currBytes;
      if sentBytes >= totalBytes {
        end := AllSent;
        return;
      }
    }
  }

  /** A slice within a prefix of `b` is the same slice of the prefix. */
  lemma SliceOfPrefix(b: seq<byte>, p: seq<byte>, i: nat, j: nat)
    requires |p| <= |b| && b[..|p|] == p && i <= j <= |p|
    ensures b[i..j] == p[i..j]
  {
    assert forall k :: i <= k < j ==> b[k] == b[..|p|][k];
  }

  /** How the loop as evidently intended stops. */
  datatype StoppingEnd = Sent | WriteFailed | Exhausted

  /**
   * The forward loop as evidently intended: a write that returns -1, or 0
   * while bytes are left, ends it (the connection is lost) instead of
   * being added to `sentBytes`. Whatever the kernel does, the upstream
   * then receives exactly the first `sentBytes` bytes of the request, each
   * once, and `Sent` means all of them.
   */
  method ForwardStopping(buf: array<byte>, steps: seq<WriteStep>) returns (sentBytes: nat, end: StoppingEnd, ghost wire: seq<byte>)
    requires NUL in buf[..]
    ensures sentBytes <= Strlen(buf[..]) && wire == CStringAt(buf[..], 0)[..sentBytes]
    ensures end == Sent ==> sentBytes == Strlen(buf[..]) && wire == CStringAt(buf[..], 0)
    ensures end == WriteFailed ==> sentBytes < Strlen(buf[..]) || Strlen(buf[..]) == 0
    ensures AlwaysProgress(steps) && |steps| >= Strlen(buf[..]) && steps != [] ==> end == Sent
  {
    ghost var data := CStringAt(buf[..], 0);
    assert buf[..][..|data|] == data by {
      CStringAtShape(buf[..], 0);
    }
    var totalBytes := Strlen(buf[..]);
    sentBytes := 0;
    wire := [];
    var k := 0;
    while true
      invariant k <= |steps| && sentBytes <= totalBytes == |data|
      invariant wire == data[..sentBytes]
      invariant k == 0 ==> sentBytes == 0
      invariant k > 0 ==> sentBytes < totalBytes
      invariant AlwaysProgress(steps) ==> k <= sentBytes
      decreases |steps| - k
    {
      if k == |steps| {
        end := Exhausted;
        return;
      }
      var currBytes := WriteReturn(steps[k], totalBytes - sentBytes);
      k := k + 1;
      if currBytes < 0 || (currBytes == 0 && totalBytes > 0) {
        end := WriteFailed;
        return;
      }
      wire := wire + buf[sentBytes..sentBytes + currBytes];
      assert buf[sentBytes..sentBytes + currBytes] == data[sentBytes..sentBytes + currBytes] by {
        SliceOfPrefix(buf[..], data, sentBytes, sentBytes + currBytes);
      }
      sentBytes := sentBytes + currBytes;
      if sentBytes >= totalBytes {
        end := Sent;
        return;
      }
    }
  }

  // ---------------------------------------------------------------------
  // Response read loop
  // ---------------------------------------------------------------------

  /** `totalBytes = sizeof(buf) - 1`: the most the read loop takes in. */
  const ResponseCapacity: nat := MAXBUFLEN - 1

  /**
   * How the read loop stops: a read returned 0 (end of stream),
   * `recvdBytes` reached the capacity, the offset fell before the buffer
   * (undefined behaviour in C, where the model stops), or the given steps
   * ran out while the loop would go on.
   */
  datatype FillEnd = EndOfStream | BufferFull | ReadBeforeBuffer | ReadsExhausted

  predicate NoFailedReads(steps: seq<ReadStep>)
  {
    forall k :: 0 <= k < |steps| ==> steps[k].Ready?
  }

  /** `memset(buf, 0, sizeof buf)`. */
  method Memset(buf: array<byte>)
    modifies buf
    ensures buf[..] == Zeros(buf.Length)
  {
    forall j | 0 <= j < buf.Length {
      buf[j] := NUL;
    }
  }

  /** `read(sockfd, buf + at, ...)` handing over `chunk`: the bytes land at `at`, the rest stays. */
  method ReadInto(buf: array<byte>, at: nat, chunk: seq<byte>)
    requires at + |chunk| <= buf.Length
    modifies buf
    ensures buf[..] == old(buf[..at]) + chunk + old(buf[at + |chunk|..])
  {
    forall j | 0 <= j < |chunk| {
      buf[at + j] := chunk[j];
    }
    assert buf[..] == old(buf[..at]) + chunk + old(buf[at + |chunk|..]);
  }

  /** Appending the next chunk of the response to a buffer that holds a prefix of it followed by zeros. */
  lemma PlaceNext(resp: seq<byte>, r: nat, c: nat, buf: seq<byte>)
    requires r + c <= |resp| && r + c <= MAXBUFLEN && buf == resp[..r] + Zeros(MAXBUFLEN - r)
    ensures buf[..r] + resp[r..r + c] + buf[r + c..] == resp[..r + c] + Zeros(MAXBUFLEN - (r + c))
  {
    assert buf[..r] == resp[..r];
    assert buf[r + c..] == Zeros(MAXBUFLEN - (r + c));
    assert resp[..r] + resp[r..r + c] == resp[..r + c];
  }

  /**
   * One `read(sockfd, buf + recvdBytes, totalBytes - recvdBytes)` of the
   * loop: the bytes handed over land at the offset and the stream position
   * moves past them; a failed read or end of stream leaves both alone.
   */
  method ReadTurn(buf: array<byte>, resp: seq<byte>, step: ReadStep, recvdBytes: nat, consumed: nat)
    returns (currBytes: int, consumed': nat)
    requires buf.Length == MAXBUFLEN && recvdBytes < ResponseCapacity && consumed <= |resp|
    modifies buf
    ensures currBytes == ReadReturn(step, ResponseCapacity - recvdBytes, |resp| - consumed)
    ensures consumed' == if currBytes > 0 then consumed + currBytes else consumed
    ensures currBytes <= 0 ==> buf[..] == old(buf[..])
    ensures currBytes > 0 ==> buf[..] == old(buf[..recvdBytes]) + resp[consumed..consumed'] + old(buf[recvdBytes + currBytes..])
  {
    currBytes := ReadReturn(step, ResponseCapacity - recvdBytes, |resp| - consumed);
    consumed' := consumed;
    if currBytes > 0 {
      consumed' := consumed + currBytes;
      ReadInto(buf, recvdBytes, resp[consumed..consumed']);
    }
  }

  /**
   * Lines 217-231: zero `buf`, then a do-while loop whose every turn reads
   * at most `totalBytes - recvdBytes` bytes of the upstream's response
   * `resp` into `buf + recvdBytes` and adds the return value, -1 included,
   * to `recvdBytes`; a 0 return breaks out. `incomplete` is the condition
   * under which the code reports a possibly incomplete response, and
   * `consumed` how much of the response the kernel handed over.
   *
   * The offset never passes the capacity, so the last byte of the buffer
   * stays NUL. Without failed reads the buffer holds the response's first
   * `recvdBytes` bytes followed by zeros, and with enough steps that is
   * the response cut at the capacity: the loop stops at end of stream
   * exactly when the response is shorter, and otherwise reports a full
   * buffer, which the code flags as incomplete even for a response of
   * exactly the capacity.
   */
  method Fill(buf: array<byte>, resp: seq<byte>, steps: seq<ReadStep>) returns (recvdBytes: int, end: FillEnd, incomplete: bool, consumed: nat)
    requires buf.Length == MAXBUFLEN
    modifies buf
    ensures recvdBytes <= consumed <= |resp| && recvdBytes <= ResponseCapacity
    ensures buf[MAXBUFLEN - 1] == NUL
    ensures incomplete <==> recvdBytes == ResponseCapacity
    ensures end == BufferFull ==> recvdBytes == ResponseCapacity
    ensures end == EndOfStream ==> 0 <= recvdBytes < ResponseCapacity && consumed == |resp|
    ensures end == ReadBeforeBuffer ==> recvdBytes < 0
    ensures NoFailedReads(steps) ==> 0 <= recvdBytes == consumed && buf[..] == resp[..recvdBytes] + Zeros(MAXBUFLEN - recvdBytes)
    ensures NoFailedReads(steps) && |steps| > Min(|resp|, ResponseCapacity) ==>
      recvdBytes == Min(|resp|, ResponseCapacity) && (end == BufferFull <==> |resp| >= ResponseCapacity)
    ensures steps != [] && steps[0].ReadFails? ==> end == ReadBeforeBuffer && recvdBytes == -1
  {
    Memset(buf);
    assert buf[..] == resp[..0] + Zeros(MAXBUFLEN - 0);
    var totalBytes := buf.Length - 1;
    recvdBytes := 0;
    consumed := 0;
    var k := 0;
    while true
      invariant k <= |steps| && recvdBytes <= consumed <= |resp| && recvdBytes <= totalBytes == ResponseCapacity
      invariant buf[MAXBUFLEN - 1] == NUL
      invariant recvdBytes < totalBytes
      invariant NoFailedReads(steps) ==> 0 <= recvdBytes == consumed && buf[..] == resp[..recvdBytes] + Zeros(MAXBUFLEN - recvdBytes)
      invariant NoFailedReads(steps) ==> k <= recvdBytes
      invariant k == 0 ==> recvdBytes == 0
      invariant k > 0 && steps[0].ReadFails? ==> k == 1 && recvdBytes == -1
      decreases |steps| - k
    {
      if recvdBytes < 0 {
        end := ReadBeforeBuffer;
        break;
      }
      if k == |steps| {
        end := ReadsExhausted;
        break;
      }
      ghost var before := buf[..];
      var currBytes;
      currBytes, consumed := ReadTurn(buf, resp, steps[k], recvdBytes, consumed);
      k := k + 1;
      if currBytes == 0 {
        end := EndOfStream;
        break;
      }
      if currBytes > 0 && NoFailedReads(steps) {
        PlaceNext(resp, recvdBytes, currBytes, before);
      }
      recvdBytes := recvdBytes + currBytes;
      if recvdBytes >= totalBytes {
        end := BufferFull;
        break;
      }
    }
    incomplete := recvdBytes == totalBytes;
  }

  // ---------------------------------------------------------------------
  // Reply
  // ---------------------------------------------------------------------

  /**
   * Line 238: `send(clientfd, buf, sizeof buf, 0)`: the whole buffer is
   * offered, whatever was received; a partial send is not retried.
   * `toClient` is what the client receives.
   */
  method Reply(buf: array<byte>, step: WriteStep) returns (sent: int, ghost toClient: seq<byte>)
    requires buf.Length == MAXBUFLEN
    ensures sent == WriteReturn(step, MAXBUFLEN)
    ensures sent < 0 ==> toClient == []
    ensures sent >= 0 ==> toClient == buf[..sent]
  {
    sent := WriteReturn(step, buf.Length);
    toClient := if sent > 0 then buf[..sent] else [];
  }

  /**
   * Lines 217-241 together: read the response, then send the buffer.
   * `recvdBytes` and `incomplete` are the read loop's offset and flag.
   * Without failed reads the buffer sent from holds the response's first
   * `recvdBytes` bytes followed by zeros, so the client gets the first
   * `sent` bytes of that; with enough steps `recvdBytes` is the response
   * cut at the capacity, and with a send the kernel takes whole the client
   * receives exactly MAXBUFLEN bytes. Whenever the whole buffer goes out,
   * its last byte is NUL.
   */
  method Respond(buf: array<byte>, resp: seq<byte>, steps: seq<ReadStep>, sendStep: WriteStep)
    returns (recvdBytes: int, incomplete: bool, sent: int, ghost toClient: seq<byte>)
    requires buf.Length == MAXBUFLEN
    modifies buf
    ensures recvdBytes <= |resp| && recvdBytes <= ResponseCapacity
    ensures incomplete <==> recvdBytes == ResponseCapacity
    ensures NoFailedReads(steps) ==> 0 <= recvdBytes && buf[..] == resp[..recvdBytes] + Zeros(MAXBUFLEN - recvdBytes)
    ensures NoFailedReads(steps) && |steps| > Min(|resp|, ResponseCapacity) ==> recvdBytes == Min(|resp|, ResponseCapacity)
    ensures NoFailedReads(steps) && |steps| > Min(|resp|, ResponseCapacity) && sendStep.Accepts? && sendStep.n >= MAXBUFLEN ==>
      sent == MAXBUFLEN &&
      toClient == resp[..Min(|resp|, ResponseCapacity)] + Zeros(MAXBUFLEN - Min(|resp|, ResponseCapacity))
    ensures sent == WriteReturn(sendStep, MAXBUFLEN)
    ensures sent < 0 ==> toClient == []
    ensures sent >= 0 ==> |toClient| == sent && toClient == buf[..sent]
    ensures NoFailedReads(steps) && sent >= 0 ==> toClient == (resp[..recvdBytes] + Zeros(MAXBUFLEN - recvdBytes))[..sent]
    ensures sent == MAXBUFLEN ==> |toClient| == MAXBUFLEN && toClient[MAXBUFLEN - 1] == NUL
  {
    var end, consumed;
    recvdBytes, end, incomplete, consumed := Fill(buf, resp, steps);
    sent, toClient := Reply(buf, sendStep);
    if sent == MAXBUFLEN {
      assert toClient == buf[..];
    }
  }
}
