/**
 * The two first-success loops over a resolver's address list: the child's
 * upstream connect loop (proxy.c:175-200) and the listener's bind loop
 * (proxy.c:72-97). The list and what each system call returns for each
 * entry are inputs; the loops only decide which entry wins.
 */
module Upstream {
  import opened Wrappers

  /** Trying one resolved address: what `socket` returns and whether `connect` succeeds. */
  datatype ConnectAttempt = ConnectAttempt(socketFd: int, connectOk: bool)

  predicate Connects(a: ConnectAttempt)
  {
    a.socketFd >= 0 && a.connectOk
  }

  /** The descriptors `socket` handed out among `cs`. */
  function OpenedFds(cs: seq<ConnectAttempt>): seq<int>
  {
    if cs == [] then []
    else (if cs[0].socketFd >= 0 then [cs[0].socketFd] else []) + OpenedFds(cs[1..])
  }

  lemma OpenedFdsAppend(cs: seq<ConnectAttempt>, c: ConnectAttempt)
    ensures OpenedFds(cs + [c]) == OpenedFds(cs) + (if c.socketFd >= 0 then [c.socketFd] else [])
  {
    if cs != [] {
      assert (cs + [c])[1..] == cs[1..] + [c];
      OpenedFdsAppend(cs[1..], c);
    } else {
      assert cs + [c] == [c];
    }
  }

  /**
   * The connect loop. Entries are tried in list order; a failed `socket`
   * moves on, a failed `connect` closes the new socket and moves on, and
   * the first entry where both succeed ends the loop with its socket in
   * `sockfd`. `None` is the `p == NULL` failure after the list ran out.
   * `closed` lists the descriptors closed on the way, `tried` how many
   * entries were looked at.
   */
  method ConnectFirst(cs: seq<ConnectAttempt>) returns (chosen: Option<nat>, sockfd: int, closed: seq<int>, tried: nat)
    ensures chosen.Some? ==> chosen.value < |cs| && Connects(cs[chosen.value])
    ensures chosen.Some? ==> forall j :: 0 <= j < chosen.value ==> !Connects(cs[j])
    ensures chosen.Some? ==> sockfd == cs[chosen.value].socketFd && tried == chosen.value + 1
    ensures chosen.Some? ==> closed == OpenedFds(cs[..chosen.value])
    ensures chosen.None? ==> forall j :: 0 <= j < |cs| ==> !Connects(cs[j])
    ensures chosen.None? ==> closed == OpenedFds(cs) && tried == |cs|
  {
    var i := 0;
    closed := [];
    sockfd := -1;
    while i < |cs|
      invariant i <= |cs|
      invariant forall j :: 0 <= j < i ==> !Connects(cs[j])
      invariant closed == OpenedFds(cs[..i])
    {
      OpenedFdsAppend(cs[..i], cs[i]);
      assert cs[..i + 1] == cs[..i] + [cs[i]];
      sockfd := cs[i].socketFd;
      if sockfd < 0 {
        i := i + 1;
        continue;
      }
      if !cs[i].connectOk {
        closed := closed + [sockfd];
        i := i + 1;
        continue;
      }
      return Some(i), sockfd, closed, i + 1;
    }
    assert cs[..i] == cs;
    return None, sockfd, closed, i;
  }

  /** Trying one address for the listener: `socket`'s return, then whether `setsockopt` and `bind` succeed. */
  datatype BindAttempt = BindAttempt(socketFd: int, setsockoptOk: bool, bindOk: bool)

  /** How the bind loop ends: bound on entry `index`, aborted because `setsockopt` failed there, or out of entries. */
  datatype BindResult = Bound(index: nat, sockfd: int) | SetsockoptFailed(index: nat) | NoneBound

  /** An entry the bind loop passes over: `socket` failed, or `bind` did after `setsockopt` worked. */
  predicate PassedOver(b: BindAttempt)
  {
    b.socketFd < 0 || (b.setsockoptOk && !b.bindOk)
  }

  /**
   * The bind loop: like the connect loop, except that a failed
   * `setsockopt` does not move on but makes `main` return -1.
   */
  method BindFirst(bs: seq<BindAttempt>) returns (result: BindResult)
    ensures result.Bound? ==> result.index < |bs| && result.sockfd == bs[result.index].socketFd >= 0
    ensures result.Bound? ==> bs[result.index].setsockoptOk && bs[result.index].bindOk
    ensures result.SetsockoptFailed? ==> result.index < |bs| && bs[result.index].socketFd >= 0
    ensures result.SetsockoptFailed? ==> !bs[result.index].setsockoptOk
    ensures !result.NoneBound? ==> forall j :: 0 <= j < result.index ==> PassedOver(bs[j])
    ensures result.NoneBound? ==> forall j :: 0 <= j < |bs| ==> PassedOver(bs[j])
  {
    var i := 0;
    while i < |bs|
      invariant i <= |bs|
      invariant forall j :: 0 <= j < i ==> PassedOver(bs[j])
    {
      var sockfd := bs[i].socketFd;
      if sockfd < 0 {
        i := i + 1;
        continue;
      }
      if !bs[i].setsockoptOk {
        return SetsockoptFailed(i);
      }
      if !bs[i].bindOk {
        i := i + 1;
        continue;
      }
      return Bound(i, sockfd);
    }
    return NoneBound;
  }
}
