/** The other end of one TCP connection, as seen through the send and recv
    system calls together with send_buf of src/server.c.

    The kernel and the remote peer are an oracle: `sendReplies` scripts what
    successive send calls report (a negative entry is a failure, an entry
    k >= 0 lets at most k bytes through), `recvReplies` does the same for
    receive calls, `sent` is every byte handed over so far and `incoming`
    every byte the peer has sent that has not been read yet. A call made
    after its script has run out fails, as a call that cannot make progress
    within the socket timeout does. */
module Socket {
  import opened Wire

  datatype Peer = Peer(sendReplies: seq<int>, sent: seq<byte>, recvReplies: seq<int>, incoming: seq<byte>)

  /** send(2): returns -1, or a count no larger than the bytes offered, and
      transmits exactly that many leading bytes of `data`. */
  function Send(p: Peer, data: seq<byte>): (r: (int, Peer))
    ensures r.0 == -1 || 0 <= r.0 <= |data|
    ensures r.0 == -1 ==> r.1.sent == p.sent
    ensures r.0 != -1 ==> r.1.sent == p.sent + data[..r.0]
    ensures r.1.recvReplies == p.recvReplies && r.1.incoming == p.incoming
    ensures |r.1.sendReplies| <= |p.sendReplies|
    ensures r.0 != -1 ==> |r.1.sendReplies| < |p.sendReplies|
  {
    if p.sendReplies == [] then (-1, p)
    else
      var k := p.sendReplies[0];
      var q := p.(sendReplies := p.sendReplies[1..]);
      if k < 0 then (-1, q)
      else
        var n: int := Min(k, |data|);
        (n, q.(sent := p.sent + data[..n]))
  }

  /** recv(2) for up to `n` bytes: -1 on error, 0 when the peer has closed
      (or `n` is 0), otherwise the leading bytes of what the peer sent. */
  function Recv(p: Peer, n: nat): (r: (int, seq<byte>, Peer))
    ensures -1 <= r.0 <= n && r.0 <= |p.incoming|
    ensures r.0 >= 0 ==> |r.1| == r.0 && r.1 == p.incoming[..r.0] && r.2.incoming == p.incoming[r.0..]
    ensures r.0 < 0 ==> r.1 == [] && r.2.incoming == p.incoming
    ensures r.2.sent == p.sent && r.2.sendReplies == p.sendReplies
  {
    if p.recvReplies == [] then (-1, [], p)
    else
      var k := p.recvReplies[0];
      var q := p.(recvReplies := p.recvReplies[1..]);
      if k < 0 then (-1, [], q)
      else
        var m: int := Min(Min(k, n), |p.incoming|);
        (m, p.incoming[..m], q.(incoming := p.incoming[m..]))
  }

  /** receive_buf for `n` bytes. It is defined outside the modelled files;
      this model assumes it delivers all `n` bytes or none: -1 on error, 0
      when the peer closed before `n` bytes were there, otherwise `n`. */
  function ReceiveBuf(p: Peer, n: nat): (r: (int, seq<byte>, Peer))
    ensures r.0 == -1 || r.0 == 0 || (r.0 == n <= |p.incoming| && r.1 == p.incoming[..n] && r.2.incoming == p.incoming[n..])
    ensures r.0 != n ==> r.1 == [] && r.2.incoming == p.incoming
    ensures r.2.sent == p.sent && r.2.sendReplies == p.sendReplies
  {
    if p.recvReplies == [] || p.recvReplies[0] < 0 then (-1, [], p.(recvReplies := if p.recvReplies == [] then [] else p.recvReplies[1..]))
    else if |p.incoming| < n then (0, [], p.(recvReplies := p.recvReplies[1..]))
    else (n, p.incoming[..n], p.(recvReplies := p.recvReplies[1..], incoming := p.incoming[n..]))
  }

  /** The outcome of send_buf's loop once `sent` bytes of `buf` are out and
      `n` holds the last value send returned (or whatever the uninitialised
      variable holds, before the first call). */
  function SendFrom(p: Peer, buf: seq<byte>, sent: nat, n: int): (r: (int, Peer))
    requires sent <= |buf|
    ensures r.0 == -1 || r.0 == |buf|
    ensures |r.1.sendReplies| <= |p.sendReplies|
    ensures r.1.recvReplies == p.recvReplies && r.1.incoming == p.incoming
    decreases |p.sendReplies|
  {
    if sent == |buf| then (if n == -1 then -1 else sent, p)
    else
      var (m, q) := Send(p, buf[sent..]);
      if m == -1 then (-1, q)
      else SendFrom(q, buf, sent + m, m)
  }

  /** send_buf either reports the whole length, in which case exactly the
      rest of `buf` went out, in order; or it reports -1, in which case a
      prefix of the rest went out. */
  lemma {:induction false} SendFromOutcome(p: Peer, buf: seq<byte>, sent: nat, n: int)
    requires sent <= |buf|
    ensures var (r, q) := SendFrom(p, buf, sent, n);
      && (r == -1 || r == |buf|)
      && (r == |buf| ==> q.sent == p.sent + buf[sent..])
      && p.sent <= q.sent <= p.sent + buf[sent..]
      && q.recvReplies == p.recvReplies && q.incoming == p.incoming
    decreases |p.sendReplies|
  {
    if sent < |buf| {
      var (m, q) := Send(p, buf[sent..]);
      if m != -1 {
        SendFromOutcome(q, buf, sent + m, m);
        assert buf[sent..] == buf[sent..][..m] + buf[sent + m..];
      }
    }
  }

  /** A non-empty buffer's outcome does not depend on the uninitialised `n`. */
  lemma SendFromIgnoresUninit(p: Peer, buf: seq<byte>, n1: int, n2: int)
    requires |buf| > 0
    ensures SendFrom(p, buf, 0, n1) == SendFrom(p, buf, 0, n2)
  {
  }

  /** With an empty buffer nothing is sent and the result is decided by the
      uninitialised `n` alone: -1 exactly when it happens to hold -1. */
  lemma SendEmptyBuffer(p: Peer, n: int)
    ensures SendFrom(p, [], 0, n) == (if n == -1 then -1 else 0, p)
  {
  }

  /** send_buf (src/server.c): call send on the unsent rest of `buf` until
      all of it is out or a call fails. `uninit` is the value the local `n`
      holds before the first call. */
  method SendBuf(p: Peer, buf: seq<byte>, uninit: int) returns (r: int, p': Peer)
    ensures (r, p') == SendFrom(p, buf, 0, uninit)
    ensures r == -1 || r == |buf|
    ensures r == |buf| ==> p'.sent == p.sent + buf
    ensures p.sent <= p'.sent <= p.sent + buf
    ensures p'.recvReplies == p.recvReplies && p'.incoming == p.incoming
  {
    var sent: nat := 0;
    var n := uninit;
    p' := p;
    while sent < |buf|
      invariant sent <= |buf|
      invariant SendFrom(p', buf, sent, n) == SendFrom(p, buf, 0, uninit)
      decreases |p'.sendReplies|
    {
      var res := Send(p', buf[sent..]);
      n, p' := res.0, res.1;
      if n == -1 {
        break;
      }
      sent := sent + n;
    }
    r := if n == -1 then -1 else sent;
    SendFromOutcome(p, buf, 0, uninit);
  }
}
