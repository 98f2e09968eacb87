/** The client side of the two endpoints (src/requests.c): the one-byte
    endpoint request, the add-block request and the chain download. */
module Requests {
  import opened Wire
  import opened Blocks
  import opened Codec
  import opened Chain
  import opened Socket
  import Endpoints

  /** enum endpoint_id */
  const ENDPOINT_CHAIN: byte := 0
  const ENDPOINT_ADD_BLOCK: byte := 1

  /** send_endpoint_request: one send of the id byte; -1 when that send
      reports an error, 0 otherwise, including when it sent nothing. */
  function SendEndpointRequest(p: Peer, id: byte): (r: (int, Peer))
    ensures r.0 == 0 || r.0 == -1
    ensures r.0 == -1 ==> r.1.sent == p.sent
    ensures r.0 == 0 ==> r.1.sent == p.sent || r.1.sent == p.sent + [id]
    ensures r.1.recvReplies == p.recvReplies && r.1.incoming == p.incoming
  {
    var (n, q) := Send(p, [id]);
    if n == -1 then (-1, q) else (0, q)
  }

  /** The bytes a complete add-block request puts on the wire for the C
      string `payload`: the id, the big-endian length, the text. */
  function AddBlockRequestBytes(payload: seq<byte>): (w: seq<byte>)
    requires 0 in payload && Strlen(payload) <= MAX_PAYLOAD
    ensures |w| == 3 + Strlen(payload) && w[0] == ENDPOINT_ADD_BLOCK
  {
    [ENDPOINT_ADD_BLOCK] + U16BE(Strlen(payload)) + payload[..Strlen(payload)]
  }

  /** request_add_block_endpoint as written. The id byte goes out first and
      the caller tests its result against 1, which send_endpoint_request
      never returns, so a failed id send goes unnoticed. `uninitLen` and
      `uninitText` are what the `n` of each send_buf call holds before its
      first send. */
  method RequestAddBlock(p: Peer, payload: seq<byte>, uninitLen: int, uninitText: int) returns (r: int, p': Peer)
    requires 0 in payload
    ensures r == 0 || r == -1
    ensures p'.incoming == p.incoming
    ensures var q := SendEndpointRequest(p, ENDPOINT_ADD_BLOCK).1;
      Strlen(payload) > MAX_PAYLOAD ==> r == -1 && p' == q
    ensures var q := SendEndpointRequest(p, ENDPOINT_ADD_BLOCK).1; var n := Strlen(payload);
      n <= MAX_PAYLOAD ==>
        var h := SendFrom(q, U16BE(n), 0, uninitLen);
        && (r == 0 <==> h.0 != -1 && SendFrom(h.1, payload[..n], 0, uninitText).0 != -1)
        && (r == 0 ==> p'.sent == q.sent + U16BE(n) + payload[..n])
        && q.sent <= p'.sent <= q.sent + U16BE(n) + payload[..n]
    ensures Strlen(payload) == 0 && uninitText == -1 ==> r == -1
  {
    var res := SendEndpointRequest(p, ENDPOINT_ADD_BLOCK);
    var q := res.1;
    if res.0 == 1 {
      return -1, q;
    }
    var n := Strlen(payload);
    if n > MAX_PAYLOAD {
      return -1, q;
    }
    var m1, q1 := SendBuf(q, U16BE(n), uninitLen);
    SendFromOutcome(q, U16BE(n), 0, uninitLen);
    if m1 == -1 {
      assert q.sent <= q.sent + U16BE(n) <= q.sent + U16BE(n) + payload[..n];
      return -1, q1;
    }
    var m2, q2 := SendBuf(q1, payload[..n], uninitText);
    SendFromOutcome(q1, payload[..n], 0, uninitText);
    if n == 0 {
      SendEmptyBuffer(q1, uninitText);
    }
    assert q.sent + U16BE(n) + payload[..n] == q1.sent + payload[..n];
    if m2 == -1 {
      return -1, q2;
    }
    r, p' := 0, q2;
  }

  /** A failed id send does not stop the request: the length and the text
      still go out and the client reports success, although the node never
      got the id that announces them. */
  lemma IdSendFailureUnnoticed()
    ensures var p := Peer([-1, 2, 2], [], [], []);
      var q := SendEndpointRequest(p, ENDPOINT_ADD_BLOCK).1;
      && SendEndpointRequest(p, ENDPOINT_ADD_BLOCK).0 == -1
      && q.sent == []
      && SendFrom(q, U16BE(2), 0, 0).0 != -1
      && SendFrom(SendFrom(q, U16BE(2), 0, 0).1, [0x61, 0x62], 0, 0).0 != -1
  {
    var p := Peer([-1, 2, 2], [], [], []);
    var q := SendEndpointRequest(p, ENDPOINT_ADD_BLOCK).1;
    assert q == Peer([2, 2], [], [], []);
    var h := Send(q, U16BE(2));
    assert h.0 == 2;
    assert U16BE(2)[2..] == [];
    assert SendFrom(q, U16BE(2), 0, 0) == SendFrom(h.1, U16BE(2), 2, 2);
    var h2 := Send(h.1, [0x61, 0x62]);
    assert h2.0 == 2;
    assert [0x61, 0x62][2..] == [];
  }

  /** The id send with the check the callers evidently intend: it fails
      unless the id byte actually went out. This goes one step beyond
      testing for -1 instead of 1: a send that returns 0, having sent
      nothing, also counts as a failure here. */
  function SendEndpointRequestChecked(p: Peer, id: byte): (r: (int, Peer))
    ensures r.0 == 0 || r.0 == -1
    ensures r.0 == 0 ==> r.1.sent == p.sent + [id]
    ensures r.0 == -1 ==> r.1.sent == p.sent
    ensures r.1.recvReplies == p.recvReplies && r.1.incoming == p.incoming
  {
    var (n, q) := Send(p, [id]);
    if n == 1 then (0, q) else (-1, q.(sent := p.sent))
  }

  /** request_add_block_endpoint with a failed id send reported: a failed
      id send aborts the request before anything else goes out, and success
      means that the whole request reached the socket, in order. */
  method RequestAddBlockChecked(p: Peer, payload: seq<byte>, uninitText: int) returns (r: int, p': Peer)
    requires 0 in payload
    ensures r == 0 || r == -1
    ensures p'.incoming == p.incoming
    ensures var c := SendEndpointRequestChecked(p, ENDPOINT_ADD_BLOCK);
      c.0 == -1 ==> r == -1 && p' == c.1 && p'.sent == p.sent
    ensures var c := SendEndpointRequestChecked(p, ENDPOINT_ADD_BLOCK);
      c.0 == 0 && Strlen(payload) > MAX_PAYLOAD ==> r == -1 && p' == c.1
    ensures var c := SendEndpointRequestChecked(p, ENDPOINT_ADD_BLOCK); var n := Strlen(payload);
      c.0 == 0 && n <= MAX_PAYLOAD ==>
        var h := SendFrom(c.1, U16BE(n), 0, 0);
        (r == 0 <==> h.0 != -1 && SendFrom(h.1, payload[..n], 0, uninitText).0 != -1)
    ensures r == 0 ==> Strlen(payload) <= MAX_PAYLOAD && p'.sent == p.sent + AddBlockRequestBytes(payload)
    ensures p.sent <= p'.sent
  {
    var res := SendEndpointRequestChecked(p, ENDPOINT_ADD_BLOCK);
    var q := res.1;
    if res.0 == -1 {
      return -1, q;
    }
    var n := Strlen(payload);
    if n > MAX_PAYLOAD {
      return -1, q;
    }
    var m1, q1 := SendBuf(q, U16BE(n), 0);
    if m1 == -1 {
      return -1, q1;
    }
    var m2, q2 := SendBuf(q1, payload[..n], uninitText);
    if m2 == -1 {
      return -1, q2;
    }
    r, p' := 0, q2;
  }

  // ------------------------------------------------------------- chain

  /** The count read of request_chain_endpoint: after the id byte, a
      receive_buf of the four count bytes, which fails on any result <= 0. */
  datatype CountRead = NoCount(p: Peer) | Count(n: u32, p: Peer)

  function ReadCount(p: Peer): (c: CountRead)
    ensures c.p.sent == SendEndpointRequest(p, ENDPOINT_CHAIN).1.sent
  {
    var q := SendEndpointRequest(p, ENDPOINT_CHAIN).1;
    var (ret, data, q') := ReceiveBuf(q, 4);
    if ret <= 0 then NoCount(q') else Count(DecodeU32(data), q')
  }

  /** With four bytes waiting and a receive that succeeds, the count is
      those four bytes, taken off the socket. */
  lemma ReadCountOf(p: Peer)
    requires p.recvReplies != [] && p.recvReplies[0] >= 0 && |p.incoming| >= 4
    ensures ReadCount(p) == Count(DecodeU32(p.incoming[..4]), ReadCount(p).p)
    ensures ReadCount(p).p.incoming == p.incoming[4..]
  {
  }

  /** unpack_block: read one frame off the socket and append its block to
      `chain`; -1 when the bytes waiting do not start with a frame or the
      append fails. */
  method UnpackBlock(p: Peer, chain: BlockChain, allocOk: bool) returns (r: int, p': Peer)
    requires chain.Valid() && AllWellFormed(chain.Contents())
    modifies chain, LastLink(chain.spine)
    ensures chain.Valid() && AllWellFormed(chain.Contents())
    ensures r == 0 || r == -1
    ensures r == 0 <==> DecodeFrame(p.incoming).Decoded? && allocOk && old(chain.len) < U32_MAX
    ensures r == 0 ==> chain.Contents() == old(chain.Contents()) + [Received(DecodeFrame(p.incoming).value)]
    ensures r == 0 ==> p' == p.(incoming := DecodeFrame(p.incoming).rest)
    ensures r != 0 ==> p' == p && chain.Contents() == old(chain.Contents()) && chain.spine == old(chain.spine)
    ensures r == 0 ==> |chain.spine| == |old(chain.spine)| + 1 && chain.spine[..|old(chain.spine)|] == old(chain.spine)
    ensures r == 0 ==> fresh(chain.spine[|old(chain.spine)|])
  {
    var d := DecodeFrame(p.incoming);
    if d.Failed? {
      return -1, p;
    }
    ghost var bs := chain.Contents();
    r := chain.AppendBlock(d.value, allocOk);
    if r != 0 {
      return -1, p;
    }
    assert chain.Contents() == bs + [Received(d.value)];
    p' := p.(incoming := d.rest);
  }

  /** The blocks a receiver keeps for the blocks `bs` read off the wire. */
  function ReceivedAll(bs: seq<Block>): (r: seq<Block>)
    requires forall k :: 0 <= k < |bs| ==> 0 in bs[k].payload
    ensures |r| == |bs| && AllWellFormed(r)
  {
    seq(|bs|, k requires 0 <= k < |bs| => Received(bs[k]))
  }

  /** Blocks that were well formed when sent are kept exactly. */
  lemma ReceivedAllWellFormed(bs: seq<Block>)
    requires AllWellFormed(bs)
    ensures forall k :: 0 <= k < |bs| ==> 0 in bs[k].payload
    ensures ReceivedAll(bs) == bs
  {
    forall k | 0 <= k < |bs| ensures 0 in bs[k].payload && Received(bs[k]) == bs[k] {
      ReceivedWellFormed(bs[k]);
    }
  }

  /** The first `k` allocations of a run of unpack_block calls succeed;
      `allocOk(j)` is the outcome of the allocation in call `j`. */
  predicate AllocsOk(allocOk: nat -> bool, k: nat)
  {
    forall j :: 0 <= j < k ==> allocOk(j)
  }

  /** `k` calls of unpack_block in a row succeed on the bytes `s`, starting
      from a chain of `len0` blocks: `k` frames are waiting, the first `k`
      allocations succeed and the chain has room for `k` more blocks. */
  predicate UnpacksOk(s: seq<byte>, allocOk: nat -> bool, len0: nat, k: nat)
  {
    DecodeFrames(s, k).Decoded? && AllocsOk(allocOk, k) && len0 + k <= U32_MAX
  }

  /** The state after the counted loop of request_chain_endpoint for `n`
      blocks, started on peer `p` and chain contents `c0`, when exactly its
      first `k` calls of unpack_block succeeded: the chain gained the blocks
      of the first `k` frames, in order, only their bytes were taken off the
      socket, the loop returned 0 exactly when `k == n`, and when `k < n`
      call `k` found no frame, a failed allocation or a full chain. */
  ghost predicate Unpacked(p: Peer, c0: seq<Block>, allocOk: nat -> bool, n: nat,
                           r: int, k: nat, p': Peer, c: seq<Block>)
  {
    && k <= n && UnpacksOk(p.incoming, allocOk, |c0|, k)
    && c == c0 + ReceivedAll(DecodeFrames(p.incoming, k).value)
    && p' == p.(incoming := DecodeFrames(p.incoming, k).rest)
    && (r == 0 <==> k == n)
    && (k < n ==> !(DecodeFrame(DecodeFrames(p.incoming, k).rest).Decoded? && allocOk(k) && |c0| + k < U32_MAX))
  }

  /** The counted loop succeeds exactly when all `n` calls can: `n` frames
      are waiting, all `n` allocations succeed and the chain has room. */
  lemma UnpackedSucceeds(p: Peer, c0: seq<Block>, allocOk: nat -> bool, n: nat,
                         r: int, k: nat, p': Peer, c: seq<Block>)
    requires Unpacked(p, c0, allocOk, n, r, k, p', c)
    ensures r == 0 <==> UnpacksOk(p.incoming, allocOk, |c0|, n)
  {
    if k < n {
      BatchFails(p.incoming, k, n, allocOk, |c0|);
    }
  }

  /** The counted loop of request_chain_endpoint: `n` calls of unpack_block,
      stopping at the first that fails. `k` is the number of calls that
      succeeded. */
  method UnpackBlocks(p: Peer, chain: BlockChain, allocOk: nat -> bool, n: nat) returns (r: int, p': Peer, ghost k: nat)
    requires chain.Valid() && AllWellFormed(chain.Contents())
    modifies chain, LastLink(chain.spine)
    ensures chain.Valid() && AllWellFormed(chain.Contents())
    ensures r == 0 || r == -1
    ensures Unpacked(p, old(chain.Contents()), allocOk, n, r, k, p', chain.Contents())
    ensures r == 0 <==> UnpacksOk(p.incoming, allocOk, old(chain.len), n)
  {
    ghost var c0 := chain.Contents();
    ghost var sp0 := chain.spine;
    ghost var s := p.incoming;
    ghost var got: seq<Block> := [];
    p' := p;
    var i := 0;
    while i < n
      invariant 0 <= i <= n
      invariant chain.Valid() && AllWellFormed(chain.Contents())
      invariant chain.len == |c0| + i
      invariant DecodeFrames(s, i) == Decoded(got, p'.incoming)
      invariant p' == p.(incoming := p'.incoming)
      invariant chain.Contents() == c0 + ReceivedAll(got)
      invariant AllocsOk(allocOk, i)
      invariant i == 0 ==> chain.spine == sp0
      invariant i > 0 ==> chain.spine != [] && fresh(chain.spine[|chain.spine| - 1])
    {
      var u, p2;
      u, p2, got := UnpackStep(p', chain, allocOk, s, i, got, c0);
      if u == -1 {
        k := i;
        r := -1;
        UnpackedSucceeds(p, c0, allocOk, n, r, k, p', chain.Contents());
        return;
      }
      p' := p2;
      i := i + 1;
    }
    k := n;
    r := 0;
    UnpackedSucceeds(p, c0, allocOk, n, r, k, p', chain.Contents());
  }

  /** One pass of the loop of UnpackBlocks, after the `i` blocks `got` were
      read from `s` and appended to `c0`: call `i` either appends one more
      block and takes its frame, or fails and changes nothing. */
  method UnpackStep(p: Peer, chain: BlockChain, allocOk: nat -> bool,
                    ghost s: seq<byte>, i: nat, ghost got: seq<Block>, ghost c0: seq<Block>)
    returns (u: int, p': Peer, ghost got': seq<Block>)
    requires chain.Valid() && AllWellFormed(chain.Contents())
    requires chain.len == |c0| + i && AllocsOk(allocOk, i)
    requires DecodeFrames(s, i) == Decoded(got, p.incoming)
    requires chain.Contents() == c0 + ReceivedAll(got)
    modifies chain, LastLink(chain.spine)
    ensures chain.Valid() && AllWellFormed(chain.Contents())
    ensures u == 0 || u == -1
    ensures u == -1 <==> !(DecodeFrame(p.incoming).Decoded? && allocOk(i) && |c0| + i < U32_MAX)
    ensures u == -1 ==> chain.Contents() == old(chain.Contents()) && chain.spine == old(chain.spine)
    ensures u == 0 ==> chain.len == |c0| + i + 1 && p' == p.(incoming := p'.incoming)
    ensures u == 0 ==> DecodeFrames(s, i + 1) == Decoded(got', p'.incoming)
    ensures u == 0 ==> chain.Contents() == c0 + ReceivedAll(got') && AllocsOk(allocOk, i + 1)
    ensures u == 0 ==> chain.spine != [] && fresh(chain.spine[|chain.spine| - 1])
  {
    ghost var bs := chain.Contents();
    ghost var d := DecodeFrame(p.incoming);
    got' := got;
    u, p' := UnpackBlock(p, chain, allocOk(i));
    if u == -1 {
      return;
    }
    RepeatOneMore(DecodeFrame, s, i);
    ContentsStep(c0, bs, got, d.value);
    got' := got + [d.value];
  }

  /** A call of unpack_block that fails after `i < n` successful ones
      fails the batch of `n`: its frame is not there, its allocation
      failed, or the chain was already full. */
  lemma BatchFails(s: seq<byte>, i: nat, n: nat, allocOk: nat -> bool, len0: nat)
    requires i < n && UnpacksOk(s, allocOk, len0, i)
    requires !(DecodeFrame(DecodeFrames(s, i).rest).Decoded? && allocOk(i) && len0 + i < U32_MAX)
    ensures !UnpacksOk(s, allocOk, len0, n)
  {
    if DecodeFrame(DecodeFrames(s, i).rest).Failed? {
      RepeatFailLater(DecodeFrame, s, i, n);
    }
  }

  /** One more block received extends what the chain has gained by it. */
  lemma ContentsStep(c0: seq<Block>, bs: seq<Block>, v: seq<Block>, b: Block)
    requires forall k :: 0 <= k < |v| ==> 0 in v[k].payload
    requires 0 in b.payload
    requires bs == c0 + ReceivedAll(v)
    ensures forall k :: 0 <= k < |v + [b]| ==> 0 in (v + [b])[k].payload
    ensures bs + [Received(b)] == c0 + ReceivedAll(v + [b])
  {
    assert forall k :: 0 <= k < |v + [b]| ==> 0 in (v + [b])[k].payload by {
      forall k | 0 <= k < |v + [b]| ensures 0 in (v + [b])[k].payload {
        if k < |v| { assert (v + [b])[k] == v[k]; }
      }
    }
    assert ReceivedAll(v + [b]) == ReceivedAll(v) + [Received(b)];
  }

  /** request_chain_endpoint: request the chain, read the count, then read
      that many blocks into `chain`, which may already hold some. The id
      send's result is compared with 1, which it never is. `allocOk(j)` is
      the outcome of the allocation in the `j`-th unpack_block call, and
      `k` the number of those calls that succeeded. */
  method RequestChain(p: Peer, chain: BlockChain, allocOk: nat -> bool) returns (r: int, p': Peer, ghost k: nat)
    requires chain.Valid() && AllWellFormed(chain.Contents())
    modifies chain, LastLink(chain.spine)
    ensures chain.Valid() && AllWellFormed(chain.Contents())
    ensures r == 0 || r == -1
    ensures ReadCount(p).NoCount? ==> r == -1 && chain.Contents() == old(chain.Contents()) && p' == ReadCount(p).p
    ensures ReadCount(p).Count? ==>
      Unpacked(ReadCount(p).p, old(chain.Contents()), allocOk, ReadCount(p).n, r, k, p', chain.Contents())
    ensures ReadCount(p).Count? ==>
      (r == 0 <==> UnpacksOk(ReadCount(p).p.incoming, allocOk, old(chain.len), ReadCount(p).n))
  {
    var res := SendEndpointRequest(p, ENDPOINT_CHAIN);
    if res.0 == 1 {
      r, p' := -1, res.1;
      return;
    }
    var rb := ReceiveBuf(res.1, 4);
    if rb.0 <= 0 {
      return -1, rb.2, 0;
    }
    var n := DecodeU32(rb.1);
    r, p', k := UnpackBlocks(rb.2, chain, allocOk, n);
  }

  /** The chain download recovers exactly what the chain endpoint sends: a
      client that finds the node's reply for `bs` waiting reads the count
      |bs| and decodes the very blocks `bs`, whatever follows them. */
  lemma ChainDownloadRoundTrip(p: Peer, bs: seq<Block>, rest: seq<byte>)
    requires |bs| <= U32_MAX && AllWellFormed(bs)
    requires p.incoming == ChainReply(|bs|, bs) + rest
    requires p.recvReplies != [] && p.recvReplies[0] >= 0
    ensures ReadCount(p) == Count(|bs| as u32, ReadCount(p).p)
    ensures DecodeFrames(ReadCount(p).p.incoming, |bs|) == Decoded(bs, rest)
    ensures ReceivedAll(bs) == bs
  {
    ReceivedAllWellFormed(bs);
    ChainReplyRoundTrip(bs, rest);
    ReadCountOf(p);
  }

  /** The add-block request is read back by the node as the text sent: once
      the id byte is taken, the node's parser finds the very text, and the
      block it stores holds it. */
  lemma AddBlockRequestServed(payload: seq<byte>, q: Peer, rest: seq<byte>, staleLen: seq<byte>, stale: seq<byte>)
    requires 0 in payload && 0 < Strlen(payload) <= MAX_PAYLOAD
    requires |staleLen| == 2 && |stale| > MAX_PAYLOAD
    requires q.incoming == AddBlockRequestBytes(payload)[1..] + rest
    requires |q.recvReplies| >= 2 && q.recvReplies[0] >= 2 && q.recvReplies[1] >= Strlen(payload)
    ensures AddBlockRequestBytes(payload)[0] == ENDPOINT_ADD_BLOCK
    ensures Endpoints.ParseAddBlock(q, staleLen, stale).Payload?
    ensures Text(StoredPayload(Endpoints.ParseAddBlock(q, staleLen, stale).cstr)) == payload[..Strlen(payload)]
  {
    var t := payload[..Strlen(payload)];
    assert AddBlockRequestBytes(payload)[1..] + rest == U16BE(|t|) + t + rest;
    Endpoints.AddRequestRoundTrip(q, t, rest, staleLen, stale);
  }
}
