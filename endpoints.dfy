/** The endpoint dispatcher and its two handlers (src/endpoints.c). */
module Endpoints {
  import opened Wire
  import opened Blocks
  import opened Codec
  import opened Chain
  import opened Socket

  /** enum endpoint_dispatch_retval, plus DISPATCH_INVALID_ARGS, which
      add_block_endpoint returns but the enum does not declare. */
  datatype Outcome = Ok | UnknownErr | InvalidEndpoint | SendFail | RecvFail | InvalidArgs

  datatype Option<T> = None | Some(value: T)

  datatype Endpoint = ChainEndpointId | AddBlockEndpointId

  /** ENDPOINT_DISPATCH_TABLE: entry 0 is the chain endpoint, entry 1 the
      add-block endpoint. */
  const DISPATCH_TABLE: seq<Endpoint> := [ChainEndpointId, AddBlockEndpointId]
  const N_ENDPOINTS: nat := |DISPATCH_TABLE|

  /** The bounds check and table lookup of endpoint_dispatch. */
  function Route(id: nat): (e: Option<Endpoint>)
    ensures e.None? <==> id >= 2
    ensures e == Some(ChainEndpointId) <==> id == 0
    ensures e == Some(AddBlockEndpointId) <==> id == 1
  {
    if id >= N_ENDPOINTS then None else Some(DISPATCH_TABLE[id])
  }

  // ---------------------------------------------------------------- chain

  /** The sends of the chain endpoint's loop: one frame per block, stopping
      at the first send_buf that fails. */
  function SendFrames(p: Peer, bs: seq<Block>): (r: (bool, Peer))
    requires AllWellFormed(bs)
    ensures r.1.recvReplies == p.recvReplies && r.1.incoming == p.incoming
    decreases |bs|
  {
    if bs == [] then (true, p)
    else
      var (n, q) := SendFrom(p, Frame(bs[0]), 0, 0);
      if n == -1 then (false, q) else SendFrames(q, bs[1..])
  }

  /** The whole exchange of the chain endpoint for a chain whose length field
      is `len` and whose links hold `bs`. */
  function ChainExchange(p: Peer, len: u32, bs: seq<Block>): (r: (Outcome, Peer))
    requires AllWellFormed(bs)
    ensures r.0 == Ok || r.0 == SendFail
    ensures r.1.recvReplies == p.recvReplies && r.1.incoming == p.incoming
  {
    var (n, q) := SendFrom(p, U32BE(len), 0, 0);
    if n == -1 then (SendFail, q)
    else
      var (ok, q') := SendFrames(q, bs);
      (if ok then Ok else SendFail, q')
  }

  lemma {:induction false} SendFramesSent(p: Peer, bs: seq<Block>)
    requires AllWellFormed(bs)
    ensures SendFrames(p, bs).0 ==> SendFrames(p, bs).1.sent == p.sent + Frames(bs)
    ensures p.sent <= SendFrames(p, bs).1.sent <= p.sent + Frames(bs)
    decreases |bs|
  {
    if bs != [] {
      var f, tail := Frame(bs[0]), Frames(bs[1..]);
      FramesUnfold(bs);
      SendFromOutcome(p, f, 0, 0);
      var r := SendFrom(p, f, 0, 0);
      SendFramesStep(p, bs, 0);
      assert bs[0..] == bs && bs[1..] == bs[0 + 1..];
      if r.0 == -1 {
        PrefixGrow(p.sent, r.1.sent, f, tail);
      } else {
        SendFramesSent(r.1, bs[1..]);
        PrefixChain(p.sent, f, SendFrames(r.1, bs[1..]).1.sent, tail);
      }
    }
  }

  /** A prefix of `a + f` that extends `a` is a prefix of `a + (f + t)`. */
  lemma PrefixGrow(a: seq<byte>, b: seq<byte>, f: seq<byte>, t: seq<byte>)
    requires a <= b <= a + f
    ensures a <= b <= a + (f + t)
  {
    assert b == (a + f)[..|b|];
    assert (a + (f + t))[..|b|] == (a + f)[..|b|];
  }

  /** What extends `a + f` within `(a + f) + t` extends `a` within
      `a + (f + t)`. */
  lemma PrefixChain(a: seq<byte>, f: seq<byte>, b: seq<byte>, t: seq<byte>)
    requires a + f <= b <= (a + f) + t
    ensures a <= b <= a + (f + t)
    ensures b == (a + f) + t ==> b == a + (f + t)
  {
    Concat3(a, f, t);
    assert (a + f)[..|a|] == a;
    assert b[..|a|] == a;
  }

  /** What the peer receives from the chain endpoint: on success exactly the
      count followed by every frame, head to tail; on a failed send a prefix
      of that. */
  lemma ChainExchangeSent(p: Peer, len: u32, bs: seq<Block>)
    requires AllWellFormed(bs)
    ensures ChainExchange(p, len, bs).0 == Ok || ChainExchange(p, len, bs).0 == SendFail
    ensures ChainExchange(p, len, bs).0 == Ok ==> ChainExchange(p, len, bs).1.sent == p.sent + ChainReply(len, bs)
    ensures p.sent <= ChainExchange(p, len, bs).1.sent <= p.sent + ChainReply(len, bs)
  {
    var h := SendFrom(p, U32BE(len), 0, 0);
    SendFromOutcome(p, U32BE(len), 0, 0);
    if h.0 == -1 {
      PrefixGrow(p.sent, h.1.sent, U32BE(len), Frames(bs));
    } else {
      SendFramesSent(h.1, bs);
      PrefixChain(p.sent, U32BE(len), SendFrames(h.1, bs).1.sent, Frames(bs));
    }
  }

  /** One round of the chain endpoint's loop: the frame of block `k` goes
      out, and on success the rest of the blocks follow. */
  lemma SendFramesStep(p: Peer, bs: seq<Block>, k: nat)
    requires AllWellFormed(bs) && k < |bs|
    ensures AllWellFormed(bs[k..]) && AllWellFormed(bs[k + 1..])
    ensures var h := SendFrom(p, Frame(bs[k]), 0, 0);
      SendFrames(p, bs[k..]) == if h.0 == -1 then (false, h.1) else SendFrames(h.1, bs[k + 1..])
  {
    assert bs[k..][0] == bs[k];
    assert bs[k..][1..] == bs[k + 1..];
  }

  /** The loop of chain_endpoint: pack and send the block of each link from
      `link` to the end of the list, stopping at the first failed send. */
  method SendLinks(p: Peer, link: Link?, ghost spine: seq<Link>, ghost bs: seq<Block>) returns (ok: bool, p': Peer)
    requires IsList(link, spine) && |bs| == |spine| && AllWellFormed(bs)
    requires forall k :: 0 <= k < |spine| ==> spine[k].block == bs[k]
    ensures (ok, p') == SendFrames(p, bs)
  {
    var l := link;
    ghost var k := 0;
    p' := p;
    while l != null
      invariant 0 <= k <= |spine|
      invariant l == if k < |spine| then spine[k] else null
      invariant SendFrames(p', bs[k..]) == SendFrames(p, bs)
      decreases |spine| - k
    {
      SendFramesStep(p', bs, k);
      var m, p2 := SendBuf(p', Frame(l.block), 0);
      if m == -1 {
        return false, p2;
      }
      p' := p2;
      l := l.next;
      k := k + 1;
    }
    ok := true;
  }

  /** chain_endpoint: send the big-endian chain length, then pack and send
      each link's block from head to tail. */
  method ChainEndpoint(p: Peer, chain: BlockChain) returns (o: Outcome, p': Peer)
    requires chain.Valid() && AllWellFormed(chain.Contents())
    ensures (o, p') == ChainExchange(p, chain.len, chain.Contents())
  {
    ghost var bs := chain.Contents();
    var n, q := SendBuf(p, U32BE(chain.len), 0);
    if n == -1 {
      return SendFail, q;
    }
    var ok;
    ok, p' := SendLinks(q, chain.head, chain.spine, bs);
    o := if ok then Ok else SendFail;
  }

  // ------------------------------------------------------------ add block

  /** How the add-block request reads off the socket. */
  datatype AddRequest =
    | RecvFailed(p: Peer)
    | TooLarge(size: u16, p: Peer)
    | Payload(cstr: seq<byte>, p: Peer)

  /** The two recv calls of add_block_endpoint. `staleLen` and `stale` are
      what the stack variables held before: a short positive read leaves
      the rest of them in place, and the handler uses them as they are. */
  function ParseAddBlock(p: Peer, staleLen: seq<byte>, stale: seq<byte>): (r: AddRequest)
    requires |staleLen| == 2 && |stale| > MAX_PAYLOAD
    ensures r.Payload? ==> 0 in r.cstr
  {
    var (ret, data, p1) := Recv(p, 2);
    if ret <= 0 then RecvFailed(p1)
    else
      var size := DecodeU16(data + staleLen[ret..]);
      if size > MAX_PAYLOAD then TooLarge(size, p1)
      else
        var (ret2, data2, p2) := Recv(p1, size);
        if ret2 <= 0 then RecvFailed(p2)
        else
          var c := data2 + stale[ret2..size] + [0] + stale[size + 1..];
          assert c[size] == 0;
          Payload(c, p2)
  }

  /** An oversized length is refused before any payload byte is read: only
      the two length bytes are taken off the socket. */
  lemma OversizedAddRejected(p: Peer, n: u16, staleLen: seq<byte>, stale: seq<byte>)
    requires |staleLen| == 2 && |stale| > MAX_PAYLOAD
    requires n > MAX_PAYLOAD
    requires |p.incoming| >= 2 && p.incoming[..2] == U16BE(n)
    requires p.recvReplies != [] && p.recvReplies[0] >= 2
    ensures ParseAddBlock(p, staleLen, stale) == TooLarge(n, Recv(p, 2).2)
    ensures Recv(p, 2).2.incoming == p.incoming[2..]
  {
    U16RoundTrip(n);
  }

  /** A zero length makes the second recv ask for nothing. It reports 0, or
      -1 when the call fails instead, and both are a receive failure, so an
      empty block is refused. */
  lemma EmptyAddRejected(p: Peer, staleLen: seq<byte>, stale: seq<byte>)
    requires |staleLen| == 2 && |stale| > MAX_PAYLOAD
    requires |p.incoming| >= 2 && p.incoming[..2] == U16BE(0)
    requires |p.recvReplies| >= 2 && p.recvReplies[0] >= 2
    ensures ParseAddBlock(p, staleLen, stale).RecvFailed?
  {
    U16RoundTrip(0);
  }

  /** A well-formed request whose bytes arrive in full is read back as the
      very text the client sent. */
  lemma AddRequestRoundTrip(p: Peer, t: seq<byte>, rest: seq<byte>, staleLen: seq<byte>, stale: seq<byte>)
    requires |staleLen| == 2 && |stale| > MAX_PAYLOAD
    requires 0 < |t| <= MAX_PAYLOAD && 0 !in t
    requires p.incoming == U16BE(|t|) + t + rest
    requires |p.recvReplies| >= 2 && p.recvReplies[0] >= 2 && p.recvReplies[1] >= |t|
    ensures ParseAddBlock(p, staleLen, stale).Payload?
    ensures Text(StoredPayload(ParseAddBlock(p, staleLen, stale).cstr)) == t
    ensures ParseAddBlock(p, staleLen, stale).p.incoming == rest
  {
    U16RoundTrip(|t|);
    var r1 := Recv(p, 2);
    assert p.incoming[..2] == U16BE(|t|);
    assert r1.0 == 2 && r1.1 == U16BE(|t|);
    assert r1.1 + staleLen[2..] == U16BE(|t|);
    assert r1.2.incoming == t + rest;
    var r2 := Recv(r1.2, |t|);
    assert r2.0 == |t| && r2.1 == t && r2.2.incoming == rest;
    var c := t + stale[|t|..|t|] + [0] + stale[|t| + 1..];
    assert ParseAddBlock(p, staleLen, stale) == Payload(c, r2.2);
    assert c == t + [0] + stale[|t| + 1..];
    StrlenOfText(t, stale[|t| + 1..]);
    assert c[..|t|] == t;
  }

  /** The stack buffer of add_block_endpoint: it starts out holding `stale`,
      recv writes the `data` it got over the front of it, and the handler
      writes the terminator at index `size`. Returns the buffer's contents. */
  method ReceiveIntoBuffer(stale: seq<byte>, data: seq<byte>, size: nat) returns (c: seq<byte>)
    requires |data| <= size < |stale|
    ensures |c| == |stale| && c[size] == 0
    ensures c == data + stale[|data|..size] + [0] + stale[size + 1..]
  {
    var buf := new byte[|stale|](i requires 0 <= i < |stale| => stale[i]);
    var k := 0;
    while k < |data|
      invariant 0 <= k <= |data|
      invariant forall j :: 0 <= j < k ==> buf[j] == data[j]
      invariant forall j :: k <= j < buf.Length ==> buf[j] == stale[j]
    {
      buf[k] := data[k];
      k := k + 1;
    }
    buf[size] := 0;
    c := buf[..];
    ghost var want := data + stale[|data|..size] + [0] + stale[size + 1..];
    forall j | 0 <= j < |want| ensures c[j] == want[j] {
      if j < |data| {
      } else if j < size {
        assert want[j] == stale[|data|..size][j - |data|];
      } else if j > size {
        assert want[j] == stale[size + 1..][j - size - 1];
      }
    }
  }

  /** The effect the add-block handler has once the request is read:
      the outcome, the peer afterwards and the blocks afterwards. */
  ghost predicate AddBlockEffect(req: AddRequest, bs: seq<Block>, len: int, hash: seq<byte> -> u32, allocOk: bool,
                                 o: Outcome, p': Peer, bs': seq<Block>)
  {
    match req
    case RecvFailed(q) => o == RecvFail && p' == q && bs' == bs
    case TooLarge(_, q) => o == InvalidArgs && p' == q && bs' == bs
    case Payload(c, q) =>
      && p' == q && 0 in c
      && if allocOk && len < U32_MAX then o == Ok && bs' == bs + [NewBlock(bs, c, hash)]
         else o == UnknownErr && bs' == bs
  }

  /** add_block_endpoint: read the big-endian length, refuse it above
      MAX_PAYLOAD, read the payload into the stack buffer, terminate it in
      place and hand it to add_block. The stack buffer's size is that of
      `stale`, which must exceed MAX_PAYLOAD for the terminator to fit. */
  method AddBlockEndpoint(p: Peer, chain: BlockChain, staleLen: seq<byte>, stale: seq<byte>,
                          hash: seq<byte> -> u32, allocOk: bool) returns (o: Outcome, p': Peer)
    requires chain.Valid() && AllWellFormed(chain.Contents())
    requires |staleLen| == 2 && |stale| > MAX_PAYLOAD
    modifies chain, LastLink(chain.spine)
    ensures chain.Valid() && AllWellFormed(chain.Contents())
    ensures Linked(old(chain.Contents())) ==> Linked(chain.Contents())
    ensures AddBlockEffect(ParseAddBlock(p, staleLen, stale), old(chain.Contents()), old(chain.len), hash, allocOk,
                           o, p', chain.Contents())
    ensures o != Ok ==> chain.spine == old(chain.spine)
    ensures o == Ok ==> |chain.spine| == |old(chain.spine)| + 1 && chain.spine[..|old(chain.spine)|] == old(chain.spine)
    ensures o == Ok ==> fresh(chain.spine[|old(chain.spine)|])
  {
    ghost var req := ParseAddBlock(p, staleLen, stale);
    ghost var bs := chain.Contents();
    var r1 := Recv(p, 2);
    if r1.0 <= 0 {
      assert req == RecvFailed(r1.2);
      return RecvFail, r1.2;
    }
    var size := DecodeU16(r1.1 + staleLen[r1.0..]);
    if size > MAX_PAYLOAD {
      assert req == TooLarge(size, r1.2);
      return InvalidArgs, r1.2;
    }
    var r2 := Recv(r1.2, size);
    p' := r2.2;
    if r2.0 <= 0 {
      assert req == RecvFailed(p');
      return RecvFail, p';
    }
    var c := ReceiveIntoBuffer(stale, r2.1, size);
    assert req == Payload(c, p');
    var r := chain.AddBlock(c, hash, allocOk);
    if r != 0 {
      return UnknownErr, p';
    }
    AppendKeepsLinkage(bs, c, hash);
    o := Ok;
  }

  // ------------------------------------------------------------- dispatch

  /** The effect of endpoint_dispatch for endpoint `id` on a peer `p` and a
      chain holding `bs` with length field `len`: an id past the table runs
      nothing; otherwise the handler of the table entry decides it all. */
  ghost predicate DispatchEffect(id: nat, p: Peer, bs: seq<Block>, len: int, staleLen: seq<byte>, stale: seq<byte>,
                                 hash: seq<byte> -> u32, allocOk: bool, o: Outcome, p': Peer, bs': seq<Block>)
  {
    if id >= N_ENDPOINTS then o == InvalidEndpoint && p' == p && bs' == bs
    else if id == 0 then
      0 <= len <= U32_MAX && AllWellFormed(bs) && (o, p') == ChainExchange(p, len, bs) && bs' == bs
    else
      |staleLen| == 2 && |stale| > MAX_PAYLOAD
      && AddBlockEffect(ParseAddBlock(p, staleLen, stale), bs, len, hash, allocOk, o, p', bs')
  }

  /** endpoint_dispatch: refuse an id past the table, otherwise run the
      table's handler and return exactly its outcome. */
  method EndpointDispatch(id: nat, p: Peer, chain: BlockChain, staleLen: seq<byte>, stale: seq<byte>,
                          hash: seq<byte> -> u32, allocOk: bool) returns (o: Outcome, p': Peer)
    requires chain.Valid() && AllWellFormed(chain.Contents())
    requires |staleLen| == 2 && |stale| > MAX_PAYLOAD
    modifies chain, LastLink(chain.spine)
    ensures chain.Valid() && AllWellFormed(chain.Contents())
    ensures Linked(old(chain.Contents())) ==> Linked(chain.Contents())
    ensures DispatchEffect(id, p, old(chain.Contents()), old(chain.len), staleLen, stale, hash, allocOk,
                           o, p', chain.Contents())
    ensures old(chain.Contents()) <= chain.Contents()
    ensures id >= N_ENDPOINTS ==> o == InvalidEndpoint && p' == p
    ensures id == 0 ==> (o, p') == ChainExchange(p, old(chain.len), old(chain.Contents()))
    ensures id == 1 ==> AddBlockEffect(ParseAddBlock(p, staleLen, stale), old(chain.Contents()), old(chain.len), hash,
                                       allocOk, o, p', chain.Contents())
    ensures id != 1 ==> chain.Contents() == old(chain.Contents())
    ensures o != Ok || id != 1 ==> chain.spine == old(chain.spine)
    ensures o == Ok && id == 1 ==> |chain.spine| == |old(chain.spine)| + 1
    ensures o == Ok && id == 1 ==> chain.spine[..|old(chain.spine)|] == old(chain.spine)
    ensures o == Ok && id == 1 ==> fresh(chain.spine[|old(chain.spine)|])
  {
    match Route(id)
    case None =>
      o, p' := InvalidEndpoint, p;
    case Some(ChainEndpointId) =>
      o, p' := ChainEndpoint(p, chain);
    case Some(AddBlockEndpointId) =>
      o, p' := AddBlockEndpoint(p, chain, staleLen, stale, hash, allocOk);
  }
}
