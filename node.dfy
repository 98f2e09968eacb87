/** The node binary of src/node.c: the chain it seeds before serving, and
    one pass of its serving loop over the poll set. poll itself, the signal
    handling and all printing are outside the model; one pass starts from
    the `revents` that poll reported, recorded in each entry's `readable`. */
module Node {
  import opened Wire
  import opened Blocks
  import opened Chain
  import opened Socket
  import opened Endpoints

  // ------------------------------------------------------------- seeding

  const SPACE: seq<byte> := [32]

  /** "Genesis block choo choo all aboard the cherub chrain" in ASCII, word
      by word. */
  const GENESIS_TEXT: seq<byte> :=
    [71, 101, 110, 101, 115, 105, 115] + SPACE + [98, 108, 111, 99, 107] + SPACE + [99, 104, 111, 111] + SPACE
    + [99, 104, 111, 111] + SPACE + [97, 108, 108] + SPACE + [97, 98, 111, 97, 114, 100] + SPACE
    + [116, 104, 101] + SPACE + [99, 104, 101, 114, 117, 98] + SPACE + [99, 104, 114, 97, 105, 110]

  /** "Block ", in ASCII. */
  const BLOCK_PREFIX: seq<byte> := [66, 108, 111, 99, 107] + SPACE

  /** The genesis payload as the C string literal main passes to add_block:
      52 bytes of text, none of them NUL, and the terminator. */
  function GenesisPayload(): (s: seq<byte>)
    ensures |GENESIS_TEXT| == 52 && 0 !in GENESIS_TEXT && 0 in s
    ensures s == GENESIS_TEXT + [0]
  {
    assert (GENESIS_TEXT + [0])[52] == 0;
    GENESIS_TEXT + [0]
  }

  /** The text sprintf(payload_buf, "Block %d", i) writes for a one-digit `i`. */
  function LabelText(i: nat): (t: seq<byte>)
    requires i < 10
    ensures |t| == 7 && 0 !in t
  {
    BLOCK_PREFIX + [(48 + i) as byte]
  }

  /** The buffer after that sprintf: the text and its terminator. */
  function BlockLabel(i: nat): (s: seq<byte>)
    requires i < 10
    ensures 0 in s
  {
    assert (LabelText(i) + [0])[7] == 0;
    LabelText(i) + [0]
  }

  /** The C string main adds in round `k` of its seeding: the genesis
      payload first, then "Block 0" to "Block 4". */
  function SeedPayload(k: nat): (s: seq<byte>)
    requires k < 6
    ensures 0 in s
  {
    if k == 0 then GenesisPayload() else BlockLabel(k - 1)
  }

  /** The first `n` seed payloads, in the order main adds them. */
  function SeedList(n: nat): seq<CString>
    requires n <= 6
  {
    seq(n, k requires 0 <= k < n => SeedPayload(k))
  }

  /** The text add_payload keeps of a NUL-free text and its terminator: the
      whole text, or its first MAX_PAYLOAD bytes when it is longer. */
  lemma StoredText(t: seq<byte>)
    requires 0 !in t
    ensures 0 in t + [0]
    ensures Text(StoredPayload(t + [0])) == t[..Min(|t|, MAX_PAYLOAD)]
  {
    StrlenOfText(t, []);
    assert t + [0] + [] == t + [0];
    Truncation(t + [0]);
    assert (t + [0])[..Min(|t|, MAX_PAYLOAD)] == t[..Min(|t|, MAX_PAYLOAD)];
  }

  /** The chain after the first `n` seed payloads were added. */
  ghost function SeedChain(n: nat, hash: seq<byte> -> u32): (bs: seq<Block>)
    requires n <= 6
    ensures |bs| == n
  {
    Grown(SeedList(n), hash)
  }

  /** After the genesis round the chain holds the genesis block alone. */
  lemma SeedGenesis(hash: seq<byte> -> u32)
    ensures SeedChain(1, hash) == [NewBlock([], GenesisPayload(), hash)]
  {
    assert SeedList(1) == [GenesisPayload()];
    assert SeedList(1)[..0] == [];
  }

  /** The seeded chain, after any number `n` of the six rounds: its blocks
      are hash linked, the genesis text is cut to its first MAX_PAYLOAD
      bytes ("Genesis block choo c"), then come "Block 0", "Block 1", ...
      in order, and each block carries the hash of its own text. */
  lemma SeededChain(n: nat, hash: seq<byte> -> u32)
    requires n <= 6
    ensures var bs := SeedChain(n, hash);
      && |bs| == n && AllWellFormed(bs) && Linked(bs)
      && MAX_PAYLOAD < |GENESIS_TEXT|
      && (n > 0 ==> Text(bs[0].payload) == GENESIS_TEXT[..MAX_PAYLOAD])
      && (forall i :: 0 <= i < n - 1 ==> Text(bs[i + 1].payload) == LabelText(i))
      && (forall k :: 0 <= k < n ==> bs[k].hash == hash(Text(bs[k].payload)))
  {
    SeedChainLinked(n, hash);
    forall k | 0 <= k < n {
      SeedBlockAt(n, k, hash);
    }
    if n > 0 {
      SeedGenesisText(n, hash);
    }
    forall i | 0 <= i < n - 1 {
      SeedLabelText(n, i, hash);
    }
  }

  /** Block `k` of the seeded chain is well formed, carries the hash of its
      own text, and keeps what add_payload stores of the `k`-th seed payload. */
  lemma SeedBlockAt(n: nat, k: nat, hash: seq<byte> -> u32)
    requires k < n <= 6
    ensures var b := SeedChain(n, hash)[k];
      && WellFormed(b) && b.hash == hash(Text(b.payload))
      && b.payload == StoredPayload(SeedPayload(k))
  {
    GrownAt(SeedList(n), hash, k);
  }

  /** The genesis block keeps the first MAX_PAYLOAD bytes of its text. */
  lemma SeedGenesisText(n: nat, hash: seq<byte> -> u32)
    requires 0 < n <= 6
    ensures WellFormed(SeedChain(n, hash)[0]) && MAX_PAYLOAD < |GENESIS_TEXT|
    ensures Text(SeedChain(n, hash)[0].payload) == GENESIS_TEXT[..MAX_PAYLOAD]
  {
    SeedBlockAt(n, 0, hash);
    GenesisTextCut();
  }

  /** Block `i + 1` keeps the text "Block i" whole. */
  lemma SeedLabelText(n: nat, i: nat, hash: seq<byte> -> u32)
    requires i + 1 < n <= 6
    ensures WellFormed(SeedChain(n, hash)[i + 1])
    ensures Text(SeedChain(n, hash)[i + 1].payload) == LabelText(i)
  {
    SeedBlockAt(n, i + 1, hash);
    StoredText(LabelText(i));
  }

  /** Every seeding round leaves a hash-linked chain of well-formed blocks. */
  lemma SeedChainLinked(n: nat, hash: seq<byte> -> u32)
    requires n <= 6
    ensures AllWellFormed(SeedChain(n, hash)) && Linked(SeedChain(n, hash))
  {
    GrownLinked(SeedList(n), hash);
  }

  /** All six allocations succeed when the first does and the other five do. */
  lemma AllocSplit(allocOk: seq<bool>)
    requires |allocOk| > 0
    ensures false !in allocOk <==> allocOk[0] && false !in allocOk[1..]
  {
    assert allocOk == [allocOk[0]] + allocOk[1..];
  }

  /** The genesis text is longer than MAX_PAYLOAD, so the block keeps its
      first MAX_PAYLOAD bytes only. */
  lemma GenesisTextCut()
    ensures Text(StoredPayload(GenesisPayload())) == GENESIS_TEXT[..MAX_PAYLOAD]
  {
    StoredText(GENESIS_TEXT);
    assert Min(|GENESIS_TEXT|, MAX_PAYLOAD) == MAX_PAYLOAD;
  }

  /** The seeding of main, lines 29-40: initialise_chain, add_block of the
      genesis payload (exit code 1 if that fails), then add_block of
      "Block 0" to "Block 4" (exit code 2 at the first failure). `allocOk`
      holds the outcome of each add_block's allocation, in call order.
      Code 0 means the node goes on to serve. */
  method Seed(hash: seq<byte> -> u32, allocOk: seq<bool>) returns (code: int, chain: BlockChain)
    requires |allocOk| == 6
    ensures fresh(chain) && chain.Valid()
    ensures code == 0 || code == 1 || code == 2
    ensures code == 0 <==> false !in allocOk
    ensures code == 1 <==> !allocOk[0]
    ensures chain.len <= 6 && chain.Contents() == SeedChain(chain.len, hash)
    ensures code == 0 ==> chain.len == 6
    ensures chain.spine == [] || fresh(chain.spine[|chain.spine| - 1])
  {
    chain := new BlockChain();
    var r := AddGenesis(chain, hash, allocOk[0]);
    if r != 0 {
      code := 1;
    } else {
      AllocSplit(allocOk);
      r := AddLabels(chain, hash, allocOk[1..]);
      code := if r == 0 then 0 else 2;
    }
  }

  /** The genesis round: add_block of the genesis payload onto the empty
      chain. */
  method AddGenesis(chain: BlockChain, hash: seq<byte> -> u32, allocOk: bool) returns (r: int)
    requires chain.Valid() && chain.len == 0
    modifies chain, LastLink(chain.spine)
    ensures chain.Valid() && chain.len <= 1 && chain.Contents() == SeedChain(chain.len, hash)
    ensures r == 0 <==> allocOk
    ensures r == 0 ==> chain.len == 1
    ensures chain.spine == [] || fresh(chain.spine[|chain.spine| - 1])
  {
    SeedGenesis(hash);
    r := chain.AddBlock(GenesisPayload(), hash, allocOk);
    if r != 0 {
      assert SeedList(0) == [];
    }
  }

  /** The `for` loop of the seeding: add_block of "Block 0" to "Block 4"
      onto the chain holding the genesis block, stopping at the first
      failure. `allocOk` holds the outcome of each allocation. */
  method AddLabels(chain: BlockChain, hash: seq<byte> -> u32, allocOk: seq<bool>) returns (r: int)
    requires |allocOk| == 5 && chain.Valid() && chain.len == 1
    requires chain.Contents() == SeedChain(1, hash)
    modifies chain, LastLink(chain.spine)
    ensures chain.Valid() && 1 <= chain.len <= 6 && chain.Contents() == SeedChain(chain.len, hash)
    ensures r == 0 <==> false !in allocOk
    ensures r == 0 ==> chain.len == 6
    ensures chain.spine == old(chain.spine) || (chain.spine != [] && fresh(chain.spine[|chain.spine| - 1]))
  {
    var i := 0;
    while i < 5
      invariant 0 <= i <= 5
      invariant chain.Valid() && chain.len == i + 1
      invariant chain.spine == old(chain.spine) || (chain.spine != [] && fresh(chain.spine[|chain.spine| - 1]))
      invariant false !in allocOk[..i]
      invariant chain.Contents() == SeedChain(i + 1, hash)
    {
      r := AddLabel(chain, i, hash, allocOk[i]);
      if r != 0 {
        assert allocOk[i] == false;
        return;
      }
      AllSucceededStep(allocOk, i);
      i := i + 1;
    }
    assert allocOk[..5] == allocOk;
    r := 0;
  }

  /** The first `n + 1` allocations succeeded when the first `n` did and
      the next one does. */
  lemma AllSucceededStep(allocOk: seq<bool>, n: nat)
    requires n < |allocOk| && false !in allocOk[..n] && allocOk[n]
    ensures false !in allocOk[..n + 1]
  {
    assert allocOk[..n + 1] == allocOk[..n] + [allocOk[n]];
  }

  /** Seeding one more label: the first `i + 2` seed blocks are the first
      `i + 1` and the block add_block makes of "Block i". */
  lemma SeedStep(i: nat, hash: seq<byte> -> u32)
    requires i < 5
    ensures SeedChain(i + 2, hash) == SeedChain(i + 1, hash) + [NewBlock(SeedChain(i + 1, hash), BlockLabel(i), hash)]
  {
    SeedListSnoc(i);
    GrownSnocOf(SeedList(i + 1), BlockLabel(i), SeedList(i + 2), hash);
  }

  /** The first `i + 2` seed payloads are the first `i + 1` and "Block i". */
  lemma SeedListSnoc(i: nat)
    requires i < 5
    ensures SeedList(i + 2) == SeedList(i + 1) + [BlockLabel(i)]
  {
  }

  /** One round of the seeding loop: sprintf "Block %d" into the buffer and
      add_block it; the chain then holds the first `i + 2` seed blocks. */
  method AddLabel(chain: BlockChain, i: nat, hash: seq<byte> -> u32, allocOk: bool) returns (r: int)
    requires i < 5 && chain.Valid() && chain.len == i + 1
    requires chain.Contents() == SeedChain(i + 1, hash)
    modifies chain, LastLink(chain.spine)
    ensures chain.Valid()
    ensures r == 0 <==> allocOk
    ensures r == 0 ==> chain.len == i + 2 && chain.Contents() == SeedChain(i + 2, hash)
    ensures r == 0 ==> chain.spine != [] && fresh(chain.spine[|chain.spine| - 1])
    ensures r != 0 ==> chain.Contents() == old(chain.Contents()) && chain.spine == old(chain.spine)
  {
    SeedStep(i, hash);
    r := chain.AddBlock(BlockLabel(i), hash, allocOk);
  }

  // ---------------------------------------------------------- poll pass

  /** One entry of the pollfds array: the descriptor and whether poll
      reported POLLIN for it in this pass. */
  datatype PollFd = PollFd(fd: int, readable: bool)

  /** The width of size_t, the type main stores receive_buf's result in. */
  const SIZE_T_MODULUS: int := 0x1_0000_0000_0000_0000

  /** The conversion of an int to size_t. */
  function AsSizeT(n: int): (m: nat)
    ensures m < SIZE_T_MODULUS
    ensures 0 <= n < SIZE_T_MODULUS ==> m == n
    ensures -SIZE_T_MODULUS <= n < 0 ==> m == n + SIZE_T_MODULUS
  {
    n % SIZE_T_MODULUS
  }

  /** node.c's `nbytes <= 0` on its size_t `nbytes`: for the results
      receive_buf can return it holds for 0 alone, so an error (-1)
      passes as a successful read. */
  function ClosedAsWritten(ret: int): (c: bool)
    ensures -SIZE_T_MODULUS < ret < SIZE_T_MODULUS ==> (c <==> ret == 0)
  {
    AsSizeT(ret) <= 0
  }

  lemma ErrorNotCaught(ret: int)
    requires -1 <= ret <= 1
    ensures ClosedAsWritten(ret) <==> ret == 0
  {
  }

  /** The check the code evidently means, on a signed result: an error and
      a close both drop the connection. */
  function Closed(ret: int): (c: bool)
    ensures ret == -1 ==> c
    ensures ret == 0 ==> c
    ensures ret > 0 ==> !c
  {
    ret <= 0
  }

  lemma OnlyFullReadServed(ret: int)
    requires -1 <= ret <= 1
    ensures !Closed(ret) <==> ret == 1
  {
  }

  /** get_client's results for this pass, in order; once the script runs
      out it reports -1. */
  function NextClient(accepts: seq<int>): (fd: int)
    ensures fd == -1 || fd in accepts
    ensures accepts == [] ==> fd == -1
  {
    if accepts == [] then -1 else accepts[0]
  }

  /** The results get_client has left after one call. */
  function AfterAccept(accepts: seq<int>): (rest: seq<int>)
    ensures |rest| == if accepts == [] then 0 else |accepts| - 1
    ensures accepts != [] ==> accepts == [NextClient(accepts)] + rest
  {
    if accepts == [] then [] else accepts[1..]
  }

  /** Entry `i` of `before` is gone from `after` and nothing else changed
      but, possibly, the order: delete_fd_from_server is defined outside
      the modelled files, so where the other entries end up is left open. */
  predicate RemovedAt(before: seq<PollFd>, after: seq<PollFd>, i: nat)
  {
    i < |before| && multiset(after) == multiset(before) - multiset{before[i]}
  }

  /** What the pass did with one entry. */
  datatype Handled =
    | NotReady                       // no POLLIN: untouched
    | Accepted(fd: int)              // the listener: a new client joined
    | NoClient                       // the listener: get_client gave -1
    | Hangup                         // a client: the read gave 0 bytes
    | Served(id: nat, o: Outcome)    // a client: endpoint `id` ran

  /** Every client entry poll marked readable has a peer behind it. */
  ghost predicate PeersKnown(pollfds: seq<PollFd>, listener: int, peers: map<int, Peer>)
  {
    forall e :: e in pollfds && e.readable && e.fd != listener ==> e.fd in peers
  }

  /** struct ServerData: the listening descriptor and the poll set, whose
      size is fd_count. */
  class ServerData {
    const listener: int
    var pollfds: seq<PollFd>

    constructor (listener: int, pollfds: seq<PollFd>)
      ensures this.listener == listener && this.pollfds == pollfds
    {
      this.listener := listener;
      this.pollfds := pollfds;
    }

    /** add_fd_to_server: the set gains `fd`; poll has not reported on it
        in this pass. */
    method AddFd(fd: int)
      modifies this
      ensures pollfds == old(pollfds) + [PollFd(fd, false)]
    {
      pollfds := pollfds + [PollFd(fd, false)];
    }

    /** delete_fd_from_server: entry `i` leaves the set, which shrinks by
        one; the order of what remains is not fixed here. */
    method DeleteFd(i: nat)
      requires i < |pollfds|
      modifies this
      ensures RemovedAt(old(pollfds), pollfds, i)
      ensures |pollfds| == |old(pollfds)| - 1
    {
      var before := pollfds;
      assert before == before[..i] + [before[i]] + before[i + 1..];
      assert RemovedAt(before, before[..i] + before[i + 1..], i);
      var after :| RemovedAt(before, after, i);
      pollfds := after;
    }
  }

  /** What RemovedAt keeps: nothing new appears, and every entry other than
      the one removed stays. */
  lemma RemovedKeeps(before: seq<PollFd>, after: seq<PollFd>, i: nat, e: PollFd)
    requires RemovedAt(before, after, i)
    ensures e in after ==> e in before
    ensures e in before && e != before[i] ==> e in after
  {
    assert e in multiset(after) <==> e in multiset(before) - multiset{before[i]};
    if e in before && e != before[i] {
      assert multiset(before)[e] > 0;
    }
  }

  /** The set after a pass keeps every peer known, when what it gained was
      not reported readable and what it lost was one of its entries. */
  lemma PeersKnownAfterRemoval(before: seq<PollFd>, after: seq<PollFd>, i: nat, listener: int, peers: map<int, Peer>)
    requires PeersKnown(before, listener, peers) && RemovedAt(before, after, i)
    ensures PeersKnown(after, listener, peers)
  {
    forall e | e in after && e.readable && e.fd != listener ensures e.fd in peers {
      RemovedKeeps(before, after, i, e);
    }
  }

  /** Dropping a readable client entry keeps every peer known, adds no
      entry, and keeps the listener and every entry not reported readable. */
  lemma ClientRemoved(before: seq<PollFd>, after: seq<PollFd>, i: nat, listener: int, peers: map<int, Peer>)
    requires PeersKnown(before, listener, peers) && RemovedAt(before, after, i)
    requires before[i].readable && before[i].fd != listener
    ensures PeersKnown(after, listener, peers)
    ensures forall x :: x in after ==> x in before
    ensures forall x :: x in before && (!x.readable || x.fd == listener) ==> x in after
  {
    PeersKnownAfterRemoval(before, after, i, listener, peers);
    forall x | x in before && (!x.readable || x.fd == listener) ensures x in after {
      RemovedKeeps(before, after, i, x);
    }
    forall x | x in after ensures x in before {
      RemovedKeeps(before, after, i, x);
    }
  }

  /** The client half of main's scan, lines 72-92, for a readable client
      entry `i`: receive_buf reads the one endpoint-id byte into a size_t;
      a zero result drops the entry, anything else dispatches the id read
      (or, when receive_buf failed, `staleId`, what the uninitialised
      variable holds) and drops the entry unless the outcome is
      DISPATCH_OK. */
  method ServeClient(server: ServerData, i: nat, chain: BlockChain, peers: map<int, Peer>,
                     staleId: byte, staleLen: seq<byte>, stale: seq<byte>, hash: seq<byte> -> u32, allocOk: bool)
    returns (h: Handled, peers': map<int, Peer>)
    requires i < |server.pollfds| && PeersKnown(server.pollfds, server.listener, peers)
    requires server.pollfds[i].readable && server.pollfds[i].fd != server.listener
    requires chain.Valid() && AllWellFormed(chain.Contents())
    requires |staleLen| == 2 && |stale| > MAX_PAYLOAD
    modifies server, chain, LastLink(chain.spine)
    ensures chain.Valid() && AllWellFormed(chain.Contents())
    ensures Linked(old(chain.Contents())) ==> Linked(chain.Contents())
    ensures old(chain.Contents()) <= chain.Contents()
    ensures chain.spine == old(chain.spine) || (chain.spine != [] && fresh(chain.spine[|chain.spine| - 1]))
    ensures peers'.Keys == peers.Keys && PeersKnown(server.pollfds, server.listener, peers')
    ensures forall e :: e in server.pollfds ==> e in old(server.pollfds)
    ensures forall e :: e in old(server.pollfds) && (!e.readable || e.fd == server.listener) ==> e in server.pollfds
    ensures |old(server.pollfds)| - 1 <= |server.pollfds| <= |old(server.pollfds)|
    ensures var e := old(server.pollfds)[i];
      var (ret, data, q) := ReceiveBuf(peers[e.fd], 1);
      && (ClosedAsWritten(ret) ==>
            && h == Hangup && peers' == peers[e.fd := q] && chain.Contents() == old(chain.Contents())
            && RemovedAt(old(server.pollfds), server.pollfds, i))
      && (!ClosedAsWritten(ret) ==>
            && h.Served? && h.id == (if ret == 1 then data[0] else staleId)
            && e.fd in peers' && peers' == peers[e.fd := peers'[e.fd]]
            && DispatchEffect(h.id, q, old(chain.Contents()), old(chain.len), staleLen, stale, hash, allocOk,
                              h.o, peers'[e.fd], chain.Contents())
            && (h.o == Ok ==> server.pollfds == old(server.pollfds))
            && (h.o != Ok ==> RemovedAt(old(server.pollfds), server.pollfds, i)))
  {
    var e := server.pollfds[i];
    var res := ReceiveBuf(peers[e.fd], 1);
    var nbytes := AsSizeT(res.0);
    if nbytes <= 0 {
      peers' := DropClient(server, i, res.2, peers);
      return Hangup, peers';
    }
    var id: nat := if res.0 == 1 then res.1[0] else staleId;
    h, peers' := DispatchClient(server, i, id, res.2, chain, peers, staleLen, stale, hash, allocOk);
  }

  /** Line 83 of main's scan: the read found the connection closed, so the
      readable client entry `i`, whose socket is now `p`, leaves the set. */
  method DropClient(server: ServerData, i: nat, p: Peer, peers: map<int, Peer>) returns (peers': map<int, Peer>)
    requires i < |server.pollfds| && PeersKnown(server.pollfds, server.listener, peers)
    requires server.pollfds[i].readable && server.pollfds[i].fd != server.listener
    modifies server
    ensures peers' == peers[old(server.pollfds)[i].fd := p]
    ensures peers'.Keys == peers.Keys
    ensures PeersKnown(server.pollfds, server.listener, peers')
    ensures forall e :: e in server.pollfds ==> e in old(server.pollfds)
    ensures forall e :: e in old(server.pollfds) && (!e.readable || e.fd == server.listener) ==> e in server.pollfds
    ensures RemovedAt(old(server.pollfds), server.pollfds, i)
    ensures |server.pollfds| == |old(server.pollfds)| - 1
  {
    var before := server.pollfds;
    peers' := peers[before[i].fd := p];
    server.DeleteFd(i);
    ClientRemoved(before, server.pollfds, i, server.listener, peers');
  }

  /** Lines 86-90 of main's scan: dispatch endpoint `id` on the socket
      `p` of the readable client entry `i`, then drop the entry unless the
      outcome is DISPATCH_OK. */
  method DispatchClient(server: ServerData, i: nat, id: nat, p: Peer, chain: BlockChain, peers: map<int, Peer>,
                        staleLen: seq<byte>, stale: seq<byte>, hash: seq<byte> -> u32, allocOk: bool)
    returns (h: Handled, peers': map<int, Peer>)
    requires i < |server.pollfds| && PeersKnown(server.pollfds, server.listener, peers)
    requires server.pollfds[i].readable && server.pollfds[i].fd != server.listener
    requires chain.Valid() && AllWellFormed(chain.Contents())
    requires |staleLen| == 2 && |stale| > MAX_PAYLOAD
    modifies server, chain, LastLink(chain.spine)
    ensures chain.Valid() && AllWellFormed(chain.Contents())
    ensures Linked(old(chain.Contents())) ==> Linked(chain.Contents())
    ensures old(chain.Contents()) <= chain.Contents()
    ensures chain.spine == old(chain.spine) || (chain.spine != [] && fresh(chain.spine[|chain.spine| - 1]))
    ensures var fd := old(server.pollfds)[i].fd;
      && h.Served? && h.id == id && peers'.Keys == peers.Keys && peers' == peers[fd := peers'[fd]]
      && DispatchEffect(h.id, p, old(chain.Contents()), old(chain.len), staleLen, stale, hash, allocOk,
                        h.o, peers'[fd], chain.Contents())
    ensures PeersKnown(server.pollfds, server.listener, peers')
    ensures forall e :: e in server.pollfds ==> e in old(server.pollfds)
    ensures forall e :: e in old(server.pollfds) && (!e.readable || e.fd == server.listener) ==> e in server.pollfds
    ensures h.o == Ok ==> server.pollfds == old(server.pollfds)
    ensures h.o != Ok ==> RemovedAt(old(server.pollfds), server.pollfds, i)
    ensures h.o != Ok ==> |server.pollfds| == |old(server.pollfds)| - 1
  {
    var before := server.pollfds;
    var fd := before[i].fd;
    var o, q := EndpointDispatch(id, p, chain, staleLen, stale, hash, allocOk);
    peers' := peers[fd := q];
    h := Served(id, o);
    if o != Ok {
      server.DeleteFd(i);
      ClientRemoved(before, server.pollfds, i, server.listener, peers');
    }
  }

  /** The body of main's scan for entry `i` of the poll set, lines 63-91.
      An entry poll did not mark readable is left alone. For the listener,
      get_client's next result is added to the set unless it is -1. A
      readable client is served as `ServeClient` states. `peers` is every
      client's socket, `accepts` what get_client returns, in order. */
  method ServeEntry(server: ServerData, i: nat, chain: BlockChain, peers: map<int, Peer>, accepts: seq<int>,
                    staleId: byte, staleLen: seq<byte>, stale: seq<byte>, hash: seq<byte> -> u32, allocOk: bool)
    returns (h: Handled, peers': map<int, Peer>, accepts': seq<int>)
    requires i < |server.pollfds| && PeersKnown(server.pollfds, server.listener, peers)
    requires chain.Valid() && AllWellFormed(chain.Contents())
    requires |staleLen| == 2 && |stale| > MAX_PAYLOAD
    modifies server, chain, LastLink(chain.spine)
    ensures chain.Valid() && AllWellFormed(chain.Contents())
    ensures Linked(old(chain.Contents())) ==> Linked(chain.Contents())
    ensures old(chain.Contents()) <= chain.Contents()
    ensures chain.spine == old(chain.spine) || (chain.spine != [] && fresh(chain.spine[|chain.spine| - 1]))
    ensures peers'.Keys == peers.Keys && PeersKnown(server.pollfds, server.listener, peers')
    ensures forall e :: e in server.pollfds ==> e in old(server.pollfds) || (!e.readable && e.fd in accepts)
    ensures forall e :: e in old(server.pollfds) && (!e.readable || e.fd == server.listener) ==> e in server.pollfds
    ensures |old(server.pollfds)| - 1 <= |server.pollfds| <= |old(server.pollfds)| + 1
    ensures |accepts'| <= |accepts| && (|server.pollfds| > |old(server.pollfds)| ==> |accepts'| < |accepts|)
    ensures var e := old(server.pollfds)[i];
      !e.readable ==> && h == NotReady && server.pollfds == old(server.pollfds)
                      && peers' == peers && accepts' == accepts && chain.Contents() == old(chain.Contents())
    ensures var e := old(server.pollfds)[i];
      e.readable && e.fd == server.listener ==>
        && accepts' == AfterAccept(accepts) && peers' == peers && chain.Contents() == old(chain.Contents())
        && (NextClient(accepts) == -1 ==> h == NoClient && server.pollfds == old(server.pollfds))
        && (NextClient(accepts) != -1 ==>
              h == Accepted(NextClient(accepts)) && server.pollfds == old(server.pollfds) + [PollFd(h.fd, false)])
    ensures var e := old(server.pollfds)[i];
      e.readable && e.fd != server.listener ==>
        var (ret, data, q) := ReceiveBuf(peers[e.fd], 1);
        && accepts' == accepts
        && (ClosedAsWritten(ret) ==>
              && h == Hangup && peers' == peers[e.fd := q] && chain.Contents() == old(chain.Contents())
              && RemovedAt(old(server.pollfds), server.pollfds, i))
        && (!ClosedAsWritten(ret) ==>
              && h.Served? && h.id == (if ret == 1 then data[0] else staleId)
              && e.fd in peers' && peers' == peers[e.fd := peers'[e.fd]]
              && DispatchEffect(h.id, q, old(chain.Contents()), old(chain.len), staleLen, stale, hash, allocOk,
                                h.o, peers'[e.fd], chain.Contents())
              && (h.o == Ok ==> server.pollfds == old(server.pollfds))
              && (h.o != Ok ==> RemovedAt(old(server.pollfds), server.pollfds, i)))
  {
    var e := server.pollfds[i];
    peers', accepts' := peers, accepts;
    if !e.readable {
      return NotReady, peers', accepts';
    }
    if e.fd == server.listener {
      var newFd := NextClient(accepts);
      accepts' := AfterAccept(accepts);
      if newFd != -1 {
        server.AddFd(newFd);
        return Accepted(newFd), peers', accepts';
      }
      return NoClient, peers', accepts';
    }
    h, peers' := ServeClient(server, i, chain, peers, staleId, staleLen, stale, hash, allocOk);
  }

  /** One pass of main's `for` loop over the poll set, lines 60-95: entry
      by entry while `i < fd_count`, where fd_count follows the additions
      and removals of the pass itself. Over the whole pass the chain only
      grows, stays hash linked, and the set loses only client entries that
      poll reported readable and gains only newly accepted clients. */
  method ScanPass(server: ServerData, chain: BlockChain, peers: map<int, Peer>, accepts: seq<int>,
                  staleId: byte, staleLen: seq<byte>, stale: seq<byte>, hash: seq<byte> -> u32, allocOk: bool)
    returns (log: seq<Handled>, peers': map<int, Peer>)
    requires PeersKnown(server.pollfds, server.listener, peers)
    requires chain.Valid() && AllWellFormed(chain.Contents())
    requires |staleLen| == 2 && |stale| > MAX_PAYLOAD
    modifies server, chain, LastLink(chain.spine)
    ensures chain.Valid() && AllWellFormed(chain.Contents())
    ensures Linked(old(chain.Contents())) ==> Linked(chain.Contents())
    ensures old(chain.Contents()) <= chain.Contents()
    ensures peers'.Keys == peers.Keys
    ensures forall e :: e in server.pollfds ==> e in old(server.pollfds) || (!e.readable && e.fd in accepts)
    ensures forall e :: e in old(server.pollfds) && (!e.readable || e.fd == server.listener) ==> e in server.pollfds
    ensures forall k :: 0 <= k < |log| && log[k].Accepted? ==> log[k].fd in accepts
  {
    var i := 0;
    var rest := accepts;
    peers' := peers;
    log := [];
    ghost var start := server.pollfds;
    while i < |server.pollfds|
      invariant i <= |server.pollfds| + 1
      invariant chain.Valid() && AllWellFormed(chain.Contents())
      invariant Linked(old(chain.Contents())) ==> Linked(chain.Contents())
      invariant old(chain.Contents()) <= chain.Contents()
      invariant chain.spine == old(chain.spine) || (chain.spine != [] && fresh(chain.spine[|chain.spine| - 1]))
      invariant peers'.Keys == peers.Keys && PeersKnown(server.pollfds, server.listener, peers')
      invariant forall x :: x in rest ==> x in accepts
      invariant forall e :: e in server.pollfds ==> e in start || (!e.readable && e.fd in accepts)
      invariant forall e :: e in start && (!e.readable || e.fd == server.listener) ==> e in server.pollfds
      invariant forall k :: 0 <= k < |log| && log[k].Accepted? ==> log[k].fd in accepts
      decreases |rest|, |server.pollfds| + 1 - i
    {
      var h, rest';
      h, peers', rest' := ServeEntry(server, i, chain, peers', rest, staleId, staleLen, stale, hash, allocOk);
      rest := rest';
      log := log + [h];
      i := i + 1;
    }
  }
}
