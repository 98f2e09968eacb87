/** struct BlockChain: the head of the link list and its length. The struct,
    initialise_chain and add_block are used by the core but defined outside
    the modelled files. The add_block below is this model's assumption about
    it, built from the list and payload operations of src/block.c: it
    appends a link, stores the payload as add_payload does, points the new
    block at the tail's hash, hashes the stored text, and fails, changing
    nothing, when allocation fails or the chain already holds u32::MAX
    blocks. */
module Chain {
  import opened Wire
  import opened Blocks

  /** Hash linkage: the genesis block points at 0, every later block at the
      hash of the block before it. */
  predicate Linked(bs: seq<Block>)
  {
    && (bs != [] ==> bs[0].prevHash == 0)
    && (forall k :: 0 < k < |bs| ==> bs[k].prevHash == bs[k - 1].hash)
  }

  predicate AllWellFormed(bs: seq<Block>)
  {
    forall k :: 0 <= k < |bs| ==> WellFormed(bs[k])
  }

  /** The hash the next block must point at: the tail's, or 0 for genesis. */
  function TailHashOf(bs: seq<Block>): u32
  {
    if bs == [] then 0 else bs[|bs| - 1].hash
  }

  /** The block add_block appends to `bs` for the C string `s`, with the
      pluggable hash function `hash` taken over the stored text. */
  function NewBlock(bs: seq<Block>, s: seq<byte>, hash: seq<byte> -> u32): (b: Block)
    requires 0 in s
    ensures WellFormed(b) && b.payload == StoredPayload(s)
  {
    var buf := StoredPayload(s);
    Block(TailHashOf(bs), hash(Text(buf)), buf)
  }

  /** Appending with add_block keeps the hash linkage and well-formedness. */
  lemma AppendKeepsLinkage(bs: seq<Block>, s: seq<byte>, hash: seq<byte> -> u32)
    requires 0 in s && AllWellFormed(bs)
    ensures AllWellFormed(bs + [NewBlock(bs, s, hash)])
    ensures Linked(bs) ==> Linked(bs + [NewBlock(bs, s, hash)])
  {
    var bs' := bs + [NewBlock(bs, s, hash)];
    if Linked(bs) {
      forall k | 0 < k < |bs'| ensures bs'[k].prevHash == bs'[k - 1].hash {
        if k < |bs| {
          assert bs'[k] == bs[k] && bs'[k - 1] == bs[k - 1];
        }
      }
    }
  }

  /** The block a receiver keeps for a block read off the wire: its hashes
      as they arrived and its text stored the way add_payload stores a C
      string, up to the first NUL and at most MAX_PAYLOAD bytes. */
  function Received(b: Block): (c: Block)
    requires 0 in b.payload
    ensures WellFormed(c)
  {
    b.(payload := StoredPayload(b.payload))
  }

  /** A block that was well formed when sent is kept exactly. */
  lemma ReceivedWellFormed(b: Block)
    requires WellFormed(b)
    ensures 0 in b.payload && Received(b) == b
  {
    assert b.payload[|b.payload| - 1] == 0;
    StoredPayloadOfText(Text(b.payload));
  }

  /** The chain that `step` builds from an empty one for the C strings
      `ps`, in order, each step seeing the chain built so far. */
  function Built(ps: seq<CString>, step: (seq<Block>, CString) -> Block): (bs: seq<Block>)
    ensures |bs| == |ps|
  {
    if ps == [] then []
    else
      var prior := Built(ps[..|ps| - 1], step);
      prior + [step(prior, ps[|ps| - 1])]
  }

  /** Block `k` of a built chain is the step taken on string `k`, over the
      chain the first `k` strings had built: later steps never change it. */
  lemma {:induction false} BuiltAt(ps: seq<CString>, step: (seq<Block>, CString) -> Block, k: nat)
    requires k < |ps|
    ensures Built(ps, step)[k] == step(Built(ps[..k], step), ps[k])
    decreases |ps|
  {
    var front := ps[..|ps| - 1];
    if k < |ps| - 1 {
      BuiltAt(front, step, k);
      assert front[..k] == ps[..k] && front[k] == ps[k];
    }
  }

  /** The chain that add_block builds from an empty one for the C strings
      `ps`, in order. */
  ghost function Grown(ps: seq<CString>, hash: seq<byte> -> u32): (bs: seq<Block>)
    ensures |bs| == |ps|
  {
    Built(ps, (bs: seq<Block>, s: CString) => NewBlock(bs, s, hash))
  }

  /** Growing by the first `k + 1` strings is growing by the first `k`, then
      one add_block more. */
  lemma GrownSnoc(ps: seq<CString>, k: nat, hash: seq<byte> -> u32)
    requires k < |ps|
    ensures Grown(ps[..k + 1], hash) == Grown(ps[..k], hash) + [NewBlock(Grown(ps[..k], hash), ps[k], hash)]
  {
    assert ps[..k + 1][..k] == ps[..k];
  }

  /** Growing by one more string is one add_block more. */
  lemma GrownSnocOf(ps: seq<CString>, s: CString, qs: seq<CString>, hash: seq<byte> -> u32)
    requires qs == ps + [s]
    ensures Grown(qs, hash) == Grown(ps, hash) + [NewBlock(Grown(ps, hash), s, hash)]
  {
    assert qs[..|qs| - 1] == ps;
  }

  /** Any sequence of add_block calls from an empty chain leaves it hash
      linked, with every block well formed. */
  lemma {:induction false} GrownLinked(ps: seq<CString>, hash: seq<byte> -> u32)
    ensures AllWellFormed(Grown(ps, hash)) && Linked(Grown(ps, hash))
    decreases |ps|
  {
    if ps != [] {
      var front := ps[..|ps| - 1];
      GrownLinked(front, hash);
      GrownSnoc(ps, |ps| - 1, hash);
      assert ps[..|ps|] == ps;
      AppendKeepsLinkage(Grown(front, hash), ps[|ps| - 1], hash);
    }
  }

  /** Block `k` of a grown chain is the block add_block made of the `k`-th
      string, on the chain the first `k` strings had built: later appends
      never change it. */
  lemma GrownAt(ps: seq<CString>, hash: seq<byte> -> u32, k: nat)
    requires k < |ps|
    ensures Grown(ps, hash)[k] == NewBlock(Grown(ps[..k], hash), ps[k], hash)
  {
    BuiltAt(ps, (bs: seq<Block>, s: CString) => NewBlock(bs, s, hash), k);
  }

  class BlockChain {
    var head: Link?
    var len: int
    /** The links from the head, in order. */
    ghost var spine: seq<Link>

    ghost predicate Valid()
      reads this, spine
    {
      && IsList(head, spine)
      && len == |spine|
      && len <= U32_MAX
    }

    /** The blocks of the chain, head to tail. */
    ghost function Contents(): (bs: seq<Block>)
      reads this, spine
      ensures |bs| == |spine|
    {
      var sp := spine;
      seq(|sp|, k reads sp requires 0 <= k < |sp| => sp[k].block)
    }

    /** initialise_chain: an empty chain. */
    constructor ()
      ensures Valid() && Contents() == [] && head == null && spine == []
    {
      head := null;
      len := 0;
      spine := [];
    }

    /** Walk to the tail and read its hash; 0 for an empty chain. */
    method TailHash() returns (h: u32)
      requires Valid()
      ensures h == TailHashOf(Contents())
    {
      if head == null {
        return 0;
      }
      var tail := head;
      ghost var k := 0;
      while tail.next != null
        invariant 0 <= k < |spine| && tail == spine[k]
        invariant k < |spine| - 1 ==> tail.next == spine[k + 1]
        decreases |spine| - k
      {
        tail := tail.next;
        k := k + 1;
      }
      h := tail.block.hash;
    }

    /** add_block: append a block holding the C string `s`, pointing at the
        tail's hash (0 for genesis) and carrying the hash of its stored
        text. Returns 0 on success; fails, leaving the chain exactly as it
        was, when the chain already holds U32_MAX blocks or the allocation
        fails. */
    method AddBlock(s: seq<byte>, hash: seq<byte> -> u32, allocOk: bool) returns (r: int)
      requires Valid() && 0 in s
      modifies this, LastLink(spine)
      ensures Valid()
      ensures r == 0 || r == -1
      ensures r == 0 <==> allocOk && old(len) < U32_MAX
      ensures r == 0 ==> Contents() == old(Contents()) + [NewBlock(old(Contents()), s, hash)]
      ensures r != 0 ==> Contents() == old(Contents()) && spine == old(spine)
      ensures r == 0 ==> |spine| == |old(spine)| + 1 && spine[..|old(spine)|] == old(spine)
      ensures r == 0 ==> fresh(spine[|old(spine)|])
    {
      var prev := TailHash();
      var buf := StoredPayload(s);
      var b := Block(prev, hash(Text(buf)), buf);
      ghost var bs := Contents();
      assert b == NewBlock(bs, s, hash);
      ReceivedWellFormed(b);
      r := AppendBlock(b, allocOk);
    }

    /** The append at the heart of add_block, and of unpack_block on the
        receiving side: refuse a full chain, append_link a new link, store
        the text with add_payload and set the two hashes. */
    method AppendBlock(b: Block, allocOk: bool) returns (r: int)
      requires Valid() && 0 in b.payload
      modifies this, LastLink(spine)
      ensures Valid()
      ensures r == 0 || r == -1
      ensures r == 0 <==> allocOk && old(len) < U32_MAX
      ensures r == 0 ==> Contents() == old(Contents()) + [Received(b)]
      ensures r != 0 ==> Contents() == old(Contents()) && spine == old(spine)
      ensures r == 0 ==> |spine| == |old(spine)| + 1 && spine[..|old(spine)|] == old(spine)
      ensures r == 0 ==> fresh(spine[|old(spine)|])
    {
      if len == U32_MAX {
        return -1;
      }
      var plink := AppendLink(head, spine, allocOk, Block(0, 0, []));
      if plink == null {
        return -1;
      }
      AddPayload(plink, b.payload);
      plink.block := plink.block.(prevHash := b.prevHash, hash := b.hash);
      if head == null {
        head := plink;
      }
      len := len + 1;
      spine := spine + [plink];
      r := 0;
    }
  }
}
