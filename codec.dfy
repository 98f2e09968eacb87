/** The wire layout of one block and of a whole chain reply.
    pack_block and unpack_block are defined outside the modelled files; the
    frame below is the layout the repository's socket test reads back:
    a big-endian u16 text length, the big-endian u32 previous hash, the
    big-endian u32 hash, then the text with no terminator. */
module Codec {
  import opened Wire
  import opened Blocks

  /** The header of every frame: length, prev_hash and hash fields. */
  const FRAME_HEADER: nat := 10

  /** pack_block: the frame of one well-formed block. */
  function Frame(b: Block): (f: seq<byte>)
    requires WellFormed(b)
    ensures |f| == FRAME_HEADER + |Text(b.payload)|
  {
    U16BE(|Text(b.payload)|) + U32BE(b.prevHash) + U32BE(b.hash) + Text(b.payload)
  }

  datatype DecodeError = Truncated | PayloadTooLarge

  datatype Decoded<T> = Decoded(value: T, rest: seq<byte>) | Failed(err: DecodeError)

  /** Reading one frame from the front of `s`: the length field is checked
      against MAX_PAYLOAD before any payload byte is looked at, the hashes
      are taken from the wire as they are, and the text gets a terminator. */
  function DecodeFrame(s: seq<byte>): (d: Decoded<Block>)
    ensures d.Decoded? ==> 0 in d.value.payload
    ensures d.Decoded? ==> |s| >= FRAME_HEADER && |s| >= FRAME_HEADER + DecodeU16(s[..2])
    ensures d.Decoded? ==> d.rest == s[FRAME_HEADER + DecodeU16(s[..2])..]
  {
    if |s| < 2 then Failed(Truncated)
    else
      var n := DecodeU16(s[..2]);
      if n > MAX_PAYLOAD then Failed(PayloadTooLarge)
      else if |s| < FRAME_HEADER + n then Failed(Truncated)
      else
        var c := s[10..10 + n] + [0];
        assert c[n] == 0;
        Decoded(Block(DecodeU32(s[2..6]), DecodeU32(s[6..10]), c), s[10 + n..])
  }

  /** An oversized length field is refused whatever follows it. */
  lemma OversizedRejected(s: seq<byte>)
    requires |s| >= 2 && DecodeU16(s[..2]) > MAX_PAYLOAD
    ensures DecodeFrame(s) == Failed(PayloadTooLarge)
  {
  }

  /** Decoding a frame gives back the block and leaves what followed. */
  lemma FrameRoundTrip(b: Block, rest: seq<byte>)
    requires WellFormed(b)
    ensures DecodeFrame(Frame(b) + rest) == Decoded(b, rest)
  {
    var t := Text(b.payload);
    var s := Frame(b) + rest;
    assert s[..2] == U16BE(|t|);
    assert s[2..6] == U32BE(b.prevHash);
    assert s[6..10] == U32BE(b.hash);
    assert s[10..10 + |t|] == t;
    assert s[10 + |t|..] == rest;
    U16RoundTrip(|t|);
    U32RoundTrip(b.prevHash);
    U32RoundTrip(b.hash);
  }

  /** The genesis block of text "A" with hash 177638 (0x0002B5E6) packs
      into eleven bytes, and reading them gives the block back. */
  lemma FrameExample()
    ensures Frame(Block(0, 177638, [65, 0])) == [0, 1, 0, 0, 0, 0, 0, 2, 0xB5, 0xE6, 65]
    ensures DecodeFrame([0, 1, 0, 0, 0, 0, 0, 2, 0xB5, 0xE6, 65]) == Decoded(Block(0, 177638, [65, 0]), [])
  {
    var b := Block(0, 177638, [65, 0]);
    assert Text(b.payload) == [65];
    assert U16BE(1) == [0, 1];
    assert U32BE(0) == [0, 0, 0, 0];
    assert U32BE(177638) == U16BE(2) + U16BE(0xB5E6) == [0, 2, 0xB5, 0xE6];
    FrameRoundTrip(b, []);
    assert Frame(b) + [] == Frame(b);
  }

  /** The frames of a sequence of blocks, head first. */
  function Frames(bs: seq<Block>): (f: seq<byte>)
    requires forall k :: 0 <= k < |bs| ==> WellFormed(bs[k])
    ensures |f| >= FRAME_HEADER * |bs|
  {
    if bs == [] then [] else Frame(bs[0]) + Frames(bs[1..])
  }

  /** The reply of the chain endpoint: the count, then that many frames. */
  function ChainReply(len: u32, bs: seq<Block>): seq<byte>
    requires forall k :: 0 <= k < |bs| ==> WellFormed(bs[k])
  {
    U32BE(len) + Frames(bs)
  }

  /** `count` reads by `dec`, each on what the one before it left, stopping
      at the first that fails. */
  function Repeat(dec: seq<byte> -> Decoded<Block>, s: seq<byte>, count: nat): (d: Decoded<seq<Block>>)
    ensures d.Decoded? ==> |d.value| == count
    decreases count
  {
    if count == 0 then Decoded([], s)
    else match dec(s)
      case Failed(e) => Failed(e)
      case Decoded(b, rest) =>
        match Repeat(dec, rest, count - 1)
        case Failed(e) => Failed(e)
        case Decoded(bs, rest') => Decoded([b] + bs, rest')
  }

  /** `count > 0` reads: the first, then `count - 1` more from what follows
      it; a failure of either is a failure of the whole. */
  lemma RepeatCons(dec: seq<byte> -> Decoded<Block>, s: seq<byte>, count: nat)
    requires count > 0
    ensures dec(s).Failed? ==> Repeat(dec, s, count).Failed?
    ensures dec(s).Decoded? ==>
      Repeat(dec, s, count).Decoded? == Repeat(dec, dec(s).rest, count - 1).Decoded?
    ensures dec(s).Decoded? && Repeat(dec, s, count).Decoded? ==>
      && Repeat(dec, s, count).value == [dec(s).value] + Repeat(dec, dec(s).rest, count - 1).value
      && Repeat(dec, s, count).rest == Repeat(dec, dec(s).rest, count - 1).rest
  {
  }

  /** When the read after the first `i` fails, so does any larger number of
      reads. */
  lemma {:induction false} RepeatFailLater(dec: seq<byte> -> Decoded<Block>, s: seq<byte>, i: nat, count: nat)
    requires i < count && Repeat(dec, s, i).Decoded?
    requires dec(Repeat(dec, s, i).rest).Failed?
    ensures Repeat(dec, s, count).Failed?
    decreases i
  {
    if i > 0 {
      RepeatFailLater(dec, dec(s).rest, i - 1, count - 1);
    }
  }

  /** A read that succeeds after the first `i` extends them by one block. */
  lemma {:induction false} RepeatOneMore(dec: seq<byte> -> Decoded<Block>, s: seq<byte>, i: nat)
    requires Repeat(dec, s, i).Decoded?
    requires dec(Repeat(dec, s, i).rest).Decoded?
    ensures Repeat(dec, s, i + 1) == Decoded(Repeat(dec, s, i).value + [dec(Repeat(dec, s, i).rest).value],
                                             dec(Repeat(dec, s, i).rest).rest)
    decreases i
  {
    var d := dec(s);
    if i == 0 {
      assert Repeat(dec, d.rest, 0) == Decoded([], d.rest);
      assert [d.value] + [] == [] + [d.value];
    } else {
      var t := Repeat(dec, d.rest, i - 1);
      RepeatOneMore(dec, d.rest, i - 1);
      var e := dec(t.rest);
      assert [d.value] + (t.value + [e.value]) == ([d.value] + t.value) + [e.value];
    }
  }

  /** Every block `dec` produces is terminated, so every block of a repeat is. */
  lemma {:induction false} RepeatTerminated(dec: seq<byte> -> Decoded<Block>, s: seq<byte>, count: nat)
    requires forall t :: dec(t).Decoded? ==> 0 in dec(t).value.payload
    ensures Repeat(dec, s, count).Decoded? ==>
      forall k :: 0 <= k < count ==> 0 in Repeat(dec, s, count).value[k].payload
    decreases count
  {
    if count > 0 && Repeat(dec, s, count).Decoded? {
      RepeatTerminated(dec, dec(s).rest, count - 1);
      var v := Repeat(dec, s, count).value;
      assert v == [dec(s).value] + Repeat(dec, dec(s).rest, count - 1).value;
      forall k | 0 <= k < count ensures 0 in v[k].payload {
        if k > 0 { assert v[k] == Repeat(dec, dec(s).rest, count - 1).value[k - 1]; }
      }
    }
  }

  /** Reading `count` frames one after another. */
  function DecodeFrames(s: seq<byte>, count: nat): (d: Decoded<seq<Block>>)
    ensures d.Decoded? ==> |d.value| == count
    ensures d.Decoded? ==> forall k :: 0 <= k < |d.value| ==> 0 in d.value[k].payload
  {
    RepeatTerminated(DecodeFrame, s, count);
    Repeat(DecodeFrame, s, count)
  }

  /** The frames of a non-empty sequence: the first block's, then the rest. */
  lemma FramesUnfold(bs: seq<Block>)
    requires bs != [] && forall k :: 0 <= k < |bs| ==> WellFormed(bs[k])
    ensures Frames(bs) == Frame(bs[0]) + Frames(bs[1..])
  {
  }

  lemma SplitFirst<T>(xs: seq<T>)
    requires xs != []
    ensures [xs[0]] + xs[1..] == xs
  {
  }

  lemma SliceConcat(a: seq<byte>, b: seq<byte>)
    ensures (a + b)[..|a|] == a && (a + b)[|a|..] == b
  {
  }

  lemma Concat3(a: seq<byte>, b: seq<byte>, c: seq<byte>)
    ensures (a + b) + c == a + (b + c)
  {
  }

  /** A reader of `|bs|` frames recovers exactly the blocks that were packed. */
  lemma {:induction false} FramesRoundTrip(bs: seq<Block>, rest: seq<byte>)
    requires forall k :: 0 <= k < |bs| ==> WellFormed(bs[k])
    ensures DecodeFrames(Frames(bs) + rest, |bs|) == Decoded(bs, rest)
  {
    if bs != [] {
      var t := Frames(bs[1..]) + rest;
      FramesUnfold(bs);
      Concat3(Frame(bs[0]), Frames(bs[1..]), rest);
      SplitFirst(bs);
      FrameRoundTrip(bs[0], t);
      FramesRoundTrip(bs[1..], rest);
      RepeatCons(DecodeFrame, Frames(bs) + rest, |bs|);
    }
  }

  /** Client and server agree on the chain reply: its count field decodes to
      the chain length, and the frames after it to the very blocks sent. */
  lemma ChainReplyRoundTrip(bs: seq<Block>, rest: seq<byte>)
    requires |bs| <= U32_MAX
    requires forall k :: 0 <= k < |bs| ==> WellFormed(bs[k])
    ensures var s := ChainReply(|bs|, bs) + rest;
      DecodeU32(s[..4]) == |bs| && DecodeFrames(s[4..], DecodeU32(s[..4])) == Decoded(bs, rest)
  {
    Concat3(U32BE(|bs|), Frames(bs), rest);
    SliceConcat(U32BE(|bs|), Frames(bs) + rest);
    U32RoundTrip(|bs|);
    FramesRoundTrip(bs, rest);
  }
}
