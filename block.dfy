/** The in-memory chain of src/block.c: a singly linked list of links, each
    holding one block, and the three list and payload operations on it. */
module Blocks {
  import opened Wire

  /** Longest payload text a block keeps (include/block.h). */
  const MAX_PAYLOAD: nat := 20

  /** One ledger record. `payload` is the whole heap buffer the block owns,
      terminating NUL included, as add_payload leaves it. */
  datatype Block = Block(prevHash: u32, hash: u32, payload: seq<byte>)

  /** A C string: a byte buffer with a NUL terminator somewhere in it. */
  type CString = s: seq<byte> | 0 in s witness [0]

  /** strlen: the index of the first NUL of a C string. */
  function Strlen(s: seq<byte>): (n: nat)
    requires 0 in s
    ensures n < |s| && s[n] == 0
    ensures 0 !in s[..n]
  {
    if s[0] == 0 then 0
    else
      assert 0 in s[1..] by { var k :| 0 <= k < |s| && s[k] == 0; assert s[1..][k - 1] == 0; }
      var n := 1 + Strlen(s[1..]);
      assert s[..n] == [s[0]] + s[1..][..n - 1];
      n
  }

  /** A payload buffer as add_payload builds it: a text of at most
      MAX_PAYLOAD bytes with no NUL in it, then exactly one NUL. */
  predicate WellFormedPayload(buf: seq<byte>)
  {
    && 1 <= |buf| <= MAX_PAYLOAD + 1
    && buf[|buf| - 1] == 0
    && 0 !in buf[..|buf| - 1]
  }

  predicate WellFormed(b: Block)
  {
    WellFormedPayload(b.payload)
  }

  /** The text of a well-formed buffer: everything before its terminator. */
  function Text(buf: seq<byte>): (t: seq<byte>)
    requires WellFormedPayload(buf)
    ensures |t| <= MAX_PAYLOAD && 0 !in t && buf == t + [0]
  {
    buf[..|buf| - 1]
  }

  /** What add_payload stores for the C string `s`. */
  function StoredPayload(s: seq<byte>): (buf: seq<byte>)
    requires 0 in s
    ensures WellFormedPayload(buf)
    ensures |Text(buf)| == Min(Strlen(s), MAX_PAYLOAD)
    ensures Text(buf) == s[..|Text(buf)|]
  {
    var n := Min(Strlen(s), MAX_PAYLOAD);
    assert s[..n] == s[..Strlen(s)][..n];
    s[..n] + [0]
  }

  /** Silent truncation: a text longer than MAX_PAYLOAD keeps exactly its
      first MAX_PAYLOAD bytes; a shorter one is kept whole. */
  lemma Truncation(s: seq<byte>)
    requires 0 in s
    ensures Strlen(s) > MAX_PAYLOAD ==> Text(StoredPayload(s)) == s[..MAX_PAYLOAD]
    ensures Strlen(s) <= MAX_PAYLOAD ==> Text(StoredPayload(s)) == s[..Strlen(s)]
  {
  }

  /** The length of a NUL-free text followed by a terminator. */
  lemma StrlenOfText(t: seq<byte>, tail: seq<byte>)
    requires 0 !in t
    ensures 0 in t + [0] + tail && Strlen(t + [0] + tail) == |t|
  {
    var s := t + [0] + tail;
    assert s[|t|] == 0;
  }

  /** A text already within bounds is stored unchanged. */
  lemma StoredPayloadOfText(t: seq<byte>)
    requires |t| <= MAX_PAYLOAD && 0 !in t
    ensures StoredPayload(t + [0]) == t + [0]
  {
    var s := t + [0];
    assert s[|t|] == 0;
    assert s[..|t|] == t;
  }

  /** struct Link: one block and the pointer to the next link. */
  class Link {
    var block: Block
    var next: Link?

    /** A freshly allocated link: `next` is NULL, the block holds whatever
        the allocator left in it. */
    constructor (junk: Block)
      ensures block == junk && next == null
    {
      block := junk;
      next := null;
    }
  }

  /** `spine` lists, head first, the links reachable from `head`, and the
      last of them ends the list. */
  ghost predicate IsList(head: Link?, spine: seq<Link>)
    reads spine
  {
    && (head == null <==> spine == [])
    && (spine != [] ==> head == spine[0] && spine[|spine| - 1].next == null)
    && (forall k :: 0 <= k < |spine| - 1 ==> spine[k].next == spine[k + 1])
  }

  /** The tail of a NULL-terminated list occurs in it only once. */
  lemma TailUnique(head: Link?, spine: seq<Link>)
    requires IsList(head, spine) && spine != []
    ensures forall k :: 0 <= k < |spine| - 1 ==> spine[k] != spine[|spine| - 1]
  {
    forall k | 0 <= k < |spine| - 1 ensures spine[k] != spine[|spine| - 1] {
      assert spine[k].next == spine[k + 1];
    }
  }

  /** The link append_link may write to: the current tail, if any. */
  ghost function LastLink(spine: seq<Link>): set<Link>
  {
    if spine == [] then {} else {spine[|spine| - 1]}
  }

  /** append_link: allocate a link and attach it after the tail of the list
      starting at `head` (or return it alone when `head` is NULL).
      `allocOk` is the outcome of malloc. */
  method AppendLink(head: Link?, ghost spine: seq<Link>, allocOk: bool, junk: Block)
    returns (plink: Link?)
    requires IsList(head, spine)
    modifies LastLink(spine)
    ensures !allocOk ==> plink == null && unchanged(LastLink(spine))
    ensures allocOk ==> plink != null && fresh(plink) && plink.next == null && plink.block == junk
    ensures allocOk ==> IsList(if head == null then plink else head, spine + [plink])
    ensures forall l :: l in LastLink(spine) ==> l.block == old(l.block)
  {
    if !allocOk {
      return null;
    }
    plink := new Link(junk);
    if head == null {
      return plink;
    }
    var tail := head;
    ghost var k := 0;
    while tail.next != null
      invariant 0 <= k < |spine| && tail == spine[k]
      invariant k < |spine| - 1 ==> tail.next == spine[k + 1]
      decreases |spine| - k
    {
      tail := tail.next;
      k := k + 1;
    }
    TailUnique(head, spine);
    tail.next := plink;
  }

  /** delete_chain: walk the list from the head and release each link once.
      Returns the links in the order they were freed, and the new head. */
  method DeleteChain(head: Link?, ghost spine: seq<Link>) returns (freed: seq<Link>, newHead: Link?)
    requires IsList(head, spine)
    ensures freed == spine
    ensures newHead == null
  {
    var current := head;
    freed := [];
    ghost var k := 0;
    while current != null
      invariant 0 <= k <= |spine| && freed == spine[..k]
      invariant current == if k < |spine| then spine[k] else null
      decreases |spine| - k
    {
      var next := current.next;
      freed := freed + [current];
      current := next;
      k := k + 1;
    }
    newHead := null;
  }

  /** add_payload: copy the C string `payload` into a fresh buffer of at most
      MAX_PAYLOAD + 1 bytes, terminate it, and make it the block's payload. */
  method AddPayload(link: Link, payload: seq<byte>)
    requires 0 in payload
    modifies link
    ensures link.block == old(link.block).(payload := StoredPayload(payload))
    ensures link.next == old(link.next)
  {
    var size := Strlen(payload) + 1;
    size := if size > MAX_PAYLOAD + 1 then MAX_PAYLOAD + 1 else size;
    var buf := CopyTerminated(payload, size);
    link.block := link.block.(payload := buf[..]);
  }

  /** The malloc and memcpy of add_payload: the first `size - 1` bytes of
      `payload` in a new buffer of `size` bytes, the last one set to NUL. */
  method CopyTerminated(payload: seq<byte>, size: nat) returns (buf: array<byte>)
    requires 0 < size <= |payload|
    ensures fresh(buf)
    ensures buf[..] == payload[..size - 1] + [0]
  {
    buf := new byte[size];
    var k := 0;
    while k < size
      modifies buf
      invariant 0 <= k <= size
      invariant buf[..k] == payload[..k]
    {
      buf[k] := payload[k];
      k := k + 1;
    }
    buf[size - 1] := 0;
    assert buf[..] == buf[..size - 1] + [buf[size - 1]];
  }
}
