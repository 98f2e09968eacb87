# cherubChain node core in Dafny

This project models the core of the cherubChain node. The node keeps an
in-memory, append-only chain of blocks. Each block holds a short text
payload, its own hash and the hash of the block before it. The node serves
the chain to peers over TCP with a one-byte request protocol:

- endpoint 0 (CHAIN) replies with the chain length as a big-endian u32,
  followed by one frame per block;
- endpoint 1 (ADD_BLOCK) reads a big-endian u16 length and that many payload
  bytes, then appends a block.

Modules, leaf first:

- `Wire` (`wire.dfy`): bytes, `u16`/`u32`, and network byte order (`htons`,
  `htonl`, `ntohs`, `ntohl`) with round-trip lemmas.
- `Socket` (`socket.dfy`): one connection seen through `send`/`recv`. The
  kernel and the remote peer are an oracle: scripted replies for each call,
  the bytes sent so far and the bytes waiting to be read. `send_buf`
  (src/server.c) is a `while` loop proved against the function `SendFrom`.
- `Blocks` (`block.dfy`): `struct Block`, `struct Link` as a class with a
  mutable `next`, and `append_link`, `delete_chain`, `add_payload` as
  imperative methods over the linked list.
- `Chain` (`chain.dfy`): `struct BlockChain` (head pointer plus `len`) as a
  class, `add_block`, and the hash-linkage invariant.
- `Codec` (`codec.dfy`): the frame of one block (u16 BE length, u32 BE
  prev_hash, u32 BE hash, payload without terminator) and the chain reply,
  with round-trip lemmas.
- `Endpoints` (`endpoints.dfy`): the dispatch table, `endpoint_dispatch`,
  `chain_endpoint` and `add_block_endpoint`.
- `Requests` (`requests.dfy`): the client side: `send_endpoint_request`,
  `request_add_block_endpoint`, `request_chain_endpoint` and its
  `unpack_block` loop.
- `Node` (`node.dfy`): the seeding of the chain in `main` and one pass of
  the serving loop over the poll set.

Modelling choices:

- Integers are unbounded. The wire widths are subset types (`byte`, `u16`,
  `u32`). The `size_t` conversion in src/node.c is written out as a modulus.
- The hash function is a parameter `hash: seq<byte> -> u32`.
- Each `malloc` outcome is a parameter: a boolean for a single call, a
  sequence for the six seeding appends, and a function of the call index
  for the `unpack_block` calls of a chain download. One pass of the
  serving loop shares one outcome (see "Left out").
- Each uninitialised C variable whose value matters is a parameter:
  - `n` in `send_buf` when `len == 0`;
  - the `endpoint_id` byte when `receive_buf` fails;
  - the stack buffers of `add_block_endpoint` after a short read.
- Several functions and types the core uses are defined outside the
  modelled files: `add_block`, `pack_block`, `unpack_block`, `receive_buf`,
  `initialise_chain`, `add_fd_to_server`, `delete_fd_from_server`,
  `struct BlockChain` and `TOTAL_PAYLOAD_LEN`. The model gives each the
  smallest definition the modelled code needs. These definitions are the
  model's assumptions, not facts read from the source:
  - `add_block` (`Chain.BlockChain.AddBlock`) appends with `prev_hash` set
    to the tail's hash, or 0 for the first block, stores the payload as
    `add_payload` does and hashes the stored text. It fails, leaving the
    chain as it was, when allocation fails or the chain already holds
    `u32::MAX` blocks.
  - `pack_block`/`unpack_block` use the frame layout that socket_test.py
    reads back. `unpack_block` refuses a length field above `MAX_PAYLOAD`
    before it reads any text (`Codec.DecodeFrame`). It takes both hashes
    from the wire as they are, and keeps the text as `add_payload` keeps a
    C string: up to the first NUL and at most `MAX_PAYLOAD` bytes
    (`Chain.Received`).
  - `receive_buf` delivers all the requested bytes or none.
  - `delete_fd_from_server` removes entry `i` and leaves the order of the
    remaining entries open. Swap-with-last is not assumed.
  - `TOTAL_PAYLOAD_LEN` is the length of the `stale` buffer parameter. It
    must exceed `MAX_PAYLOAD`, so the terminator write at
    src/endpoints.c:120 stays in bounds.
- 177638 is 0x0002B5E6, so the frame of a block with that hash carries the
  hash bytes `00 02 B5 E6` (`Codec.FrameExample`).

Other behaviour the proofs expose:

- A zero-length ADD_BLOCK request gets a receive failure on the node
  (`Endpoints.EmptyAddRejected`). `recv` for 0 bytes returns 0 or -1, which
  the handler treats as a closed peer or an error, so the node drops the
  connection. The client reports success for the same request, or -1 when `send_buf`'s
  uninitialised `n` happens to hold -1 (`Requests.RequestAddBlock`,
  `Socket.SendEmptyBuffer`).
- In `chain_endpoint` the uninitialised `n` never matters
  (`Socket.SendFromIgnoresUninit`), because every buffer sent there is
  non-empty.

## Model

| member | source | states |
|---|---|---|
| `Wire.U16BE` | src/requests.c:67 | `htons` gives two bytes whose base-256 value, most significant byte first (`BigEndianValue`), is the length |
| `Wire.DecodeU16` | src/endpoints.c:99 | `ntohs` of two network bytes is their base-256 value, most significant byte first |
| `Wire.U16RoundTrip` | src/endpoints.c:99 | `ntohs` undoes `htons` for every 16-bit length |
| `Wire.U16Canonical` | src/requests.c:67 | every two-byte field is the `htons` encoding of exactly the value it decodes to |
| `Wire.U32BE` | src/endpoints.c:55 | `htonl` gives four bytes whose base-256 value, most significant byte first, is the count |
| `Wire.DecodeU32` | src/requests.c:35 | `ntohl` of four network bytes, computed as two 16-bit halves, is their base-256 value, most significant byte first |
| `Wire.U32RoundTrip` | src/requests.c:35 | `ntohl` undoes `htonl` for every 32-bit count or hash |
| `Wire.U32Canonical` | src/endpoints.c:55 | every four-byte field is the `htonl` encoding of the value it decodes to |
| `Socket.Send` | src/server.c:98 | `send` returns -1 or a count no larger than the bytes offered, and transmits exactly that many leading bytes |
| `Socket.Recv` | src/endpoints.c:86-97 | `recv` returns -1, 0 or a count of at most the requested bytes; a non-negative count takes exactly that many bytes from the front of the waiting input |
| `Socket.ReceiveBuf` | src/node.c:79 | `receive_buf` returns -1, 0 or the full count, and takes exactly those bytes off the input only on a full read |
| `Socket.SendFrom` | src/server.c:94-105 | the outcome of the `send_buf` loop is -1 or the full length; it only sends, so the input side of the connection is untouched |
| `Socket.SendFromOutcome` | src/server.c:94-105 | the result is -1 or `len`; on `len` exactly the remaining bytes went out, in order; otherwise a prefix of them did |
| `Socket.SendFromIgnoresUninit` | src/server.c:96-104 | for a non-empty buffer the result does not depend on the uninitialised `n` |
| `Socket.SendEmptyBuffer` | src/server.c:96-104 | with `len == 0` nothing is sent and the result is -1 exactly when the uninitialised `n` holds -1 |
| `Socket.SendBuf` | src/server.c:94-105 | the loop returns -1 or `len`; on `len` the peer has received all of `buf` in order; the bytes sent always extend the old ones within `buf` |
| `Blocks.Strlen` | src/block.c:57 | the index of the first NUL: a NUL sits there and none before it |
| `Blocks.StoredPayload` | src/block.c:55-64 | the buffer `add_payload` builds is at most `MAX_PAYLOAD + 1` bytes, NUL-terminated, and its text is the first `min(strlen, MAX_PAYLOAD)` bytes of the input |
| `Blocks.Truncation` | src/block.c:57-58 | a text longer than `MAX_PAYLOAD` keeps exactly its first `MAX_PAYLOAD` bytes; a shorter one is kept whole |
| `Blocks.StoredPayloadOfText` | src/block.c:57-64 | a NUL-free text within bounds is stored unchanged |
| `Blocks.TailUnique` | src/block.c:33 | the NULL-terminated tail occurs only once in the list, so writing its `next` changes no other link |
| `Blocks.AppendLink` | src/block.c:18-39 | on allocation failure: NULL and no link changed; otherwise a fresh link with `next == NULL` that ends the list, which grows by exactly it while every earlier link and block is kept |
| `Blocks.DeleteChain` | src/block.c:42-52 | every link is visited exactly once, head to tail, and the head becomes NULL |
| `Blocks.AddPayload` | src/block.c:55-65 | only the block's payload changes, to the truncated NUL-terminated copy; `prev_hash`, `hash` and `next` are untouched |
| `Blocks.CopyTerminated` | src/block.c:60-64 | the new buffer holds the first `size - 1` input bytes and then NUL |
| `Chain.NewBlock` | src/endpoints.c:121 | the block `add_block` appends is well formed and stores the payload as `add_payload` does |
| `Chain.AppendKeepsLinkage` | src/node.c:31-37 | appending with `add_block` keeps every block well formed and keeps the hash linkage |
| `Chain.GrownSnoc` | src/node.c:35-37 | growing by `k + 1` payloads is growing by `k`, then one `add_block` more |
| `Chain.BuiltAt` | src/node.c:31-40 | block `k` of a chain built append by append is the block made of string `k` on the chain the first `k` strings built: later appends never change it |
| `Chain.GrownSnocOf` | src/node.c:35-37 | growing by one more string is one `add_block` more |
| `Chain.GrownLinked` | src/node.c:31-40 | any sequence of `add_block` calls from an empty chain yields a hash-linked chain of well-formed blocks |
| `Chain.GrownAt` | src/node.c:31-40 | block `k` of that chain is what `add_block` made of string `k`, so it stores that string's payload and the hash of its text |
| `Chain.Received` | src/requests.c:40 | a block read off the wire is stored well formed |
| `Chain.ReceivedWellFormed` | src/requests.c:40 | a block that was well formed when sent is stored exactly |
| `Chain.BlockChain.constructor` | src/node.c:29 | `initialise_chain`: an empty chain |
| `Chain.BlockChain.TailHash` | src/block.c:31-33 | walking `next` from the head to the tail, as `append_link` does, yields the hash of the chain's last block, or 0 for an empty chain |
| `Chain.BlockChain.AddBlock` | src/endpoints.c:121-123 | returns 0 exactly when allocation succeeds and the chain is below `u32::MAX`; then one linked block is appended; otherwise the chain is unchanged |
| `Chain.BlockChain.AppendBlock` | src/requests.c:40 | the append of `unpack_block`: the same success condition, and the received block is appended or nothing changes |
| `Codec.Frame` | socket_test.py:9-24 | `pack_block`'s frame is 10 header bytes plus the text |
| `Codec.DecodeFrame` | socket_test.py:9-24 | a successful read yields a terminated payload, consumes exactly the header and the declared text, and leaves the rest |
| `Codec.OversizedRejected` | src/requests.c:40 | the assumed `unpack_block` refuses a frame whose length field exceeds `MAX_PAYLOAD`, whatever follows it |
| `Codec.FrameRoundTrip` | socket_test.py:9-24 | reading a frame gives back the packed block and leaves what followed |
| `Codec.FrameExample` | socket_test.py:9-24 | the block with text "A" and hash 177638 packs into `00 01 00 00 00 00 00 02 B5 E6 41`, and reading those bytes gives the block back |
| `Codec.RepeatCons` | src/requests.c:38-43 | a run of reads is the first read, then the rest; a failure of either fails the run |
| `Codec.RepeatFailLater` | src/requests.c:40-42 | once a read fails, every longer run of reads fails |
| `Codec.RepeatOneMore` | src/requests.c:38-43 | a successful read after `i` reads extends them by exactly one block |
| `Codec.RepeatTerminated` | src/requests.c:38-43 | every block of a successful run is NUL-terminated |
| `Codec.DecodeFrames` | src/requests.c:38-43 | reading `count` frames yields exactly `count` terminated blocks |
| `Codec.FramesRoundTrip` | src/endpoints.c:61-67 | reading `|bs|` frames recovers exactly the packed blocks, in order |
| `Codec.ChainReplyRoundTrip` | src/endpoints.c:55-67 | the count field of the chain reply decodes to the chain length, and the frames after it decode to the very blocks sent |
| `Endpoints.Route` | src/endpoints.c:15-41 | an id of 2 or more has no handler; 0 routes to `chain_endpoint` and 1 to `add_block_endpoint`, in both directions |
| `Endpoints.SendFrames` | src/endpoints.c:61-67 | the loop of frame sends only sends: the input side of the connection is untouched |
| `Endpoints.SendFramesSent` | src/endpoints.c:61-67 | on success the peer has received every frame, head to tail; otherwise a prefix of them |
| `Endpoints.ChainExchange` | src/endpoints.c:49-73 | the chain exchange ends in OK or SEND_FAIL and never reads from the connection |
| `Endpoints.ChainExchangeSent` | src/endpoints.c:49-73 | the outcome is OK or SEND_FAIL; on OK the peer has exactly the length header and every frame; on failure a prefix of that |
| `Endpoints.SendFramesStep` | src/endpoints.c:61-67 | one round of the loop: a failed frame stops it, a sent one goes on with the rest of the links |
| `Endpoints.SendLinks` | src/endpoints.c:61-67 | walking the links from the head sends the frames of the chain's blocks in order and stops at the first failed `send_buf` |
| `Endpoints.ChainEndpoint` | src/endpoints.c:49-73 | the handler's outcome and what the peer receives are those of the chain exchange for `len` and the blocks, head to tail |
| `Endpoints.ParseAddBlock` | src/endpoints.c:81-120 | the two `recv` calls of `add_block_endpoint`; a parsed payload is NUL-terminated |
| `Endpoints.OversizedAddRejected` | src/endpoints.c:99-105 | a length above `MAX_PAYLOAD` gives INVALID_ARGS after only the two length bytes are read |
| `Endpoints.EmptyAddRejected` | src/endpoints.c:108-118 | a declared length of 0 ends in a receive failure, whatever the second `recv` returns |
| `Endpoints.AddRequestRoundTrip` | src/endpoints.c:86-120 | a well-formed request whose bytes all arrive is parsed back to the very text sent, and only its bytes are consumed |
| `Endpoints.ReceiveIntoBuffer` | src/endpoints.c:108-120 | the stack buffer holds the received bytes, then its old contents, with NUL at index `payload_sz` |
| `Endpoints.AddBlockEndpoint` | src/endpoints.c:81-126 | RECV_FAIL or INVALID_ARGS leaves the chain unchanged; otherwise `add_block` runs once, giving OK with one block appended or UNKNOWN_ERR with nothing changed; linkage is preserved |
| `Endpoints.EndpointDispatch` | src/endpoints.c:31-41 | an id of 2 or more returns INVALID_ENDPOINT and touches neither chain nor peer; 0 and 1 return exactly what their handler returns; the chain only grows and stays linked |
| `Requests.SendEndpointRequest` | src/requests.c:85-94 | returns only 0 or -1; -1 sends nothing; 0 sends the id byte or nothing |
| `Requests.AddBlockRequestBytes` | src/requests.c:56-75 | a complete add-block request is `3 + strlen` bytes and starts with id 1 |
| `Requests.RequestAddBlock` | src/requests.c:54-78 | a payload above `MAX_PAYLOAD` returns -1 once the id byte is out, before any length is sent; otherwise 0 exactly when both `send_buf` calls succeed, and then the length and text went out in order |
| `Requests.IdSendFailureUnnoticed` | src/requests.c:56-75 | with a failed id send, the length and text still go out and the request reports success |
| `Requests.SendEndpointRequestChecked` | src/requests.c:85-94 | the corrected id send: 0 exactly when the id byte was sent, so a send of 0 bytes counts as a failure too; on failure nothing was sent |
| `Requests.RequestAddBlockChecked` | src/requests.c:54-78 | corrected request: a failed id send returns -1 with nothing sent; after a sent id, an oversized payload returns -1 and otherwise the result is 0 exactly when both `send_buf` calls succeed; 0 means the whole request (id, length, text) reached the socket, in order |
| `Requests.ReadCount` | src/requests.c:23-35 | the count read happens after the id send and keeps what it sent |
| `Requests.ReadCountOf` | src/requests.c:28-35 | with four bytes waiting, the count is their `ntohl` decoding and they are consumed |
| `Requests.UnpackBlock` | src/requests.c:40 | 0 exactly when a frame is waiting and the append succeeds; then the block is appended and the frame consumed; otherwise nothing changes |
| `Requests.ReceivedAll` | src/requests.c:38-43 | one stored block per received block, all well formed |
| `Requests.ReceivedAllWellFormed` | src/requests.c:38-43 | blocks that were well formed when sent are stored exactly |
| `Requests.UnpackBlocks` | src/requests.c:38-44 | 0 exactly when `n` frames decode, each of the `n` allocations succeeds and the chain has room for every block; then the chain gained those blocks in order and exactly their bytes were consumed. On -1 the loop stopped after `k < n` successful calls: the chain gained the first `k` blocks, exactly their bytes were consumed, and call `k` failed because its frame did not decode, its allocation failed or the chain was full |
| `Requests.UnpackedSucceeds` | src/requests.c:38-44 | a loop that stopped where `UnpackBlocks` says returns 0 exactly when all `n` frames decode, all `n` allocations succeed and the chain has room |
| `Requests.UnpackStep` | src/requests.c:39-42 | one round of the counted loop: -1 exactly when the waiting frame does not decode, this call's allocation fails or the chain is full, and then nothing changes; otherwise one more block is appended and its frame consumed |
| `Requests.BatchFails` | src/requests.c:40-42 | an `unpack_block` failing after `i < n` successes means the batch of `n` cannot succeed, whatever the later allocations would do |
| `Requests.ContentsStep` | src/requests.c:40 | one more received block extends what the chain gained |
| `Requests.RequestChain` | src/requests.c:20-45 | a failed count read returns -1 with no `unpack_block` call and the chain unchanged; otherwise the counted loop runs as `UnpackBlocks` states: 0 exactly when all the announced blocks decode and are appended, in order; on -1 the chain keeps the blocks appended before the failing call |
| `Requests.ChainDownloadRoundTrip` | src/requests.c:28-43 | a client reading the node's chain reply gets the count `|bs|` and the very blocks `bs` |
| `Requests.AddBlockRequestServed` | src/requests.c:60-75 | the bytes after the id of a client request parse on the node to the text the client sent |
| `Node.GenesisPayload` | src/node.c:31 | the genesis literal is 52 NUL-free bytes plus a terminator |
| `Node.LabelText` | src/node.c:36 | `"Block %d"` for one digit is 7 NUL-free bytes |
| `Node.SeedPayload` | src/node.c:31-37 | round 0 adds the genesis string, round `k` adds `"Block k-1"`; each is a C string |
| `Node.SeedListSnoc` | src/node.c:35-37 | the first `i + 2` seed strings are the first `i + 1` and `"Block i"` |
| `Node.SeedChainLinked` | src/node.c:29-40 | after any number of rounds the chain is hash linked and every block is well formed |
| `Node.SeedBlockAt` | src/node.c:31-37 | block `k` of the seeded chain stores seed string `k` as `add_payload` does, with the hash of its own text |
| `Node.SeedGenesisText` | src/node.c:31 | the genesis block keeps the first `MAX_PAYLOAD` bytes of the genesis text |
| `Node.SeedLabelText` | src/node.c:35-37 | block `i + 1` keeps the text `"Block i"` whole |
| `Node.StoredText` | src/block.c:57-64 | the stored text of a NUL-free string is its first `min(len, MAX_PAYLOAD)` bytes |
| `Node.SeedGenesis` | src/node.c:31 | after the first round the chain is the genesis block alone |
| `Node.SeededChain` | src/node.c:29-40 | after `n` rounds the chain is linked; the genesis text is cut to 20 bytes; then come `"Block 0"`, `"Block 1"`, ... each with the hash of its text |
| `Node.GenesisTextCut` | src/node.c:31 | the 52-byte genesis text is stored as its first `MAX_PAYLOAD` bytes |
| `Node.Seed` | src/node.c:29-40 | exit code 0 exactly when all six appends succeed, and then the chain holds all six seed blocks; code 1 exactly when the genesis append fails; code 2 otherwise; in every case the chain is the seeded chain after the rounds that succeeded (so it is linked, by `Node.SeedChainLinked`) |
| `Node.AddGenesis` | src/node.c:31-33 | the genesis round succeeds exactly when its allocation does, and the chain is then the genesis block alone; otherwise it stays empty |
| `Node.AllocSplit` | src/node.c:31-40 | all six appends succeed exactly when the genesis append and the five label appends do |
| `Node.AddLabels` | src/node.c:35-40 | the loop succeeds exactly when all five allocations do, and then holds all six seed blocks; at any stop the chain is the seeded chain of the rounds that succeeded |
| `Node.AllSucceededStep` | src/node.c:35-40 | the first `n + 1` appends succeeded when the first `n` did and the next one does |
| `Node.SeedStep` | src/node.c:35-37 | one more round appends the block `add_block` makes of `"Block i"` to the chain of the rounds before |
| `Node.AddLabel` | src/node.c:36-39 | one round succeeds exactly when its allocation does, and then holds one more seed block |
| `Node.AsSizeT` | src/node.c:79 | the `size_t` value is below `2^64`; a non-negative value is kept and a negative one gains `2^64`, so -1 becomes `2^64 - 1` |
| `Node.ClosedAsWritten` | src/node.c:81 | for any result within 64 bits, `nbytes <= 0` on the unsigned `nbytes` holds exactly when the result is 0 |
| `Node.ErrorNotCaught` | src/node.c:79-81 | as written, `nbytes <= 0` holds for a 0 result only; an error result -1 is not caught |
| `Node.Closed` | src/node.c:81 | the intended signed check: an error (-1) and a close (0) both count as closed, a positive count does not |
| `Node.OnlyFullReadServed` | src/node.c:81 | with a signed check, only a one-byte read reaches dispatch |
| `Node.NextClient` | src/node.c:68 | `get_client` returns a descriptor from the script, or -1 once it is used up |
| `Node.AfterAccept` | src/node.c:68 | each `get_client` call consumes exactly the first scripted result and leaves the rest in order |
| `Node.RemovedKeeps` | src/node.c:83 | a removal adds no entry and keeps every entry other than the one removed |
| `Node.PeersKnownAfterRemoval` | src/node.c:83 | after a removal every readable client entry still has a socket |
| `Node.ClientRemoved` | src/node.c:83 | dropping a readable client entry keeps every socket known, adds no entry, and keeps the listener and every entry poll did not mark readable |
| `Node.ServerData.AddFd` | src/node.c:71 | the set gains the new descriptor, not yet polled |
| `Node.ServerData.DeleteFd` | src/node.c:83 | entry `i` leaves the set, which shrinks by one; nothing else is lost |
| `Node.ServeEntry` | src/node.c:63-91 | no POLLIN: nothing changes. Listener: the set gains the `get_client` result unless it is -1. Client: as `Node.ServeClient` states |
| `Node.ServeClient` | src/node.c:72-92 | a read yielding 0 deletes the entry and runs no endpoint; otherwise the read id (or the stale one) is dispatched with the effect `endpoint_dispatch` has; OK keeps the entry, any other outcome deletes it; the chain only grows and stays linked |
| `Node.DropClient` | src/node.c:81-84 | a closed client entry leaves the set and nothing else does; every remaining readable client still has a socket |
| `Node.DispatchClient` | src/node.c:86-90 | the dispatched endpoint's effect on the socket and chain; the entry stays exactly when the outcome is DISPATCH_OK, and otherwise only it leaves the set |
| `Node.ScanPass` | src/node.c:60-95 | over a whole pass the chain only grows and stays linked; the set gains only newly accepted clients; the listener and unreadable entries are never removed |

## Left out

- `get_listener`, `get_client` (only as a script of returned descriptors), `poll`, the SIGINT handler and the run flag are not modelled. One pass of the scan starts from the `revents` that `poll` reported.
- All printing is left out: `print_chain`, `printf`, `perror`, `fprintf`.
- The CLI programs (src/chain.c, src/add_block.c, src/chain_endpoint.c, src/client.c) and the demo src/cherub_chain.c are not part of this model.
- Freeing memory is not modelled. `DeleteChain` returns the links in the order they are freed. The unchecked `malloc` in `add_payload` is taken to succeed. The `bbuf` leak on a failed send in `chain_endpoint` is not modelled.
- Socket timeouts are not modelled. A call made after its script has run out fails, as a call does when it cannot make progress within the timeout.
- `Socket.SendBuf`: a `send` that returns 0 forever would loop forever in the source. The finite script of replies rules this out, which is what makes the loop terminate.
- `Socket.ReceiveBuf`: never returns a short positive count. `receive_buf` is defined outside the modelled files; a short count at src/requests.c:28 would decode a partly uninitialised `network_len`, which the model does not capture.
- `Requests.UnpackBlock`: reads the frame straight from the waiting input and uses no scripted `recv` reply, so a receive error or timeout inside `unpack_block` is not modelled; a failed call consumes no bytes.
- `Node.ServerData.AddFd`: the new entry is appended at the end of the set and is not readable in this pass; `add_fd_to_server` is defined outside the modelled files. The `Node.ScanPass` guarantee that the set gains only newly accepted clients relies on this.
- `Requests.UnpackBlocks`: the loop counter is an unbounded integer. The source's `int i` compared with a `uint32_t` count is not modelled past `INT_MAX`.
- `Node.ScanPass`: states only what holds whatever order `delete_fd_from_server` leaves the entries in. Which entries the pass visits after a removal depends on that order, so the contract does not say that every readable entry is served.
- `Node.ServeEntry`, `Node.ScanPass`: one allocation outcome and one set of stale buffer contents apply to the whole pass.
- The hash function (djb2 in the source) is a parameter, so hash values are not computed.

## Findings

| source | as written | input that shows it | evidently intended | confidence | as-written member | corrected member |
|---|---|---|---|---|---|---|
| src/requests.c:56 | `send_endpoint_request(...) == 1` is the failure test, but the function returns only 0 or -1 (src/requests.c:23 has the same test) | the id byte's `send` returns -1, then the length and text sends succeed: the request returns 0 although the node never got the id | test `== -1` (or `!= 0`) so a failed id send aborts the request; the corrected member also counts a send of 0 bytes as a failure | high, not executed | `Requests.IdSendFailureUnnoticed` | `Requests.RequestAddBlockChecked` |
| src/node.c:79 | `size_t nbytes` holds `receive_buf`'s result, so `nbytes <= 0` is false for -1 | `receive_buf` returns -1: the entry is kept and the uninitialised `endpoint_id` is dispatched | a signed result, so that an error drops the connection as a close does | high, not executed | `Node.ErrorNotCaught` | `Node.OnlyFullReadServed` |
