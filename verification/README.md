# minegate in Dafny

A Dafny model of minegate's tunnelling stack: the packet codec with its pooled buffers, the stream
cipher, the `MineConn` connection on top of both, the stream multiplexer, the batch writer, the
priority queue, the flow controller, the relay's shutdown, the handshake rewriter, the session digest
and the latency statistics. `dafny verify dfyconfig.toml` checks all of it.

Objects that the Go code updates in place are classes whose methods are specified by functions on
values; what the design promises is then proved about those functions, over every input and every
run. Goroutines that race are transition systems over their atomic steps.

The main results:

- `ConnProtocol.EndToEnd`: a writing and a reading connection undo each other over every packet list
  and every schedule of cipher and threshold switches. It rests on `PacketFormat.FrameRoundTrip`,
  `Cfb8.DecryptEncrypt` and `VarInt.VarIntRoundTrip`. `ConnRuns.Exchange` states it of two `MineConn`
  objects and their methods, working in buffers of one pool, and `ConnRuns.NewExchange` of two new ones.
- `MuxSafety.MuxIsolation` and `MuxSafety.MuxDiscipline`: whole-run safety of two endpoints with
  dropping queues, late accepts and three racing ways to close a stream.
- `MuxAccounting.MuxAccounts`, `MuxHistory.EveryOpenAccounted` and `MuxHistory.StreamHistory`: every chunk
  and every open of every such run is accounted for, with the exact condition under which one is lost.
- `PoolRuns.RunCalls`: any run of reader and writer calls over recycled buffers is the run over values
  that has no buffers, and every buffer is accounted for.
- `BatchProtocol.BatchConservation`, `Priority.DrainIsStableSort`, `Priority.WakeUpExactly`,
  `Flow.FlowBound`, `Relay.RelayShutdown`: conservation, refinement and bounds over every interleaving.

Where a promise does not hold on all inputs, the model keeps the code as it is and states exactly when
it does:

- a frame is read back iff `WithinLimits`; a negative announced data length panics and loses the body
  buffer, and with it the buffer at the front of the pool's list (`PanicExactly`, `Pool.GetNegative`);
- the lengths at which the two cipher paths leave the same register on all data are exactly the whole
  blocks, and those at which in-place decryption is right, message and register, exactly the ones below a
  block;
- a batch write is conserved iff it fits the buffer's length, which the room test does not look at;
- the wake-up promise of the priority queue holds iff there is at most one blocking consumer;
- a handshake is read back, and a rewrite right, iff the host's length fits 31 bits;
- offering a buffer to the pool is sound unless the pool lists it already, as after a second `Close` of a
  batch writer (`CloseTwice`);
- the digest's digits are the shortest ones iff its magnitude needs them all.

Notes on the code where its comments say otherwise; the model follows the code:

- `CFB8` is described as 8-bit feedback and feeds back whole blocks.
- A flush interval of zero is described as flushing immediately; below half the buffer it never flushes
  by itself.
- `Acquire` is described as waiting or failing; it only waits. The item limit is stored and never used,
  as are the capacities of the priority levels.
- A new connection reports threshold 0 while its reader and writer use -1.
- `PacketID` of a raw packet of a compressed stream is its data length.

Conventions: bytes are numbers below 256, and masks, shifts and ors of disjoint bits are written as
remainders, quotients and sums, reduced modulo 2^32 or 2^64 where the machine word cuts them. A buffer
is an array of the slice's capacity together with the length in use. The compressor is an arbitrary pair
of functions that is lossless where it succeeds, the block cipher an arbitrary function that keeps the
block size, and sources and sinks are byte sequences that end or refuse at an arbitrary point.

## Model

| member | source | states |
|---|---|---|
| `VarInt.VarIntLenExact` | packet/varint.go:66-80 | the comparison ladder gives exactly the length of the unsigned LEB128 form (section 7.6 of DWARF 5) of the value's 32 two's-complement bits |
| `VarInt.VarLongLenExact` | packet/varint.go:83-107 | the same for 64 bits |
| `VarInt.VarIntRoundTrip` | packet/varint.go:110-327 | every 32-bit value decodes back from its encoding, and any bytes after it are left untouched |
| `VarInt.VarLongRoundTrip` | packet/varint.go:142-269 | every 64-bit value decodes back from its encoding, and any bytes after it are left untouched |
| `VarInt.VarIntMeans` | packet/varint.go:310-327 | what any bytes mean: the sum of their groups by place, 128 to the i for group i, as a signed 32-bit number, up to the first byte without continuation bit; too short without one, malformed after five with it |
| `VarInt.VarLongMeans` | packet/varint.go:248-269 | the same for 64 bits and ten bytes |
| `VarInt.VarIntPrefixFree` | packet/varint.go:110-139 | no encoding of a 32-bit value is a prefix of another's |
| `VarInt.VarLongPrefixFree` | packet/varint.go:142-221 | no encoding of a 64-bit value is a prefix of another's |
| `VarInt.VarIntShortest` | packet/varint.go:310-327 | whatever bytes the decoder accepts for a value, the encoder's are no longer |
| `VarInt.VarLongShortest` | packet/varint.go:248-269 | whatever bytes the 64-bit decoder accepts for a value, the encoder's are no longer |
| `VarInt.VarIntCanonicalExactly` | packet/varint.go:310-327 | an accepted byte string is the encoder's own exactly when it has no zero last group and its fifth byte keeps within 32 bits, so the decoder also accepts padded and overlong forms |
| `VarInt.LebLength` | packet/varint.go:66-107 | k bytes suffice exactly for the numbers below 128 to the k |
| `VarIntCodec.PutVarInt` | packet/varint.go:110-139 | the unrolled stores put exactly the encoding at the offset, of the announced length, and touch no other byte of the buffer |
| `VarIntCodec.PutVarLong` | packet/varint.go:142-221 | the same for 64-bit values through all ten cases |
| `VarIntCodec.PutUpTo5` | packet/varint.go:145-169 | the cases of one to five bytes |
| `VarIntCodec.PutUpTo8` | packet/varint.go:170-196 | the cases of six to eight bytes |
| `VarIntCodec.PutUpTo10` | packet/varint.go:197-220 | the cases of nine and ten bytes |
| `VarIntCodec.ReadVarIntFromBytes` | packet/varint.go:310-327 | the shift-and-or loop decodes as the reference decoder does: value, remaining slice, and which error on short or overlong input |
| `VarIntCodec.ReadVarInt` | packet/varint.go:224-245 | the stream loop agrees with the reference decoder, and on an overlong number discards what DiscardVarInt discards |
| `VarIntCodec.ReadVarLong` | packet/varint.go:248-269 | the same for ten-byte numbers |
| `VarIntCodec.DiscardVarInt` | internal/varint.go:5-12 | at most ten bytes go, up to and including the first without continuation bit |
| `VarIntCodec.DiscardExactly` | internal/varint.go:5-12 | how many bytes go: all up to the first without continuation bit, the limit or the end of the stream, whichever comes first |
| `Decoders.DecodersAgree` | packet/packet.go:162-222 | the slice decoder, the stream decoder, the packet reader's and the raw reader's all give the reference decoder's answer on every byte string, value and bytes left or refusal, and each accepts what an encoder wrote as what it was |
| `Cfb8.CfbInverse` | crypto/cfb8.go:58-109 | for every block function and register, decryption fed by its input undoes encryption fed by its output |
| `Cfb8.DecryptEncrypt` | crypto/cfb8.go:40-109 | one message of any length is recovered and both sides' next IVs are equal, across the switch between the two paths |
| `Cfb8.DecryptAllEncryptAll` | crypto/cfb8.go:40-109 | every list of messages is recovered message by message, and the IVs are equal at the end |
| `Cfb8.PathsAgreeOnBlocks` | crypto/cfb8.go:58-109 | whatever the IV's length, on whole blocks both paths leave the same register, the first block of the IV: the last block fed back |
| `Cfb8.PathsAgreeExactly` | crypto/cfb8.go:58-109 | the lengths at which the two paths leave the same register on all data are exactly the block multiples |
| `Cfb8.LongIvsDiffer` | crypto/cfb8.go:69-108 | beyond the register the paths do differ: for every IV longer than a block and every block multiple some data shows it |
| `Cfb8.RegisterSuffices` | crypto/cfb8.go:58-109 | what lies in the IV beyond the register influences neither output nor next register |
| `Cfb8.PathsDifferOtherwise` | crypto/cfb8.go:75-108 | for every other length, and every IV length, there are an IV and data on which the two paths leave different registers |
| `Cfb8.CfbSplit` | crypto/cfb8.go:58-109 | output over a concatenation cut at a block boundary is the output of the parts, chained through the last block |
| `Cfb8.EncryptSplit` | crypto/cfb8.go:40-109 | for every IV length, encrypting in two calls cut at a block boundary gives the ciphertext of one call and, if the second piece is whole blocks too, its register, whichever paths the calls take |
| `Cfb8.BlockRecurrence` | crypto/cfb8.go:62-73 | each output block is the input block xor the encryption of the previous fed block: section 6.3 of NIST SP 800-38A with s = b |
| `Cfb8.ByteRecurrence` | crypto/cfb8.go:58-109 | byte by byte, the partial last block included: each output byte is the input byte xor the byte at its place in the encryption of the previous fed block |
| `Cfb8.XorBit` | crypto/cfb8.go:66-97 | bit i of the xor of two bytes, for each of the eight: set exactly when the two bits differ |
| `Cfb8.NextRegisterExactly` | crypto/cfb8.go:40-109 | the register a message leaves, by its length: the old one below one block, the fed block below two, and from two blocks on, where the bulk path runs, the last full fed block with its first bytes overwritten by the tail |
| `Cfb8.InPlaceExactly` | crypto/cfb8.go:40-109 | the lengths at which in-place decryption gives back message and register on all data are exactly those below one block |
| `Cfb8.InPlaceWithinBlock` | crypto/cfb8.go:93-106 | the message alone is right up to one block |
| `Cfb8.InPlaceBelowBlock` | crypto/cfb8.go:93-108 | below one block the register is right too, since nothing is fed back |
| `Cfb8.InPlaceAtBlock` | crypto/cfb8.go:97-104 | at exactly one block some message leaves the plaintext in the register instead of the ciphertext |
| `Cfb8.InPlaceBeyondBlock` | crypto/cfb8.go:65-69 | for every longer length some message comes out wrong, because the overwritten input is what is fed back |
| `Cfb8Stream.CFB8.constructor` | crypto/cfb8.go:16-37 | the stream starts with its own copy of the IV, and is usable exactly when that is at least one block |
| `Cfb8Stream.CFB8.XORKeyStream` | crypto/cfb8.go:40-56 | the output is the block recurrence over the input, the IV is the next IV of the path that the length selects, bytes of dst beyond the input are kept; src and dst may be one array |
| `Cfb8Stream.CFB8.BulkXOR` | crypto/cfb8.go:58-87 | the block loop and the tail loop produce the recurrence and the bulk path's IV |
| `Cfb8Stream.CFB8.XorTail` | crypto/cfb8.go:78-85 | the tail loop writes over destination and IV exactly the partial block, byte by byte, in place or not |
| `Cfb8Stream.CFB8.ByteByByteXOR` | crypto/cfb8.go:89-109 | the byte loop over the doubled register produces the same recurrence and the slow path's IV |
| `BufferPool.Pool.constructor` | internal/pool.go:14 | the free list starts empty |
| `BufferPool.Pool.GetBuffer` | internal/pool.go:17-29 | a buffer of at least the size that nobody holds: the front of the list, which is taken off in any case, if it is long enough, or a new one of exactly the size; beyond the pooled size or on an empty list a new one, the list untouched |
| `BufferPool.Pool.GetNegative` | internal/pool.go:17-28 | a negative size takes the front of the list before the slice panics, so that buffer is lost |
| `BufferPool.Pool.PutBuffer` | internal/pool.go:31-39 | any buffer leaves the caller's hands and is listed if of a pooled size and a slot is free; listed buffers stay distinct and disjoint from lent ones exactly unless the buffer was listed already, which a lent one never is |
| `PacketFormat.TakeFramed` | packet/packet.go:58-71 | a framed body is split off again up to the packet limit and refused above it |
| `PacketFormat.FrameLayout` | packet/packet.go:234-296 | every frame part by part: length, id and data; behind a zero byte if shorter than the threshold; compressed behind their own length otherwise |
| `PacketFormat.FramingExactly` | packet/packet.go:58-71 | which framing error any stream gives and what it leaves of it, on the announced length and the limit of 2097152 alone |
| `PacketFormat.TruncatedFrame` | packet/packet.go:58-71 | a frame cut short anywhere reads as the end of the stream |
| `PacketFormat.ParseOwnBody` | packet/packet.go:90-133 | what a written body parses to, in every mode: the packet, or the exact error or panic when the payload exceeds the compressed limit |
| `PacketFormat.FrameRoundTrip` | packet/packet.go:58-296 | a written frame is read back as its packet with the rest of the stream untouched if and only if the packet is within the reader's limits; every frame the size limit admits is consumed exactly |
| `PacketFormat.StreamRoundTrip` | packet/packet.go:58-296 | every packet list within the limits is read back in order from the concatenated frames, in plain and compressed mode, the thresholds agreeing only on their sign |
| `PacketFormat.ZeroMeansUncompressed` | packet/packet.go:255-296 | a data length of zero is announced exactly for payloads below the threshold, and any other value is the payload's length before the compressed bytes |
| `PacketFormat.HugePayloadLost` | packet/packet.go:283-291 | a payload whose length does not fit 32 bits is never read back |
| `PacketFormat.PanicExactly` | packet/packet.go:109-114 | a read panics exactly when a whole frame in compressed mode announces a negative data length |
| `PacketFormat.RawAgreesWithPacket` | packet/packet.go:153-188 | a raw read takes from every stream what a packet read takes, fails on framing with the same error, and returns those bytes; its id is the packet's on a plain stream and the announced data length on a compressed one |
| `PacketFormat.TakeFrameAgain` | packet/packet.go:25-36 | a frame's own bytes announce exactly its body |
| `PacketWriting.PacketWriter.WritePacket` | packet/packet.go:234-253 | the destination receives exactly the specified frame of the slice, as far as it accepts, whatever stale bytes the pooled buffers held; all buffers go back and the caller's data is unchanged |
| `PacketWriting.PacketWriter.WriteCompressed` | packet/packet.go:255-296 | the frame of compressed mode, below or from the threshold on, with all buffers back on every exit |
| `PacketWriting.PacketWriter.WriteUncompressed` | packet/packet.go:256-270 | the frame with a zero data length |
| `PacketWriting.PacketWriter.WriteDeflated` | packet/packet.go:272-296 | the frame of a compressed payload, or the compression error with nothing written |
| `PacketWriting.PacketWriter.Deflate` | packet/packet.go:272-281 | the compressor sees exactly the payload, and its buffer goes back whether it succeeds or not |
| `PacketWriting.PacketWriter.SendDeflated` | packet/packet.go:283-296 | body length, payload length and compressed bytes in one frame |
| `PacketWriting.PacketWriter.Send` | packet/packet.go:250-252 | the used part of the buffer is written and the buffer goes back even if the destination fails |
| `PacketReading.PacketReader.ReadPacket` | packet/packet.go:58-88 | packet, error and remaining stream are those of the specification on the bytes alone; the data is a new array outside the pool; every buffer taken is given back on every exit but the panic |
| `PacketReading.PacketReader.ReadBody` | packet/packet.go:67-88 | the body is read into a pooled buffer and parsed in the reader's mode, or the stream is too short; the buffer goes back on every exit but the panic |
| `PacketReading.PacketReader.FinishPayload` | packet/packet.go:77-87 | id and a fresh copy of the rest, or the decoder's error |
| `PacketReading.PacketReader.ReadCompressed` | packet/packet.go:90-133 | the body parses as specified and is given back on every exit but the panic, which leaves it out together with the buffer at the front of the pool's list |
| `PacketReading.PacketReader.ReadDeflated` | packet/packet.go:114-132 | the second buffer holds the decompressed payload cut or zero-padded to the announced length, and goes back |
| `PacketReading.PacketReader.DecompressPayload` | packet/packet.go:135-151 | no stale byte of the buffer remains in the announced length |
| `PacketReading.PacketReader.ReadVarInt` | packet/packet.go:190-210 | the reader's own number loop takes what the reference decoder takes and discards nothing more |
| `PacketReading.PacketReader.ReadUntilVarInt` | packet/packet.go:212-222 | the bytes of one number land in the buffer, or the right error after the right number of bytes |
| `PacketReading.PacketReader.DecodeLength` | packet/packet.go:162-170 | the second decoding loop gives the value of the stored number |
| `PacketReading.PacketReader.ReadRawPacket` | packet/packet.go:153-188 | on success the frame's bytes in one pooled buffer that is lent out inside the raw packet; on every error all buffers are back |
| `PacketReading.PacketReader.ReadRawBody` | packet/packet.go:177-187 | length bytes and body together in a second buffer, the first one back; on a short stream both are back |
| `PacketReading.PacketReader.MoveToLarger` | packet/packet.go:177-180 | the length bytes move to a buffer of the frame's size that nobody holds, and the first buffer goes back |
| `PacketReading.RawPacket.PacketID` | packet/packet.go:25-36 | the number after the length, or the error |
| `PacketReading.RawPacket.Release` | packet/packet.go:38-43 | the buffer goes back once, however often Release is called |
| `PoolRuns.RunCalls` | packet/packet.go:38-296 | any run of reads, raw reads, releases in any order, writes, and writes straight out of a held raw packet's buffer, over one pool, shows exactly the packets with their ids, errors, frames, reports and streams of the run on values that has no buffers; at the end lent buffers are those lent before plus one per unreleased raw packet, and no packet's data aliases the pool |
| `PoolRuns.Caller.Step` | packet/packet.go:38-296 | one such call from any state keeps ownership and contents of everything the caller holds |
| `PoolRuns.Caller.ReadOne` | packet/packet.go:58-133 | a packet read disturbs nothing the caller holds and reports id, data outside the pool, or error, as on values |
| `PoolRuns.Caller.RawOne` | packet/packet.go:153-188 | a raw read adds one raw packet with a buffer of its own |
| `PoolRuns.Caller.ReleaseOne` | packet/packet.go:38-43 | a release gives back that raw packet's buffer and leaves the other frames as they were |
| `PoolRuns.Caller.WriteOne` | packet/packet.go:234-296 | a write changes the destination only |
| `PoolRuns.Caller.ForwardOne` | tunnel/relay.go:72-84 | a held raw packet written out of its own buffer gives the frame of its bytes and leaves all held frames as they were |
| `PoolRuns.Caller.WriteSlice` | packet/packet.go:234-296 | so does a write of part of any array the pool does not list |
| `PoolRuns.Caller.AllGivenBack` | packet/packet.go:38-296 | a run whose raw packets were all released has every buffer back, whatever failed on the way, unless it panicked |
| `Flow.FlowController.constructor` | conn/flow.go:23-30 | nothing is granted at first |
| `Flow.FlowController.Acquire` | conn/flow.go:34-44 | the wait loop looks again after each change by others, releases and additions alike, and ends with the first that leaves the counter below the limit; then the counter grows by the request; if that never comes it waits for ever |
| `Flow.AfterWaitExactly` | conn/flow.go:34-44 | the wait ends at the first look at which the counter, by the sum of the changes so far, is below the limit, and never if there is none |
| `Flow.FlowController.AcquireNonBlock` | conn/flow.go:47-53 | granted exactly when the request fits, and counted exactly then |
| `Flow.FlowController.Release` | conn/flow.go:56-59 | the counter falls by the amount |
| `Flow.FlowBound` | conn/flow.go:34-59 | over every interleaving of the separate check and add steps of k callers, each holding any number of grants, the counter is the sum of the outstanding grants, and with all additions under way it stays below the limit plus k requests |
| `Flow.AcquireOnlyBound` | conn/flow.go:34-44 | callers of Acquire alone are serialised by its mutex: in every run the overshoot is below one request, whatever their number and their grants |
| `Flow.NonBlockBound` | conn/flow.go:47-53 | callers of AcquireNonBlock alone: in every run the overshoot is at most k - 1 requests |
| `Flow.StepKeepsInvariant` | conn/flow.go:34-59 | every check, addition and release keeps the bound on the counter and what is about to be added |
| `Flow.BoundsAreReached` | conn/flow.go:34-53 | for every limit, number of callers and request size up to the limit, runs that take the counter to the very last value of the mixed and of the non-blocking bound |
| `ConnProtocol.OpenSeal` | conn/conn.go:83-121 | opening undoes sealing and leaves both ends with the same cipher state |
| `ConnProtocol.OnePacket` | conn/conn.go:72-129 | one packet written by an end is what the matched end receives, the stream after it untouched, and the ends stay matched |
| `ConnProtocol.OnTheWire` | conn/conn.go:112-129 | a reader without a cipher finds on the wire the packet's id and the CFB encryption of its data under the writer's register, and the writer's next register is the one CFB leaves |
| `ConnProtocol.EndToEnd` | conn/conn.go:54-129 | for every sequence of packets and cipher and threshold switches made at the same positions, the reading connection returns exactly the packets written, leaves the rest of the stream, and both cipher states are equal at the end; thresholds need agree only on their sign |
| `ConnRuns.Exchange` | conn/conn.go:54-129 | two matched connection objects over one shared pool, driven through any conversation of packets and switches by their own methods: the reader returns exactly the packets written, nothing is left in the stream, the objects are matched again and every buffer is back |
| `ConnRuns.NewExchange` | conn/conn.go:37-129 | two new connections over a new pool, with nothing assumed of them: any conversation that starts plain and unciphered comes back packet for packet |
| `ConnRuns.WriteEvents` | conn/conn.go:54-129 | the writing object puts on the wire what the protocol says, event by event |
| `ConnRuns.ReadEvents` | conn/conn.go:54-90 | the reading object returns what the protocol says, event by event |
| `ConnRuns.NewStream` | crypto/keyexchange.go:63-72 | a fresh cipher object with the given block function and IV |
| `MineConn.MineConn.constructor` | conn/conn.go:37-51 | a connection starts plain and unciphered with a flow controller of its own, holding two buffers of its own taken from the pool or new |
| `MineConn.MineConn.SetThreshold` | conn/conn.go:54-58 | both directions switch to the threshold, the ciphers stay |
| `MineConn.MineConn.SetCipher` | conn/conn.go:66-69 | both directions switch ciphers, the thresholds stay |
| `MineConn.MineConn.Encrypted` | conn/conn.go:117-121 | with a cipher, the CFB encryption of the data under the stream's register in a new array, and the register moves on; without one, the data itself |
| `MineConn.MineConn.Decrypted` | conn/conn.go:83-87 | with a cipher, the CFB decryption of the data under the stream's register in a new array, and the register moves on; without one, the data itself |
| `MineConn.MineConn.WritePacket` | conn/conn.go:112-129 | on an open connection the frame of the id and of the data goes out, the data encrypted under the write register if there is a cipher and as it stands if not, and the register moves on; on a closed one nothing happens; flow control is back at zero and the pool's lent buffers are as before |
| `MineConn.MineConn.WriteSealed` | conn/conn.go:123-128 | flow control around the writer balances, and the frame of the payload goes out |
| `MineConn.MineConn.ReadPacket` | conn/conn.go:72-90 | the packet read is the frame's, its data decrypted under the read register if there is a cipher, which moves on, and as it stands if not; remaining stream and errors are the reader's; a failed read closes the connection; the data is outside the pool |
| `MineConn.MineConn.Close` | conn/conn.go:158-171 | the two buffers go back and the connection is closed once, however often Close is called |
| `MuxFrame.FrameRoundTrip` | tunnel/mux.go:182-224 | a frame reads back from its bytes, the rest untouched, if and only if it is well formed: data only in data frames and a length of 32 bits |
| `MuxFrame.FramesRoundTrip` | tunnel/mux.go:182-224 | any list of well-formed frames reads back from the concatenated bytes |
| `MuxFrame.FrameLayout` | tunnel/mux.go:208-224 | every frame byte by byte: kind, stream id most significant byte first, and for data the length likewise and the bytes |
| `MuxFrame.DecodeLayout` | tunnel/mux.go:182-206 | what any bytes read as, by the value of each: a frame and the rest, or the end exactly when header, length or data is cut short |
| `MuxFrame.WriteFrame` | tunnel/mux.go:208-224 | exactly the frame's bytes reach the connection, as far as it accepts |
| `MuxFrame.ReadFrame` | tunnel/mux.go:182-206 | one frame is taken from the connection as specified, or none at its end |
| `MuxSafety.MuxIsolation` | tunnel/mux.go:62-270 | in every run in which one side opens, in both directions, with any number of accepting goroutines, the chunks delivered on a stream are an in-order subsequence of those the peer wrote on that id, and each Read returned a prefix of one of them; what is missing is accounted for by MuxAccounts |
| `MuxAccounting.MuxAccounts` | tunnel/mux.go:62-270 | in every run and both directions the chunks ever written to a stream are those that reached the peer's stream merged with those the peer refused, followed in order by those under way, with the one that went down with a stopped write loop in its place |
| `MuxAccounting.NothingLost` | tunnel/mux.go:62-270 | in a run that refuses and drops nothing, what was written is exactly what reached the stream followed by what is under way |
| `MuxAccounting.EachAccountedOnce` | tunnel/mux.go:62-270 | each chunk written is on the peer's stream, refused, dropped or under way, and only once |
| `MuxAccounting.DeliveryExactly` | tunnel/mux.go:138-146 | a received chunk reaches the stream with its id if and only if the id is registered at the receive and, at the send, the channel is open and holds fewer than 64 chunks; a closed one stops the read loop |
| `MuxAccounting.SenderExactly` | tunnel/mux.go:165-253 | a step of the sender adds what its user starts to write and otherwise only moves chunks along |
| `MuxHistory.StreamHistory` | tunnel/mux.go:104-270 | a stream in every run, by the log of steps: Read number i returned chunk number i cut to its room; the id is registered exactly until its own or the peer's Close takes it out; the channel, when no closer is at work, was closed exactly once if anybody asked and never otherwise |
| `MuxHistory.MuxCloseClosesAll` | tunnel/mux.go:104-118 | when Mux.Close has ended, every stream registered from its beginning to its end is flagged, and its channel closed exactly once unless its user or the read loop is still at it |
| `MuxHistory.EveryOpenAccounted` | tunnel/mux.go:62-101 | every Open queued is under way, was stored by an accept, or was lost with the stopped write loop or to 256 waiting ones; the accepter's streams are exactly the stored ones |
| `MuxHistory.StreamsAreNumbered` | tunnel/mux.go:67-80 | the opener's streams are numbered from 1 without a gap |
| `MuxHistory.WireIsFifo` | tunnel/mux.go:165-224 | what one end transmitted is what the other received, in order, followed by what is on the connection |
| `MuxSafety.DeliveredWasWritten` | tunnel/mux.go:62-270 | in every run a chunk delivered on a stream of either side is one the peer wrote on that very id, and there are never more than were written |
| `MuxSafety.MuxDiscipline` | tunnel/mux.go:104-270 | in every run the opener's frames of a stream are on the wire a prefix of Open, Data*, Close, every read channel is closed at most once however the three ways to close interleave, and no channel exceeds its capacity |
| `MuxSafety.NeverReplaced` | tunnel/mux.go:62-101 | in every such run no store of an open or accept ever replaces a stream |
| `MuxSafety.BothSidesOpening` | tunnel/mux.go:67-97 | when both sides open, an accept replaces the stream the other side's caller is using |
| `MuxSafety.StepKeepsInvariant` | tunnel/mux.go:62-270 | every atomic step of either endpoint keeps the closing, reading, capacity, wire and pipeline invariants together |
| `MuxSafety.RunKeepsInvariant` | tunnel/mux.go:62-270 | so does every run |
| `MuxSafety.StepKeepsCloses` | tunnel/mux.go:104-270 | per stream: a channel is closed only by whoever won its flag, and only once |
| `MuxSafety.StepKeepsLogs` | tunnel/mux.go:62-263 | per stream: the user's queued frames stay Open, Data*, Close |
| `MuxSafety.ReceiverStep` | tunnel/mux.go:120-241 | exactly what a step of the read loop loses: a chunk whose id is not registered at the receive, or whose turn comes with the channel closed or holding 64, is taken out right behind those that reached the stream, and all others stay, in order |
| `MuxSafety.SenderKeepsPipe` | tunnel/mux.go:165-253 | queueing and transmitting keep the whole pipeline a subsequence of what was written |
| `MuxWire.WireCarriesMessages` | tunnel/mux.go:182-224 | the bytes of any message list decode to its frames, and those determine the messages |
| `MuxWire.MessageBytes` | tunnel/mux.go:18-25 | the kinds on the wire: 0 data, 1 open, 2 close, 3 ping, 4 pong, with stream id, length and bytes in their places |
| `BatchProtocol.WriteConservesExactly` | conn/batch.go:49-79 | a write that reports success adds exactly its data to what is delivered or buffered if and only if the data fits the slice, not only its capacity |
| `BatchProtocol.LossyWrite` | conn/batch.go:57-78 | on every buffer whose array is longer than asked for, a first write longer than the buffer and not longer than the array reports success and keeps only the buffer's size |
| `BatchProtocol.WriteHeld` | conn/batch.go:49-79 | on sizes alone: while buffered bytes and data are less than half the buffer nothing leaves, the data joins the buffer and the timer starts anew |
| `BatchProtocol.WriteSent` | conn/batch.go:49-79 | from half the buffer on everything leaves, the buffered bytes first, nothing stays and the timer stops |
| `BatchProtocol.WriteFails` | conn/batch.go:49-98 | a write the destination fails: it took what it had room for of buffered bytes and data, the rest is gone and the buffer is empty |
| `BatchProtocol.FlushExactly` | conn/batch.go:88-98 | a flush delivers the whole buffer in one piece and stops the timer; an empty one does nothing |
| `BatchProtocol.FlushingEvents` | conn/batch.go:82-121 | Flush, Close and a tick on an open writer all empty the buffer into the destination; a tick on a closed one does nothing |
| `BatchProtocol.NotLossy` | conn/batch.go:57-67 | no write is lossy when length and capacity are equal or the write is at most half the buffer |
| `BatchProtocol.BatchConservation` | conn/batch.go:30-121 | over every interleaving of writes, flushes, timer moves and closes without destination errors or lossy writes, delivered bytes followed by buffered bytes are the concatenation of the accepted writes |
| `BatchProtocol.ReliableConservation` | conn/batch.go:30-121 | the same from what a caller can see to: a destination that does not fail, and a buffer as long as its array or writes of at most half the buffer |
| `BatchProtocol.NothingAfterClose` | conn/batch.go:49-121 | in every run from a new writer, whatever failed before: a closed writer holds nothing, and from then on delivers nothing and stays closed |
| `BatchProtocol.CloseEmpties` | conn/batch.go:111-121 | Close leaves nothing buffered |
| `BatchProtocol.BufferedIsTimed` | conn/batch.go:66-121 | with a positive interval, in every run of a new writer a non-empty open buffer has a running timer, a waiting tick, or one in the flush loop's hands |
| `BatchWriter.Writer.constructor` | conn/batch.go:30-46 | an empty writer with a stopped timer on a buffer of its own, taken from the pool or new |
| `BatchWriter.Writer.Write` | conn/batch.go:49-79 | below half the buffer the data is only buffered, destination untouched, and the timer restarts; from half on buffered bytes and data are delivered and nothing stays; in every case as in the protocol, errors and lossy writes included |
| `BatchWriter.Writer.CopyIn` | conn/batch.go:67-68 | as much of the data as the slice has room for lands behind what is buffered, and nothing else changes |
| `BatchWriter.Writer.AppendData` | conn/batch.go:67-78 | the same once there is room: below half the buffer held back with the timer restarted, from half on delivered behind what was buffered |
| `BatchWriter.Writer.FlushLocked` | conn/batch.go:88-98 | the buffer is emptied even if the destination fails |
| `BatchWriter.Writer.Flush` | conn/batch.go:82-86 | one flush step of the protocol |
| `BatchWriter.Writer.FlushTick` | conn/batch.go:101-107 | one tick step: it flushes only an open, non-empty writer |
| `BatchWriter.Writer.Close` | conn/batch.go:111-121 | one close step, and the buffer is offered to the pool, each time; what the pool then lists, and that it stays sound exactly unless the buffer was listed already and there is a slot |
| `BatchWriter.CloseTwice` | conn/batch.go:111-121 | closing twice delivers what closing once does, and leaves the pool listing the buffer twice exactly when it is of a pooled size and two slots are free |
| `BatchWriter.DoubleClose` | conn/batch.go:30-121 | it happens to every new writer of a pooled size over a new pool |
| `BatchedPackets.BatchedRoundTrip` | conn/batch.go:49-127 | frames written through the batch writer, however cut and whenever flushed, read back to the packets once the buffer is empty |
| `Priority.PriorityQueue.constructor` | conn/priority.go:38-49 | an empty open queue without token, usable exactly when it has a level |
| `Priority.PriorityQueue.Push` | conn/priority.go:52-73 | on an open queue the item goes to the end of the level min(priority, levels - 1), becomes the youngest, and a token is left; on a closed one nothing changes |
| `Priority.PriorityQueue.Pop` | conn/priority.go:76-101 | the item that leaves has a priority, cut to the last level, not above that of any waiting and strictly below that of any older one, and nothing else leaves; the error of an empty queue says whether it is closed |
| `Priority.PriorityQueue.TakeFront` | conn/priority.go:92-98 | the front of the first non-empty level is the oldest item of the lowest level waiting |
| `Priority.NextIsLowest` | conn/priority.go:92-98 | that item is the next one if and only if, on the priorities themselves, none waits with a lower and none older has an equal one |
| `Priority.PriorityQueue.Len` | conn/priority.go:126-135 | the number of items pushed and not popped |
| `Priority.NextIsUnique` | conn/priority.go:92-98 | there is one such item |
| `Priority.RunKeepsLevels` | conn/priority.go:52-101 | over every run of pushes and pops, the items popped of a level followed by those left are those pushed, in order: nothing lost, duplicated or overtaken within its level |
| `Priority.DrainIsStableSort` | conn/priority.go:76-101 | draining the queue is a stable sort by min(priority, levels - 1): the drained items are the queue read in an order strictly increasing in that and, among equals, in arrival |
| `Priority.PopAll` | conn/priority.go:76-101 | popping the object until nothing is left gives that drain, in that order of priority and arrival |
| `Priority.RunCalls` | conn/priority.go:38-101 | any run of calls on a new queue object pops and leaves what the run on lists does |
| `Priority.OneConsumerWakes` | conn/priority.go:104-123 | with one blocking consumer, in every run no consumer is blocked while an item waits, and one between unlock and receive finds a token |
| `Priority.WakeUpExactly` | conn/priority.go:67-122 | that holds in every run if and only if there is at most one blocking consumer |
| `Priority.LostWakeUp` | conn/priority.go:67-122 | for every larger number of consumers, a run that blocks one beside an item: two of them stand between unlock and receive when two items arrive and the second push finds the first one's token |
| `Handshake.PortOf` | proxy/handshake.go:45-46 | the port assembled from two bytes is written back as those bytes |
| `Handshake.BuildHandshake` | proxy/handshake.go:59-76 | the appended pieces are the specified packet, the scratch buffer's reuse notwithstanding |
| `Handshake.ModifyHandshakeHost` | proxy/handshake.go:79-113 | the rewritten packet or the parser's error, as specified |
| `Handshake.ParseBuild` | proxy/handshake.go:16-76 | a built handshake parses to its host, port and state if and only if the host's length fits 31 bits |
| `Handshake.BuildLayout` | proxy/handshake.go:59-76 | the bytes of a built handshake, with the port's high byte first |
| `Handshake.ParseLayout` | proxy/handshake.go:16-56 | what such bytes parse to, for any version and anything behind the state: the port is 256 times its first byte plus the second |
| `Handshake.ModifyBuild` | proxy/handshake.go:59-113 | rewriting a built handshake gives byte for byte the one built with the new host, if and only if the old host's length fits 31 bits |
| `Handshake.ModifyKeepsTheRest` | proxy/handshake.go:79-113 | every parseable packet, canonical or not: the rewrite succeeds, and it parses to the new host with id, version bytes, port, state and trailing bytes kept if and only if the new host's length fits 31 bits |
| `Handshake.LastRewriteWins` | proxy/handshake.go:79-113 | of two rewrites only the second one shows, if and only if the first host's length fits 31 bits |
| `Relay.RelayShutdown` | tunnel/relay.go:44-97 | for every interleaving and point of failure no endpoint is closed twice, and Wait returns exactly in states where both are closed once, the flag is set, every raw packet is released and each direction counted at most one error |
| `Relay.RunAfterClose` | tunnel/relay.go:59-97 | once the flag is set at most fourteen more steps happen and each direction forwards at most one more packet |
| `Relay.StuckExactlyWhenDone` | tunnel/relay.go:44-97 | a reachable state has no step left if and only if the shutdown is complete |
| `Relay.RelayTallies` | tunnel/relay.go:55-97 | every run against what reads and writes answered: each packet read is forwarded unless its write failed, a loop is left exactly when something failed in it or it found the flag set, the errors counted are the failures, EOF apart, whose handler found the flag unset, and as long as nothing failed nothing is closed |
| `Relay.StepKeepsInvariant` | tunnel/relay.go:55-97 | every step keeps: each close is done once or owed by exactly one goroutine, and a raw packet is held only between its read and its release |
| `ServerHash.ComputeServerHash` | crypto/keyexchange.go:82-115 | zero check, inversion, carry and printing loops together give sign and fixed-width digits of the two's-complement value, and the empty text for zero |
| `ServerHash.Increment` | crypto/keyexchange.go:98-103 | the carry loop adds one to the number |
| `ServerHash.Invert` | crypto/keyexchange.go:95-97 | every byte is complemented |
| `ServerHash.InvertedValue` | crypto/keyexchange.go:95-97 | complementing every byte turns v into 256^n - 1 - v |
| `ServerHash.Hex` | crypto/keyexchange.go:106-109 | two digits per byte are the hexadecimal digits of the big-endian number |
| `ServerHash.AllZero` | crypto/keyexchange.go:84-91 | the early exit is taken exactly for the number zero |
| `ServerHash.TextReadsAsValue` | crypto/keyexchange.go:82-115 | read as a signed hexadecimal number the text is the digest's big-endian two's-complement value |
| `ServerHash.TextInjective` | crypto/keyexchange.go:82-115 | different digests have different texts |
| `ServerHash.TextMinimalExactly` | crypto/keyexchange.go:106-115 | the digits are the shortest ones, as a number printer gives, if and only if the magnitude needs them all; smaller digests keep leading zeros |
| `Metrics.Metrics.constructor` | conn/metrics.go:10-31 | no samples yet |
| `Metrics.Metrics.RecordLatency` | conn/metrics.go:46-84 | last sample, average and bucket move as in the specification, with truncating division and 64-bit wrap-around |
| `Metrics.QuotientMoves` | conn/metrics.go:56-60 | the division rounds toward zero: what it cuts off has the dividend's sign and is less than the divisor |
| `Metrics.AverageOfRun` | conn/metrics.go:50-61 | samples whose spread fits 64 bits: the average lies within any bounds of the samples and n times it is at most n(n-1)/2 off the sum |
| `Metrics.RunningAverage` | conn/metrics.go:50-61 | for every list of non-negative samples the average lies between the smallest and the largest, and n times it is at most n(n-1)/2 off the true sum |
| `Metrics.Histogram` | conn/metrics.go:63-82 | for every list of samples each bucket holds the number of samples in its range, and all buckets together hold n |

## Left out

- Sockets, TLS, WebSocket, KCP, QUIC and SOCKS5 (`transport/`), dialling, listening and the proxy plumbing: thin wrappers over libraries and the network.
- zlib, AES, RSA, SHA-1, HMAC and random numbers: foreign primitives, present as arbitrary functions.
- `packet/types.go`: big-endian numbers, strings, positions, bit sets and raw NBT, each written and read on its own without state.
- `proxy/auth.go`: concatenation of host names, addresses and signatures for three forwarding formats.
- `tools/mcproto`: a generator that downloads server archives and guesses packet ids from class files.
- `DroppableQueue`, `BoundedQueue`, the plain counters of the metrics and their reset.
- Re-framing in `Relay.relay`: its packet id is an approximation, so no claim about contents is made; only its steps and exits are modelled. A raw packet always has a first byte here, as every frame does.
- `WritePacketPriority`: it fills a queue that nothing drains.
- `PopBlock` on a closed queue: it locks its own mutex twice, so no claim about progress is made.
- `MineConn.ReadRawPacket` with a cipher: it decrypts the whole frame in place; `Cfb8.InPlaceExactly` says that this is right below one block only.
- The multiplexer and the relay are modelled on values as transition systems, not as objects: their behaviour is in the interleaving of goroutines. Checks of a closed flag that may be stale when acted on are left out of the multiplexer, and Mux.Close may visit any stream object, registered or not; both only add runs.
- Stream ids past 2^32 and two opening sides: `MuxSafety.BothSidesOpening` shows why the second is excluded.
- Flow.FlowController.Acquire: that a waiter is woken by each release is not claimed, because Release signals without the lock; what it does when woken is.
- Cfb8Stream.CFB8.XORKeyStream: the IV is at least one block, dst and src are the same array or two arrays; slices that overlap partly are not modelled, and a dst shorter than src, where the code panics, is excluded.
- Priority.PriorityQueue.Push: the queue has a level and priorities are non-negative, since anything else indexes out of range.
- MineConn.MineConn.SetCipher: the two streams are separate objects, one per direction, as CreateCipher makes them.
- MineConn.MineConn.WritePacket: the data is not a buffer its caller has already given back to the pool, nor a cipher's own array; the same holds for PacketWriting.PacketWriter.WritePacket.
- ServerHash.ComputeServerHash: starts from the finished digest, of any positive length.
- ConnRuns.Exchange: the destination accepts all of the conversation; what a failing one receives is in the contract of WritePacket.
- Metrics.Metrics.RecordLatency: samples are recorded one at a time, fewer than 2^63 of them.
- PoolRuns.RunCalls: calls follow one another; concurrent readers and writers meet only at the pool, whose operations are atomic.
