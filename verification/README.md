# The AVS4000 sample-streaming pipeline

A model, with proofs, of the streaming pipeline in `lib/`: a ring of byte blocks shared by two
threads, the socket pumps that drain and fill it, the VITA-49 packets built and read in place in
its blocks, and the two signal clients and the receive block on top.

The central promise of that code is that samples come out at one end as they went in at the other,
although the application cuts the stream at arbitrary places, the socket cuts it at others, packets
and blocks at others again, and half-built and half-read packets are kept as raw pointers into
blocks between calls. `Pipeline.Session` states it for every run: whatever calls of `Send` and
`ReceiveSamples` are made, in whatever order, with both pumps running and the connection cutting the
stream as it likes, the outputs of the calls, joined, are the first of the bytes the calls reported
as sent, with exactly the tags of the packets that begin among them; and so on from every Flush at a
packet boundary. A trace of the run explains every step, and why it did no more. `Pipeline.NothingLost` says where every other accepted byte is, and
`Pipeline.Drain` that all but a tail gets through, for all answers of the operating system that let
each turn of a pump move something.

## How the model is built

* **Rings, RingMoves**: the fields of a FIFO and its blocks as one value. Each lock section of
  `lib/BlockFifo.cpp` is a function on it. A ring stands for a byte queue; each section is proved to
  append to its back, take from its front, or leave it alone, and to change nothing the other side
  uses (`WriterMoved`, `ReaderMoved`). Sections of the two sides commute, and any two interleavings of
  the same sections end alike. A wait that checks under one lock and acts under a second is therefore as good as atomic.
* **TwoThreads**: one writing and one reading thread in any interleaving, each lock section a step
  and each byte stored or loaded through a block pointer, with no lock held, a step of its own. What
  every step does is stated, so that the machine is not only safe but moves (`TransferDoes`).
* **Fifos**: the FIFO as an object over real arrays. Every method states its new ring value.
  `Write`, `Read` and `Test` are the source's loops.
* **V49, V49Packets, Framing, Resync**: the packet as bits and bytes, the packet object that works
  in place, what a framed stream is, and what becomes of it when bytes are dropped.
* **Accounts, SocketTx, SocketRx**: buffers and pumps. What the operating system answers is a script given to
  the pump: so many bytes, would block, error, end of file. `wire` and `socket` are the connection.
* **TxStream, TcpTx, RxStream, TcpRx**: the two clients. The invariants and what each step does to
  them are lemmas on values; the methods are the source's loops on the objects. Between any two
  lock sections of a call the pump runs an arbitrary script, so every contract of a client holds
  under interference.
* **RxBlocks, Pipeline**: the receive block's `work`, and the two ends joined.

The integer widths that matter are written out: 32-bit words and self-test seeds, 64-bit byte
counters, the 16-bit and 8-bit packet counters cut to 12 and 4 bits, and the header's bit fields.

## What turned out not to hold as it might be expected

Each of these has its exact condition and an input on which it fails.

* `SendComplete` and `ReceiveComplete` raise `transferred` even when no block is checked out and
  nothing is completed. The account stays right if and only if a block was checked out or the
  amount is nothing modulo 2^64 (`SocketTxBuffer.SendComplete`, `SocketRxBuffer.ReceiveComplete`;
  it fails in `SocketTx.CompletesWithoutBlock` and `SocketRx.CompletesWithoutBlock`).
* On the receiving side `transferred` counts every byte twice, when received and when released. It is
  the number of bytes received if and only if none has been released, modulo 2^64
  (`SocketRxBuffer.CountsReceivedIff`; it fails in `SocketRx.CountsByteTwice`).
* `Flush` of the receiving client empties the buffer and keeps `partial`. What it gives out next is
  the sender's payload from a packet boundary on if and only if no packet was half read and the
  bytes received so far are a multiple of 0x2000 (`Resync.InStepIff`; it fails in
  `DropsFragmentOf5000` and `DropsHalfRead`, and on the runs `TcpRx.FlushDropsFragment` and
  `TcpRx.FlushOutOfStep`).
* `Flush` of the sending client cannot take back what has gone out. The connection stays framed if
  and only if that is a whole number of packets (`TcpTxSignalClient.Flush`; it fails in
  `Resync.FlushAfter100`, and on the run `TcpTx.FlushLeavesFragment`).
* A packet found invalid is only logged: its payload is delivered and its tag marked valid. All that
  a call returns is from valid packets if and only if every packet it reads is
  (`RxStream.AllGoodIff`; it fails in `BadPacketDelivered`). From this sender every packet is
  (`Pipeline.ReceivesGoodPackets`).
* A block that is committed with nothing in it makes the sending pump read its own `send` of no
  bytes as end of file (`SocketTx.EmptyBlockEndsThread`). `SocketTx.FirstAnswerDecides` says exactly
  when a turn ends the thread, and `TcpTxSignalClient.PumpTurn` shows that the framing client never
  commits such a block.
* A call of `work` that comes up short drops the samples it got, and all later tags are off. The
  stream stays in step if and only if the call was full or got nothing. It is full if and only if no
  more is asked for than is in full blocks when it returns, so a caller who asks for no more than is
  in full blocks before the call is safe, whatever the pump does (`RxBlock.Work`,
  `EnoughInReach`; it fails in `RxBlocks.ShortCallLeavesStep`).
* With scaled times, which is the default, the tags of the first packets are missing for as long as
  the device, asked for its rate at each of them, answers zero, and all are if its first other answer
  is negative (`RxBlock.Work`). None is missing if and only if the first answer is positive
  (`RxBlocks.AllRatedIff`; it fails in `RxBlocks.NoRateNoTag`).
* The branch of `Send` that forces the next block is never taken when packets divide the block size
  (`RoomForNext`). It is in `TcpTx.ForcesNextBlock`, where they do not, and then keeps the invariant
  (`TxStream.ForceKeeps`).

## Model

| member | source | states |
|---|---|---|
| Rings.CountIsDistance | lib/BlockFifo.h:29-49 | In a valid ring `count` is the distance from `tail` to `head` modulo the number of blocks; Empty holds iff `count` is 0, Full iff it is one less than the number of blocks |
| Rings.CommittedIsSlot | lib/BlockFifo.cpp:162-207 | The blocks between `tail` and `head`, with wrap-around, are exactly the `count` blocks from `tail` on |
| Rings.UnreadSnoc | lib/BlockFifo.cpp:161-172 | A block committed at `head` adds its bytes at the back of the readable bytes and nowhere else |
| Rings.UnreadFrame | lib/BlockFifo.cpp:178-211 | The readable bytes depend on the committed blocks alone |
| RingMoves.TakeOutKeeps | lib/BlockFifo.cpp:137-143 | Checking out a block for writing keeps the ring invariant, changes no queued byte and nothing the reader uses |
| RingMoves.PokeKeeps | lib/BlockFifo.cpp:219-224 | Storing bytes, with no lock held, behind the written part of the block checked out changes no queued byte |
| RingMoves.CommitKeeps | lib/BlockFifo.cpp:148-176 | Completing `amt` bytes keeps the ring invariant and appends exactly the bytes stored behind the written part, whether the block is committed or stays checked out |
| RingMoves.TakeInKeeps | lib/BlockFifo.cpp:185-190 | Checking out a block for reading keeps the invariant and the queue |
| RingMoves.FinishKeeps | lib/BlockFifo.cpp:195-211 | Releasing `amt` bytes keeps the invariant and takes exactly the next `amt` bytes off the front, whether the block is given back or not |
| RingMoves.WriteMoves | lib/BlockFifo.cpp:131-176 | Whatever the writing side does, committed blocks stay as they are and the queue only grows at its back |
| RingMoves.ReadMoves | lib/BlockFifo.cpp:178-211 | Whatever the reading side does, nothing the writing side uses changes, space only grows, and the queue only loses bytes at its front |
| RingMoves.StepsCommute | lib/BlockFifo.cpp:131-211 | A step of one side never disables a step of the other, and both orders leave the same ring |
| RingMoves.WriteActsAtItsCheck | lib/BlockFifo.cpp:137-141 | Any run of the reading side between the check and the act of a writing step could as well come after the act |
| RingMoves.RunsCommute | lib/BlockFifo.cpp:131-211 | A run of the writing side and a run of the reading side, both possible from the same ring, commute |
| RingMoves.InterleavingsAgree | lib/BlockFifo.cpp:131-211 | What an interleaving leaves behind depends only on what each side did: any two possible interleavings of the same steps of each side end in the same ring, also where one side waits for the other |
| RingMoves.SpaceOfFull | lib/BlockFifo.cpp:213-229 | The free space, block counts and pending bytes taken together, is never negative and is zero iff the ring is full |
| RingMoves.CommitSpace | lib/BlockFifo.cpp:159-172 | Completing `amt` bytes uses up exactly `amt` bytes of space, on either branch |
| RingMoves.WroteByWriteStart | lib/BlockFifo.cpp:131-146 | WriteStart gives a pointer iff there is space, and writes nothing |
| RingMoves.TookByReadStart | lib/BlockFifo.cpp:178-193 | ReadStart gives a pointer iff a block is committed, and reads nothing |
| RingMoves.NothingReadable | lib/BlockFifo.cpp:178-193 | Unless an empty block was committed, nothing is readable iff no block is committed |
| TwoThreads.StepKeeps | lib/BlockFifo.cpp:131-211 | No step of either thread fails an assert or leaves a block, and each keeps the invariant: the ring's, what both threads know behind their pointers, and produced = consumed plus queue |
| TwoThreads.RunKeeps | lib/BlockFifo.cpp:131-211 | The same for every interleaving |
| TwoThreads.RefinesByteQueue | lib/BlockFifo.cpp:131-211 | From the start, after any interleaving: the bytes stored and completed are the bytes loaded and released, then those committed and unread, then those pending, in order |
| TwoThreads.UnlockedAccessIsRaceFree | lib/BlockFifo.cpp:137-190 | In every reachable state the block written to is `blk[head]` and not committed, the block read from is `blk[tail]` and committed, so they differ |
| TwoThreads.CheckStaysGood | lib/BlockFifo.cpp:137-187 | After a wait came true no steps of the other thread make its second lock section find the ring full, or empty |
| TwoThreads.WriteStarts | lib/BlockFifo.cpp:137-145 | WriteStart with no block checked out gives a pointer to a whole block and leaves the queue alone if there is room, and none if there is not |
| TwoThreads.WriteResumes | lib/BlockFifo.cpp:133-136 | WriteStart with a block checked out gives a pointer behind its written part and changes nothing else |
| TwoThreads.StoreDoes | lib/BlockFifo.cpp:224 | A store changes the memory behind the writing thread's pointer, nothing queued and nothing of the other thread |
| TwoThreads.WriteDoneDoes | lib/BlockFifo.cpp:148-172 | WriteComplete makes exactly the first bytes stored produced and drops the pointer; the block is committed, behind the others, exactly if nothing was completed or it is full, and otherwise stays pending |
| TwoThreads.ReadStarts | lib/BlockFifo.cpp:185-192 | ReadStart with no block checked out gives a pointer to the first committed block and its length, or none if there is not one |
| TwoThreads.ReadResumes | lib/BlockFifo.cpp:180-184 | ReadStart with a block checked out gives a pointer to what is left of it |
| TwoThreads.LoadDoes | lib/BlockFifo.cpp:239 | A load gives exactly the next readable byte and changes nothing else |
| TwoThreads.ReadDoneDoes | lib/BlockFifo.cpp:195-208 | ReadComplete makes exactly the first bytes loaded consumed, takes them off the front of the readable ones and drops the pointer; the block is given back exactly if nothing of it is left |
| TwoThreads.TransferDoes | lib/BlockFifo.cpp:131-211 | The machine moves: for every data that fits, writing it block by block and then reading block by block ends with exactly that data consumed and the ring empty |
| SelfTest.AfterWrite | lib/BlockFifo.cpp:261-268 | After a write of as many counter words as fit, what is queued is the rest of what was in the FIFO before the test followed by the counter up to the new seed; if nothing is readable the pending block has grown |
| SelfTest.AfterRead | lib/BlockFifo.cpp:269-284 | What a read returns is the next of that, and the rest follows in the queue |
| SelfTest.StillRight | lib/BlockFifo.cpp:275-283 | Errors are still none exactly if all that was read is the counter from 0 |
| SelfTest.StaleWordFound | lib/BlockFifo.cpp:246-289 | For example a non-zero word left in the FIFO is found |
| Ramps.RampNext | lib/BlockFifo.cpp:275-283 | A run of bytes is the counter, modulo 2^32, iff it is so up to its last word and that word is the next number |
| Ramps.RampSplit | lib/BlockFifo.cpp:263-268 | Cutting the counter's bytes anywhere gives two counters, the second starting where the first ends, with wrap-around |
| Fifos.BlockFifo.constructor | lib/BlockFifo.cpp:14-31 | A new FIFO has the given number of zeroed blocks in distinct memory and is empty |
| Fifos.BlockFifo.WaitNotFull | lib/BlockFifo.cpp:60-94 | At its last look under the lock the wait is true iff the ring is not full |
| Fifos.BlockFifo.WaitNotEmpty | lib/BlockFifo.cpp:96-128 | At its last look the wait is true iff a block is committed |
| Fifos.BlockFifo.WriteStart | lib/BlockFifo.cpp:131-146 | The pointer and room behind the written part of the block checked out, checking out `blk[head]` if there was none and the ring is not full; else null with the amount untouched |
| Fifos.BlockFifo.WriteComplete | lib/BlockFifo.cpp:148-176 | The ring after completing `amt` bytes; without a block checked out nothing changes |
| Fifos.BlockFifo.ReadStart | lib/BlockFifo.cpp:178-193 | The pointer and amount at the read offset of the block checked out, checking out `blk[tail]` if there was none and one is committed; else null |
| Fifos.BlockFifo.ReadComplete | lib/BlockFifo.cpp:195-211 | The ring after releasing `amt` bytes; without a block checked out nothing changes |
| Fifos.BlockFifo.Reset | lib/BlockFifo.cpp:48-58 | Everything is dropped and every block cleared, from any ring, its memory kept |
| Fifos.BlockFifo.Write | lib/BlockFifo.cpp:213-229 | With zero timeout and nobody reading, exactly the smaller of the length and the free space is written, those bytes go to the back of the queue, and only full blocks are committed |
| Fifos.BlockFifo.WriteSome | lib/BlockFifo.cpp:217-227 | One turn writes a prefix of the data, and none iff there is no space |
| Fifos.BlockFifo.Read | lib/BlockFifo.cpp:231-244 | With zero timeout and nobody writing, exactly the smaller of the length and the readable bytes is read, from the front of the queue; it ends even when empty blocks were committed |
| Fifos.BlockFifo.ReadSome | lib/BlockFifo.cpp:234-241 | One turn reads a prefix of the queue and either some bytes or one block fewer is left to do |
| Fifos.BlockFifo.Test | lib/BlockFifo.cpp:246-289 | The self-test ends, for all random sizes and with seeds that wrap, and finds no errors iff what was in the FIFO before, followed by the counter, begins as the counter does; so it finds none from an empty FIFO |
| Fifos.BlockFifo.TestTurn | lib/BlockFifo.cpp:260-285 | One turn keeps the error count right and either reads a word or leaves less space in the pending block |
| Fifos.CheckRamp | lib/BlockFifo.cpp:275-283 | The checking loop counts no error iff the data is the counter from the seed, and then leaves the next seed |
| V49.UnpackPack | lib/v49packet.h:12-28 | Reading back a packed header gives every field, for all values that fit their widths |
| V49.PackUnpack | lib/v49packet.h:12-28 | Packing the fields of any seven words gives the words: no bit is outside a field |
| V49.HeaderRoundTrip | lib/v49packet.cpp:104-110 | A header stored as 28 bytes and copied back is the same header |
| V49.FieldsInBytes | lib/v49packet.h:12-28 | Where each field of a header is among its 28 bytes, bit by bit |
| V49.TimeInBytes | lib/v49packet.h:61-63 | The seconds are bytes 16 to 20, the fraction bytes 20 to 28 with its more significant word first |
| V49.FrameRoundTrip | lib/v49packet.cpp:30-40 | Taking apart a frame of 2040 samples gives its header, samples and trailer |
| V49.FrameOfParts | lib/v49packet.cpp:93-102 | Any 8 KiB are the frame of what they are taken apart into |
| V49.NewHeaderAcceptable | lib/v49packet.cpp:42-56 | A new header passes validation, its frame size is 8 KiB in words, its packet size three words less, and its stream id splits into device and stream |
| V49.NewHeaderInBytes | lib/v49packet.cpp:42-56 | A new header as bytes: preamble, 0x800 words and the frame count, 0x7FD words and the packet count with both time formats 1, packet type 1, the stream id, and zeros |
| V49.CountsInHeader | lib/v49packet.cpp:49-51 | Counters that wrap at 16 and 8 bits, cut to 12 and 4, number packet n of an unbounded run n mod 4096 and n mod 16 |
| V49Packets.V49Packet.Init | lib/v49packet.cpp:30-40 | Header and trailer are those of the frame in the buffer, the sample pointer is 28 bytes into it with 2040 words, and the packet is valid iff acceptable |
| V49Packets.V49Packet.CopyHeader | lib/v49packet.cpp:104-110 | The header is what the first 28 bytes encode |
| V49Packets.V49Packet.Validate | lib/v49packet.cpp:112-132 | True iff the frame size, preamble, reserved bits, flags, packet type and trailer are all as required |
| V49.AcceptableInBytes | lib/v49packet.cpp:112-132 | What passes validation, as bytes: the preamble, the frame size, byte 11 one of 0x10 and 0x30, and the trailer, and nothing else |
| V49Packets.V49Packet.InitHeaderTrailer | lib/v49packet.cpp:42-56 | The header with the given counts cut to their fields, and both counters one further with wrap-around |
| V49Packets.V49Packet.Attach | lib/v49packet.cpp:67-85 | The buffer holds header and trailer at the frame's two ends, every other byte untouched; the old sample pointer is gone |
| V49Packets.V49Packet.Make | lib/v49packet.cpp:58-65 | A packet around samples where they are |
| V49Packets.V49Packet.Copy | lib/v49packet.cpp:93-102 | The destination holds the whole frame, every other byte untouched |
| V49Packets.MakeCopyInit | lib/v49packet.cpp:58-102 | Make with 2040 samples, Copy, then Init gives back header and samples, and the packet is valid |
| V49Packets.AttachFillInit | lib/v49packet.cpp:67-85 | Attach, filling the sample buffer, then Init gives back header and samples, and the packet is valid |
| V49Packets.InitFrame | lib/v49packet.cpp:30-40 | Init of a frame in memory gives the header and the samples it was built from |
| Framing.PacketOnWire | lib/TcpTxSignalClient.cpp:129-142 | Packet i of a wire stream is chunk i of the payload, framed and numbered i after the first |
| Framing.PacketInBytes | lib/TcpTxSignalClient.cpp:129-142 | A packet as bytes: the header in literal bytes, the data from byte 28, the trailer from byte 8188 |
| Framing.PacketAccepted | lib/v49packet.cpp:112-132 | Every packet of a wire stream passes validation, is an IF data packet, carries the device number, its running numbers and its 8160 payload bytes, byte by byte |
| Framing.Unframe | lib/TcpRxSignalClient.cpp:102-124 | The payloads of the whole packets in any prefix of a wire stream are the first bytes of what was framed |
| Framing.WireGrows | lib/TcpTxSignalClient.cpp:139-142 | Framing more of a longer payload only extends the wire stream |
| Framing.PayloadsOfPrefix | lib/TcpRxSignalClient.cpp:105-124 | The payload of packets that have arrived does not depend on what follows |
| TxStream.PumpKeeps | lib/SocketTxBuffer.cpp:107-150 | The pump may run at any time: the send invariant and the open frame in the block being filled survive |
| TxStream.AttachKeeps | lib/TcpTxSignalClient.cpp:129 | Laying out header and trailer opens frame number k at the write offset and changes no queued byte |
| TxStream.FillKeeps | lib/TcpTxSignalClient.cpp:135-140 | Copying samples behind those already there extends the open frame's payload and changes no queued byte |
| TxStream.CloseKeeps | lib/TcpTxSignalClient.cpp:141-144 | Completing a full frame appends exactly the next packet to the wire image |
| TxStream.ForceKeeps | lib/TcpTxSignalClient.cpp:117-119 | Forcing the next block commits whole packets, at least one, and adds no byte |
| TxStream.FullRing | lib/BlockFifo.h:30 | When the ring is full and packets divide the block size, more packets have been completed than all blocks but two hold |
| SocketTx.SocketTxBuffer.Reset | lib/SocketTxBuffer.cpp:41-46 | Everything queued is dropped and both counters restart; what the socket has taken it keeps |
| SocketTx.SocketTxBuffer.SendStart | lib/SocketTxBuffer.h:39 | WriteStart, with the account kept |
| SocketTx.SocketTxBuffer.SendComplete | lib/SocketTxBuffer.h:40 | Exactly the bytes completed are handed over; `transferred` stays right iff a block was checked out or the amount is nothing modulo 2^64 |
| SocketTx.SocketTxBuffer.WriteData | lib/SocketTxBuffer.cpp:107-150 | For every sequence of answers: bytes go from the front of the queue to the wire in order, how many, what is left unread of each block, and exactly when the turn ends the thread |
| SocketTx.FirstAnswerDecides | lib/SocketTxBuffer.cpp:125-148 | With a block committed, the first answer that is not to try again decides the turn: its room or the block's rest is sent, whichever is less, and the thread ends iff it is an error, no room, or an empty block |
| SocketTx.FrontsFinish | lib/SocketTxBuffer.cpp:145 | What is sent comes off the first committed block, which is gone when nothing of it is left; the others stay |
| SocketTx.SocketTxBuffer.HealthyTurn | lib/SocketTxBuffer.cpp:136-141 | On a connection that neither fails nor takes zero bytes a turn does not end the thread, if no empty block was committed |
| SocketTx.SocketTxBuffer.HealthyTurnSends | lib/SocketTxBuffer.cpp:142-148 | And if a block is committed, a turn whose answers include room sends something |
| SocketTx.SocketTxBuffer.Pump | lib/SocketTxBuffer.cpp:91-101 | Any number of turns keeps the account and changes nothing the writing side uses; how many bytes go out in all, each turn from one block only, and exactly when the thread ends |
| SocketTx.TurnsSendBlocks | lib/SocketTxBuffer.cpp:91-148 | When every turn meets room for any block, each turn sends one block, in order |
| SocketTx.SocketTxBuffer.Send | lib/SocketTxBuffer.cpp:153-170 | With the pump running between the writes: a prefix of the data is handed over, in order and counted, and it stops early only when the connection is done or the ring full |
| SocketTx.SocketTxBuffer.Conservation | lib/SocketTxBuffer.cpp:107-170 | `transferred` minus `sent`, modulo 2^64, is the unread committed bytes plus the bytes in the block being filled, at every call boundary |
| SocketTx.CompletesWithoutBlock | lib/SocketTxBuffer.h:40 | An input on which the account fails: one byte completed with no block checked out |
| SocketTx.EmptyBlockEndsThread | lib/SocketTxBuffer.cpp:136-141 | An input on which a healthy connection is taken for closed: an empty block is committed and the pump runs |
| TcpTx.TcpTxSignalClient.constructor | lib/TcpTxSignalClient.cpp:80-81 | A new client satisfies the invariant with nothing accepted |
| TcpTx.TcpTxSignalClient.FindBlock | lib/TcpTxSignalClient.cpp:114-118 | Once the wait has come true the pointer is not null, whatever the pump does in between, and there is room for a packet if packets divide the block size; if it has not, the ring is full |
| TcpTx.TcpTxSignalClient.RoomForNext | lib/TcpTxSignalClient.cpp:117-119 | When packets divide the block size a packet always fits into the block checked out, whether or not any is committed, so the forcing branch is never taken |
| TcpTx.ForcesNextBlock | lib/TcpTxSignalClient.cpp:117-119 | A run on which the forcing branch is taken: one packet in a block of 0x3000 bytes |
| TcpTx.TcpTxSignalClient.FindNextBlock | lib/TcpTxSignalClient.cpp:117-124 | After forcing the next block, a pointer to a whole empty block, or null with the amount unchanged because the ring is full |
| TcpTx.TcpTxSignalClient.NextFrame | lib/TcpTxSignalClient.cpp:113-134 | A frame is opened in the block being filled at its write offset, or the ring is full |
| TcpTx.TcpTxSignalClient.FillFrame | lib/TcpTxSignalClient.cpp:135-144 | At least one byte goes into the open frame, exactly those are accepted, and a full frame is completed |
| TcpTx.TcpTxSignalClient.SendSome | lib/TcpTxSignalClient.cpp:111-146 | One turn accepts a prefix of the data, and nothing only when the ring is full between two frames |
| TcpTx.TcpTxSignalClient.Send | lib/TcpTxSignalClient.cpp:103-152 | The bytes it reports are exactly those accepted, kept in order in frames; the half-filled frame's pointer stays good between calls; it returns early only when the ring is full between two frames |
| TcpTx.TcpTxSignalClient.WireIsFramed | lib/TcpTxSignalClient.cpp:103-152 | What is or will be on the wire is the accepted payload framed, and all accepted bytes but `plen` are in it |
| TcpTx.TcpTxSignalClient.WireImage | lib/TcpTxSignalClient.cpp:109-146 | Every completed packet is acceptable, an IF data packet, numbered in order, addressed to the device, and carries the next 8160 bytes of the input, byte by byte |
| TcpTx.TcpTxSignalClient.CommittedBlocks | lib/TcpTxSignalClient.cpp:141-144 | Every committed block is at least one whole packet, and full when packets divide the block size |
| TcpTx.TcpTxSignalClient.PumpTurn | lib/SocketTxBuffer.cpp:107-150 | Under this client, on a healthy connection, a turn of the pump never takes an empty send for end of file, and one that meets room sends something if a block is committed |
| TcpTx.TcpTxSignalClient.Lag | lib/TcpTxSignalClient.cpp:111-146 | Payload accepted but not in a committed block is 8160 per packet in the block being filled plus `plen`, always less than one block of payload |
| TcpTx.TcpTxSignalClient.ShortSendIsLate | lib/TcpTxSignalClient.cpp:113-133 | When Send finds the ring full it has accepted more payload than all blocks but two hold |
| TcpTx.TcpTxSignalClient.Flush | lib/TcpTxSignalClient.cpp:95-101 | Everything pending is dropped, what has gone out stays, and numbering goes on after every packet attached so far; the connection stays framed, whatever is sent next, iff the bytes gone out are whole packets |
| TcpTx.TcpTxSignalClient.StaysFramed | lib/TcpTxSignalClient.cpp:95-152 | After a Flush at a packet boundary the whole packets of the connection carry what they carried before and then what Send has accepted since |
| Resync.Misaligned | lib/v49packet.cpp:42-56 | Read anywhere but at a packet boundary, a framed stream of ones gives a payload with a header or trailer byte in it |
| Resync.RejoinsIff | lib/TcpTxSignalClient.cpp:95-101 | A sender that starts framing afresh after any bytes has its payload received, whatever it sends, iff those bytes are whole packets |
| Resync.FragmentBreaks | lib/TcpTxSignalClient.cpp:95-101 | After any fragment of a packet two packets of ones are not received as sent |
| Resync.FlushAfter100 | lib/TcpTxSignalClient.cpp:95-101 | For example after 100 bytes of a packet |
| TcpTx.FlushLeavesFragment | lib/TcpTxSignalClient.cpp:95-101 | A run that reaches it: one packet built, 100 bytes of it sent, Flush |
| Resync.InStepIff | lib/TcpRxSignalClient.cpp:76-81 | A receiver that drops the n bytes it has received but gives out the rest of a packet half read gives out next the sender's payload from a packet boundary on, whatever was sent, iff no packet was half read and n is a multiple of 0x2000 |
| Resync.DropsFragmentOf5000 | lib/TcpRxSignalClient.cpp:76-81 | Out of step: 5000 bytes received, no packet read |
| Resync.DropsHalfRead | lib/TcpRxSignalClient.cpp:76-81 | Out of step: one packet received and one of its samples read |
| SocketRx.SocketRxBuffer.Reset | lib/SocketRxBuffer.cpp:41-46 | Everything queued is dropped and the counter restarts; what has not been received yet will be |
| SocketRx.SocketRxBuffer.ReceiveStart | lib/SocketRxBuffer.h:37 | ReadStart, with the account kept |
| SocketRx.SocketRxBuffer.ReceiveComplete | lib/SocketRxBuffer.h:38 | Bytes are released; the double count stays exact iff a block was checked out or the amount is nothing modulo 2^64, and is off by exactly what was claimed |
| SocketRx.SocketRxBuffer.ReadOnce | lib/SocketRxBuffer.cpp:112-146 | One iteration receives exactly what has arrived and fits into the block, behind what is there, and ends the thread iff there is a block and a recv failed or met end of file |
| SocketRx.SocketRxBuffer.ReadData | lib/SocketRxBuffer.cpp:107-148 | For every sequence of answers: exactly so many bytes move from the socket to the back of the queue, in order, how full the ring then is, and exactly when the turn ends the thread; only full blocks are committed |
| SocketRx.ReceivesAllThatFits | lib/SocketRxBuffer.cpp:110-147 | With enough ready at every recv, a turn receives all that has arrived or all that fits into the free blocks, whichever is less |
| SocketRx.TurnEndsAt | lib/SocketRxBuffer.cpp:121-137 | Nothing after the first answer that is not ready matters to a turn, and that answer brings nothing |
| SocketRx.ThreadEndsAt | lib/SocketRxBuffer.cpp:125-137 | When it is reached with a block to receive into, it ends the thread iff it is a failure or the end of file |
| SocketRx.ReceivesIntoSpace | lib/SocketRxBuffer.cpp:138-146 | What a turn receives is exactly what the free space shrinks by |
| SocketRx.PumpGoesOn | lib/SocketRxBuffer.cpp:92-103 | More turns go on where the first ones ended, and none follow one that ended the thread |
| SocketRx.SocketRxBuffer.Pump | lib/SocketRxBuffer.cpp:92-103 | Any number of turns keeps the account and every committed block as it is, and loses no byte of the connection; how many bytes are received in all, and exactly when the thread ends |
| SocketRx.CompletesWithoutBlock | lib/SocketRxBuffer.h:38 | An input on which the count fails: one byte released with no block checked out |
| SocketRx.SocketRxBuffer.CountsReceivedIff | lib/SocketRxBuffer.cpp:142 | The counter is the number of bytes received iff the number released is nothing modulo 2^64 |
| SocketRx.CountsByteTwice | lib/SocketRxBuffer.h:38 | A run on which it is not: one byte received and released counts as two |
| SocketRx.WroteFullBlocks | lib/SocketRxBuffer.cpp:138-146 | Whatever sizes recv returns, every committed block is full |
| RxStream.FillingKeeps | lib/SocketRxBuffer.cpp:107-148 | The pump may run at any time: the receive invariant survives |
| RxStream.PacketAtFront | lib/TcpRxSignalClient.cpp:102-105 | The amount left in a block checked out is a multiple of 0x2000, and what is at its read offset is packet k of the stream, from wire offset 0x2000 times k |
| RxStream.FinishKeepsRx | lib/TcpRxSignalClient.cpp:126-129 | Releasing 0x2000 bytes leaves the next packet at the front |
| RxStream.DeliverMore | lib/TcpRxSignalClient.cpp:120-130 | Copying samples from the open packet extends what is delivered by the next payload bytes, with no header or trailer byte, also when the packet ends |
| RxStream.DeliveredIsPrefix | lib/TcpRxSignalClient.cpp:120-130 | What is delivered is a prefix of the payloads of the packets opened |
| RxStream.TagsStep | lib/TcpRxSignalClient.cpp:97-131 | A turn of the loop adds the tag of packet k iff it starts with the packet's first sample |
| RxStream.TagOffsets | lib/TcpRxSignalClient.cpp:108-114 | In a call at position P an offset o is tagged iff o is among the samples returned and P+o is a multiple of 2040 |
| RxStream.TagTime | lib/TcpRxSignalClient.cpp:108-114 | The time of a tag is in bytes 16 to 28 of its packet on the wire, the more significant word of the fraction first, and its offset is where the packet begins |
| RxStream.TagsSplit | lib/TcpRxSignalClient.cpp:90-135 | The tags of one call are those of its two halves made as two calls, the second shifted |
| RxStream.TagsOfPrefix | lib/TcpRxSignalClient.cpp:108-114 | Tags do not depend on what is received later |
| RxStream.AllGoodIff | lib/TcpRxSignalClient.cpp:105-114 | Every sample and tag of a call is of a packet that passes validation iff every packet the call reads does: nothing is held back |
| RxStream.BadPacketDelivered | lib/TcpRxSignalClient.cpp:106-114 | For example a packet without its trailer: its payload is delivered, with a tag marked valid |
| TcpRx.TcpRxSignalClient.constructor | lib/TcpRxSignalClient.cpp:26 | A new client satisfies the invariant with nothing delivered |
| TcpRx.TcpRxSignalClient.Start | lib/TcpRxSignalClient.cpp:101-102 | Between packets a pointer to a whole packet, the next of the stream, or null iff no block is committed |
| TcpRx.TcpRxSignalClient.FindPacket | lib/TcpRxSignalClient.cpp:100-104 | Once the wait has come true the pointer is not null and the amount a multiple of 0x2000, whatever the pump does in between: both asserts hold |
| TcpRx.TcpRxSignalClient.NextPacket | lib/TcpRxSignalClient.cpp:99-117 | The next packet of the stream is opened and its time is in the tag, or the ring is empty; the tag is marked valid whether or not the packet passes validation |
| TcpRx.TcpRxSignalClient.DrainPacket | lib/TcpRxSignalClient.cpp:118-130 | At least one sample is copied from the memory behind the packet pointer; those bytes are the next of the stream, unless the packet is one a Flush left half read |
| TcpRx.TcpRxSignalClient.ReceiveSome | lib/TcpRxSignalClient.cpp:97-131 | One turn reads samples of one packet, with its tag iff they start it, and none only when the ring is empty between packets |
| TcpRx.TcpRxSignalClient.ReceiveSamples | lib/TcpRxSignalClient.cpp:90-135 | The output holds exactly the next samples of the payload, behind exactly the samples a Flush left of a half read packet; the tags are exactly those of the packets that begin among them; it returns short iff more was asked for than is in full blocks when it returns, and at least what was in full blocks when it began is returned, whatever the pump does |
| TcpRx.TcpRxSignalClient.WithinReach | lib/TcpRxSignalClient.cpp:97-131 | Never more samples have been delivered than full blocks received hold, and exactly that many when the ring is empty between packets |
| TcpRx.TcpRxSignalClient.AllInReach | lib/TcpRxSignalClient.cpp:97-131 | When the ring is empty between packets, what was delivered is the payload of every packet in full blocks |
| TcpRx.TcpRxSignalClient.PositionIs | lib/TcpRxSignalClient.cpp:125-128 | `partial` is the number of samples delivered modulo 2040, except in a packet a Flush left half read |
| TcpRx.TcpRxSignalClient.DeliversPayload | lib/TcpRxSignalClient.cpp:90-135 | All that was ever delivered is a prefix of the received packets' payloads |
| TcpRx.TcpRxSignalClient.Flush | lib/TcpRxSignalClient.cpp:76-81 | What was received is dropped and `partial` kept: a packet half read stays open, with no block checked out and the pointer still on the rest of that packet |
| TcpRx.FlushDropsFragment | lib/TcpRxSignalClient.cpp:76-81 | A run that ends with a fragment of 5000 bytes dropped, the rest of the stream still to come and nothing half read |
| TcpRx.FlushKeepsHalfRead | lib/TcpRxSignalClient.cpp:76-81 | A run, for any stream and any 0 < p < 2040, that ends with a packet left open after p samples, the rest of it behind the pointer |
| TcpRx.FlushGivesOutRest | lib/TcpRxSignalClient.cpp:76-130 | And what is given out next is the rest of that packet's payload, for any payload framed |
| TcpRx.FlushOutOfStep | lib/TcpRxSignalClient.cpp:76-130 | A run on which that is not the payload from any packet boundary on |
| RxBlocks.StreamTagsGrow | lib/avs4000rx_impl.cc:153-181 | In both modes, adding the items written to a call's tag offsets extends the tags of the stream by exactly those of the new items, from the first packet with a rate on |
| RxBlocks.StreamTagInBytes | lib/avs4000rx_impl.cc:167-182 | Item 2040k carries the time in bytes 16 to 28 of packet k, raw, or with the fraction in units of half a sample of the master rate |
| RxBlocks.UnratedComeFirst | lib/avs4000rx_impl.cc:158-167 | The tags that find no rate are the first ones of a call, and the rate stays once it is not zero |
| RxBlocks.RateIsFirstAnswer | lib/avs4000rx_impl.cc:158-161 | The rate is the first answer that is not zero, unless it was known before; only the tags before it have none |
| RxBlocks.AllRatedIff | lib/avs4000rx_impl.cc:158-167 | Every tag of a call is added, with its scaled time, iff the rate is positive once it has been asked for at the first |
| RxBlocks.NoRateNoTag | lib/avs4000rx_impl.cc:158-167 | An input on which one is missing: a tag at which the device answers zero |
| RxBlocks.AddedMore | lib/avs4000rx_impl.cc:153-181 | One more tag adds one item tag, raw or scaled, or none if the rate is not positive by then |
| RxBlocks.RxBlock.AddTags | lib/avs4000rx_impl.cc:153-188 | The item tags are the call's, raw, or scaled from the first with a rate on, or none; the device is asked at each tag while the rate is zero, with any answers |
| RxBlocks.RxBlock.Convert | lib/avs4000rx_impl.cc:189-196 | Each item's real part is the signed 16-bit number in bytes 2 and 3 of its sample, its imaginary part the one in bytes 0 and 1, low byte first |
| RxBlocks.SampleRoundTrip | lib/avs4000rx_impl.cc:194-195 | Every pair of signed 16-bit numbers, and no other, comes back from its four bytes, imaginary part first |
| RxBlocks.RxBlock.Work | lib/avs4000rx_impl.cc:136-198 | Unless it fails, the items are the next samples, each with its real part from bytes 2 and 3 and its imaginary part from bytes 0 and 1. It fails iff more is asked for than is in full blocks when it returns, so never when enough was when it began. In both modes the stream stays tagged at exactly the items 2040k, each with packet k's time, but for the packets that began without a rate; it stays so iff the call was full or delivered nothing, and always when enough was in full blocks before |
| RxBlocks.ShortCallLeavesStep | lib/avs4000rx_impl.cc:149-152 | A run on which a short call drops samples: one packet received, one sample more asked for |
| Pipeline.DeliveredIsPromised | lib/TcpRxSignalClient.cpp:90-135 | On values: after dropping j whole packets a receiver gets the payload from chunk j on, in any prefix of the wire |
| Pipeline.EndToEnd | lib/TcpTxSignalClient.cpp:95-152 | Two connected clients, flushed at packet boundaries if ever: what is delivered is the payload from the packet on at which the receiver was flushed; without a Flush, a prefix of what was accepted |
| Pipeline.ReceivesGoodPackets | lib/TcpRxSignalClient.cpp:105-107 | Every packet received whole from this sender passes validation |
| Pipeline.NothingLost | lib/TcpTxSignalClient.cpp:103-152 | What is accepted and not delivered is in the sender's queue, on the connection, in the receiver's queue, in whole packets, or in the open frame: the exact amount |
| Pipeline.AllButTheTail | lib/TcpTxSignalClient.cpp:111-146 | With connection and committed blocks drained, less than one block of payload at each end is undelivered |
| Pipeline.TxStep | lib/TcpTxSignalClient.cpp:103-152 | Any call of Send, or the pump alone: what is accepted is exactly the part of the data reported, the wire is only extended, and it comes short only when the ring is full between two frames |
| Pipeline.RxStep | lib/TcpRxSignalClient.cpp:90-135 | Any call of ReceiveSamples, or the pump alone: the output is exactly what is delivered, with its tags, no byte is lost, and it comes short only when the ring is empty between packets |
| Pipeline.FlushTxStep | lib/TcpTxSignalClient.cpp:95-101 | A Flush of the sender, made iff whole packets have gone out, keeps the ends connected |
| Pipeline.FlushRxStep | lib/TcpRxSignalClient.cpp:76-81 | A Flush of the receiver, made iff whole packets have been received and none is half read, keeps the ends connected |
| Pipeline.Step | lib/TcpRxSignalClient.cpp:90-135 | One step of a run, with its record, and why it did no more |
| Pipeline.Run | lib/TcpRxSignalClient.cpp:76-135 | After any sequence of sends, receives, transfers and aligned Flushes: the outputs of the receives since the last Flush, joined, are the payload from the packet on at which the receiver was flushed; without a Flush, a prefix of the parts of the data the sends reported. Each output has exactly the tags of the packets that begin in it, and a send came short only after more than all blocks but two had been filled. Every step is explained: a send came short only at a full ring, a transfer only when all that was sent was through, a receive exactly when more was asked for than was in full blocks, which never become fewer, and then all of that was given out, and a Flush was made exactly at a packet boundary |
| Pipeline.Drain | lib/SocketTxBuffer.cpp:107-150 | Everything gets through: for all answers to the sends and recvs that let each turn move something, pumping, transferring and receiving until nothing more comes delivers all but less than a block of payload at each end, unless a connection ends |
| Pipeline.Session | lib/SocketTxBuffer.h:26-27 | The same from two newly built ends, for all sizes that packets fit |

## Left out

- Sockets, `select`, `fcntl`, thread start and join, Qt signals and logging: calls into code outside the repository; only the results of `send` and `recv` are modelled, as scripts.
- Fifos.BlockFifo.WaitNotFull: does not model time; a timed wait is its value at the last look, and what the pump does during it happens before that look.
- Fifos.BlockFifo.WaitNotEmpty: the same.
- Fifos.BlockFifo.Reset: a step with both threads quiet, as are both `Flush` methods; in runs of `Pipeline` they are made at packet boundaries only.
- Fifos.BlockFifo.Test: requires at least two blocks of whole words, as with one block nothing can ever be written and the source does not return, and a FIFO that holds whole words and no empty committed block.
- V49Packets.V49Packet.Attach: requires a length of at least 32 bytes, header and trailer; the source's assert lets less through, and then stores the trailer far outside the buffer.
- TcpRx.TcpRxSignalClient.ReceiveSamples: does not say which bytes are left of a packet that a Flush left half read, as the pump may overwrite them before the call; `Flush` says what they are when it returns.
- Interleaving inside one `send` or `recv` and the completion after it is modelled in TwoThreads, byte by byte; in the pump methods the pair is one step, which `RingMoves.InterleavingsAgree` justifies.
- TcpTx.TcpTxSignalClient.constructor: takes any block size of at least one packet, where the source always uses 32 KiB and 64 blocks; a smaller block never accepts anything.
- TcpRx.TcpRxSignalClient.constructor: requires a block size that packets divide, as the source's assert on the amount does.
- `partial` is set after the packet is released and not before, so the value 2040 is never visible in between.
- RxBlocks.RxBlock.AddTags: computes the scaled time over the reals, without rounding.
- RxBlocks.RxBlock.Work: leaves out the check for a missing client, and counts the items itself where the scheduler does.
- Values of 32 bits that the bounds keep small (`len`, `read`, `head`, `count`, amounts) are unbounded; sizes near 2^32 are not modelled.
- The branches of the clients that are not VITA-49, and SocketRxBuffer's `Receive`: the blocks never use them, and the receiving one mixes bytes and samples.
- `HalfFull`, `Count`, `Detach`, `ValidPreamble`, `Dump` and the plain getters: nothing beyond their bodies to state.
- TcpJSONClient, avs4000client, the rest of the receive block, the transmit block, user interface, build and documentation: other concerns.
