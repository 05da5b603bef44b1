# A verified model of the AIC8800 driver engines

The Buildroot layer for the RV1106 carries the AIC8800 WiFi and Bluetooth driver. This project models the parts of
that driver that compute: state, arithmetic and loops, cut free of the kernel. Each module is one engine.

| module | engine |
|---|---|
| `Md5` | the streaming MD5 with which the firmware loader checks its files |
| `FrameQueues` | the priority queue of frames, in the variant that refuses and the one that displaces |
| `Crc8` | the bit-serial CRC-8 of the bus headers |
| `Aggregate` | the transmit aggregate: record layout, padding, headers, whole blocks |
| `TxState` | the credit-driven transmit loop on values, racing with new frames, commands, failing writes and loss of the bus |
| `TxScheduler` | the same loop on the driver's fields, queue and buffer |
| `HciReassembly` | the resumable parser of Bluetooth packets |
| `BtRing` | the ring of packets behind the Bluetooth character device |
| `TcpAck` | the filter that withholds and replaces TCP acknowledgements |
| `Nat25` | the intrusive hash table of the NAT2.5 bridge |
| `DhcpChecksum` | the DHCP broadcast flag with its incremental checksum |
| `RxDeframe` | the record parser of the receive path |
| `CmdManager` | requests to the firmware, their confirmations and timeouts |
| `Common` | words modulo 2^32, bitwise operators, lists, copying |

Objects that the driver updates in place are classes with the driver's fields; buffers and tables are arrays; loops are
loops. Each such method is proved against functions on values, and the lemmas state what those functions mean. Ghost
fields record histories: what was accepted, delivered, sent or freed. A region under one lock is one method. Where
other threads may run in between, a script of their acts is a parameter, so that a contract holds for every
interleaving. Memory that cannot be allocated, clocks, registers and callbacks are parameters as well. `unsigned int`
and the 32-bit `unsigned long` of the target wrap explicitly.

Run `dafny verify dfyconfig.toml` to check everything.

## What the proofs show about the code

Some properties one would expect do not hold of the code as it is. The model keeps the code, and the lemmas give the
exact condition.

* A digest is right for every chunking, but for a single input within 64 bytes of 4 GB the 32-bit cursor of `MD5Update`
  wraps and its loop never ends (`Md5.CursorFitsExactly`).
* A write to the bus that fails drops the whole aggregate: the frames are neither kept nor sent again, and their credit
  stays spent (`TxState.RunOutcome`, `TxScheduler.TxPriv.Transfer`).
* On the chips whose header counts the padding, a payload of 4093 to 4095 bytes pads to 4096 and its 12-bit length
  field becomes 0 (`Aggregate.WalkOneExactly`).
* The receive loop rounds in 16 bits: for data lengths 65473 to 65476 it never advances (`RxDeframe.AdvanceExactly`).
  When a message cannot be allocated, and only then, the buffer in hand is freed but not uncounted
  (`RxDeframe.FailsExactly`, `RxDeframe.RxPriv.ProcessRxFrames`).
* The checksum update adds the whole flags word instead of its change, so it is right only if the flags field was zero
  before (`DhcpChecksum.ChecksumKept`). It may also produce a zero field
  (`DhcpChecksum.ChecksumLost`), and it gives a checksum to a datagram that had none (`DhcpChecksum.AcceptedExactly`).
* A read from the Bluetooth ring whose copy fails has already removed the bytes (`BtRing.FailedCopyLosesBytes`).
* What the reassembly delivers and keeps depends on the chunks if and only if an oversize header is complete before the
  last byte of the stream (`HciReassembly.ChunksMatterExactly`).
* A timer that fires while a message is being sent leaves the held one without a timer (`TcpAck.Manager.Timeout`). A slot
  keeps the message of its last flow when it is given to a new one, whose next accepted acknowledgement frees it unsent
  (`TcpAck.Manager.Claim`, `TcpAck.HeldThenFreed`). Together they lose the newest acknowledgement of a flow
  (`TcpAck.InheritedIsLost`).
* `time_before_eq` sees an entry as fresh again from half a tick circle after it expired (`Nat25.ExpiredExactly`).
* A frame that displaces another in the firmware loader's queue joins the displaced frame's class, not its own
  (`FrameQueues.FrameQueue.EnqDisplacing`).

## Model

| member | source | states |
|---|---|---|
| `Md5.DigestOfChunks` | meta-rockchip-rv1106/recipes-connectivity/aic8800dc/files/aic8800_bsp/md5.c:9-49 | Init, one Update per chunk and Final yield the RFC 1321 digest of the concatenation, for every message and every way of cutting it whose block cursor does not wrap |
| `Md5.Context.constructor` | meta-rockchip-rv1106/recipes-connectivity/aic8800dc/files/aic8800_bsp/md5.c:9-17 | a context starts with the empty message absorbed |
| `Md5.Context.Init` | meta-rockchip-rv1106/recipes-connectivity/aic8800dc/files/aic8800_bsp/md5.c:9-17 | whatever a context held, it forgets it; the stale buffer does not matter |
| `Md5.Context.Update` | meta-rockchip-rv1106/recipes-connectivity/aic8800dc/files/aic8800_bsp/md5.c:18-38 | the state invariant (bit count modulo 2^64, held tail in the buffer, state equal to the fold over all whole blocks) holds for the old message extended by the input |
| `Md5.Context.UpdateAll` | meta-rockchip-rv1106/recipes-connectivity/aic8800dc/files/aic8800_bsp/md5.c:18-38 | any number of Update calls absorbs the concatenation of the inputs |
| `Md5.Context.Consume` | meta-rockchip-rv1106/recipes-connectivity/aic8800dc/files/aic8800_bsp/md5.c:28-37 | filling the held tail, compressing whole blocks in place from the input and keeping the rest leaves state and buffer those of the longer message |
| `Md5.Context.AbsorbBlocks` | meta-rockchip-rv1106/recipes-connectivity/aic8800dc/files/aic8800_bsp/md5.c:31-32 | the block loop stops with less than a block left and the state that of all blocks before the cursor |
| `Md5.Context.Absorb` | meta-rockchip-rv1106/recipes-connectivity/aic8800dc/files/aic8800_bsp/md5.c:30-32 | one in-place compression moves the state to the next chaining value of the message |
| `Md5.Context.Transform` | meta-rockchip-rv1106/recipes-connectivity/aic8800dc/files/aic8800_bsp/md5.c:72-154 | the unrolled rounds, added to the state in place, are the compression function of RFC 1321 on the decoded block |
| `Md5.Context.CountBits` | meta-rockchip-rv1106/recipes-connectivity/aic8800dc/files/aic8800_bsp/md5.c:23-26 | the two words with their hand-made carry hold 8 times the new length modulo 2^64 |
| `Md5.CountCarries` | meta-rockchip-rv1106/recipes-connectivity/aic8800dc/files/aic8800_bsp/md5.c:23-26 | carry test and high-word addition amount to addition modulo 2^64, for every 32-bit input length |
| `Md5.Context.Index` | meta-rockchip-rv1106/recipes-connectivity/aic8800dc/files/aic8800_bsp/md5.c:21-22 | the index taken from the bit count is the message length modulo 64 |
| `Md5.IndexIsTail` | meta-rockchip-rv1106/recipes-connectivity/aic8800dc/files/aic8800_bsp/md5.c:21-22 | the low bits of the wrapped count still give the length of the unprocessed tail |
| `Md5.CursorFitsExactly` | meta-rockchip-rv1106/recipes-connectivity/aic8800dc/files/aic8800_bsp/md5.c:31 | the 32-bit loop test fails for some position the cursor reaches by steps of 64 if and only if the input is below a bound near 2^32; above it the loop never ends |
| `Md5.CursorReturns` | meta-rockchip-rv1106/recipes-connectivity/aic8800dc/files/aic8800_bsp/md5.c:31 | however often the cursor has wrapped, the value the loop tests never exceeds that bound |
| `Md5.CursorStays` | meta-rockchip-rv1106/recipes-connectivity/aic8800dc/files/aic8800_bsp/md5.c:31 | below that bound every cursor position plus 64 stays a 32-bit number |
| `Md5.Context.Final` | meta-rockchip-rv1106/recipes-connectivity/aic8800dc/files/aic8800_bsp/md5.c:39-49 | padding and length appended through Update, then the encoded state: the digest of everything absorbed |
| `Md5.PaddedInTwoSteps` | meta-rockchip-rv1106/recipes-connectivity/aic8800dc/files/aic8800_bsp/md5.c:43-47 | padding of 56-index or 120-index bytes and then 8 length bytes complete the padded message of RFC 1321 sections 3.1 and 3.2 |
| `Md5.LengthWords` | meta-rockchip-rv1106/recipes-connectivity/aic8800dc/files/aic8800_bsp/md5.c:45 | the encoded count words are the low-order-first 64-bit length |
| `Md5.Round1` | meta-rockchip-rv1106/recipes-connectivity/aic8800dc/files/aic8800_bsp/md5.c:80-95 | the sixteen written-out FF steps are the table-driven steps of round 1 |
| `Md5.Round2` | meta-rockchip-rv1106/recipes-connectivity/aic8800dc/files/aic8800_bsp/md5.c:98-113 | the sixteen written-out GG steps are the table-driven steps of round 2 |
| `Md5.Round3` | meta-rockchip-rv1106/recipes-connectivity/aic8800dc/files/aic8800_bsp/md5.c:116-131 | the sixteen written-out HH steps are the table-driven steps of round 3 |
| `Md5.Round4` | meta-rockchip-rv1106/recipes-connectivity/aic8800dc/files/aic8800_bsp/md5.c:134-149 | the sixteen written-out II steps are the table-driven steps of round 4 |
| `Md5.AllRounds` | meta-rockchip-rv1106/recipes-connectivity/aic8800dc/files/aic8800_bsp/md5.c:80-149 | the four rounds in sequence, against the table-driven definition |
| `Md5.MessageOrder` | meta-rockchip-rv1106/recipes-connectivity/aic8800dc/files/aic8800_bsp/md5.c:80-149 | the word order written out in the source is the arithmetic progression of each round in RFC 1321 section 3.4 |
| `Md5.AuxiliaryBits` | meta-rockchip-rv1106/recipes-connectivity/aic8800dc/files/aic8800_bsp/md5.h:10-13 | in every one of the 32 places F takes y where x has 1 and z where it has 0, G takes x where z has 1 and y where it has 0, H is the parity, and I flips y where x has 1 or z has 0 (RFC 1321 section 3.4) |
| `Md5.RotateLeftIs` | meta-rockchip-rv1106/recipes-connectivity/aic8800dc/files/aic8800_bsp/md5.h:14 | rotation by n places is x * 2^n modulo 2^32 plus x / 2^(32 - n), for every word and n |
| `Md5.StepArithmetic` | meta-rockchip-rv1106/recipes-connectivity/aic8800dc/files/aic8800_bsp/md5.h:15-38 | each step macro adds the auxiliary value, the message word and the constant, rotates, and adds b, all modulo 2^32 |
| `Md5.SineTable` | meta-rockchip-rv1106/recipes-connectivity/aic8800dc/files/aic8800_bsp/md5.c:80-149 | every constant is the integer part of 2^32 times the absolute value of the sine of its number, the sines coming from sin 1 and cos 1 by the addition theorem |
| `Md5.ShiftAmounts` | meta-rockchip-rv1106/recipes-connectivity/aic8800dc/files/aic8800_bsp/md5.c:80-149 | the four rotation amounts of every round, as arithmetic of the step number |
| `Md5.InitialBytes` | meta-rockchip-rv1106/recipes-connectivity/aic8800dc/files/aic8800_bsp/md5.c:13-16 | the initial value, byte by byte: 01 to ef counting up by hexadecimal 22, then fe to 10 counting down |
| `Md5.LittleEndian` | meta-rockchip-rv1106/recipes-connectivity/aic8800dc/files/aic8800_bsp/md5.c:50-61 | the bytes of an encoded word weigh 1, 256, 256^2 and 256^3 |
| `Md5.DecodeBlock` | meta-rockchip-rv1106/recipes-connectivity/aic8800dc/files/aic8800_bsp/md5.c:62-71 | the decoding loop yields the little-endian words of the block |
| `Md5.EncodeArray` | meta-rockchip-rv1106/recipes-connectivity/aic8800dc/files/aic8800_bsp/md5.c:50-61 | the encoding loop yields the little-endian bytes of the words |
| `Md5.DecodeInvertsEncode` | meta-rockchip-rv1106/recipes-connectivity/aic8800dc/files/aic8800_bsp/md5.c:50-71 | decoding what was encoded gives the words back |
| `Md5.EncodeInvertsDecode` | meta-rockchip-rv1106/recipes-connectivity/aic8800dc/files/aic8800_bsp/md5.c:50-71 | encoding what was decoded gives the bytes back |
| `Md5.ChainPrefix` | meta-rockchip-rv1106/recipes-connectivity/aic8800dc/files/aic8800_bsp/md5.c:28-37 | more input never changes the chaining value of the blocks already whole |
| `FrameQueues.FrameQueue.constructor` | meta-rockchip-rv1106/recipes-connectivity/aic8800dc/files/aic8800_fdrv/aicwf_txrxif.c:772-785 | an empty queue: no class holds a frame, the count and the hint are zero |
| `FrameQueues.FrameQueue.Penq` | meta-rockchip-rv1106/recipes-connectivity/aic8800dc/files/aic8800_fdrv/aicwf_txrxif.c:738-753 | a frame joins the end of its class, is counted, and raises the hint if its class is higher |
| `FrameQueues.FrameQueue.Enq` | meta-rockchip-rv1106/recipes-connectivity/aic8800dc/files/aic8800_fdrv/aicwf_txrxif.c:854-893 | accepted exactly when the count is below the maximum, then at the end of its class; else nothing changes |
| `FrameQueues.FrameQueue.LowerHint` | meta-rockchip-rv1106/recipes-connectivity/aic8800dc/files/aic8800_fdrv/aicwf_txrxif.c:826-828 | the lazily lowered hint ends at the highest occupied class |
| `FrameQueues.FrameQueue.Dequeue` | meta-rockchip-rv1106/recipes-connectivity/aic8800dc/files/aic8800_fdrv/aicwf_txrxif.c:818-839 | from a non-empty queue the oldest frame of the highest occupied class, from an empty one nothing; every class keeps its FIFO order |
| `FrameQueues.FrameQueue.Drain` | meta-rockchip-rv1106/recipes-connectivity/aic8800dc/files/aic8800_fdrv/aicwf_txrxif.c:818-839 | dequeuing to the end serves every frame once, by class and age |
| `FrameQueues.ServedFirst` | meta-rockchip-rv1106/recipes-connectivity/aic8800dc/files/aic8800_fdrv/aicwf_txrxif.c:818-839 | taking the oldest frame of the highest class takes the first of the priority order |
| `FrameQueues.FrameQueue.IsEmpty` | meta-rockchip-rv1106/recipes-connectivity/aic8800dc/files/aic8800_fdrv/aicwf_txrxif.c:805-816 | summing the classes up to the hint is zero exactly when the count of all classes is |
| `FrameQueues.EmptyTotal` | meta-rockchip-rv1106/recipes-connectivity/aic8800dc/files/aic8800_fdrv/aicwf_txrxif.c:805-816 | the total is zero exactly when all classes are empty |
| `FrameQueues.FrameQueue.PeekTail` | meta-rockchip-rv1106/recipes-connectivity/aic8800dc/files/aic8800_bsp/aicsdio_txrxif.c:388-404 | the newest frame of the lowest occupied class, nothing exactly when the queue is empty |
| `FrameQueues.FrameQueue.DequeueTail` | meta-rockchip-rv1106/recipes-connectivity/aic8800dc/files/aic8800_bsp/aicsdio_txrxif.c:442-452 | the newest frame of a class leaves it and the count |
| `FrameQueues.FrameQueue.EnqDisplacing` | meta-rockchip-rv1106/recipes-connectivity/aic8800dc/files/aic8800_bsp/aicsdio_txrxif.c:454-485 | a full queue admits a frame exactly if a class below its priority is occupied, by replacing the newest frame of the lowest one; the admitted frame joins that class |
| `FrameQueues.FrameQueue.Exchange` | meta-rockchip-rv1106/recipes-connectivity/aic8800dc/files/aic8800_bsp/aicsdio_txrxif.c:476-481 | one frame is dropped and one admitted to the same class, so the count and the hint survive |
| `FrameQueues.FrameQueue.FlushClass` | meta-rockchip-rv1106/recipes-connectivity/aic8800dc/files/aic8800_fdrv/aicwf_txrxif.c:760-769 | the frames of a class are freed oldest first and uncounted one by one |
| `FrameQueues.FrameQueue.FreeOldest` | meta-rockchip-rv1106/recipes-connectivity/aic8800dc/files/aic8800_fdrv/aicwf_txrxif.c:763-768 | one step of the flush keeps count, hint and history consistent |
| `FrameQueues.FrameQueue.Flush` | meta-rockchip-rv1106/recipes-connectivity/aic8800dc/files/aic8800_fdrv/aicwf_txrxif.c:755-770 | every queued frame is freed exactly once, the count is zero, and the hint is left high but harmless |
| `Crc8.Crc8Ponl107` | meta-rockchip-rv1106/recipes-connectivity/aic8800dc/files/aic8800_fdrv/aicwf_sdio.c:3592-3615 | the nested byte and bit loops compute the shift-register CRC of the whole buffer |
| `Crc8.LoopBody` | meta-rockchip-rv1106/recipes-connectivity/aic8800dc/files/aic8800_fdrv/aicwf_sdio.c:3601-3609 | the two conditional subtractions of one bit are one register step |
| `Crc8.DoubleIsTimesTwo` | meta-rockchip-rv1106/recipes-connectivity/aic8800dc/files/aic8800_fdrv/aicwf_sdio.c:3602-3605 | the bitwise doubling is multiplication by two that drops the carry |
| `Crc8.RunLinear` | meta-rockchip-rv1106/recipes-connectivity/aic8800dc/files/aic8800_fdrv/aicwf_sdio.c:3599-3612 | the bit loop is linear over GF(2) in register and message together |
| `Crc8.CrcIsRemainder` | meta-rockchip-rv1106/recipes-connectivity/aic8800dc/files/aic8800_fdrv/aicwf_sdio.c:3592-3615 | message times x^8 plus CRC is a multiple of x^8+x^2+x+1, so the CRC is the remainder of the division |
| `Crc8.CrcOfCoded` | meta-rockchip-rv1106/recipes-connectivity/aic8800dc/files/aic8800_fdrv/aicwf_sdio.c:3592-3615 | a message with one more byte has CRC 0 exactly if that byte is the CRC of the message |
| `Crc8.BurstChangesCrc` | meta-rockchip-rv1106/recipes-connectivity/aic8800dc/files/aic8800_fdrv/aicwf_sdio.c:3592-3615 | a nonzero error within eight consecutive bits changes the CRC, at any position of a message of any length |
| `Crc8.BurstDetected` | meta-rockchip-rv1106/recipes-connectivity/aic8800dc/files/aic8800_fdrv/aicwf_sdio.c:3592-3615 | two byte messages that differ by such a burst never have the same CRC |
| `Crc8.AddedFirst` | meta-rockchip-rv1106/recipes-connectivity/aic8800dc/files/aic8800_fdrv/aicwf_sdio.c:3600-3610 | up to eight message bits act as if added to the register before as many zero bits |
| `Aggregate.AggrBuf.Aggr` | meta-rockchip-rv1106/recipes-connectivity/aic8800dc/files/aic8800_fdrv/aicwf_sdio.c:2344-2406 | header, descriptor, data and padding appended at the tail, and the padded length written back where the chip counts it, extend the layout by exactly this payload; the tail stays a multiple of 4 |
| `Aggregate.HeaderReads` | meta-rockchip-rv1106/recipes-connectivity/aic8800dc/files/aic8800_fdrv/aicwf_sdio.c:2352-2366 | the twelve length bits read back as the padded length on the 8801, 8800DC and 8800DW and the true one on the others, modulo 4096; the type is 1, and the last byte zero or the checksum of the first three, which a reader accepts |
| `Aggregate.OctetBits` | meta-rockchip-rv1106/recipes-connectivity/aic8800dc/files/aic8800_fdrv/aicwf_sdio.c:3592-3615 | the bits under the checksum of a header are the binary digits of its bytes, most significant first |
| `Aggregate.AggrBuf.AppendRecord` | meta-rockchip-rv1106/recipes-connectivity/aic8800dc/files/aic8800_fdrv/aicwf_sdio.c:2368-2384 | the copies add header and payload and then zeros up to the next multiple of 4 |
| `Aggregate.AggrBuf.Rewrite` | meta-rockchip-rv1106/recipes-connectivity/aic8800dc/files/aic8800_fdrv/aicwf_sdio.c:2386-2391 | only the two length bytes of the header change |
| `Aggregate.WriteBack` | meta-rockchip-rv1106/recipes-connectivity/aic8800dc/files/aic8800_fdrv/aicwf_sdio.c:2352-2391 | the rewritten header completes the record of the payload |
| `Aggregate.WalkOneExactly` | meta-rockchip-rv1106/recipes-connectivity/aic8800dc/files/aic8800_fdrv/aicwf_sdio.c:2352-2391 | a payload is recovered from its record exactly if it has at most 4092 bytes on chips that count the padding and 4095 on the others; 4093 to 4095 bytes pad to 4096 and the 12-bit length becomes 0 |
| `Aggregate.WalkLayout` | meta-rockchip-rv1106/recipes-connectivity/aic8800dc/files/aic8800_fdrv/aicwf_sdio.c:2344-2403 | following the 12-bit lengths through the aggregate gives back the payloads in order, up to the padding where it is counted |
| `Aggregate.AggrBuf.AggrSend` | meta-rockchip-rv1106/recipes-connectivity/aic8800dc/files/aic8800_fdrv/aicwf_sdio.c:2443-2461 | what goes to the bus is whole blocks that start with the layout, and a reader recovers exactly the appended payloads although the rest of the buffer is stale |
| `Aggregate.TransferRecovered` | meta-rockchip-rv1106/recipes-connectivity/aic8800dc/files/aic8800_fdrv/aicwf_sdio.c:2447-2461 | the zero word after the last record hides whatever the buffer held before |
| `Aggregate.ZeroWordFits` | meta-rockchip-rv1106/recipes-connectivity/aic8800dc/files/aic8800_fdrv/aicwf_sdio.c:2448-2452 | the zero word never costs another block nor leaves the buffer |
| `Aggregate.AggrBuf.Reset` | meta-rockchip-rv1106/recipes-connectivity/aic8800dc/files/aic8800_fdrv/aicwf_sdio.c:2464-2497 | tail and counter go back to the empty aggregate |
| `TxState.RunOutcome` | meta-rockchip-rv1106/recipes-connectivity/aic8800dc/files/aic8800_fdrv/aicwf_sdio.c:1983-2060 | over any interleaving of enqueues, new commands, failing writes and loss of the bus: when the loop ends with the bus up, what was dequeued was handed over once, in order, and nothing stays in the aggregate; all of it was sent if and only if no write failed; without a pending command it is everything ever accepted; a command waits afterwards only if it waited before and was not sent, or came during the call, and if either was so before the loop, it does |
| `TxState.RunProgress` | meta-rockchip-rv1106/recipes-connectivity/aic8800dc/files/aic8800_fdrv/aicwf_sdio.c:2035-2058 | with credit in every round, a run that has not ended took a frame in at least every other round; without new frames two rounds a frame end it |
| `TxState.CalmCall` | meta-rockchip-rv1106/recipes-connectivity/aic8800dc/files/aic8800_fdrv/aicwf_sdio.c:2001-2058 | left alone, with credit for everything queued and any pending command sent, a call hands over the whole queue in priority order in a single transfer, and ends with nothing queued and no command pending |
| `TxState.OneTransfer` | meta-rockchip-rv1106/recipes-connectivity/aic8800dc/files/aic8800_fdrv/aicwf_sdio.c:2035-2058 | the same for the loop, with what it already held going first |
| `TxState.LifeOutcome` | meta-rockchip-rv1106/recipes-connectivity/aic8800dc/files/aic8800_fdrv/aicwf_sdio.c:1983-2118 | over the life of the driver, any calls of the transmit loop with acts of other threads in between: order, conservation and the reserve hold and the history only grows; while the thread sleeps with the bus up, all that was dequeued was handed over, in order, all of it was sent exactly if no write ever failed, and the rest is still queued |
| `TxState.LifePending` | meta-rockchip-rv1106/recipes-connectivity/aic8800dc/files/aic8800_fdrv/aicwf_sdio.c:1983-2118 | over that life, a command waits while the thread sleeps with the bus up only if no call has sent it since it came |
| `TxScheduler.TxPriv.Live` | meta-rockchip-rv1106/recipes-connectivity/aic8800dc/files/aic8800_fdrv/aicwf_sdio.c:1983-2118 | the fields follow the state machine over that whole life; while the thread sleeps with the bus up and no write has failed, the device has read the payload of every dequeued frame, in order |
| `TxScheduler.TxPriv.TxProcess` | meta-rockchip-rv1106/recipes-connectivity/aic8800dc/files/aic8800_fdrv/aicwf_sdio.c:1983-2060 | the driver's fields follow the state machine over the whole call; when it ends with the bus up and no write failed, the device has read the payload of every dequeued frame, in order, out of the blocks written |
| `TxScheduler.TxPriv.Loop` | meta-rockchip-rv1106/recipes-connectivity/aic8800dc/files/aic8800_fdrv/aicwf_sdio.c:2035-2058 | the loop over the fields makes exactly the rounds of the state machine |
| `TxScheduler.TxPriv.OneRound` | meta-rockchip-rv1106/recipes-connectivity/aic8800dc/files/aic8800_fdrv/aicwf_sdio.c:2036-2057 | one round does to the fields what it does to the state, whatever other threads do at its five points |
| `TxState.RoundMoves` | meta-rockchip-rv1106/recipes-connectivity/aic8800dc/files/aic8800_fdrv/aicwf_sdio.c:2036-2057 | a round takes exactly one frame when there is credit and the bus is up, reads the credit otherwise, hands over at most once, and leaves the loop exactly for a bus that is down or a command, with nothing held back from the command; a command waits after it exactly if it waited or came |
| `TxState.RoundsSound` | meta-rockchip-rv1106/recipes-connectivity/aic8800dc/files/aic8800_fdrv/aicwf_sdio.c:2035-2058 | every run keeps dequeue order, conservation and the reserve of 2; it ends with the bus up only for a command or an empty queue, with nothing held |
| `TxState.RoundsProgress` | meta-rockchip-rv1106/recipes-connectivity/aic8800dc/files/aic8800_fdrv/aicwf_sdio.c:2035-2058 | two rounds with credit that do not end the loop take at least one frame |
| `TxState.RoundsWritten` | meta-rockchip-rv1106/recipes-connectivity/aic8800dc/files/aic8800_fdrv/aicwf_sdio.c:2035-2058 | while the bus stays up a transfer fails only if its write fails |
| `TxState.SentExactly` | meta-rockchip-rv1106/recipes-connectivity/aic8800dc/files/aic8800_fdrv/aicwf_sdio.c:2454-2461 | what reached the bus is what was handed over if and only if no write failed |
| `TxState.FlowCtrl` | meta-rockchip-rv1106/recipes-connectivity/aic8800dc/files/aic8800_fdrv/aicwf_sdio.c:370-411 | there is credit exactly if the register was read, announces more than the reserve of 2 and the limit is positive; then it is the smaller of what is announced and the limit |
| `TxScheduler.TxPriv.constructor` | meta-rockchip-rv1106/recipes-connectivity/aic8800dc/files/aic8800_fdrv/aicwf_sdio.c:1983-2018 | an aggregate buffer dimensioned for the limit starts at rest: no credit, nothing held, nothing counted |
| `TxScheduler.TxPriv.Begin` | meta-rockchip-rv1106/recipes-connectivity/aic8800dc/files/aic8800_fdrv/aicwf_sdio.c:2001-2034 | before the loop a pending command is sent, and a queue that is not empty has its credit read |
| `TxState.BegunSound` | meta-rockchip-rv1106/recipes-connectivity/aic8800dc/files/aic8800_fdrv/aicwf_sdio.c:2001-2034 | that takes and hands over nothing and keeps order and conservation; a command waits then exactly if it waited and was not sent, or came meanwhile; the credit is read exactly if something is queued |
| `TxScheduler.TxPriv.BusTxData` | meta-rockchip-rv1106/recipes-connectivity/aic8800dc/files/aic8800_fdrv/aicwf_sdio.c:2076-2119 | the frame joins the end of the class named by the low three bits of its priority and is counted, every other class stays, or it is refused exactly by a full queue or a bus that is down |
| `TxScheduler.TxPriv.Environment` | meta-rockchip-rv1106/recipes-connectivity/aic8800dc/files/aic8800_fdrv/aicwf_sdio.c:2088-2118 | acts of other threads, in order, move queue, counter, pending command and bus; counter and queue length move together |
| `TxState.AfterFollows` | meta-rockchip-rv1106/recipes-connectivity/aic8800dc/files/aic8800_fdrv/aicwf_sdio.c:2088-2118 | other threads leave aggregate, credit and history alone; frames only join the ends of their classes, and without a new one the queue stays as it is |
| `TxState.AfterJoins` | meta-rockchip-rv1106/recipes-connectivity/aic8800dc/files/aic8800_fdrv/aicwf_sdio.c:2100-2118 | with the bus up and room, the frames offered to each class join it, in order, and no others |
| `TxState.AfterRefuses` | meta-rockchip-rv1106/recipes-connectivity/aic8800dc/files/aic8800_fdrv/aicwf_sdio.c:2088-2112 | with the bus down or the queue full, none does |
| `TxState.SendTakes` | meta-rockchip-rv1106/recipes-connectivity/aic8800dc/files/aic8800_fdrv/aicwf_sdio.c:2173-2270 | a call with credit and a frame queued takes the first frame of the priority order; what is held goes out with it before a command, when it has used up the credit less 2, or with the last frame, and stays otherwise; at rest what stays held has credit and a successor |
| `TxState.SendSound` | meta-rockchip-rv1106/recipes-connectivity/aic8800dc/files/aic8800_fdrv/aicwf_sdio.c:2173-2270 | such a call keeps dequeue order, conservation and the reserve, whatever other threads do inside it |
| `TxScheduler.TxPriv.Send` | meta-rockchip-rv1106/recipes-connectivity/aic8800dc/files/aic8800_fdrv/aicwf_sdio.c:2173-2270 | the call does to the fields what it does to the state; the packet counter agrees with the queue again at its end |
| `TxScheduler.TxPriv.SendNext` | meta-rockchip-rv1106/recipes-connectivity/aic8800dc/files/aic8800_fdrv/aicwf_sdio.c:2219-2268 | dequeue, aggregate, decide, and only then uncount, on the fields |
| `TxScheduler.TxPriv.Conclude` | meta-rockchip-rv1106/recipes-connectivity/aic8800dc/files/aic8800_fdrv/aicwf_sdio.c:2255-2268 | the aggregate goes out with the last counted frame, before a command, or when the credit less the reserve of 2 is used; the counter still counts the frame taken |
| `TxScheduler.TxPriv.Transfer` | meta-rockchip-rv1106/recipes-connectivity/aic8800dc/files/aic8800_fdrv/aicwf_sdio.c:2409-2462 | the held frames are handed over once; if the write succeeds a device reads exactly them from the block, if it fails they are gone; their credit is spent either way |
| `TxState.HandedSound` | meta-rockchip-rv1106/recipes-connectivity/aic8800dc/files/aic8800_fdrv/aicwf_sdio.c:2255-2264 | a transfer within the credit keeps the frames sent since the last credit read at most that credit less 2 |
| `TxScheduler.TxPriv.HoldNext` | meta-rockchip-rv1106/recipes-connectivity/aic8800dc/files/aic8800_fdrv/aicwf_sdio.c:2219-2248 | the frame taken moves from the queue into the aggregate, which has room for it, or the queue was empty |
| `TxState.TakenFirst` | meta-rockchip-rv1106/recipes-connectivity/aic8800dc/files/aic8800_fdrv/aicwf_sdio.c:2219-2220 | the frame taken is the first of the priority order, and what stays queued is the rest of that order |
| `TxState.TakenSound` | meta-rockchip-rv1106/recipes-connectivity/aic8800dc/files/aic8800_fdrv/aicwf_sdio.c:2219-2248 | taking a frame keeps dequeue order, conservation and the credit bound of the history |
| `TxScheduler.TxPriv.ReadCredit` | meta-rockchip-rv1106/recipes-connectivity/aic8800dc/files/aic8800_fdrv/aicwf_sdio.c:2031-2049 | a new credit is read, and counting starts again |
| `HciReassembly.HciDev.RecvAll` | meta-rockchip-rv1106/recipes-connectivity/aic8800dc/files/aic8800_fdrv/aic_btsdio.c:775-792 | for chunks of all packet types in any order, each type delivers and keeps pending what its own chunks give, whatever comes in between: the one-shot parse of its stream, unless an oversize header is complete before the last byte; so a stream of ACL, SCO or event packets that fit is delivered packet by packet, whatever the chunks, and what has begun of the next one stays pending |
| `HciReassembly.HciDev.RecvFragment` | meta-rockchip-rv1106/recipes-connectivity/aic8800dc/files/aic8800_fdrv/aic_btsdio.c:775-792 | one chunk delivers and leaves the one-shot parse of what was pending plus the chunk; an unknown type is refused, an oversize header reported and the rest of the chunk dropped; other types are untouched |
| `HciReassembly.HciDev.RecvPacket` | meta-rockchip-rv1106/recipes-connectivity/aic8800dc/files/aic8800_fdrv/aic_btsdio.c:780-789 | one turn of its loop takes one packet further in that parse, or ends it |
| `HciReassembly.HciDev.Reassembly` | meta-rockchip-rv1106/recipes-connectivity/aic8800dc/files/aic8800_fdrv/aic_btsdio.c:658-773 | consumes at least one byte; ends at the first complete packet, which is delivered whole, at an oversize header, or at the end of the data |
| `HciReassembly.ParseInverts` | meta-rockchip-rv1106/recipes-connectivity/aic8800dc/files/aic8800_fdrv/aic_btsdio.c:658-792 | parsing inverts writing: packets written with their length in the two low-order-first bytes of an ACL header, the third byte of an SCO header or the second of an event header come out whole and in order, with what has begun of the next one left |
| `HciReassembly.RefusedExactly` | meta-rockchip-rv1106/recipes-connectivity/aic8800dc/files/aic8800_fdrv/aic_btsdio.c:668-738 | a written packet is refused exactly if it is longer than 1028 (ACL), 255 (SCO) or 260 (event) bytes and the slack of the buffer |
| `HciReassembly.Feed` | meta-rockchip-rv1106/recipes-connectivity/aic8800dc/files/aic8800_fdrv/aic_btsdio.c:703-753 | one copy takes no more than is wanted; a header that becomes complete sets what is wanted and is checked against the room left |
| `HciReassembly.OneShotConcat` | meta-rockchip-rv1106/recipes-connectivity/aic8800dc/files/aic8800_fdrv/aic_btsdio.c:658-792 | a parse may stop after any prefix and go on with what was left of it |
| `HciReassembly.RestIncomplete` | meta-rockchip-rv1106/recipes-connectivity/aic8800dc/files/aic8800_fdrv/aic_btsdio.c:658-792 | what stays pending never holds a complete packet |
| `HciReassembly.ChunksMatterExactly` | meta-rockchip-rv1106/recipes-connectivity/aic8800dc/files/aic8800_fdrv/aic_btsdio.c:728-792 | every way of cutting a stream gives the same packets and the same rest if and only if no oversize header is complete before its last byte |
| `HciReassembly.OversizeWitness` | meta-rockchip-rv1106/recipes-connectivity/aic8800dc/files/aic8800_fdrv/aic_btsdio.c:728-738 | such a stream: an ACL header that declares 65535 bytes, and one byte more |
| `HciReassembly.FedWhole` | meta-rockchip-rv1106/recipes-connectivity/aic8800dc/files/aic8800_fdrv/aic_btsdio.c:775-792 | if so, parsing chunk by chunk, each behind what the one before it left, is parsing the whole stream |
| `HciReassembly.CutOffLast` | meta-rockchip-rv1106/recipes-connectivity/aic8800dc/files/aic8800_fdrv/aic_btsdio.c:728-738 | otherwise the last byte, cut off, stays pending, while in one chunk it is thrown away |
| `HciReassembly.HeaderKept` | meta-rockchip-rv1106/recipes-connectivity/aic8800dc/files/aic8800_fdrv/aic_btsdio.c:714-753 | bytes behind a complete header do not change what is still wanted |
| `HciReassembly.HciDev.RecvNext` | meta-rockchip-rv1106/recipes-connectivity/aic8800dc/files/aic8800_fdrv/aic_btsdio.c:775-792 | one more chunk keeps every type at what its own chunks give |
| `BtRing.Ring.Run` | meta-rockchip-rv1106/recipes-connectivity/aic8800dc/files/aic8800_fdrv/aic_btsdio.c:331-428 | over any calls, ring and log hold what the call-by-call definition says; while no copy fails and nothing is cleared, bytes received followed by bytes queued are the bytes accepted: nothing lost, repeated or reordered |
| `BtRing.Ring.constructor` | meta-rockchip-rv1106/recipes-connectivity/aic8800dc/files/aic8800_fdrv/aic_btsdio.c:331-352 | an empty ring |
| `BtRing.Ring.Enqueue` | meta-rockchip-rv1106/recipes-connectivity/aic8800dc/files/aic8800_fdrv/aic_btsdio.c:331-352 | refused exactly when 499 packets are queued, else appended to the FIFO |
| `BtRing.Ring.DequeueTry` | meta-rockchip-rv1106/recipes-connectivity/aic8800dc/files/aic8800_fdrv/aic_btsdio.c:354-385 | the head packet if it fits, else a copy of it while the head loses its first bytes, also when the copy could not be made; nothing from an empty ring |
| `BtRing.Ring.Take` | meta-rockchip-rv1106/recipes-connectivity/aic8800dc/files/aic8800_fdrv/aic_btsdio.c:903-914 | the bytes that leave are the next of the accepted stream, received unless the copy or the write to the reader fails |
| `BtRing.Ring.Attempt` | meta-rockchip-rv1106/recipes-connectivity/aic8800dc/files/aic8800_fdrv/aic_btsdio.c:903-914 | a woken reader gets the next bytes of the head packet, or an error if they cannot be written; a failed copy or an empty ring sends it back to wait |
| `BtRing.Ring.Wait` | meta-rockchip-rv1106/recipes-connectivity/aic8800dc/files/aic8800_fdrv/aic_btsdio.c:881-915 | over any packets, signals and wake-ups the waiting reader returns, leaves in the ring and loses exactly what the event-by-event definition says |
| `BtRing.Ring.Read` | meta-rockchip-rv1106/recipes-connectivity/aic8800dc/files/aic8800_fdrv/aic_btsdio.c:875-918 | the same for a read of any size; at most the last bytes that leave the ring reach the reader, and then they are what it returns, at most count; without failures they are those of the packet at the head |
| `BtRing.ReadingDelivers` | meta-rockchip-rv1106/recipes-connectivity/aic8800dc/files/aic8800_fdrv/aic_btsdio.c:881-915 | every outcome of that definition delivers in that way |
| `BtRing.ReadingOldest` | meta-rockchip-rv1106/recipes-connectivity/aic8800dc/files/aic8800_fdrv/aic_btsdio.c:881-915 | a reader that is not interrupted and is woken with something queued, before or while it waited, gets the front of the oldest packet |
| `BtRing.ReadingConserves` | meta-rockchip-rv1106/recipes-connectivity/aic8800dc/files/aic8800_fdrv/aic_btsdio.c:331-385 | while there is room, what was queued and what arrived until the read ended is what left and what is queued, byte by byte |
| `BtRing.AllInOrder` | meta-rockchip-rv1106/recipes-connectivity/aic8800dc/files/aic8800_fdrv/aic_btsdio.c:331-408 | while there is room, the bytes that left over any calls and those still queued are those of the packets queued, in order |
| `BtRing.Ring.Clear` | meta-rockchip-rv1106/recipes-connectivity/aic8800dc/files/aic8800_fdrv/aic_btsdio.c:392-408 | the ring ends empty and everything that was queued is accounted as dropped |
| `BtRing.Ring.QueueCnt` | meta-rockchip-rv1106/recipes-connectivity/aic8800dc/files/aic8800_fdrv/aic_btsdio.c:410-428 | the computed count is the length of the FIFO, wrapped or not |
| `BtRing.LivePush` | meta-rockchip-rv1106/recipes-connectivity/aic8800dc/files/aic8800_fdrv/aic_btsdio.c:345-348 | storing at the rear and moving it round the end appends to the FIFO |
| `BtRing.LivePop` | meta-rockchip-rv1106/recipes-connectivity/aic8800dc/files/aic8800_fdrv/aic_btsdio.c:367-370 | moving the front round the end takes the head off the FIFO |
| `BtRing.CutWithout` | meta-rockchip-rv1106/recipes-connectivity/aic8800dc/files/aic8800_fdrv/aic_btsdio.c:367-384 | the bytes cut from the head and what stays queued are together what was queued |
| `BtRing.NothingFailed` | meta-rockchip-rv1106/recipes-connectivity/aic8800dc/files/aic8800_fdrv/aic_btsdio.c:875-918 | the reader got every byte that left exactly when only empty chunks failed |
| `BtRing.FailedCopyLosesBytes` | meta-rockchip-rv1106/recipes-connectivity/aic8800dc/files/aic8800_fdrv/aic_btsdio.c:379-383 | a concrete run: a read of 2 bytes from a packet 1, 2, 3 whose copy fails, and which wakes again, returns byte 3 |
| `TcpAck.Manager.constructor` | meta-rockchip-rv1106/recipes-connectivity/aic8800dc/files/aic8800_fdrv/aicwf_tcp_ack.c:62-93 | 32 idle slots that hold and send nothing, no timer, enabled, nothing counted, slot 0 noted as free |
| `TcpAck.Manager.FilterSend` | meta-rockchip-rv1106/recipes-connectivity/aic8800dc/files/aic8800_fdrv/aicwf_tcp_ack.c:522-590 | false leaves the message with the caller, true means held or freed; the slots silent for more ticks than the timeout are dropped when a sweep is due, and no others; a slot that serves the flow and is not dropped goes on by the release rule, a new flow takes the slot noted as free or another idle one and passes, only when all 32 serve other flows is there none, and no other slot and no other fate changes |
| `TcpAck.Manager.Filter` | meta-rockchip-rv1106/recipes-connectivity/aic8800dc/files/aic8800_fdrv/aicwf_tcp_ack.c:542-589 | the same once old flows are gone |
| `TcpAck.Manager.Sift` | meta-rockchip-rv1106/recipes-connectivity/aic8800dc/files/aic8800_fdrv/aicwf_tcp_ack.c:542-589 | with it, the fate of the message is decided, and the slot that served the flow before serves it after |
| `TcpAck.Manager.Known` | meta-rockchip-rv1106/recipes-connectivity/aic8800dc/files/aic8800_fdrv/aicwf_tcp_ack.c:551-561 | an acknowledgement of a served flow is handled if the filter is enabled and passes otherwise |
| `TcpAck.Manager.Serve` | meta-rockchip-rv1106/recipes-connectivity/aic8800dc/files/aic8800_fdrv/aicwf_tcp_ack.c:543-564 | the same after its window scale was noted |
| `TcpAck.Manager.Claim` | meta-rockchip-rv1106/recipes-connectivity/aic8800dc/files/aic8800_fdrv/aicwf_tcp_ack.c:566-586 | an idle slot takes the flow with its 4-tuple and number, a full drop count and no push; it keeps the message its last flow may have left, and fails only if all are busy |
| `TcpAck.Manager.HandleNew` | meta-rockchip-rv1106/recipes-connectivity/aic8800dc/files/aic8800_fdrv/aicwf_tcp_ack.c:424-497 | the slot changes as told by the release rule; the message dropped is freed and no other one is; uniqueness, counts, ownership and the newest number survive |
| `TcpAck.HeldThenFreed` | meta-rockchip-rv1106/recipes-connectivity/aic8800dc/files/aic8800_fdrv/aicwf_tcp_ack.c:439-441 | a held message is freed unsent exactly when the slot accepts an acknowledgement: as stale exactly if the slot inherited it from an earlier flow, else as superseded by that acknowledgement |
| `TcpAck.InheritedIsLost` | meta-rockchip-rv1106/recipes-connectivity/aic8800dc/files/aic8800_fdrv/aicwf_tcp_ack.c:439-586 | a concrete run from an empty filter: the third acknowledgement of a flow is held behind the second, its timer fires for nothing, another flow takes the slot, and the next acknowledgement of that flow frees it unsent, though its own flow sent nothing newer |
| `TcpAck.SettledFrees` | meta-rockchip-rv1106/recipes-connectivity/aic8800dc/files/aic8800_fdrv/aicwf_tcp_ack.c:439-494 | the messages freed by one handled acknowledgement are those the code drops |
| `TcpAck.HandledGood` | meta-rockchip-rv1106/recipes-connectivity/aic8800dc/files/aic8800_fdrv/aicwf_tcp_ack.c:439-494 | one handled acknowledgement keeps counts, uniqueness, ownership, the newest number of every flow and the record of inherited messages |
| `TcpAck.ClaimedGood` | meta-rockchip-rv1106/recipes-connectivity/aic8800dc/files/aic8800_fdrv/aicwf_tcp_ack.c:566-586 | so does giving an idle slot to a new flow, which records the message the slot still holds |
| `TcpAck.Accept` | meta-rockchip-rv1106/recipes-connectivity/aic8800dc/files/aic8800_fdrv/aicwf_tcp_ack.c:436-477 | accepted when not before the recorded number; released when past a push or when nothing is being sent and the drop count reaches the limit, else held with a timer; otherwise the new message is dropped |
| `TcpAck.HandledOwned` | meta-rockchip-rv1106/recipes-connectivity/aic8800dc/files/aic8800_fdrv/aicwf_tcp_ack.c:439-494 | each message is in one place: passed, held by one slot, or freed once, and freed only for a number at or past its own |
| `TcpAck.HandledServed` | meta-rockchip-rv1106/recipes-connectivity/aic8800dc/files/aic8800_fdrv/aicwf_tcp_ack.c:439-469 | the recorded number stays that of the held message or of the last one transmitted, and the drop count that of the messages withheld |
| `TcpAck.WithheldInARow` | meta-rockchip-rv1106/recipes-connectivity/aic8800dc/files/aic8800_fdrv/aicwf_tcp_ack.c:446-469 | with nothing being sent, fewer than the limit are withheld in a row |
| `TcpAck.Manager.NewestNotLost` | meta-rockchip-rv1106/recipes-connectivity/aic8800dc/files/aic8800_fdrv/aicwf_tcp_ack.c:424-497 | while a slot serves a flow whose numbers span less than half the circle, a message with the newest of them is held by the slot or was transmitted |
| `TcpAck.LatestIsNewest` | meta-rockchip-rv1106/recipes-connectivity/aic8800dc/files/aic8800_fdrv/aicwf_tcp_ack.h:17 | folding serial comparison over such numbers yields their maximum |
| `TcpAck.BeforeEitherWay` | meta-rockchip-rv1106/recipes-connectivity/aic8800dc/files/aic8800_fdrv/aicwf_tcp_ack.h:17 | the comparison is total, and holds both ways exactly for equal numbers and numbers half the circle apart |
| `TcpAck.BeforeInWindow` | meta-rockchip-rv1106/recipes-connectivity/aic8800dc/files/aic8800_fdrv/aicwf_tcp_ack.h:17 | within half the circle it is the order of the distances from its start |
| `TcpAck.Manager.Match` | meta-rockchip-rv1106/recipes-connectivity/aic8800dc/files/aic8800_fdrv/aicwf_tcp_ack.c:252-275 | the index of the busy slot with this 4-tuple, or none exists |
| `TcpAck.Manager.Update` | meta-rockchip-rv1106/recipes-connectivity/aic8800dc/files/aic8800_fdrv/aicwf_tcp_ack.c:277-299 | when more ticks than the timeout, but at most half the circle more, have gone by since the last sweep, exactly the busy slots silent for as long become idle, and nothing else of them changes; the lowest of them is noted as free; otherwise every slot stays |
| `TcpAck.OverdueExactly` | meta-rockchip-rv1106/recipes-connectivity/aic8800dc/files/aic8800_fdrv/aicwf_tcp_ack.c:282-290 | the comparison of jiffies with a wrapped sum says exactly that, in elapsed ticks round the circle |
| `TcpAck.Manager.AllocIndex` | meta-rockchip-rv1106/recipes-connectivity/aic8800dc/files/aic8800_fdrv/aicwf_tcp_ack.c:302-337 | no index exactly if all 32 slots are busy, otherwise an idle slot, through the noted one or the scan |
| `TcpAck.AllBusy` | meta-rockchip-rv1106/recipes-connectivity/aic8800dc/files/aic8800_fdrv/aicwf_tcp_ack.c:309-312 | the busy count is 32 exactly when every slot is busy |
| `TcpAck.Manager.FilterRx` | meta-rockchip-rv1106/recipes-connectivity/aic8800dc/files/aic8800_fdrv/aicwf_tcp_ack.c:499-520 | an enabled filter notes the push on the slot of that flow and on no other |
| `TcpAck.Manager.ReleasedPastPush` | meta-rockchip-rv1106/recipes-connectivity/aic8800dc/files/aic8800_fdrv/aicwf_tcp_ack.c:446-468 | after a push was noted, the first accepted acknowledgement that goes past it is released, whatever that slot heard in between |
| `TcpAck.StillAwaited` | meta-rockchip-rv1106/recipes-connectivity/aic8800dc/files/aic8800_fdrv/aicwf_tcp_ack.c:446-520 | a push stays awaited until the next push or an accepted acknowledgement past it |
| `TcpAck.Manager.Timeout` | meta-rockchip-rv1106/recipes-connectivity/aic8800dc/files/aic8800_fdrv/aicwf_tcp_ack.c:26-60 | the held message is sent once, unless the slot is idle or a message is still being sent: then it stays without a timer |
| `TcpAck.Manager.SendHeld` | meta-rockchip-rv1106/recipes-connectivity/aic8800dc/files/aic8800_fdrv/aicwf_tcp_ack.c:46-53 | sending from the timer keeps the newest number safe and restarts the drop count |
| `TcpAck.Manager.MoveMsg` | meta-rockchip-rv1106/recipes-connectivity/aic8800dc/files/aic8800_fdrv/aicwf_tcp_ack.c:592-611 | exactly the busy slots that were sending this message forget it |
| `TcpAck.Manager.Deinit` | meta-rockchip-rv1106/recipes-connectivity/aic8800dc/files/aic8800_fdrv/aicwf_tcp_ack.c:95-116 | every held message is freed, none is held any more, the fates of all others stand |
| `TcpAck.Manager.Run` | meta-rockchip-rv1106/recipes-connectivity/aic8800dc/files/aic8800_fdrv/aicwf_tcp_ack.c:26-116 | over any interleaving of send, receive, timer, transmit completion and shutdown each message has one fate, final once it is not held; after shutdown none is held; a message is freed as stale only if a slot still held it when it was given to another flow |
| `TcpAck.Manager.Step` | meta-rockchip-rv1106/recipes-connectivity/aic8800dc/files/aic8800_fdrv/aicwf_tcp_ack.c:499-611 | each call keeps all invariants and adds only the message it was offered; a push is noted, an expired timer sends what may go, a finished transmission is forgotten, a shutdown holds nothing |
| `Nat25.Table.Run` | meta-rockchip-rv1106/recipes-connectivity/aic8800dc/files/aic8800_fdrv/aic_br_ext.c:412-679 | any calls, packets that use the shortcut included, leave table and shortcut with what the map-level history says |
| `Nat25.FoundAsInserted` | meta-rockchip-rv1106/recipes-connectivity/aic8800dc/files/aic8800_fdrv/aic_br_ext.c:412-505 | an address found has the MAC address last inserted for it, whatever happened in between |
| `Nat25.AgedSinceHeard` | meta-rockchip-rv1106/recipes-connectivity/aic8800dc/files/aic8800_fdrv/aic_br_ext.c:467-505 | it carries the time of its last insertion, or of the last packet that refreshed it |
| `Nat25.FreshUntilAged` | meta-rockchip-rv1106/recipes-connectivity/aic8800dc/files/aic8800_fdrv/aic_br_ext.c:129-145 | so until an ageing time has passed since then, a lookup finds it unexpired and with that MAC address |
| `Nat25.EachByItself` | meta-rockchip-rv1106/recipes-connectivity/aic8800dc/files/aic8800_fdrv/aic_br_ext.c:412-679 | the table holds for every address exactly what its own requests say: inserted with one use, renewed with MAC and time, one use more a lookup that finds it fresh, one less a pass that finds it stale in elapsed ticks, gone with the last |
| `Nat25.Replay` | meta-rockchip-rv1106/recipes-connectivity/aic8800dc/files/aic8800_fdrv/rwnx_tx.c:1144-1188 | after any history the shortcut, if set, names an entry of the table, the one for the IP address it has stored |
| `Nat25.AgesOut` | meta-rockchip-rv1106/recipes-connectivity/aic8800dc/files/aic8800_fdrv/aic_br_ext.c:592-679 | an entry left alone survives as many passes that find it expired as it has uses, less one, and then goes |
| `Nat25.ExpiredExactly` | meta-rockchip-rv1106/recipes-connectivity/aic8800dc/files/aic8800_fdrv/aic_br_ext.c:129-145 | an entry counts as expired exactly if it was set at least an ageing time ago and less than half the tick circle longer; from then on it counts as fresh, until the circle closes |
| `Nat25.Table.constructor` | meta-rockchip-rv1106/recipes-connectivity/aic8800dc/files/aic8800_fdrv/aic_br_ext.c:565-590 | empty buckets, an empty map, no shortcut |
| `Nat25.HashLink` | meta-rockchip-rv1106/recipes-connectivity/aic8800dc/files/aic8800_fdrv/aic_br_ext.c:380-395 | the entry becomes the head of its chain, linked both ways; other buckets are untouched |
| `Nat25.HashUnlink` | meta-rockchip-rv1106/recipes-connectivity/aic8800dc/files/aic8800_fdrv/aic_br_ext.c:397-410 | the chain without the entry is linked both ways, through the stored back pointer, and the entry's own links are cleared |
| `Nat25.Table.Link` | meta-rockchip-rv1106/recipes-connectivity/aic8800dc/files/aic8800_fdrv/aic_br_ext.c:380-395 | linking an entry for a new address keeps buckets acyclic, disjoint, consistent and keyed by their hash, and extends the map |
| `Nat25.Table.Unlink` | meta-rockchip-rv1106/recipes-connectivity/aic8800dc/files/aic8800_fdrv/aic_br_ext.c:397-410 | unlinking keeps all that and removes exactly this address from the map |
| `Nat25.FindIn` | meta-rockchip-rv1106/recipes-connectivity/aic8800dc/files/aic8800_fdrv/aic_br_ext.c:419-461 | the walk finds the entry of the chain with this address or none has it |
| `Nat25.Table.Find` | meta-rockchip-rv1106/recipes-connectivity/aic8800dc/files/aic8800_fdrv/aic_br_ext.c:1720-1734 | the entry of the address exactly if the map has one |
| `Nat25.Table.LookupAndReplace` | meta-rockchip-rv1106/recipes-connectivity/aic8800dc/files/aic8800_fdrv/aic_br_ext.c:412-465 | 1 exactly for a known address; an unexpired one has its MAC written over the destination, the rest of the frame kept, and a use counted; an expired one changes nothing |
| `Nat25.Table.Insert` | meta-rockchip-rv1106/recipes-connectivity/aic8800dc/files/aic8800_fdrv/aic_br_ext.c:467-505 | a known address has MAC and time replaced and keeps its uses; a new one enters with this MAC, this time and one use if memory allows |
| `Nat25.Table.Expire` | meta-rockchip-rv1106/recipes-connectivity/aic8800dc/files/aic8800_fdrv/aic_br_ext.c:592-679 | every expired entry loses one use and goes with its last, every other one stays as it is; the shortcut goes with its entry |
| `Nat25.Table.ExpireBucket` | meta-rockchip-rv1106/recipes-connectivity/aic8800dc/files/aic8800_fdrv/aic_br_ext.c:599-675 | the same in one bucket, although entries are unlinked during the walk |
| `Nat25.Table.AgeEntry` | meta-rockchip-rv1106/recipes-connectivity/aic8800dc/files/aic8800_fdrv/aic_br_ext.c:607-671 | one entry ages and, when it goes, the shortcut to it is cleared first |
| `Nat25.Table.Drop` | meta-rockchip-rv1106/recipes-connectivity/aic8800dc/files/aic8800_fdrv/aic_br_ext.c:661-669 | an entry that goes is out of the map, and the shortcut is cleared exactly if it named this entry |
| `Nat25.Table.Cleanup` | meta-rockchip-rv1106/recipes-connectivity/aic8800dc/files/aic8800_fdrv/aic_br_ext.c:565-590 | every bucket pointer is null, the map empty, the shortcut unset |
| `Nat25.Table.CleanBucket` | meta-rockchip-rv1106/recipes-connectivity/aic8800dc/files/aic8800_fdrv/aic_br_ext.c:570-586 | a bucket is emptied from its head and no other bucket changes |
| `Nat25.Table.Shortcut` | meta-rockchip-rv1106/recipes-connectivity/aic8800dc/files/aic8800_fdrv/rwnx_tx.c:1144-1188 | a packet refreshes the entry the shortcut names, found again when the sender changes; a sender that is not found unsets the entry and keeps the stored addresses, a known one without an entry clears them |
| `Nat25.BitAndBound` | meta-rockchip-rv1106/recipes-connectivity/aic8800dc/files/aic8800_fdrv/aic_br_ext.c:330 | a masked value does not exceed its mask, so hashes name buckets |
| `Nat25.HashIsParity` | meta-rockchip-rv1106/recipes-connectivity/aic8800dc/files/aic8800_fdrv/aic_br_ext.c:322-378 | each of the four digits of a hash is the parity of that digit over the bytes that count for the kind of address |
| `Nat25.Ipv4Keys` | meta-rockchip-rv1106/recipes-connectivity/aic8800dc/files/aic8800_fdrv/aic_br_ext.c:147-155 | the key of an IPv4 address holds it in bytes 7 to 10, and different addresses have different keys |
| `DhcpChecksum.DhcpFlagBcast` | meta-rockchip-rv1106/recipes-connectivity/aic8800dc/files/aic8800_fdrv/aic_br_ext.c:1649-1708 | a DHCP request without the flag has it set and its checksum field take up the new flags word; no other byte and no other frame changes |
| `DhcpChecksum.AppliesExactly` | meta-rockchip-rv1106/recipes-connectivity/aic8800dc/files/aic8800_fdrv/aic_br_ext.c:1649-1683 | a frame written from its fields is changed exactly if it is IP, UDP, from port 68 to port 67, has the cookie 63825363 and the top flag bit clear, whatever the length of the IP header |
| `DhcpChecksum.Fold` | meta-rockchip-rv1106/recipes-connectivity/aic8800dc/files/aic8800_fdrv/aic_br_ext.c:1692-1699 | the carry loop ends with the same residue modulo 2^16-1 in 16 bits, zero only for zero |
| `DhcpChecksum.ChecksumKept` | meta-rockchip-rv1106/recipes-connectivity/aic8800dc/files/aic8800_fdrv/aic_br_ext.c:1688-1700 | a datagram of any length that verified still does exactly if its flags field was all zero (section 3 of RFC 1624 with the flags of section 2 of RFC 2131) |
| `DhcpChecksum.ChecksumLost` | meta-rockchip-rv1106/recipes-connectivity/aic8800dc/files/aic8800_fdrv/aic_br_ext.c:1692-1700 | the new field is zero, which means no checksum, exactly if the old one equals the new flags word modulo all ones |
| `DhcpChecksum.AcceptedExactly` | meta-rockchip-rv1106/recipes-connectivity/aic8800dc/files/aic8800_fdrv/aic_br_ext.c:1688-1700 | a receiver that takes a zero field for no checksum accepts the new datagram exactly if the old field equalled the new flags word modulo all ones or the datagram verified had its flags been zero; a zero field with zero flags becomes 65407, a checksum never computed |
| `DhcpChecksum.OrderIrrelevant` | meta-rockchip-rv1106/recipes-connectivity/aic8800dc/files/aic8800_fdrv/aic_br_ext.c:1692-1700 | words may be added in processor byte order: the datagram verifies in network order exactly if that sum is zero |
| `DhcpChecksum.OneWord` | meta-rockchip-rv1106/recipes-connectivity/aic8800dc/files/aic8800_fdrv/aic_br_ext.c:1689-1700 | replacing one aligned word changes the sum of a datagram of any length by the difference |
| `RxDeframe.WalkInvertsLayout` | meta-rockchip-rv1106/recipes-connectivity/aic8800dc/files/aic8800_fdrv/aicwf_txrxif.c:326-399 | the loop's records are those laid out, in order, whatever the padding holds, up to the end or a zero length |
| `RxDeframe.AdvanceExactly` | meta-rockchip-rv1106/recipes-connectivity/aic8800dc/files/aic8800_fdrv/aicwf_txrxif.c:332-356 | the pointer passes the padded record exactly for data lengths up to 65472 and configuration lengths up to 65532; it does not move at all exactly for data lengths 65473 to 65476 |
| `RxDeframe.Adjust` | meta-rockchip-rv1106/recipes-connectivity/aic8800dc/files/aic8800_fdrv/aicwf_txrxif.c:334-338 | rounding only when needed is rounding, cut to 16 bits |
| `RxDeframe.ProcessBuffer` | meta-rockchip-rv1106/recipes-connectivity/aic8800dc/files/aic8800_fdrv/aicwf_txrxif.c:326-399 | one buffer hands on exactly its records, skipping data without memory and stopping at a message without memory |
| `RxDeframe.HandleRecord` | meta-rockchip-rv1106/recipes-connectivity/aic8800dc/files/aic8800_fdrv/aicwf_txrxif.c:327-397 | one record goes to the network or by its type to its handler, and the pointer moves to the next record |
| `RxDeframe.AnotherPtk` | meta-rockchip-rv1106/recipes-connectivity/aic8800dc/files/aic8800_fdrv/aicwf_txrxif.c:260-277 | another record exactly if one is left before the end and the zero length |
| `RxDeframe.EverythingDelivered` | meta-rockchip-rv1106/recipes-connectivity/aic8800dc/files/aic8800_fdrv/aicwf_txrxif.c:314-404 | with memory all records of all buffers are delivered in order |
| `RxDeframe.SentIsDelivered` | meta-rockchip-rv1106/recipes-connectivity/aic8800dc/files/aic8800_fdrv/aicwf_txrxif.c:314-404 | with memory, what the firmware put into the buffers, however padded and spread, is delivered in order: frames to the network, messages 0x11 (while the bus is up), 0x12 and 0x13 to their handlers, others to none |
| `RxDeframe.OneDelivered` | meta-rockchip-rv1106/recipes-connectivity/aic8800dc/files/aic8800_fdrv/aicwf_txrxif.c:340-397 | one frame or message, as it is written, is a record that goes to whom it is for |
| `RxDeframe.ParsedAsSent` | meta-rockchip-rv1106/recipes-connectivity/aic8800dc/files/aic8800_fdrv/aicwf_txrxif.c:326-399 | buffers filled by a sender, each to its end or up to a zero length, parse to its records |
| `RxDeframe.FailsExactly` | meta-rockchip-rv1106/recipes-connectivity/aic8800dc/files/aic8800_fdrv/aicwf_txrxif.c:340-372 | the processing of a buffer ends early if and only if the allocation for one of its configuration records fails; failures for data records never end it |
| `RxDeframe.BatchExactly` | meta-rockchip-rv1106/recipes-connectivity/aic8800dc/files/aic8800_fdrv/aicwf_txrxif.c:314-404 | the same over all buffers; what is handed on does not depend on how the records are spread over buffers |
| `RxDeframe.LeftExactly` | meta-rockchip-rv1106/recipes-connectivity/aic8800dc/files/aic8800_fdrv/aicwf_txrxif.c:314-404 | the buffer given up is the one that holds the first configuration record without memory: nothing fails in those before it, and those behind it stay queued |
| `RxDeframe.EnoughMemory` | meta-rockchip-rv1106/recipes-connectivity/aic8800dc/files/aic8800_fdrv/aicwf_txrxif.c:340-372 | without failed allocations the outcome is the full list |
| `RxDeframe.RxPriv.ProcessRxFrames` | meta-rockchip-rv1106/recipes-connectivity/aic8800dc/files/aic8800_fdrv/aicwf_txrxif.c:298-404 | the queued buffers are handled in order; it fails if and only if the allocation for some configuration record fails, and then the rest stays queued and the buffer given up stays counted |
| `CmdManager.CmdMgr.constructor` | meta-rockchip-rv1106/recipes-connectivity/aic8800dc/files/aic8800_bsp/aic_bsp_driver.c:230-251 | an empty list of at most 8 commands |
| `CmdManager.CmdMgr.Queue` | meta-rockchip-rv1106/recipes-connectivity/aic8800dc/files/aic8800_bsp/aic_bsp_driver.c:63-106 | refused after a crash or by a full list, else appended with the next token and never deferred |
| `CmdManager.CmdMgr.Admit` | meta-rockchip-rv1106/recipes-connectivity/aic8800dc/files/aic8800_bsp/aic_bsp_driver.c:95-105 | the admitted command waits, with its token, at the end of the list |
| `CmdManager.CmdMgr.MsgInd` | meta-rockchip-rv1106/recipes-connectivity/aic8800dc/files/aic8800_bsp/aic_bsp_driver.c:162-203 | the oldest listed command with the request id of the message that waits for confirmation and whose callback accepts it leaves the list, completed and with its answer cut to 1024 bytes; without one nothing changes |
| `CmdManager.CmdMgr.Confirm` | meta-rockchip-rv1106/recipes-connectivity/aic8800dc/files/aic8800_bsp/aic_bsp_driver.c:173-193 | confirmation takes the command off the list and completes it |
| `CmdManager.CmdMgr.Complete` | meta-rockchip-rv1106/recipes-connectivity/aic8800dc/files/aic8800_bsp/aic_bsp_driver.c:44-61 | off the list and done; completed with result 0 only if it blocks and waits for nothing more |
| `CmdManager.CmdMgr.TimedOut` | meta-rockchip-rv1106/recipes-connectivity/aic8800dc/files/aic8800_bsp/aic_bsp_driver.c:124-135 | the manager is crashed; the command leaves the list unless a confirmation has already taken it off, which the done flag tells |
| `CmdManager.CmdMgr.Woken` | meta-rockchip-rv1106/recipes-connectivity/aic8800dc/files/aic8800_bsp/aic_bsp_driver.c:136-138 | a woken caller finds its command off the list with result 0 |
| `CmdManager.CmdMgr.Drain` | meta-rockchip-rv1106/recipes-connectivity/aic8800dc/files/aic8800_bsp/aic_bsp_driver.c:216-228 | every command still listed leaves in order and blocked callers are let go |
| `CmdManager.CmdMgr.Step` | meta-rockchip-rv1106/recipes-connectivity/aic8800dc/files/aic8800_bsp/aic_bsp_driver.c:44-203 | every step of every party keeps: size equal to the list length and bounded, each command off the list at most once, the list in queueing order, tokens consecutive, nothing queued after a crash; a new command is queued exactly if there is room and no crash, a message takes one command off exactly if one waits for it, a timeout crashes the manager, a wake-up lets the caller go |
| `CmdManager.CmdMgr.Run` | meta-rockchip-rv1106/recipes-connectivity/aic8800dc/files/aic8800_bsp/aic_bsp_driver.c:44-203 | over any interleaving of new commands, messages, timeouts and wake-ups nothing queued is forgotten; a blocking caller that has returned has its command done and off the list, and confirmed with result 0 unless the manager crashed |
| `CmdManager.WithoutOneMore` | meta-rockchip-rv1106/recipes-connectivity/aic8800dc/files/aic8800_bsp/aic_bsp_driver.c:49-50 | taking one command off leaves all others in order |

## Left out

* Register access, interrupts, threads, power states, netlink, sysfs and file loading are not part of this model; credits,
  timers, completions and the state of the bus are steps of the environment.
* The scatter-gather branches under `CONFIG_SDIO_ADMA`, the USB backend, the loader's copy of the aggregator and the
  second copy of `md5.c` in the WiFi driver.
- Aggregate.AggrBuf.Aggr: frames are taken to fit the buffer, which the dimensions of `TxScheduler` guarantee; the freeing
  of the frame's header memory is not modelled.
- TxScheduler.TxPriv.TxProcess: the loop runs for as many rounds as its script has; that firmware eventually grants credit is
  not assumed, so that the loop ends is claimed only for rounds with credit. Interrupted semaphores and the network flow
  control marks are left out. Thread switches happen at the points named in a `Turn`.
- HciReassembly.HciDev.Reassembly: a failed allocation of the packet buffer is not modelled; the spare room a buffer may have
  is a constant of the device.
- BtRing.Ring.Read: packets are values, so a packet that a producer changed after queueing it is not seen; waiting is a
  script of events, and a read still waiting at its end returns nothing.
- TcpAck.Manager.FilterSend: header and option parsing is an input, because the option loop need not terminate; the window
  test is left out since `tcp_ack_handle_new` ignores its outcome. `tcp_ack_handle` has no caller.
- TcpAck.Manager.Step: each call is one step; seqlock retries, and calls that overlap between finding a slot and filling it,
  are not modelled. Freed buffers are not reused as identities.
- Nat25.Table.Run: keys are given; building them from IPv6, IPX, AppleTalk and PPPoE packets, and the PPPoE relay tag whose
  length is not in network order on this target, are left out; so is the branch for bridged unicast frames of a remembered
  sender, which does the same to the table. Use counts are unbounded.
- DhcpChecksum.DhcpFlagBcast: the fields it looks at are taken to lie inside the frame; the driver does not check it.
- RxDeframe.ProcessBuffer: lengths are those a sender may write; the variant with pulled socket buffers is left out.
- CmdManager.CmdMgr.Queue: takes the flags of a command as they are; the loader itself only queues blocking commands that ask
  for a confirmation.
- CmdManager.CmdMgr.Step: a wait ended by a fatal signal, which frees a command still listed, and a drain that races with a
  timeout are left out, as is the late result of a command that does not block.
