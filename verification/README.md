# Verification of the hbc_mac firmware model

hbc_mac is the firmware of a medium access controller for human body communication (IEEE 802.15.6). The host
streams framed packets over SPI; a control interrupt parses them and loads them into a transmit ring; the main
loop builds, scrambles and sends each packet; two receive interrupts rebuild frames in a receive ring; the main
loop forwards them, and a data interrupt streams them back to the host. This project models that path, the
flash driver, the CRC and the MD5 code, and proves what they guarantee.

## How it is built

Code that updates state is modelled by classes with the source's own fields (`RxPath`, `Port`, `TxFifo`,
`Sender`, `DataOut`, `Forwarder`, `Context`, and `Bank`, `Scrambler`, `Device` for the hardware). Each method is
proved against a specification function on values, and the properties are proved about those functions:

- `Ring.dfy`: one 16M half of the memory as a ring. A ring that is only appended to is the *stream* of all words
  ever written; the cells hold its last part. Appending never needs an assumption, only reading does, and
  `ReadableIff` says exactly which.
- `ExtractRx.dfy`: the meaning of the receive ring is an `RxView`: frames released, frames unread, the frame
  under reception, the reader's position. `RxPath.Valid` says that memory holds exactly that chain, linked by its
  markers, and that every pointer agrees with it modulo 16M; every handler keeps it.
- `HostPort.dfy`, `TxRing.dfy`: the command parser and loader, byte by byte, and the transmit ring. A payload whose
  length is not a multiple of four leaves its last bytes in the loader's word; this carry is threaded from packet
  to packet, and memory is what it held at the start, overwritten by the stream, so what every frame carries is
  known for every length.
- `Rejection.dfy`: which received frames are never forwarded, and that damaged headers are among them.
- `Control.dfy`: what a command does to the output: its reply, its acknowledgement, the dump address, a new dump, and
  the data trigger at its end.
- `Transfer.dfy`, `Interleave.dfy`: loading and dumping, and control and data interrupts in any order on one memory.
- `Commands.dfy`: what the host's commands do from the bytes of their encoding: a new transmit address and packets sent
  from there, loads and dumps, memory test, flash, and the bytes that come back.
- `BuildTx.dfy`, `Plcp.dfy`, `Crc8.dfy`, `Scrambling.dfy`: frames, headers, the CRC and its algebra. The transmit FIFO
  keeps a trace of every reading, trigger pulse and write.
- `SpiData.dfy`, `DataPort.dfy`: the output shared by acknowledgements, replies and dumps.
- `MainLoop.dfy`: the send and forward branches of the main loop.
- `Loopback.dfy`: all these specifications as one state machine `Sys`. A run is any interleaving of its steps; the
  reads of the main loop's guard are separate steps, so an interrupt can fall between any two of them. The host
  streams packets of any length up to 255, with stray bytes and damaged packets between them. Every byte written to the
  host is recorded, acknowledgements included.
- `Steps.dfy`, `Machine.dfy`: the classes wired together. Each handler and each branch of the main loop is shown to take exactly
  the step of `Sys` that stands for it, so the guarantees about runs are guarantees about the handlers.
- `Progress.dfy`: from every reachable state, complete delivery is still possible.
- `Flash.dfy`, `FlashDriver.dfy`, `FlashTheory.dfy`: a NOR flash device as its bus sees it, the driver, and what a
  write leaves behind.
- `Rfc1321.dfy`, `Md5.dfy`: RFC 1321 as a reference, and the code with its incremental buffer.

Where a promise does not hold of the code in general, the exact condition is proved, and a lemma shows an input for
which it fails:

| condition | failing input |
|---|---|
| `AllOutIff`, `ExpectedWholeIff`, `CarryHarmlessIff` | `RestDamagesNext`, `LastByteLost`: five bytes, then four |
| `KeepsDumpsIff` | `DumpRedirected`: the dump address is set between two fetches |
| `BoundariesAgreeIff` | `LongPacketLosesStep`: 256 bytes |
| `PlainDecodingIff`, `LoaderInHalfIff` | `PlainDecodingFails`: after 16M of received data |
| `LengthRecoveredIff` | `WideRateSpoilsLength`: a data rate of 0x10000 |
| `SeedAgreesIff` | `SeedsDisagree`: seed 2, and data rate 0x800 with seed 0 |
| `CrcAcceptedIff` | `WideRateRejected`: a data rate of 0x1000000 |
| `ReadBackIff` | `UnalignedFails`, `TooLongFails`, `UnerasedFails` |
| `OthersKeptIff`, `ErasedFirstIff` | `OutsideFails` |
| `CallLosslessIff`, `ChunkingLosslessIff` | `SecondBlockIgnored`: two aligned blocks in one call |
| `ClosingWholeIff`, `LengthReachesIff` | `LengthIgnored`: 56 bytes buffered |

Two comments in the source differ from the code, and the model follows the code: `src/md5.c:224-226` announces a
loop over all blocks, but the loop is commented out, so one call compresses one block; `src/flash.c:147` announces
a bulk erase, but sectors are erased.

## Model

| member | source | states |
|---|---|---|
| `Loopback.LoopbackDelivers` | src/main.c:363-386 | End to end, for every list of payloads of up to 255 bytes: in every state of every interleaving of control and data interrupts (packets, stray bytes, damaged packets), receive interrupts and main loop steps, the dumps come in order, none lost or doubled, each with exactly the bytes expected for its packet: its whole words as the loader assembled them, then the first bytes of the next packet's length, if that had been announced at the send, or of what the next cell of the ring held before; every byte of a dump under way is right; when all is quiet every packet has come out; the whole output is, packet by packet, its announcement and then its dump; payloads of whole words come out as they went in |
| `Loopback.AllWritten` | src/main.c:304-313 | Once all is quiet, the bytes written to the host are one announcement and one dump for each packet, in order, and nothing else |
| `Loopback.AnnouncementIs` | src/main.c:108-119 | For acknowledgements of four bytes, an announcement is header, packet-ready code, the packet's length and the CRC of those three |
| `Loopback.SeedsAlternate` | src/main.c:377 | In every state of every run the header of frame 0 carries the initial seed, and of two consecutive frames each carries the other seed of 0 and 1 (section 10.7.1 of IEEE 802.15.6) |
| `Loopback.AllOutIff` | src/main.c:363-386 | Once all is quiet, the payloads that came out are the host's exactly when, for each packet, the bits left behind by the packets before are all set in its first word, and its last bytes are those of the next packet's length or of the ring's earlier content; stated on the payloads, the initial memory and one bit per packet |
| `Loopback.ExpectedWholeIff` | src/spi.c:83-92 | The same for one packet |
| `TxRing.LastByteLost` | src/build_tx.c:190-192 | Five bytes, then four, fed byte by byte: the frame sent for the first ends in the second's length, and its fifth byte 0xff comes out as 4 |
| `Loopback.InvKept` | src/main.c:287-386 | Each step keeps loader, transmit ring, frames, air, receive ring and output in step with the host's list of payloads, for every length up to 255 |
| `Loopback.StrayKeepsTx` | src/main.c:131-147 | Stray bytes and packets with a wrong CRC change nothing but the parser's buffer |
| `Loopback.SendIsSafe` | src/main.c:363-373 | Whenever the guard has been passed, although interrupts may have come between its reads, the packet at `pkt_addr` is complete, whatever its length, `pkt_addr` is at the start of the oldest unsent packet, and the frame is exactly that packet's |
| `Loopback.GuardKeepsTx` | src/main.c:363-365 | What each single read of the guard lets the main loop rely on |
| `Progress.AlwaysDeliverable` | src/main.c:345-386 | From every state of every run some continuation without overrun ends with all payloads delivered: no reachable state is stuck |
| `Progress.GuardLowers` | src/main.c:363-380 | While a complete packet waits, each read of the guard brings its sending closer, also when another packet is being loaded |
| `Machine.Mac.ControlInterrupt` | src/spi.c:76-98 | The control handler takes exactly the host's step (the next byte of a packet, a stray byte, a byte of a damaged packet) and keeps the end-to-end guarantee |
| `Machine.Mac.DataInterrupt` | src/spi.c:101-138 | The data handler takes exactly the data step, writes exactly its byte, and keeps the guarantee |
| `Machine.Mac.RxDataInterrupt` | src/extract_rx.c:110-133 | The same for the almost-full handler; the frame always fits the ring |
| `Machine.Mac.RxReadyInterrupt` | src/extract_rx.c:135-153 | The same for the packet-ready handler |
| `Machine.Mac.ReadBusy` | src/main.c:365 | The same for the last read of the guard |
| `Machine.Mac.Transmit` | src/main.c:366-377 | The same for the send branch, which shares its scrambler with the receiver; one trigger pulse per frame, and no write while almost-full is set |
| `Machine.Mac.CountDown` | src/main.c:380 | The same for the decrement, as one atomic step |
| `Machine.Mac.ForwardFrame` | src/main.c:287-319 | The same for the forwarding branch |
| `Machine.Mac.ForwardTurn` | src/main.c:383-386 | The same with its test: nothing happens while a dump is under way |
| `Machine.PowerOn` | src/main.c:321-345 | After start-up the guarantee holds |
| `ExtractRx.RxPath.RxDataInt` | src/extract_rx.c:110-133 | Drains the FIFO into the ring: the frame under reception grows by the descrambled words, the chain invariant and the agreement of software and hardware pointers are kept across the wrap |
| `ExtractRx.RxPath.RxReadyInt` | src/extract_rx.c:135-153 | The frame is complete: the placeholder becomes its byte count and one more frame is unread |
| `ExtractRx.RxPath.RxPacketReady` | src/extract_rx.c:43-63 | Counts the unread frames, caches marker and header of the oldest, and finds the placeholder when only an open frame is there |
| `ExtractRx.RxPath.RxPacketNext` | src/extract_rx.c:99-106 | Moves to the next frame of the chain by adding the marker, modulo 2^32 |
| `ExtractRx.RxPath.RxRead` | src/extract_rx.c:85-89 | Returns the next word of the stream unless it has been overwritten |
| `ExtractRx.RxPath.RxBytesRead` | src/extract_rx.c:69-71 | Four times the payload words stored |
| `ExtractRx.RxPath.RxCheckCrcOk` | src/extract_rx.c:73-82 | The residue test of the header |
| `ExtractRx.CloseImage` | src/extract_rx.c:141-149 | Patching one word turns the open frame into a finished frame of the chain |
| `ExtractRx.ReleaseImage` | src/extract_rx.c:99-106 | Moving on changes no word of the ring and advances by the frame's own length |
| `ExtractRx.BatchingIrrelevant` | src/extract_rx.c:110-153 | However a frame's words are split over data interrupts, the ring ends up as if they were read in one go |
| `ExtractRx.FrameDelivered` | src/extract_rx.c:114-132 | A frame scrambled with the seed in its header is stored as it was before scrambling |
| `ExtractRx.InterruptedIff` | src/main.c:349-356 | If a send reseeds the shared scrambler after `k` words of a frame, the stored words are right exactly where the two streams agree from there on |
| `ExtractRx.PlainDecodingIff` | src/extract_rx.c:103 | The reader's address, which is never wrapped, lies in the receive half of a plain 32M memory exactly in every other 16M of received data |
| `ExtractRx.PlainDecodingFails` | src/extract_rx.c:103 | After 16M it is an address of the transmit half |
| `TxRing.LoaderInHalfIff` | src/spi.c:87-90 | The load address, never wrapped either, stays in the transmit half of a plain 32M memory exactly in every other 16M |
| `Ring.ReadableIff` | src/mem.h:19-25 | A word of the ring can be read back under every content exactly while fewer than 16M bytes were written since |
| `Ring.ReadGives` | src/mem.h:19-25 | What a late reader finds instead: the latest word written to that cell |
| `Ring.WindowPatch` | src/extract_rx.c:142-144 | Rewriting a word inside the window changes that word of the stream only, across the wrap |
| `HostPort.FeedScript` | src/spi.c:76-98 | Parse of print: a script of commands, each load followed by its payload, with stray bytes and damaged packets between, dispatches exactly its commands and stores exactly its payloads; memory tests and flash reads in it overwrite memory as they do |
| `HostPort.ScriptCommands` | src/main.c:122-151 | The commands dispatched are those of the script, in order |
| `HostPort.FeedPayload` | src/spi.c:82-93 | A payload fed byte by byte is stored whole, every full word, and the rest kept back |
| `HostPort.BodyParses` | src/main.c:142-149 | A printed command has residue zero and gives its command and big-endian argument back |
| `HostPort.ArgumentIs` | src/main.c:104-106 | The argument's bytes come most significant first |
| `HostPort.CtrlByte` | src/spi.c:76-98 | No command is under way while a load is, after every byte |
| `HostPort.Port.HbcCtrlIrq` | src/spi.c:76-98 | The handler is the specification's step for one byte |
| `HostPort.Port.CtrlCmd` | src/main.c:122-151 | The parser with its packet buffer is the specification's step for a command byte, and tells which command it carried out |
| `HostPort.Port.Execute` | src/main.c:151-221 | The switch, as far as it reaches loader, memory, transmit ring and flash; which commands move the load address, and that only the transmit address command moves the packet pointer |
| `Commands.TxAddressFed` | src/main.c:213-216 | The bytes of this command set load address and packet pointer to its argument and change nothing else |
| `Commands.WriteAddressFed` | src/main.c:168-170 | The bytes of this one set the load address only |
| `Commands.SendsFromNewAddress` | src/main.c:213-221 | After a transmit address command in any state between loads, the packets that follow lie at the new address, one after the other, and the next frame is that of the first of them |
| `Commands.SendsOneFromNewAddress` | src/main.c:213-221 | The same for one packet, whatever an earlier load left over |
| `Commands.BytesOnAir` | src/build_tx.c:158-207 | From the host's bytes to the air: after the header each byte of the packet's whole words is combined by exclusive or with the scrambler's stream for the seed in the header |
| `Commands.LoadsAtAddress` | src/main.c:168-176 | After the bytes of a write address and a load command, memory holds the payload at that address; packet pointer and pending count stay |
| `Commands.LoadComesBack` | src/main.c:165-176 | After write address, load, dump address and dump commands from the same address, all received byte by byte, the dump sends the payload's bytes in order, under any acknowledgements and replies |
| `Commands.AllComesBack` | src/main.c:165-176 | With enough data interrupts all of it has been sent |
| `Commands.MemoryTested` | src/main.c:177-179 | A memory test leaves the scrambler's stream in memory and the ring's pointers alone |
| `Commands.FlashInMemory` | src/main.c:182-185 | A flash read puts the flash's bytes at the start of memory, and keeps the rest |
| `Commands.PayloadInFlash` | src/main.c:186-192 | A payload of whole words at the start of memory, written by the two flash commands, is in the flash at the given address whenever it can be read back there, and the reply is zero |
| `Commands.Acknowledged` | src/main.c:128-277 | What is pending after the first byte of a command's acknowledgement: the code for known or for unknown commands, 0, and their CRC |
| `Commands.LoadAcknowledged` | src/main.c:128-277 | A load command is acknowledged before its payload; a transmit packet is not acknowledged, and what was pending goes on |
| `Commands.KnownReplies` | src/main.c:177-192 | The four reply bytes of memory test, flash read and flash write; those of a flash write are zero exactly if flash and memory then agree, and 0xff otherwise |
| `Commands.VerifiedIff` | src/flash.c:118-142 | What agreeing means, byte by byte, least significant byte of a word first |
| `HostPort.Port.ExecuteOther` | src/main.c:177-192 | Memory test, flash read and flash write, with their effect on memory and flash |
| `HostPort.MemTest` | src/mem.c:66-97 | Fills memory with the scrambler's stream from seed 0 and finds no error |
| `Control.Console.ControlIrq` | src/main.c:122-278 | One control interrupt with all it does to the output: reply, acknowledgement, dump address, new dump, and the data trigger |
| `Control.Console.DataIrq` | src/spi.c:101-138 | One data interrupt while dumps come from memory |
| `Control.Console.Answer` | src/main.c:151-275 | Reply and acknowledgement of a command, and its effect on dumps |
| `HostPort.Port.LoadBytes` | src/spi.c:170-178 | Starts a load; a transmit load first stores the length |
| `TxRing.ByteArrives` | src/spi.c:76-98 | For every length up to 255, each control interrupt keeps memory, load address, carried bytes, load counters and pending count in step with the host's stream |
| `TxRing.SendsPacket` | src/main.c:369-375 | For every length up to 255, a complete packet that is not overrun is read back as loaded, and `pkt_addr` then stands at the next packet's length word |
| `TxRing.TailIs` | src/build_tx.c:190-201 | The word sent after a packet's whole words, when its length is not a multiple of four, is the next packet's length if that packet has been announced, and otherwise what the next cell held before |
| `Ring.HeldIs` | src/mem.h:19-25 | What the next cell of a stream holds before it is written: the initial content, or the word of one round before |
| `TxRing.RestDamagesNext` | src/spi.c:83-92 | Five bytes, then four: the second packet's word in memory is not what the host sent |
| `TxRing.PacketBytes` | src/main.c:122-149 | The bytes of the end-to-end theorem are the host's encoding of a transmit command |
| `TxRing.BoundariesAgreeIff` | src/main.c:371-375 | For a packet that fits the ring, loaded where the packet pointer stands: after the loader has stored it and the transmitter has sent it, both stand at the same place exactly when its length fits 8 bits, multiple of four or not |
| `TxRing.LongPacketLosesStep` | src/main.c:371-375 | For 256 bytes they do not |
| `MainLoop.FrameRecovered` | src/build_tx.c:158-207 | For every length the frame sent is accepted by the receiver, the length is recovered, and the payload is the memory words, descrambled, rounded up to whole words |
| `MainLoop.Sender.BuildFrame` | src/main.c:370-373 | The words on the air are the header and the scrambled memory words; since the reset one trigger pulse, and every write after a clear almost-full reading |
| `MainLoop.Sender.Transmit` | src/main.c:369-377 | The send branch: the frame on the air, the packet pointer moved on and masked to the half, the seed toggled between 0 and 1 |
| `MainLoop.Forwarder.HbcToSpi` | src/main.c:287-319 | Forwards the oldest frame exactly if the top byte of its header is the CRC of the others and the byte below counts no more payload bytes than are stored; otherwise the output stays as it was; moves on either way |
| `MainLoop.AcceptedIff` | src/main.c:296-300 | The same test, stated on the bytes of the header |
| `Rejection.NeverForwardedIff` | src/main.c:296-317 | A frame is skipped in every state of receiver and output exactly when its CRC byte is wrong or it holds fewer bytes than its header says |
| `Rejection.Announced` | src/main.c:304-313 | Any other frame is announced with its length, and the dump of header, payload and padding starts |
| `Rejection.BurstRejected` | src/main.c:296 | A header sent with fields in range that arrives with any nonzero error within eight consecutive bits makes a complete frame that is never forwarded |
| `Rejection.TwoFlipsRejected` | src/main.c:296 | The same for any two flipped bits |
| `Rejection.ShortRejected` | src/main.c:298-300 | A frame cut short below the length in its header is never forwarded |
| `MainLoop.Forwarder.ReplyPkt` | src/main.c:108-119 | Replaces the pending acknowledgement; for acknowledgements of four bytes by header, command, argument and the CRC of those three |
| `MainLoop.ReplyBytes` | src/main.c:108-119 | The four bytes of an acknowledgement, for which the host's residue is zero |
| `Transfer.CarryHarmlessIff` | src/spi.c:83-92 | What an earlier load left in `rd_data` leaves the next load's words alone exactly when its bits are all set in the first of them |
| `Transfer.UnpackWhole` | src/spi.c:83-92 | The words of a load hold its bytes in order |
| `Transfer.NothingLeft` | src/spi.c:87-93 | A load of whole words leaves nothing behind |
| `Interleave.LoadThenDump` | src/spi.c:76-178 | A payload loaded and then dumped from the same address comes back unchanged, under any interleaving with data interrupts, acknowledgements, replies and a script of commands that neither set the dump address nor dump, and whose stores are disjoint |
| `Interleave.DumpUndisturbed` | src/main.c:122-278 | Any dump interleaved with any such script sends what memory held when it started, and the loader ends where the script alone takes it |
| `Interleave.DumpGoesOn` | src/spi.c:101-138 | The same for any stream of control bytes, complete or not |
| `Interleave.KeepsDumpsIff` | src/main.c:165-173 | A command leaves every dump under way alone exactly when it is neither the one to set the dump address nor the one to dump |
| `Interleave.KeepsCellsIff` | src/main.c:168-192 | A command keeps a range of memory, whatever it holds, exactly when the words it stores (of a load, a memory test or a flash read) are disjoint from it |
| `Interleave.CommandRuns` | src/main.c:122-278 | A command received byte by byte acts once, at its last byte |
| `Interleave.DumpRedirected` | src/main.c:165-167 | The command to set the dump address between two fetches: the next word of the dump comes from the new address |
| `Interleave.LoaderAlone` | src/spi.c:76-98 | Data interrupts do not change what the control bytes do |
| `Interleave.ScriptStreamSpares` | src/spi.c:76-98 | The bytes of such a script store no word in the range and carry out no command that touches the dump |
| `Ring.DisjointIff` | src/mem.h:19-25 | Two ranges, by start and length modulo 16M, are disjoint exactly when they share no cell of the ring |
| `Fifo.TxFifo.Block` | src/fifo.c:56 | For every schedule of readings the wait reads almost-full until it is clear, ends there, and pulses the trigger once if it was set and the latch open |
| `Fifo.WaitingIs` | src/fifo.c:30-35 | A wait writes nothing, ends at a clear reading, and pulses at most once |
| `Fifo.TimelyWait` | src/fifo.c:30-35 | A wait keeps this: the pulse has come directly after the first full reading, or there has been no full reading |
| `Fifo.TxFifo.FifoModulate` | src/fifo.c:60-64 | The trace grows by the wait and then the write of the word, so the write directly follows a clear reading |
| `BuildTx.BuildTxPlcpHeader` | src/build_tx.c:158-186 | Resets the latch and writes the chips and then exactly the header word |
| `BuildTx.BuildTxPayload` | src/build_tx.c:188-207 | Sends the scrambled words of the payload, rounded up, returns the count rounded down; for every schedule of readings the trace since the reset holds exactly one pulse, directly after the first full reading, or at the end if there is none, and every write directly follows a clear reading |
| `Plcp.HeaderRecovered` | src/build_tx.h:25-40 | A header with fields in range passes the receiver's CRC and gives every field back |
| `Plcp.HeaderLayout` | src/build_tx.c:163-169 | The four bytes of a header with fields in range: rate and pilot, burst mode and seed, length, CRC of the three |
| `Plcp.CrcOkIff` | src/extract_rx.c:73-82 | The receiver accepts a header exactly when its top byte is the CRC of the rest |
| `Plcp.LengthRecoveredIff` | src/build_tx.c:163-169 | For any field values the host may store, the length survives exactly when no other field disturbs its bits |
| `Plcp.CrcAcceptedIff` | src/build_tx.c:163-169 | For any field values, the receiver accepts the header exactly when no field sets a top bit that the CRC lacks |
| `Plcp.WideRateSpoilsLength` | src/main.c:204-206 | A data rate of 0x10000 turns length 4 into another |
| `Plcp.WideRateRejected` | src/main.c:204-206 | A data rate of 0x1000000 makes the receiver reject the header |
| `Plcp.SeedAgreesIff` | src/build_tx.c:163-195 | For any field values, sender and receiver choose the same scrambler seed exactly when a zero seed is not disturbed by another field, or a nonzero one is odd or another field sets its bit |
| `Plcp.SeedsDisagree` | src/main.c:204-209 | They differ for seed 2, and for seed 0 with data rate 0x800 |
| `Plcp.Crc8Header` | src/build_tx.c:56-64 | The CRC of the three low bytes |
| `Crc8.Crc8Update` | src/build_tx.c:42-54 | The loop is eight turns of the shift register |
| `Crc8.CrcAffine` | src/build_tx.c:42-64 | The CRC turns the exclusive or of two messages into that of their CRCs |
| `Crc8.ErrorUndetectedIff` | src/build_tx.c:42-64 | An error goes unnoticed exactly when its pattern has CRC zero from start value zero |
| `Crc8.ResidueIff` | src/main.c:142-147 | The residue is zero exactly when the last byte is the CRC of the rest |
| `Crc8.BurstDetected` | src/build_tx.c:42-64 | Every nonzero error within eight consecutive bits changes the CRC, for messages of any length |
| `Crc8.TwoFlipsUndetectedIff` | src/build_tx.c:42-64 | Two flipped bits go unnoticed exactly when their distance is a multiple of 255 |
| `Crc8.OrderIs255` | src/build_tx.h:42 | The polynomial is primitive: the shift register returns to 1 exactly after multiples of 255 turns |
| `Scrambling.ScrambleTwice` | src/extract_rx.c:129 | Descrambling with the same stream gives the words back |
| `SpiData.StreamsWhole` | src/spi.c:101-168 | However acknowledgements, replies and dumps interleave, what was written of each, followed by what is pending, is exactly what was queued |
| `SpiData.PriorityKept` | src/spi.c:104-118 | Over runs: once an acknowledgement is queued, the next bytes written are its bytes, all of them; once a reply is queued, the next bytes that are not acknowledgements are its bytes, all of them, whatever is queued meanwhile |
| `SpiData.DumpGives` | src/spi.c:118-136 | A dump sends the bytes of the words it fetches, little-endian, whatever is sent in between |
| `SpiData.DumpAddresses` | src/spi.c:133-136 | A dump steps through consecutive addresses, modulo 2^32 |
| `DataPort.DataOut.HbcDataIrq` | src/spi.c:101-138 | The handler is the specification's step and writes exactly its byte; the word fetched is the reader's next or the one at the dump address |
| `DataPort.DataOut.HbcSpiAck` | src/spi.c:141-144 | Replaces the pending acknowledgement |
| `DataPort.DataOut.HbcSpiReply` | src/spi.c:146-150 | Replaces the pending reply |
| `DataPort.DataOut.HbcSpiDumpBytes` | src/spi.c:164-168 | Starts a dump |
| `DataPort.DataOut.HbcSpiDumpAddr` | src/spi.c:156-158 | Sets the address the next fetch from memory reads |
| `DataPort.DataOut.DumpBusy` | src/spi.c:184-186 | Whether a dump is under way |
| `FlashDriver.FlashWrite` | src/flash.c:144-177 | The device's contents and its log of operations afterwards; every command is accepted, so each reached the device write-enabled and with nothing in progress |
| `FlashTheory.NumSectorsLeast` | src/flash.h:103-108 | The number of sectors is the least that holds the size |
| `FlashTheory.NumPagesLeast` | src/flash.h:96-101 | The number of pages is the least that holds the size |
| `FlashTheory.LogTouches` | src/flash.c:144-177 | A sector-aligned write within the device erases a sector, and programs a page, exactly when that holds one of the bytes written |
| `FlashTheory.UntouchedKept` | src/flash.c:144-177 | Such a write leaves alone every byte whose sector holds none of the bytes written |
| `FlashTheory.EachPageOnceIff` | src/flash.c:151-163 | In the log each page is programmed once exactly when the pages fit the device |
| `FlashTheory.EachSectorOnceIff` | src/flash.c:58-69 | In the log each sector is erased once exactly when the sectors fit the device |
| `FlashTheory.ErasedFirstIff` | src/flash.c:148-163 | In the log every page is programmed after its sector has been erased exactly when the programmed pages lie in the erased sectors |
| `FlashDriver.FlashSectorErase` | src/flash.c:58-69 | The sectors erased, each with its own write enable and wait |
| `FlashDriver.FlashWriteEnable` | src/flash.c:44-48 | Sets the latch and nothing else |
| `FlashDriver.FlashReadStatus` | src/flash.c:86-93 | Shows whether an operation is in progress |
| `FlashDriver.FlashRead` | src/flash.c:95-116 | Memory receives the flash contents in whole words |
| `FlashDriver.FlashVerify` | src/flash.c:118-142 | Returns zero exactly when flash and memory agree on the whole words of the range |
| `FlashTheory.WordsRestored` | src/flash.c:95-177 | Under the condition below, a read after a write returns the words written, whatever the device held |
| `FlashTheory.ReadBackIff` | src/flash.c:144-177 | What is written can always be read back exactly when the address is page-aligned, the pages fit the device, and the bytes read lie in the erased sectors |
| `FlashTheory.OthersKeptIff` | src/flash.c:148-163 | No byte outside the erased sectors ever changes exactly when the programmed pages lie in the erased sectors |
| `FlashTheory.SectorAlignedIsGood` | src/flash.h:88-108 | Sector-aligned writes that fit the device meet both conditions |
| `FlashTheory.EraseAllAt` | src/flash.c:58-69 | Byte by byte, exactly the erased sectors become 0xFF |
| `FlashTheory.ProgramAllAt` | src/flash.c:156-176 | Byte by byte, exactly the programmed pages are and-ed with their data |
| `FlashTheory.WriteAndVerify` | src/main.c:189-192 | The host's flash command returns zero exactly when flash and memory then agree, which holds whenever the write can be read back, or there is no whole word to read |
| `Md5.ChunkingLosslessIff` | src/md5.c:126-190 | A run of calls has compressed and kept all of the message, in order, exactly when every call is supported |
| `Md5.CallLosslessIff` | src/md5.c:126-190 | One call loses no byte exactly when less than two blocks are at hand, or the buffer is empty and the input unaligned |
| `Md5.SecondBlockIgnored` | src/md5.c:169 | Of two aligned blocks in one call the second does not reach the digest |
| `Md5.ChunkingIrrelevant` | src/md5.c:82-190 | However a message is split into supported calls, the digest is that of sections 3.1 to 3.5 of RFC 1321 |
| `Md5.CodeDigestIsRfc` | src/md5.c:82-104 | With fewer than 56 bytes buffered, padding, length and last block give the RFC's digest |
| `Md5.ClosingWholeIff` | src/md5.c:86-101 | The closing is compressed whole exactly when fewer than 56 bytes are buffered |
| `Md5.LengthReachesIff` | src/md5.c:86-101 | The message length reaches the block that is compressed exactly when fewer than 56 bytes are buffered |
| `Md5.LengthIgnored` | src/md5.c:86-101 | With 56 bytes buffered the length does not reach the digest |
| `Md5.Context.ProcessBytes` | src/md5.c:126-190 | The three parts of the call, with their copying in the buffer, compress and keep exactly what the specification says |
| `Md5.Context.ProcessBlock` | src/md5.c:205-362 | One block is compressed as the RFC says, and all of `len` is counted |
| `Md5.Context.FinishCtx` | src/md5.c:82-104 | The digest of the bytes compressed, the buffer and the count, modulo 2^64 bits |
| `Md5.Op` | src/md5.c:241-249 | One operation of the code, with its rotated roles, is the RFC's operation of the same number |
| `Md5.FF` | src/md5.c:197 | The shortened function is the RFC's F |
| `Md5.Md5Buffer` | src/md5.c:110-123 | Digest of one buffer: the RFC's under the stated condition, the code's otherwise |

## Left out

Assumptions of the model:

- Memory addresses select a cell modulo 16M within a half (`MEM_READ_WRAP_16M`, `MEM_WRITE_WRAP_16M`, src/main.c:331):
  the receive handlers and the receive reader use the receive half, the loader, the transmitter and dumps from memory
  the transmit half. So the host's memory commands are modelled with addresses of the transmit half only; a load into
  the receive half would overwrite received frames. `PlainDecodingIff` and `LoaderInHalfIff` say what a plain 32M
  decoding would do instead.
- The two halves are separate banks with their own pointers. In the source both share one pair of pointer
  registers; every handler sets the pointer it uses before using it, so nothing carries over.
- No ring is overrun where it is about to be read; writers need no such assumption, and `ReadableIff` is exact.
- Half duplex: a frame is sent only when the previous one is complete at the receiver, since both directions
  share one scrambler; the channel delivers the words unchanged and in order.
- `tx_pending--` (src/main.c:380) is one atomic step, and each handler runs as one atomic step.
- `tx_auto`, `rx_auto` and `loopback` are set; `rx_flood` and `tx_flood` are not.
- The constants of host_protocol.h, which is not part of this model, are any consistent choice.
- The scrambler's stream is any function of seed and position; FIFO readings and flash delays are any finite
  sequences; `packet_ready` and `tx_pending` do not overflow; words are stored little-endian.

Members that state less than the source could be read to promise:

- Loopback.LoopbackDelivers: the host of a run sends transmit packets, stray bytes and damaged packets. Memory loads
  are left to `FeedScript` and `Interleave`: they move the load address that the transmit ring shares
  (src/spi.c:160-162), so packets after them land elsewhere. Other commands reach parts that a run uses itself.
- TxRing.BoundariesAgreeIff: for packets that fit the ring; a longer one overwrites its own length word.
- Machine.Mac.Transmit: only when no frame is under way to the receiver (half duplex), as above.
- ExtractRx.RxPath.RxDataInt: for frames shorter than the ring; a longer one would overwrite its own marker.
- ExtractRx.RxPath.RxPacketNext: only after `rx_packet_ready` cached the frame at hand or the placeholder, as
  `hbc_to_spi` does; the host commands that call it in any order (src/main.c:233-250) are not modelled.
- HostPort.Port.Execute: of a memory test only this half of memory; the scrambler that it leaves reseeded belongs to
  the receiver. The other commands reach neither loader, memory nor flash and are recorded.
- Control.Console.DataIrq: while dumps come from memory; dumps of the receive ring are the steps of `Loopback`.
- Control.Console.ControlIrq: the words that commands other than memory test, flash read and flash write reply with are
  arbitrary. In a run of `Loopback` the data trigger at the end of a transmit command is a data step of its own.
- BuildTx.BuildTxPlcpHeader: preamble, start delimiter and rate indicator are arbitrary chip words past the
  modulator (src/build_tx.c:66-155); flush and the wait for an empty FIFO are not modelled.
- Md5.ChunkingIrrelevant: one direction, because two messages may share a digest; that nothing is lost exactly
  under the stated condition is `ChunkingLosslessIff`.
- FlashDriver.FlashWrite: the device ignores a command that is not write-enabled, not complete or busy, and takes
  whole pages only; the driver sends no others.

Not modelled:

- `rx_check_packet` (src/main.c:66-102) and the flood commands: diagnostics.
- The single-packet send from address 0 (src/main.c:346-361): the same two calls without the ring.
- Bulk erase and device identification of the flash; power commands.
- Interrupt dispatch (src/interrupt.c), register and pin access, LED, display, USB, PSoC programming, build files.
- Timing, and the busy-waits beyond the assumption that hardware flags clear after finitely many readings.
