# Verified models of the Nios II / eCos board support tree

This project models the parts of the tree that carry hard state or arithmetic and proves what they promise.
`dafny verify dfyconfig.toml` checks all of it.

**Ethernet descriptor rings** (`Options`, `MacRing`, `EthOcmTx`, `EthOcmRx`, `EthOcm`, `EthOcmTheorems`, `EthOcmDriver`,
`Oeth`, `OethDriver`). Both drivers of the OpenCores MAC share rings of descriptors with hardware that runs
concurrently. Each driver is a transition system cut at every register access, with MAC actions between any two
steps; an invariant is proved for every action and so for every run and every ring size. The classes
`EthOcmDriver.Driver` and `OethDriver.Driver` are the routines as imperative code with the MAC acting at every access;
their states are reachable states of the transition systems, so every theorem about runs applies to them. Both
transmit encodings refine one bounded FIFO.

**EPCS serial flash** (`Arith`, `Bytes`, `EpcsChip`, `Spi`, `EpcsCommands`, `EpcsSpec`, `EpcsFlash`). A chip model (memory,
write-enable latch, chip select, page program with wrap-around as bitwise AND, sector erase, write time) sits behind a
byte-level SPI master with arbitrary timing. Block writes, page splits, commands and SPI bytes are proved to compose to
a simple function of memory.

**Y-modem receiver** (`ModemLine`, `ModemFrame`, `ModemStream`, `ModemTalk`, `Modem`). The line is a sequence of bytes
and silences; the frame parser, one fetch with retries, the whole byte stream and everything written to the port are
functions of it, and the ring buffer, the receiver and the upload loop are proved to compute them. Framing follows sections 4.3, 5 and 7.3 of Forsberg's
XMODEM/YMODEM Protocol Reference as far as the code does.

**S-records** (`SrecText`, `SrecRead`, `SrecWrite`). Writer and two-pass reader with explicit 32-bit arithmetic, and the
reader as the writer's inverse. Records are those of Appendix C of the M68000 Family Programmer's Reference Manual.

**LCD** (`LcdScroll`, `Lcd`). A panel with character memory and an auto-incrementing cursor, the driver's shadow of it,
and the flag-and-counter handshake with a timer that may tick between any two accesses of the foreground.

Where the code falls short of what its comments say, the model follows the code and states exactly when:

- A refused `openeth_send` has already overwritten a key (`Oeth.SendExactly`, `Oeth.NeverTold`). The comment that
  `oeth_txdone` is called from `can_send()` no longer holds; only the deliver routine calls it.
- A read that fails in mid-buffer is followed by another with a length of -1, and a final header that is lost counts as
  success in mid-buffer only (`Modem.Upload`).
- A repeat received on the last of a block's tries is delivered a second time (`ModemStream.StaleExactly`,
  `ModemStream.RepeatedTooOften`).
- A row wider than 63 columns never scrolls (`LcdScroll.ScrollsExactly`); `char` is signed, as the driver's own test
  of `esccount >= 0` against -1 needs.
- With more than 65535 records the count record is malformed (`SrecWrite.CountLineExactly`); `-a 0` from address zero
  lays down no filler (`SrecRead.ImageMeans`).
- `alt_epcs_flash_write` and `epcs_flash_write` report success for a start outside the device and write nothing.

## Model

| member | source | states |
|---|---|---|
| EthOcmTheorems.TxRingShape | eth_ocm/HAL/src/ins_eth_ocm.c:285-417 | In every reachable state `sending` holds (next - cur) mod n packets (n when not ready), its i-th packet is in descriptor (cur + i) mod n with pointer buffer + 2 and length (nb_plen mod 2^32) - 2, READY is set exactly on the unfinished ones of those in flight, and the MAC's pointer, driven by WRAP, stands on the first of them. |
| EthOcmTheorems.NoLostCompletion | eth_ocm/HAL/src/ins_eth_ocm.c:546-591 | Over all interleavings: while a finished descriptor is not reaped, a TX bit is pending or the handler has cleared it and not finished its reap; the same for receive; so idle with no bit set means nothing is left. |
| EthOcmTheorems.TxConservation | eth_ocm/HAL/src/ins_eth_ocm.c:227-417 | Submitted = reaped + dropped + sending + in hand + tosend as multisets; ifOutUcastPkts is the number of reaped frames that met no error, ifOutDiscards those that did plus the dropped; packets of valid length leave in submission order, and the k-th frame on the wire is the k-th of them, from buffer + 2 and (nb_plen mod 2^32) - 2 long. |
| EthOcmTheorems.FreedOnce | eth_ocm/HAL/src/ins_eth_ocm.c:349-416 | No packet is ever freed twice. |
| EthOcmTheorems.TxIsrDrains | eth_ocm/HAL/src/ins_eth_ocm.c:392-416 | Outside eth_ocm_tx_isr, tosend is empty or all n descriptors are in flight. |
| EthOcmTheorems.SetUpFailsOnlyOnLength | eth_ocm/HAL/src/ins_eth_ocm.c:299-334 | The nested-call and busy failures are unreachable; a packet is dropped at set-up if and only if its length less the bias is outside 4..1518, with the 32-bit subtraction written out. |
| EthOcmTheorems.QuiescentMeansDone | eth_ocm/HAL/src/ins_eth_ocm.c:340-417 | When the processor is idle, no TX bit is pending and the MAC has nothing to send, every submitted packet has been freed and counted and the wire carries all valid ones: no packet is stuck. |
| EthOcmTheorems.TxRefinesFifo | eth_ocm/HAL/src/ins_eth_ocm.c:285-417 | Every action of driver or MAC on the TX ring is one step of the bounded FIFO of capacity n, or none. |
| EthOcmTheorems.RxOwnership | eth_ocm/HAL/src/ins_eth_ocm.c:597-731 | In every reachable state the rx_pkts buffers are distinct and disjoint from rcvdq, each descriptor the MAC owns points at its own rx_pkts buffer, so no delivered buffer is one the MAC may write and each still holds the frame it was queued with. |
| EthOcmTheorems.RxOrderAndCount | eth_ocm/HAL/src/ins_eth_ocm.c:573-705 | A processed frame is queued if and only if it is good and pk_alloc had a buffer for it; delivered frames are exactly those, in arrival order; frames processed + busy events raised by the MAC = frames delivered + ifInDiscards + a busy event still in int_source or in the handler, over every run; idle with no RX bit means every arrived frame was processed. |
| EthOcm.StepKeeps | eth_ocm/HAL/src/ins_eth_ocm.c:546-591 | Every action (driver step, MAC send, MAC fill, busy event, submission, the stack taking a packet) keeps the combined invariant. |
| EthOcm.Reachable | eth_ocm/HAL/src/ins_eth_ocm.c:227-731 | The invariant holds after every run, for every ring size of at least one and every interleaving. |
| EthOcmTx.TxStepKeeps | eth_ocm/HAL/src/ins_eth_ocm.c:340-417 | Each step of the reap and send loops, cut at every register access, keeps the transmit invariant, and the reap loop is left only with nothing finished. |
| EthOcmTx.MacSendKeeps | eth_ocm/HAL/src/ins_eth_ocm.c:319-334 | The MAC finishing a descriptor at any point of the driver keeps the transmit invariant. |
| EthOcmTx.NextIsFree | eth_ocm/HAL/src/ins_eth_ocm.c:316-317 | While the ring is not full, the next descriptor is never READY. |
| EthOcmRx.RxStepKeeps | eth_ocm/HAL/src/ins_eth_ocm.c:651-731 | Each step of the receive loop keeps the receive invariant, whatever pk_alloc returns. |
| EthOcmRx.MacFillKeeps | eth_ocm/HAL/src/ins_eth_ocm.c:709-719 | The MAC storing a frame keeps the receive invariant; queued buffers are untouched. |
| EthOcmDriver.ReadInit | eth_ocm/HAL/src/ins_eth_ocm.c:597-640 | Arms the descriptors in turn, each with a buffer of its own and WRAP on the last; stops at the first without a buffer or not free, with the code that says which; success is exactly the state the driver starts from. |
| EthOcmDriver.Driver.constructor | eth_ocm/HAL/src/ins_eth_ocm.c:127-147 | The driver starts with cleared transmit descriptors, empty queues and every receive descriptor armed: the initial state of the transition system. |
| EthOcmDriver.Driver.SendPacket | eth_ocm/HAL/src/ins_eth_ocm.c:227-273 | The imperative send, with the MAC acting between any two accesses: appends the submission, returns success, leaves tosend empty or the ring full, and reaps all that was on the wire at the call. |
| EthOcmDriver.Driver.LowSend | eth_ocm/HAL/src/ins_eth_ocm.c:285-338 | Succeeds exactly on a valid length, the descriptor then carrying buffer + 2 and length nb_plen - 2, and otherwise changes nothing the driver keeps. |
| EthOcmDriver.Driver.ReapLoop | eth_ocm/HAL/src/ins_eth_ocm.c:349-390 | The reap loop takes back at least every packet sent before the call. |
| EthOcmDriver.Driver.SendLoop | eth_ocm/HAL/src/ins_eth_ocm.c:392-416 | The send loop ends only with tosend empty or every descriptor in flight. |
| EthOcmDriver.Driver.TxIsr | eth_ocm/HAL/src/ins_eth_ocm.c:340-417 | Both loops composed. |
| EthOcmDriver.Driver.RxIsr | eth_ocm/HAL/src/ins_eth_ocm.c:651-731 | Processes every frame that had arrived at the call and stores the working index. |
| EthOcmDriver.Driver.RxProcess | eth_ocm/HAL/src/ins_eth_ocm.c:687-705 | A good frame for which pk_alloc has a buffer is queued and its buffer replaced by that one; any other is counted as a discard. |
| EthOcmDriver.Driver.IsrAck | eth_ocm/HAL/src/ins_eth_ocm.c:554-560 | Exactly the bits that were read are cleared: the register afterwards is what the rest of the world had made of it, less those bits. |
| EthOcmDriver.Driver.Isr | eth_ocm/HAL/src/ins_eth_ocm.c:546-591 | The handler returns only when no bit is set, and then every frame on the wire has been reaped and every arrived frame processed. |
| MacRing.SlotIsModular | eth_ocm/HAL/src/ins_eth_ocm.c:384-387 | The compare-and-reset increment of ring indices is addition modulo the ring size. |
| MacRing.WindowFinish | eth_ocm/HAL/src/ins_eth_ocm.c:328-330 | The MAC following WRAP moves exactly one place through the window. |
| Oeth.RingAndWire | packages/devs/eth/opencores/ethermac/current/src/if_oeth.c:353-388 | Over every legal run: WRAP is exactly on the last descriptor, tx_packets + frames in flight = accepted sends, READY bits only inside the window of tx_last/tx_next/tx_full, and the wire carries accepted frames' bytes in order. |
| Oeth.KeysOnce | packages/devs/eth/opencores/ethermac/current/src/if_oeth.c:391-411 | The accepted keys are, with multiplicity, those given to tx_done and those waiting in descriptors; send by send, each key waits or has been told, never both, the key told is the one the send was accepted with, none twice, none before its READY bit cleared; after oeth_txdone every counted frame has been told. |
| Oeth.RefinesFifo | packages/devs/eth/opencores/ethermac/current/src/if_oeth.c:563-660 | Every legal action on tx_next/tx_last/tx_full is a step of the same bounded FIFO as the other driver's ring, or none. |
| Oeth.SendExactly | packages/devs/eth/opencores/ethermac/current/src/if_oeth.c:574-603 | openeth_send writes the key before its refusals: accepted keys = told + waiting still holds after a send if and only if the ring has room and the frame fits the buffer, or the slot already holds that key. |
| Oeth.NeverTold | packages/devs/eth/opencores/ethermac/current/src/if_oeth.c:574-603 | Any refused send over a waiting key: however the run goes on, until that key is sent again it has been told less often than it was accepted. |
| Oeth.LostKey | packages/devs/eth/opencores/ethermac/current/src/if_oeth.c:574-587 | An instance on a ring of one: key 7 is accepted and, for every continuation that does not send it again, never given to tx_done. |
| Oeth.StepKeeps | packages/devs/eth/opencores/ethermac/current/src/if_oeth.c:353-411 | Every legal action keeps the ring, data and key invariants. |
| Oeth.RunInv | packages/devs/eth/opencores/ethermac/current/src/if_oeth.c:353-660 | So does every legal run from initialisation, for every ring size of at least one. |
| OethDriver.Driver.constructor | packages/devs/eth/opencores/ethermac/current/src/if_oeth.c:1060-1065 | Initialisation leaves every descriptor idle and WRAP on the last. |
| OethDriver.Driver.CanSendNow | packages/devs/eth/opencores/ethermac/current/src/if_oeth.c:557-561 | True exactly when fewer accepted frames are in flight than there are descriptors; the next descriptor is then not READY and its key slot empty, so a send loses no key. |
| OethDriver.Driver.SendNow | packages/devs/eth/opencores/ethermac/current/src/if_oeth.c:563-660 | The imperative send against a concurrent MAC: appends exactly one accepted frame, or, when refused, changes only the key slot. |
| OethDriver.Driver.Tx | packages/devs/eth/opencores/ethermac/current/src/if_oeth.c:353-388 | On return every frame sent before the call is counted; nothing is reported yet. |
| OethDriver.Driver.TxDoneNow | packages/devs/eth/opencores/ethermac/current/src/if_oeth.c:391-411 | On return every frame sent before the call is counted, and each counted frame has been given to tx_done with the key it was accepted with. |
| Spi.Master.Command | packages/io/epcs/current/src/altera_avalon_spi.c:41-134 | For any lengths not both zero and any number of status reads until a byte is exchanged, TRDY shows or TMT shows: sends exactly write_data then read_length zeros, stores exactly the replies after the first write_length, and leaves chip select as the merge flag says; the loop keeps sent - received = 1 - credits with at most one byte outstanding, and the -1024 branch is proved dead. |
| Spi.Master.Poll | packages/io/epcs/current/src/altera_avalon_spi.c:82-87 | The inner wait ends with room to send when there is credit and with a reply when there is none, and terminates for every device timing. |
| EpcsChip.AddressRoundTrip | packages/io/epcs/current/src/epcs_commands.c:69-72 | The three address bytes the driver shifts out spell the offset. |
| EpcsChip.ShiftRead | packages/io/epcs/current/src/epcs_commands.c:87-117 | The replies behind a read command are the memory from that address on, going round at its end. |
| EpcsChip.ProgramInPage | packages/io/epcs/current/src/altera_avalon_epcs_flash_controller.c:396-409 | A page program that stays in one 256-byte page is a plain AND over the range; the chip model wraps inside the page otherwise. |
| EpcsChip.ProgramRangeBits | packages/io/epcs/current/src/epcs.c:232-292 | A programmed byte is old AND source bit by bit; no other byte changes. |
| EpcsCommands.ReadStatus | packages/io/epcs/current/src/epcs_commands.c:35-50 | Returns the status of the chip and changes nothing but elapsed time. |
| EpcsCommands.AwaitWipReleased | packages/io/epcs/current/src/epcs_commands.c:57-63 | Terminates, with the write in progress finished. |
| EpcsCommands.SectorErase | packages/io/epcs/current/src/epcs_commands.c:65-85 | With writes enabled, exactly the sector holding the offset reads 0xFF, and the erase is complete on return. |
| EpcsCommands.ReadBuffer | packages/io/epcs/current/src/epcs_commands.c:87-117 | The bytes of memory from the offset on; memory unchanged. |
| EpcsCommands.WriteEnable | packages/io/epcs/current/src/epcs_commands.c:119-131 | Sets the write-enable latch, or is ignored while a write is in progress. |
| EpcsCommands.WriteBuffer | packages/io/epcs/current/src/epcs_commands.c:153-197 | WREN, PP and data over two merged transactions amount to one page program, complete on return. |
| EpcsSpec.QuerySound | packages/io/epcs/current/src/altera_avalon_epcs_flash_controller.c:82-158 | Exactly the six known devices are recognised, each with the capacity it is named after, its sector size, and blocks that fill it. |
| EpcsSpec.WrittenMeans | packages/io/epcs/current/src/altera_avalon_epcs_flash_controller.c:213-292 | What the written memory is: the target range equals the source, untouched and already-equal sectors keep their contents, and 0xFF stands elsewhere in each rewritten sector. |
| EpcsFlash.FlashRead | packages/io/epcs/current/src/altera_avalon_epcs_flash_controller.c:414-441 | -EIO exactly when it starts outside the device, else the bytes, wrapping at the end. |
| EpcsFlash.FlashMemcmp | packages/io/epcs/current/src/altera_avalon_epcs_flash_controller.c:160-211 | Zero exactly when every 32-byte chunk starts inside the device and the bytes read, wrapping at its end, are the source; for a range inside the device that is equality of the whole range, and a start outside never compares equal. |
| EpcsFlash.EraseBlock | packages/io/epcs/current/src/altera_avalon_epcs_flash_controller.c:354-372 | Exactly the addressed block is filled with 0xFF, or -EIO and no change. |
| EpcsFlash.WriteBlock | packages/io/epcs/current/src/altera_avalon_epcs_flash_controller.c:382-412 | The page loop terminates, each program it issues stays in one page, and together they AND the data over the range. |
| EpcsFlash.UpdateBlock | packages/io/epcs/current/src/altera_avalon_epcs_flash_controller.c:252-273 | One block of the write: nothing when equal, else erase and program. |
| EpcsFlash.FlashWrite | packages/io/epcs/current/src/altera_avalon_epcs_flash_controller.c:226-292 | Through page split, command encoding and SPI bytes, memory afterwards is the specified function of memory before (see EpcsSpec.WrittenMeans), for every offset and length. |
| EpcsFlash.FlashProgram | packages/io/epcs/current/src/epcs.c:232-292 | Every in-range byte ends as old AND source whether or not compare-and-skip fired; nothing else changes. |
| EpcsFlash.BlockWrite | packages/io/epcs/current/src/epcs.c:163-176 | For in-range requests the result is 0 exactly when the flash range equals the buffer afterwards, which is exactly when no bit had to go from 0 to 1. |
| EpcsFlash.BlockErased | packages/io/epcs/current/src/epcs.c:205-211 | The eight-byte scan says blank exactly when every byte of the block is 0xFF. |
| EpcsFlash.EraseBlocks | packages/io/epcs/current/src/epcs.c:178-229 | For aligned offset and length exactly the range reads 0xFF, skipping blank blocks included; the loop terminates. |
| ModemLine.Ring.GetChar | bootloader/bootloader/xyzModem.c:66-118 | Returns exactly the bytes that arrived, in order, for any sizes read() returns, with time-outs where the line was silent; at rest the unread count is (writepos - readpos) mod 4096. |
| ModemLine.Ring.Refill | bootloader/bootloader/xyzModem.c:69-113 | A read, which may fill all 4096 cells and bring writepos back to readpos, puts exactly the bytes it got in front of the rest of the line. |
| ModemFrame.ParseEncode | bootloader/bootloader/xyzModem.c:257-384 | Round trip: a frame a sender encodes (128 or 1024 bytes, CRC or sum) parses back to its number and data and leaves what follows. |
| ModemFrame.ParseIntact | bootloader/bootloader/xyzModem.c:275-383 | The converse: a frame is accepted only if, behind characters the search passes over, the line holds its start character, its number and complement, its data and the right CRC, high byte first, or the low byte of the sum, and then the rest. |
| ModemFrame.BodyFails | bootloader/bootloader/xyzModem.c:317-381 | What becomes of any other frame: cut short, it times out; with mismatched numbers, the line is flushed to the next silence; with wrong check bytes, nothing more is lost. |
| ModemFrame.StartMeans | bootloader/bootloader/xyzModem.c:275-315 | The header search ends at the first of a start character, a third CAN, an EOT before anything else, and a silence, and passes over anything else. |
| ModemFrame.StripMeans | bootloader/bootloader/xyzModem.c:482-496 | Anything is removed if and only if the last three characters are ^Z; then exactly the trailing ^Z are. |
| ModemStream.NumberIsEnough | bootloader/bootloader/xyzModem.c:478-511 | Within a distance of 254 the 8-bit number decides whether a frame is the expected block or the one before it. |
| ModemStream.FetchHonest | bootloader/bootloader/xyzModem.c:473-545 | On any line of corrupted, repeated or skipped frames within that distance, a fetch yields the expected block, or the last-try repeat, or an error; never another block. |
| ModemStream.InOrder | bootloader/bootloader/xyzModem.c:463-559 | On any honest line on which each of blocks e..e+n-1, and then the end of file, arrives within its twenty tries, whatever corrupted, repeated or skipped frames come in between, the stream is exactly those blocks in order, each once, pad stripped, and the transfer closes. |
| ModemStream.BudgetExactly | bootloader/bootloader/xyzModem.c:473-545 | That condition on the line is exact: it holds if and only if the receiver gets n blocks, no duplicate, and closes. |
| ModemStream.BlockExactly | bootloader/bootloader/xyzModem.c:475-539 | A fetch yields a block if and only if the expected number arrives at some header within its tries behind ones that do not settle it, and it is then that block with the line behind it; likewise for the end of file. |
| ModemStream.StatusExactly | bootloader/bootloader/xyzModem.c:515-544 | The status and the line left when a fetch does not yield a block: cancel, end of file with the header behind it, or the last try's own status. |
| ModemStream.InOrderSoFar | bootloader/bootloader/xyzModem.c:463-559 | Beyond the budget too, what is delivered is blocks e, e+1, ... in order as far as it gets, unless a fetch ends on a duplicate. |
| ModemStream.OnceExactly | bootloader/bootloader/xyzModem.c:473-545 | On an honest line the bytes delivered are those of the blocks in the index log, and the log is consecutive if and only if no fetch ends on a repeat at its last try. |
| ModemStream.StaleExactly | bootloader/bootloader/xyzModem.c:475-540 | A fetch ends that way exactly when all its tries go on and the last is the previous block. |
| ModemStream.RepeatedTooOften | bootloader/bootloader/xyzModem.c:511-540 | The family of lines on which the previous block is handed out again: as many repeats as there are tries. |
| ModemStream.SenderIsHonest | bootloader/bootloader/xyzModem.c:463-559 | Blocks encoded one after the other and closed by EOT make an honest line within the retry budget, so the premises of InOrder are met. |
| ModemStream.CleanTransfer | bootloader/bootloader/xyzModem.c:463-559 | Round trip: encoded blocks closed by EOT arrive whole, in order, pad stripped, however many there are, and the transfer closes. |
| Modem.Receiver.FlushLine | bootloader/bootloader/xyzModem.c:245-254 | Discards the line up to the next silence. |
| Modem.Receiver.FindHeader | bootloader/bootloader/xyzModem.c:275-315 | Finds the start the parser's specification finds, cancel and noise rules included. |
| ModemTalk.WritesSettled | bootloader/bootloader/xyzModem.c:478-540 | For every line, with a block logged as taken the moment it is accepted: whenever a byte is written to the port, and so whenever a block is acknowledged, every block taken has been handed out to its last byte; and what is handed out in all is the stream. |
| ModemTalk.AckAfterCopy | bootloader/bootloader/xyzModem.c:271-274 | The first thing that happens after the last byte of a new block is handed out is its ACK. |
| ModemTalk.CleanTalk | bootloader/bootloader/xyzModem.c:463-559 | The conversation over an undamaged transfer, to the byte: each block is taken, handed out, and then acknowledged exactly once; at end of file the replies that calls for. |
| ModemTalk.Answers | bootloader/bootloader/xyzModem.c:511-538 | A damaged, missing or out-of-sequence frame is answered with a request (C or NAK), a repeat of the block before with an ACK, a cancel with nothing. |
| ModemTalk.YmodemEnd | bootloader/bootloader/xyzModem.c:522-535 | EOT and an intact final header end the transfer with status 0, and are answered ACK, ACK, request, ACK. |
| Modem.Receiver.GetHdr | bootloader/bootloader/xyzModem.c:257-384 | Computes exactly the parse of the line; writes the deferred ACK first and an ACK for an end of file, nothing else; may be called only when no byte of the packet buffer is still owed to the reader. |
| Modem.Receiver.CheckGood | bootloader/bootloader/xyzModem.c:364-381 | The CRC compare and the 16-bit summing loop agree with the check bytes a sender computes. |
| Modem.Receiver.OneTry | bootloader/bootloader/xyzModem.c:476-538 | One try of the retry loop against the recursive specification of the fetch, with exactly what it writes to the port. |
| Modem.Receiver.FetchBlock | bootloader/bootloader/xyzModem.c:473-545 | The whole retry loop computes the fetch of the specification, end of file and final header included, and writes exactly what the specification says. |
| Modem.Receiver.CopyOut | bootloader/bootloader/xyzModem.c:547-556 | Moves bytes from what is owed to the caller; the stream still to come is unchanged. |
| Modem.Receiver.StreamRead | bootloader/bootloader/xyzModem.c:463-559 | Returns the next bytes of the one stream the line determines, however requests are split; what it writes, takes and hands out, in order, is the next part of the one conversation the line determines; fails only when the stream ends short with an error. |
| Modem.Receiver.OpenTry | bootloader/bootloader/xyzModem.c:430-457 | One try of opening: outcome, check mode and the request character written; CRC is given up after the set number of time-outs. |
| Modem.OpensExactly | bootloader/bootloader/xyzModem.c:429-461 | The stream opens if and only if an intact frame is among the first twenty headers with no cancel before it; the first one opens it, by CRC if and only if fewer than ten headers before it were time-outs, and is to be acknowledged if it is block 0. |
| Modem.SilentOpening | bootloader/bootloader/xyzModem.c:429-461 | A sender that never answers is asked nine times for CRC and eleven times for the sum. |
| Modem.Receiver.StreamOpen | bootloader/bootloader/xyzModem.c:386-461 | Opening outcome, mode, remaining line and every character written as the specification says; afterwards block 1 is expected and nothing is owed. |
| Modem.Upload | bootloader/bootloader/bootloader.c:628-664 | The file equals the byte stream and every write but the last is longer than 3840 bytes, unless the loop reads again after a failed read; that happens if and only if the transfer fails before end of file with part of a buffer read. Reported complete exactly when the file ends, and ends well or in mid-buffer. |
| Modem.OneBlockThenSilence | bootloader/bootloader/bootloader.c:632-659 | The failure has an input: one block without pad and then silence meets the condition for reading on after a failed read. |
| Modem.ReceiveFile | bootloader/bootloader/bootloader.c:600-664 | Opening and transfer composed: from an honest line within the retry budget the file is blocks 1..n in order, each once, pad stripped; on any line nothing is written to the port while a byte taken is still owed. |
| SrecText.DigitsMean | bootloader/bootloader/bin2srec/common.c:26-38 | Every hexadecimal digit has its value in either case, and the writer prints upper case. |
| SrecText.OthersAreZero | bootloader/bootloader/bin2srec/common.c:26-38 | Any other character counts as zero. |
| SrecText.StrToUint32 | bootloader/bootloader/bin2srec/common.c:42-56 | The number the first eight digits spell; the 32-bit shifts lose nothing. |
| SrecText.RecordSums | bootloader/bootloader/bin2srec/bin2srec.c:101-122 | The bytes of a record with its checksum sum to 0xFF modulo 256. |
| SrecText.AddressBack | bootloader/bootloader/bin2srec/bin2srec.c:107-112 | The address bytes spell the address for every width that holds it. |
| SrecText.RecordBack | bootloader/bootloader/bin2srec/srec2bin.c:69-112 | The reader's meaning of a written data record is its address and bytes. |
| SrecText.LowerRecord | bootloader/bootloader/bin2srec/srec2bin.c:69-112 | A record means the same with its digits in lower case. |
| SrecRead.SeenMeans | bootloader/bootloader/bin2srec/srec2bin.c:65-67 | The read loop sees each line once, and the last one twice unless the file ends within it. |
| SrecRead.LastTwice | bootloader/bootloader/bin2srec/srec2bin.c:89-112 | Taking the last record twice changes neither the scanned extent nor the output. |
| SrecRead.OverlayCell | bootloader/bootloader/bin2srec/srec2bin.c:99-111 | Each output byte is that of the last record covering it, else the filler. |
| SrecRead.CellMeans | bootloader/bootloader/bin2srec/srec2bin.c:99-111 | The last record that covers an address decides its byte. |
| SrecRead.ExtentMeans | bootloader/bootloader/bin2srec/srec2bin.c:141-154 | The output starts at the option or the lowest record, is at least the size asked for with -a, reaches the end of every record, and is no longer than one of these asks for. |
| SrecRead.ImageMeans | bootloader/bootloader/bin2srec/srec2bin.c:141-166 | For any file with a data byte: output length is the extent if and only if not the whole 32-bit space was asked for, and then each byte is that of the last record covering it, else the filler. |
| SrecRead.ImageOfNothing | bootloader/bootloader/bin2srec/srec2bin.c:141-166 | A file without data records yields filler to the top of the space, or nothing from address zero. |
| SrecRead.ParseLine | bootloader/bootloader/bin2srec/srec2bin.c:69-114 | One line in either pass: extent widened, or data written in place. |
| SrecRead.Parse | bootloader/bootloader/bin2srec/srec2bin.c:56-120 | A pass computes the extent or the output in terms of the lines taken once each. |
| SrecRead.Process | bootloader/bootloader/bin2srec/srec2bin.c:124-166 | Both passes with 32-bit address arithmetic give the specified image, for every file of complete records of at most 32 bytes. |
| SrecWrite.Width | bootloader/bootloader/bin2srec/bin2srec.c:75-79 | The widened address size holds the highest address and is no wider than asked or needed. |
| SrecWrite.ChunksTile | bootloader/bootloader/bin2srec/bin2srec.c:96-125 | The records printed tile the range: each byte in exactly one record at its own address, all full but the last. |
| SrecWrite.TilesTouch | bootloader/bootloader/bin2srec/bin2srec.c:96-125 | Records of a tiling start at the offset, touch each other and end at the end of the range. |
| SrecWrite.TilesImage | bootloader/bootloader/bin2srec/srec2bin.c:141-166 | The reader's image of any tiling is filler up to the range and then the range. |
| SrecWrite.LinesBack | bootloader/bootloader/bin2srec/srec2bin.c:65-67 | Newline-terminated lines printed one after the other are read back as printed. |
| SrecWrite.CountLineExactly | bootloader/bootloader/bin2srec/bin2srec.c:129-130 | The count line is a well-formed S5 record if and only if the count fits two bytes. |
| SrecWrite.PrintedMeans | bootloader/bootloader/bin2srec/bin2srec.c:93-144 | The printed file line by line: the S0 header, one S1, S2 or S3 record for each chunk in order, the S5 count of them while it fits, and the S9, S8 or S7 record with the offset. |
| SrecWrite.HeaderGood | bootloader/bootloader/bin2srec/bin2srec.c:93-94 | The fixed header line is the S0 record of HDR, checksum included. |
| SrecWrite.PrintRecord | bootloader/bootloader/bin2srec/bin2srec.c:101-122 | The printing loops with the running 8-bit checksum produce the specified record. |
| SrecWrite.WriteData | bootloader/bootloader/bin2srec/bin2srec.c:96-125 | The address loop prints exactly the chunks of the range, one record each, and counts them. |
| SrecWrite.Write | bootloader/bootloader/bin2srec/bin2srec.c:60-144 | The whole output as a function of the bytes: header, one record for each chunk, count and end records, with the widened address size. |
| SrecWrite.WrapGoesOn | bootloader/bootloader/bin2srec/bin2srec.c:96-96 | Why the no-wrap condition is needed: a wrapped address is below the highest one again and the loop goes on. |
| SrecWrite.RoundTrip | bootloader/bootloader/bin2srec/srec2bin.c:56-166 | Reading what was written with start option m rebuilds filler^(offset - min(m, offset)) followed by exactly the bytes. |
| SrecWrite.WriteThenRead | bootloader/bootloader/bin2srec/srec2bin.c:56-166 | The two programs composed: with -o at the offset exactly the bytes, with default options offset filler bytes and then the bytes. |
| LcdScroll.StandsStill | packages/devs/serial/sopc/altera_avalon_lcd_16207/current/src/altera_avalon_lcd_16207.c:449-505 | A row no wider than the panel stands still while the other scrolls, and every row starts at its start. |
| LcdScroll.KeepsPace | packages/devs/serial/sopc/altera_avalon_lcd_16207/current/src/altera_avalon_lcd_16207.c:487-491 | All scrolling rows keep pace: after pos of the 2 * widest positions each has moved that part of its own width, to within two columns. |
| LcdScroll.EveryColumnComes | packages/devs/serial/sopc/altera_avalon_lcd_16207/current/src/altera_avalon_lcd_16207.c:487-491 | In one round of scroll positions every column of every scrolling row is on the panel at some position. |
| LcdScroll.ScrollsExactly | packages/devs/serial/sopc/altera_avalon_lcd_16207/current/src/altera_avalon_lcd_16207.c:449-478 | The timer shows every column of the widest row if and only if its width is at most 63, because scrollmax is a char. |
| LcdScroll.ExitTest | packages/devs/serial/sopc/altera_avalon_lcd_16207/current/src/altera_avalon_lcd_16207.c:512-529 | With fewer than scrollmax ticks in a pass, an unchanged scrollpos means no tick moved it at any moment of the pass. |
| LcdScroll.RoundUnnoticed | packages/devs/serial/sopc/altera_avalon_lcd_16207/current/src/altera_avalon_lcd_16207.c:521-524 | The bound is exact: scrollmax ticks go unnoticed while another frame was painted. |
| LcdScroll.PassEnds | packages/devs/serial/sopc/altera_avalon_lcd_16207/current/src/altera_avalon_lcd_16207.c:514-524 | The exit test in terms of the schedule: if the position at the test is the one read first, the frame painted is its frame. |
| LcdScroll.Visited | packages/devs/serial/sopc/altera_avalon_lcd_16207/current/src/altera_avalon_lcd_16207.c:588-592 | From zero the timer visits exactly the positions below scrollmax, or only zero. |
| Lcd.Device.constructor | packages/devs/serial/sopc/altera_avalon_lcd_16207/current/src/altera_avalon_lcd_16207.c:619-660 | Start: cleared panel mirrored by the shadow, timer not scrolling. |
| Lcd.Device.WaitReady | packages/devs/serial/sopc/altera_avalon_lcd_16207/current/src/altera_avalon_lcd_16207.c:165-177 | The device is marked broken exactly when the busy limit is reached, and stays so. |
| Lcd.Device.Paint | packages/devs/serial/sopc/altera_avalon_lcd_16207/current/src/altera_avalon_lcd_16207.c:272-287 | One cell: no access when the shadow has the character; afterwards shadow and panel agree on it and everywhere else, cursor included, unless broken. |
| Lcd.Device.ClearScreen | packages/devs/serial/sopc/altera_avalon_lcd_16207/current/src/altera_avalon_lcd_16207.c:230-246 | Clearing keeps the shadow equal to the panel. |
| Lcd.Device.MeasureRow | packages/devs/serial/sopc/altera_avalon_lcd_16207/current/src/altera_avalon_lcd_16207.c:453-465 | The downward search finds the width of the row: up to the last non-blank and one space, at least 16. |
| Lcd.Device.Tune | packages/devs/serial/sopc/altera_avalon_lcd_16207/current/src/altera_avalon_lcd_16207.c:449-505 | Widths, speeds and scrollmax belong to the text, truncation of scrollmax to char included. |
| Lcd.Device.Repaint | packages/devs/serial/sopc/altera_avalon_lcd_16207/current/src/altera_avalon_lcd_16207.c:252-290 | Whatever ticks fall in it, the shadow (and so the panel) ends with the whole frame of the position it read. |
| Lcd.Device.Tick | packages/devs/serial/sopc/altera_avalon_lcd_16207/current/src/altera_avalon_lcd_16207.c:584-597 | Moves the position on; while the foreground is active it touches neither panel nor shadow, otherwise it leaves the frame of the new position. |
| Lcd.Device.PaintUntilSteady | packages/devs/serial/sopc/altera_avalon_lcd_16207/current/src/altera_avalon_lcd_16207.c:507-529 | For every schedule of ticks at the 34 moments of each pass: the loop ends only with the frame of the current position shown, provided its last pass saw fewer than scrollmax ticks. |
| Lcd.Device.Putc | packages/devs/serial/sopc/altera_avalon_lcd_16207/current/src/altera_avalon_lcd_16207.c:382-531 | The same for a whole character, any edit of the text and ticks at any moment: the panel itself shows the frame, and rows that fit it as they are, unless broken. |
| Lcd.Session | packages/devs/serial/sopc/altera_avalon_lcd_16207/current/src/altera_avalon_lcd_16207.c:507-597 | Over every run of characters and timer ticks in which no pass can see scrollmax ticks: the panel shows the frame of the current position; for text wider than the scroll counter, that of the position last painted, which a tick since has set to zero without painting. |

## Left out

- EthOcmDriver.Driver.constructor: starts with every receive descriptor armed; frames that arrive in the middle of `eth_ocm_read_init`, and the driver going on after it failed, are not modelled.
- EthOcmTheorems.SetUpFailsOnlyOnLength: takes ETHHDR_BIAS as 2; InterNiche's ipport.h is not part of this model.
- Oeth.KeysOnce: runs in which a send is refused are excluded from the legal runs (`Oeth.SendExactly` and `Oeth.NeverTold` say what those do); the `tx_done` callback is a log entry and does not send; keys are nonzero, since the driver uses zero for none.
- OethDriver.Driver.SendNow: the scatter-gather copy is one sequence of bytes whose length is `total_len`; the PAD bit and the single-descriptor toggling of TXEN are not modelled.
- Spi.Master.Command: lengths both zero are excluded, since the loop would wait for a reply that cannot come; the TOGGLE_SS_N flag is not modelled.
- EpcsFlash.WriteBlock: asks that a range starting inside the device also ends inside it, which both callers ensure; page programs that pass the end of the device are not modelled.
- EpcsFlash.EraseBlocks: block-aligned offset and length only; on an unaligned length the source's unsigned counter wraps.
- EthOcmDriver.Driver.RxProcess: the header fields filled in for the stack (`nb_prot`, `nb_plen`, `type`) are not modelled, nor are the PAD and CRC bits of transmit descriptors, which are constant.
- ModemFrame.ParseEncode: `cyg_crc16` is a parameter, any function of the packet; the additive sum is concrete.
- Modem.Receiver.StreamRead: no further read after a read that failed before end of file, because the source then copies a length of -1.
- Modem.Upload: stops where the source would make that further read; a short `write()` is not modelled.
- SrecRead.Process: lines that would overrun the reader's 32-byte buffer, are cut short, or reach address 2^32 are excluded; checksums are not looked at, as in the source.
- SrecWrite.Write: asks that the address after the last record stays below 2^32; `SrecWrite.WrapGoesOn` shows what happens otherwise.
- Lcd.Device.Putc: cursor motion and escape parsing are any edit of the first 80 columns, or a clear.
- Progress of the LCD repaint loop when ticks never stop arriving: runs are over finite schedules of ticks.
- Exceptional MAC events (control frames), PHY and MDIO access, link negotiation: register scripts.
- The triple-speed MAC and scatter-gather DMA drivers: they depend on hardware behaviour after reset.
- The receive path of if_oeth.c: its error flag is never reset within a batch, so there is no per-frame law.
- Firmware utility, inflate, CompactFlash, UARTs, timers, console, POSIX glue, bootloader menu: thin wrappers or libraries that are not in the tree.
- Statistics other than the counters named above, debug prints and real-time delays.
