# Drivers and tools of the Rockchip UEFI tree, modelled and proved

Five pieces of the firmware tree whose behaviour is hard to see from any one function, modelled in
Dafny in the form the source gives them and proved against what they are for.

* **The KDCOM peer** of `scripts/kd-listen.py` (`KdFraming`, `KdRoundTrip`, `KdSession`, `KdLine`, `KdPeer`).
  An incremental, resynchronising packet parser around a small session protocol. The reference is one
  recursive parse of the whole stream and one left-to-right run over the packets in it; the running
  peer, with its trimmed buffer and its globals, refines both however the stream is cut into reads.
* **The SPI-NOR driver** (`NorFlash`, `NorDevice`, `NorDriver`, `NorBytes`). The chip is a class with a byte array,
  a write-enable latch, a busy period and two status bytes; it only clears bits, wraps inside a page and
  ignores commands at the wrong time. The driver over it is proved to be a plain byte array, and never
  to send a command at the wrong time.
* **The framebuffer Blt** (`Images`, `BltSpec`, `BltMemory`, `Blt`). Overlapping moves done in place and a rotated
  variant, against the simultaneous operation of EFI_GRAPHICS_OUTPUT_PROTOCOL.Blt(), section 12.9 of the
  UEFI Specification, on the picture that the framebuffer shows.
* **OHCI transfer scheduling** (`OhciSpec`, `OhciChain`, `OhciWalk`, `OhciSched`, `OhciWords`, `OhciDriver`). Linked
  chains of transfer descriptors, the interrupt context list, the completion walkers and the re-arming of
  periodic transfers (OpenHCI Release 1.0a, sections 4.2.2 and 4.3.1), with the controller writing into the
  descriptors at any time.
* **EDID and display selection** (`EdidCea`, `EdidTiming`, `DisplayModes`, `EdidOffers`, `EdidBytes`,
  `EdidPreferred`, `PredefinedModes`, `Displays`). The CEA data block walk, the bit-packed timing codec, the choice of a preferred mode by
  four strategies, and the compaction and ownership of display states.

`Bytes` holds little-endian integers and byte sums, `Sequences` overwriting, `Wrappers` the optional value. `dafny verify
dfyconfig.toml` checks everything.

## How the model is set up

* Widths are written out where they matter: 32-bit addresses and sums in the NOR driver, descriptor
  addresses, clocks and areas; unbounded numbers stand for `UINTN` coordinates and lengths.
* Whatever the outside world decides is a parameter or is left open: how long the chip stays busy (any period
  inside the polling budgets), whether memory can be had, what the OHCI controller writes, what a connector
  answers, which bytes arrive when. The searches work on any sequence of modes; `PredefinedModes` has the real one.
* What a result comes to on the wire, in memory and in registers is stated once more by addresses, bytes and
  register values alone, without the functions the rest is built from: `KdLine`, `NorBytes`, `BltMemory`,
  `OhciWords`, `EdidBytes`.
* Buffers the source only reads are sequences; memory it writes is an array or a field.
* Pools keep the set of what is allocated, and freeing asks for a member of it, so that a double free could
  not be verified.

## Where code and intention part

* `Update` computes the distance to the sector start once and does not shorten its first chunk. A range that
  starts inside a sector and runs past its end overruns the sector buffer; of each chunk only what fits the sector
  is written, the bytes in front of a chunk of a whole sector's length become zero, and inside the chip the call reports success.
  `NorDriver.UpdateIsRightExactlyWhen` has the exact condition, `NorDriver.UpdateAtOne` an instance.
* The comment on the HAL reads and writes promises the length on success; a length is no error code, which is
  what `Write` and `SpiFlashUpdateBlock` rely on. `SNOR_WriteStatus` in its two-byte mode and
  `HAL_SNOR_ProgData` ignore a time-out of the wait; inside the polling budgets there is none.
* `LcdGraphicsBlt90` copies from left to right whatever the overlap. A move along its own row to an
  overlapping place on the right repeats the leading pixels; `BltSpec.MoveIsSimultaneousExactlyWhen` shows that
  this is the whole family of failures.
* `OhciHouseKeeper` returns from its loop on an error other than a stall without restoring the task priority
  (`raised` in `OhciSched.Hc.HouseKeeper`), so entries behind the failed one are not served in that pass.
* `OhciInterruptTransfer` reports success when the context entry cannot be allocated, although it has freed the
  chain; `OhciSyncInterruptTransfer` returns the status of taking the transfer down, not of the transfer, and
  cancels whatever asynchronous transfer is listed for the endpoint. Taking down frees the chains of listed
  entries, and a synchronous transfer is not listed: its own chain is never freed (`OhciDriver.SyncInterrupt`).
  A packet size that is 0 modulo 256 never succeeds for an interrupt transfer.
* `OhciInterruptTransfer` checks the length before it looks whether the transfer is new. A cancel that happens to
  name more than 4096 bytes is refused, nothing is freed, and the transfer keeps running (`OhciDriver.Cancel`,
  `OhciDriver.CancelRefused`); the documentation has the length required for new transfers only.
* `OhciFindWorkingEd` looks for an endpoint descriptor with a direction of its own, and every one made here
  takes its direction from the transfers, so none is ever found and each submission makes its own.
* The comment in `EdidGetPreferredModeDetailed` says that a bad checksum of block 0 falls back to the built-in
  mode; the code skips the descriptors of that block only and goes on to the extensions and to the other
  strategies, which do not look at the checksum.
* The comment in `EdidGetPreferredModeEstablished` says that the predefined list is in ascending order. The list
  as a whole is not: 1152 by 864 comes before 1280 by 720 (`PredefinedModes.ModesDoNotAscend`). The modes with an
  established timing are, so the largest one is taken after all (`PredefinedModes.LargestModeIsTaken`). The search
  compares 16 bits of the size and 8 of the refresh rate.
* The table of established timings has 1152 by 870 in bit 0 of its third byte, where section 3.8 of the VESA E-EDID
  Standard, Release A, has it in bit 7 (`EdidBytes.ThirdByte`). No predefined mode has that size.
* The stereo test of the detailed timing decode covers two of the three stereo bits, as in the code.
* The null check after `DetectDisplays` in `LcdGraphicsOutputInit` can never fire
  (`Displays.Instance.Detect`). A scan that stops at the first connected display leaves the states behind it
  in slots that nothing looks at again: they stay allocated when the start fails later
  (`Displays.Instance.Initialize`).

## Model

| member | source | states |
|---|---|---|
| `KdFraming.ParseResumes` | scripts/kd-listen.py:104-143 | parsing a stream up to any point and going on from the bytes left over gives the packets, and the rest, of one parse of the whole stream |
| `KdFraming.WaitingIsHarmless` | scripts/kd-listen.py:104-135 | when the parser stops to wait, what it keeps parses, with whatever comes next, like the untrimmed stream |
| `KdFraming.NextIsStable` | scripts/kd-listen.py:104-143 | a packet accepted, or a byte stepped over, stays so whatever bytes arrive behind it |
| `KdFraming.CoverIsEnough` | scripts/kd-listen.py:109-112 | a buffer cut to its last 16 bytes while it holds no leader yields the same packets as the uncut one on every continuation, and is again such a buffer afterwards |
| `KdFraming.TrimCovers` | scripts/kd-listen.py:109-112 | dropping all but the last 16 bytes of a leaderless buffer keeps what is needed |
| `KdFraming.ParseFromLeader` | scripts/kd-listen.py:113-120 | console bytes in front of the first leader play no part in what is parsed |
| `KdRoundTrip.RoundTrip` | scripts/kd-listen.py:36-56 | any interleaving of well-formed frames with console text that holds no whole leader parses back to exactly those frames and the trailing text |
| `KdRoundTrip.FrameSurvivesText` | scripts/kd-listen.py:104-143 | a frame behind text is accepted whole even when the text ends in leader characters or the payload holds leaders |
| `KdRoundTrip.EarlyMatchIsRejected` | scripts/kd-listen.py:127-133 | a leader matched early, across the end of the text, is rejected and costs one byte |
| `KdRoundTrip.ExamineEncoded` | scripts/kd-listen.py:121-143 | an encoded frame at the front of the buffer is accepted with all its fields, whatever follows |
| `KdRoundTrip.AcceptedWasEncoded` | scripts/kd-listen.py:121-143 | what is accepted is byte for byte the encoding of the packet reported, which is well formed |
| `KdRoundTrip.AcceptedAreInTheStream` | scripts/kd-listen.py:104-143 | nothing is invented: for every byte stream the accepted packets are frames standing in it in order, with only skipped bytes between them |
| `KdSession.IdsAlternate` | scripts/kd-listen.py:50-56 | after any run the next data packet id is INITIAL_PACKET_ID plus the parity of the data packets sent since the last RESET received |
| `KdSession.ReplyToWanted` | scripts/kd-listen.py:155-183 | a packet that asks for an answer gets exactly one control reply and then one data packet with the alternating id, which becomes the one to resend |
| `KdSession.RepliesAreCounted` | scripts/kd-listen.py:145-231 | over any run, as many control replies as data packets and RESETs, as many new data packets as packets that want one, and no more repeats than RESENDs |
| `KdSession.RepliesAreTheImage` | scripts/kd-listen.py:145-231 | over any run, the writes of each kind are the ordered image of the packets: a RESET for each sync packet and RESET and the acknowledgement of its own id for any other data packet; the data each asks for under the id then due; and for each RESEND the data packet written last before it |
| `KdSession.ResendRepeats` | scripts/kd-listen.py:211-218 | RESEND puts the latest data packet on the line again byte for byte, or nothing when there is none, and changes no state |
| `KdSession.LastSentIsLatest` | scripts/kd-listen.py:48-56 | what is kept for RESEND is always the bytes of the newest data packet written |
| `KdSession.FileIoIsRefused` | scripts/kd-listen.py:66-72 | a FILE_IO request is answered by its own api number and STATUS_NOT_IMPLEMENTED |
| `KdSession.StateChangeIsContinued` | scripts/kd-listen.py:58-62 | a state change is answered by a continue for the processor it names |
| `KdSession.RunIsReadable` | scripts/kd-listen.py:36-72 | all that is ever written is a stream of well-formed packets, which parses back to exactly one packet per write |
| `KdLine.LineIsLineOf` | scripts/kd-listen.py:36-231 | after any run every byte on the line is the one the accepted packets call for, written down in the numbers of the wire: leaders, types, lengths, alternating ids, checksums, payloads, trailers and repeats |
| `KdLine.SyncIsReset` | scripts/kd-listen.py:155-163 | the control reply added for a data packet is a RESET when its id has bit 11 set, else the acknowledgement of that id |
| `KdLine.ControlBytes` | scripts/kd-listen.py:36-39 | the sixteen bytes of a control packet |
| `KdLine.DataBytes` | scripts/kd-listen.py:50-56 | the bytes of a data packet: the header with the sum of the payload in 32 bits, the payload and the trailer |
| `KdLine.WantedIsAsked` | scripts/kd-listen.py:58-72 | the payloads of a continue and of a refusal byte by byte, with the processor and the api number copied from what they answer |
| `KdLine.TakenExactlyWhen` | scripts/kd-listen.py:123-143 | what becomes of the bytes at a leader: stepped over, waited for, or taken with all fields, from the type, the length, the checksum and the trailer alone |
| `KdLine.TimesSeenCounts` | scripts/kd-listen.py:147-154 | how often an id and checksum was seen is the number of places it came in at with no RESET behind |
| `KdPeer.FindLeader` | scripts/kd-listen.py:105-108 | the first position of a leader of one kind, or -1 when there is none |
| `KdPeer.Peer.SendCtrl` | scripts/kd-listen.py:36-39 | one control packet is written, the encoding of its type and id |
| `KdPeer.Peer.SendData` | scripts/kd-listen.py:50-56 | one data packet with the current id is written and remembered, and the low id bit flips |
| `KdPeer.Peer.SendContinue` | scripts/kd-listen.py:58-62 | the continue message is written as a data packet |
| `KdPeer.Peer.SendFileIoFail` | scripts/kd-listen.py:66-72 | the refusal is written as a data packet |
| `KdPeer.Peer.HandleData` | scripts/kd-listen.py:146-209 | the writes and the state after a data packet are those of the session; the retransmission count of its id and checksum goes up by one |
| `KdPeer.Peer.HandleControl` | scripts/kd-listen.py:210-231 | the writes and the state after a control packet are those of the session; RESET forgets what was seen |
| `KdPeer.Peer.Handle` | scripts/kd-listen.py:145-231 | the running peer stays in step with the run of accepted packets, and the count of each (id, checksum) is how often it was seen since the last RESET |
| `KdPeer.Peer.Turn` | scripts/kd-listen.py:104-143 | each turn of the framing loop stops, with all packets so far accepted, or strictly shortens the buffer and loses no packet |
| `KdPeer.Peer.Feed` | scripts/kd-listen.py:80-143 | one read: what is on the line is the reply to one parse of all bytes received, and nothing written is taken back |
| `KdPeer.Listen` | scripts/kd-listen.py:76-231 | for every cut of the stream into reads, the writes are the replies to the packets of one recursive parse of the concatenated stream, and the bytes on the line are those the packets call for |
| `NorFlash.PageProgramStaysInside` | Silicon/Rockchip/Drivers/NorFlashDxe/NorFlashDxe.c:682-691 | a program that stays inside its 256-byte page does not wrap and touches only its own bytes |
| `NorFlash.ProgramSplit` | Silicon/Rockchip/Drivers/NorFlashDxe/NorFlashDxe.c:682-697 | any split of a program into consecutive programs has the effect of the one |
| `NorFlash.ProgramMore` | Silicon/Rockchip/Drivers/NorFlashDxe/NorFlashDxe.c:682-697 | the next page program of a longer run extends the one unbounded program it stands for |
| `NorFlash.ErasedThenProgrammed` | Silicon/Rockchip/Drivers/NorFlashDxe/NorFlashDxe.c:815-824 | in an erased range, clearing bits is writing |
| `NorFlash.UpdatedIsSpliced` | Silicon/Rockchip/Drivers/NorFlashDxe/NorFlashDxe.c:1240-1249 | an update that starts on a sector or stays in one is a plain write |
| `NorFlash.SplicedIsWritten` | Silicon/Rockchip/Drivers/NorFlashDxe/NorFlashDxe.c:1212-1255 | overwriting a range inside the chip puts the whole buffer there and leaves every other byte, and nothing else does |
| `NorFlash.UpdateNext` | Silicon/Rockchip/Drivers/NorFlashDxe/NorFlashDxe.c:1166-1191 | one more piece of an update that starts inside a sector: what the sector buffer holds in front of the data, and which bytes of the next sector are not reached |
| `NorFlash.UpdateBeyond` | Silicon/Rockchip/Drivers/NorFlashDxe/NorFlashDxe.c:1240-1249 | pieces behind the end of the chip change nothing |
| `NorFlash.UpdateDamages` | Silicon/Rockchip/Drivers/NorFlashDxe/NorFlashDxe.c:1182-1191 | an update that starts inside a sector and runs past its end damages some contents, whatever the data |
| `NorFlash.RewrittenHead` | Silicon/Rockchip/Drivers/NorFlashDxe/NorFlashDxe.c:1193-1207 | new bytes at the head of an erased sector and the backup behind them are a plain write of the new bytes |
| `NorDevice.Chip.PageProgram` | Silicon/Rockchip/Drivers/NorFlashDxe/NorFlashDxe.c:316-346 | the device: ANDs into the page, wrapping inside it, only when idle with the write latch set, which it then clears before a busy period |
| `NorDevice.Chip.Erase` | Silicon/Rockchip/Drivers/NorFlashDxe/NorFlashDxe.c:349-410 | the device: erases the aligned sector, block or chip around the address, under the same conditions |
| `NorDevice.Chip.WriteStatus` | Silicon/Rockchip/Drivers/NorFlashDxe/NorFlashDxe.c:489-535 | the device: takes the status bytes given and only those, under the same conditions |
| `NorDriver.Nor.RangeCheckIsExact` | Silicon/Rockchip/Drivers/NorFlashDxe/NorFlashDxe.c:636-638 | the range check refuses exactly the ranges not inside a device of at most 2 GiB: its 32-bit sum cannot wrap |
| `NorDriver.Nor.WaitBusy` | Silicon/Rockchip/Drivers/NorFlashDxe/NorFlashDxe.c:441-468 | succeeds exactly when the busy period is shorter than the budget, and sends nothing but status reads |
| `NorDriver.Nor.ReadStatus` | Silicon/Rockchip/Drivers/NorFlashDxe/NorFlashDxe.c:470-486 | the register asked for, the latch and busy bits with it, by status reads alone |
| `NorDriver.Nor.WriteStatus` | Silicon/Rockchip/Drivers/NorFlashDxe/NorFlashDxe.c:488-538 | one status register takes the value and the other keeps its own, with either write command |
| `NorDriver.Nor.ReadData` | Silicon/Rockchip/Drivers/NorFlashDxe/NorFlashDxe.c:623-655 | the bytes of the range, read in pieces of 8 KiB, or an error and nothing |
| `NorDriver.Nor.ProgData` | Silicon/Rockchip/Drivers/NorFlashDxe/NorFlashDxe.c:665-700 | each byte of the range becomes old AND new and no other byte changes, although each command stays inside a page; or an error and nothing |
| `NorDriver.Nor.Erase` | Silicon/Rockchip/Drivers/NorFlashDxe/NorFlashDxe.c:709-738 | the aligned range around the address is erased and nothing else |
| `NorDriver.Nor.Read` | Silicon/Rockchip/Drivers/NorFlashDxe/NorFlashDxe.c:748-765 | whole sectors read, with sector numbers turned into 32-bit addresses |
| `NorDriver.Nor.Write` | Silicon/Rockchip/Drivers/NorFlashDxe/NorFlashDxe.c:775-792 | whole sectors programmed |
| `NorDriver.Nor.OverWrite` | Silicon/Rockchip/Drivers/NorFlashDxe/NorFlashDxe.c:802-832 | the sectors hold the data and nothing else changed; past the end of the chip, the sectors in front of it do and an error is returned |
| `NorDriver.Nor.OverWriteThenRead` | Silicon/Rockchip/Drivers/NorFlashDxe/NorFlashDxe.c:748-832 | overwritten sectors read back as written, exactly when they lie inside the chip |
| `NorDriver.Nor.EraseSectors` | Silicon/Rockchip/Drivers/NorFlashDxe/NorFlashDxe.c:1063-1097 | an aligned range is erased sector by sector, up to the end of the chip; an unaligned one is refused |
| `NorDriver.Nor.CopyInto` | Silicon/Rockchip/Drivers/NorFlashDxe/NorFlashDxe.c:1183-1183 | what fits is in the sector buffer, and whether the copy went past its end |
| `NorDriver.Nor.UpdateBlock` | Silicon/Rockchip/Drivers/NorFlashDxe/NorFlashDxe.c:1149-1210 | the sector written back: the new bytes and the rest as it was, or, from inside a sector, the sector buffer with what of the new bytes fits; and whether they did |
| `NorDriver.Nor.Update` | Silicon/Rockchip/Drivers/NorFlashDxe/NorFlashDxe.c:1212-1255 | for every offset, length and memory state, the status, every byte of the contents after the call, and whether the sector buffer was overrun |
| `NorDriver.UpdateIsRightExactlyWhen` | Silicon/Rockchip/Drivers/NorFlashDxe/NorFlashDxe.c:1212-1255 | on all contents the call succeeds, with the whole buffer in the flash and every other byte as it was, if and only if the range is empty, or inside the chip and starting on a sector or staying in one |
| `NorDriver.UpdateAtOne` | Silicon/Rockchip/Drivers/NorFlashDxe/NorFlashDxe.c:1226-1249 | a sector of data at offset 1: byte 0 is lost, the last byte of the data is not written, the buffer is overrun, and the call reports success |
| `NorDriver.Perform` | Silicon/Rockchip/Drivers/NorFlashDxe/NorFlashDxe.c:429-1255 | each call of the driver leaves and gives back, status and bytes, what it does of a plain byte array |
| `NorDriver.RunCalls` | Silicon/Rockchip/Drivers/NorFlashDxe/NorFlashDxe.c:429-1255 | in every sequence of calls, commands that change the device meet it idle with the latch set, only status reads meet it busy, and the contents, every status and all bytes read are those of a plain byte array the calls were applied to |
| `NorBytes.EffectOnByte` | Silicon/Rockchip/Drivers/NorFlashDxe/NorFlashDxe.c:429-1255 | what each call leaves of each byte: AND-ed, erased with its aligned unit, overwritten, or as it was |
| `NorBytes.PageByte` | Silicon/Rockchip/Drivers/NorFlashDxe/NorFlashDxe.c:316-346 | byte k of a page program goes to its place in the page, wrapped inside it |
| `NorBytes.OtherPages` | Silicon/Rockchip/Drivers/NorFlashDxe/NorFlashDxe.c:316-346 | and no byte of another page changes |
| `NorBytes.ReadyExactlyWhen` | Silicon/Rockchip/Drivers/NorFlashDxe/NorFlashDxe.c:693-737 | the busy periods the driver is proved for: below its polling budgets, each given as a number |
| `BltSpec.CheckParameters` | Silicon/Rockchip/Drivers/LcdGraphicsOutputDxe/LcdGraphicsOutputBlt.c:13-74 | success exactly for a non-empty rectangle inside the screen on the sides the operation uses, with a buffer where one is needed |
| `BltMemory.AcceptedExactlyWhen` | Silicon/Rockchip/Drivers/LcdGraphicsOutputDxe/LcdGraphicsOutputBlt.c:15-74 | success operation by operation |
| `BltMemory.HoldsRowsExactlyWhen` | Silicon/Rockchip/Drivers/LcdGraphicsOutputDxe/LcdGraphicsOutputBlt.c:138-164 | the buffer has room for all rows exactly when it has for the last one |
| `Images.IndexInjective` | Silicon/Rockchip/Drivers/LcdGraphicsOutputDxe/LcdGraphicsOutputBlt.c:257-260 | no two pixels share a framebuffer cell, upright or rotated |
| `Images.IndexOnto` | Silicon/Rockchip/Drivers/LcdGraphicsOutputDxe/LcdGraphicsOutputBlt.c:257-260 | every framebuffer cell is some pixel, so (x, y) to (V-1-y) + x*V is a bijection onto [0, H*V) |
| `Images.IndexInRange` | Silicon/Rockchip/Drivers/LcdGraphicsOutputDxe/LcdGraphicsOutputBlt.c:257-260 | every pixel of the screen has its cell inside the framebuffer |
| `Images.ViewDetermines` | Silicon/Rockchip/Drivers/LcdGraphicsOutputDxe/LcdGraphicsOutputBlt.c:207-347 | what the picture shows determines every cell of the framebuffer, so nothing outside the rectangle is hidden from the statements below |
| `BltMemory.QuarterTurn` | Silicon/Rockchip/Drivers/LcdGraphicsOutputDxe/LcdGraphicsOutputBlt.c:257-259 | the rotated layout is the upright one of the same memory turned by 90 degrees: pixel (x, y) of the one is pixel (h-1-y, x) of the other |
| `Images.ViewRowCut` | Silicon/Rockchip/Drivers/LcdGraphicsOutputDxe/LcdGraphicsOutputBlt.c:174-182 | a row segment of the upright picture is a run of memory |
| `Images.ViewRowSplice` | Silicon/Rockchip/Drivers/LcdGraphicsOutputDxe/LcdGraphicsOutputBlt.c:178-182 | copying into a run of memory changes that row segment of the upright picture and no other pixel |
| `Images.ViewPixel` | Silicon/Rockchip/Drivers/LcdGraphicsOutputDxe/LcdGraphicsOutputBlt.c:257-261 | writing one cell changes one pixel of the picture, in both layouts |
| `BltSpec.PixelsOfBytes` | Silicon/Rockchip/Drivers/LcdGraphicsOutputDxe/LcdGraphicsOutputBlt.c:143-147 | a row of pixels comes back from its bytes in the buffer |
| `BltSpec.StoredRowStays` | Silicon/Rockchip/Drivers/LcdGraphicsOutputDxe/LcdGraphicsOutputBlt.c:138-148 | rows stored a stride apart stay as stored when they do not overlap |
| `BltSpec.LoadStored` | Silicon/Rockchip/Drivers/LcdGraphicsOutputDxe/LcdGraphicsOutputBlt.c:133-169 | with Delta at least the row width, what was stored in the buffer is loaded back |
| `BltSpec.OverlappingRowsLose` | Silicon/Rockchip/Drivers/LcdGraphicsOutputDxe/LcdGraphicsOutputBlt.c:133-148 | with Delta below the row width and two rows or more, some picture is always lost |
| `BltSpec.SaveAndRestore` | Silicon/Rockchip/Drivers/LcdGraphicsOutputDxe/LcdGraphicsOutputBlt.c:133-169 | saving a rectangle and putting it back restores it, whatever was drawn meanwhile, and leaves the rest of the later picture alone |
| `BltSpec.MoveIsSimultaneousExactlyWhen` | Silicon/Rockchip/Drivers/LcdGraphicsOutputDxe/LcdGraphicsOutputBlt.c:309-338 | a move copied pixel by pixel from left to right is the simultaneous copy on every picture if and only if it does not go along its own row to an overlapping place on the right |
| `BltSpec.CopiedTileIsCut` | Silicon/Rockchip/Drivers/LcdGraphicsOutputDxe/LcdGraphicsOutputBlt.c:309-338 | outside that family the copy is the source rectangle as it was |
| `BltSpec.SmearShows` | Silicon/Rockchip/Drivers/LcdGraphicsOutputDxe/LcdGraphicsOutputBlt.c:309-338 | for every request of that family a picture that comes out wrong |
| `BltMemory.UprightServed` | Silicon/Rockchip/Drivers/LcdGraphicsOutputDxe/LcdGraphicsOutputBlt.c:119-204 | from pictures to memory: after an operation each cell y*H + x holds what the operation puts there, told by the addresses of cells and buffer bytes alone; each pixel stored is at its four bytes, but where a later row lies over them, and every byte no row covers is as it was |
| `BltMemory.TurnedServed` | Silicon/Rockchip/Drivers/LcdGraphicsOutputDxe/LcdGraphicsOutputBlt.c:251-346 | the same for the rotated layout, with cell (V-1-y) + x*V, and for a smearing move the cell modulo the distance moved |
| `BltMemory.NothingOnTop` | Silicon/Rockchip/Drivers/LcdGraphicsOutputDxe/LcdGraphicsOutputBlt.c:142-147 | with Delta at least the row width, or one row, no later row lies over a pixel stored |
| `BltMemory.StoredWhole` | Silicon/Rockchip/Drivers/LcdGraphicsOutputDxe/LcdGraphicsOutputBlt.c:142-147 | so such a pixel is whole in the buffer |
| `Blt.MoveBelow` | Silicon/Rockchip/Drivers/LcdGraphicsOutputDxe/LcdGraphicsOutputBlt.c:184-196 | going down, a source row is still untouched when its turn comes, for a destination not below the source |
| `Blt.MoveAbove` | Silicon/Rockchip/Drivers/LcdGraphicsOutputDxe/LcdGraphicsOutputBlt.c:172-183 | going up, the same for a destination below the source |
| `Blt.CopiedPixel` | Silicon/Rockchip/Drivers/LcdGraphicsOutputDxe/LcdGraphicsOutputBlt.c:311-322 | which pixel of the old row an in-place copy from left to right ends up taking |
| `Blt.CopyOut` | Silicon/Rockchip/Drivers/LcdGraphicsOutputDxe/LcdGraphicsOutputBlt.c:147-147 | the bytes of a run of pixels are in the buffer at any byte offset, and nothing else of it changed |
| `Blt.CopyIn` | Silicon/Rockchip/Drivers/LcdGraphicsOutputDxe/LcdGraphicsOutputBlt.c:166-166 | a run of the framebuffer holds the pixels of those bytes, and nothing else of it changed |
| `Blt.Gop.FillUpright` | Silicon/Rockchip/Drivers/LcdGraphicsOutputDxe/LcdGraphicsOutputBlt.c:120-131 | the rectangle is solid and no other pixel changed |
| `Blt.Gop.StoreUpright` | Silicon/Rockchip/Drivers/LcdGraphicsOutputDxe/LcdGraphicsOutputBlt.c:133-150 | the buffer has the rectangle stored row by row |
| `Blt.Gop.LoadUpright` | Silicon/Rockchip/Drivers/LcdGraphicsOutputDxe/LcdGraphicsOutputBlt.c:152-169 | the rectangle shows what the buffer holds |
| `Blt.Gop.MoveUpright` | Silicon/Rockchip/Drivers/LcdGraphicsOutputDxe/LcdGraphicsOutputBlt.c:171-198 | the destination shows the old source rectangle, for every overlap |
| `Blt.Gop.FillRotated` | Silicon/Rockchip/Drivers/LcdGraphicsOutputDxe/LcdGraphicsOutputBlt.c:252-265 | the same fill on the turned picture |
| `Blt.Gop.StoreRotated` | Silicon/Rockchip/Drivers/LcdGraphicsOutputDxe/LcdGraphicsOutputBlt.c:267-286 | the same store from the turned picture |
| `Blt.Gop.LoadRotated` | Silicon/Rockchip/Drivers/LcdGraphicsOutputDxe/LcdGraphicsOutputBlt.c:288-307 | the same load into the turned picture |
| `Blt.Gop.MoveRotated` | Silicon/Rockchip/Drivers/LcdGraphicsOutputDxe/LcdGraphicsOutputBlt.c:309-340 | the move on the turned picture, with what a smearing move leaves spelled out |
| `Blt.Gop.LcdGraphicsBlt` | Silicon/Rockchip/Drivers/LcdGraphicsOutputDxe/LcdGraphicsOutputBlt.c:78-205 | status, picture and buffer after any call are those of the simultaneous operation on the old ones, and so is every cell and every byte by its address; a refused call changes nothing |
| `Blt.Gop.LcdGraphicsBlt90` | Silicon/Rockchip/Drivers/LcdGraphicsOutputDxe/LcdGraphicsOutputBlt.c:209-347 | through the rotation, the same status, picture, buffer, cells and bytes as LcdGraphicsBlt on the unrotated image for every request that does not smear, and what a smearing one leaves |
| `OhciSpec.PieceCount` | Silicon/Rockchip/Drivers/OhciDxe/Ohci.c:1097-1133 | as many descriptors as the length divided by the packet size, rounded up |
| `OhciSpec.PieceAt` | Silicon/Rockchip/Drivers/OhciDxe/Ohci.c:1097-1133 | descriptor i has its piece at i packets into the mapped range and the start toggle XOR i mod 2 |
| `OhciSpec.PiecesTile` | Silicon/Rockchip/Drivers/OhciDxe/Ohci.c:1097-1133 | the pieces tile the range one behind the other, none longer than a packet |
| `OhciSpec.PiecesAddUp` | Silicon/Rockchip/Drivers/OhciDxe/Ohci.c:1097-1133 | the lengths add up to the length of the transfer |
| `OhciWords.DataWords` | Silicon/Rockchip/Drivers/OhciDxe/Ohci.c:479-508 | every word of data descriptor i: rounding, direction, DATA0 or DATA1 by the parity of the start toggle and i, the unprocessed code, and the addresses of its first and last byte in 32 bits |
| `OhciWords.ControlWords` | Silicon/Rockchip/Drivers/OhciDxe/Ohci.c:438-557 | every word of a control chain: the setup under DATA0, the data from DATA1 on in turn, the status under DATA1, and the neutral tail |
| `OhciWords.WalkerGoesOn` | Silicon/Rockchip/Drivers/OhciDxe/OhciSched.c:261-286 | where the walker finds every data descriptor clean, the toggle it goes on with is the one the builder handed back |
| `OhciWords.ResultOfCode` | Silicon/Rockchip/Drivers/OhciDxe/OhciSched.c:167-209 | the transfer result of each of the sixteen completion codes |
| `OhciWords.FateOfCode` | Silicon/Rockchip/Drivers/OhciDxe/OhciSched.c:448-520 | code 0 completes, 4, 14 and 15 wait, any other ends the pass |
| `OhciWords.HandedOver` | Silicon/Rockchip/Drivers/OhciDxe/OhciSched.c:378-401 | what a callback gets: the start of the mapped buffer and the length of the first packet, nothing, or the result of the code |
| `OhciWords.CancelledUntouched` | Silicon/Rockchip/Drivers/OhciDxe/OhciSched.c:103-155 | a transfer cancelled before the controller has touched it hands back the toggle it was submitted with |
| `OhciWords.SelectIsTheFilter` | Silicon/Rockchip/Drivers/OhciDxe/OhciSched.c:116-152 | the entries freed are those that name the device and the endpoint address, in list order, and the others are those that do not |
| `OhciSpec.FateIsDecided` | Silicon/Rockchip/Drivers/OhciDxe/OhciSched.c:436-443 | the bit tests on a converted code leave alone exactly the stalled and the unprocessed transfers |
| `OhciSpec.WalkersAgreeExactlyWhen` | Silicon/Rockchip/Drivers/OhciDxe/OhciSched.c:224-286 | the walker that includes the tail and the one that does not report the same if and only if the tail is clean or an earlier code decided |
| `OhciSpec.RearmedIsFresh` | Silicon/Rockchip/Drivers/OhciDxe/OhciSched.c:453-520 | re-arming a chain that differs from its submission only in controller-written words and toggles gives exactly the chain of a new submission from the carried toggle |
| `OhciChain.Link` | Silicon/Rockchip/Drivers/OhciDxe/OhciUrb.c:510-535 | a descriptor is linked behind the last one, by both links |
| `OhciChain.FreeChain` | Silicon/Rockchip/Drivers/OhciDxe/OhciSched.c:85-89 | every descriptor of a chain goes back to the pool once |
| `OhciChain.Append` | Silicon/Rockchip/Drivers/OhciDxe/Ohci.c:1103-1128 | one more descriptor at the end of the chain, or the chain as it was when the pool is empty |
| `OhciChain.DataStage` | Silicon/Rockchip/Drivers/OhciDxe/Ohci.c:478-508 | the data loop of all three transfers: its descriptors, the toggle it leaves however it ends, and when it runs out of memory |
| `OhciChain.BuildChain` | Silicon/Rockchip/Drivers/OhciDxe/Ohci.c:787-858 | the chain of a bulk or interrupt transfer and the toggle for the next one; or no change to the pool, with the toggle flipped once for each descriptor there was |
| `OhciChain.BuildControlChain` | Silicon/Rockchip/Drivers/OhciDxe/Ohci.c:435-559 | setup, data from toggle 1, status and neutral tail, or no change to the pool |
| `OhciWalk.CheckTdsResults` | Silicon/Rockchip/Drivers/OhciDxe/OhciSched.c:223-249 | ends on every chain with the converted first non-zero code |
| `OhciWalk.CheckEdStatus` | Silicon/Rockchip/Drivers/OhciDxe/OhciSched.c:261-286 | ends with the first non-zero code in front of the tail, and with the toggle after the last clean descriptor |
| `OhciWalk.CheckIfDone` | Silicon/Rockchip/Drivers/OhciDxe/OhciSched.c:303-340 | done exactly when every descriptor in front of the tail is clean, pending exactly when the code is the unprocessed one, with the toggle behind the last clean descriptor |
| `OhciWalk.WalkersAgree` | Silicon/Rockchip/Drivers/OhciDxe/OhciSched.c:224-286 | run on one chain, the two results are equal if and only if the tail is clean or an earlier code decided |
| `OhciWalk.SetToggles` | Silicon/Rockchip/Drivers/OhciDxe/OhciSched.c:478-489 | toggles alternate from the carry and the tail has none; nothing else changes |
| `OhciWalk.ResetChain` | Silicon/Rockchip/Drivers/OhciDxe/OhciSched.c:491-508 | the words the controller writes are as at submission, the links are the driver's own again |
| `OhciWalk.Rearm` | Silicon/Rockchip/Drivers/OhciDxe/OhciSched.c:453-520 | a completed chain and its endpoint, made ready |
| `OhciSched.Resubmit` | Silicon/Rockchip/Drivers/OhciDxe/OhciSched.c:453-520 | the re-armed chain is the one OhciInterruptTransfer would build with the start toggle the controller carried over |
| `OhciSched.Hc.Add` | Silicon/Rockchip/Drivers/OhciDxe/OhciSched.c:22-47 | the entry joins the end of the list, whose entries keep their own separate chains |
| `OhciSched.Hc.FreeEntry` | Silicon/Rockchip/Drivers/OhciDxe/OhciSched.c:60-93 | all descriptors of the entry go back, each once |
| `OhciSched.SelectWithout` | Silicon/Rockchip/Drivers/OhciDxe/OhciSched.c:116-152 | taking out the first match leaves the order-preserving filter of the others as it was |
| `OhciSched.Hc.FreeContext` | Silicon/Rockchip/Drivers/OhciDxe/OhciSched.c:103-155 | what is left is the order-preserving filter of the entries that do not match; the pool gets back exactly the matching entries' descriptors; the toggle handed back is the last one's |
| `OhciSched.Hc.Visit` | Silicon/Rockchip/Drivers/OhciDxe/OhciSched.c:435-538 | one entry of the timer's pass: delivered and re-armed, with every word of its endpoint, or left alone, or the end of the pass |
| `OhciSched.Hc.HouseKeeper` | Silicon/Rockchip/Drivers/OhciDxe/OhciSched.c:412-542 | the whole pass: completed entries delivered and re-armed as fresh submissions, waiting ones untouched, up to the first error, which is delivered and leaves the priority raised; every endpoint is as it was found, or runs the chain re-armed last on it, neither skipped nor halted, with the carry used up |
| `OhciWords.PassLeaves` | Silicon/Rockchip/Drivers/OhciDxe/OhciSched.c:412-542 | each entry after a pass: a complete one is the submission again from the toggle carried over, or from 0 when an entry before it on the endpoint has used that up; any other is as it was |
| `OhciWords.PassLeavesEndpoint` | Silicon/Rockchip/Drivers/OhciDxe/OhciSched.c:512-520 | each endpoint after a pass: running the chain of the last complete entry on it, neither skipped nor halted, or as it was |
| `OhciDriver.PollingDepth` | Silicon/Rockchip/Drivers/OhciDxe/Ohci.c:1055-1060 | the interval tree level of the largest power of two, up to 32, that is not above the interval |
| `OhciDriver.WordsOf` | Silicon/Rockchip/Drivers/OhciDxe/Ohci.c:1023-1128 | every word of a submitted transfer, with direction IN exactly for an endpoint address with bit 7 set |
| `OhciDriver.Submit` | Silicon/Rockchip/Drivers/OhciDxe/Ohci.c:1018-1223 | status, list, pool and data toggle after a submission, whatever it is refused, and the chain and endpoint of the new entry |
| `OhciDriver.Start` | Silicon/Rockchip/Drivers/OhciDxe/Ohci.c:1157-1206 | the chain is queued on its endpoint and listed for its callback, or freed again when the context entry cannot be had |
| `OhciDriver.AsyncInterrupt` | Silicon/Rockchip/Drivers/OhciDxe/Ohci.c:1280-1330 | the exact status and data toggle of every call; a new transfer with a callback adds one entry, built as asked; a cancel that is not refused leaves the filter of the others and frees the matching chains; a refused call changes nothing |
| `OhciDriver.Cancel` | Silicon/Rockchip/Drivers/OhciDxe/Ohci.c:1018-1040 | a cancel with a length above 4096 is refused and removes nothing; any other leaves the filter of the others and hands back the toggle of the last entry removed |
| `OhciDriver.CancelRefused` | Silicon/Rockchip/Drivers/OhciDxe/Ohci.c:1018-1021 | an instance: a cancel that names 4097 bytes leaves the transfer running |
| `OhciDriver.Round` | Silicon/Rockchip/Drivers/OhciDxe/OhciSched.c:491-495 | the controller at work on a chain: only the words that are its own change, and none of the tail |
| `OhciDriver.Poll` | Silicon/Rockchip/Drivers/OhciDxe/Ohci.c:1420-1427 | with the controller writing before each check, polling stops at the first check that finds another code than the unprocessed one, or when time runs out, and reports the code of that check |
| `OhciDriver.PollSucceedsExactlyWhen` | Silicon/Rockchip/Drivers/OhciDxe/Ohci.c:1420-1427 | the result is success if and only if some check in time finds every descriptor clean with unprocessed ones at all checks before; time has run out exactly when every check finds an unprocessed one |
| `OhciDriver.SyncInterrupt` | Silicon/Rockchip/Drivers/OhciDxe/Ohci.c:1386-1450 | a synchronous transfer never joins the list and takes down what is listed for its endpoint, unless its parameters or its buffer are refused; its result is that of the check that decided, and none when it could not be submitted; the toggle is the one submitted or that of the last entry taken down; its own chain, one descriptor a packet and the tail, is what stays allocated |
| `OhciDriver.ControllerWrites` | Silicon/Rockchip/Drivers/OhciDxe/OhciSched.c:491-495 | the controller writing the words that are its own leaves the list invariant intact |
| `OhciDriver.Run` | Silicon/Rockchip/Drivers/OhciDxe/Ohci.c:1168-1190 | over all runs of calls, timer ticks and controller work, entries own disjoint allocated chains that are their submissions up to controller-written words, and each is periodic with a callback |
| `EdidCea.WalkTiles` | Silicon/Rockchip/Drivers/LcdGraphicsOutputDxe/Edid.c:248-314 | the blocks walked lie one behind the other inside the range, without gap or overlap |
| `EdidCea.Walk` | Silicon/Rockchip/Drivers/LcdGraphicsOutputDxe/Edid.c:248-254 | every block walked is a header and exactly the payload it announces |
| `EdidBytes.KindOf` | Silicon/Rockchip/Drivers/LcdGraphicsOutputDxe/Edid.c:57-189 | the kinds of a data block by its header byte and the bytes behind it |
| `EdidCea.KindsExclude` | Silicon/Rockchip/Drivers/LcdGraphicsOutputDxe/Edid.c:256-272 | no block is of two kinds, so the order of the tests does not matter |
| `EdidBytes.ShownBy` | Silicon/Rockchip/Drivers/LcdGraphicsOutputDxe/Edid.c:254-310 | the bytes each feature is read from |
| `EdidCea.SinkInfo.Read` | Silicon/Rockchip/Drivers/LcdGraphicsOutputDxe/Edid.c:256-311 | each feature is what it was or what this block shows |
| `EdidCea.SinkInfo.GetFeatures` | Silicon/Rockchip/Drivers/LcdGraphicsOutputDxe/Edid.c:217-318 | each feature is what it was or shown by some block of some extension, in whatever order |
| `EdidTiming.Pack12` | Silicon/Rockchip/Drivers/LcdGraphicsOutputDxe/Edid.c:363-382 | active and blanking lengths come back from their shared bytes |
| `EdidTiming.PackSync` | Silicon/Rockchip/Drivers/LcdGraphicsOutputDxe/Edid.c:366-414 | porches and sync widths come back from their shared bytes |
| `EdidTiming.UnpackSync` | Silicon/Rockchip/Drivers/LcdGraphicsOutputDxe/Edid.c:366-414 | the shared bytes are determined by the four fields |
| `EdidTiming.DecodeEncoded` | Silicon/Rockchip/Drivers/LcdGraphicsOutputDxe/Edid.c:343-433 | decoding the packed form of any mode it has room for, with positive back porches, gives that mode |
| `EdidTiming.EncodeDecoded` | Silicon/Rockchip/Drivers/LcdGraphicsOutputDxe/Edid.c:343-433 | every descriptor that decodes is the packed form of what it decodes to, and porches and sync of either axis add up to the blanking encoded |
| `EdidBytes.FieldsOf` | Silicon/Rockchip/Drivers/LcdGraphicsOutputDxe/Edid.c:345-433 | every field of a decoded descriptor in its bytes |
| `EdidBytes.DecodesExactlyWhen` | Silicon/Rockchip/Drivers/LcdGraphicsOutputDxe/Edid.c:345-433 | a descriptor decodes if and only if it has a clock, no interlace or stereo bit, and room for both back porches |
| `EdidBytes.FullHdIsDecoded` | Silicon/Rockchip/Drivers/LcdGraphicsOutputDxe/Edid.c:345-433 | an instance: the descriptor of 1920 by 1080 at 60 Hz |
| `DisplayModes.RefreshRounds` | Silicon/Rockchip/Library/DisplayLib/RockchipDisplayLib.c:84-115 | for every clock the hardware takes, the refresh rate is lines per second over lines per frame, rounded to the nearest |
| `DisplayModes.LookupFinds` | Silicon/Rockchip/Drivers/LcdGraphicsOutputDxe/DisplayModes.c:406-485 | a search ends with the first entry that fits, or with none when no entry does |
| `DisplayModes.LookupIsFirst` | Silicon/Rockchip/Drivers/LcdGraphicsOutputDxe/DisplayModes.c:406-485 | conversely, the first entry that fits is the one found |
| `DisplayModes.GetByVic` | Silicon/Rockchip/Drivers/LcdGraphicsOutputDxe/DisplayModes.c:406-423 | the first entry with the code |
| `DisplayModes.GetByResolution` | Silicon/Rockchip/Drivers/LcdGraphicsOutputDxe/DisplayModes.c:425-447 | the first entry with the resolution and rounded refresh rate |
| `DisplayModes.Match` | Silicon/Rockchip/Drivers/LcdGraphicsOutputDxe/DisplayModes.c:449-485 | the first entry with the same timing and a clock within the tolerance |
| `DisplayModes.DecodeAndMatch` | Silicon/Rockchip/Drivers/LcdGraphicsOutputDxe/Edid.c:435-463 | a decoded descriptor takes code and clock from the entry it matches |
| `DisplayModes.RoundedModeComesBack` | Silicon/Rockchip/Drivers/LcdGraphicsOutputDxe/Edid.c:435-463 | a table entry sent as a descriptor, its clock rounded to 10 kHz, comes back as that very entry when no earlier entry is as close |
| `DisplayModes.RoundedClockFits` | Silicon/Rockchip/Drivers/LcdGraphicsOutputDxe/Edid.c:450-453 | rounding stays inside the tolerance, so the entry itself always fits |
| `DisplayModes.MatchStaysClose` | Silicon/Rockchip/Drivers/LcdGraphicsOutputDxe/Edid.c:435-463 | a match changes the code, and the clock by no more than the tolerance; a code always comes from the table |
| `EdidBytes.StandardCode` | Silicon/Rockchip/Drivers/LcdGraphicsOutputDxe/Edid.c:797-847 | for every code that is not unused, the height is the width over the ratio rounded down, for 16:10, 4:3, 5:4 and 16:9, and the refresh rate 60 plus the low five bits; the two widths that stand for 1360 by 768 are a case of their own |
| `EdidBytes.StandardComesBack` | Silicon/Rockchip/Drivers/LcdGraphicsOutputDxe/Edid.c:797-847 | a timing of one of those ratios, written as a code, parses back |
| `EdidBytes.EstablishedBit` | Silicon/Rockchip/Drivers/LcdGraphicsOutputDxe/Edid.c:14-36 | each bit of the first two established bytes stands for the timing the standard has there |
| `EdidBytes.ThirdByte` | Silicon/Rockchip/Drivers/LcdGraphicsOutputDxe/Edid.c:37-54 | 1152 by 870 is read from bit 0 of the third byte |
| `EdidBytes.LookedUpAs` | Silicon/Rockchip/Drivers/LcdGraphicsOutputDxe/Edid.c:908-963 | modes are looked up as established by the low 16 bits of their size and the low 8 of their refresh rate |
| `EdidBytes.CodeOf` | Silicon/Rockchip/Drivers/LcdGraphicsOutputDxe/Edid.c:193-215 | short video descriptors: 129 to 192 are the codes 1 to 64 marked native, the others are themselves |
| `EdidBytes.HdmiCode` | Silicon/Rockchip/Library/DisplayLib/RockchipDisplayLib.c:172-183 | the HDMI codes in the CEA numbering |
| `EdidBytes.HdmiCodeComesBack` | Silicon/Rockchip/Library/DisplayLib/RockchipDisplayLib.c:157-183 | the two conversions between HDMI and CEA codes undo each other on the codes that have one |
| `EdidBytes.HdmiCodesOf` | Silicon/Rockchip/Drivers/LcdGraphicsOutputDxe/Edid.c:637-665 | where the HDMI codes of a vendor block are and how many, and when it has none |
| `EdidBytes.BaseOffers` | Silicon/Rockchip/Drivers/LcdGraphicsOutputDxe/Edid.c:485-511 | where block 0 keeps its descriptors, its standard and its established timings, and how many blocks there are |
| `EdidBytes.ExtensionOffers` | Silicon/Rockchip/Drivers/LcdGraphicsOutputDxe/Edid.c:513-541 | where each kind of extension keeps its descriptors, and how many |
| `EdidBytes.DataBlocksOf` | Silicon/Rockchip/Drivers/LcdGraphicsOutputDxe/Edid.c:238-248 | which extensions have data blocks, and between which bytes |
| `EdidBytes.OffersOfOne` | Silicon/Rockchip/Drivers/LcdGraphicsOutputDxe/Edid.c:570-691 | the codes a data block offers: those of a video block in order, or the HDMI codes of an HDMI vendor block |
| `EdidBytes.VideoOffersAppend` | Silicon/Rockchip/Drivers/LcdGraphicsOutputDxe/Edid.c:726-770 | the CEA codes of several blocks are those of the one behind those of the other |
| `EdidBytes.HdmiOffersAppend` | Silicon/Rockchip/Drivers/LcdGraphicsOutputDxe/Edid.c:726-770 | and so are their HDMI codes |
| `EdidBytes.StrategiesInOrder` | Silicon/Rockchip/Drivers/LcdGraphicsOutputDxe/Edid.c:986-1015 | detailed timings, then the CEA choice, then standard timings, then established ones, each only when those before it give nothing |
| `EdidBytes.TakenExactlyWhen` | Silicon/Rockchip/Drivers/LcdGraphicsOutputDxe/LcdGraphicsOutputDxe.c:1262-1290 | which modes a sink is driven with |
| `EdidBytes.RefreshOf` | Silicon/Rockchip/Library/DisplayLib/RockchipDisplayLib.c:84-143 | the refresh rate of a mode counts the porches and the sync, and is rounded to the nearest |
| `EdidOffers.SearchFinds` | Silicon/Rockchip/Drivers/LcdGraphicsOutputDxe/Edid.c:537-563 | a search ends with the first offer that gives a supported mode, or with none when no offer does |
| `EdidOffers.PickIsOffered` | Silicon/Rockchip/Drivers/LcdGraphicsOutputDxe/Edid.c:465-989 | each strategy answers exactly when it has a supported candidate, and then with one of them |
| `EdidOffers.PreferredIsFromTheFirstStrategy` | Silicon/Rockchip/Drivers/LcdGraphicsOutputDxe/Edid.c:991-1015 | the mode taken is supported and from the first strategy in order that has a supported candidate; there is none exactly when no strategy has |
| `EdidOffers.EstablishedTakesTheLargest` | Silicon/Rockchip/Drivers/LcdGraphicsOutputDxe/Edid.c:952-981 | with the modes of established timings in ascending order in the table, the established strategy takes a mode no supported listed one outranks |
| `EdidPreferred.IsListed` | Silicon/Rockchip/Drivers/LcdGraphicsOutputDxe/Edid.c:906-935 | some set bit stands for exactly this timing, as cut to 16, 16 and 8 bits |
| `EdidPreferred.LocateHdmiVics` | Silicon/Rockchip/Drivers/LcdGraphicsOutputDxe/Edid.c:637-661 | where the HDMI codes of a vendor block are, all of them inside it |
| `EdidPreferred.ByteSum` | Silicon/Rockchip/Drivers/LcdGraphicsOutputDxe/Edid.c:508-513 | the wrapped 8-bit sum of the block |
| `EdidPreferred.LocateDescriptors` | Silicon/Rockchip/Drivers/LcdGraphicsOutputDxe/Edid.c:499-553 | where a block keeps its detailed timings, all inside it |
| `EdidPreferred.Connector.GetPreferredModeDetailed` | Silicon/Rockchip/Drivers/LcdGraphicsOutputDxe/Edid.c:465-566 | the first supported descriptor of all blocks in order, or no change |
| `EdidPreferred.Connector.FirstVideoMode` | Silicon/Rockchip/Drivers/LcdGraphicsOutputDxe/Edid.c:568-621 | the first supported mode of a video block, and whether its code is marked native |
| `EdidPreferred.Connector.FirstHdmiMode` | Silicon/Rockchip/Drivers/LcdGraphicsOutputDxe/Edid.c:623-691 | the first supported mode of an HDMI vendor block; every read is inside the block |
| `EdidPreferred.Connector.ScanDataBlocks` | Silicon/Rockchip/Drivers/LcdGraphicsOutputDxe/Edid.c:727-757 | stopping once both modes are known loses nothing |
| `EdidPreferred.Connector.GetPreferredModeCea` | Silicon/Rockchip/Drivers/LcdGraphicsOutputDxe/Edid.c:693-793 | the choice between the first CEA and the first HDMI mode of all extensions, or no change |
| `EdidPreferred.Connector.GetPreferredModeStandard` | Silicon/Rockchip/Drivers/LcdGraphicsOutputDxe/Edid.c:849-904 | the first standard timing with a supported table entry, or no change |
| `EdidPreferred.Connector.GetPreferredModeEstablished` | Silicon/Rockchip/Drivers/LcdGraphicsOutputDxe/Edid.c:939-983 | the last table entry that is listed and supported, or no change |
| `EdidPreferred.Connector.GetPreferredMode` | Silicon/Rockchip/Drivers/LcdGraphicsOutputDxe/Edid.c:998-1015 | the answer of the strategies tried in order; the preferred mode is unchanged when none answers |
| `EdidPreferred.Connector.GetDisplaySinkInfo` | Silicon/Rockchip/Drivers/LcdGraphicsOutputDxe/Edid.c:1017-1045 | features first, then the mode: the mode stored is supported, and from a cleared sink an HDMI connector gets a clock beyond 340 MHz only if some block shows HDMI 2.0 and SCDC and none limits the speed |
| `PredefinedModes.EveryModeComesBack` | Silicon/Rockchip/Drivers/LcdGraphicsOutputDxe/Edid.c:435-463 | every predefined mode that fits the packed form, sent as a descriptor with its clock rounded, is recognised as that mode |
| `PredefinedModes.ModeFits` | Silicon/Rockchip/Drivers/LcdGraphicsOutputDxe/DisplayModes.c:16-380 | the packed form has room for each predefined mode but those 4096 pixels wide |
| `PredefinedModes.ListedModes` | Silicon/Rockchip/Drivers/LcdGraphicsOutputDxe/DisplayModes.c:16-380 | exactly the first three predefined modes have an established timing |
| `PredefinedModes.ModesDoNotAscend` | Silicon/Rockchip/Drivers/LcdGraphicsOutputDxe/DisplayModes.c:59-86 | the whole table is not in ascending order |
| `PredefinedModes.LargestModeIsTaken` | Silicon/Rockchip/Drivers/LcdGraphicsOutputDxe/Edid.c:939-983 | on the predefined modes the established strategy takes the largest one that is listed and supported |
| `EdidOffers.HdmiModeIsPreferredExactlyWhen` | Silicon/Rockchip/Drivers/LcdGraphicsOutputDxe/Edid.c:762-776 | a corollary of the choice, with areas that do not wrap: of two different modes the HDMI one is taken if and only if there is no CEA mode, or one that is not native and smaller by (pixels, clock) |
| `Displays.KeepIsTheFilter` | Silicon/Rockchip/Drivers/LcdGraphicsOutputDxe/LcdGraphicsOutputDxe.c:235-273 | what compaction keeps is exactly the states that stay, in their old order |
| `Displays.Survivors` | Silicon/Rockchip/Drivers/LcdGraphicsOutputDxe/LcdGraphicsOutputDxe.c:219-292 | the states kept are distinct and still allocated, the first is there, and a connected one leads unless detection is forced |
| `Displays.FirstIsScanned` | Silicon/Rockchip/Drivers/LcdGraphicsOutputDxe/LcdGraphicsOutputDxe.c:256-272 | the first connected state is found however early the scan stops |
| `Displays.LastForIsLast` | Silicon/Rockchip/Drivers/LcdGraphicsOutputDxe/LcdGraphicsOutputDxe.c:100-197 | the state a slot ends up with is that of the last connector that has a handle, comes up and drives its interface |
| `Displays.DistinctInterfaces` | Silicon/Rockchip/Drivers/LcdGraphicsOutputDxe/LcdGraphicsOutputDxe.c:149-197 | connectors that drive different interfaces are one for each interface, as the statements on what stays allocated ask |
| `Displays.Instance.Prepare` | Silicon/Rockchip/Drivers/LcdGraphicsOutputDxe/LcdGraphicsOutputDxe.c:79-217 | exactly when it succeeds, and that each slot then has the state of the last usable connector of its interface; on failure the slots are empty, and with one connector per interface every state allocated is in a slot or freed |
| `Displays.Instance.Place` | Silicon/Rockchip/Drivers/LcdGraphicsOutputDxe/LcdGraphicsOutputDxe.c:149-197 | one connector: its state is in its slot or freed again |
| `Displays.SomeStays` | Silicon/Rockchip/Drivers/LcdGraphicsOutputDxe/LcdGraphicsOutputDxe.c:219-292 | a scan keeps something exactly when some state stays, however early it stops |
| `Displays.Instance.Look` | Silicon/Rockchip/Drivers/LcdGraphicsOutputDxe/LcdGraphicsOutputDxe.c:235-273 | one slot: its state joins those kept, in front and in order, or is freed |
| `Displays.Instance.Detect` | Silicon/Rockchip/Drivers/LcdGraphicsOutputDxe/LcdGraphicsOutputDxe.c:219-292 | the slots hold the order-preserving filter of those scanned, primary is the first connected one, dropped states are freed once, slots not scanned are untouched, and success leaves a display to use |
| `Displays.Instance.FreeAll` | Silicon/Rockchip/Drivers/LcdGraphicsOutputDxe/LcdGraphicsOutputDxe.c:568-572 | each state in the slots is freed once, none that is not allocated |
| `Displays.ChosenIsKept` | Silicon/Rockchip/Drivers/LcdGraphicsOutputDxe/LcdGraphicsOutputDxe.c:219-292 | detection keeps something exactly when there is a connector to choose, and the display to use is that of the first connected one in the configured order, or the first there is when output is forced |
| `Displays.Instance.SetUpAll` | Silicon/Rockchip/Drivers/LcdGraphicsOutputDxe/LcdGraphicsOutputDxe.c:414-448 | every display not yet enabled takes over what is known of the primary one and is enabled if it can be set up |
| `Displays.Instance.Begin` | Silicon/Rockchip/Drivers/LcdGraphicsOutputDxe/LcdGraphicsOutputDxe.c:619-641 | the display to use is set up and enabled, and where output is duplicated every other one that can be; nothing else is |
| `Displays.Instance.Initialize` | Silicon/Rockchip/Drivers/LcdGraphicsOutputDxe/LcdGraphicsOutputDxe.c:580-675 | the start succeeds exactly when everything can be had and the connector chosen from the configured order can be set up; then its display and, where output is duplicated, every other one that can be are enabled, with the primary display's sink information; and a failed start leaves no state allocated but those behind an early stop |
| `Displays.ScannedSplits` | Silicon/Rockchip/Drivers/LcdGraphicsOutputDxe/LcdGraphicsOutputDxe.c:219-292 | kept, dropped and not scanned are all there is, and a scan stops early only at a connected display when not all were asked for |

## Left out

- NorDriver.Nor.ReadData: transfers are assumed to succeed; a failed one returns 0 in the source, which its callers cannot tell from success.
- NorDriver.Nor.Update: a copy past the sector buffer is reported as `overran` and taken to be survived; what it does to the memory behind the buffer is not modelled.
- NorDriver.Nor.WriteStatus: the third status register, which the driver never writes, is not modelled.
- Blt.Gop.LcdGraphicsBlt: the caller's buffer is not the framebuffer and holds the rows that the call names, as the UEFI Specification has it; other calls are not described.
- Blt.Gop.LcdGraphicsBlt90: the same limits; the moves excepted in its contract are described by `BltSpec.CopiedTile` instead.
- OhciDriver.Submit: the tree of endpoint descriptors is not modelled; of a transfer's buffer and DMA mapping only whether they can be had is, not their release; the mapped range is an address and a length.
- OhciDriver.Poll: the number of polls stands for the time-out; the delay between them is not modelled.
- OhciDriver.SyncInterrupt: the timer, and the controller's work on listed transfers, come between calls and not during the polling; the data copied back is not modelled.
- OhciSched.Hc.HouseKeeper: callbacks do not change the list, and the branch for transfers that are not periodic is not modelled because no such entry is ever listed.
- OhciWalk.CheckEdStatus: the toggle it reports is proved for the descriptors as found; what a broken bulk pipe hands to its caller depends on how the controller rewrites them.
- Displays.Instance.Initialize: whether the mode list can be allocated and the protocols installed are outcomes given; which mode is offered, and the release of list, protocols and instance, are not modelled. What is known of a display is one value.
- SNOR_EnableQE, the flash ID table, runtime pointer conversion and clock enabling: environment.
- Console output of the peer, its raw log and its exit when the device goes away: input and output.
- Register access, root-hub ports, controller reset, isochronous transfers and the SD host driver: hardware register sequences.
- Driver binding, setup menus, protocol installation, logo, network and shell tools: plumbing.
- The configuration scripts `gen_fit_its.py`, `extractbl31.py` and `tools_def_patch.py`: text templating.
