# Verification model of the Sinetek-rtsx card-reader driver

The driver is a macOS kernel extension for Realtek SD card readers, built on the
OpenBSD SD/MMC stack. This project models its logic in Dafny and proves what the
driver is for: that block requests copy the right bytes, that the register-level
programs are the SD commands they stand for, that no insertion or removal of a card
is lost, when a suspend makes the driver look at its card afresh, and that resources
and pointers survive every error path.

Verify everything with `dafny verify dfyconfig.toml`.

## Modules

- `Prelude`, `Words`: error numbers; machine words as numbers, with every dropped
  high bit written out, and the arithmetic of shifts, masks and byte strings.
- `Bitfield`, `CardRegisters`: the field reader of the card registers, CSD, SCR and
  switch-status decoding.
- `RtsxChip`, `HostCommand`: an interpreter for the chip's host-command queue, the
  two programs the driver compiles, and the assembly of responses.
- `ScatterGather`: physical segments, ADMA descriptors, and a chip that walks them.
- `StaticDictionary`, `DmaOwnership`: the ten-slot dictionary as a finite map, and
  the ownership of DMA memory through the goto-cleanup of a command. Allocation and
  loading appear twice: `ScatterGather` has their segment loops, `DmaOwnership` what
  they own.
- `FlatDisk`, `DataPath`, `BlockIo`: the disk as a byte sequence; one data command
  from segment list, register programs and descriptors to memory and card; and on top
  of it block commands, retries, chunks and requests.
- `Sdio`, `Cis`: CMD53 packing and the splitting loops; the tuple parser and the
  printer it inverts.
- `Lifecycle`: the task thread, interrupt handler, power management, requests and
  detach as a transition system; all results are about every run.
- `CardBus`, `CardSlot`: what the commands so far have left selected; and
  identification, the function list, selection, power-up and removal, tied to the
  steps of `Lifecycle`.

## How the outside world enters

Failures are data: `BlockIo.Fate`, `DmaOwnership.Plan`, `CardSlot.Answer` and the
`fate` of `Sdio.IoCard` give an arbitrary outcome for every step, and the theorems
hold for all of them. A failed transfer may leave any bytes in its range. A card is
busy for a finite number of polls. `DataPath.Hardware` is what a data command finds:
any state of the chip, any answer of the card, any segments and any memory. In
`Lifecycle` the labels of a run are the schedule.

## Assumptions

- `sdmmc_needs_discover` tests the onqueue flag outside the lock
  (`Sinetek-rtsx/3rdParty/openbsd/sdmmc.c:293-294`); the model takes test and
  insertion as one step. `IORecursiveLockSleep` releases the lock and sleeps in one
  step, and only `wakeup` ends the sleep. One thread consumes the queue. Resumes do
  not overlap. Flag updates are atomic.
- IOKit returns segments that lie inside the descriptor, have 32-bit addresses and
  map consecutive bytes (`ScatterGather.Maps`), and mappings that are alive have
  different nonzero addresses (`DmaOwnership.Plan.FreshAddresses`).
- Sectors have 512 bytes (`BlockIo.AdmittedRequestsLieOnCard` says what rests on it)
  and the boot argument that mimics Linux is off. A byte-addressed card is at most
  4 GiB, any card smaller than 1 TiB in the block path.
- A failed select, reset or power command has no effect on the selection
  (`CardBus.BusStep`).
- The pages of a DMA buffer are different (`DataPath.Resident`).
- The I/O card and the driver agree on the block length of CMD53.

## Where the code falls short

Each of these is stated exactly, with the condition under which the code is right and
an input for which it is not:

- A version 2.0 CSD of 1 TiB or more overflows the capacity (`CardRegisters.DecodeCsd`,
  `OversizedCard`). The disk takes it as unsigned, and is right again up to but not
  including 2 TiB (`LargestCard`).
- A DMA map whose segments could not be generated stays set to a released descriptor
  (`DmaOwnership.DmaEngine.ExecCommand`, `MapLeftSet`).
- The range check of a request wraps around at 2^64 (`BlockIo.AdmittedRequestsFit`,
  `WrappingRequestIsQueued`).
- The last of four version strings is lost from a text of 253 bytes
  (`Cis.StringsRecovered`, `LastStringCanBeLost`).
- `sc_dying = 1` of a detach can be overwritten by the reset after a suspend or by a
  suspend, and then the detach never returns (`Lifecycle.DetachCompletesIff`,
  `DetachCanBeOverwritten`).
- A request that starts without a card attached is dropped without completion
  (`Lifecycle.CompletedIffAttached`, `RequestCanBeDropped`), and those queued when the
  task thread ends are never run (`NothingRunsAfterExit`, `RequestCanBeLeftQueued`).
- A suspend that finds the task thread at work is forgotten if the machine has resumed
  before the work is done; a card swapped meanwhile stays attached
  (`Lifecycle.SuspendIsServedIff`, `SwappedCardCanBeMissed`).
- A multi-block read that fails is retried without its transfer having been stopped
  (`BlockIo.OpenIffFailed`, `RetriedWhileOpen`).
- After a failed deselection the next one is skipped (`CardBus.SkippingIsHarmlessIff`,
  `CardSlot.TwiceDisabled`).
- An SD card that answers address 0 is deselected and believed selected
  (`CardBus.SelectKeepsAgreement`, `CardSlot.AddressZero`).

Two bounds in the code are looser than they look, but hold on every input the driver
produces. The length mask of an ADMA descriptor is wider than its field
(`ScatterGather.DescriptorRoundTrip`); transfers are at most MAXPHYS long and addresses
have 32 bits, so every table is read back exactly (`ScatterGather.WalkIsFlat`).
`bus_dmamem_alloc` checks its index after the store; with pieces of at least a page no
size up to MAXPHYS leaves the array (`ScatterGather.MaxPhysNeverOverruns`), and
`SmallPiecesOverrun` shows that the page size is what it rests on.

## Model

Specification functions such as `Bitfield.Field`, `HostCommand.ExecProgram`,
`Cis.Parsed` or `Lifecycle.Next` have no row: the rows name the members that tie them
to the code or say what they mean.

| member | source | states |
|---|---|---|
| Bitfield.ReadField | Sinetek-rtsx/3rdParty/openbsd/sdmmcreg.h:292-320 | the unaligned, byte-by-byte field loop in 32-bit arithmetic returns bits [start, start+len) of the little-endian number in the bytes, as a C int, for every start and every length up to 32, and 0 for arguments out of range; every byte it reads holds a bit of the field |
| Bitfield.Round | Sinetek-rtsx/3rdParty/openbsd/sdmmcreg.h:306-316 | what one round of that loop adds: the collected bits grow by bc, and bits above the field can only appear in the last round |
| Bitfield.RspBitsAreRegisterBits | Sinetek-rtsx/3rdParty/openbsd/sdmmcreg.h:290-291 | a field of a long response is the field of the 128-bit card register at the same position, for every start from 8 up |
| Bitfield.FieldBelowByteOneIsZero | Sinetek-rtsx/3rdParty/openbsd/sdmmcreg.h:290-299 | a field below bit 8 reads as zero whatever the card sent |
| CardRegisters.DecodeCsd | Sinetek-rtsx/3rdParty/openbsd/sdmmc_mem.c:265-315 | the decoder accepts exactly the known versions; capacity times sector size is the card size of the specification if and only if a version 2.0 register has C_SIZE+1 below 2^21 (otherwise the capacity is not positive), and with the capacity taken as unsigned if and only if C_SIZE+1 is not 2^22 (then it is 0); the sector size is at most 512 |
| CardRegisters.V1Capacity | Sinetek-rtsx/3rdParty/openbsd/sdmmcreg.h:214-215 | for version 1.0 and MMC no product leaves the 32-bit range, whatever the field values |
| CardRegisters.V2Capacity | Sinetek-rtsx/3rdParty/openbsd/sdmmcreg.h:216-218 | for version 2.0 the shift by ten leaves the 32-bit range exactly from C_SIZE+1 = 2^21 on, and loses the size as an unsigned number only at 2^22 |
| CardRegisters.OversizedCard | Sinetek-rtsx/3rdParty/openbsd/sdmmcreg.h:216-218 | a card register with C_SIZE+1 = 2^21, the wrong capacity decoded from it, and that taken as unsigned it is right |
| CardRegisters.LargestCard | Sinetek-rtsx/3rdParty/openbsd/sdmmcreg.h:216-218 | a card register of 2 TiB whose decoded capacity is 0 |
| CardRegisters.ScrResponseIsShifted | Sinetek-rtsx/3rdParty/openbsd/sdmmc_mem.c:405-416 | the two repacked words are the 64-bit big-endian SCR shifted right by eight bits |
| CardRegisters.ScrFieldsAreExact | Sinetek-rtsx/3rdParty/openbsd/sdmmc_mem.c:405-420 | every SCR field from bit 8 up is read at its specified position |
| CardRegisters.DecodeScr | Sinetek-rtsx/3rdParty/openbsd/sdmmc_mem.c:398-434 | specification level and bus widths are bits 56..59 and 48..51 of the register, and are stored even when the structure version is then refused |
| CardRegisters.Be512ToBitfield512 | Sinetek-rtsx/3rdParty/openbsd/sdmmc_mem.c:588-600 | the in-place loop leaves word i byte-swapped at place 15-i, for all sixteen words |
| CardRegisters.SwapEndsReversesBytes | Sinetek-rtsx/3rdParty/openbsd/sdmmc_mem.c:588-600 | seen as bytes the conversion is plain reversal: byte i moves to byte 63-i |
| CardRegisters.SwapEndsIsInvolution | Sinetek-rtsx/3rdParty/openbsd/sdmmc_mem.c:588-600 | converting twice gives the buffer back |
| CardRegisters.StatusGroupBits | Sinetek-rtsx/3rdParty/openbsd/sdmmcreg.h:280-282 | after the conversion a group field of the switch status is bits [400+16(g-1), +16) of the big-endian status |
| CardRegisters.SwitchArgSelectsOneGroup | Sinetek-rtsx/3rdParty/openbsd/sdmmc_mem.c:517-533 | groups 1 to 6 and functions 0 to 15 are accepted; the CMD6 argument carries the function in the nibble of its group, 4*(group-1) bits up, 0xf in the other five, and the mode bit above |
| RtsxChip.EncodeIsSum | Sinetek-rtsx/3rdParty/openbsd/rtsx.c:1091-1102 | the 32-bit command word is the sum of its four fields at bits 30, 16, 8 and 0 |
| RtsxChip.DecodeEncode | Sinetek-rtsx/3rdParty/openbsd/rtsx.c:1091-1102 | a command word decodes to the command that was encoded, with the low 14 address bits |
| RtsxChip.RunDecoded | Sinetek-rtsx/3rdParty/openbsd/rtsx.c:1091-1102 | the chip running the encoded buffer does what the queued program says |
| HostCommand.Append | Sinetek-rtsx/3rdParty/openbsd/rtsx.c:1091-1102 | one more word in the buffer is one more command in the program |
| HostCommand.BuildExecHead | Sinetek-rtsx/3rdParty/openbsd/rtsx.c:1483-1514 | the buffer holds the encoded set-up and start of the command program |
| HostCommand.BuildExec | Sinetek-rtsx/3rdParty/openbsd/rtsx.c:1483-1525 | with the two loops over response registers the buffer holds the whole command program, at most 25 words |
| HostCommand.ExecProgramIsTheCommand | Sinetek-rtsx/3rdParty/openbsd/rtsx.c:1486-1525 | running the program on the chip selects the ping-pong buffer, puts exactly (0x40+opcode, argument) on the bus with the response type awaited, fails if and only if the card does not answer as requested, and returns the status byte and the response bytes in order |
| HostCommand.FlagsAgreeWithType | Sinetek-rtsx/3rdParty/openbsd/rtsx.c:1158-1184 | the flags that steer the copying of the response agree with the response length the chip is programmed for |
| HostCommand.ShortResponseIsPayload | Sinetek-rtsx/3rdParty/openbsd/rtsx.c:1557-1570 | the masks and shifts over two byte-swapped words recover the 32 bits the card sent |
| HostCommand.LongResponseHoldsRegister | Sinetek-rtsx/3rdParty/openbsd/rtsx.c:1557-1563 | the 16 bytes copied for a long response are the card register without its last byte |
| HostCommand.ShortCommandRoundTrip | Sinetek-rtsx/3rdParty/openbsd/rtsx.c:1441-1571 | from the queued words to c_resp: the command goes out unchanged and the payload comes back unchanged |
| HostCommand.LongCommandRoundTrip | Sinetek-rtsx/3rdParty/openbsd/rtsx.c:1441-1571 | the same for a long response: every field read from it is the field of the register the card holds |
| HostCommand.BuildGeometry | Sinetek-rtsx/3rdParty/openbsd/rtsx.c:1253-1275 | the first part of the data program as encoded words |
| HostCommand.BuildXfer | Sinetek-rtsx/3rdParty/openbsd/rtsx.c:1234-1298 | the buffer holds the encoded data program for the direction, block length and byte count |
| HostCommand.XferProgramIsTheTransfer | Sinetek-rtsx/3rdParty/openbsd/rtsx.c:1234-1300 | running it starts exactly one transfer, through the ring buffer with the DMA enabled, of that direction, block length, block count and byte count, with packets of 512 bytes and SD_CFG2 at 0x20 (read) or 0xa4 (write), and sends no command |
| HostCommand.XferWords | Sinetek-rtsx/3rdParty/openbsd/rtsx.c:1234-1298 | the fourteen words of the data program as numbers, for every direction, geometry and length |
| HostCommand.ExecHeadWords | Sinetek-rtsx/3rdParty/openbsd/rtsx.c:1483-1514 | the nine words in front of the response reads as numbers, for every opcode, argument and response type |
| HostCommand.ResponseWords | Sinetek-rtsx/3rdParty/openbsd/rtsx.c:1516-1525 | the words that read the response: none, registers 0xFDA9 to 0xFDAD, or 0xFA0F down to 0xFA01 and 0xFDAE |
| HostCommand.ResponseTypes | Sinetek-rtsx/3rdParty/openbsd/rtsx.c:1158-1184 | the response type of every flag combination, as numbers |
| ScatterGather.DmamapLoad | Sinetek-rtsx/compat/openbsd/dma.cpp:139-180 | loading succeeds if and only if the descriptor is long enough and the map's segments reach the end; then the segments are, address by address, the first buflen bytes, the last one trimmed, and never more than the map holds |
| ScatterGather.MaxPhysFits | Sinetek-rtsx/3rdParty/openbsd/sdmmcvar.h:178 | with page-sized inner segments every transfer up to MAXPHYS fits SDMMC_MAXNSEGS segments |
| ScatterGather.DmamemAlloc | Sinetek-rtsx/compat/openbsd/dma.cpp:236-288 | the exact condition of success; then adjacent segments that are exactly the buffer, or the one first piece as it is if it is longer; the store leaves the caller's array if and only if as many further good pieces exist as the array has places |
| ScatterGather.PagesBoundPieces | Sinetek-rtsx/compat/openbsd/dma.cpp:255-281 | k further pieces, all but the last at least a page, need k-1 further pages |
| ScatterGather.MaxPhysNeverOverruns | Sinetek-rtsx/compat/openbsd/dma.cpp:255-281 | hence with SDMMC_MAXNSEGS places no size up to MAXPHYS leaves the array, although the loop's own check runs after the store |
| ScatterGather.SmallPiecesOverrun | Sinetek-rtsx/compat/openbsd/dma.cpp:271-279 | without the page assumption it can: 128 KiB in pieces of 512 bytes |
| ScatterGather.DescriptorRoundTrip | Sinetek-rtsx/3rdParty/openbsd/rtsx.c:1391-1403 | a 64-bit descriptor decodes to its address and length if and only if the address is below 2^32 and the length below 2^20 |
| ScatterGather.BuildAdma | Sinetek-rtsx/3rdParty/openbsd/rtsx.c:1390-1417 | the loop writes one descriptor per segment, END on the last one only, and leaves the rest of the buffer alone |
| ScatterGather.WalkIsFlat | Sinetek-rtsx/3rdParty/openbsd/rtsx.c:1389-1417 | a chip walking the table transfers exactly the bytes of the segment list in order, whatever stale descriptors follow |
| StaticDictionary.LookupIsMap | Sinetek-rtsx/util_dict.h:48-60 | looking a key up in the slots is looking it up in the map they stand for |
| StaticDictionary.AddIsUpdate | Sinetek-rtsx/util_dict.h:65-74 | filling the first free slot updates the map if and only if no earlier slot hides the new entry |
| StaticDictionary.RemoveIsDelete | Sinetek-rtsx/util_dict.h:76-85 | freeing a slot deletes the key if and only if the key has no second slot |
| StaticDictionary.SizeIsUsedSlots | Sinetek-rtsx/util_dict.h:12-15 | entries and free slots add up to the ten places |
| StaticDictionary.StaticDictionary.GetFreeSlot | Sinetek-rtsx/util_dict.h:31-45 | the first free slot is reserved, or -1 and nothing changed |
| StaticDictionary.StaticDictionary.FindKey | Sinetek-rtsx/util_dict.h:48-60 | the first slot of a key, or -1 |
| StaticDictionary.StaticDictionary.AddToList | Sinetek-rtsx/util_dict.h:65-74 | for a new key other than 0 an insertion into a map of at most ten entries, failing exactly when it is full; the slots are stated for every key |
| StaticDictionary.StaticDictionary.RemoveFromList | Sinetek-rtsx/util_dict.h:76-85 | a deletion, failing exactly when the key is absent |
| StaticDictionary.StaticDictionary.GetValueFromList | Sinetek-rtsx/util_dict.h:87-94 | a lookup in the map |
| DmaOwnership.DmaEngine.DmamemAlloc | Sinetek-rtsx/compat/openbsd/dma.cpp:209-289 | success adds one live descriptor; every failing step releases what it created |
| DmaOwnership.DmaEngine.DmamemFree | Sinetek-rtsx/compat/openbsd/dma.cpp:291-304 | the descriptor is no longer live and the segment forgets it |
| DmaOwnership.DmaEngine.DmamemMap | Sinetek-rtsx/compat/openbsd/dma.cpp:306-336 | success registers the segment under its address; a full dictionary or a failed mapping leaves the registrations as they were; a mapping that was made stays, even when the dictionary is full |
| DmaOwnership.DmaEngine.DmamemUnmap | Sinetek-rtsx/compat/openbsd/dma.cpp:338-355 | registration and mapping go exactly if the address is known and mapped |
| DmaOwnership.DmaEngine.DmamapLoad | Sinetek-rtsx/compat/openbsd/dma.cpp:99-180 | which addresses can be loaded, and which descriptor the map is set to, also after a failure |
| DmaOwnership.DmaEngine.DmaAlloc | Sinetek-rtsx/SDDisk.cpp:39-55 | a buffer is obtained if and only if it can be allocated and mapped and the dictionary has room; otherwise nothing is left behind, except the mapping that a full dictionary refused |
| DmaOwnership.DmaEngine.DmaFree | Sinetek-rtsx/SDDisk.cpp:57-61 | it undoes a successful allocation: registration, mapping and descriptor are gone |
| DmaOwnership.DmaEngine.XferBounce | Sinetek-rtsx/3rdParty/openbsd/rtsx.c:1317-1381 | whatever step fails, registrations, live descriptors and, unless the dictionary is full, mappings are those before; when it succeeds; when the data map is left set |
| DmaOwnership.DmaEngine.XferAdma | Sinetek-rtsx/3rdParty/openbsd/rtsx.c:1418-1439 | when it succeeds, and what the ADMA map is set to afterwards: nothing once it was loaded, the descriptor if only generating its segments failed |
| DmaOwnership.DmaEngine.Xfer | Sinetek-rtsx/3rdParty/openbsd/rtsx.c:1217-1315 | both transfer kinds conserve registrations and live descriptors; the exact condition of success |
| DmaOwnership.DmaEngine.RunMapped | Sinetek-rtsx/3rdParty/openbsd/rtsx.c:1527-1589 | the middle part of a command, from loading to unloading the command map |
| DmaOwnership.DmaEngine.ExecCommand | Sinetek-rtsx/3rdParty/openbsd/rtsx.c:1441-1597 | for every choice of failing step, including the nested transfer, registrations and live descriptors afterwards are those before; the exact condition of success; the command map is left set exactly when generating its segments failed, and what the two data maps are set to |
| DmaOwnership.DmaEngine.RunBuffered | Sinetek-rtsx/3rdParty/openbsd/rtsx.c:1471-1594 | the command buffer's way through allocation, mapping, use, unmapping and release, with the same conservation |
| DmaOwnership.MapLeftSet | Sinetek-rtsx/3rdParty/openbsd/rtsx.c:1527-1531 | a command after which the command map is set to a released descriptor |
| DmaOwnership.DmaEngine.RunWorks | Sinetek-rtsx/3rdParty/openbsd/sdmmc_mem.c:925-987 | with two free slots every command of an attempt succeeds exactly if its own steps do: the dictionary never fails one |
| DmaOwnership.DmaEngine.RunAttempt | Sinetek-rtsx/3rdParty/openbsd/sdmmc_mem.c:1027-1047 | the data map is loaded from the request's buffer, the commands run, the map is unloaded: afterwards it is set only if it was left so by a load that failed too late, or before |
| DmaOwnership.DmaEngine.RunAttempts | Sinetek-rtsx/SDDisk.cpp:377-403 | all attempts of a request; the data map ends up set exactly if some load got past setting it and failed with no successful load after it |
| DmaOwnership.DmaEngine.RunRequest | Sinetek-rtsx/SDDisk.cpp:356-407 | a whole request, from its buffer through all attempts and commands: on every way through it registrations, descriptors and mappings are conserved, and with three free slots the dictionary is never the step that fails |
| DmaOwnership.DmaEngine.RunRequests | Sinetek-rtsx/SDDisk.cpp:356-407 | so is every sequence of requests |
| DmaOwnership.DmaEngine.AttachAdma | Sinetek-rtsx/3rdParty/openbsd/rtsx.c:226-262 | the descriptor buffer stays mapped, or nothing is left of it |
| DmaOwnership.RunDriver | Sinetek-rtsx/compat/openbsd/dma.cpp:306-355 | from the attach of the driver on, whatever requests come: four of the ten slots are enough, between requests exactly the descriptor buffer is registered, mapped and live, and the data map is set exactly if a load left it so with no successful one after it |
| FlatDisk.AddressingIsExact | Sinetek-rtsx/3rdParty/openbsd/sdmmc_mem.c:944-947 | block and byte addresses reach the same place if and only if the number sent fits 32 bits |
| BlockIo.WaitReady | Sinetek-rtsx/3rdParty/openbsd/sdmmc_mem.c:974-983 | polling ends, and without error only with the card ready |
| BlockIo.ReadBlockSubr | Sinetek-rtsx/3rdParty/openbsd/sdmmc_mem.c:925-987 | success means the buffer holds the disk bytes of the range and the card is ready; nothing outside the buffer range changes; which data command and stop were sent: none after a failed selection, no stop after a failed command; a card that answers everything is read |
| BlockIo.SingleReadBlock | Sinetek-rtsx/3rdParty/openbsd/sdmmc_mem.c:988-1003 | the sector-by-sector loop reads the whole range |
| BlockIo.ReadBlock | Sinetek-rtsx/3rdParty/openbsd/sdmmc_mem.c:1005-1048 | the three controller kinds read the same bytes |
| BlockIo.WriteBlockSubr | Sinetek-rtsx/3rdParty/openbsd/sdmmc_mem.c:1050-1127 | success means the disk is changed in exactly the range to the data; after a failure it differs at most in the range; the stop is sent whatever became of the command, and the first error is the one reported |
| BlockIo.SingleWriteBlock | Sinetek-rtsx/3rdParty/openbsd/sdmmc_mem.c:1128-1144 | the sector-by-sector loop writes the whole range and never outside it |
| BlockIo.WriteBlock | Sinetek-rtsx/3rdParty/openbsd/sdmmc_mem.c:1145-1188 | the three controller kinds write the same bytes |
| BlockIo.ReadWithRetry | Sinetek-rtsx/util.h:125-135 | at most four attempts, each started where the one before ended; an attempt is repeated exactly if it met with a failure on its way, so that nothing failing before the end of the first attempt means one attempt, success, and exactly its commands sent |
| BlockIo.WriteWithRetry | Sinetek-rtsx/util.h:125-135 | the same for writes; damage done by failed attempts is repaired by the successful one and stays inside the range |
| BlockIo.FirstAttemptDecides | Sinetek-rtsx/util.h:125-135 | a retry whose first attempt meets no failure consists of it |
| BlockIo.OpenIff | Sinetek-rtsx/3rdParty/openbsd/sdmmc_mem.c:949-972 | a multi-block transfer may still be open on the card if and only if some multi-block command was not followed by an answered stop |
| BlockIo.OpenIffFailed | Sinetek-rtsx/3rdParty/openbsd/sdmmc_mem.c:949-972 | as the driver follows every answered multi-block command with a stop, which reading, writing and whole requests keep: an attempt finds the transfer stopped if and only if no multi-block command and no stop has failed since the last answered stop |
| BlockIo.OpenAfterAttempt | Sinetek-rtsx/3rdParty/openbsd/sdmmc_mem.c:1091-1107 | an attempt to read leaves the transfer open when its command or its stop fails, an attempt to write only when its stop fails |
| BlockIo.RetriedWhileOpen | Sinetek-rtsx/SDDisk.cpp:381 | a retried read whose command goes to a card that is still in the first transfer |
| BlockIo.ReadChunk | Sinetek-rtsx/SDDisk.cpp:380-388 | one chunk of a read arrives at its offset of the client's buffer, as far as that is long enough |
| BlockIo.WriteChunk | Sinetek-rtsx/SDDisk.cpp:389-398 | one chunk of a write is what the client's buffer still has at its offset, followed by what the driver's buffer held before; the driver's buffer then holds it |
| BlockIo.MoveChunk | Sinetek-rtsx/SDDisk.cpp:377-403 | one turn of the chunk loop in either direction extends what has been moved, and a failing write damages nothing outside the range |
| BlockIo.MoveChunks | Sinetek-rtsx/SDDisk.cpp:377-403 | the whole loop, for every number of chunks |
| BlockIo.ReadTaskImpl | Sinetek-rtsx/SDDisk.cpp:329-427 | a request cut into chunks refines one copy from or to a flat disk, with every data command run on the chip through its descriptors and registers: a successful read delivers [block*512, +nblks*512), a successful write changes exactly that range to the client's bytes, a failed write nothing outside it; a client buffer that is too short is followed on disk by the client's bytes of 128 KiB before, or in a request of one chunk by what the driver's buffer held; the reported byte count; with hardware that works no failure, and every chunk's commands sent once |
| BlockIo.ReceivedIsDisk | Sinetek-rtsx/SDDisk.cpp:377-402 | a client buffer of the requested size holds the disk bytes and is unchanged behind them |
| BlockIo.AdmittedRequestsFit | Sinetek-rtsx/SDDisk.cpp:458-474 | no queued request reaches beyond the disk, if and only if its 64-bit sum does not wrap onto it; no permitted request on the disk is refused |
| BlockIo.WrappingRequestIsQueued | Sinetek-rtsx/SDDisk.cpp:470-471 | a request beyond the disk that is queued |
| BlockIo.AdmittedRequestsLieOnCard | Sinetek-rtsx/SDDisk.cpp:127-128 | with the block count taken from the decoded capacity, every queued request that does not wrap lies on the card if and only if the card's blocks have 512 bytes or it has none |
| BlockIo.ServeRequest | Sinetek-rtsx/SDDisk.cpp:442-500 | from the card's size register through admission to the request: on a card as large as its register says, a permitted request is queued if and only if it lies on the card, and then moves exactly its bytes; no other touches card or buffer |
| DataPath.RunPrograms | Sinetek-rtsx/3rdParty/openbsd/rtsx.c:1441-1597 | command program and data program together: one command, one transfer, of the requested opcode, argument and length |
| DataPath.WalkTable | Sinetek-rtsx/3rdParty/openbsd/rtsx.c:1390-1437 | the table written for a segment list makes the chip transfer exactly the bytes of the list in order |
| DataPath.DataCommand | Sinetek-rtsx/3rdParty/openbsd/rtsx.c:1217-1439 | segment list or bounce buffer, programs and descriptor table together move exactly the addressed bytes of the card to or from the places of the buffer in memory and touch no other byte; the exact condition of success |
| DataPath.ReadThroughChip | Sinetek-rtsx/3rdParty/openbsd/rtsx.c:1572-1574 | seen from the buffer a read command delivers the disk bytes at its address |
| DataPath.WriteThroughChip | Sinetek-rtsx/3rdParty/openbsd/rtsx.c:1572-1574 | seen from the buffer a write command replaces the disk bytes at its address |
| BlockIo.Card.ReadData | Sinetek-rtsx/3rdParty/openbsd/sdmmc_mem.c:949-951 | the read command as the block path uses it, implemented by the chip: on success the disk bytes, on failure damage only in its part of the buffer |
| BlockIo.Card.WriteData | Sinetek-rtsx/3rdParty/openbsd/sdmmc_mem.c:1091-1093 | the write command likewise: on failure damage only in the addressed range |
| Sdio.ArgField | Sinetek-rtsx/3rdParty/openbsd/sdmmc_io.c:426-431 | each of the six fields of the CMD53 argument is read back on its own: they do not overlap |
| Sdio.UnpackPack | Sinetek-rtsx/3rdParty/openbsd/sdmmc_io.c:426-431 | unpacking undoes packing for everything that fits the fields |
| Sdio.NextBlocks | Sinetek-rtsx/3rdParty/openbsd/sdmmc_io.c:565-573 | each block-mode command takes between 1 and 511 blocks and no more than is left |
| Sdio.RwExtended | Sinetek-rtsx/3rdParty/openbsd/sdmmc_io.c:409-452 | one extended command with that function number and a count the nine-bit field holds moves exactly its bytes |
| Sdio.RegionTransfer | Sinetek-rtsx/3rdParty/openbsd/sdmmc_io.c:609-663 | a region transfer touches registers reg..reg+datalen-1 once each and in order and moves their contents; every command names the function and direction, and no count is zero or truncated |
| Sdio.MultiTransfer | Sinetek-rtsx/3rdParty/openbsd/sdmmc_io.c:557-607 | a multi transfer moves exactly datalen bytes through the one register in stream order; every command names the function and direction, and no count is zero or truncated |
| Cis.CisPointer | Sinetek-rtsx/3rdParty/openbsd/sdmmc_cis.c:41-56 | the CIS pointer is the three-byte number of the function's registers |
| Cis.CisRecord.ReadStrings | Sinetek-rtsx/3rdParty/openbsd/sdmmc_cis.c:115-132 | the string loop stores the text up to 252 bytes and the start of every string it finds |
| Cis.ReadTuple | Sinetek-rtsx/3rdParty/openbsd/sdmmc_cis.c:84-142 | one tuple has the effect the chain describes and is skipped exactly |
| Cis.ReadCis | Sinetek-rtsx/3rdParty/openbsd/sdmmc_cis.c:58-146 | for a well-formed chain printed at the CIS pointer the parser stops at END with the record the chain describes; a bad pointer is refused and changes nothing |
| Cis.StringsRecovered | Sinetek-rtsx/3rdParty/openbsd/sdmmc_cis.c:107-135 | a version string is recovered, NUL-terminated inside the 256-byte buffer, if and only if it ends within 252 bytes; only the last of four strings of a 253-byte text can be lost |
| Cis.LastStringCanBeLost | Sinetek-rtsx/3rdParty/openbsd/sdmmc_cis.c:120-132 | a legal tuple of four strings of which three are found |
| Cis.LastTupleDecides | Sinetek-rtsx/3rdParty/openbsd/sdmmc_cis.c:72-143 | function, manufacturer, product, version and strings are those of the last tuple of each kind |
| Lifecycle.RunKeepsInv | Sinetek-rtsx/3rdParty/openbsd/sdmmc.c:216-320 | the invariants of queue, presence, disk, requests and shutdown hold after every step of every run of the task thread, interrupts, suspend, resume, requests and detach |
| Lifecycle.NoCardChangeIsLost | Sinetek-rtsx/3rdParty/openbsd/rtsx.c:1693-1750 | until the driver is detached a difference in presence between controller and bus driver is noticed, about to be looked at, or just being committed; a thread at rest agrees with the controller |
| Lifecycle.QueueIsFifoExactlyOnce | Sinetek-rtsx/3rdParty/openbsd/sdmmc.c:226-286 | tasks added are tasks started, then the one in hand, then the queue; the onqueue flags are exact; the thread never sleeps with work queued and no wakeup sent |
| Lifecycle.WokenForAReason | Sinetek-rtsx/3rdParty/openbsd/sdmmc.c:166-169 | the thread at rest is woken only by a new task, the end of a resume, or a detach that waits for it |
| Lifecycle.DisksAlternate | Sinetek-rtsx/3rdParty/openbsd/sdmmc.c:297-410 | disk attach and detach alternate starting with attach; between tasks attached implies present; no disk is left when the thread ends |
| Lifecycle.DmapOutlivesThread | Sinetek-rtsx/3rdParty/openbsd/sdmmc.c:162-178 | the DMA map is destroyed only after the thread has finished |
| Lifecycle.StartedRequestsEndOnce | Sinetek-rtsx/SDDisk.cpp:335-342 | every request started has been completed once, dropped once, or is running, and no other has ended |
| Lifecycle.CompletedIffAttached | Sinetek-rtsx/SDDisk.cpp:335-427 | a running request is completed if and only if a card is attached when it starts, whatever happens meanwhile and afterwards |
| Lifecycle.RequestCanBeDropped | Sinetek-rtsx/SDDisk.cpp:342 | a run in which a request is dropped: it was queued behind the discover task that found the card gone |
| Lifecycle.NothingRunsAfterExit | Sinetek-rtsx/3rdParty/openbsd/sdmmc.c:230-256 | once the thread has ended no request is started any more: those still queued never complete |
| Lifecycle.RequestCanBeLeftQueued | Sinetek-rtsx/3rdParty/openbsd/sdmmc.c:230-256 | a run in which a request is still queued when the thread ends |
| Lifecycle.OverwrittenForEver | Sinetek-rtsx/3rdParty/openbsd/sdmmc.c:239-253 | once the detach request in sc_dying is overwritten, the thread never exits and the detach never returns, in any run |
| Lifecycle.DetachFinishes | Sinetek-rtsx/3rdParty/openbsd/sdmmc.c:162-178 | otherwise steps of the two threads alone complete the detach, for every sequence of outcomes of the attach attempts |
| Lifecycle.DetachCompletesIff | Sinetek-rtsx/3rdParty/openbsd/sdmmc.c:162-197 | if nobody overwrites the request, the two threads complete a started detach under all outcomes; if somebody has, no run at all completes it |
| Lifecycle.EmptySuspendsAreHarmless | Sinetek-rtsx/3rdParty/openbsd/sdmmc.c:187-193 | in every run whose suspends all find the slot empty, sc_dying never becomes -1 |
| Lifecycle.RequestStands | Sinetek-rtsx/3rdParty/openbsd/sdmmc.c:187-197 | in every such run a standing detach request stands until the thread has ended |
| Lifecycle.DetachSurvivesSuspends | Sinetek-rtsx/3rdParty/openbsd/sdmmc.c:162-197 | hence after every such run the two threads still complete the detach, under all outcomes |
| Lifecycle.DetachCanBeOverwritten | Sinetek-rtsx/3rdParty/openbsd/sdmmc.c:187-193 | a run in which a suspend does overwrite it |
| Lifecycle.SuspendIsServedIff | Sinetek-rtsx/3rdParty/openbsd/sdmmc.c:187-229 | a suspend is served in every run through a resume, that is, the thread does not go to sleep with sc_dying still -1, if and only if it finds the thread outside its tasks |
| Lifecycle.ServedMeans | Sinetek-rtsx/3rdParty/openbsd/sdmmc.c:236-253 | until such a suspend is served the thread starts no task, and once woken its own steps detach the card and start the discovery afresh; once it has been served, they have |
| Lifecycle.SwappedCardCanBeMissed | Sinetek-rtsx/3rdParty/openbsd/sdmmc.c:220-228 | a run in which the machine sleeps and resumes during a request: the thread then sleeps, nobody is on the way to wake it, and the old card is still attached |
| CardBus.SelectKeepsAgreement | Sinetek-rtsx/3rdParty/openbsd/sdmmc.c:757-779 | after any selection the card the driver believes selected is the one selected on the bus if and only if its address is not 0 |
| CardBus.ZeroAddressIsNotSelected | Sinetek-rtsx/3rdParty/openbsd/sdmmc.c:771-778 | a card with address 0 is believed selected while the bus has none |
| CardSlot.AddressZero | Sinetek-rtsx/3rdParty/openbsd/sdmmc.c:730-755 | an SD card answers address 0 to the two commands shown, and is then believed selected with no card selected on the bus |
| CardSlot.Softc.MmcAgrees | Sinetek-rtsx/3rdParty/openbsd/sdmmc_mem.c:188-192 | in MMC mode belief and bus always agree |
| CardBus.BusIsFreeIff | Sinetek-rtsx/3rdParty/openbsd/sdmmc.c:757-779 | nothing is selected on the bus if and only if every answered selection was followed by an answered deselection, reset or power-off |
| CardBus.SkippingIsHarmlessIff | Sinetek-rtsx/3rdParty/openbsd/sdmmc.c:765-769 | skipping the command leaves the bus as sending it would, if and only if there is a card to select or every answered selection has been undone |
| CardBus.FailedDeselection | Sinetek-rtsx/3rdParty/openbsd/sdmmc.c:771-778 | one failed deselection is enough |
| CardSlot.TwiceDisabled | Sinetek-rtsx/3rdParty/openbsd/sdmmc.c:465-479 | two removals after which a card is still selected on the bus: the first fails to deselect it and to switch it off, the second sends no deselection |
| CardSlot.Softc.SelectCard | Sinetek-rtsx/3rdParty/openbsd/sdmmc.c:757-779 | which command is sent, if any, and what is selected afterwards; selecting nothing clears sc_card even on an error |
| CardSlot.Softc.Disable | Sinetek-rtsx/3rdParty/openbsd/sdmmc.c:465-479 | the exact commands sent; afterwards no card is believed selected, and none is selected on the bus if the deselection or the power-off was answered |
| CardSlot.Softc.CardDetach | Sinetek-rtsx/3rdParty/openbsd/sdmmc.c:378-410 | every function is freed and neither sc_card nor sc_fn0 nor the list refers to one; on flags and disk it is the detach of the card lifecycle |
| CardSlot.Softc.FreeFunctions | Sinetek-rtsx/3rdParty/openbsd/sdmmc.c:402-409 | the loop frees every function on the list |
| CardSlot.Softc.ChooseVoltage | Sinetek-rtsx/3rdParty/openbsd/sdmmc.c:493-506 | the lowest common voltage and its upper neighbour; nothing only if there is nothing in common |
| CardSlot.Softc.SetBusPower | Sinetek-rtsx/3rdParty/openbsd/sdmmc.c:484-514 | success means a nonempty common set and a power request for its lowest voltage |
| CardSlot.Softc.SendOpCond | Sinetek-rtsx/3rdParty/openbsd/sdmmc_mem.c:858-903 | at most 100 attempts of at most two commands; it succeeds if and only if its last command is this question, answered without error and with bit 31 set unless the conditions were only asked for; all earlier answers were not ready, and it gives up only on an error or after 100 of them |
| CardSlot.Softc.SendIfCond | Sinetek-rtsx/3rdParty/openbsd/sdmmc.c:698-725 | CMD8 is echoed exactly when the low response byte is the pattern |
| CardSlot.Softc.ProbeOcr | Sinetek-rtsx/3rdParty/openbsd/sdmmc_mem.c:97-118 | one probe in SD mode, a second in MMC mode only if the first failed without I/O functions |
| CardSlot.Softc.AskThenOffer | Sinetek-rtsx/3rdParty/openbsd/sdmmc_mem.c:141-148 | CMD8 is this call's first command and the last one offers what it allows to a card that is ready |
| CardSlot.Softc.OfferConditions | Sinetek-rtsx/3rdParty/openbsd/sdmmc_mem.c:121-148 | power, reset, CMD8 and offer, with the echo taken from this call |
| CardSlot.Softc.MemEnable | Sinetek-rtsx/3rdParty/openbsd/sdmmc_mem.c:82-150 | at most 204 commands and 200 for each of at most two probes; success in memory mode means that in this very call the card reported its conditions, then CMD8 was asked, then the common conditions were offered and the card was ready; success without memory only for a combo card; it fails only for a reason in the answers: an error, no application commands, nothing in common, or a last answer without bit 31 |
| CardSlot.OfferIsCommon | Sinetek-rtsx/3rdParty/openbsd/sdmmc_mem.c:132-145 | what is offered lies in host and card, and high capacity is offered in SD mode only if common to both or CMD8 was echoed |
| CardSlot.OpCondArgBits | Sinetek-rtsx/3rdParty/openbsd/sdmmc_mem.c:872-885 | SD cards are offered the conditions as they are, MMC cards with bits 30 and 29 replaced by 10 |
| CardSlot.HighVoltageBits | Sinetek-rtsx/3rdParty/openbsd/sdmmc.c:698-725 | the high voltages are bits 15 to 23 |
| CardSlot.R6UpperHalf | Sinetek-rtsx/3rdParty/openbsd/sdmmcreg.h:84-88 | the address is the upper half of an R6 response |
| CardSlot.Softc.AssignAddress | Sinetek-rtsx/3rdParty/openbsd/sdmmc_mem.c:174-235 | one turn of the loop: one new function with its address joins the list exactly if both commands were answered, otherwise nothing changes |
| CardSlot.Softc.AssignAddresses | Sinetek-rtsx/3rdParty/openbsd/sdmmc_mem.c:174-235 | at most 100 cards, and fewer only if a command of the search failed; in MMC mode their addresses are 1, 2, 3, ..., whatever they answer; the list and function 0 stay consistent |
| CardSlot.Softc.SetRelativeAddr | Sinetek-rtsx/3rdParty/openbsd/sdmmc.c:730-755 | an SD card's own address, an MMC card's assigned one |
| CardSlot.Softc.ReadRegisters | Sinetek-rtsx/3rdParty/openbsd/sdmmc_mem.c:241-257 | a card is marked bad exactly when reading or decoding its registers failed |
| CardSlot.Softc.MemScan | Sinetek-rtsx/3rdParty/openbsd/sdmmc_mem.c:156-262 | addresses, then registers; every new card is marked bad exactly when its registers could not be read or decoded; the selected card is untouched |
| CardSlot.Softc.IoScan | Sinetek-rtsx/3rdParty/openbsd/sdmmc_io.c:137-171 | function 0 and its numbered companions with one address join the list; only function 0, marked bad, exactly if it cannot be selected; nothing exactly if it has no address; the one or two commands sent; no pointer goes stale |
| CardSlot.Softc.Scan | Sinetek-rtsx/3rdParty/openbsd/sdmmc.c:542-562 | success exactly when there is a function; the I/O scan in I/O mode, the memory scan exactly in memory mode |
| CardSlot.Softc.CardSetUp | Sinetek-rtsx/3rdParty/openbsd/sdmmc_mem.c:703-725 | the commands of the set-up's second step, in order and as far as the answers allow; an MMC card is marked bad exactly when its EXT_CSD cannot be read |
| CardSlot.Softc.MemInit | Sinetek-rtsx/3rdParty/openbsd/sdmmc_mem.c:570-586 | selection, block length and set-up: exactly which commands are sent; they mark a card bad only for an EXT_CSD that cannot be read, and never in SD mode; the last answer decides |
| CardSlot.Softc.InitOne | Sinetek-rtsx/3rdParty/openbsd/sdmmc.c:576-584 | one turn of the loop: an I/O function's CIS in I/O mode, the memory set-up in memory mode, and which failures mark the function bad |
| CardSlot.Softc.InitAll | Sinetek-rtsx/3rdParty/openbsd/sdmmc.c:576-584 | over the whole list, card by card |
| CardSlot.Softc.Init | Sinetek-rtsx/3rdParty/openbsd/sdmmc.c:568-593 | success exactly when a function without error is left; without I/O mode a function becomes bad exactly when it is an MMC card whose EXT_CSD could not be read |
| CardSlot.Softc.Enable | Sinetek-rtsx/3rdParty/openbsd/sdmmc.c:412-463 | success means memory mode and an identified card, with power and clock answered; no card is selected either way; failure has a reason in the answers and ends with clock and power off |
| CardSlot.Softc.CardAttach | Sinetek-rtsx/3rdParty/openbsd/sdmmc.c:325-372 | either an identified card with at least one good function on a consistent list, or nothing left at all, and then some answer is the reason; on flags and disk it is the attach of the card lifecycle |
| CardSlot.AttachedCard | Sinetek-rtsx/3rdParty/openbsd/sdmmc.c:325-372 | a card that answers every command is attached, with its disk |
| CardSlot.Softc.DiscoverTask | Sinetek-rtsx/3rdParty/openbsd/sdmmc.c:297-320 | every discover task keeps the slot settled, sends nothing without a change of presence, starts an attach only with an empty list, and does to flags and disk what the card lifecycle does; an attach it starts fails only for a reason in the answers |
| CardSlot.Softc.LeaveLoop | Sinetek-rtsx/3rdParty/openbsd/sdmmc.c:239-253 | when the thread leaves its loop nothing stays attached |
| CardSlot.DiscoveredBySteps | Sinetek-rtsx/3rdParty/openbsd/sdmmc.c:302-314 | that effect is a run of the task thread's own steps in the card lifecycle |
| CardSlot.Softc.FunctionZeroIff | Sinetek-rtsx/SDDisk.cpp:342 | between tasks function 0 exists exactly while a card is attached |

## Left out

- CardSlot.Softc.MemInit: the set-up sequences (bus width, high speed, clock) are commands that can fail; which of them failed decides only the return value, which is not stated.
- CardSlot.Softc.ReadRegisters: decoding CSD and CID of a found card is one step that can fail; the decoding itself is `CardRegisters.DecodeCsd`.
- DataPath.DataCommand: a transfer that breaks off halfway is the error and junk of `BlockIo.Fate`; the waits for interrupts are not modelled.
- Commands without data (selection, stop, status) are steps that can fail in `BlockIo`; that their programs are the commands is `HostCommand.ExecProgramIsTheCommand`.
- RtsxChip: the register set is the part the two programs use; timing and register read-back polling are not modelled.
- Sdio: read and write variants of the two loops differ in one flag and are one method with a parameter; CMD52 and the interrupt list of I/O functions are not modelled.
- Cis: a MANFID tuple longer than four bytes is not well-formed here, because the parser does not skip its extra bytes; memory without an END tuple is not covered.
- SDIO enabling: the macOS build never sets the I/O mode flag, so `sdmmc_io_enable` has no model and `CardSlot.Softc.CardAttach` starts without it.
- CSD fields that do not enter the capacity (command classes, versions) and the CID fields: more calls of the same field reader.
- Reading under the boot argument that mimics Linux, where a later command can hide a read error.
- Diagnostic status reads after a failed command, logging, LEDs, clocks, bus power registers and chip bring-up.
- `rtsx_wait_intr`: the interrupt handler sets the status without the global lock, so no wakeup claim is made for it.
- Concurrent use of the slot dictionary: keys and values are written outside its lock; it is modelled sequentially.
- `Sinetek_rtsx::task_execute_one_impl_`: a second consumer of the queue whose timer is never armed in the files shown.
- Saving and restoring chip registers around a suspend, `doGetFormatCapacities`, IOKit object management, PCI attachment, and everything under `Sinetek-rtsx/3rdParty/linux`.
