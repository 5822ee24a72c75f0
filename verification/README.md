# The SPI-to-USB disk proxy, modelled and proved in Dafny

The firmware of this repository sits between a master microcontroller and a USB drive: the master sends
commands over SPI, the firmware cuts large requests into 8192-byte chunks, checks their CRC, and reads or
writes the drive through a USB mass-storage host. The project models that path from the SPI wire down to the
medium, in the layers of the source:

| file | models |
|---|---|
| `Words.dfy`, `Arithmetic.dfy` | bytes, fixed-width words, error codes; a few facts about products |
| `Gf2.dfy`, `Crc.dfy` | polynomials over GF(2); the CRC-32 loop and what it detects |
| `Protocol.dfy` | headers and response frames, staged and decoded |
| `Chunking.dfy` | `compute_chunk` |
| `Disk.dfy`, `Drive.dfy`, `Cbw.dfy` | the medium; a drive driven by an arbitrary oracle; command and status wrappers |
| `Transport.dfy` | what each step of Bulk-Only Transport and of an install may do, and what the drive's replies make it do |
| `MscHost.dfy`, `TransportTrace.dfy` | Bulk-Only Transport with its recovery, the device list; the order of transfers |
| `Watchdog.dfy`, `Driver.dfy` | hot-plug, retries, watchdog, cached capacity, block operations |
| `Commands.dfy`, `SpiLink.dfy` | the slave's command loop, the READY line, what one command may do |
| `Layers.dfy` | an accepted chunk passes every check further down |
| `EndToEnd.dfy`, `Runs.dfy` | whole conversations about one job; runs of events, polls and commands, and what follows from their record |
| `Board.dfy` | the device itself: every interleaving, from power-up on |

Classes, arrays and loops appear where the source has them (`SpiLink`, `UsbMassStorage`, `MscHost`, the CRC
loop, the readiness loop, the list search); pure code is functions. `dafny verify dfyconfig.toml` checks
everything.

## What it comes to

- **The data arrives.** `Boards.Board.RunJob`: the master stores a range of blocks with chunk Writes sent in any
  order, repeated, damaged on the wire or failing at the drive, among polls, Reads and other commands. From the
  responses alone: once every chunk has had an ESP_OK, the medium is the old one with exactly the range
  overwritten; a Read of a chunk after its ESP_OK brings exactly that chunk, and the bodies of such Reads of all
  chunks, without their trailers, are the data.
- **Damage is seen.** Any damage confined to 32 consecutive bits of a chunk and its trailer makes the slave
  refuse the Write and leave the medium alone, because the CRC loop is polynomial division by the IEEE 802.3
  polynomial and one shift of the register can be undone.
- **No foreign status.** ESP_OK from any command, at any nesting level, means the drive executed that very
  command, once. Recovery terminates, with at most one more level of nesting and 153 commands for every two
  failed transfers.
- **The link stays in phase**, with polls in between or not, exactly when no Write that the known capacity accepts
  loses its payload transfer; every other request is answered (`SpiLinks.SpiLink.Run`, `Boards.Board.RunOnDrive`).
- **Good drives are served.** A drive whose next transfers complete, obey and carry a good status with the newest
  tag is installed at the first poll (`Boards.Open`), even if up to 50 tries at readiness fail before for a reason
  that lets the host try again; its capacity becomes known and stays known, and every accepted
  Read and intact accepted Write is answered ESP_OK (`SpiLinks.SpiLink.Step`). From power-up to the data on the
  medium, nothing but the inputs is assumed: `Boards.StoreFromPowerUp`.
- **Power is cycled exactly when it is due.** The history of polls alone says when: a quiet poll two seconds after the
  first of an unbroken row of quiet ones, and two seconds after the last cycle (`Boards.Board.Run`,
  `Watchdog.QuietBusIsCycled`).
- **No command reaches a device that is not installed**, and the cached capacity is the one the drive behind the
  open handle reported last, its own geometry. This and all other invariants hold in every run from power-up on
  (`Boards.Life`).

## Assumptions

The code relies on these, and so do the proofs:

- `usize` is 32 bits; unchecked `u32` additions wrap, as in the release profile.
- A drive fails finitely many transfers. Nothing else bounds the recursion of the error recovery.
- A drive reports success for a tag only after executing a command with that tag, executes only whole commands
  inside its medium, and leaves each block of an interrupted write old or new. Everything else it does comes
  from an arbitrary oracle, stale statuses included. It has one logical unit, sends full-length status wrappers, and
  no more data than asked for.
- The block size and the number of blocks of a drive never change. A card reader whose medium is exchanged behind
  an open handle is not covered.
- What successful commands mean is claimed for the first 2^32 - 1 commands (`issued < U32`); then tags repeat.
- The master clocks every transfer in full, and knows which transfer it is clocking.
- Events, polls and SPI commands do not overlap. The source has no lock between the two tasks.
- The clock of the polls is monotone. `DEBUG_VFS` is 0, so the mount branch is dead.

## Where the code is not what one would expect

Each is proved, and the exact condition with it:

- The block count of READ CAPACITY(10) is the address of the last block, but is used as a number of blocks: the
  last block of every drive is out of reach (`Commands.ReachableIffNotLast`), and a drive of one block is never
  ready (`Driver.UsbMassStorage.BdStatus`).
- `compute_chunk` adds the chunk's offset to the start address without a check: near 2^32 a chunk is accepted
  at block 0 (`Chunking.WrappedChunkAccepted`, `Chunking.AcceptedInPlaceIffNoWrap`).
- The range check of the block operations saturates: a range past 2^32 passes if the cached count is 2^32 - 1
  (`Driver.UsbMassStorage.NotRefusedInside`). No accepted chunk gets there (`Layers.AcceptedChunkNotRefused`).
- A lost payload of an accepted Write gets no response, one of a refused Write does
  (`SpiLinks.SpiLink.LoseOne`, `SpiLinks.SpiLink.Step`); and a refused Write clocks a full payload while an
  accepted one clocks the length of its chunk (`SpiLinks.SpiLink.ServeWrite`).
- README.md of the repository promises three retries with a power cycle. If the first three attempts to install
  after a CONNECTED event all come back with INVALID_STATE, from the library or from the drive, the address stays
  pending without retries, and the watchdog never sees a quiet bus again: no retry and no power cycle until another
  event. This is the only way into that state (`Driver.UsbMassStorage.PollOnce`), nothing else gets out of it
  (`Boards.Board.Run`), and the polls tell when it happens: always if INVALID_STATE is the library's first error all
  three times, and never unless each time it is, or the library has no error and a transfer of the drive fails
  with it (`Boards.Board.GivesUp`; `Boards.StuckFromPowerUp` is a run that ends there).
- CONNECTED drops an open handle without uninstalling its device, and DISCONNECTED closes the driver's own
  handle whichever device is gone (`Driver.UsbMassStorage.HandleConnected`,
  `Driver.UsbMassStorage.HandleDisconnected`).

## Model

| member | source | states |
|---|---|---|
| Crc.SpiCrc32 | src/spi_link/protocol.rs:15-29 | the nested loops compute the register function whose meaning the next rows give |
| Crc.CrcIsRemainder | src/spi_link/protocol.rs:15-29 | the CRC, complemented, is the remainder of the message polynomial, with its first 32 bits complemented, under division by the generator (section 3.2.9 of IEEE 802.3) |
| Crc.CrcDivision | src/spi_link/protocol.rs:15-29 | a quotient and a remainder satisfy the division identity with the message exactly when the remainder is the complemented CRC and the quotient the one of the division |
| Crc.PolyIsIeee802 | src/spi_link/protocol.rs:21 | the constant holds the exponents of the IEEE 802.3 generator, reflected |
| Crc.CrcAffine | src/spi_link/protocol.rs:15-29 | over messages of one length, the CRC of the exclusive-or of three is the exclusive-or of their CRCs |
| Crc.AcceptedIffResidue | src/spi_link/transport.rs:496-502 | a frame passes the Write check exactly when the whole frame leaves one fixed residue in the register |
| Crc.CrcOfFrameIsConstant | src/spi_link/protocol.rs:15-29 | the CRC of any payload followed by its own little-endian CRC is one constant |
| Crc.ShiftInjective | src/spi_link/protocol.rs:20-25 | a shift step can be undone, because the top bit of the polynomial is set |
| Crc.BurstDetected | src/spi_link/transport.rs:496-508 | damage confined to any 32 consecutive bits of payload and trailer, straddling them or not, makes the check fail |
| Crc.FourByteBurstDetected | src/spi_link/transport.rs:496-508 | the same for any four consecutive bytes |
| Crc.IntactFrameAccepted | src/spi_link/transport.rs:224-228 | what the slave sends passes the same check on the master's side |
| Protocol.HeaderRoundTrip | src/spi_link/protocol.rs:76-86 | decoding the packed 16-byte image of any header gives the header |
| Protocol.RequestBytes | src/spi_link/protocol.rs:47-126 | sixteen raw bytes are a request exactly if they begin with 42 4B 01; byte 3 from 1 to 5, with or without the flag 80, is one of the five commands and anything else none; sequence number, chunk and both arguments are the little-endian words at offsets 4, 6, 8 and 12 |
| SpiLinks.ResponseBytes | src/spi_link/transport.rs:182-195 | a response is 42 4B 01, the command byte of the request with the flag 80, bytes 4 to 7 of the request, the status and the second argument as little-endian words, and the body |
| Protocol.CapacityRoundTrip | src/spi_link/protocol.rs:147-152 | both words of a capacity payload come back |
| Protocol.InlineFrameRoundTrip | src/spi_link/transport.rs:182-208 | for every request, status and inline payload the staged frame decodes to a response to that request, with that status, second argument and payload |
| Protocol.ReadFrameRoundTrip | src/spi_link/transport.rs:211-233 | a Read frame decodes to its request, status, second argument, exactly the bytes of the block buffer, and a trailer that matches |
| Words.StatusRoundTrip | src/spi_link/protocol.rs:136 | a negative error code survives the cast to an unsigned word |
| Chunking.ComputeChunkInBlocks | src/spi_link/transport.rs:297-332 | the byte arithmetic amounts to a block computation, and its own whole-block check never fails |
| Chunking.RefusalCodes | src/spi_link/transport.rs:299-329 | the code of every refusal, and which reason comes first: block size 0 or no divisor of 8192, block size above 8192, 2^32 bytes or more, a chunk behind the end, no capacity, a range past the last block |
| Chunking.Tiling | src/spi_link/transport.rs:310-331 | of a request that fits, exactly the first ceil(n bs / 8192) chunks are accepted, each at its own blocks, and all others are refused with INVALID_ARG |
| Chunking.ChunksAbut | src/spi_link/transport.rs:310-321 | the chunks lie end to end, from the first block of the request to the last |
| Chunking.ChunksPartition | src/spi_link/transport.rs:310-321 | every block of a request lies in exactly one chunk |
| Chunking.ChunkBytes | src/spi_link/transport.rs:315-331 | the chunk lengths add up to all bytes of the request |
| Chunking.ServedIffFits | src/spi_link/transport.rs:297-332 | every block of a request can be reached through some chunk exactly when the request ends inside the cached capacity and is at most 65536 payloads long |
| Chunking.AcceptedInPlaceIffNoWrap | src/spi_link/transport.rs:320 | an accepted chunk is at its own place exactly when start plus offset stays below 2^32 |
| Chunking.WrappedChunkAccepted | src/spi_link/transport.rs:320-329 | a request near 2^32 whose second chunk is accepted at block 0 |
| Commands.AcceptedChunk | src/spi_link/transport.rs:315-331 | an accepted chunk is a positive number of blocks below 65536, has at most 8192 bytes, ends inside the cached capacity, and neither its count nor its length is truncated |
| Layers.AcceptedChunkOnMedium | src/usb_mass_storage/usb_host_msc/src/msc_scsi_bot.c:317-362 | a drive with the cached geometry finds the READ(10) and the WRITE(10) for an accepted chunk inside its medium, with the length the command implies and the count of the chunk |
| Layers.AcceptedChunkNotRefused | src/usb_mass_storage/block_device.rs:60-125 | none of the checks of the block operations refuses an accepted chunk |
| Commands.ReachableIffNotLast | src/spi_link/transport.rs:323-329 | with the count a drive reports, a block can be reached by some command exactly when it is not the last one |
| Cbw.CbwRoundTrip | src/usb_mass_storage/usb_host_msc/src/msc_scsi_bot.c:57-65 | a device with one logical unit decodes from the 31 bytes exactly the tag, length, direction, block address and 16-bit count that were meant, whatever lies behind the command block |
| Cbw.WrapperBytes | src/usb_mass_storage/usb_host_msc/src/msc_scsi_bot.c:57-65 | the signature, direction and logical unit bytes; the length byte is 10 for WRITE(10) and 12 for the others; the opcode; zeros in every byte of the command block that holds no argument |
| Transports.StatusIsOwn | src/usb_mass_storage/usb_host_msc/src/msc_scsi_bot.c:236-248 | a status that passes the check of the newest command is good, carries its tag, and proves that this command was executed, exactly once |
| Transports.ErrorCodes | src/usb_mass_storage/usb_host_msc/src/msc_host.c:650-663 | a stall is 0x1704 on a bulk endpoint and 0x1703 on the control endpoint, any other failed transfer has its own code, a status wrapper that is bad or foreign is -1; the wait makes 51 tries |
| Transports.CommandsAre | src/usb_mass_storage/usb_host_msc/src/msc_scsi_bot.c:317-445 | the transfer length, direction and arguments of each command: 0 bytes, 18, 36 and 8 towards the host, and for a range the product of count and block size cut to 32 bits with the count cut to 16 |
| Transports.RangeServed | src/usb_mass_storage/usb_host_msc/src/msc_scsi_bot.c:317-362 | a drive that helps with the next three transfers serves a READ(10) and a WRITE(10) whose range lies on its medium, if wrapper and command block agree on the length |
| MscHosts.MscHost.constructor | src/usb_mass_storage/usb_host_msc/src/msc_scsi_bot.c:234 | the counter at zero, no device: the first state of every run meets the invariants |
| MscHosts.MscHost.BotExecuteCommand | src/usb_mass_storage/usb_host_msc/src/msc_scsi_bot.c:269-300 | success means this command was executed once, carried out in full, with a clean sequence of transfers and no recovery; a drive whose next transfers all help makes it succeed; if the replies to its stages or its status call for an error, that is its result; in any case the wrapper goes out first, only addressed blocks changed, and nesting and nested commands are bounded by failed transfers |
| MscHosts.MscHost.StatusStage | src/usb_mass_storage/usb_host_msc/src/msc_scsi_bot.c:279-297 | at most two status reads, the second after a stall and a clear; the result is the error of the last transfer made; a command that went into recovery fails, and an accepted reset is followed by at least one command |
| MscHosts.MscHost.MscHostResetRecovery | src/usb_mass_storage/usb_host_msc/src/msc_host.c:683-698 | after an accepted reset come both clears and then, as the next transfer, the wrapper of a TEST UNIT READY, so at least one command is built; if the drive helps with the two transfers after the clears, it returns ESP_OK with exactly that command; a refused reset ends it with its error and nothing sent; at most 153 commands of its own, one level deeper; the drive is left between commands and its medium alone; it succeeds only with a drive that has just executed a TEST UNIT READY |
| MscHosts.MscHost.MscWaitForReadyState | src/usb_mass_storage/usb_host_msc/src/msc_host.c:283-306 | between one and max(1, timeout/100) + 1 attempts, all but the last retried with an acceptable sense key, each key being byte 2 of sense data that came during its own turn; success exactly when the last succeeded, with a TEST UNIT READY the drive executed; from the replies: a drive that helps is ready at once; one that helps after any number of failed tries with reasons 0x00, 0x02 or 0x06 is ready then, if there is time left; any other first reason ends the wait with INTERNAL |
| MscHosts.MscHost.ScsiCmdSense | src/usb_mass_storage/usb_host_msc/src/msc_scsi_bot.c:404-430 | a REQUEST SENSE goes out first; a drive that helps with the next three transfers and has its 18 bytes makes it return ESP_OK and byte 2 of them, with this one command, which is what the drive executed; if the replies call for an error, that is its result; bounded recovery, medium untouched |
| MscHosts.MscHost.SenseOnError | src/usb_mass_storage/usb_host_msc/src/msc_scsi_bot.c:334-338 | after a failure a REQUEST SENSE goes out; if it is served, the result is the error of the command, and if its replies call for an error, that one; never success |
| MscHosts.MscHost.ScsiCmdUnitReady | src/usb_mass_storage/usb_host_msc/src/msc_scsi_bot.c:387-402 | success means the drive has just executed a TEST UNIT READY with the newest tag, and that nothing else was sent; it succeeds if the next two transfers help, and fails if the replies call for an error; a failure is followed by a request for its reason |
| MscHosts.MscHost.ScsiCmdInquiry | src/usb_mass_storage/usb_host_msc/src/msc_scsi_bot.c:432-450 | success is one command; it succeeds if the next three transfers help and the drive has its 36 bytes; a failure that needs no recovery and whose reason is given is reported with its own error |
| MscHosts.MscHost.ScsiCmdReadCapacity | src/usb_mass_storage/usb_host_msc/src/msc_scsi_bot.c:364-385 | success takes one command and gives the drive's block size and the address of its last block; it succeeds if the next three transfers help |
| MscHosts.MscHost.ScsiCmdRead10 | src/usb_mass_storage/usb_host_msc/src/msc_scsi_bot.c:317-339 | success takes one command and means the buffer is the range of the medium; it succeeds if the range is on the medium and the next three transfers help |
| MscHosts.MscHost.ScsiCmdWrite10 | src/usb_mass_storage/usb_host_msc/src/msc_scsi_bot.c:341-362 | success means exactly the range was overwritten, by one execution of this command; failure leaves each addressed block old or new and all others alone; it succeeds if the range is on the medium and the next three transfers help |
| TransportTrace.ClearsFollowReset | src/usb_mass_storage/usb_host_msc/src/msc_host.c:692-696 | after an accepted reset, bulk-IN and then bulk-OUT are cleared before any later command, nested or not (section 5.3.4 of Bulk-Only Transport 1.0) |
| TransportTrace.ClearOutFollowsReset | src/usb_mass_storage/usb_host_msc/src/msc_host.c:692-696 | bulk-OUT is only cleared after bulk-IN, an accepted reset, a failed second status, a clear and a stalled first status |
| TransportTrace.StatusIsDue | src/usb_mass_storage/usb_host_msc/src/msc_scsi_bot.c:279-291 | a status is read only after a command and its data, or once more after a stall and a clear |
| TransportTrace.FailureEndsCommand | src/usb_mass_storage/usb_host_msc/src/msc_scsi_bot.c:274-282 | a failed command or data stage ends the command |
| TransportTrace.CommandShape | src/usb_mass_storage/usb_host_msc/src/msc_scsi_bot.c:274-299 | since a command was sent: at most one data stage, two status reads and one reset |
| MscHosts.MscHost.FindMscDevice | src/usb_mass_storage/usb_host_msc/src/msc_host.c:359-374 | finds a listed device with this USB handle exactly when there is one |
| MscHosts.MscHost.MscDeinitDevice | src/usb_mass_storage/usb_host_msc/src/msc_host.c:257-280 | the device is off the list whatever the library answers, all others stay in order; success exactly when every answer was, or none was asked for |
| MscHosts.MscHost.MscHostInstallDevice | src/usb_mass_storage/usb_host_msc/src/msc_host.c:481-519 | all or nothing: failure at any step leaves the list as it was, success adds the returned handle at its tail and means that INQUIRY, TEST UNIT READY and READ CAPACITY were executed; the first error of the library, or of an address without a device, is the result; without one, a drive that helps with the three commands and has its INQUIRY data is installed, even if up to 50 tries at readiness fail before with a reason that lets the host try again; a failed INQUIRY is reported with its own error, any other first reason as INTERNAL; and INVALID_STATE can only come from a transfer of the drive |
| Transports.ReadyAtSecondTry | src/usb_mass_storage/usb_host_msc/src/msc_host.c:291-304 | a drive whose first TEST UNIT READY comes back with a bad status, which gives a reason of 0x00, 0x02 or 0x06 and helps with the second one is ready then, ten transfers after the wait began |
| Driver.UsbMassStorage.constructor | src/usb_mass_storage/driver.rs:55-65 | nothing open, pending or cached: the first state of every run meets the invariants |
| Driver.UsbMassStorage.HandleConnected | src/usb_mass_storage/driver.rs:122-140 | new address, three retries, no handle, no capacity; the list keeps a device that was open |
| Driver.UsbMassStorage.HandleDisconnected | src/usb_mass_storage/driver.rs:143-159 | no handle, address or capacity is left; the device that goes off the list is the open one, so the one that is gone leaves it exactly when it was the open one |
| Driver.UsbMassStorage.DeviceGone | src/usb_mass_storage/usb_host_msc/src/msc_host.c:385-395 | the loss of a listed device closes the driver's handle, that of any other changes nothing |
| Driver.UsbMassStorage.PollOnce | src/usb_mass_storage/driver.rs:168-198 | keeps every invariant of the driver; an install exactly if an address is pending with retries left; its result, which the replies of the drive foretell, decides what is left of both; the driver is stuck afterwards exactly if it was before, or the last retry came back with INVALID_STATE; stuck, it neither installs nor cycles power; power is cycled exactly if the bus is quiet and the history of polls says it is due; without an install nothing but the history changes; a drive that helps, at once or after failed tries, is opened with its geometry cached |
| Driver.UsbMassStorage.TryOpenAndMount | src/usb_mass_storage/driver.rs:201-245 | exactly one install if an address is pending with retries left, else nothing; INVALID_STATE costs a retry, any other result clears the address; the list grows by the new handle exactly on success, and its capacity is asked for once more; a drive that helps with the four commands, at once or after failed tries at readiness, is opened, with its geometry cached |
| Driver.UsbMassStorage.Watch | src/usb_mass_storage/driver.rs:180-196 | power is cycled exactly if the bus is quiet and, by the history of polls, all of them since 2000 ms or more saw nothing and no cycle ended less than 2000 ms ago |
| Watchdog.TickKeepsWatch | src/usb_mass_storage/driver.rs:180-196 | remembering one instant is enough: power is cycled exactly when the history calls for it, at every poll of the run |
| Watchdog.QuietBusIsCycled | src/usb_mass_storage/driver.rs:184-191 | a stretch of quiet polls, none of which has cycled power since its start or since the cycle it starts with: the poll that measures 2000 ms from there cycles it |
| Watchdog.QuietBusIsCycledAgain | src/usb_mass_storage/driver.rs:184-191 | on a bus that stays quiet, more than two seconds never pass without a power cycle |
| Watchdog.CycledOnlyThen | src/usb_mass_storage/driver.rs:180-196 | a power cycle comes only after 2000 ms of quiet polls and 2000 ms after the end of every earlier one |
| Driver.UsbMassStorage.BdRefreshCapacity | src/usb_mass_storage/block_device.rs:40-57 | success caches what the drive reported, its geometry; failure leaves the cache alone; so a known capacity stays; it succeeds, with one command, on a drive that helps, and fails with the error the replies settle |
| Driver.UsbMassStorage.BdStatus | src/usb_mass_storage/block_device.rs:21-37 | not present exactly without a handle; not ready without a capacity, and if the readiness command fails; usable only with a capacity, a TEST UNIT READY just executed and more than one block; a drive that helps and whose capacity is known is usable |
| Driver.UsbMassStorage.BdReadBlocks | src/usb_mass_storage/block_device.rs:60-91 | a refusal has the right error and sends nothing; success means the buffer is the range of the open drive, with the count cut to 16 bits; a whole range inside the capacity is read from a drive that helps; an error the replies settle is the result |
| Driver.UsbMassStorage.BdWriteBlocks | src/usb_mass_storage/block_device.rs:94-125 | a refusal has the right error and sends nothing; success means exactly the range was overwritten, with the count cut to 16 bits; in any case only addressed blocks changed; a whole range inside the capacity is written to a drive that helps; an error the replies settle is the result |
| Driver.UsbMassStorage.NotRefusedInside | src/usb_mass_storage/block_device.rs:73-76 | an operation that is not refused lies inside the cached capacity exactly when it does not run past 2^32 on a count of 2^32 - 1 |
| SpiLinks.SpiLink.ArmResponse | src/spi_link/transport.rs:182-208 | the staged bytes are the frame, never longer than the buffer |
| SpiLinks.SpiLink.ArmFromBlockBuf | src/spi_link/transport.rs:211-233 | the staged bytes are the frame of the block buffer and its CRC |
| SpiLinks.SpiLink.SendResponse | src/spi_link/transport.rs:281-287 | exactly the staged bytes go out, in one high period of READY |
| SpiLinks.SpiLink.Respond | src/spi_link/transport.rs:281-287 | the master decodes from the wire exactly the answer to its own request |
| SpiLinks.SpiLink.EnsureCapacityKnown | src/spi_link/transport.rs:290-294 | asks the drive exactly when the capacity is unknown, never touches the medium, and leaves the geometry cached if it was known or the drive helps |
| SpiLinks.SpiLink.ServeStatus | src/spi_link/transport.rs:372-388 | 0 exactly without a drive; with one, 1 if the capacity is not known or the readiness command fails, and otherwise 1 or 2; 2 only with a capacity and a drive that has just said it is ready, and always if it helps |
| SpiLinks.SpiLink.ServeCapacity | src/spi_link/transport.rs:390-410 | the block size and last address of the drive, just read from it and cached, with 8 as second argument, or an error and no payload; a drive that helps makes it the former, replies that settle an error make it that error |
| SpiLinks.SpiLink.ServeRead | src/spi_link/transport.rs:412-456 | ESP_OK brings exactly the blocks of the chunk with a matching CRC and its length, a refused chunk its own error; a known capacity stays, an unknown one is learnt from a drive that helps, and such a drive brings every chunk that capacity accepts; an error the replies settle is the status |
| SpiLinks.SpiLink.StoreChunk | src/spi_link/transport.rs:496-513 | a payload that does not match its trailer changes nothing; otherwise only the chunk changes, ESP_OK means all of it did, a drive that helps makes it ESP_OK, and an error its replies settle is the status |
| SpiLinks.SpiLink.ServeWrite | src/spi_link/transport.rs:458-531 | the payload transfer is made whether or not the chunk is accepted, with a length that depends on it; no answer exactly when an accepted chunk's payload is lost; a known capacity stays, an unknown one is learnt from a drive that helps, and such a drive stores every intact chunk that capacity accepts |
| SpiLinks.SpiLink.Step | src/spi_link/transport.rs:341-539 | one turn of the loop: in raw bytes, which header is a request and for what, and the frame that answers it; which transfers are made and how long each is, which request is answered, what the answer says, what it may do to the medium; the status byte is 0, 1 or 2, and 1 without a capacity or if the readiness command fails; a known capacity stays; a drive that helps lets it be known and makes every accepted Read, intact accepted Write and capacity request succeed, and errors its replies settle are reported; and every invariant of the driver is kept |
| SpiLinks.SpiLink.LoseOne | src/spi_link/transport.rs:489-492 | a Write that the known capacity accepts and whose payload transfer fails gets no response, and the transfers differ from those its header calls for |
| SpiLinks.SpiLink.StepUnattached | src/spi_link/transport.rs:382-396 | without a driver the transfers are the same, byte by byte, and the answers those of an empty bus |
| SpiLinks.SpiLink.Run | src/spi_link/transport.rs:335-541 | over any script, a request is answered unless it is a Write whose chunk the capacity in force accepts and whose payload is lost; the transfers are those the headers alone call for exactly when that has happened to none; a capacity known at the start is in force throughout; without a drive every request is answered |
| SpiLinks.InPhaseIffNothingLost | src/spi_link/transport.rs:335-541 | the transfers are those the headers alone call for exactly when every request was answered |
| SpiLinks.InPhaseIffNoPayloadLost | src/spi_link/transport.rs:489-492 | the same in terms of requests, payload transfers and capacities: in phase exactly when no accepted Write lost its payload |
| SpiLinks.InPhase | src/spi_link/transport.rs:458-531 | nothing is lost unless the payload transfer of a Write fails, whatever USB, capacity, CRC or SCSI do |
| SpiLinks.EmptyBusInPhase | src/spi_link/transport.rs:458-474 | with no drive, nothing is lost even if payload transfers fail |
| SpiLinks.LostPayloadOutOfPhase | src/spi_link/transport.rs:489-492 | one Write without a response puts master and slave out of phase |
| SpiLinks.DialogueKeepsLow | src/spi_link/transport.rs:281-287 | headers find READY low, and every other transfer has a high period to itself, over any dialogue |
| EndToEnd.TurnKeepsProgress | src/spi_link/transport.rs:458-531 | one command, whatever becomes of it, keeps what has been stored and adds what it acknowledges |
| EndToEnd.BurstIsHonest | src/spi_link/transport.rs:496-508 | a chunk damaged within 32 consecutive bits cannot spoil the conversation |
| EndToEnd.Conversation | src/spi_link/transport.rs:412-531 | Writes of one job in any order, repeated, damaged or failing: acknowledged chunks are on the medium and are what Reads bring, and nothing outside the range changes |
| EndToEnd.StoredOnceAcknowledged | src/spi_link/transport.rs:458-531 | once every chunk is acknowledged, the medium is the old one with exactly the range overwritten |
| EndToEnd.IntactStored | src/spi_link/transport.rs:458-531 | an intact chunk of the job, sent to a drive that helps and whose capacity is known, is acknowledged and stored, with one command of three transfers |
| EndToEnd.PiecesAreData | src/spi_link/transport.rs:310-321 | the chunks in order are the data |
| EndToEnd.BodiesAreData | src/spi_link/transport.rs:211-233 | the bodies of the responses to Reads of all chunks, trailers removed, are the data |
| Runs.MasterIsRight | src/spi_link/transport.rs:335-541 | the last conclusions drawn from actions and responses alone |
| Runs.ReadBackIsData | src/spi_link/transport.rs:412-456 | from the responses alone: Reads of chunks 0, 1, ... answered ESP_OK, each after its chunk was acknowledged, bring the data |
| Runs.PhaseOfRun | src/spi_link/transport.rs:335-541 | whatever events and polls lie between the commands, the transfers are those the headers alone call for exactly when every request was answered, and READY is low at the end |
| Runs.AnsweredByGeometry | src/spi_link/transport.rs:489-492 | with a capacity known at the start, the commands alone say which are answered, and whether all are |
| Runs.StuckByPolls | src/usb_mass_storage/driver.rs:235-238 | three polls whose first library error is INVALID_STATE come back with it; no others can that have another library error, or none and a drive no transfer of which fails with it |
| Boards.Board.Run | src/usb_mass_storage/driver.rs:119-198 | every interleaving of events, polls and commands keeps every invariant; the medium of a drive changes only by its own commands, each recorded; each CONNECTED event in the run pays for at most three installs, and a run without one makes no more than there were retries left; without events, an open drive stays open, a known capacity known and a stuck driver stuck; without a CONNECTED event an empty bus stays quiet; the history holds every poll with its times, and power was cycled exactly when it was due; the wire carries the commands' transfers and nothing else |
| Boards.Board.RunOnDrive | src/spi_link/transport.rs:335-541 | while a drive with a known capacity stays open, exactly the requests are answered that are not accepted Writes with a lost payload, and the transfers are those the headers call for exactly when there are none of these |
| Boards.Board.RunJob | src/spi_link/transport.rs:335-541 | the end-to-end theorem for a run on the real state, with the phase and the answers of the row above |
| Boards.Board.GivesUp | src/usb_mass_storage/driver.rs:205-244 | after CONNECTED and any number of polls, the driver is stuck exactly when the first three installs came back with INVALID_STATE; each result is tied to its poll, so three polls with that as first library error are enough, and polls with another, or with none and a drive that never fails with it, rule it out; while the address is pending power is not cycled; after any other result nothing is pending |
| Boards.Board.OpenDrive | src/usb_mass_storage/driver.rs:122-245 | CONNECTED and one poll open a drive that helps, at once or after failed tries at readiness, and cache its geometry, with four commands and three more for each failed try |
| Boards.Board.StoreAll | src/spi_link/transport.rs:458-531 | a drive that helps with each of them takes all chunks of a job, sent intact: every response is ESP_OK with the length of its chunk, and exactly the range is overwritten |
| Boards.Boot | src/main.rs:13-49 | the board at power-up meets every invariant: nothing open, pending, counted or sent |
| Boards.Life | src/main.rs:13-56 | every run from power-up on: all invariants, at most three installs for each CONNECTED event, transfers in order on every drive, the medium of each drive changed by its recorded commands alone, every poll on record, power cycled exactly when due, all polls quiet if nothing is ever connected, READY low, and master and slave in phase exactly when every request was answered |
| Boards.CycledFromPowerUp | src/usb_mass_storage/driver.rs:184-191 | with nothing connected after power-up, two polls two seconds or more apart: the second cycles power, the first does not |
| Boards.HelpsAtSecondTry | src/usb_mass_storage/usb_host_msc/src/msc_host.c:291-304 | a drive whose first TEST UNIT READY fails with a bad status and a reason of 0x00, 0x02 or 0x06 meets the conditions of the next three rows, reply by reply |
| Boards.Open | src/main.rs:13-56 | power-up, CONNECTED and one poll: a drive that helps, at once or after failed tries at readiness, is open with its geometry cached |
| Boards.Session | src/spi_link/transport.rs:335-541 | the end-to-end theorem from power-up on, about inputs alone |
| Boards.StoreFromPowerUp | src/spi_link/transport.rs:458-531 | from power-up on, a drive that helps, at once or after failed tries at readiness, and chunks sent intact: every response acknowledges its chunk with its length, and the data is on the medium |
| Boards.StuckFromPowerUp | src/usb_mass_storage/driver.rs:235-238 | a run from power-up into the state without retries and without power cycles |

The invariants that every driver method keeps are `Driver.UsbMassStorage.Valid`: an open handle is on the list
of installed devices and excludes a pending address; 0 to 3 retries, none without an address; no more than
three installs for each CONNECTED event; no cached capacity without a handle, and otherwise the geometry of the
drive behind it; every drive between commands with its history of transfers in order; power cycled exactly
when it was due.

## Left out

- MscHosts.MscHost.MscHostInstallDevice: assumes the host driver is installed.
- GPIO, LED, TPS pins, DMA registers, task creation, sleeps and logging. READY and the power cycle are recorded
  as events.
- `PerfSlave`, `Cmd::Flush` beyond its acknowledgement, `Header::new`.
- FatFs and the VFS layer, and the branch `DEBUG_VFS` switches off.
- The USB host library: each call is an answer from the environment. The four steps of `clear_feature` are one.
- Descriptor parsing, which rests on an iterator of that library.
- Overlap of SPI commands with events or polls: the two tasks share the driver without a lock.
- Resynchronisation after an invalid status wrapper, a phase error or a failed data stage: the code attempts none.
- Memory: a device whose release or close fails stays allocated after it has left the list.
- The master's firmware is not part of this model; a script stands in for it.
