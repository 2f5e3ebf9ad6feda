# Linux driver protocols, modelled and proved

This project models the algorithms and protocols of a collection of Linux drivers and proves what they
keep, deliver and conserve. Interrupts and completions are steps, hardware is an environment that may
answer in any way the step allows, and the main results are about whole runs: every interrupt sequence,
every interleaving, every list of messages, frames, writes or requests.

Code that changes objects and buffers in place is written as classes and methods over arrays. Such a method
is proved against a function on values (a machine step, a specification of a buffer), and lemmas then prove
what runs of that machine do.

| part | modules | models |
|---|---|---|
| SMBus PEC | `Gf2`, `Crc`, `I2cMessages`, `PecDetection` | CRC-8 as polynomial division, add and check of the PEC byte, error detection |
| I2C master | `I2cMaster`, `I2cScript`, `I2cTransfers`, `I2cLimits`, `I2cDriver` | the interrupt-driven S3C2410 master, its traffic and its results, and exactly which message lists it carries |
| SMBus emulation | `SmbusSlave`, `Smbus`, `SmbusXfer`, `SmbusNoise`, `SmbusLaws` | every SMBus protocol as I2C messages, against a register-file slave behind a line that may corrupt replies |
| RAM disk | `RamDisk` | a lazily created page cache refining flat memory |
| IDE transfers | `IdeTransfer`, `IdeRequests` | multi-sector scatter and gather over buffer chains |
| IDE addressing | `IdeRegisters`, `IdeAddressing` | CHS, 28-bit and 48-bit forms, capacity and host protected area |
| serial core | `UartSpec`, `UartPort` | the transmit ring, flow control and the TX interrupt |
| SAA711x | `SaaBursts`, `SaaDriver` | register writes merged into auto-increment bursts |
| 3c505 | `ElpProtocol`, `ElpDriver` | the busy, dmaing and backlog protocol |
| OSS audio | `AudioBuffers`, `AudioFragments`, `AudioWrites`, `AudioStream` | the fragment allocator, the mono-to-stereo output stream and what its writes report |
| CS89x0 | `Cs89x0` | frames out of a circular DMA log |
| ALSA duplex | `AlsaTrigger`, `AlsaDriver` | the trigger state machine of two substreams that share a clock |

`Arith` and `Sequences` hold facts that several parts need, `Wrappers` the option type, `Errno` the error numbers.
`dafny verify dfyconfig.toml` checks everything.

## What the code turned out not to do

Each of these is proved, with a concrete input or as an exact condition.

- I2C master: with nothing refused, a message list is carried as it is meant if and only if each message may
  follow the one before it (`I2cLimits.CarriedIffSupported`): after a write anything but a read without START,
  after a read only a read without START of at least one byte, two if it is the last. Two of the other lists:
  after a read that is followed by a message with START the next message's buffer is overwritten and
  success is reported (`I2cLimits.ReadMustBeLast`), and a message that switches from writing to reading
  without START completes the transfer and goes on with the cleared message
  (`I2cLimits.NoStartReadFaults`).
- I2C master: a slave that refuses data bytes of a write goes unnoticed; success is reported
  (`I2cLimits.RefusedDataReported`).
- SMBus on this master: the lists of the emulation are all carried, but the master does not look at
  I2C_M_RECV_LEN. Of a block read or block process call it reads the count alone, with PEC one byte more, so
  these are right only for count 0 (`SmbusLaws.EmulatedTraffic`).
- SMBus: an I2C block write of length 0 is a Send Byte on the bus (`SmbusLaws.I2cBlockRoundTrip`).
- Serial core: uart_stop, a CTS drop, and turning CRTSCTS on without CTS take the transmit interrupt away from a
  pending x_char, which then waits (`UartSpec.XcharStranded`); `UartSpec.XcharServed` says that no other
  operation does, and `UartSpec.XcharIsNext` when x_char goes out.
- SMBus: the length of an I2C block read is not checked; its buffers have room for 33 bytes
  (`SmbusXfer.ReadBound`).
- 3c505: when an upload finds no memory, or a receive error comes while idle, busy stays set with no
  transfer in flight and nothing is sent or delivered again (`ElpProtocol.StepInvariant` says exactly when,
  `ElpProtocol.StuckForever` what follows).
- IDE addressing: the 28-bit forms carry a request's length exactly up to 256 sectors
  (`IdeAddressing.Drive.DoRwDisk`), but set-up leaves the queue limit at min(2048, rqsize) even when it takes
  the 48-bit mode back. `IdeAddressing.Drive.Setup` says exactly when all admitted requests keep their
  length; where they do not, one of 257 sectors transfers one (`IdeAddressing.LengthsAfterSetup`). CHS needs
  at most 16 heads (`IdeAddressing.ChsAddressable`).
- OSS audio: a write that accepts samples and then faults on user memory, or has a submission refused, reports
  the error, and how many samples it accepted is lost; for blocking writes that no signal disturbs
  `AudioWrites.LengthLostIff` says exactly when. A refused submission also leaves the fragment's semaphore down
  for ever (`AudioFragments.HeldStays`).
- ALSA: the comment at sa11xx-uda1341.c:495 promises to resume from the old position. The resumed chunk is
  taken from the first period whatever the position was, and when all periods were queued at the pause
  nothing is queued at all (`AlsaTrigger.ResumesWherePaused`). Pausing playback, starting capture and
  releasing playback leaves the playback channel both active and zero-filled; stopping capture then stops
  playback (`AlsaTrigger.OneUseStep`, `AlsaTrigger.StopCaptureKillsPlayback`). Capture loses its clock
  when playback is suspended under it (`AlsaTrigger.SuspendLosesClock`), and also with START and PAUSE alone
  (`AlsaTrigger.PauseLosesClock`): pausing it flushes a channel that also plays, and its release relies on that
  channel. `AlsaTrigger.ClockStep` and `AlsaTrigger.SupplyStep` say exactly which events keep clock and supply.
- SAA711x: a refused burst is already in the shadow registers, all of it; chip and shadow agree if and only if no
  transfer is refused (`SaaDriver.Decoder.WriteBlock`, with `SaaDriver.RefusedWriteDiffers` as a witness).

## Model

| member | source | states |
|---|---|---|
| Crc.ComputeCrc8 | simple/本书代码/第14章 IIC设备驱动程序/i2c-core.c:1521-1533 | the bitwise loop returns the remainder of its 16-bit argument modulo x^8 + x^2 + x + 1 over GF(2) |
| Crc.Crc8IsRemainder | simple/本书代码/第14章 IIC设备驱动程序/i2c-core.c:1521-1533 | the function behind the loop is that remainder, for every 16-bit argument |
| Gf2.RemainderUnique | simple/本书代码/第14章 IIC设备驱动程序/i2c-core.c:1521-1533 | there is only one such remainder, so the two statements above determine the result |
| Crc.ComputePec | simple/本书代码/第14章 IIC设备驱动程序/i2c-core.c:1535-1543 | the byte loop folds the CRC over exactly the first count bytes |
| Crc.PecConcat | simple/本书代码/第14章 IIC设备驱动程序/i2c-core.c:1535-1543 | computing the PEC piece by piece equals computing it over the concatenation |
| Crc.PecIsRemainder | simple/本书代码/第14章 IIC设备驱动程序/i2c-core.c:1535-1543 | the PEC of a byte string of any length is p(x) * x^8 modulo the generator (SMBus 2.0, section 5.4) |
| I2cMessages.I2cMsg.MsgPec | simple/本书代码/第14章 IIC设备驱动程序/i2c-core.c:1545-1554 | the PEC of a message covers its address byte, with the direction bit, and then its bytes |
| I2cMessages.I2cMsg.AddPec | simple/本书代码/第14章 IIC设备驱动程序/i2c-core.c:1556-1561 | appends the PEC of the message and changes no other byte |
| I2cMessages.I2cMsg.CheckPec | simple/本书代码/第14章 IIC设备驱动程序/i2c-core.c:1563-1579 | takes the last byte off and accepts exactly when it is the PEC of what came before |
| I2cMessages.AddThenCheck | simple/本书代码/第14章 IIC设备驱动程序/i2c-core.c:1556-1579 | check_pec accepts what add_pec produced and restores length and bytes |
| I2cMessages.AddressByteMeans | simple/本书代码/第14章 IIC设备驱动程序/i2c-core.c:1545-1554 | the address byte that the PEC covers is twice the address, plus one for a read |
| PecDetection.PecLinear | simple/本书代码/第14章 IIC设备驱动程序/i2c-core.c:1535-1543 | the PEC of an exclusive or is the exclusive or of the PECs |
| PecDetection.ResidueZero | simple/本书代码/第14章 IIC设备驱动程序/i2c-core.c:1563-1579 | a stream is accepted exactly when the PEC over all of it, PEC byte included, is zero |
| PecDetection.UndetectedIffMultiple | simple/本书代码/第14章 IIC设备驱动程序/i2c-core.c:1563-1579 | the exact criterion: a corruption is missed if and only if the error polynomial is a multiple of the generator |
| PecDetection.BurstDetected | simple/本书代码/第14章 IIC设备驱动程序/i2c-core.c:1563-1579 | every error confined to eight consecutive bit positions is rejected, at any message length |
| PecDetection.OneByteDetected | simple/本书代码/第14章 IIC设备驱动程序/i2c-core.c:1563-1579 | every stream that differs in exactly one byte is rejected |
| PecDetection.PecParity | simple/本书代码/第14章 IIC设备驱动程序/i2c-core.c:1521-1543 | the PEC has the parity of the bits it covers |
| PecDetection.OddBitsDetected | simple/本书代码/第14章 IIC设备驱动程序/i2c-core.c:1563-1579 | every stream that differs in an odd number of bits is rejected |
| I2cScript.NextByteFollows | code/15/S3C2410 I2C主机驱动/i2c-s3c2410.c:267-420 | one interrupt does exactly what the next slot of the transfer's script asks for: bus events, buffer, cursors, state; reads that go on in a message without START included |
| I2cScript.HandlerRefinesScript | code/15/S3C2410 I2C主机驱动/i2c-s3c2410.c:267-420 | for every supported message list and every interrupt sequence, whole runs of the handler are executions of the script |
| I2cTransfers.AcknowledgedTransfer | code/15/S3C2410 I2C主机驱动/i2c-s3c2410.c:267-420 | with nothing refused, a supported list is carried: the bus has exactly START and address, the bytes, repeated STARTs and one STOP; the read buffers hold the slave's bytes and no other buffer changes; ACK is withheld on the last byte of a read only; the result is num |
| I2cLimits.CarriedIffSupported | code/15/S3C2410 I2C主机驱动/i2c-s3c2410.c:267-420 | with nothing refused, a list is carried so if and only if each message may follow the one before it: after a write anything but a read without START, after a read only a read without START of at least one byte, two if it is the last |
| I2cTransfers.TransferResult | code/15/S3C2410 I2C主机驱动/i2c-s3c2410.c:280-297 | under any acknowledge pattern the transfer ends at the first refused slot with that slot's error, or at the end with num; it completes once, and msg_num is 0 exactly when the state is STOP |
| I2cTransfers.RefusalIff | code/15/S3C2410 I2C主机驱动/i2c-s3c2410.c:287-420 | in whatever state of a transfer: a refused address breaks it off with -EREMOTEIO, a missing acknowledge on a read with -ECONNREFUSED unless it is the last byte of the list, neither if the message ignores it; every other interrupt goes on or ends with num |
| I2cTransfers.AddressRefused | code/15/S3C2410 I2C主机驱动/i2c-s3c2410.c:287-297 | a slave that is not there: START, address and STOP on the bus, -EREMOTEIO, and nothing later changes that |
| I2cTransfers.SuccessIffAccepted | code/15/S3C2410 I2C主机驱动/i2c-s3c2410.c:490-532 | the value reported is num if and only if no checked slot was refused |
| I2cTransfers.LaterInterruptsIgnored | code/15/S3C2410 I2C主机驱动/i2c-s3c2410.c:273-283 | for any list, interrupts after completion change no buffer, no result and put nothing on the bus |
| I2cTransfers.EachInterruptProgresses | code/15/S3C2410 I2C主机驱动/i2c-s3c2410.c:267-420 | each interrupt of a running transfer strictly shortens what remains of the script |
| I2cLimits.ReadMustBeLast | code/15/S3C2410 I2C主机驱动/i2c-s3c2410.c:390-407 | witness: after a read that is not last no START is issued, the next message's buffer is overwritten, and success is reported |
| I2cLimits.NoStartReadFaults | code/15/S3C2410 I2C主机驱动/i2c-s3c2410.c:338-348 | witness: a NOSTART message that switches to read completes the transfer and then uses the cleared message pointer |
| I2cLimits.RefusedDataReported | code/15/S3C2410 I2C主机驱动/i2c-s3c2410.c:318-361 | a slave that refuses a data byte of a write goes unnoticed: bus, buffers and the success reported are those of the transfer in which it accepts it |
| I2cMaster.AddressOfMeans | code/15/S3C2410 I2C主机驱动/i2c-s3c2410.c:179-194 | the byte behind a START is twice the address, plus one for a read, or for a write with I2C_M_REV_DIR_ADDR |
| I2cDriver.S3c24xxI2c.Stop | code/15/S3C2410 I2C主机驱动/i2c-s3c2410.c:213-227 | stop and completion clear the cursors, set the result and put one STOP on the bus |
| I2cDriver.S3c24xxI2c.RetryLoop | code/15/S3C2410 I2C主机驱动/i2c-s3c2410.c:318-361 | passing over used-up messages that are continued without START computes the machine's write step, and leaves a byte to send or a message that needs a START |
| I2cDriver.S3c24xxI2c.WriteByte | code/15/S3C2410 I2C主机驱动/i2c-s3c2410.c:318-361 | the write state computes the machine's write step and touches no buffer |
| I2cDriver.S3c24xxI2c.NextMessage | code/15/S3C2410 I2C主机驱动/i2c-s3c2410.c:332-361 | moving on to the next message: a repeated START, or -EINVAL and STOP for a read without START |
| I2cDriver.S3c24xxI2c.SendStart | code/15/S3C2410 I2C主机驱动/i2c-s3c2410.c:176-211 | a START carries the seven address bits behind the direction bit, which REV_DIR_ADDR inverts, and enables the acknowledge |
| I2cDriver.S3c24xxI2c.PrepareReadByte | code/15/S3C2410 I2C主机驱动/i2c-s3c2410.c:383-407 | the next read: withhold ACK before the last byte of the last message, stop after it |
| I2cDriver.S3c24xxI2c.IrqStart | code/15/S3C2410 I2C主机驱动/i2c-s3c2410.c:285-313 | the START state: a refused address ends the transfer with -EREMOTEIO unless ignored, an empty last message stops |
| I2cDriver.S3c24xxI2c.IrqRead | code/15/S3C2410 I2C主机驱动/i2c-s3c2410.c:363-407 | the READ state stores the byte, or ends with -ECONNREFUSED when it was refused and checked |
| I2cDriver.S3c24xxI2c.StoreByte | code/15/S3C2410 I2C主机驱动/i2c-s3c2410.c:363-381 | the received byte goes to the cursor of the current message, inside its buffer, and nowhere else |
| I2cDriver.S3c24xxI2c.IrqNextByte | code/15/S3C2410 I2C主机驱动/i2c-s3c2410.c:267-420 | the interrupt handler on objects and arrays computes one step of the machine whose runs the lemmas above describe |
| I2cDriver.S3c24xxI2c.StartTransfer | code/15/S3C2410 I2C主机驱动/i2c-s3c2410.c:500-511 | doxfer's set-up is the machine's initial state: cursors zero, START sent |
| I2cDriver.S3c24xxI2c.DoXfer | code/15/S3C2410 I2C主机驱动/i2c-s3c2410.c:490-532 | a whole transfer on objects and arrays is a run of the machine; the value returned is msg_idx once msg_num is 0 |
| SmbusSlave.Adapter.I2cTransfer | simple/本书代码/第14章 IIC设备驱动程序/i2c-core.c:1938-1940 | the adapter and slave that the emulation calls: what a register-file slave of SMBus 2.0, section 5.5, answers, with or without PEC, through a line that may change any byte of the reply, its count included; or an error of the adapter, and nothing happens |
| Smbus.PecWrite | simple/本书代码/第14章 IIC设备驱动程序/i2c-core.c:1923-1936 | a lone write with an appended PEC has the same effect on the slave as the write without it |
| Smbus.PecReply | simple/本书代码/第14章 IIC设备驱动程序/i2c-core.c:1942-1947 | the master accepts every reply to which the slave appended its PEC |
| Smbus.PecRead | simple/本书代码/第14章 IIC设备驱动程序/i2c-core.c:1923-1947 | asking for PEC in a read changes neither the slave nor the bytes before the PEC byte |
| SmbusXfer.CopyIn | simple/本书代码/第14章 IIC设备驱动程序/i2c-core.c:1882-1915 | block bytes land behind the command byte, in order and inside the buffer |
| SmbusXfer.BuildShort | simple/本书代码/第14章 IIC设备驱动程序/i2c-core.c:1829-1869 | quick, byte, word and process calls become the messages that the protocol needs |
| SmbusXfer.BuildBlock | simple/本书代码/第14章 IIC设备驱动程序/i2c-core.c:1870-1917 | block, block process call and I2C block become their messages; an illegal length is refused with the prescribed status |
| SmbusXfer.BuildMessages | simple/本书代码/第14章 IIC设备驱动程序/i2c-core.c:1811-1921 | for every protocol the two messages carry the transfer that the protocol needs |
| SmbusXfer.ReadBound | simple/本书代码/第14章 IIC设备驱动程序/i2c-core.c:1903-1964 | every index of an I2C block read is in bounds if and only if it asks for at most 33 bytes, which the code does not check |
| SmbusXfer.RequestPec | simple/本书代码/第14章 IIC设备驱动程序/i2c-core.c:1923-1936 | with PEC, a write gets its PEC byte, a read is one byte longer and partial_pec covers what was written |
| SmbusXfer.CheckReply | simple/本书代码/第14章 IIC设备驱动程序/i2c-core.c:1942-1947 | the check takes the last byte of a reply off, and gives -EBADMSG if and only if that byte is not the PEC of the rest |
| SmbusXfer.Transact | simple/本书代码/第14章 IIC设备驱动程序/i2c-core.c:1923-1947 | adding PEC, transferring and checking it gives the adapter's error, the slave's refusal, -EBADMSG for a reply that the check refuses, or success with the bytes heard before the PEC |
| SmbusXfer.StoreReply | simple/本书代码/第14章 IIC设备驱动程序/i2c-core.c:1949-1970 | the reply goes into the union member of the protocol, and a write changes nothing of the caller's |
| SmbusXfer.XferEmulated | simple/本书代码/第14章 IIC设备驱动程序/i2c-core.c:1810-1972 | for every protocol but Quick and I2C block with PEC when it is asked for, those two never: the transfer given to the adapter is the protocol's, with the PEC byte on a write and one byte more on a read; over a clean line the slave and the caller's data end as SMBus 2.0, section 5.5, prescribes; an error of the adapter is returned; with a changed reply the status is -EBADMSG exactly when the check refuses it, and on failure the caller's data are unchanged; every buffer index is in bounds |
| SmbusNoise.RefusedIffNoMultiple | simple/本书代码/第14章 IIC设备驱动程序/i2c-core.c:1942-1947 | a reply that the line has changed is refused if and only if its last byte is not the PEC of the others; if it kept its length, if and only if the error is not a multiple of the generator |
| SmbusNoise.CorruptReply | simple/本书代码/第14章 IIC设备驱动程序/i2c-core.c:1810-1972 | a reply that keeps its length and is corrupted in one byte, one burst of eight bits or an odd number of bits makes the emulation return -EBADMSG and leaves the caller's data unchanged |
| SmbusLaws.WordRoundTrip | simple/本书代码/第14章 IIC设备驱动程序/i2c-core.c:1853-1861 | a word written is read back, and nothing else of the caller changes |
| SmbusLaws.BlockRoundTrip | simple/本书代码/第14章 IIC设备驱动程序/i2c-core.c:1870-1886 | a block of any legal length is read back with its count |
| SmbusLaws.I2cBlockRoundTrip | simple/本书代码/第14章 IIC设备驱动程序/i2c-core.c:1903-1917 | I2C block write and read are inverse at equal length; at length 0 the write is a Send Byte |
| SmbusLaws.ByteRoundTrip | simple/本书代码/第14章 IIC设备驱动程序/i2c-core.c:1845-1851 | a byte written is read back, and nothing else of the caller changes |
| SmbusLaws.WordsLowFirst | simple/本书代码/第14章 IIC设备驱动程序/i2c-core.c:1852-1869 | words travel low byte first both ways: value modulo 256, then the quotient |
| SmbusLaws.RefusedCalls | simple/本书代码/第14章 IIC设备驱动程序/i2c-core.c:1870-1921 | -EINVAL for a written block of more than 32 bytes, -EOPNOTSUPP for an unknown protocol, and nothing else is refused before the bus |
| SmbusLaws.PecOnTheBus | simple/本书代码/第14章 IIC设备驱动程序/i2c-core.c:1923-1936 | with PEC, for every protocol but Quick and I2C block: a lone write ends in the PEC of its address byte and bytes, a read asks for exactly one byte more; everything else goes out as without |
| SmbusLaws.TransferTraffic | code/15/S3C2410 I2C主机驱动/i2c-s3c2410.c:267-420 | the emulation's message lists are carried by the S3C2410 master: exactly the written bytes, a repeated START, as many bytes read as the message has room for, one STOP |
| SmbusLaws.EmulatedTraffic | simple/本书代码/第14章 IIC设备驱动程序/i2c-core.c:1810-1940 | every emulated transaction, PEC or not, is a list that the S3C2410 master carries; it reads the bytes of the protocol if and only if the reply does not start with a count, or the count is 0: of a counted reply it reads the count alone, with PEC one byte more |
| RamDisk.MakePageUptodate | code/13/RAMDISK驱动/rd.c:102-130 | zeroes exactly the buffers that are not up to date: no byte that the disk holds changes |
| RamDisk.Disk.GrabPage | code/13/RAMDISK驱动/rd.c:222-229 | caching a page never changes a byte of the disk; it fails exactly when the page is not cached and memory is short |
| RamDisk.Disk.BufferThenPage | code/13/RAMDISK驱动/rd.c:97-130 | a block written through the buffer cache before its page is up to date survives make_page_uptodate, and every other byte of the page is what the disk held |
| RamDisk.Disk.OnePage | code/13/RAMDISK驱动/rd.c:216-257 | one round of the page loop moves exactly count bytes between segment and page |
| RamDisk.Disk.PageLoop | code/13/RAMDISK驱动/rd.c:214-257 | the loop moves the segment across page boundaries and stops early exactly at a page it cannot get |
| RamDisk.Disk.PagecacheIO | code/13/RAMDISK驱动/rd.c:202-258 | a segment's transfer moves all of it, or fails with -ENOMEM at a page that is neither cached nor allocatable; bytes outside are unchanged |
| RamDisk.Disk.MakeRequest | code/13/RAMDISK驱动/rd.c:268-296 | a bio reads flat memory or writes it; it fails exactly when it exceeds the capacity or needs a page that cannot be had; nothing outside its range changes |
| RamDisk.FlatIsLastWrite | code/13/RAMDISK驱动/rd.c:202-296 | flat memory returns the last byte written at a position, and zero where nothing was written |
| RamDisk.Disk.VisitsMeans | code/13/RAMDISK驱动/rd.c:205-256 | the pages that a transfer grabs are those that share a byte with its range, and for an empty range the page of its position |
| RamDisk.SegmentsContiguous | code/13/RAMDISK驱动/rd.c:284-287 | whole-sector segments lie one behind the other on the disk |
| IdeTransfer.BswapData | 实例代码/ide/ide-disk.c:62-70 | exchanges the low and the high byte of each word of the range in place, and nothing else |
| IdeTransfer.InputData | 实例代码/ide/ide-disk.c:72-77 | stores the drive's words, with low and high byte exchanged exactly if bswap is on |
| IdeTransfer.OutputData | 实例代码/ide/ide-disk.c:79-87 | sends the words, with low and high byte exchanged exactly if bswap is on, and leaves the caller's memory as it was |
| IdeTransfer.CodedTwice | 实例代码/ide/ide-disk.c:62-87 | swapping on the way out and on the way in cancels |
| IdeTransfer.CodedBytes | 实例代码/ide/ide-disk.c:62-87 | what travels, in bytes: with bswap the low byte of each word is the other side's high byte and the other way round, without it the words are the same |
| IdeTransfer.GatherAt | 实例代码/ide/ide-disk.c:233-274 | the data of a chain: the words of each buffer lie behind those of the buffers before it |
| IdeTransfer.Request.CursorData | 实例代码/ide/ide-disk.c:233-274 | the request's cursor points at the next words of the gathered chain |
| IdeTransfer.Request.Advance | 实例代码/ide/ide-disk.c:247-264 | advancing over sectors, and to the next buffer at its end, keeps cursor and counts consistent |
| IdeTransfer.OutputChunk | 实例代码/ide/ide-disk.c:238-271 | one round of the burst loop sends the next sectors of the chain, at most what buffer and burst allow |
| IdeTransfer.MultWrite | 实例代码/ide/ide-disk.c:233-274 | one burst is min(mult_count, remaining) sectors in chain order, across buffers |
| IdeRequests.BurstsCover | 实例代码/ide/ide-disk.c:233-315 | the bursts add up to the request and all but the last are full |
| IdeRequests.MultWriteIntr | 实例代码/ide/ide-disk.c:279-315 | one interrupt sends the next burst, or completes the request exactly when nothing is left |
| IdeRequests.WriteRequest | 实例代码/ide/ide-disk.c:279-446 | for every sequence of interrupt statuses: the drive has got a prefix of the sectors, once each, in chain order, in those bursts, and memory is unchanged; the request completes if and only if the drive asks for every burst and then for nothing, and then all sectors are out |
| IdeRequests.OutputSector | 实例代码/ide/ide-disk.c:454-457 | the next sector of the chain goes out, the cursor stays |
| IdeRequests.WriteIntr | 实例代码/ide/ide-disk.c:187-220 | one interrupt retires a sector and sends the next exactly when the status is good and DRQ says the opposite of being last; otherwise nothing moves |
| IdeRequests.WriteSingly | 实例代码/ide/ide-disk.c:187-457 | for every sequence of interrupt statuses: the drive has got a prefix of the sectors, in chain order, and memory is unchanged; the request completes if and only if the drive asks for every sector and then for nothing |
| IdeRequests.DoWrite | 实例代码/ide/ide-disk.c:424-459 | either write path gives the drive a prefix of the request in order, and says exactly when it completes; then the drive has every word, byte by byte in the order that bswap asks for |
| IdeRequests.ReadIntr | 实例代码/ide/ide-disk.c:137-182 | one read interrupt with data scatters min(mult_count, remaining) sectors, one without multiple mode, to the right places of the chain and nowhere else; one without waits or reports the error, and moves nothing |
| IdeRequests.InputChunk | 实例代码/ide/ide-disk.c:155-174 | one round of the read loop extends what has been read by the sectors of the current buffer |
| IdeRequests.ReadRequest | 实例代码/ide/ide-disk.c:137-182 | a whole read leaves the chain holding the drive's sectors in order, byte by byte in the order that bswap asks for, and memory outside it unchanged |
| IdeRequests.GatherStore | 实例代码/ide/ide-disk.c:155-177 | storing into one buffer changes the gathered data at the matching place only |
| IdeRequests.WriteThenRead | 实例代码/ide/ide-disk.c:137-315 | sectors written from one chain by a write that completes and read back into another of any shape and mult_count are the same, bswap on or off |
| IdeAddressing.Drive.Write48 | code/13/IDE驱动/ide-disk.c:190-228 | decoding the two-deep registers gives back the block; the count comes back exactly for 1 to 65536 sectors |
| IdeAddressing.Drive.Write28 | code/13/IDE驱动/ide-disk.c:229-236 | decoding gives back the block below 2^28; the count comes back exactly for 1 to 256 sectors |
| IdeAddressing.Drive.WriteChs | code/13/IDE驱动/ide-disk.c:237-252 | cylinder, head modulo 16 and sector land in their registers, and up to 16 heads the LBA bit stays clear |
| IdeAddressing.ChsAddressable | code/13/IDE驱动/ide-disk.c:237-252 | every sector of a geometry is addressed right if and only if it has at most 16 heads |
| IdeAddressing.Drive.WriteAddress | code/13/IDE驱动/ide-disk.c:189-252 | in each form the drive finds the block (CHS: with at most 16 heads), and the count exactly if the form has room for it |
| IdeAddressing.Drive.DoRwDisk | code/13/IDE驱动/ide-disk.c:162-299 | for every request inside the capacity after set-up the command and registers decode to its first block (CHS: with at most 16 heads); the count is right if and only if it is at most 65536 (48-bit form) or 256, and in the 28-bit form is otherwise what eight bits keep of it; the command is EXT exactly in 48-bit mode unless a DMA request below 2^28 of an adapter without 48-bit DMA; it is DMA (or, with vdma, single-sector) exactly if DMA is on, set up, and not excluded for EXT, else multiple or single-sector by mult_count |
| IdeAddressing.Drive.SetLbaAddressing | code/13/IDE驱动/ide-disk.c:853-864 | the mode asked for is set only on adapters and drives that have 48-bit addressing, else 28-bit; it fails only when the adapter could and the drive cannot |
| IdeAddressing.Drive.LbaCapacityIsOk | code/13/IDE驱动/ide-disk.c:118-156 | accepts a capacity exactly when the geometry is no evidence, or agrees with it within a tenth as it stands or with its words swapped, and then keeps the order that agrees |
| IdeAddressing.NearMeans | code/13/IDE驱动/ide-disk.c:142-153 | the unsigned comparison means chs <= lba < 1.1 chs while the geometry stays below the 32-bit limit |
| IdeAddressing.SensibleMeans | code/13/IDE驱动/ide-disk.c:118-156 | the sanity test in numbers, while the geometry stays below the 32-bit limit: no cylinders, 16383 or 4092/16383 cylinders with 63 sectors and 15 or 16 heads and at least that capacity, or chs <= capacity < 1.1 chs accept the words as they stand; else the swapped words are accepted on the same bound, else neither |
| IdeAddressing.SwapTwice | code/13/IDE驱动/ide-disk.c:147-151 | swapping the words of a capacity twice gives it back |
| IdeAddressing.Disk.ReadNativeMaxAddress | code/13/IDE驱动/ide-disk.c:334-386 | the value read is one past the drive's last sector, or 0 on error, in both register forms |
| IdeAddressing.Disk.SetMaxAddress | code/13/IDE驱动/ide-disk.c:392-454 | after success the drive's last sector is the requested one and the value read back is the requested capacity; after an error nothing changes |
| IdeAddressing.AddressRegisters | code/13/IDE驱动/ide-disk.c:397-436 | the bytes of a maximum address decode to it, as three bytes and a nibble or as two times three bytes |
| IdeAddressing.Drive.CheckHpa | code/13/IDE驱动/ide-disk.c:482-512 | the capacity becomes the native size exactly when that is larger and the drive obeys both commands; then capacity and drive agree |
| IdeAddressing.Drive.InitCapacity | code/13/IDE驱动/ide-disk.c:528-553 | by the feature bits of the identify data: the 48-bit capacity, the sensible 28-bit one or the geometry, in that order, the native size in place of the first two when the protected area is larger and the drive obeys; LBA is selected exactly in the first two cases |
| IdeAddressing.Drive.Setup | code/13/IDE驱动/ide-disk.c:903-936 | the capacity kept, cut to 2^28 exactly when 48-bit addressing cannot be used; when the 48-bit mode remains on; and, for a drive of more than 256 sectors, every request that the queue admits afterwards gets the right length if and only if 48-bit addressing is out, or rqsize is at most 256, or the adapter has 48-bit DMA, or the drive is beyond 2^28 and does not use DMA |
| IdeAddressing.LengthsRightIff | code/13/IDE驱动/ide-disk.c:162-236 | whatever the queue limit, capacity and mode: all admitted requests get the right length if and only if they are at most 256 sectors, or all go out in the 48-bit form and are at most 65536 |
| IdeAddressing.LengthsAfterSetup | code/13/IDE驱动/ide-disk.c:903-936 | otherwise a request of 257 sectors is admitted, goes out in the 28-bit form and transfers one sector |
| UartSpec.StepKeepsInvariant | code/14/串口核心层/serial_core.c:450-578 | every core operation and TX interrupt keeps: sent then pending = accepted, ring not overfull, and a sendable ring has its interrupt on unless bytes were stored since the last uart_start |
| UartSpec.RunKeepsInvariant | code/14/串口核心层/serial_core.c:450-578 | over every interleaving nothing is lost, duplicated or reordered, and after each uart_start, until bytes are stored again, the transmitter never stalls |
| UartSpec.StoreAndFlush | code/14/串口核心层/serial_core.c:450-556 | a store takes the bytes that fit below 4096 pending ones, in order; a flush discards what is pending; neither touches line or interrupt |
| UartSpec.StoppedIsSilent | 实例代码/serial/serial_s3c2410.c:139-174 | a stopped port puts nothing but x_char on the line |
| UartSpec.StoppedExactly | code/14/串口核心层/serial_core.h:470-492 | over every run of a new port: hw_stopped holds exactly while CRTSCTS is on and the last reported CTS is down, stopped exactly after a stop that no start has followed |
| UartSpec.RestartSends | code/14/串口核心层/serial_core.c:82-112 | after uart_start, StartTty, a rise of CTS or the end of CRTSCTS that lets the port go on, its interrupt is on and all pending bytes are sent, in order |
| UartSpec.Drains | 实例代码/serial/serial_s3c2410.c:139-174 | an unstopped port with its interrupt on sends all pending bytes in order in at most as many interrupts, and then disables the interrupt |
| UartSpec.OneBurst | 实例代码/serial/serial_s3c2410.c:157-174 | one interrupt sends half a FIFO of the oldest bytes, at least one, or all there are, and turns itself off with the last |
| UartSpec.OtherInterrupts | 实例代码/serial/serial_s3c2410.c:145-155 | an interrupt with an x_char sends that alone; one that finds nothing it may send turns itself off |
| UartSpec.XcharIsNext | 实例代码/serial/serial_s3c2410.c:145-150 | a pending x_char goes out exactly with the first interrupt that finds the transmit interrupt enabled, as the next byte on the line, whatever the ring holds and whether or not the port is stopped |
| UartSpec.XcharStranded | code/14/串口核心层/serial_core.c:562-578 | uart_stop takes the interrupt away from a pending x_char: no number of interrupts then sends it |
| UartSpec.XcharServed | code/14/串口核心层/serial_core.c:562-578 | a pending x_char keeps its interrupt if and only if the operation is not uart_stop, a CTS drop that stops the port, or turning CRTSCTS on without CTS |
| UartSpec.XcharSent | 实例代码/serial/serial_s3c2410.c:145-150 | over every run without these the next interrupt sends a pending x_char, as the next byte on the line |
| UartPort.SpaceToEnd | code/14/串口核心层/serial_core.h:385-392 | the masked ring macros give the free space and the part of it before the end of the array |
| UartPort.Uart.CopyChunk | code/14/串口核心层/serial_core.c:505-514 | one memcpy appends exactly its bytes to the ring's contents |
| UartPort.Uart.CopyIn | code/14/串口核心层/serial_core.c:502-515 | accepts exactly min(count, free space) bytes, in order, in at most two copies |
| UartPort.Uart.PutChar | code/14/串口核心层/serial_core.c:450-464 | appends one byte, or nothing when the ring is full |
| UartPort.Uart.UartStart | code/14/串口核心层/serial_core.c:93-101 | enables the interrupt exactly when there is something to send and nothing stops it |
| UartPort.Uart.UartWrite | code/14/串口核心层/serial_core.c:478-519 | stores min(count, free space) bytes and starts the transmitter |
| UartPort.Uart.FlushChars | code/14/串口核心层/serial_core.c:473-476 | starts the transmitter for all bytes stored before it |
| UartPort.Uart.FlushBuffer | code/14/串口核心层/serial_core.c:535-556 | discards exactly the pending bytes |
| UartPort.Uart.SendXchar | code/14/串口核心层/serial_core.c:562-578 | puts the high-priority character up and enables the interrupt for it |
| UartPort.Uart.HandleCtsChange | code/14/串口核心层/serial_core.h:470-492 | with CTS flow control a drop of CTS stops the port and takes its interrupt, a rise of CTS restarts a stopped one; otherwise nothing happens |
| UartPort.Uart.SetTermios | code/14/串口核心层/serial_core.c:1134-1183 | turning CRTSCTS off restarts a stopped port, turning it on stops one whose CTS is off |
| UartPort.Uart.StopTty | code/14/串口核心层/serial_core.c:82-91 | stopping disables the interrupt |
| UartPort.Uart.StartTty | code/14/串口核心层/serial_core.c:103-112 | starting enables it if there is something to send |
| UartPort.Uart.TxInterrupt | 实例代码/serial/serial_s3c2410.c:139-174 | one interrupt sends x_char alone, or half the FIFO from the tail, or disables itself, as the queue machine's step |
| UartPort.Uart.SendBytes | 实例代码/serial/serial_s3c2410.c:158-165 | the do-while loop sends the oldest bytes of the ring, all of them or half a FIFO |
| SaaBursts.BurstIsApply | code/15/SAA711x I2C设备驱动/saa711x.c:105-127 | an auto-increment burst leaves the registers as its pairs written one by one |
| SaaBursts.GreedyIsGrouping | code/15/SAA711x I2C设备驱动/saa711x.c:105-127 | the driver's bursts are consecutive-register groups of at most 32 bytes that keep the order |
| SaaBursts.GreedyOptimal | code/15/SAA711x I2C设备驱动/saa711x.c:105-127 | no order-preserving grouping has fewer bursts |
| SaaDriver.Decoder.Write | code/15/SAA711x I2C设备驱动/saa711x.c:84-93 | one write updates the shadow register, and the chip if the transfer succeeds |
| SaaDriver.Decoder.FillBlock | code/15/SAA711x I2C设备驱动/saa711x.c:113-123 | the inner loop collects the longest burst and updates the shadow registers with it |
| SaaDriver.BurstInBytes | code/15/SAA711x I2C设备驱动/saa711x.c:105-123 | a burst in terms of the data: its register, its values at every second byte, at most 32 bytes, ended only by that limit, by the data, or by another register |
| SaaDriver.LastValueWins | code/15/SAA711x I2C设备驱动/saa711x.c:95-140 | a register ends up with the value of the last written pair that names it, or as it was |
| SaaDriver.Decoder.WriteBursts | code/15/SAA711x I2C设备驱动/saa711x.c:105-127 | the auto-increment path sends the greedy bursts and fails exactly when one of their transfers is refused; then the chip holds the bursts before it, and the shadow registers the refused burst as well |
| SaaDriver.Decoder.WriteSingly | code/15/SAA711x I2C设备驱动/saa711x.c:128-137 | the one-by-one path fails exactly when a transfer is refused; then the chip holds the pairs before it, and the shadow registers the refused pair as well |
| SaaDriver.Decoder.WriteBlock | code/15/SAA711x I2C设备驱动/saa711x.c:95-140 | on both paths chip and shadow registers hold all pairs written in order if and only if no transfer is refused; after a refusal the shadow registers are ahead by exactly the refused group; the raw path uses the fewest bursts |
| SaaDriver.RefusedWriteDiffers | code/15/SAA711x I2C设备驱动/saa711x.c:84-140 | witness: after a refused write of one register the shadow register has the new value and the chip the old one, on either path |
| ElpProtocol.StepInvariant | code/11/DMA范例/3c505.c:586-746 | a step keeps busy = dmaing, one transfer at most, at most three backlog entries and FIFO conservation if and only if there is a buffer for the next packet of the backlog, or for one arriving while idle, and that one has no receive error |
| ElpProtocol.RunInvariant | code/11/DMA范例/3c505.c:586-746 | every run of benign steps keeps them |
| ElpProtocol.RunTakes | code/11/DMA范例/3c505.c:988-1052 | over every run, benign or not: the packets taken by send_packet are downloaded and sent once each, in order, and the packets acknowledged, those without error unless three wait, are remembered in order |
| ElpProtocol.NotBenignSticks | code/11/DMA范例/3c505.c:586-644 | the other steps (no buffer for an upload, a receive error while idle) leave busy set without a transfer |
| ElpProtocol.StuckForever | code/11/DMA范例/3c505.c:535-548 | and then nothing is sent or delivered again, whatever happens |
| ElpProtocol.BacklogDrains | code/11/DMA范例/3c505.c:670-703 | completions deliver all waiting packets in order, finish a download in flight, and leave the driver idle |
| ElpDriver.Device.SendPacket | code/11/DMA范例/3c505.c:988-1052 | a packet is taken only when not busy, and then its download is the one transfer in flight |
| ElpDriver.Device.ReceivePacket | code/11/DMA范例/3c505.c:586-644 | an upload starts if there is a buffer; without one busy stays set |
| ElpDriver.Device.DmaDone | code/11/DMA范例/3c505.c:670-703 | a completion delivers or retires the transfer and starts the oldest backlog entry |
| ElpDriver.Device.ReceivePcb | code/11/DMA范例/3c505.c:535-746 | a packet announcement is acknowledged unless busy with three packets waiting, then uploaded or queued |
| ElpDriver.RingIn | code/11/DMA范例/3c505.c:231-234 | the in index appends to the backlog, and meets out exactly when three entries wait |
| ElpDriver.RingOut | code/11/DMA范例/3c505.c:231-234 | the out index takes the oldest entry, and equals in exactly when none waits |
| AudioBuffers.Stream.ClearBuf | code/17/OSS驱动范例/s3c2410-uda1341.c:282-305 | frees every block that the stream owns exactly once, with its own start and size |
| AudioBuffers.Stream.AllocFragments | code/17/OSS驱动范例/s3c2410-uda1341.c:329-336 | asks once for each size from the wanted fragments down and takes the first block granted; nothing when all are refused |
| AudioBuffers.Stream.SetupBuf | code/17/OSS驱动范例/s3c2410-uda1341.c:307-359 | success: nbfrags fragments carved from owned live blocks, nothing leaked; failure: everything granted has been freed, in order, once; busy: nothing changes; -ENOMEM if and only if there were no buffers and the array was refused or the pool, asked for its sizes downwards, refuses a single fragment |
| AudioBuffers.Extremes | code/17/OSS驱动范例/s3c2410-uda1341.c:320-352 | a pool that grants every request never runs out in set-up, and one that refuses every request always does |
| AudioBuffers.FragmentInBlock | code/17/OSS驱动范例/s3c2410-uda1341.c:323-349 | every fragment lies inside one live block |
| AudioBuffers.FragmentsDisjoint | code/17/OSS驱动范例/s3c2410-uda1341.c:323-349 | fragments are pairwise disjoint, whatever sizes the allocator grants |
| AudioFragments.StepKeeps | code/17/OSS驱动范例/s3c2410-uda1341.c:361-519 | taking and releasing a semaphore, copying, submitting and completing keep the ring's invariant; only copying adds to the stream, at its end |
| AudioFragments.RunDeliversInOrder | code/17/OSS驱动范例/s3c2410-uda1341.c:361-519 | over every interleaving of writer and DMA: played, in flight and partial together are the accepted samples in order |
| AudioFragments.NotFilledWhileQueued | code/17/OSS驱动范例/s3c2410-uda1341.c:361-519 | no fragment is filled while DMA owns it: a copy leaves every queued fragment as it is |
| AudioFragments.HeldStays | code/17/OSS驱动范例/s3c2410-uda1341.c:503-506 | a semaphore that a refused submission leaves down stays down, whatever completes |
| AudioStream.CopyMonoStereo | code/17/OSS驱动范例/s3c2410-uda1341.c:403-435 | at every user alignment the memory holds each sample twice, from the given position on, and is otherwise unchanged |
| AudioStream.OutputStream.DmaoutDone | code/17/OSS驱动范例/s3c2410-uda1341.c:361-367 | a completion frees the oldest submitted fragment |
| AudioStream.OutputStream.Down | code/17/OSS驱动范例/s3c2410-uda1341.c:464-472 | the semaphore is got unless DMA owns every fragment, none completes first, and the write is non-blocking or interrupted; no sample is affected |
| AudioStream.OutputStream.Enqueue | code/17/OSS驱动范例/s3c2410-uda1341.c:503-510 | a submission that succeeds passes the fragment to DMA and moves on to an empty one |
| AudioStream.OutputStream.FillCurrent | code/17/OSS驱动范例/s3c2410-uda1341.c:474-498 | a chunk extends the accepted samples, doubled in mono |
| AudioStream.OutputStream.WriteChunk | code/17/OSS驱动范例/s3c2410-uda1341.c:461-511 | one turn of the write loop: blocked exactly if DMA owns every fragment, none completes first, and it may not sleep; else exactly what room and samples, a fault and the result of the submission make of it; a refused submission leaves the semaphore down |
| AudioStream.OutputStream.Write | code/17/OSS驱动范例/s3c2410-uda1341.c:438-519 | a write accepts a prefix of the samples; -EAGAIN or -ERESTARTSYS exactly if its first turn is blocked; one that ends early without an error leaves no fragment free; what a blocking one without signals returns, accepts and leaves behind is its Outcome: all whole words, -EFAULT at the first fault, or the error of the first refused submission, whichever its turns reach first |
| AudioWrites.LengthLostIff | code/17/OSS驱动范例/s3c2410-uda1341.c:438-519 | with the turns' capacities in closed form: an error is reported although samples were accepted if and only if the first fault is not in the first turn, not after the first refusal, and comes before all samples are taken, or the first refusal comes before the first fault and at a fragment that the samples fill |
| AudioWrites.OutcomeMeans | code/17/OSS驱动范例/s3c2410-uda1341.c:438-519 | when k turns go well, a fault at the next returns -EFAULT after exactly the samples that fit before it, a refused submission its code after those that fit up to it, with the semaphore down, unless the samples end before |
| AudioWrites.LastReached | code/17/OSS驱动范例/s3c2410-uda1341.c:461-519 | when the loop ends, the value returned, the samples taken and the semaphore left down are the Outcome of the environment |
| AudioStream.OutputStream.Sync | code/17/OSS驱动范例/s3c2410-uda1341.c:378-401 | after a successful sync the queue is empty and everything accepted has been played; -EINTR exactly if a signal comes while there is something to wait for |
| AudioStream.JoinedConcat | code/17/OSS驱动范例/s3c2410-uda1341.c:438-519 | the samples of several writes follow each other in the order of the writes |
| AudioStream.OutputStream.Play | code/17/OSS驱动范例/s3c2410-uda1341.c:378-519 | for any splitting into writes and any alignment, write and sync play exactly the samples in order, each twice in mono |
| Cs89x0.HeaderBack | code/16/CS8900以太网设备驱动/cs89x0.c:981-983 | status and length of a logged frame are read back, low byte first, from the header at a 4-aligned pointer |
| Cs89x0.PayloadBack | code/16/CS8900以太网设备驱动/cs89x0.c:1010-1017 | the one or two copies read the payload back, wrapped or not |
| Cs89x0.TakeRing | code/16/CS8900以太网设备驱动/cs89x0.c:981-1020 | taking the first frame leaves the pointer inside the ring, 4-aligned, at the next frame |
| Cs89x0.TakeBooks | code/16/CS8900以太网设备驱动/cs89x0.c:987-1031 | deliveries, statistics and pointer stay functions of the frames taken; the pointer depends on lengths only |
| Cs89x0.EachCountedOnce | code/16/CS8900以太网设备驱动/cs89x0.c:987-1031 | over any frames taken: delivered, dropped and bad ones add up to all of them; packets and bytes are those delivered |
| Cs89x0.NetLocal.DmaRx | code/16/CS8900以太网设备驱动/cs89x0.c:973-1032 | takes exactly one frame: delivered if good and there is memory, counted otherwise, pointer advanced alike |
| Cs89x0.NetLocal.Judge | code/16/CS8900以太网设备驱动/cs89x0.c:987-1031 | a frame with bit 0x100 of its status set is delivered whole if there is memory, else counted as dropped; without that bit it moves the error counters that its bits 0x80, 0x1000, 0x2000 and 0x4000 name |
| Cs89x0.NetLocal.Transfer | code/16/CS8900以太网设备驱动/cs89x0.c:973-1032 | the chip's side: appending a frame extends the circular log |
| Cs89x0.NetLocal.RxDma | code/16/CS8900以太网设备驱动/cs89x0.c:1639-1651 | with frames arriving at any time the loop ends with every arrived frame taken once, in order of arrival, and each of them counted once |
| AlsaTrigger.StepKeeps | code/17/ALSA驱动范例/sa11xx-uda1341.c:450-704 | every trigger, completion and prepare keeps: period < n, periods <= n, paused positions in range, every queued chunk inside its buffer, nothing queued while a paused position waits, capture not zero-filled |
| AlsaTrigger.RunKeeps | code/17/ALSA驱动范例/sa11xx-uda1341.c:450-704 | over every run these hold |
| AlsaTrigger.ClockStep | code/17/ALSA驱动范例/sa11xx-uda1341.c:450-704 | the clock of capture is the playback channel sending something (zeros, or chunks of active playback); an event keeps it if and only if it is not: suspending playback under a running capture, suspending capture under the zero fill, or starting, resuming or releasing capture beside active playback with nothing on its channel, or, once suspended, beside idle playback |
| AlsaTrigger.RunClocked | code/17/ALSA驱动范例/sa11xx-uda1341.c:450-704 | over every run of such events active capture has a clock, and the channel is zero-filled while tx_spin asks for it |
| AlsaTrigger.SupplyStep | code/17/ALSA驱动范例/sa11xx-uda1341.c:466-704 | active playback keeps something on its channel if and only if the event is not: its start, resume or release with an empty channel and all periods accounted for, its release with an empty channel and no paused position, or pausing capture while the channel both plays and is zero-filled |
| AlsaTrigger.PauseLosesClock | code/17/ALSA驱动范例/sa11xx-uda1341.c:554-679 | witness with START and PAUSE alone: both streams active, nothing on the playback channel, capture without a clock |
| AlsaTrigger.SuspendLosesClock | code/17/ALSA驱动范例/sa11xx-uda1341.c:611-624 | witness: suspending playback while both streams run leaves capture active and the playback channel silent |
| AlsaTrigger.RefilledOk | code/17/ALSA驱动范例/sa11xx-uda1341.c:491-523 | the queueing loop stops only with all periods or the channel full |
| AlsaTrigger.PlaysCyclically | code/17/ALSA驱动范例/sa11xx-uda1341.c:491-546 | a stream started in step with its buffer, at any period, plays the following periods in order around it: after k completions, for any k, the channel is full and its next chunk is the k-th period on, modulo n |
| AlsaTrigger.StartPlaysCyclically | code/17/ALSA驱动范例/sa11xx-uda1341.c:491-583 | either stream, prepared and started on any chip, playback also while the channel is fed zeros for a capture, goes through period 0, 1, 2, ... of its buffer unless a paused position was left behind or the channel has chunks queued |
| AlsaTrigger.EndedStays | code/17/ALSA驱动范例/sa11xx-uda1341.c:584-662 | over every run, for either stream: after STOP or SUSPEND and until its next START, RESUME or PAUSE_RELEASE it is inactive and none of its chunks is queued; after PAUSE_PUSH it is inactive and its channel gets no further chunk |
| AlsaTrigger.StepActive | code/17/ALSA驱动范例/sa11xx-uda1341.c:565-679 | START, RESUME and PAUSE_RELEASE make their stream active |
| AlsaTrigger.PauseAndRelease | code/17/ALSA驱动范例/sa11xx-uda1341.c:634-679 | a pause that is released leaves the stream as it was, for capture always, for playback while capture is idle |
| AlsaTrigger.ZeroFillStarts | code/17/ALSA驱动范例/sa11xx-uda1341.c:565-662 | capture that becomes active beside idle playback gets the zero-filled playback channel as its clock, and so does running capture when playback stops or pauses |
| AlsaTrigger.ZeroFillEnds | code/17/ALSA驱动范例/sa11xx-uda1341.c:584-662 | stopping or pausing capture ends the zero fill, with the playback channel silent |
| AlsaTrigger.GoesOnFrom | code/17/ALSA驱动范例/sa11xx-uda1341.c:491-504 | a stream suspended at a byte, or playback paused there during capture, and then resumed or released goes on with the rest of a period from the whole frame reached, taken modulo the period; a pause with all periods queued goes on with nothing |
| AlsaTrigger.OneUseStep | code/17/ALSA驱动范例/sa11xx-uda1341.c:663-679 | playback becomes active while zero-filled exactly when a pause entered before capture started is released |
| AlsaTrigger.StopCaptureSpares | code/17/ALSA驱动范例/sa11xx-uda1341.c:584-607 | stopping capture leaves active playback alone if and only if it is not also being zero-filled |
| AlsaTrigger.StopCaptureKillsPlayback | code/17/ALSA驱动范例/sa11xx-uda1341.c:554-679 | counterexample: a run in which stopping capture stops playback |
| AlsaTrigger.ResumesWherePaused | code/17/ALSA驱动范例/sa11xx-uda1341.c:491-504 | releasing a pause during capture, or resuming from a suspend, goes on at the paused byte if and only if that byte lies in the first period and not all periods were queued; with all queued nothing is played |
| AlsaTrigger.StartsAtTheBeginning | code/17/ALSA驱动范例/sa11xx-uda1341.c:491-507 | a start after prepare plays the whole first period if and only if no paused position inside a period was left behind |
| AlsaDriver.AudioStream.StopDma | code/17/ALSA驱动范例/sa11xx-uda1341.c:450-464 | deactivates the stream, rewinds it and flushes its channel |
| AlsaDriver.AudioStream.ProcessDma | code/17/ALSA驱动范例/sa11xx-uda1341.c:466-524 | the loop computes the machine's refill, with the resume in its first turn |
| AlsaTrigger.PositionMeans | code/17/ALSA驱动范例/sa11xx-uda1341.c:422-445 | the position is the whole frame that the channel is in, and the start once the channel is at or past the end of the buffer |
| AlsaDriver.AudioStream.DmaCallback | code/17/ALSA驱动范例/sa11xx-uda1341.c:526-546 | a completion frees a period of a stream that does not spin, and refills |
| AlsaDriver.DuplexChip.TriggerStart | code/17/ALSA驱动范例/sa11xx-uda1341.c:565-583 | START as the machine's step, keeping the positions, and the clock exactly as ClockStep says |
| AlsaDriver.DuplexChip.TriggerStop | code/17/ALSA驱动范例/sa11xx-uda1341.c:584-609 | STOP as the machine's step, keeping the positions, and the clock exactly as ClockStep says; what it leaves of either stream over runs is EndedStays |
| AlsaDriver.DuplexChip.TriggerPausePush | code/17/ALSA驱动范例/sa11xx-uda1341.c:634-662 | PAUSE_PUSH as the machine's step, keeping the positions, and the clock exactly as ClockStep says |
| AlsaDriver.DuplexChip.TriggerPauseRelease | code/17/ALSA驱动范例/sa11xx-uda1341.c:663-679 | PAUSE_RELEASE as the machine's step, keeping the positions, and the clock exactly as ClockStep says |
| AlsaDriver.DuplexChip.TriggerSuspend | code/17/ALSA驱动范例/sa11xx-uda1341.c:611-624 | SUSPEND as the machine's step, keeping the positions, and the clock exactly as ClockStep says |
| AlsaDriver.DuplexChip.TriggerResume | code/17/ALSA驱动范例/sa11xx-uda1341.c:625-633 | RESUME as the machine's step, keeping the positions, and the clock exactly as ClockStep says |
| AlsaDriver.DuplexChip.Completion | code/17/ALSA驱动范例/sa11xx-uda1341.c:526-546 | a completion on either channel as the machine's step |
| AlsaDriver.DuplexChip.PrepareStream | code/17/ALSA驱动范例/sa11xx-uda1341.c:688-704 | prepare rewinds the period counters and nothing else |

## Left out

Weaker or narrower than the code:

- I2cDriver.S3c24xxI2c.DoXfer: the messages have buffers of their own. Does not model the five-second time-out, the bus arbitration and its retries, suspend, or an interrupt in the idle state; interrupts that stop arriving are the time-out.
- I2cTransfers.AcknowledgedTransfer: covers exactly the lists that the controller carries, by I2cLimits.CarriedIffSupported. Ten-bit addresses are not modelled.
- I2cMessages.I2cMsg.AddPec: lengths are unbounded, so the wrap-around of a 16-bit len at 65535 bytes is not modelled.
- SmbusXfer.XferEmulated: an I2C block read asks for at most 33 bytes, where the buffers end (SmbusXfer.ReadBound). The slave sends the lengths it was asked for. The two message objects and their buffers are distinct, as on the stack.
- RamDisk.Disk.MakeRequest: memory shortage is a set of page numbers fixed for the request; reads need segments that do not overlap.
- IdeRequests.DoWrite: what ide_error does after an error status is not modelled, nor the request ended by it; ending part of a request is modelled by its effect on the cursor.
- IdeAddressing.Drive.DoRwDisk: requests lie inside the capacity and have at least one sector; the addressing mode is as set-up left it, and a CHS block number is below 2^31. On CHS drives with more than 16 heads nothing is said of the block found. Partition offset sect0 is 0.
- IdeAddressing.Drive.Setup: not the BIOS geometry shown to fdisk, write cache and door locking.
- UartPort.Uart.SetTermios: only the CRTSCTS part. Ports that are shut down or suspended, hang-up, set_info and drivers with their own send_xchar are not modelled.
- SaaDriver.Decoder.WriteBlock: register numbers are below 32, the size of the shadow array.
- ElpProtocol.StepInvariant: the device is running; adapter_reset, DMA time-outs, DONE without a transfer, the bound of five rounds per interrupt and rx_active are not modelled.
- AudioBuffers.Stream.SetupBuf: sizes are unbounded integers, and the DMA address, which moves with the buffer address, is not kept.
- AudioStream.OutputStream.Write: the channel count does not change during a call, buffers are set up before, and a write does not begin while an earlier one has left the semaphore down (it would block). The exact outcome is for blocking writes without signals. A refused submission in audio_sync is not modelled, nor the read side.
- Cs89x0.NetLocal.RxDma: a frame for which the ring has no room does not arrive; the 12-bit width of the frame counter is not modelled.
- AlsaTrigger.RunKeeps: buffers are whole numbers of periods, and both runtimes stay as they are during a run. The DMA layer is not in the repository: the channel repeats the force-clock buffer from sa1100_dma_set_spin until it is flushed, and what sa1100_dma_stop and sa1100_dma_resume do to a channel in between is not modelled.

Not modelled at all:

- probing, removal, module set-up, clocks, register constants, procfs and devfs: they register the drivers and set fixed registers once
- wall-clock behaviour (jiffies, udelay, retry delays): the results hold whenever the steps come
- user programs, LED, button and touch-screen drivers, RTC, NVRAM, NAND, watchdog: each operation moves one value between a register and its caller
- USB skeleton, media detection, mixer and codec programming: they hand a request on to code that is not in the repository
- BLKFLSBUF and the other ioctls of the RAM disk: they act on the block layer's own state
