# Verified models of the Spreadtrum vendor daemons

This project models the parts of the Spreadtrum vendor sources that have to get something right under
awkward circumstances, and proves that they do, or proves exactly when they do.

**The NV-item daemon** (`apps/nvitem`) is the main part. The modem pushes updates of its non-volatile
images as numbered packets. One thread sequences the packets, follows a head / body / data / tail
protocol and commits or rolls back whole requests (`NvPacket`, `NvSync`, `NvRequest`). A second thread
copies committed images to the disk, two checksummed files for each partition (`NvBuffer`, `NvDirty`,
`NvFs`). `NvSystem` puts the two threads, failing writes, crashes at every byte and restarts together
into one step machine; `NvDurability`, `NvAtomicity`, `NvHistory` and `NvDelivery` prove what holds at
every point of every run of it, `NvWire` lays requests and packets out byte by byte as the modem sends
them, and `NvProgress` proves what the daemon can always bring to the disk and what it cannot. `NvDaemon` has the code in its own form: the sync module with its packet reader and its
partitions, whose arrays are disjoint and changed in place, and the files, each method tied to the
function that the proofs are about.

**Framing and checksums** (`apps/engmode`, `apps/modem_control`): octet stuffing as in section 4.2 of
RFC 1662, with three decoders (`Framing`, `InPlace`) and the receiver that reassembles frames from a
stream of reads (`VDiag`); the bitwise CRC (`Crc`), proved to be the remainder of a division of polynomials
over GF(2), and to detect bursts; the table-driven CRC (`CrcTable`); the checksums of section 4.1 of RFC 1071 (`Checksum`).

**HTTP messages and URLs** (`apps/engmoded`): the printers and parsers of requests and responses
(`Http`, `HttpRequest`, `HttpResponse`), with the cursor that wraps to zero when a search fails, and the
coding of URLs and their parameters (`Url`).

**Four smaller cores**: the queue that coalesces AT commands (`AtQueue`), the command tokeniser of the
WCN daemon (`Wcnd`), the modem-state protocol of modemd with its mutexes and condition variables
(`ModemState`), and the image loader that skips bad flash blocks (`BadBlock`).

`dafny verify dfyconfig.toml` verifies all of it.

## Conventions

- Code that changes state is a class or a method; its contract equates the new state with a function of
  the old one, and the theorems are about that function. Threads are interleaved step by step: a step of
  the NV daemon is what happens between two releases of its mutex, or one file operation; a step of
  modemd is a lock, a test, an assignment, a wait, a signal or an unlock.
- What the environment decides (packets, read sizes, failing system calls, the random read order, the
  length of a file after a crash, spurious wakeups) is an argument or an event, and the theorems hold for
  all of its choices.
- Where the C code would leave its buffers, the functions give `None`, `Undefined` or `Throws`, and the
  theorems say what holds as long as that has not happened.
- A step of the NV daemon is *sound* if a start-up read finds a valid copy, in the documented order or
  harmlessly in the other, and if an origin file that does not open at the end of a write reported as done
  is not needed because the disk holds the image already. It is *safe* if a valid origin file is not
  truncated under a valid backup copy of a third image, and a crash does not leave a repair that was made
  without a valid copy.
- Words are integers with explicit wrap-around, or bit vectors where the code shifts and masks.
- A property that does not hold everywhere is stated with the condition under which it does, as an
  if-and-only-if, beside the input that breaks it.

Two places where the documentation and the code differ, and the model follows the code:
`ramDisk_Read` promises to try the origin file first but draws the order at random
(`apps/nvitem/nvitem_fs.c:117-148`), and `ramDisk_Write` reports success when a file does not open
(`apps/nvitem/nvitem_fs.c:247-249`).

## Model

| member | source | states |
|---|---|---|
| NvPacket.AcceptedInOrder | apps/nvitem/nvitem_packet.c:82-166 | exactly the complete packets that open a new group at sub-index 0 or carry the next sub-index of the open group are accepted, with their body; repeated, skipped and malformed ones leave the sequencer alone; exactly the wrapping size fields are undefined |
| NvPacket.PacketReader.constructor | apps/nvitem/nvitem_packet.c:69-79 | the sequencer starts with no group |
| NvPacket.PacketReader.Init | apps/nvitem/nvitem_packet.c:69-79 | so it does whenever the channel has been opened again |
| NvPacket.PacketReader.GetPacket | apps/nvitem/nvitem_packet.c:82-166 | the static indices move as the sequencer does, and the verdict is its verdict |
| NvBuffer.BackupTracked | apps/nvitem/nvitem_buf.c:193-221 | committing keeps every difference between the copies marked, although the channel marks are not cleared |
| NvBuffer.WriteTracked | apps/nvitem/nvitem_buf.c:182-188 | writing data keeps every difference marked if its sectors were marked before |
| NvBuffer.StoreStore | apps/nvitem/nvitem_buf.c:182-188 | consecutive writes are one write of the concatenation, which is why sector data may be split over packets |
| NvDirty.MarkDirtyInfo | apps/nvitem/nvitem_buf.c:144-160 | word by word, with shifted masks, the marked sectors become the old ones and exactly `start .. start+scts` |
| NvDirty.MarksOr | apps/nvitem/nvitem_buf.c:193-221 | or-ing two tables word by word is the union of the sectors they mark |
| NvDirty.MarksNothing | apps/nvitem/nvitem_buf.c:164-175 | a table marks no sector if and only if all of its words are zero |
| NvDaemon.Partition.constructor | apps/nvitem/nvitem_buf.c:40-95 | the three buffers hold the image read from the disk, unmarked |
| NvDaemon.Partition.Mark | apps/nvitem/nvitem_buf.c:144-160 | only the channel table changes, by exactly the sectors named, inside the partition or behind its end |
| NvDaemon.Partition.Write | apps/nvitem/nvitem_buf.c:182-188 | only the channel image changes, by exactly the bytes written |
| NvDaemon.Partition.Commit | apps/nvitem/nvitem_buf.c:193-221 | the committed image is the channel image, the committed marks grow by the channel marks, nothing else changes |
| NvDaemon.Partition.Rollback | apps/nvitem/nvitem_buf.c:226-235 | channel image and marks go back to the committed ones, nothing else changes |
| NvDaemon.Partition.Stage | apps/nvitem/nvitem_buf.c:240-255 | the staged image is the committed one, the marks move from the committed to the staged table |
| NvDaemon.Partition.ClearStaged | apps/nvitem/nvitem_buf.c:257-276 | after a reported success only the marks of the staged copy are cleared |
| NvDaemon.Partition.HasDirty | apps/nvitem/nvitem_buf.c:164-175 | true if and only if some sector of the committed copy is marked |
| NvDaemon.OrInto | apps/nvitem/nvitem_buf.c:193-255 | the table marks the union afterwards |
| NvDaemon.CommitAt | apps/nvitem/nvitem_buf.c:193-221 | of partitions with disjoint arrays, exactly the one named is committed |
| NvDaemon.RollbackAt | apps/nvitem/nvitem_buf.c:226-235 | of partitions with disjoint arrays, exactly the one named is rolled back |
| NvDaemon.SyncModule.constructor | apps/nvitem/nvitem_sync.c:56-66 | the module starts idle, with a new packet reader and the given partitions |
| NvDaemon.SyncModule.Fail | apps/nvitem/nvitem_sync.c:73-91 | the arrays of the partition of the open request, if there is one, are rolled back, no other array changes, and the module is idle |
| NvDaemon.SyncModule.Succeed | apps/nvitem/nvitem_sync.c:73-91 | the arrays of the partition of the open request are committed, no other array changes, and the module is idle |
| NvDaemon.SyncModule.FindPart | apps/nvitem/nvitem_buf.c:124-136 | the first partition with the id, or -1 when there is none |
| NvDaemon.SyncModule.GetHead | apps/nvitem/nvitem_sync.c:132-151 | a head token opens a request for a known partition; anything else fails the request; a piece of a token is dropped |
| NvDaemon.SyncModule.GetBody | apps/nvitem/nvitem_sync.c:154-187 | body and tail tokens must carry the next request index, otherwise the request fails; a body marks its sectors in the table, a tail commits; a body that would leave the table is reported |
| NvDaemon.SyncModule.GetData | apps/nvitem/nvitem_sync.c:190-210 | the data goes to its place in the channel buffer, and the request goes on when all of it has come |
| NvDaemon.SyncModule.AnalyzeBuffer | apps/nvitem/nvitem_sync.c:217-324 | the inner loop ends and leaves the buffers, tables and state that the specification of a packet gives, or reports that it would leave them |
| NvDaemon.SyncModule.OnRead | apps/nvitem/nvitem_sync.c:217-324 | a read, sequenced by the packet reader and analysed, leaves what the specification of a read gives |
| NvDaemon.SyncModule.Lose | apps/nvitem/nvitem_server.c:140-150 | when the channel fails, the open request is rolled back, no committed copy changes, and both modules start anew: idle, and with no group |
| NvDaemon.MakeHeader | apps/nvitem/nvitem_fs.c:237-242 | the header written field by field is the one that the checksum of a valid file is found in |
| NvDaemon.DiskFiles.RamDiskWrite | apps/nvitem/nvitem_fs.c:222-290 | files truncated and written piece by piece, header first, are the ones of the specification, and so is the result, for every failure of opening and writing |
| NvDaemon.DiskFiles.RamDiskRead | apps/nvitem/nvitem_fs.c:125-212 | both files and the image are those of the specification, in either order, for every failure of opening and writing the file to be repaired; what that image is byte by byte says `NvFs.FoundBytes` |
| NvDaemon.SavePartition | apps/nvitem/nvitem_buf.c:257-276 | one partition and its two files after a pass of the save loop, marked or not, whatever fails |
| NvDaemon.SaveToDisk | apps/nvitem/nvitem_buf.c:257-276 | every partition is saved as if it were alone, whatever fails for the others |
| NvDaemon.InitPartition | apps/nvitem/nvitem_buf.c:40-95 | a partition starts with the image read from its files in either order, unmarked, whatever becomes of a repair |
| NvDaemon.SaveStepsAddUp | apps/nvitem/nvitem_buf.c:257-276 | the steps of the save thread, undisturbed, are a pass of `saveToDisk` over a marked partition, for every failure of opening and writing |
| NvSystem.LeavesIff | apps/nvitem/nvitem_sync.c:154-210 | the code is about to leave its buffers if and only if it receives a packet whose size field wraps, or analyses a body, the next one of the open request, that announces no sectors, a shift by 32, or sectors that its partition does not have |
| NvSync.AnalyzeKeepsSequencer | apps/nvitem/nvitem_sync.c:217-324 | analysing a packet does not touch the packet sequencer |
| NvFs.PrefixValidity | apps/nvitem/nvitem_fs.c:222-290 | of the prefixes that a crash can leave of a file, exactly the whole one is valid, and it holds the payload |
| NvFs.PutValidity | apps/nvitem/nvitem_fs.c:222-290 | a file is valid after a write, with the payload, if and only if neither header nor payload was cut short |
| NvFs.CopyWords | apps/nvitem/nvitem_fs.c:222-262 | what is written for an image: 0x4e56, its size, its checksum and 101 in the first four words, zeros up to byte 512, then the image |
| NvFs.ValidIff | apps/nvitem/nvitem_fs.c:41-61 | a file is valid if and only if it reaches to the end of the payload and bytes 8 and 9 hold its checksum; the upper half of the checksum field and the rest of the header do not count |
| NvFs.WriteCrashSafe | apps/nvitem/nvitem_fs.c:222-290 | a write leaves a valid copy at every crash point if and only if the origin copy was valid when it started |
| NvFs.ReadRepairs | apps/nvitem/nvitem_fs.c:125-212 | if a copy is valid, a read in either order returns the payload of the file it tried first if that is valid and else of the other one, which it leaves alone; the file tried first is valid afterwards, with that payload, if and only if it was, or its repair was written whole |
| NvFs.FoundBytes | apps/nvitem/nvitem_fs.c:125-212 | for all files and both orders, every byte of the image read: that of the first file if it is valid; otherwise byte 512 and on of the second file, or 0xFF where that does not open or does not reach |
| NvFs.BlindRepair | apps/nvitem/nvitem_fs.c:177-212 | if no copy is valid, a read yields what it got from the second file, and writes a file if and only if that does not open, the first is long enough and zero is the checksum of an image of 0xFF; the first file then becomes a zero header and such an image, which count as valid |
| NvFs.BlankChecksum | apps/nvitem/nvitem_fs.c:20-38 | up to 131074 bytes, zero is that checksum if and only if the size is even and not zero |
| NvFs.ReadAfterCrash | apps/nvitem/nvitem_fs.c:117-290 | after a crash at any point of a write, a read gives the old or the new payload: always in the documented order, and in the other one if and only if the backup file did not hold a third payload |
| NvFs.BakFirstHarmless | apps/nvitem/nvitem_fs.c:141-148 | trying the backup file first gives the image of the documented order and leaves the origin copy valid if and only if the origin copy is valid and a valid backup copy agrees with it |
| NvFs.ReadSettles | apps/nvitem/nvitem_fs.c:117-212 | a read in the documented order, or a harmless one in the other, returns the stored image and leaves it stored, in the origin file unless a repair of that is cut short |
| NvFs.ReportedIsStored | apps/nvitem/nvitem_fs.c:247-249 | a write that reports success has stored its payload if and only if the origin file opened, or holds the payload already, or is not valid while the backup file opened or holds the payload already |
| NvFs.FailedWriteKeepsCopy | apps/nvitem/nvitem_fs.c:222-290 | any write leaves a valid copy if and only if one of the files was valid and did not open, or was written whole |
| NvFs.TwoCrashesBakFirst | apps/nvitem/nvitem_fs.c:141-148 | with the random order, two crashes lose both copies |
| NvDurability.StepKeeps | apps/nvitem/nvitem_buf.c:182-276 | every sound step of either thread keeps the invariant of marks and files, crashes, writes cut short and files that do not open included |
| NvDurability.SoundExactly | apps/nvitem/nvitem_fs.c:247-249 | if the origin file does not open at the end of a write reported as done, the marks are cleared, and the disk holds the image if and only if that was sound |
| NvDurability.SafeExactly | apps/nvitem/nvitem_fs.c:266-290 | if the machine stops when a valid origin file has just been truncated under a valid backup copy, the next start finds the old image or the new one, in either order, if and only if that was safe |
| NvHistory.CopyKeptIff | apps/nvitem/nvitem_fs.c:222-290 | exactly when a step of the save thread leaves a valid copy of a partition: by truncating no other one, or filling it whole |
| NvDurability.CrashKeepsDisk | apps/nvitem/nvitem_fs.c:117-290 | a crash at any byte of a write, or of a repair during start-up in either order, leaves a valid copy of the image that was stored |
| NvDurability.WholeIsSound | apps/nvitem/nvitem_fs.c:117-290 | from valid copies, in every run in which files open, no write is cut short but by a crash, and start-up reads are in order, every step is sound and safe |
| NvDurability.MarksTracked | apps/nvitem/nvitem_buf.c:144-235 | in every run at all, with any crash, any failure and any order, sectors in which the copies differ are marked |
| NvDurability.Durable | apps/nvitem/nvitem_buf.c:182-276 | at every point of every run whose steps are sound where they are made, with any crashes and any writes cut short, a partition without marks in its committed and staged copies has its committed image on the disk |
| NvDurability.MarksCoverDisk | apps/nvitem/nvitem_buf.c:182-276 | at every point of every sound and safe run, after any number of failed writes, the stored image differs from the staged one only in sectors marked in the staging copy, and from the committed one only in sectors marked in one of the two |
| NvDurability.CrashLeavesIff | apps/nvitem/nvitem_fs.c:177-290 | what a crash can leave of the files of a partition: as they are, or, if one was being written by a save or a repair, any beginning of what was to be written there, and nothing else |
| NvDurability.CrashOff | apps/nvitem/nvitem_buf.c:40-95 | a crash in any state leaves a machine about to start, of which nothing but the disks counts |
| NvDurability.FailedWriteWaits | apps/nvitem/nvitem_buf.c:257-276 | a partition without marks in its committed copy, staged marks or not, is left alone by the save thread, its copies and its files, whatever becomes of the others |
| NvAtomicity.SyncStepInv | apps/nvitem/nvitem_sync.c:73-324 | every step of the sync thread either leaves all committed images alone or applies exactly one complete request, spelled by the packets of one group; a packet that starts a group begins the open request anew, one that continues it joins it, and nothing else changes it |
| NvHistory.RequestAtomicity | apps/nvitem/nvitem_sync.c:73-324 | at every point of every run without a crash, from any files, in any order of reading them and with any failure, every committed image is the one read at start-up with a log of complete requests applied; each is spelled by the in-order sub-indices of one group, which are exactly the packets accepted while it was open, and it was open without a break from the first of them to its commit; between requests no channel image differs from its committed one |
| NvHistory.AtomicAcrossCrashes | apps/nvitem/nvitem_sync.c:73-324 | the same in every run at all, with crashes, writes cut short, files that do not open and reads in any order; the base is an image that a valid copy held at power-on, or that a start read when no copy was valid |
| NvHistory.AtomicFromStored | apps/nvitem/nvitem_fs.c:117-290 | in every sound and safe run from valid copies the bases are the images stored at power-on |
| NvHistory.SavedRequestsSurvive | apps/nvitem/nvitem_fs.c:117-290 | what was on the disk when a partition had no marks is never lost in a sound and safe run: after any number of crashes and of writes cut short the log of the partition still begins with those requests |
| NvDelivery.DeliveredRequestCommits | apps/nvitem/nvitem_sync.c:190-324 | a complete request that fits its partition and comes in order under a new group is committed, whatever was going on before, however its bytes are cut into packets between tokens, whatever other packets come between, and with up to 19 stray bytes behind a packet that ends before a token: its image changes by exactly the request, exactly its sectors are added to the marks of the committed and the channel copy, no other partition changes |
| NvDelivery.ShortEnd | apps/nvitem/nvitem_sync.c:101-187 | less than a token at the end of a packet is dropped, and the request stays open as it was |
| NvDelivery.StartsAfterLose | apps/nvitem/nvitem_packet.c:69-166 | after a failure of the channel a packet starts a request if and only if it is complete, has sub-index 0 and any group but 0xFFFFFFFF |
| NvDelivery.CommitsAfterLose | apps/nvitem/nvitem_server.c:140-150 | so a request that comes after a failure, in whatever state that met the daemon, is committed under every group but 0xFFFFFFFF, that of the request under way included |
| NvWire.PacketRead | apps/nvitem/nvitem_packet.c:8-20 | five little-endian words - 0x524d4e56, a check word that does not matter, group, sub-index, size - and a body of up to 1024 bytes are read as that packet |
| NvWire.TokenRead | apps/nvitem/nvitem_sync.c:7-40 | the words of a token are its kind, number, partition, start sector and number of sectors, in this order |
| NvWire.EncodedDeliverable | apps/nvitem/nvitem_sync.c:7-40 | the request laid out for any blocks of whole sectors inside a partition - kinds 0, 1 and 2, numbered consecutively from any number on - is complete and fits |
| NvWire.BodiesStore | apps/nvitem/nvitem_sync.c:154-210 | its bodies leave in every byte that of the last block that covers it, or what was there |
| NvWire.BodiesTouch | apps/nvitem/nvitem_sync.c:154-187 | and mark exactly the sectors of the blocks |
| NvWire.SentIsCommitted | apps/nvitem/nvitem_sync.c:73-324 | so blocks laid out and sent like this, in any packets that split no token, are committed byte for byte, with exactly their sectors marked, and nothing else changes |
| NvWire.CanBeSent | apps/nvitem/nvitem_packet.c:8-20 | and they can be sent: in packets of a token or a sector each no token is split and none is too long |
| NvProgress.CanBeSaved | apps/nvitem/nvitem_buf.c:257-276 | from every state in which what is committed to a partition is marked, or being written without a failure so far, or all on the disk, whatever the save thread is at, the save thread alone brings it to the disk and clears the marks |
| NvProgress.Finishes | apps/nvitem/nvitem_buf.c:257-276 | from every state the save thread can finish what it is at, and loses nothing that is due |
| NvProgress.RoundSaves | apps/nvitem/nvitem_buf.c:257-276 | one round of the save thread with whole writes leaves every marked partition stored and unmarked, the others alone, and the thread waiting again |
| NvProgress.SavableIff | apps/nvitem/nvitem_buf.c:257-276 | in every state, some run of the save thread brings a partition to the disk if and only if it is marked again since its last write, or that write has not failed |
| NvProgress.RequestReachesDisk | apps/nvitem/nvitem_sync.c:217-324 | a request with a body that is delivered, whatever the save thread is at, also to a partition whose last write failed, can be brought to the disk by steps of the two threads in which just its packets are received, and is then stored exactly; an empty one if what was committed before is due |
| NvProgress.ReachesDiskAfterFailure | apps/nvitem/nvitem_server.c:140-150 | so can one that follows a failure of the channel, under every group but 0xFFFFFFFF |
| NvProgress.SentReachesDisk | apps/nvitem/nvitem_sync.c:73-324 | from the modem to the disk: blocks sent byte by byte in packets at any time can be brought to the disk, where then every byte is that of the last block that covers it, or what was committed last |
| NvProgress.StartsUp | apps/nvitem/nvitem_buf.c:40-95 | every machine starts, with the images that are read in whichever order, whatever becomes of repairs; the image of a partition with a valid copy, read in order, is the stored one, and without a valid copy it is what the file tried second holds behind byte 512, and 0xFF behind its end |
| Checksum.ChecksumExact | apps/nvitem/nvitem_fs.c:20-38 | two folds of the 32-bit sum give the complement of the one's-complement sum if and only if the plain sum fits 32 bits, as it does for every buffer of at most 131074 bytes |
| Checksum.CalcChecksum | apps/nvitem/nvitem_fs.c:20-38 | the loop over pairs of bytes computes that checksum |
| Checksum.FrmChk | apps/modem_control/crc16.c:85-115 | the loop over pairs of words with its switch computes the same checksum |
| Checksum.BootChecksum | apps/modem_control/crc16.c:117-138 | the counted loop computes the same checksum |
| Crc.ShiftIn | apps/modem_control/crc16.c:54-83 | one round of the mask loop shifts in one bit of a byte |
| Crc.Crc16LCalc | apps/modem_control/crc16.c:54-83 | the nested loops compute the bitwise CRC of the message |
| Crc.RunDivides | apps/modem_control/crc16.c:54-83 | the 16-bit register, coefficient by coefficient, takes the steps of the division |
| Crc.CrcIsRemainder | apps/modem_control/crc16.c:54-83 | over GF(2), message x^16 == q (x^16 + x^12 + x^5 + 1) + r with r of 16 coefficients holds if and only if r is the CRC and q the quotient |
| Crc.BurstErrorsDetected | apps/modem_control/crc16.c:54-83 | messages of any one length that differ only inside a window of 16 bits have different CRCs |
| Crc.OwnCrcChecks | apps/modem_control/crc16.c:54-83 | a message followed by two bytes has CRC 0 if and only if they are its CRC, high byte first |
| Crc.SetupUartPacket | apps/modem_control/packet.c:133-139 | type, length and CRC of a data message are written around the data, nothing else changes, and the packet has CRC 0 |
| Crc.PacketLength | apps/modem_control/packet.c:107-222 | the first two bytes spell the message type and the next two the low 16 bits of the body size, each most significant byte first |
| CrcTable.TableIsBitwise | apps/engmode/crc16.c:8-51 | each of the 256 entries is eight steps of the reflected bitwise CRC with polynomial 0x8005 |
| CrcTable.SplitByte | apps/engmode/crc16.c:53-60 | eight bitwise steps split into the table entry of the low byte and the high byte moved down |
| CrcTable.Crc16 | apps/engmode/crc16.c:53-60 | the table loop computes the bitwise CRC, from any starting value |
| CrcTable.Composes | apps/modem_control/crc16.c:148-156 | the CRC of a concatenation is the CRC of the second part started with that of the first |
| Framing.StuffHasNoFlag | apps/engmode/adc_calibration.c:395-414 | no flag stands between the flags |
| Framing.TranslatePacket | apps/engmode/adc_calibration.c:395-414 | the buffer holds the stuffed frame, its size is returned, and nothing behind it changes |
| Framing.Untranslate | apps/engmode/adc_calibration.c:350-393 | the loop stores what the specification of the decoder stores, for both decoders |
| Framing.FlaggedRoundTrip | apps/engmode/adc_calibration.c:350-414 | every non-empty payload is decoded again, whatever precedes and follows its frame; with a limit of n bytes, the first n of it |
| Framing.EmptyRoundTrip | apps/engmode/adc_calibration.c:350-414 | the empty payload decodes to nothing |
| Framing.UnflaggedRoundTrip | apps/modem_control/packet.c:30-98 | the decoder of modem_control gives the payload back if and only if 0x7D occurs in it at most as the last byte |
| InPlace.StuffGrows | apps/engmode/eng_diag.c:1176-1204 | stuffing adds as many bytes as there are special ones |
| InPlace.Widen | apps/engmode/eng_diag.c:1176-1204 | the shifting loop puts two bytes in the place of one and moves the rest up |
| InPlace.Encode7d7e | apps/engmode/eng_diag.c:1176-1204 | the buffer holds exactly what stands between the flags of `translate_packet`, the extra length grows by the number of special bytes, nothing behind changes |
| InPlace.CloseGap | apps/engmode/eng_diag.c:1152-1174 | the bytes behind a place move down by one |
| InPlace.Decode7d7e | apps/engmode/eng_diag.c:1152-1174 | any stretch of the buffer holds its unstuffed bytes, filled up with the byte behind it, and nothing outside of it changes |
| InPlace.DecodedSameIff | apps/engmode/eng_diag.c:1152-1174 | decoding a beginning of stuffed bytes leaves it alone if and only if there is nothing escaped in it |
| InPlace.UnstuffInverts | apps/engmode/eng_diag.c:1152-1204 | unstuffing inverts stuffing, with or without a closing flag behind the bytes |
| InPlace.EncodeThenDecode | apps/engmode/eng_diag.c:1152-1204 | encoding and decoding in place restores the bytes |
| VDiag.DiagPort.constructor | apps/engmode/vdiag.c:59-63 | the receiver starts empty |
| VDiag.DiagPort.InitUserDiagBuf | apps/engmode/vdiag.c:59-63 | the buffer is empty and cleared |
| VDiag.DiagPort.GetUserDiagBuf | apps/engmode/vdiag.c:66-93 | the static buffer and the result are those of the specification of a read |
| VDiag.DiagPort.EngDiagParse | apps/engmode/eng_diag.c:241-350 | the buffer is decoded in place behind the flag, and the type and subtype found then say who handles the command, but for commands judged by their text, of which a given function decides |
| VDiag.DiagPort.OnRead | apps/engmode/vdiag.c:306-356 | the receive switch delivers, forwards or holds as specified, and leaves the specified state |
| VDiag.Delivered | apps/engmode/vdiag.c:66-93 | from the middle of a frame on, every read but the last holds it back and the last one delivers exactly it, if what is held after each read is kept |
| VDiag.LateRead | apps/engmode/eng_diag.c:241-247 | looking at a frame that fills half of the buffer leaves it alone if and only if there is nothing escaped in it |
| VDiag.LateCut | apps/engmode/vdiag.c:306-356 | a frame cut in two, the first part filling half of the buffer, goes to the modem in two parts if that part, decoded, is a command for the modem; otherwise it is delivered with that part decoded, and so whole if and only if nothing in it was escaped |
| VDiag.DeliveredIff | apps/engmode/vdiag.c:306-356 | a frame is delivered whole on the read with its closing flag, for every cut into reads, if and only if it fits half of the buffer, or it fits the buffer, has nothing to escape, and no part of it that fills half of the buffer is a command for the modem |
| VDiag.LongFrames | apps/engmode/eng_diag.c:252-350 | of frames longer than 8192 bytes, those whose type and subtype are for the modem are not always delivered, and those for the AP are if and only if they have at most 16384 bytes and nothing to escape |
| VDiag.ApCommands | apps/engmode/eng_diag.c:252-350 | the table of the commands that the AP answers, that are judged by their text, and that go to the modem, by type and subtype |
| VDiag.SplitToModem | apps/engmode/vdiag.c:331-343 | a long command for the modem with nothing to escape, such as a version request, goes there in two parts, byte for byte |
| VDiag.StreamDelivered | apps/engmode/vdiag.c:306-356 | a stream of such frames, cut into reads in any way, is delivered frame by frame if and only if no read carries bytes behind a closing flag; otherwise fewer frames are delivered than were sent |
| VDiag.FullStays | apps/engmode/vdiag.c:66-93 | a full buffer takes no more bytes: nothing is delivered until it has been given to the modem |
| VDiag.DeliveriesFlagged | apps/engmode/vdiag.c:66-93 | whatever is read, what is delivered starts and ends with a flag |
| VDiag.PassedThrough | apps/engmode/vdiag.c:326-330 | reads without a flag, outside of a frame, go to the modem unchanged |
| VDiag.RestForwarded | apps/engmode/vdiag.c:311-319 | after half a frame has been given away every read goes to the modem, up to and with the first that ends in a flag |
| VDiag.DeliveredPayload | apps/engmode/eng_diag.c:241-247 | decoding a delivered frame behind its opening flag leaves exactly the payload there |
| Http.HeaderLoop | apps/engmoded/HTTPRequest.cpp:182-208 | the header loop gives the headers and the body, throws, or runs for ever, as specified |
| Http.DivergesIff | apps/engmoded/HTTPRequest.cpp:182-208 | the header loop is said to diverge if and only if it is still running after any number of rounds |
| Http.LinesJoin | apps/engmoded/HTTPRequest.cpp:184-205 | the lines that the loop cuts a text into, joined again, are the text |
| Http.HeadersOutcome | apps/engmoded/HTTPRequest.cpp:182-211 | on every text and from every cursor: if some line from there on cannot be read, or the last one has an end, the first such line decides between headers and exception; otherwise the lines from the second character of the text on decide in the same way, and if there is none among them either, the loop never ends |
| Http.MessageDiverges | apps/engmoded/HTTPRequest.cpp:182-208 | behind a first line, the loop never ends if and only if all lines behind it can be read, that is, are not empty and do not have their first colon at the end, the last one has no end, and the first line without its first character can be read as well |
| Http.MessageOutcome | apps/engmoded/HTTPRequest.cpp:182-211 | all outcomes behind a first line of two characters or more |
| Http.PutHeaders | apps/engmoded/HTTPRequest.cpp:249-254 | the loop writes the text of the headers, the empty line and the body |
| Http.TextLines | apps/engmoded/HTTPRequest.cpp:249-254 | a message is written as a line with name, colon, blank and content for every header, in order, an empty line, and the body |
| Http.LineRead | apps/engmoded/HTTPRequest.cpp:188-201 | what is read from every line: the name up to the first colon and what stands behind the character that follows it; without a colon the line and the line without its first character; from an empty line, or one that ends in its first colon, an exception |
| Http.LineRoundTrip | apps/engmoded/HTTPRequest.cpp:188-201 | a header line is read back if and only if the name has no colon |
| Http.CleanRoundTrip | apps/engmoded/HTTPRequest.cpp:182-211 | clean headers behind any beginning are read back in order, followed by the body |
| Http.UncleanLost | apps/engmoded/HTTPRequest.cpp:182-211 | one unclean header, anywhere, and the list is not read back |
| Http.HeadersRoundTrip | apps/engmoded/HTTPRequest.cpp:182-211 | headers and body are read back if and only if there is a header and all are clean; without headers the parser throws |
| HttpRequest.RequestObject.PrepareRequest | apps/engmoded/HTTPRequest.cpp:216-257 | the text of the request is appended to the data, or nothing is and an error returned |
| HttpRequest.RequestObject.ParseRequest | apps/engmoded/HTTPRequest.cpp:124-214 | the fields are those that the specification of the parser gives |
| HttpRequest.RequestRoundTrip | apps/engmoded/HTTPRequest.cpp:124-257 | a prepared request parses to itself if and only if its URL has no space, it has a header and all of its headers are clean, for every body |
| HttpRequest.PreparedLine | apps/engmoded/HTTPRequest.cpp:216-257 | the first line of a prepared request is GET, PUT or POST, the URL and HTTP/1.0 or HTTP/1.1, with blanks between them, and the headers and the body follow |
| HttpRequest.RequestOutcome | apps/engmoded/HTTPRequest.cpp:124-214 | for every first word, URL and third word: exactly GET, PUT, POST and OPTIONS, the last read as POST, and HTTP/1.0 and HTTP/1.1 are taken, with other words only the field read last changes; behind a line that is taken, parsing never ends if and only if all lines of the text can be read and the last one has no end; otherwise it gives the headers up to the empty line and the body behind it, or throws |
| HttpRequest.NoEndHangs | apps/engmoded/HTTPRequest.cpp:124-214 | a request line without any line end never ends |
| HttpRequest.WordsMissing | apps/engmoded/HTTPRequest.cpp:124-180 | a text with one blank or none, whatever it is, is marked as an unknown verb or, with the verb and the URL read, as an unsupported protocol |
| HttpRequest.HalfEndThrows | apps/engmoded/HTTPRequest.cpp:124-214 | a request line with half a line end behind it throws |
| HttpRequest.HostHangs | apps/engmoded/HTTPRequest.cpp:124-214 | the request `GET / HTTP/1.0` with the header `Host: x` and nothing behind it never ends |
| HttpResponse.AtoiDecimal | apps/engmoded/HTTPResponse.cpp:204-208 | `atoi` inverts the decimal writing of every number below 2^31, and of no greater one |
| HttpResponse.AtoiNumber | apps/engmoded/HTTPResponse.cpp:204-208 | blanks, a sign or none, a decimal number and anything but a digit behind it give that number, if it fits an `int` |
| HttpResponse.AtoiNothing | apps/engmoded/HTTPResponse.cpp:204-208 | blanks and a sign or none without a digit behind them give 0 |
| HttpResponse.ResponseObject.PrepareResponse | apps/engmoded/HTTPResponse.cpp:143-171 | the data is the text of the response, or stays and an error is returned |
| HttpResponse.ResponseObject.ParseResponse | apps/engmoded/HTTPResponse.cpp:173-250 | the fields are those that the specification of the parser gives |
| HttpResponse.ResponseRoundTrip | apps/engmoded/HTTPResponse.cpp:143-250 | a prepared response parses to itself if and only if the status is below 2^31, the reason is one line, it has a header and all of its headers are clean |
| HttpResponse.PreparedLine | apps/engmoded/HTTPResponse.cpp:143-171 | the first line of a prepared response is HTTP/1.0 or HTTP/1.1, the decimal status and the reason phrase, and the headers and the body follow |
| HttpResponse.ResponseOutcome | apps/engmoded/HTTPResponse.cpp:173-250 | for every protocol word, status text, reason phrase and text behind them: other protocols than HTTP/1.0 and HTTP/1.1 only change that field; a number that does not fit an `int` is undefined; otherwise, if all lines can be read and the last one has no end, parsing never ends, or throws if the reason phrase ends in the only colon of the status line; and else it gives the headers up to the empty line and the body behind it, or throws |
| Url.UrlEncode | apps/engmoded/HTTPRequest.cpp:309-329 | the loop computes the encoding of the C string |
| Url.UrlDecode | apps/engmoded/HTTPRequest.cpp:331-355 | the loop computes the decoding, and says when it reads past the terminating zero; what the decoding is says `Url.DecodeMeaning` |
| Url.DecodeEncode | apps/engmoded/HTTPRequest.cpp:299-355 | decoding inverts encoding |
| Url.EscapeIff | apps/engmoded/HTTPRequest.cpp:304-307 | an escape of two hexadecimal digits of either case, which section 2.1 of RFC 3986 makes the same, is read as its byte if and only if the second digit is not a small letter behind a first digit 0, 1, 4, 5, 8, 9, c or d |
| Url.DecodeMeaning | apps/engmoded/HTTPRequest.cpp:331-355 | every text whose escapes have two digits is decoded to as many bytes as it stands for - a blank for a plus sign, a byte for an escape, itself for everything else - and to exactly these if and only if no escape in it is misread |
| Url.CutEscape | apps/engmoded/HTTPRequest.cpp:331-355 | an escape that the end cuts short after one digit is read with the terminating zero as the other, and nothing behind it |
| Url.EncodeWrites | apps/engmoded/HTTPRequest.cpp:299-329 | an encoding stands for what was encoded, without an escape that is misread |
| Url.EncodePlainIff | apps/engmoded/HTTPRequest.cpp:309-329 | a string is encoded as itself if and only if it is made of letters and digits |
| Url.EncodedOk | apps/engmoded/HTTPRequest.cpp:299-392 | an encoded value can stand in a query, and means the value |
| Url.DecodeLeaves | apps/engmoded/HTTPRequest.cpp:331-355 | decoding reads past the terminating zero if and only if the string begins an escape with its last byte |
| Url.GetParameter | apps/engmoded/HTTPRequest.cpp:357-392 | the loop ends and finds what the specification of the lookup finds; what that is say `Url.ParameterFound` and `Url.LookupExact` |
| Url.ParameterFound | apps/engmoded/HTTPRequest.cpp:357-392 | for any path or none, any list of pairs, however their values are written, and any fragment, the value of a key comes from its first pair, up to a zero byte, or is empty; it is what the text of that stands for if and only if no escape in it is misread |
| Url.SplitJoins | apps/engmoded/HTTPRequest.cpp:366-387 | the segments between the ampersands of a query, joined again, are the query |
| Url.LookupExact | apps/engmoded/HTTPRequest.cpp:366-387 | for every query, what is found for a key is the text of the first segment with that key if no empty segment stands before it, and nothing otherwise |
| Url.ParameterLeaves | apps/engmoded/HTTPRequest.cpp:357-392 | a parameter makes the decoder leave its string if and only if its segment is seen and the text of it begins an escape with its last byte |
| Url.LonePercent | apps/engmoded/HTTPRequest.cpp:357-392 | it does at the URL `?a=%` for the key `a` |
| Url.LeadingAmpersandHides | apps/engmoded/HTTPRequest.cpp:366-374 | a query that begins with an ampersand hides all of its parameters |
| AtQueue.AtVectors.constructor | libs/audio/audio_hw.c:4331-4336 | the queue starts empty |
| AtQueue.AtVectors.ProcessPriority | libs/audio/at_commands_generic.c:119-131 | one more than the greatest priority, in eight bits |
| AtQueue.AtVectors.PushVoiceCommand | libs/audio/at_commands_generic.c:146-159 | slot, priority and dirty bit of the command change as specified, nothing else does |
| AtQueue.AtVectors.DoCmdDual | libs/audio/at_commands_generic.c:63-116 | the queue is emptied, and the commands go out in the order of the specification |
| AtQueue.PickOrder | libs/audio/at_commands_generic.c:91-102 | the selection loops pick the slots by falling priority, the first of equals first |
| AtQueue.LatestExact | libs/audio/at_commands_generic.c:63-159 | the reference lists exactly the last push to every slot, in the order of the pushes |
| AtQueue.AfterNumbered | libs/audio/at_commands_generic.c:119-159 | after up to 255 pushes every priority is the number of the last push to its slot: positive ones are distinct and sit exactly on the dirty bits |
| AtQueue.SelectLatest | libs/audio/at_commands_generic.c:91-102 | selecting by such priorities finds the last pushes, the latest first |
| AtQueue.DrainSends | libs/audio/at_commands_generic.c:63-159 | a drain after up to 255 pushes sends the last command of every slot pushed to, once, in the order of those pushes |
| AtQueue.RunSends | libs/audio/at_commands_generic.c:63-159 | so does every drain of every interleaving with at most 255 pushes between drains |
| AtQueue.OverrunLost | libs/audio/at_commands_generic.c:119-131 | with more pushes the priority wraps, a command is lost and an empty one sent |
| AtQueue.CoalescesIff | libs/audio/at_commands_generic.c:63-159 | every drain after n pushes is right if and only if n is at most 255 |
| Wcnd.DispatchCommand2 | apps/wcnd/wcnd.c:449-571 | the character loop over its fixed buffers gives the arguments or the error of the specification; what the arguments are says `Wcnd.ArgumentsExact` |
| Wcnd.DispatchCommand | apps/wcnd/wcnd.c:609-645 | the commands passed on are those of the specification: leading blanks skipped, split at zero bytes, empty ones left out |
| Wcnd.DispatchedExact | apps/wcnd/wcnd.c:609-645 | of at most 254 characters, blanks at the beginning are skipped and what stands between zero bytes is passed on, in order, but for empty stretches; of more, nothing is |
| Wcnd.ArgumentsExact | apps/wcnd/wcnd.c:449-571 | whenever a string is taken apart, its arguments are exactly the stretches between the blanks outside of quotes, with the quotes removed and the escapes resolved |
| Wcnd.PlainRoundTrip | apps/wcnd/wcnd.c:449-571 | words without blanks, quotes and backslashes, joined by blanks into at most 254 characters, are taken apart into exactly themselves if and only if there are 1 to 16 |
| Wcnd.LineRoundTrip | apps/wcnd/wcnd.c:449-571 | a command line of quoted arguments that fits the buffer is taken apart into exactly them if and only if there are 1 to 16 |
| Wcnd.Judged | apps/wcnd/wcnd.c:449-571 | a string that fits the buffer is refused for a bad escape if and only if it has one with at most 16 blanks outside of quotes before it; otherwise the number of those blanks decides whether there are too many arguments and how many there are, and the quotes whether they are closed |
| Wcnd.OverflowIff | apps/wcnd/wcnd.c:463-528 | the token buffer overflows for no string of n characters if and only if n is less than its size |
| Wcnd.DispatchedFits | apps/wcnd/wcnd.c:609-645 | nothing that is passed on overflows the token buffer, whatever the data |
| Wcnd.MessageRoundTrip | apps/wcnd/wcnd.c:449-645 | a message of up to 254 characters, leading blanks included, is taken apart into exactly its commands, and each command into exactly its arguments if and only if there are at most 16 |
| ModemState.StepInv | apps/modemd/modemd_sipc.c:233-523 | every step of every thread keeps the invariant of mutexes, states and waits; that the steps lead where they should say `ModemState.HearsGoes`, `ModemState.TroubleReloads` and their neighbours |
| ModemState.HearsGoes | apps/modemd/modemd_sipc.c:266-523 | in every run, a thread that reads a report, or fails to read, comes next to the critical section that answers it, of the modem named or its own, and reports nothing before |
| ModemState.BlockChecked | apps/modemd/modemd_sipc.c:310-332 | in every run, a block report is accepted and noted as an assert if and only if the modem is ready when the thread looks; otherwise the thread goes back to reading |
| ModemState.FallNoted | apps/modemd/modemd_sipc.c:310-523 | an accepted block, an assert or a reset is noted in the state and in the log, and nobody else changes the state before the thread leaves |
| ModemState.WaitChecked | apps/modemd/modemd_sipc.c:289-303 | a watcher whose read failed waits if and only if its modem is not ready when it looks |
| ModemState.TroubleReloads | apps/modemd/modemd_sipc.c:310-523 | in every run, however the others come between: with the property enabled and a load that succeeds, an accepted block or an assert is followed by the reload of the modem of the thread, which is ready when the thread signals |
| ModemState.ResetReloads | apps/modemd/modemd_sipc.c:440-523 | a reset is followed by that reload without a look at the property |
| ModemState.NothingReloaded | apps/modemd/modemd_sipc.c:310-523 | with the property disabled, or a load that fails, the thread goes back to reading and has reloaded nothing |
| ModemState.CanReload | apps/modemd/modemd_sipc.c:233-523 | from every fall the thread alone can bring its modem back, if the mutex of that is free; the modem that fell is ready then if and only if it is the one that the thread watches, so that a watcher that reads a block report about the other modem reloads its own |
| ModemState.MutualExclusion | apps/modemd/modemd_sipc.c:233-523 | in every run at most one thread is inside the critical sections of a modem |
| ModemState.WaitsWhileNotReady | apps/modemd/modemd_sipc.c:289-303 | in every run a watcher waits only for a modem that is not ready, but for the moment before a signal: no wakeup is lost |
| ModemState.BlocksAlternate | apps/modemd/modemd_sipc.c:310-332 | in every run a finished reload of the modem lies between two accepted "Blocked" reports of it |
| ModemState.LeavesAfterReload | apps/modemd/modemd_sipc.c:289-303 | a watcher that has waited, and is not woken without a signal, comes back only after a reload of its modem, whatever the wakeups of the others |
| ModemState.LeavesReadyIff | apps/modemd/modemd_sipc.c:289-303 | in every run, a watcher that has waited finds its modem ready if and only if a reload of it has finished since and no assert, reset or accepted block of it has come after that |
| ModemState.SpuriousLeaves | apps/modemd/modemd_sipc.c:289-303 | with one, it comes back without a reload |
| ModemState.LeavesUnready | apps/modemd/modemd_sipc.c:289-303 | even without one it can come back to a modem that is not ready |
| BadBlock.SkipBadBlocks | apps/modemd/modemd_vlx.c:233-247 | the inner loop ends behind the bad blocks, or fails to seek, as specified |
| BadBlock.LoadImage | apps/modemd/modemd_vlx.c:216-272 | the load succeeds if and only if the start is not behind the end and all that was asked for has come through; failed or not, what it has written are the bytes that were read, in order, as far as they fit |
| BadBlock.TookLoaded | apps/modemd/modemd_vlx.c:226-272 | what a failed load has read is what a load of just that many bytes copies, and it is less than was asked for |
| BadBlock.SkipKeepsGood | apps/modemd/modemd_vlx.c:233-247 | skipping bad blocks loses no good byte |
| BadBlock.LoadsGood | apps/modemd/modemd_vlx.c:226-272 | with blocks and start at whole buffers, a successful load has copied exactly the first good bytes from the start if and only if it did not start inside a bad block |
| BadBlock.SinkGood | apps/modemd/modemd_vlx.c:216-272 | with blocks and start at whole buffers and the start not inside a bad block, whatever a load leaves in the sink, also when it fails, are the first good bytes from the start, in order |
| BadBlock.AlwaysGoodIff | apps/modemd/modemd_vlx.c:226-272 | for a given erase size every successful load from a block boundary is right, whatever blocks are bad, if and only if the size is a multiple of the buffer's |

## Left out

- NvHistory.SavedRequestsSurvive: steps that are not sound or not safe are not covered; `NvDurability.SoundExactly`, `NvDurability.SafeExactly` and `NvFs.BakFirstHarmless` say what goes wrong with them.
- NvDurability.Durable: steps that are not sound are not covered; the marks themselves are right in every run (`NvDurability.MarksTracked`).
- NvDelivery.DeliveredRequestCommits: requests whose sectors lie outside of their partition are not covered, since the code does not look at the partition's size; nor are packets that split a token, of which the code drops the first part.
- NvDaemon.SyncModule.OnRead: a packet that makes the C code leave its buffers is reported; what it does to the memory behind them is not modelled.
- InPlace.Decode7d7e: the overlapping copy is taken to move the bytes correctly, which the C standard does not promise.
- Crc.SetupUartPacket: the connect message, which has no CRC, the mode switch, which has the checksum of `Checksum.FrmChk` instead, and the SPI layout are not modelled.
- VDiag.DiagPort.EngDiagParse: AT commands and commands about addresses are judged by their text and by what the audio library reports, which is any function of the buffer here; the flags set on the way are left out.
- VDiag.DiagPort.OnRead: what `eng_diag` makes of a delivered frame is not modelled.
- Url.LookupExact: keys with an ampersand, which no segment can have, are not covered.
- Url.ParameterFound: values with an escape that is not a percent sign and two hexadecimal digits are covered by `Url.DecodeLeaves` and `Url.CutEscape` only; URLs of 2^31 bytes and more, whose positions do not fit an `int`, are not covered.
- AtQueue.AtVectors.DoCmdDual: the dirty mask is kept as the set of its bits, and the answers of the modem are not modelled; commands have to fit their slots.
- Wcnd.DispatchCommand2: the choice of a handler and the number that could precede a command, which is never switched on, are not modelled.
- BadBlock.LoadImage: opening the files, seeking in the sink and the second copy of TEST_MODEM builds are not modelled.
- The responses of the NV daemon, its channels, its configuration and the saving on the sync thread in calibration mode, which is one of the schedules of the step machine.
- The WIN32 branches, 64-bit `unsigned long`, and the eMMC path of the image loader, which is the same loop without bad blocks.
- The boot handshake and downloads of modem_control, and the retry loops around its writes: device input and output.
- The AT command handlers, factory tests, audio parameters, the reset flow of the WCN daemon: thin layers over system calls and libraries.
- Alarm, charging and display code: clocks, sysfs and drawing; its arithmetic would only add easy members.
