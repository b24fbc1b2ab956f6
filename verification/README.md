# CuteMac: verified models of its stateful cores

CuteMac emulates classic Macintosh computers. This project models the parts of it in which state,
encodings and protocols meet, and proves what they promise. Each model takes the form of its source:
objects whose methods update fields are classes, loops are loops, and a concurrent protocol is a
relation over the steps of its threads. Every class method is proved against a specification over
values, and the theorems are about those specifications.

**Floppy disks.** `FloppyDiskImages.FloppyDiskImage` holds the blocks and tags of an image, the
cached track under a rotating head, the bytes written but not yet recognised, a sector register and
a failure flag. A disk is written by sending a drive the raw bytes of a track; two stream parsers
find the records in it, decode them and commit sectors, each commit being saved to the host file.
The modules follow that path: the group code (`GcrCodec`) and the MFM check (`MfmCheck`), the
geometry and the interleave (`FloppyGeometry`), media, containers and commits (`FloppyMedia`), track
layouts (`FloppyTracks`), the parsers (`FloppyWrites`), the drive as a state machine
(`FloppyDrive`), and the class. The theorems span all of these: writing back a whole group-coded or
high-density track byte by byte (`GcrWriteBack`, `MfmWriteBack`, with what saved commits leave
behind in `FloppyCopies`), what single records and lone data fields do (`FloppyRecords`,
`MfmLoneData`), what reads show over whole runs (`FloppyRuns`, `FloppyCoherence`) and after refused
saves (`FloppyRefusals`), an independent reader (`FloppyProbe`), and the SWIM chip as a client
(`Swim`). What must agree with hardware of the time is stated without the functions that compute it:
the group code by arithmetic (`GcrReference`), the checks by long division (`LongDivision`,
`MfmReference`), the tracks byte by byte (`GcrLayout`, `MfmLayout`). Whether the host accepts a save
is an arbitrary function of the number of the attempt.

**Serial IP.** `Slip`, `PppCheck`, `PppReference`, `PppFraming`, `PppSession`, `PppNegotiation`,
`PppReplies` and `IcmpEcho` model RFC 1055 framing, HDLC-like PPP framing with its 16-bit frame
check (RFC 1662), the modem's side of link, password and address negotiation (RFC 1661, RFC 1334,
RFC 1332, RFC 1877), and the answer to a ping of the modem's own address (RFC 1071, RFC 792).
Receivers are proved equal to a cut-and-decode reading of any byte string, not only of well-formed
ones (`Streams` holds what all byte-at-a-time receivers share), and what each framed message draws
is stated from any receiver state.

**Lock hand-off.** `HostHandoff` models how the emulation thread hands the session lock to any number
of host threads, timed attempts included: the atomic waiter count, the session mutex, the second
mutex and its condition variable. Steps of different threads interleave freely; memory accesses are
sequentially consistent, and a timed attempt may give up at any moment.

**Three smaller machines.** `PhysicalMemory` is the two-level page map with pages that alias host
memory, `Scheduler` the event queue whose callbacks schedule further events, `SoundChip` the FIFOs
and the fractional sample clock of the Apple sound chip (its laws by addresses and values in
`SoundChipLaws`).

Two places where the code does less than a reader may expect are stated as exact conditions. A
refused save leaves the new content in the image while the cached track still shows the old one
(`FloppyRefusals.WriteKeepsSight`, with a run that ends so). A sample written to a full sound FIFO
moves the write pointer but not the read pointer, so the pointers no longer agree with the fill
level (`SoundChip.ApplyKeepsRings`).

`dafny verify dfyconfig.toml` checks the whole project.

## Model

| member | source | states |
|---|---|---|
| GcrCodec.DecodeGcrInverse | src/devices/floppy/FloppyDiskImage.cpp:25-60 | a byte decodes to a six-bit value if and only if that value encodes to it |
| GcrCodec.ReservedBytes | src/devices/floppy/FloppyDiskImage.cpp:25-34 | the bytes that open address and data fields are not in the code table |
| GcrCodec.AppendEncodedPayload | src/devices/floppy/FloppyDiskImage.cpp:241-285 | the encoding loop with its three chained checksums appends the 703 nibbles of the payload |
| GcrCodec.DecodeGcrPayload | src/devices/floppy/FloppyDiskImage.cpp:97-139 | the decoding loop accepts exactly what the specification decodes and returns that payload |
| GcrCodec.DecodeEncodePayload | src/devices/floppy/FloppyDiskImage.cpp:97-139 | every 524-byte payload survives encoding and decoding |
| GcrCodec.DecodeAcceptsExactly | src/devices/floppy/FloppyDiskImage.cpp:97-139 | 703 bytes decode to a payload if and only if they are its encoding, except for two ignored bits of nibble 696 |
| GcrCodec.EncodingHasOnlyNibbles | src/devices/floppy/FloppyDiskImage.cpp:241-285 | an encoding consists of table bytes only, so no field prologue can appear inside it |
| GcrReference.TableIsWritable | src/devices/floppy/FloppyDiskImage.cpp:25-34 | the 64 entries of the table are exactly, and in ascending order, the bytes with the top bit set, two neighbouring ones among the low seven bits and at most one pair of neighbouring zeros, without 0xaa and 0xd5 |
| GcrReference.GroupIsArithmetic | src/devices/floppy/FloppyDiskImage.cpp:241-275 | the three checksums after a full group in plain arithmetic: the rotation of the third, the carries from one to the next, and what each payload byte is masked with |
| GcrReference.LastGroupIsArithmetic | src/devices/floppy/FloppyDiskImage.cpp:241-275 | the same for the last group, which has two bytes |
| GcrReference.EncodedGroup | src/devices/floppy/FloppyDiskImage.cpp:253-275 | the four nibbles of every full group, by place, as values of that arithmetic over the payload |
| GcrReference.EncodedEnd | src/devices/floppy/FloppyDiskImage.cpp:264-285 | the three nibbles of the last group and the four that hold the checksums |
| MfmCheck.ComputeMfmCrc | src/devices/floppy/FloppyDiskImage.cpp:189-199 | the byte and bit loops compute the shift-register check |
| MfmCheck.MfmFromInjective | src/devices/floppy/FloppyDiskImage.cpp:189-199 | running the check over the same bytes never merges two register states |
| MfmCheck.MfmCrcSeparates | src/devices/floppy/FloppyDiskImage.cpp:189-199 | strings that may differ in two neighbouring bytes have equal checks if and only if they are equal |
| MfmReference.CheckIsRemainder | src/devices/floppy/FloppyDiskImage.cpp:189-199 | the check of any bytes is the remainder of dividing them, as a polynomial with its first sixteen bits complemented and sixteen zeros behind it, by x^16 + x^12 + x^5 + 1 |
| MfmReference.FirstIdField | src/devices/floppy/FloppyDiskImage.cpp:189-229 | the check of the ID field of track 0, side 0, sector 1 is 0xca6f |
| FloppyGeometry.ComputeFirstBlockForTrack | src/devices/floppy/FloppyDiskImage.cpp:158-166 | the loop over the tracks below adds up their sectors on all heads |
| FloppyGeometry.ZonesAddUp | src/devices/floppy/FloppyDiskImage.cpp:141-166 | the blocks below a track in closed form, zone by zone |
| FloppyGeometry.BlocksAreDistinct | src/devices/floppy/FloppyDiskImage.cpp:600-608 | block numbers are in range, and two places share one if and only if they are the same place |
| FloppyGeometry.EveryBlockHasAPlace | src/devices/floppy/FloppyDiskImage.cpp:600-608 | every block of a disk is the block of some track, side and sector |
| FloppyGeometry.InterleavedSectorOrder | src/devices/floppy/FloppyDiskImage.cpp:168-180 | the placing loop fills the even slots first and then the odd ones |
| FloppyGeometry.InterleaveIsPermutation | src/devices/floppy/FloppyDiskImage.cpp:168-180 | every sector stands in exactly one slot |
| FloppyMedia.ComputeDiskCopyChecksum | src/devices/floppy/FloppyDiskImage.cpp:62-71 | the loop over byte pairs computes the rotating sum |
| FloppyMedia.AddPairRotates | src/devices/floppy/FloppyDiskImage.cpp:62-71 | a step adds a big-endian pair modulo 2^32 and halves, the lost one coming back as the highest bit |
| FloppyMedia.TagCheckLeavesOutFirst | src/devices/floppy/FloppyDiskImage.cpp:629-633 | the check over the tags is that over all tags but the first |
| FloppyMedia.StoredKeepsValid | src/devices/floppy/FloppyDiskImage.cpp:609-611 | copying a sector in keeps sizes, tags and header consistent |
| FloppyMedia.SaveThenLoad | src/devices/floppy/FloppyDiskImage.cpp:620-640 | a container that was saved loads back with the same data, tags, geometry and header, but for the two checks, which are renewed; that of the tags leaves out the first one |
| FloppyMedia.LoadedContainerIsValid | src/devices/floppy/FloppyDiskImage.cpp:732-771 | a container that is accepted has consistent sizes, whatever its bytes |
| FloppyMedia.ContainerIsAccepted | src/devices/floppy/FloppyDiskImage.cpp:732-742 | a container is accepted if and only if the sizes at bytes 64 and 68 are those of a disk and of its tags or of none, and all of it is there |
| FloppyTracks.MfmTrackLength | src/devices/floppy/FloppyDiskImage.cpp:784-807 | a high-density track is 12,500 bytes with as many mark flags |
| FloppyTracks.TrackShowsSector | src/devices/floppy/FloppyDiskImage.cpp:784-807 | every sector and its content stand at a fixed place of the track |
| FloppyTracks.TrackMarksFit | src/devices/floppy/FloppyDiskImage.cpp:201-229 | every marked byte of a track is one of the two sync values |
| MfmLayout.TrackLayout | src/devices/floppy/FloppyDiskImage.cpp:784-807 | a high-density track byte by byte: gaps, index field, and the eighteen sectors with their ID and data fields, whose checks come out even, each with the content of its block |
| MfmLayout.MarksStand | src/devices/floppy/FloppyDiskImage.cpp:201-229 | the first three bytes of the index field and of every ID and data field are marks, and no others |
| GcrLayout.Interleaves | src/devices/floppy/FloppyDiskImage.cpp:168-180 | the order of the sectors in each of the five zones |
| GcrLayout.TrackLayout | src/devices/floppy/FloppyDiskImage.cpp:809-855 | a group-coded track byte by byte: gaps, and in each slot the address field of its sector with all five values and the data record with the tag and the content of its block |
| FloppyWrites.ParseInTwoParts | src/devices/floppy/FloppyDiskImage.cpp:500-598 | parsing a buffer, appending bytes and parsing again gives the same commits, register, flag and leftover as parsing all at once |
| FloppyWrites.WaitingIsIdle | src/devices/floppy/FloppyDiskImage.cpp:486-498 | what waits in the buffer is under 710 or 518 bytes and parsing it again does nothing, so a flush drops no record |
| FloppyWrites.RestWaits | src/devices/floppy/FloppyDiskImage.cpp:500-598 | what a parse leaves behind is waiting for more bytes |
| FloppyWrites.ParseKeepsValid | src/devices/floppy/FloppyDiskImage.cpp:500-618 | no bytes whatever lead the medium out of its invariant |
| FloppyRecords.IdFieldDecides | src/devices/floppy/FloppyDiskImage.cpp:557-574 | a complete ID field sets the register if and only if its check comes out even and it names the track and side under the head and 512-byte sectors |
| FloppyRecords.DataFieldDecides | src/devices/floppy/FloppyDiskImage.cpp:575-594 | a complete data field, deleted or not, is committed to the sector in the register if there is one of the eighteen and the check comes out even, and otherwise raises the flag |
| FloppyRecords.OtherFieldsArePassed | src/devices/floppy/FloppyDiskImage.cpp:595-598 | fields of other kinds are passed over |
| FloppyRecords.GcrRecordDecides | src/devices/floppy/FloppyDiskImage.cpp:518-533 | a complete data record is committed if and only if it names a sector of its track and its payload decodes, and otherwise raises the flag; without its closing bytes it is passed over |
| FloppyDiskImages.FloppyDiskImage.WriteDiskByte | src/devices/floppy/FloppyDiskImage.cpp:460-484 | the new state and the report of a write; the cut at 16,384 bytes is never reached |
| FloppyDiskImages.FloppyDiskImage.FlushWrites | src/devices/floppy/FloppyDiskImage.cpp:486-498 | a flush empties the buffer, clears register and flag, reports the flag and changes nothing else |
| FloppyDiskImages.FloppyDiskImage.ProcessGcrWrites | src/devices/floppy/FloppyDiskImage.cpp:500-535 | the loop in place ends and does what the parse of the buffer does |
| FloppyDiskImages.FloppyDiskImage.ProcessMfmWrites | src/devices/floppy/FloppyDiskImage.cpp:537-598 | the loop in place ends and does what the parse of the buffer does |
| FloppyDiskImages.FloppyDiskImage.CommitSector | src/devices/floppy/FloppyDiskImage.cpp:600-618 | copies sector and tag in, saves, and drops the cached track only if the save succeeded |
| FloppyDiskImages.FloppyDiskImage.PersistImage | src/devices/floppy/FloppyDiskImage.cpp:620-640 | what is saved, in which container, and when no attempt is made |
| FloppyDiskImages.FloppyDiskImage.InferMfmSectorAtCursor | src/devices/floppy/FloppyDiskImage.cpp:642-652 | the register is set from the last ID field that ends before the head |
| FloppyDiskImages.FloppyDiskImage.PeekDiskByte | src/devices/floppy/FloppyDiskImage.cpp:414-429 | the byte and mark under the head, building the track if the cached one is of another place |
| FloppyDiskImages.FloppyDiskImage.NextDiskByte | src/devices/floppy/FloppyDiskImage.cpp:431-458 | the same, and the head moves on round the track |
| FloppyDiskImages.FloppyDiskImage.BuildTrackBytes | src/devices/floppy/FloppyDiskImage.cpp:809-823 | the interleaved sectors between gaps |
| FloppyDiskImages.FloppyDiskImage.AppendSector | src/devices/floppy/FloppyDiskImage.cpp:825-855 | one group-coded sector: address field, data record and gaps |
| FloppyDiskImages.FloppyDiskImage.BuildMfmTrack | src/devices/floppy/FloppyDiskImage.cpp:784-807 | index mark, eighteen sectors and filler, byte for byte and mark for mark |
| FloppyDiskImages.FloppyDiskImage.LoadDiskCopy42 | src/devices/floppy/FloppyDiskImage.cpp:732-771 | refuses containers whose sizes do not add up and otherwise takes data and tags out of them, with switch and latch as for a raw image |
| FloppyDiskImages.FloppyDiskImage.LoadRaw | src/devices/floppy/FloppyDiskImage.cpp:709-730 | a raw image replaces the medium, read-only if the switch says so; head, cache, buffer, register and flag start afresh and the disk-change latch is set |
| FloppyDiskImages.FloppyDiskImage.Eject | src/devices/floppy/FloppyDiskImage.cpp:320-340 | nothing of the old medium is left, and the disk-change latch is set if there was one |
| FloppyDiskImages.FloppyDiskImage.ClearMediaChanged | src/devices/floppy/FloppyDiskImage.cpp:356-359 | clears the disk-change latch and nothing else |
| FloppyDiskImages.FloppyDiskImage.SetCurrentTrack | src/devices/floppy/FloppyDiskImage.cpp:378-386 | the head is clamped; a real move flushes and drops the cached track |
| FloppyDiskImages.FloppyDiskImage.SetCurrentSide | src/devices/floppy/FloppyDiskImage.cpp:393-401 | the same for the side, which single-sided media do not have |
| FloppyDiskImages.FloppyDiskImage.SetMotorOn | src/devices/floppy/FloppyDiskImage.cpp:403-407 | stopping the motor flushes |
| FloppyDrive.OperationsKeepValid | src/devices/floppy/FloppyDiskImage.cpp:320-407 | moving, stopping, flushing, ejecting and reading keep the invariant of the drive |
| FloppyDrive.MovesEndWrites | src/devices/floppy/FloppyDiskImage.cpp:378-401 | the head stays within 80 tracks and the sides there are; a real move drops buffer and cached track, clears register and flag and leaves the disk |
| FloppyDrive.WriteIsRefused | src/devices/floppy/FloppyDiskImage.cpp:460-466 | a protected disk, an empty drive and a stopped one refuse every byte, and neither disk nor file changes |
| FloppyDrive.EjectLeavesNothing | src/devices/floppy/FloppyDiskImage.cpp:320-340 | after an eject nothing of the disk is left but what was saved to its file |
| FloppyRuns.WriteAllIsParse | src/devices/floppy/FloppyDiskImage.cpp:460-535 | writing a group-coded disk byte by byte does what parsing all the bytes at once does |
| FloppyRuns.ParseKeepsDisk | src/devices/floppy/FloppyDiskImage.cpp:500-618 | writing changes contents, file, flag and register, and nothing else of the medium |
| FloppyCopies.CommitStores | src/devices/floppy/FloppyDiskImage.cpp:600-618 | with a working host, a commit is saved and changes just its block and tag |
| GcrWriteBack.AddressNamesSector | src/devices/floppy/FloppyDiskImage.cpp:825-842 | decoding the address field of a sector gives back its track, side and number, and its checksum holds |
| GcrWriteBack.RecordCommits | src/devices/floppy/FloppyDiskImage.cpp:518-533 | the data record of a sector commits exactly its tag and data to that sector |
| GcrWriteBack.LeadStartsNoRecord | src/devices/floppy/FloppyDiskImage.cpp:825-845 | gaps and address fields never open a data record, whatever follows them |
| GcrWriteBack.TrackWriteBack | src/devices/floppy/FloppyDiskImage.cpp:460-535 | writing another disk's group-coded track byte by byte copies the data and tags of exactly its sectors, saves them and raises no failure |
| GcrWriteBack.OtherTracksKept | src/devices/floppy/FloppyDiskImage.cpp:600-618 | every sector of any other track or side keeps its data and its tag |
| MfmWriteBack.WriteField | src/devices/floppy/FloppyDiskImage.cpp:460-484 | a field written behind any junk acts once, when complete, on the register the write started with |
| MfmWriteBack.IdFieldActs | src/devices/floppy/FloppyDiskImage.cpp:557-574 | the ID field of a sector sets the register to it, whatever it held |
| MfmWriteBack.TrackWriteBack | src/devices/floppy/FloppyDiskImage.cpp:537-618 | writing another disk's high-density track byte by byte copies exactly its eighteen sectors, saves them and raises no failure |
| MfmWriteBack.OtherTracksKept | src/devices/floppy/FloppyDiskImage.cpp:600-618 | every sector of any other track or side reads as before |
| MfmWriteBack.CheckIsResidue | src/devices/floppy/FloppyDiskImage.cpp:575-582 | a stored check is right if and only if the check over it is zero |
| MfmWriteBack.DamagedFieldIsRefused | src/devices/floppy/FloppyDiskImage.cpp:575-594 | a data field of either type, damaged in one byte or in two neighbouring ones, is never committed: the flag goes up, image and file stay |
| MfmLoneData.HeadInfers | src/devices/floppy/FloppyDiskImage.cpp:642-652 | with the head behind the ID field of a sector of a built track that sector is inferred, up to the next ID field if the data field imitates none |
| MfmLoneData.LoneFieldIsCommitted | src/devices/floppy/FloppyDiskImage.cpp:464-475 | a data field written from there without an ID field is committed to that sector |
| MfmLoneData.LoneFieldIsRefused | src/devices/floppy/FloppyDiskImage.cpp:464-475 | written from before the first ID field, or with no track cached, it is refused |
| FloppyCoherence.ReadsShowTheDisk | src/devices/floppy/FloppyDiskImage.cpp:378-458 | after any run in which saves succeed, reads and peeks return the byte and mark under the head of a track built from the present contents; only reads move the head |
| FloppyCoherence.RunKeepsCoherent | src/devices/floppy/FloppyDiskImage.cpp:600-618 | a cached track that would be used shows the present contents in every state such runs reach |
| FloppyRefusals.OneByteParses | src/devices/floppy/FloppyDiskImage.cpp:500-598 | one more byte either completes a record that asks for one commit, or commits and changes nothing |
| FloppyRefusals.GcrTrackTells | src/devices/floppy/FloppyDiskImage.cpp:809-875 | equal group-coded tracks have equal data and tags in every sector |
| FloppyRefusals.RefusedSaveIsNotShown | src/devices/floppy/FloppyDiskImage.cpp:600-618 | after a refused save, on disks of either recording, image, flag, file and cached track are as stated; the cache still shows the disk if and only if the block held this content and, where there are tags, this tag already |
| FloppyRefusals.WriteKeepsSight | src/devices/floppy/FloppyDiskImage.cpp:460-484 | for every write and every host: the cached track goes on showing the disk if and only if the write does not complete a record whose save is refused and that changes the disk |
| FloppyRefusals.StaleStateIsReached | src/devices/floppy/FloppyDiskImage.cpp:612-617 | inserting a blank disk, starting the motor and writing one sector while saves are refused ends with a cached track that is not on the disk |
| FloppyProbe.ScanTrack | tools/floppy_probe.cpp:47-87 | the walk with its jumping index reports what the scan of the bytes reports |
| FloppyProbe.TrackReadsClean | tools/floppy_probe.cpp:47-87 | on every track of every high-density image: 18 address marks, 18 data marks, no bad check, and as many verified sectors as agree with the image compared with |
| FloppyProbe.DamageIsReported | tools/floppy_probe.cpp:47-87 | with any 518 bytes in the place of a data field the probe counts a bad check if and only if the check over them is not even, and a mismatch if and only if their content differs |
| Swim.SwimController.SeekMark | src/devices/iwm/IwmController.cpp:132-138 | the search passes bytes until a mark or a full revolution |
| Swim.SwimController.ChangeMode | src/devices/iwm/IwmController.cpp:113-138 | mode bits, error bits, motors, the flush on leaving write mode and the search on starting a read |
| Swim.SwimController.WriteData | src/devices/iwm/IwmController.cpp:93-138 | data reaches the selected drive in write mode only; a refusal sets the error bit unless the reset bit clears it; both motors follow the mode |
| Swim.SwimController.Finish | src/devices/iwm/IwmController.cpp:123-138 | what ends every register write: error reset, flush, motors and mark search |
| Swim.ModeActs | src/devices/iwm/IwmController.cpp:123-138 | what a change of the mode bits does to the selected drive: motor, flush on leaving write mode or stopping, and the head moves only if a read starts |
| Swim.ModeBitsChange | src/devices/iwm/IwmController.cpp:113-122 | mode bits are set or cleared as given, all others stay |
| Swim.MotorBits | src/devices/iwm/IwmController.cpp:128-129 | a motor runs if and only if bit 7 and the bit of its drive are set |
| Swim.ErrorBits | src/devices/iwm/IwmController.cpp:93-127 | the error register after data and mode writes: refused writes and failed flushes set bit 2, bit 0 of the mode clears it |
| Swim.TrackIsWrittenThroughChip | src/devices/iwm/IwmController.cpp:93-127 | a high-density track sent to the chip in write mode, to a ready drive, is on the disk and in the file, and no error is raised |
| Swim.SwimController.ReadData | src/devices/iwm/IwmController.cpp:152-179 | a mark read through the data register sets the error bit, through the mark register it does not |
| Swim.ReadAction | src/devices/iwm/IwmController.cpp:128-138 | a read ACTION on high-density media leaves the head on the first mark at or behind its place, within one revolution, and changes neither image nor file |
| Swim.FirstReadShowsIndex | src/devices/iwm/IwmController.cpp:130-138 | with no track cached, a read ACTION presents the index mark 0xc2 first |
| Swim.RunFits | src/devices/floppy/FloppyDiskImage.cpp:414-429 | length and marks of a cached track fit its place after any run, refused saves included |
| Slip.EncodeSlipFrame | src/devices/modem/HayesModem.cpp:67-86 | the loop escapes every byte between two END bytes |
| Slip.EscapedOne | src/devices/modem/HayesModem.cpp:18-21 | the values on the line: 0xc0 becomes 0xdb 0xdc and 0xdb becomes 0xdb 0xdd between two bytes 0xc0 |
| Slip.EscapedConcat | src/devices/modem/HayesModem.cpp:67-86 | packets are escaped byte by byte |
| Slip.SlipConnection.Send | src/devices/modem/HayesModem.cpp:401-432 | the new state and the packets handed up for one byte |
| Slip.OtherEscapes | src/devices/modem/HayesModem.cpp:418-425 | an escape in front of any other byte is left out |
| Slip.FeedDelivers | src/devices/modem/HayesModem.cpp:401-432 | for any bytes at all, what is handed up is: cut at END, unescape, drop the empty and the oversized; at most mtu bytes are held |
| Slip.FrameIsBounded | src/devices/modem/HayesModem.cpp:427-431 | the buffered frame never outgrows the limit |
| Slip.SlipRoundTrip | src/devices/modem/HayesModem.cpp:401-432 | from any receiver state an encoded packet of 1 to mtu bytes is handed up exactly, a longer one never, and the receiver is idle again |
| Slip.SlipStream | src/devices/modem/HayesModem.cpp:401-432 | a stream of packets is handed up in order, oversized ones left out without disturbing the rest |
| PppCheck.ComputeFcs | src/devices/modem/HayesModem.cpp:55-65 | the byte and bit loops compute the frame check |
| PppCheck.FcsResidue | src/devices/modem/HayesModem.cpp:500-504 | a body has the good residue if and only if its last two bytes are the complemented check, low byte first |
| PppReference.CheckIsRemainder | src/devices/modem/HayesModem.cpp:55-65 | the frame check of any bytes is the remainder of dividing them, least significant bits first and the first sixteen complemented, by x^16 + x^12 + x^5 + 1 |
| PppReference.NineDigits | src/devices/modem/HayesModem.cpp:55-65 | the check of the digits 1 to 9 is 0x6f91, sent as 0x906e |
| PppFraming.EncodePppFrame | src/devices/modem/HayesModem.cpp:88-114 | header, payload and check, stuffed between flags |
| PppReplies.StuffedOne | src/devices/modem/HayesModem.cpp:103-112 | the values on the line: 0x7e becomes 0x7d 0x5e, 0x7d becomes 0x7d 0x5d, bytes below 0x20 are escaped with 0x20 added, all others stay |
| PppReplies.StuffedConcat | src/devices/modem/HayesModem.cpp:103-112 | frames are stuffed byte by byte |
| PppReplies.StuffedIsClean | src/devices/modem/HayesModem.cpp:103-112 | between its flags a frame has no flag and no byte below 0x20 |
| PppFraming.FeedFrames | src/devices/modem/HayesModem.cpp:473-490 | for any bytes at all, the frames are: cut at flags, unstuff, cut to mtu + 17, drop the empty |
| PppFraming.FrameIsBounded | src/devices/modem/HayesModem.cpp:489 | no frame, complete or not, is longer than mtu + 17 bytes |
| PppFraming.PppRoundTrip | src/devices/modem/HayesModem.cpp:473-523 | from any receiver state an encoded message is dispatched with its protocol and payload if and only if the high protocol byte is even and the payload has at most mtu + 11 bytes |
| PppSession.PppConnection.Send | src/devices/modem/HayesModem.cpp:473-490 | the new session state and everything sent or handed up for one byte |
| PppSession.PppConnection.HandlePppFrame | src/devices/modem/HayesModem.cpp:500-523 | damaged and short frames are ignored, the others dispatched, unknown protocols rejected |
| PppReplies.CarriedIsDispatched | src/devices/modem/HayesModem.cpp:505-518 | exactly the bodies with a whole protocol number are understood, with address and control or without, and with one protocol byte or two |
| PppReplies.DamagedIsIgnored | src/devices/modem/HayesModem.cpp:502-504 | a frame that is too short, or whose last bytes are not its check, draws nothing from any receiver state |
| PppReplies.DatagramIsForwarded | src/devices/modem/HayesModem.cpp:522 | a frame of protocol 0x0021 hands exactly its payload to the network and sends nothing |
| PppReplies.LinkRequestIsAnswered | src/devices/modem/HayesModem.cpp:526-537 | link packets with code 1, 5 or 9 draw one reply with code 2, 6 or 10, the same identifier and the data their length covers; any others draw nothing |
| PppReplies.PasswordIsAccepted | src/devices/modem/HayesModem.cpp:539-548 | a password request draws an acknowledgement with its identifier; any other packet of that protocol draws nothing |
| PppReplies.AddressRequestIsAnswered | src/devices/modem/HayesModem.cpp:550-590 | an address packet from the line draws the refusal, the acknowledgement with or without the modem's own request, or nothing |
| PppReplies.OthersAreRejected | src/devices/modem/HayesModem.cpp:523 | any other protocol draws one Protocol-Reject with the next identifier |
| PppSession.PppConnection.HandleIpcp | src/devices/modem/HayesModem.cpp:550-590 | refuses, or acknowledges and asks for the modem's own address the first time |
| PppSession.PppConnection.RefusedOptions | src/devices/modem/HayesModem.cpp:562-578 | the option loop collects the refusals and stops at a malformed option |
| PppSession.PppConnection.SendPppControl | src/devices/modem/HayesModem.cpp:592-602 | code, identifier, 16-bit length and data, framed |
| PppReplies.ControlPayloadCovers | src/devices/modem/HayesModem.cpp:592-600 | the length in a control packet is that of the whole packet |
| PppReplies.GuestHears | src/devices/modem/HayesModem.cpp:592-602 | a receiver on the line dispatches exactly the packets the modem sends, in order |
| PppNegotiation.NaksAreRefused | src/devices/modem/HayesModem.cpp:562-578 | the refusal of an option list is the list of its wrong addresses before the first malformed option, in order, with the values wanted |
| PppNegotiation.OptionsAndTail | src/devices/modem/HayesModem.cpp:562-578 | any bytes are a list of options with a malformed tail, so the refusal of any request is determined |
| PppReplies.WantedAddresses | src/devices/modem/HayesModem.cpp:567-576 | option 3 must be the remote address and options 129 and 131 the local one; wrong ones of four bytes are corrected so, and no others |
| PppNegotiation.RequestIsAnswered | src/devices/modem/HayesModem.cpp:550-590 | a request is refused if and only if some address option of length 6 differs from the configured value; otherwise it is acknowledged byte for byte |
| PppNegotiation.NegotiationConverges | src/devices/modem/HayesModem.cpp:550-590 | resending the options with the wanted values put in is always acknowledged |
| PppNegotiation.FramedRequestIsAnswered | src/devices/modem/HayesModem.cpp:473-602 | the framed request, sent byte by byte from any receiver state, draws exactly that answer, behind the handling of a frame left over |
| PppNegotiation.OwnRequestAtMostOnce | src/devices/modem/HayesModem.cpp:579-589 | over any bytes the guest sends, the modem's own Configure-Request goes out at most once |
| IcmpEcho.InternetChecksum | src/devices/modem/HayesModem.cpp:44-53 | the two loops compute the folded and complemented sum, and the 32-bit sum never overflows |
| IcmpEcho.FoldResidue | src/devices/modem/HayesModem.cpp:44-53 | folding keeps the residue modulo 65535 and gives zero for zero only |
| IcmpEcho.ChecksumIsRemainder | src/devices/modem/HayesModem.cpp:44-53 | the checksum of any data is what the data as one big-endian number, completed to whole words, lacks to a multiple of 65535 |
| IcmpEcho.SealedVerifies | src/devices/modem/HayesModem.cpp:318-325 | data with its checksum put into a zeroed field verifies to zero, of even or odd length |
| IcmpEcho.HandleLocalIpPacket | src/devices/modem/HayesModem.cpp:299-328 | which packets go to the network, end here, or are answered, and the answer as it is written |
| IcmpEcho.WhoIsAnswered | src/devices/modem/HayesModem.cpp:299-309 | a packet stays with the modem if and only if it is version 4, addressed to it and its lengths fit; of these exactly the intact echo requests are answered |
| IcmpEcho.EchoIsAnswered | src/devices/modem/HayesModem.cpp:299-328 | exactly the intact echo requests are answered; the reply swaps the addresses, keeps identifier, sequence and data, and both its checksums verify |
| HostHandoff.EveryRunIsSafe | src/core/EmulationSession.cpp:123-142 | in every interleaving the count equals the threads between registering and withdrawing, locks have one holder, and a parked worker has a waiter or a notify still to come |
| HostHandoff.NoDeadlock | src/core/EmulationSession.cpp:123-142 | in every reachable state with a call or quantum under way some thread can take a step of its own |
| HostHandoff.HandOff | src/core/EmulationSession.cpp:135-142 | every thread that waits for the session lock while a service can still see it, whether it registered before the service or during it, has taken the lock before that service returns or, in a timed call only, given up |
| HostHandoff.NobodyWaitsAcrossQuanta | src/core/SessionRunner.cpp:127-129 | so nobody who waited when a quantum ended still waits when the next one begins |
| HostHandoff.RankFalls | src/core/EmulationSession.cpp:135-142 | without arrivals and spurious wake-ups every step of a service brings its end nearer |
| HostHandoff.ServiceEnds | src/core/EmulationSession.cpp:135-142 | such a service returns within a bounded number of steps |
| HostHandoff.OnlyTheHolderTouches | src/core/EmulationSession.cpp:276-521 | apart from a timed call that gave up waiting, only the holder of the session lock touches the machine |
| HostHandoff.UntimedCallsAreLocked | src/core/EmulationSession.cpp:123-133 | on every run from the start, a call that began without a time limit, the audio query included, uses the machine under the session lock only, and so does a quantum |
| PhysicalMemory.PhysicalMemoryMap.SetPage | include/cutemac/core/PhysicalMemoryMap.h:142-147 | assigning an entry, with a table made on demand, changes that page of the flat map only |
| PhysicalMemory.PagesAreLinear | include/cutemac/core/PhysicalMemoryMap.h:117-140 | pages have 4,096 bytes, and within a page the bytes follow each other |
| PhysicalMemory.PhysicalMemoryMap.Clear | include/cutemac/core/PhysicalMemoryMap.h:20-25 | every page of the space is unmapped |
| PhysicalMemory.PhysicalMemoryMap.MapReadWritePage | include/cutemac/core/PhysicalMemoryMap.h:27-33 | an aligned address and a pointer map the page for both, anything else maps nothing |
| PhysicalMemory.PhysicalMemoryMap.MapReadOnlyPage | include/cutemac/core/PhysicalMemoryMap.h:35-41 | the same for reading only, which takes away an earlier permission to write |
| PhysicalMemory.PhysicalMemoryMap.MapReadOnlyMirrored | include/cutemac/core/PhysicalMemoryMap.h:43-51 | the loop maps the range, wrapping round at 32 bits, or nothing if an argument is unsuitable |
| PhysicalMemory.PhysicalMemoryMap.TryRead8 | include/cutemac/core/PhysicalMemoryMap.h:53-59 | the byte of the flat memory, or failure where it has none |
| PhysicalMemory.PhysicalMemoryMap.TryRead16 | include/cutemac/core/PhysicalMemoryMap.h:61-70 | the big-endian word, exactly if it lies in one readable page |
| PhysicalMemory.PhysicalMemoryMap.TryRead32 | include/cutemac/core/PhysicalMemoryMap.h:72-83 | the big-endian double word, exactly if it lies in one readable page |
| PhysicalMemory.PhysicalMemoryMap.TryWrite8 | include/cutemac/core/PhysicalMemoryMap.h:85-91 | writes one byte of host memory, or fails and writes none |
| PhysicalMemory.PhysicalMemoryMap.TryWrite16 | include/cutemac/core/PhysicalMemoryMap.h:93-102 | writes both bytes, or fails and writes none |
| PhysicalMemory.PhysicalMemoryMap.TryWrite32 | include/cutemac/core/PhysicalMemoryMap.h:104-115 | writes all four bytes, or fails and writes none |
| PhysicalMemory.WideReadIsByteReads | include/cutemac/core/PhysicalMemoryMap.h:53-83 | a wide read succeeds if and only if its bytes can be read one by one and lie in one page, and gives just those |
| PhysicalMemory.WriteChangesAliases | include/cutemac/core/PhysicalMemoryMap.h:85-115 | a write changes the flat memory at exactly the addresses that alias the bytes written |
| PhysicalMemory.WriteThenRead | include/cutemac/core/PhysicalMemoryMap.h:61-115 | what is written to a readable page is read back |
| PhysicalMemory.MirrorRepeats | include/cutemac/core/PhysicalMemoryMap.h:43-51 | a mirrored range reads its bytes over and over, across the end of the space too, and is not writable |
| PhysicalMemory.RunFollowsLatest | include/cutemac/core/PhysicalMemoryMap.h:20-51 | after any run of mappings, mirrored mappings, clears and writes a page is as the latest operation about it left it |
| PhysicalMemory.ReadsLastWrite | include/cutemac/core/PhysicalMemoryMap.h:20-115 | after such a run a read succeeds exactly if that page is readable, and gives the last byte written to its place through whatever page |
| PhysicalMemory.WordsComeBack | include/cutemac/core/PhysicalMemoryMap.h:61-115 | a word or double word written to a readable page is read back as the same number |
| Scheduler.MachineScheduler.DispatchDue | src/core/MachineScheduler.cpp:43-50 | for any callbacks with which the loop ends at all, it takes its turns until nothing is due |
| Scheduler.MachineScheduler.PendingEvents | src/core/MachineScheduler.cpp:19-35 | one line for each event, in the order of the queue, with the cycles left until it is due |
| Scheduler.DispatchKeepsValid | src/core/MachineScheduler.cpp:43-50 | no dispatch loses or repeats an event, whatever its callback schedules |
| Scheduler.ExactlyOnce | src/core/MachineScheduler.cpp:14-50 | the k-th request ever made has exactly one event, dispatched or waiting, with its number, cycle, callback and name, and there are no other events |
| Scheduler.MachineScheduler.Schedule | src/core/MachineScheduler.cpp:14-17 | adds one event with the next sequence number and the cycle, callback and name asked for, and nothing else |
| Scheduler.TurnsGrantRequests | src/core/MachineScheduler.cpp:43-50 | the loop runs the callback of each dispatched event once and grants what it asks for, in order, and no event runs before its time |
| Scheduler.DispatchIsOrdered | include/cutemac/core/MachineScheduler.h:36-41 | if callbacks schedule nothing earlier than their event, dispatch strictly increases in cycle and sequence |
| Scheduler.DispatchEnds | src/core/MachineScheduler.cpp:43-50 | if callbacks re-arm at most one strictly later event, a bounded number of turns leaves nothing due |
| Scheduler.RearmingEnds | src/core/MachineScheduler.cpp:43-50 | so with such callbacks the loop ends from every state |
| Scheduler.SameCycleNeverEnds | src/core/MachineScheduler.cpp:43-50 | re-arming at the same cycle, the loop never ends once an event is due |
| Scheduler.PendingIsDispatchOrder | src/core/MachineScheduler.cpp:19-35 | the pending events stand in the order in which they would be dispatched if callbacks scheduled nothing |
| SoundChip.AppleSoundChip.WriteRegisterAt | src/devices/audio/AppleSoundChip.cpp:54-92 | FIFO and register writes of both models |
| SoundChipLaws.SampleIsStored | src/devices/audio/AppleSoundChip.cpp:54-67 | a sample goes to the FIFO of its address; the half-empty bit goes out from 512 samples on, the full bit shows 1,023 or more, and nothing else changes |
| SoundChipLaws.RegistersRestart | src/devices/audio/AppleSoundChip.cpp:70-91 | a new mode and a FIFO reset empty both FIFOs, a new mode restarts the clock, and no register touches the samples, the interrupt or another register but the status |
| SoundChipLaws.RegistersMark | src/devices/audio/AppleSoundChip.cpp:76-91 | what register writes do to the status bits |
| SoundChip.AppleSoundChip.ReadRegister | src/devices/audio/AppleSoundChip.cpp:36-52 | reads of both models, and the acknowledgement by reading the status |
| SoundChipLaws.StatusIsAcknowledged | src/devices/audio/AppleSoundChip.cpp:43-50 | reading the status acknowledges the interrupt, clears the status of the original chip and keeps that of the enhanced one; no other read changes anything |
| SoundChipLaws.RegisterReadsBack | src/devices/audio/AppleSoundChip.cpp:36-92 | every register but the version, the clock rate and the single-bit ones is read back as it was written |
| SoundChip.AppleSoundChip.Advance | src/devices/audio/AppleSoundChip.cpp:94-124 | the sample loop does what the tick of the specification does |
| SoundChip.AppleSoundChip.ConsumeFrom | src/devices/audio/AppleSoundChip.cpp:103-120 | one sample taken: pointer, level, status bits and interrupt |
| SoundChip.TicksAdd | src/devices/audio/AppleSoundChip.cpp:94-101 | two ticks leave the same state as one tick of their sum |
| SoundChip.ClockNeverDrifts | src/devices/audio/AppleSoundChip.cpp:94-101 | however cycles are cut up, from an empty accumulator exactly the rounded-down number of samples is taken, at 22,257 or 44,100 of them in 15,667,200 cycles |
| SoundChip.SamplesDrain | src/devices/audio/AppleSoundChip.cpp:102-123 | levels and pointers after any number of samples in closed form, and the interrupt goes up exactly if a FIFO runs half empty or empty |
| SoundChip.SamplesMark | src/devices/audio/AppleSoundChip.cpp:102-123 | the half-empty status bits report exactly the FIFOs that ran low |
| SoundChipLaws.SamplesMarkFull | src/devices/audio/AppleSoundChip.cpp:102-123 | the full bits after any number of samples: on when the FIFO ran empty, off when it passed the middle, and otherwise as before |
| SoundChipLaws.SamplesKeepTheRest | src/devices/audio/AppleSoundChip.cpp:102-123 | playing changes levels, status and interrupt, never a sample or another register |
| SoundChipLaws.WhatPlays | src/devices/audio/AppleSoundChip.cpp:96-101 | the chip plays in mode 1, and both FIFOs if it is enhanced or told to |
| SoundChip.ApplyKeepsRings | src/devices/audio/AppleSoundChip.cpp:54-67 | every access keeps the pointers in step with the levels if and only if it does not write a sample to a full FIFO |
| SoundChip.OverfillingBreaksRings | src/devices/audio/AppleSoundChip.cpp:54-67 | after reset, 1,024 samples fill a FIFO with its pointers in step, and one more puts them out of step |
| SoundChip.RunKeepsRings | src/devices/audio/AppleSoundChip.cpp:54-124 | so runs that never overfill a FIFO keep them in step |

## Left out

- Identifying an image by its size and the check for truncated HFS volumes: loads start at the loader the size has chosen.
- Trace rings, mark traces and debug state of all devices: they do not influence what is modelled.
- FloppyDiskImages.FloppyDiskImage.InferMfmSectorAtCursor: says which bytes are taken for an ID field, not that they are one; data that looks like an ID field is taken for it by the code as well.
- FloppyDiskImages.FloppyDiskImage.PersistImage: the file system is reduced to accepting or refusing each attempt; path and open errors are refusals.
- SWIM parameters, setup, phases, drive strobes, sense lines, the unlock sequence that enters the chip's native mode, and the IWM mode itself.
- Swim.SwimController.ReadData: models the read registers 0 and 1 only; the other read registers compute one value from one field.
- Telnet, TCP and AT command handling of the modem, Ethernet framing and address resolution behind the serial links, and packets that arrive from the network.
- PppSession.PppConnection.Send: a datagram that is handed up draws no reply from the network here; the reply of the modem itself is modelled in IcmpEcho.
- HostHandoff.EveryRunIsSafe: steps are sequentially consistent; durations, priorities and fairness of the mutexes are not modelled.
- The pause, power-request and speed settings of a session, and waits of the emulation thread that do not involve the hand-off.
- Scheduler.MachineScheduler.Schedule: cycle and sequence numbers do not wrap round at 64 bits, and callbacks schedule events but neither advance nor reset the scheduler.
- PhysicalMemory.PhysicalMemoryMap.SetPage: host memory is one array and a pointer an index into it; freeing or moving it is not modelled.
- The interpolation, mixing and output of sound samples by the host.
- The processor, the machines, video, SCSI, ADB, real-time clocks, configuration files, catalogues, panic archives and the user interface.
