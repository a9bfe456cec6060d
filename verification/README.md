# Firmware update and storage path of bristlemouth-rs, in Dafny

A model of the code that decides which bytes end up in flash, in what order and what
survives a fault: the SPI and internal flash drivers, the config partitions, MCUboot's slot
trailer, the image format and the tools that build and read it, the DFU loop, the PHY's
wakeups, the application channel and the clock.

`dafny verify dfyconfig.toml` checks everything. Each file is one part of the system:

| file | part |
|---|---|
| Bytes.dfy, Nor.dfy | words, bitwise `and`, and what NOR flash may hold after an operation that finishes, fails or is cut |
| W25.dfy, Storage.dfy | the W25 part, its driver, the three config partitions |
| Slot.dfy | the two slots in internal flash |
| Trailer.dfy, Marks.dfy | the slot trailer, the swap decision, `set_pending` and `set_confirmed` over every run of faulty calls |
| Header.dfy, Tlv.dfy, VersionNote.dfy, Elf.dfy | header, TLV area, version note, ELF flattening |
| ImageFile.dfy, EndToEnd.dfy | `build`, `from_body`, `dfu`, `unified`, `Info::read`, and an image's life in its slot |
| Board.dfy | `set_pending`, `set_confirmed` and a whole update over the board's slots |
| Dfu.dfy, Phy.dfy, Channel.dfy | the three step protocols |
| Rtc.dfy | the calendar correction and the sub-second shift |

How faults are modelled. A flash cell under programming may hold any value between its old
value and the old value anded with the new one; a cell under erase any value above its old
one, bit by bit. Every operation of a flash may fail at any such point, with or without
having finished, and a power loss is a failure nothing follows. `WriteOutcome` and
`EraseOutcome` in `Nor` state this once; `SwapMarks.Slot` (bm-mcuboot-diff's `RamSlot`, with
failures), and `DevkitSlots.Area` are both held to them, so what is proved of the trailer
over any such flash holds on the board's slots. A flash that is `healthy` does not fail, and
the contracts say what must then succeed.

SHA-256, ed25519, the CRC, the built-in service names, the DFU machine, the node behind the
channel and the driver behind the PHY are parameters, and every theorem is for all of them.

## What the code turned out not to do

- Pending, then never swapped: a permanent `set_pending` whose `image_ok` write is torn inside
  the byte leaves a slot the bootloader decides `None` for, and no later call changes it
  (`SwapMarks.TornFlagNeverSwaps`).
- A protected TLV area followed by an unprotected area with no entries parses, and its walk
  then ends in `Truncated` (`TlvArea.ProtectedRoundTrip`).
- `build` with an arbitrary version can put the note's magic in the header, for exactly one
  version (`EndToEnd.MagicInHeader`); `from_body` cannot.
- `flat` takes overlapping sections when one of them ends exactly at 2^32: the 32-bit `end` is
  then 0 (`ElfFile.WrapHidesOverlap`), or the sum panics where overflow is checked. No other
  input is laid out wrongly (`ElfFile.Flat`), and neither caller's limit reaches that far.
- Setting the clock to the last second of 2099 reads back as the last of 1999: the hardware
  year wraps to 2000 before the correction (`Rtc.SecondReadsBack`). `decrement_one_second` is
  wrong at two midnights of year 0 (`Rtc.DecrementOneSecond`).
- At the largest prescaler the shift for 0 ms does not fit the register's 15 bits, and the
  clock reads a second ahead (`Rtc.ZeroMillisecondsWrap`).
- bm-devkit/README.md says a sub-second register of 511 reads as 65531 ms. The code gives
  65532 (`Rtc.ZeroMillisecondsWrap`).
- An echo reply with an oversized payload is neither queued nor counted as dropped; with that
  exception every notification is accounted for (`ChannelApp.NothingLostUnaccounted`). A reply
  must match the payload sent (bm-wire/src/bcmp/ping.rs:244), so one gets there only when
  `NodeResources::PING_PAYLOAD` is raised above 64 (bm-stack/src/node/resources.rs:57-63) and
  the node is pinged other than through the channel.

## Model

| member | source | states |
|---|---|---|
| Bytes.AndIsBitwise | bm-mcuboot-diff/src/lib.rs:46-48 | a bit of a programmed cell is set exactly when it was set and is set in the data |
| Bytes.BelowIsSubset | bm-mcuboot-diff/src/lib.rs:46-48 | the order of faulty cells is that of their bits: one byte is below another exactly when its bits are among the other's |
| Nor.ProgramErased | bm-mcuboot-diff/src/lib.rs:43-61 | programming what was erased stores the data, whatever it is |
| Nor.PaddingChangesNothing | bm-devkit/src/slot.rs:114-122 | a cell programmed with 0xFF keeps its value, finished or torn |
| Nor.TornEraseTwice | bm-devkit/src/slot.rs:79-96 | an interrupted erase inside an interrupted erase is one interrupted erase |
| SpiFlash.HeaderCarriesAddress | bm-devkit/src/w25.rs:123-126 | the part sees the driver's address, no truncation, exactly when it is on the part |
| SpiFlash.W25.Wait | bm-devkit/src/w25.rs:82-90 | Ok means the status bit is as asked; no answer changes what the part will hold; a healthy part that needs no more polls than the timeout gives Ok |
| SpiFlash.W25.BusRead | bm-devkit/src/w25.rs:93-99 | Ok means an idle part and the bytes of the address asked |
| SpiFlash.W25.BusErase | bm-devkit/src/w25.rs:102-108 | Ok means the one sector is erased and the part idle; any answer, and any cut, leaves all cells outside it |
| SpiFlash.W25.BusProgram | bm-devkit/src/w25.rs:111-120 | Ok means the page is anded in and the part idle; any answer, and any cut, leaves all cells outside it |
| SpiFlash.W25.Read | bm-devkit/src/w25.rs:159-162 | refuses exactly the ranges `check_range` does; Ok gives the part's contents |
| SpiFlash.W25.EraseSector | bm-devkit/src/w25.rs:171-177 | refuses exactly unaligned or out-of-range addresses, untouched; Ok erases that sector alone |
| SpiFlash.W25.ProgramSector | bm-devkit/src/w25.rs:205-207 | over an erased sector the sixteen page programs store the buffer |
| SpiFlash.W25.RewriteSector | bm-devkit/src/w25.rs:198-207 | one turn of the loop: Ok stores the patch, every other cell as it was; any cut stays in the sector |
| SpiFlash.W25.Write | bm-devkit/src/w25.rs:193-213 | Ok: the whole part is the old one with the data spliced in, and the erases are the data's sectors; cut anywhere: sectors before are written, later ones old, at most one damaged; an idle healthy part always gives Ok in range |
| SpiFlash.SectorsAreTheOverlapped | bm-devkit/src/w25.rs:183-187 | the sectors erased are exactly those the data overlaps, each once, in order |
| ConfigStorage.Address | bm-devkit/src/storage.rs:47-50 | an address exactly for ranges ending before the partition's last byte, inside the partition and the part |
| ConfigStorage.CutKeepsOtherPartitions | bm-devkit/src/storage.rs:13-24 | any state a cut write can leave holds the other partitions byte for byte |
| ConfigStorage.FlashConfigStorage.Read | bm-devkit/src/storage.rs:54-71 | true gives the partition's bytes, and is the answer in range from an idle healthy part |
| ConfigStorage.FlashConfigStorage.Write | bm-devkit/src/storage.rs:73-84 | true stores the range and nothing else, and is the answer in range from an idle healthy part; true, false or cut, no byte of another partition changes |
| DevkitSlots.Area.Read | bm-devkit/src/slot.rs:64-66 | an answer is the slot's bytes, in range |
| DevkitSlots.Area.Erase | bm-devkit/src/slot.rs:70-105 | true: exactly the range is 0xFF; refuses misaligned or out of range untouched, and on a healthy flash nothing else; never outside the slot; keeps the rules of a slot's flash |
| DevkitSlots.Area.Write | bm-devkit/src/slot.rs:109-134 | true: the data reads back; no cell outside the range changes despite the padding, and no quad-word leaves the slot; keeps the rules of a slot's flash; a healthy one programs it all and answers whether it reads back |
| DevkitSlots.QuadStep | bm-devkit/src/slot.rs:114-122 | a padded quad-word, finished or torn, is a step of programming the data alone |
| DevkitSlots.SlotsAreApart | bm-devkit/src/slot.rs:18-27 | what stays inside one slot leaves the other slot's bytes |
| DevkitSlots.MarksPassTheChecks | bm-devkit/src/slot.rs:70-76 | none of the trailer's writes on this board, nor the whole-slot erase, fails the alignment and range checks |
| TrailerLayout.New | bm-mcuboot/src/trailer.rs:127-136 | accepts exactly the alignments 8, 16 and 32 at which the five blocks fit, aligned, against the slot's end; what it accepts is laid out so |
| TrailerLayout.FieldsTile | bm-mcuboot/src/trailer.rs:146-200 | for every trailer accepted the five field blocks are aligned, disjoint, in the slot and tile its last `info_size` bytes |
| TrailerLayout.DecidesByTable | bm-mcuboot/src/trailer.rs:382-398 | the branches decide as the first matching row of `boot_swap_tables` |
| TrailerLayout.SwapInfoExactly | bm-mcuboot/src/trailer.rs:270-311 | for every byte, the swap type and image its nibbles give, or none |
| SwapMarks.Slot.Write | bm-mcuboot-diff/src/lib.rs:43-50 | a healthy slot ands and verifies; a failing one leaves each byte part way and says false |
| SwapMarks.Slot.Erase | bm-mcuboot-diff/src/lib.rs:53-60 | refuses what is not whole pages in range, untouched; else a healthy slot erases the range, a failing one only sets bits in it |
| SwapMarks.ReadSwapState | bm-mcuboot/src/trailer.rs:270-311 | an answer is the state the fields encode; a healthy flash answers |
| SwapMarks.SetPending | bm-mcuboot/src/trailer.rs:338-363 | does what one of the outcomes of `ValidPending` allows; a healthy flash with erased fields is marked, one with a bad magic erased |
| SwapMarks.PendingStep | bm-mcuboot/src/trailer.rs:338-363 | one call over any flash: keeps the invariant, writes nothing once the magic is good, and makes it good only by its own magic write |
| SwapMarks.MarkedState | bm-mcuboot/src/trailer.rs:345-357 | the whole swap state read after a success on erased fields |
| SwapMarks.EraseKeepsMarks | bm-mcuboot/src/trailer.rs:358-361 | the erase of a bad magic, finished or not, makes no magic and leaves the other fields erased |
| SwapMarks.RunKeepsMarks | bm-mcuboot/src/trailer.rs:314-363 | the invariant holds after any number of calls with any flags and faults |
| SwapMarks.PendingIsFrozen | bm-mcuboot/src/trailer.rs:343-344 | once the magic is in place no later call, however it fails, changes a byte of the slot |
| SwapMarks.PendingDecision | bm-mcuboot/src/trailer.rs:314-398 | the decision for a pending slot, for every primary, is fixed by the `image_ok` cell of the call that put the magic in |
| SwapMarks.PermNeedsItsFlag | bm-mcuboot/src/trailer.rs:345-357 | Perm only if a permanent call's write turned an erased `image_ok` into 1 |
| SwapMarks.CutAfterMagicStaysTest | bm-mcuboot/src/trailer.rs:346-349 | a call cut right after its magic stays Test under every retry |
| SwapMarks.CutHappens | bm-mcuboot/src/trailer.rs:346-349 | on any erased fields a call can report an error with the magic in place |
| SwapMarks.TornFlagNeverSwaps | bm-mcuboot/src/trailer.rs:347-349 | on any erased fields a permanent call whose flag byte is torn leaves a slot decided None under every retry |
| SwapMarks.SetConfirmed | bm-mcuboot/src/trailer.rs:369-380 | does what one of the outcomes of `ValidConfirm` allows; on a healthy flash the flag is written exactly when its whole block was erased |
| SwapMarks.NeverRevertsExactly | bm-mcuboot/src/trailer.rs:384-398 | no secondary state can revert a primary exactly when one of its three fields forbids it |
| SwapMarks.ConfirmStops | bm-mcuboot/src/trailer.rs:369-380 | a call that returns Ok, in every magic and flag case, leaves a slot that never reverts; no call makes one that does |
| SwapMarks.ConfirmIsFinal | bm-mcuboot/src/trailer.rs:369-380 | after one Ok no further call changes the slot, so it never reverts |
| ImageHeader.Put | bm-mcuboot/src/image.rs:120-126 | stores the bytes from the offset and nothing else |
| ImageHeader.Encode | bm-mcuboot/src/image.rs:85-96 | the 32 bytes hold each field at its offset, little-endian |
| ImageHeader.HeaderRoundTrip | bm-mcuboot/src/image.rs:85-111 | decoding what was encoded, whatever follows, gives the header |
| ImageHeader.DecodeLosesNothing | bm-mcuboot/src/image.rs:99-111 | encoding what was decoded gives the bytes |
| ImageHeader.DecodesFields | bm-mcuboot/src/image.rs:99-111 | a header is decoded exactly from 32 bytes or more, each field from its offset |
| TlvArea.PutInfo | bm-mcuboot/src/tlv.rs:66-70 | the info header's four bytes |
| TlvArea.PutEntry | bm-mcuboot/src/tlv.rs:72-77 | appends the entry's bytes to what was written before it |
| TlvArea.EncodeUnsigned | bm-mcuboot/src/tlv.rs:45-50 | the area with one SHA-256 entry |
| TlvArea.EncodeEd25519 | bm-mcuboot/src/tlv.rs:53-64 | the area with the SHA-256, key hash and signature entries |
| TlvArea.ParsedIsWellFormed | bm-mcuboot/src/tlv.rs:127-154 | every area that parses lies in the image and its protected part is absent or holds its own info header |
| TlvArea.ParseExactly | bm-mcuboot/src/tlv.rs:127-154 | from the image's bytes, when each of the three refusals is given, and otherwise the area |
| TlvArea.StepExactly | bm-mcuboot/src/tlv.rs:204-242 | an entry reads exactly when its header and value end in the area, from the bytes at its offset |
| TlvArea.TlvIter.Next | bm-mcuboot/src/tlv.rs:204-242 | yields the head of the remaining walk and leaves the tail, ending only at the area's end |
| TlvArea.WalkShape | bm-mcuboot/src/tlv.rs:204-242 | every step reads where the last ended or past the skipped header, stays in bounds, and an error is the last step |
| TlvArea.StepIsItsBytes | bm-mcuboot/src/tlv.rs:213-231 | an entry read is the bytes it covers |
| TlvArea.WalkOrder | bm-mcuboot/src/tlv.rs:166-172 | entries are disjoint, at increasing offsets, protected ones first |
| TlvArea.SkipsOnce | bm-mcuboot/src/tlv.rs:209-212 | the second info header is skipped at most once |
| TlvArea.WalkTiles | bm-mcuboot/src/tlv.rs:204-242 | an error-free walk covers the area exactly, counting the one skipped header |
| TlvArea.AreaRoundTrip | bm-mcuboot/src/tlv.rs:66-181 | any entries whose total fits in 16 bits parse and walk back unchanged, whatever is around them |
| TlvArea.EntriesRoundTrip | bm-mcuboot/src/tlv.rs:174-181 | collecting gives the entries, finding a kind its first value |
| TlvArea.CollectExactly | bm-image/src/info.rs:40-44 | of any walk, collecting succeeds exactly without an error, with every entry in turn |
| TlvArea.FindExactly | bm-mcuboot/src/tlv.rs:172-181 | of any walk, finding gives the value of the first entry of the kind before any error |
| TlvArea.WalkSpells | bm-mcuboot/src/tlv.rs:204-242 | the entries of any area that reads, with no protected part, are its bytes |
| TlvArea.ProtectedRoundTrip | bm-mcuboot/src/tlv.rs:127-242 | two areas read back protected first; with no unprotected entry, an error |
| TlvArea.WalkIgnoresTheRest | bm-mcuboot/src/tlv.rs:204-242 | the walk is the same when more bytes follow the image |
| TlvArea.ParseIgnoresTheRest | bm-mcuboot/src/tlv.rs:127-154 | the area is the same when more bytes follow the image |
| VersionNote.FindsTheFirst | bm-image/src/version.rs:37-41 | the search answers exactly the first place the magic is |
| VersionNote.Note | bm-devkit/src/version.rs:69-105 | the note is its header words, name, and packed fields, zero to the end |
| VersionNote.NoteRoundTrip | bm-devkit/src/version.rs:78-105 | for all fields and version bytes bm-image finds the note at 20 with the same fields, the text cut to 96 |
| VersionNote.AnyNoteReadsBack | bm-image/src/version.rs:37-63 | the first note in any bytes, whoever wrote it, reads back every field, the text cut to its length word, 96 and what there is |
| VersionNote.NoteVersion | bm-image/src/version.rs:65-76 | the header version is the note's, and 0.0.0 exactly for three 0xFFs |
| ElfFile.ChunkAt | bm-image/src/elf.rs:100-121 | entry k of a table is the k-th equal slice |
| ElfFile.LoadAddressExactly | bm-image/src/elf.rs:80-88 | the load address is the first holding segment's, the section's own only if none holds it |
| ElfFile.GatherExactly | bm-image/src/elf.rs:69-93 | the sections are exactly those some header loads |
| ElfFile.TableExactly | bm-image/src/elf.rs:100-121 | a header table is taken exactly when it is absent or its entries are long enough and inside the file, and is then its entries |
| ElfFile.SectionsExactly | bm-image/src/elf.rs:59-96 | from the file's bytes: which files read, and that they have one section for each header that is allocated, in the file and not empty, at its load address |
| ElfFile.SectionIffLoaded | bm-image/src/elf.rs:69-93 | a section is read exactly when some header of the file loads it |
| ElfFile.ElfRefusals | bm-image/src/elf.rs:60-67 | which files are refused before their tables are looked at, and how |
| ElfFile.SortSorts | bm-image/src/elf.rs:94-94 | in address order, and the same sections |
| ElfFile.ReadSections | bm-image/src/elf.rs:59-96 | the loop and the sort give the sections `SectionsExactly` describes, or the first error |
| ElfFile.Lay | bm-image/src/elf.rs:45-55 | lays the sections, if no end wraps, exactly when no two share an address; refuses only at an address two share |
| ElfFile.LaidExactly | bm-image/src/elf.rs:46-54 | disjoint sections always pass the 32-bit overlap check, and what passes is disjoint if no end wraps |
| ElfFile.WrapHidesOverlap | bm-image/src/elf.rs:46-54 | two sections that overlap and pass it |
| ElfFile.Place | bm-image/src/elf.rs:28-55 | takes everything placeable; what it takes is placeable exactly when no end wraps; every refusal is justified |
| ElfFile.Flat | bm-image/src/elf.rs:26-56 | every byte is its section's or the fill and the length ends at the last section; success is exactly placeability for every limit that keeps to 32 bits |
| ElfFile.FlattensOnce | bm-image/src/elf.rs:45-55 | the sections decide every byte of the layout |
| ElfFile.OneSectionCovers | bm-image/src/elf.rs:47-54 | of disjoint sections one covers an address |
| ElfFile.SpanIsTheMax | bm-image/src/elf.rs:34-38 | the length reaches the furthest section end and no further |
| ImageFile.ImagesEndBelowTheTrailer | bm-image/src/image.rs:25-28 | the image limit is imgtool's trailer, below the bootloader's swap status and every field |
| ImageFile.Build | bm-image/src/image.rs:35-61 | succeeds exactly when header, body and area are at most 0xF07B0 bytes, and is then header, padding, body and area |
| ImageFile.FromBody | bm-image/src/image.rs:65-68 | builds with the version of the body's own note, exactly when there is one and it fits |
| ImageFile.Dfu | bm-image/src/image.rs:72-87 | the image of the flattened ELF, exactly when it reads, can be placed and its layout has a note; each other case with its error |
| ImageFile.Unified | bm-image/src/image.rs:92-120 | the bootloader, 0xFF to its size, then the image, exactly when the bootloader can be placed or fits and the image has a header and fits |
| ImageFile.BuiltReadsBack | bm-image/src/info.rs:35-56 | every image built reads back: same header, exactly its TLVs, a matching hash, nothing trailing |
| ImageFile.ReadsExactly | bm-image/src/info.rs:35-56 | which files are read, and how the others are refused |
| ImageFile.InfoExactly | bm-image/src/info.rs:35-56 | of any file read: the header's fields, and what trails after the area, whose end its own length words give |
| ImageFile.HashExactly | bm-image/src/info.rs:45-46 | of any file read, the hash matches exactly when the first SHA-256 entry is that of the header and body |
| ImageFile.DamageShows | bm-image/src/info.rs:45-46 | an image damaged anywhere between header and area reads, and matches exactly if the hash is the same |
| ImageFile.SignedReadsBack | bm-image/src/info.rs:60-64 | a signed image names its key and holds the signature of its hash; an unsigned one neither |
| EndToEnd.MagicInHeader | bm-image/src/version.rs:37-41 | below the body the magic is in one place only, and only for one version |
| EndToEnd.NoteSurvivesBuilding | bm-image/src/image.rs:65-68 | the image's first note is the body's, 0x200 later, same numbers; same text exactly when the body holds all of it |
| EndToEnd.BodyRoundTrip | bm-image/src/info.rs:35-56 | `from_body` then `Info::read`: header, TLVs, hash, note and version all agree |
| EndToEnd.ChunksStore | bm-stack/src/port.rs:399-401 | verified writes of an update's chunks, in order, to an erased slot hold all of them so far and leave the rest erased |
| EndToEnd.WritingStores | bm-devkit/src/slot.rs:204-214 | an image sent in chunks, each write verified, is stored |
| EndToEnd.MarkingKeepsTheImage | bm-devkit/src/slot.rs:228-235 | marking a stored image pending, whatever the flash does, leaves every byte of it, and once the magic is in the decision is Test for every primary |
| EndToEnd.SlotParsesAsBuilt | bm-mcuboot/src/tlv.rs:127-172 | the slot's TLV area parses and walks as the built image's does |
| BoardUpdate.ReadState | bm-mcuboot/src/trailer.rs:270-311 | `read_swap_state` over a slot of the board: an answer is the state its bytes encode; a healthy flash answers |
| BoardUpdate.SetPending | bm-devkit/src/slot.rs:137-149 | `set_pending` over a slot of the board does what `ValidPending` allows and touches nothing else; a healthy flash with erased fields is marked |
| BoardUpdate.SetConfirmed | bm-devkit/src/slot.rs:220-225 | the same of `set_confirmed` and `ValidConfirm` |
| BoardUpdate.Store | bm-devkit/src/slot.rs:199-214 | erase, then chunk writes: true means the slot holds the chunks and is erased after them; a healthy flash stores whole quad-words that fit |
| BoardUpdate.Update | bm-devkit/src/slot.rs:199-235 | erase, chunk writes and `set_pending` over any flash: the image stays whole while marked, a marked slot is decided Test for every primary, the other slot keeps every byte; a healthy flash stores and marks every image that fits |
| NodeDfu.Outbox.Push | bm-stack/src/dfu.rs:81-92 | a bounded FIFO that drops the newest, and what does not encode |
| NodeDfu.Outbox.Pop | bm-stack/src/dfu.rs:94-102 | takes the oldest body |
| NodeDfu.FinishedCalls.Push | bm-stack/src/dfu.rs:113-118 | a bounded FIFO that drops the newest |
| NodeDfu.FinishedCalls.Pop | bm-stack/src/dfu.rs:120-129 | takes the oldest callback, by rotating the array |
| NodeDfu.QueuedKeepsTheOldest | bm-stack/src/dfu.rs:63-92 | a step's sends leave the queue and as many of the bodies, from the first, as there is room for |
| NodeDfu.BodiesAreTheSends | bm-stack/src/dfu.rs:295-297 | the bodies offered are the messages sent that encode, at increasing positions, each once and no other |
| NodeDfu.AskedIsTheLast | bm-stack/src/dfu.rs:325-332 | the reset is the one asked for at the last position that asks, or the one pending if none does |
| NodeDfu.FinishesAreTheCallbacks | bm-stack/src/dfu.rs:300-306 | the callbacks offered are the finishes reported, in order |
| NodeDfu.CallsKeepTheOldest | bm-stack/src/dfu.rs:113-118 | of which the queue keeps the first that fit in four |
| NodeDfu.Node.Persist | bm-stack/src/dfu.rs:265-271 | no-init RAM holds the machine's reboot info |
| NodeDfu.Node.Apply | bm-stack/src/dfu.rs:294-343 | a step's effects on the queues and on the reset asked for last |
| NodeDfu.Node.Step | bm-stack/src/dfu.rs:248-257 | the machine's next step, with all its effects on the queues, the reset and the reboot info |
| NodeDfu.Node.MakeReset | bm-stack/src/dfu.rs:240-246 | a reset is made with nothing waiting and the reboot info stored |
| NodeDfu.Node.NextBody | bm-stack/src/dfu.rs:230-262 | the oldest body first; the steps made are the machine's next, each with its reboot info stored; None only when everything asked for has come out; no loss if no step sends over four |
| NodeDfu.Node.InitiateUpdate | bm-stack/src/dfu.rs:183-205 | its sends are lost exactly when they do not fit beside what waits |
| NodeDfu.NothingSkipped | bm-stack/src/dfu.rs:227-262 | over every run, what came out and then what is held back is, in order, each step's bodies and then its reset, with the host's sends let in before a pending reset |
| NodeDfu.OwedBySteps | bm-stack/src/dfu.rs:227-262 | with no update started, what was asked for is the steps' own outputs |
| NodeDfu.RunShows | bm-stack/src/dfu.rs:227-262 | which are, from the effects themselves, each step's first four messages that encode and then the reset it asks for last |
| NodeDfu.BodiesLeaveInOrder | bm-stack/src/dfu.rs:63-102 | the bodies handed out, then those waiting, are those the outbox took |
| NodeDfu.LosesOnlyPastFour | bm-stack/src/dfu.rs:63-92 | a body is lost exactly when a step sends over four or an update's sends do not fit |
| NodeDfu.TakesEveryBody | bm-stack/src/dfu.rs:63-92 | otherwise the outbox took every body the steps sent |
| NodeDfu.Drive | bm-stack/src/dfu.rs:230-271 | every run of calls over every machine: all of the above of the steps and updates it made, every reset with an empty outbox and the machine's reboot info stored |
| PhyWakeups.SendStepKeeps | bm-phy-adin2111/src/lib.rs:248-268 | no step of the future or the driver breaks the invariant, and each try finds its buffer |
| PhyWakeups.SendNeverMisses | bm-phy-adin2111/src/lib.rs:231-270 | in every interleaving, with any number of drains, stray wakes and drops, a parked send has its waker registered and the queue full, or a wake due; no frame lost or twice |
| PhyWakeups.DrainingWakes | bm-phy-adin2111/src/lib.rs:255-258 | the driver alone wakes a parked send, with room in the queue |
| PhyWakeups.WithoutTheSecondTry | bm-phy-adin2111/src/lib.rs:256-260 | without the second attempt a wakeup can be missed |
| PhyWakeups.ReceiveStepKeeps | bm-phy-adin2111/src/lib.rs:274-285 | no step, nor dropping the future, breaks the receiver's invariant |
| PhyWakeups.ReceiveNeverMisses | bm-phy-adin2111/src/lib.rs:272-291 | the same of receive, whose frames are a prefix of those that arrived |
| ChannelApp.App.PollReady | bm-stack/src/channel.rs:586-592 | a pending poll has taken nothing; a held command is not replaced |
| ChannelApp.App.Send | bm-stack/src/channel.rs:343-345 | queues at the end while there is room |
| ChannelApp.App.Take | bm-stack/src/channel.rs:498-500 | the oldest notification |
| ChannelApp.App.Notify | bm-stack/src/channel.rs:525-540 | an event within its byte limits is queued if there is room; full, or a publication, reply or timeout over a limit, it is counted; anything else is passed over |
| ChannelApp.App.Requested | bm-stack/src/channel.rs:544-565 | every request is answered with its id or error, or counted |
| ChannelApp.App.Act | bm-stack/src/channel.rs:594-717 | carries out the held command once, notifying the node's events in order and then the request's result, and hands the frame back |
| ChannelApp.CarriedExactly | bm-stack/src/channel.rs:594-717 | command by command, what is notified and which frame is handed back |
| ChannelApp.App.OnEvent | bm-stack/src/channel.rs:719-721 | the same |
| ChannelApp.QueueKeepsTheOldest | bm-stack/src/channel.rs:512-540 | of a call's events the queue keeps the first that fit, in order |
| ChannelApp.NextKeeps | bm-stack/src/channel.rs:525-722 | no operation on the queues breaks the accounting |
| ChannelApp.NothingLostUnaccounted | bm-stack/src/channel.rs:504-521 | over every run: commands are done in the order accepted, every request is answered once, in order, and what was taken, queued and dropped is all there was to hear exactly when no echo reply was oversized |
| ChannelApp.HearExactly | bm-stack/src/channel.rs:525-565 | one thing due is kept, counted or passed over, by byte limits and room |
| ChannelApp.DropsExactly | bm-stack/src/channel.rs:513-540 | over every run, what was taken and is queued is exactly what fits its limits and found room, and the count exactly what fits and found none or is too big |
| ChannelApp.NothingDropped | bm-stack/src/channel.rs:513-540 | with room and everything within limits, the application hears all of it, in order |
| ChannelApp.StoppedReading | bm-stack/src/channel.rs:513-516 | an application that stops reading keeps the first notifications, and loses the rest |
| ChannelApp.Drive | bm-stack/src/channel.rs:586-722 | the code makes every run of the reference, event by event, and its drop count is the run's |
| Rtc.SecondsIsOneTime | bm-devkit/src/rtc.rs:151-193 | a count of seconds names one valid date and time |
| Rtc.DaysByMultiples | bm-devkit/src/rtc.rs:151-154 | the days before a year are 365 a year, one more for each multiple of 4, less each of 100, and again each of 400 |
| Rtc.DecrementOneSecond | bm-devkit/src/rtc.rs:157-193 | the valid date-time one second earlier by day-number arithmetic, for every valid one but two of year 0 |
| Rtc.AddSecondIsNext | bm-devkit/src/rtc.rs:103-113 | the hardware's next second is one more, before 2099 ends |
| Rtc.Clock.Set | bm-devkit/src/rtc.rs:83-117 | refuses years outside 2000-2099 and fields out of range, untouched; else a second on and `adjust` ticks back, as many as the register's 15 bits hold |
| Rtc.Clock.Settle | bm-devkit/src/rtc.rs:66-73 | of ticking registers, the first reading that repeats the one before |
| Rtc.Clock.Get | bm-devkit/src/rtc.rs:62-81 | nothing unless set; from the settled reading a second back exactly while the counter is over the prescaler; the milliseconds are the ticks elapsed, rounded down |
| Rtc.RunningMs | bm-devkit/src/rtc.rs:142-149 | for every prescaler and counter of a running second, the milliseconds since it began, below 1000 |
| Rtc.MsNeverFalls | bm-devkit/src/rtc.rs:142-149 | as the counter runs down the milliseconds do not go back |
| Rtc.WrappedMs | bm-devkit/src/rtc.rs:139-149 | past twice the prescaler the difference wraps, to a stated value |
| Rtc.AdjustWraps | bm-devkit/src/rtc.rs:103-113 | more than 1000 ms wraps the adjustment, to a stated value |
| Rtc.ShiftReadsBack | bm-devkit/src/rtc.rs:103-149 | for every prescaler the milliseconds read fall short by at least 1 and at most one tick's worth, rounded up |
| Rtc.NoShiftReadsZero | bm-devkit/src/rtc.rs:142-149 | with no ticks to shift, 0 ms |
| Rtc.ZeroMillisecondsWrap | bm-devkit/src/rtc.rs:139-149 | 0 ms wraps, for every prescaler but the largest, to a stated value |
| Rtc.SecondReadsBack | bm-devkit/src/rtc.rs:62-117 | the second set is read back for every valid time but the last second of 2099, read as the last of 1999; or the next second when no tick is shifted |
| Rtc.MsReadsBack | bm-devkit/src/rtc.rs:62-149 | the milliseconds to within a tick, or 0 |
| Rtc.SetThenRead | bm-devkit/src/rtc.rs:62-117 | both, of the two methods called one after the other |

## Left out

- The `bm-wire` protocol crates (DFU machine, registry, config store, codecs, checksums) and the node's dispatch: the DFU machine is any sequence of steps.
- MCUboot's swap itself: only the decision the trailers lead to.
- SHA-256, ed25519, PEM keys and the CRC: arbitrary functions.
- Lossy UTF-8 decoding of the version string: the text is its bytes.
- Board bring-up, watchdog, logging, the erase timer and progress counter, CLI, `Display`.
- PacketMeta port numbers, pool allocation and `refill_rx`: simple conversions and a simple loop.
- The `Flash` trait: the trailer's generic methods are written out over `SwapMarks.Slot` and over `DevkitSlots.Area`.
- DfuSlot hooks inside a DFU step (erase, write, config commits): they do not touch the queues, the reset or the reboot info.
- A reset that does not return: the loop goes on after one, as the trait's signature lets it.
- Rtc.Clock.Set: what the hardware calendar does after an impossible date such as 31 February, which the HAL's field checks let through, is not modelled.
- ElfFile.Flat: `end` wraps as it does without overflow checks; with them the input `WrapHidesOverlap` describes panics.
- Offsets and lengths are unbounded where the code uses `usize`, which holds them on every host it builds for.
- Addresses rounded by mask are written as remainders for the three alignments.
