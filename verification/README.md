# Verified model of the Brillo UEFI A/B boot loader and of two test-harness protocols

This project models three parts of the repository in Dafny and proves properties of them.

**The A/B boot loader** (`brillo_uefi_x86_64/boot_loader`), as a stack whose proofs compose upwards:

- `Crc32`, `Crc32Bursts` over `LinearRegister`: the table-driven CRC-32, its equality with the bit-serial
  definition of section 8 of RFC 1952, and what it detects. `LinearRegister` holds the laws of linear
  feedback registers over an abstract word; `Crc32` instantiates them with 32-bit words.
- `Ucs2`: the UTF-8 to UCS-2 decoder against an encoder for section 3 of RFC 3629.
- `Gpt`: finding a partition by name. `PartitionIO`: named reads and writes on one flat disk, in the source's
  unsigned 64-bit arithmetic. `Volumes`: these refine one independent byte array for each partition.
- `AbRecord`: the 64-byte record in memory and on disk. `AbFlow`: one call of the slot choice or of the slot
  invalidation as a function of the misc partition and of which accesses fail. `AbControl`: the same calls on
  mutable structs and the flat disk, proved against `AbFlow`. `AbRuns`: unbounded sequences of calls.
- `BootKernel`: the checks and the two reads of one boot attempt. `EfiMain`: the loop that chooses, boots and
  invalidates. `MiscImage`: the host tool that makes the first misc image, a second producer of records.

**The TSYNC handshake** (`pts/seccomp/seccomp_bpf.c`), in `Tsync`: a parent and any number of siblings sharing a
semaphore, a mutex, a condition variable and wait counts, as a step relation over every interleaving.

**The test registration list** (`pts/seccomp/test_harness.h`), in `TestList`: heap nodes linked in place.

`Common` has the few inductions shared by the runs. The theorems of `AbRuns` and `EfiMain` hold for every record
format with the two laws of `AbFlow.Lawful`; `AbFlow.BootCodecLawful` proves that the boot loader's format is one.

## Where the source and its documentation disagree

The code is followed in each case.

- The CRC covers all 64 bytes with the CRC field zeroed (`bub_ab_flow.c:178-179`, `199-200`); `bub_ab_flow.h:75` says
  the 60 bytes before it.
- `bub_ab_mark_as_invalid` returns 1 for a good write and 0 for a failed one. `bub_ab_flow.h:109` documents the
  opposite, `bub_ab_flow_unittest.cc:421` expects the code's polarity, and `bub_main.c:59` aborts on nonzero. The
  model gives the function a result datatype and has the loop both as intended (abort unless marked), which is
  what terminates, and as written, which aborts after every successful invalidation and goes on after a failed one.
  As written it is certain to end exactly when the disk it starts from has no successful slot
  (`EfiMain.AsWrittenEndsIff`).
- A positive offset beyond the end of a partition makes an unsigned subtraction wrap (`bub_ops_uefi.c:56`, `:112`)
  where `bub_ops.h:65-66` promises a range error. `Volumes.StaysInsideIff` and `Volumes.RangeErrorsIff` give the exact
  conditions; the calls the boot loader makes on partitions as large as a boot header meet them (`BootKernel.ReadsStay`).
- The size of a partition leaves out its last block, which the table counts in (section 5.3.3 of the UEFI
  specification). This is safe; the byte arrays of `Volumes` end where the code's size ends.
- The page-size check subtracts the header size from the partition size without a check of its own, so it passes
  everything on partitions smaller than a header.
- A kernel read cut short by the end of the partition is not noticed: the firmware is given the size from the header.
- `set_slots_from_tokens` says it needs exactly six values but ignores any that follow.
- The name compare spans twice the UTF-8 length, so it reaches past the terminator of a non-ASCII name;
  `Gpt.PaddingMatters` shows a miss and `Gpt.LookupIsByNameIff` says exactly when there is none.
- The two-phase handshake depends on condition waits not ending unasked, which POSIX allows them to do;
  `Tsync.HoldWorksIff` says that it depends on nothing else. The invariant, termination,
  mutual exclusion and the release after a broadcast are proved with spurious wakeups allowed.

## Model

| member | source | states |
|---|---|---|
| Crc32.BubCrc32 | brillo_uefi_x86_64/boot_loader/bub_crc32.c:101-110 | for every seed and buffer the table loop returns the bit-serial CRC-32: invert, eight shift/xor steps of polynomial 0xEDB88320 per byte, invert |
| Crc32.TableEntry | brillo_uefi_x86_64/boot_loader/bub_crc32.c:48-93 | each of the 256 entries of the source's table is eight feedback steps of its index |
| Crc32.StepIsLinear | brillo_uefi_x86_64/boot_loader/bub_crc32.c:28-39 | the bit step commutes with exclusive or, which is what makes one lookup per byte enough |
| Crc32.CrcContinues | brillo_uefi_x86_64/boot_loader/bub_crc32.c:101-110 | passing the CRC of a first part as the seed for the second gives the CRC of the whole |
| Crc32.CrcOfZeroByte | brillo_uefi_x86_64/boot_loader/bub_crc32.c:101-110 | the CRC of one zero byte from seed 0 is 0xD202EF8D, which depends on both inversions |
| Crc32.Residue | brillo_uefi_x86_64/boot_loader/bub_crc32.c:101-110 | for every seed and buffer, the buffer followed by its CRC, lowest byte first, has the CRC 0x2144DF1C |
| Crc32Bursts.RegisterIsSerial | brillo_uefi_x86_64/boot_loader/bub_crc32.c:106-108 | the byte register is the register fed one bit at a time, least significant bit of each byte first |
| Crc32Bursts.SameCrcIff | brillo_uefi_x86_64/boot_loader/bub_crc32.c:101-110 | two buffers of one length have equal CRCs, under any seed, if and only if their bitwise difference alone takes a zero register to zero |
| Crc32Bursts.BurstDetected | brillo_uefi_x86_64/boot_loader/bub_crc32.c:48-110 | two different buffers of any one length whose differing bits lie within 32 consecutive bits have different CRCs under every seed |
| Crc32Bursts.BurstOf33Missed | brillo_uefi_x86_64/boot_loader/bub_crc32.c:48-110 | the bound is tight: a concrete difference of 33 consecutive bits goes unseen under every seed |
| Ucs2.Utf8ToUcs2 | brillo_uefi_x86_64/boot_loader/bub_util.c:19-50 | on every input that does not run past its own end the loop terminates, reads inside the input, fails exactly when the decoder meets a lead byte it cannot represent, and writes the decoded units and nothing else |
| Ucs2.LeadBytes | brillo_uefi_x86_64/boot_loader/bub_util.c:27-46 | which bytes start a character of one, two or three bytes and which are refused, as ranges of byte values |
| Ucs2.UnitOfBytes | brillo_uefi_x86_64/boot_loader/bub_util.c:29-43 | the code unit made of any bytes, in arithmetic: the high bits of continuation bytes are ignored |
| Ucs2.FailureIff | brillo_uefi_x86_64/boot_loader/bub_util.c:27-48 | on a terminated input, malformed or not, the decoder fails if and only if it comes, before the end, to a continuation byte or a byte from 0xF0 on where a character should start |
| Ucs2.OverrunIff | brillo_uefi_x86_64/boot_loader/bub_util.c:27-48 | on a terminated input the decoder reads past the end if and only if it comes to the last byte before the terminator and finds a three-byte lead there |
| Ucs2.SafeLastByte | brillo_uefi_x86_64/boot_loader/bub_util.c:27-48 | a name whose last byte is no three-byte lead is never read past its end, however malformed it is |
| Ucs2.TruncatedNameOverruns | brillo_uefi_x86_64/boot_loader/bub_util.c:29-34 | a concrete malformed name that is read past its end |
| Ucs2.DecodeEncoded | brillo_uefi_x86_64/boot_loader/bub_util.c:23-49 | for every sequence of code points, decoding its NUL-terminated UTF-8 fails exactly when some code point lies outside the BMP and yields exactly the units of those before it |
| Ucs2.UnitsBound | brillo_uefi_x86_64/boot_loader/bub_util.c:23-48 | at most one code unit per input byte is written, terminator not counted, for arbitrary bytes |
| Ucs2.ConvertedName | brillo_uefi_x86_64/boot_loader/bub_util.c:19-60 | a NUL-free BMP name converted into a zeroed buffer reads back as exactly its code units followed by zeros |
| Ucs2.ConversionInjective | brillo_uefi_x86_64/boot_loader/bub_util.c:19-60 | two names with the same code units are the same name |
| Gpt.PartitionEntryByName | brillo_uefi_x86_64/boot_loader/bub_boot_kernel.c:408-479 | the search loop returns the first entry passing the length test and byte compare, or nothing; nothing too when the table cannot be read |
| Gpt.MatchesIff | brillo_uefi_x86_64/boot_loader/bub_boot_kernel.c:459-463 | for every name that is short enough to compare or too long for any entry, the two tests together hold exactly when the names are equal and the field is zero as far as the compare reaches past its terminator |
| Gpt.LookupIsByNameIff | brillo_uefi_x86_64/boot_loader/bub_boot_kernel.c:408-479 | the lookup returns the first entry of that name, and none when there is none, if and only if the first entry of that name (if any) is zero as far as the compare reaches past its terminator |
| Gpt.LookupIsByName | brillo_uefi_x86_64/boot_loader/bub_boot_kernel.c:408-479 | so the lookup is by name for ASCII names of any length in every table, and for other names in zero-padded tables |
| Gpt.PaddingMatters | brillo_uefi_x86_64/boot_loader/bub_boot_kernel.c:459-463 | a concrete non-ASCII name present in a table without zero padding that the lookup misses |
| Gpt.UnrepresentableNotFound | brillo_uefi_x86_64/boot_loader/bub_boot_kernel.c:418-428 | a name with a code point outside the BMP is found in no table |
| PartitionIO.Disk.ReadFromPartition | brillo_uefi_x86_64/boot_loader/bub_ops_uefi.c:22-78 | result, count and buffer are those of the flat-disk read with 64-bit wrap-around, the count keeping its old value on errors before the device access; bytes of the buffer beyond the data are untouched |
| PartitionIO.Disk.WriteToPartition | brillo_uefi_x86_64/boot_loader/bub_ops_uefi.c:80-135 | result and whole disk are those of the flat-disk write: all of the data or an unchanged disk |
| Volumes.ReadRefines | brillo_uefi_x86_64/boot_loader/bub_ops_uefi.c:43-68 | with the offset not beyond the end, a read by name is a read of that entry's own byte array: min(requested, size - offset) bytes |
| Volumes.WriteRefines | brillo_uefi_x86_64/boot_loader/bub_ops_uefi.c:99-134 | with the offset not beyond the end, a write by name is a write to that entry's own byte array and leaves every other entry's bytes alone |
| Volumes.WriteConfined | brillo_uefi_x86_64/boot_loader/bub_ops_uefi.c:99-134 | such a write changes no byte of the disk outside the partition, whether or not another entry owns it |
| Volumes.NamedReadBack | brillo_uefi_x86_64/boot_loader/bub_ops.h:57-96 | on the disk, after a named write that succeeded a named read of the same range returns the data |
| Volumes.ReadResultMeans | brillo_uefi_x86_64/boot_loader/bub_ops_uefi.c:37-77 | each result of a named read on the disk has exactly one cause, and a successful one brings min(requested, size - offset) bytes |
| Volumes.WriteResultMeans | brillo_uefi_x86_64/boot_loader/bub_ops_uefi.c:93-134 | each result of a named write on the disk has exactly one cause, and every error leaves the disk as it was |
| Volumes.OtherUnchanged | brillo_uefi_x86_64/boot_loader/bub_ops.h:57-96 | on the disk, a read of one partition returns the same before and after a write to another |
| Volumes.RunRefines | brillo_uefi_x86_64/boot_loader/bub_ops_uefi.c:22-135 | any sequence of named reads and writes, each with its own faults, shows on the flat disk exactly what it shows on independent byte arrays |
| Volumes.StaysInsideIff | brillo_uefi_x86_64/boot_loader/bub_ops.h:57-96 | no byte outside the partition is asked for if and only if the offset is not beyond the end or nothing is asked for; the code's unsigned subtraction wraps otherwise |
| Volumes.RangeErrorsIff | brillo_uefi_x86_64/boot_loader/bub_ops.h:57-96 | the range error is given for exactly the requests documented, empty ones included, if and only if the offset is not beyond the end |
| Volumes.SizeIsEndMinusStart | brillo_uefi_x86_64/boot_loader/bub_boot_kernel.h:82-83 | the computed size is (last - first) blocks, leaving out the last block though the table's last block is inclusive |
| AbRecord.Be32Involution | brillo_uefi_x86_64/boot_loader/bub_util.c:62-73 | the big-endian conversion undoes itself |
| AbRecord.UnpackPacked | brillo_uefi_x86_64/boot_loader/bub_ab_flow.h:46-56 | the 4+3+1-bit flag byte gives back priority, tries and success |
| AbRecord.PackUnpacked | brillo_uefi_x86_64/boot_loader/bub_ab_flow.h:46-56 | every flag byte is the packing of what it unpacks to |
| AbRecord.RoundTrip | brillo_uefi_x86_64/boot_loader/bub_ab_flow.c:160-212 | the 64 bytes written for a record with the right magic are accepted, and give the record unchanged with its CRC filled in |
| AbRecord.AcceptedIsWritten | brillo_uefi_x86_64/boot_loader/bub_ab_flow.c:172-185 | 64 bytes are accepted only if they are exactly what writing the accepted record produces |
| AbRecord.FlagsNumber | brillo_uefi_x86_64/boot_loader/bub_ab_flow.h:46-56 | the flag byte is priority + 16 * tries + 128 * success |
| AbRecord.DiskLayout | brillo_uefi_x86_64/boot_loader/bub_ab_flow.h:62-77 | the bytes written, place by place: magic, version, one flag byte and seven reserved bytes for each slot, and last the CRC of the 60 bytes and four zeros, highest byte first |
| AbRecord.AcceptIff | brillo_uefi_x86_64/boot_loader/bub_ab_flow.c:172-182 | 64 bytes are accepted if and only if they start with "BUEF" and end with that CRC, highest byte first; the record made of them has its fields at their places |
| AbRecord.BurstRejected | brillo_uefi_x86_64/boot_loader/bub_ab_flow.c:172-182 | 64 bytes that differ from a written record by a nonempty burst of at most 32 bits in the first 60 bytes are not accepted |
| AbRecord.CrcChangeRejected | brillo_uefi_x86_64/boot_loader/bub_ab_flow.c:177-182 | 64 bytes that differ from a written record only in the four CRC bytes are not accepted |
| AbFlow.BootCodecLawful | brillo_uefi_x86_64/boot_loader/bub_ab_flow.c:160-212 | the record format of the boot loader has the two laws the run theorems need: written records are read back, accepted ones carry the magic |
| AbFlow.WrittenIsRead | brillo_uefi_x86_64/boot_loader/bub_ab_flow.c:160-212 | a record with the right magic written to a misc partition is read back OK, unchanged but for its CRC filled in, and the rest of the partition is kept |
| AbFlow.CorruptionReported | brillo_uefi_x86_64/boot_loader/bub_ab_flow.c:160-188 | a misc partition whose written record has suffered either corruption is reported as INVALID_METADATA by every call whose read works |
| AbControl.DiskRoundTrip | brillo_uefi_x86_64/boot_loader/bub_ab_flow.c:160-212 | on the flat disk, a successful write of a record followed by a read returns its image, which is accepted as that record |
| AbControl.WriteThenRead | brillo_uefi_x86_64/boot_loader/bub_ab_flow.c:160-212 | what the write method leaves on disk is what the read method then finds |
| AbControl.SlotData.Normalize | brillo_uefi_x86_64/boot_loader/bub_ab_flow.c:23-39 | the slot in memory becomes its normal form, and a change is reported exactly when there was one |
| AbControl.AbControl.ReadAbData | brillo_uefi_x86_64/boot_loader/bub_ab_flow.c:160-188 | unreadable, invalid or the accepted record, from the misc partition on the flat disk |
| AbControl.AbControl.WriteAbData | brillo_uefi_x86_64/boot_loader/bub_ab_flow.c:190-212 | the record's disk image replaces the first 64 bytes of misc or nothing changes; no byte outside misc changes |
| AbControl.AbControl.ResetMetadata | brillo_uefi_x86_64/boot_loader/bub_ab_flow.c:45-59 | the reset record (priority 15, seven tries, both slots) is what is written |
| AbControl.AbControl.Select | brillo_uefi_x86_64/boot_loader/bub_ab_flow.c:86-121 | both slots are normalized, the higher priority bootable slot chosen with A winning ties, one of its tries spent; a write is due exactly when the slots changed |
| AbControl.AbControl.BubAbFlow | brillo_uefi_x86_64/boot_loader/bub_ab_flow.c:61-131 | one call on the disk is one step of the slot machine on misc: same result, same suffix, same new misc bytes, nothing else on the disk changed |
| AbControl.AbControl.BubAbMarkAsInvalid | brillo_uefi_x86_64/boot_loader/bub_ab_flow.c:133-158 | the named slot is zeroed on disk, or the reason why not is returned; nothing outside misc changes |
| AbRuns.StepKeepsRecord | brillo_uefi_x86_64/boot_loader/bub_ab_flow.c:75-130 | a call on a valid record never reports invalid metadata, leaves the old record or its target on disk, and answers OK or no-valid-slots only with the target on disk |
| AbRuns.ChosenIsBest | brillo_uefi_x86_64/boot_loader/bub_ab_flow.c:86-107 | a slot handed out has priority and either tries or success; if the other slot does too, its priority is lower, or equal and the slot is A |
| AbRuns.ResultMeans | brillo_uefi_x86_64/boot_loader/bub_ab_flow.c:61-131 | the result of a call in every case, from the record held and the faults: unreadable, invalid, a write due that fails, a bootable slot, none; the slot given is the best one |
| AbRuns.DiskMeans | brillo_uefi_x86_64/boot_loader/bub_ab_flow.c:23-131 | what a finished call makes of each field of each slot on disk, unbootable slots zeroed, contradictory success cleared, one try of the chosen slot spent; nothing changes on read or write errors |
| AbRuns.ResetHandsOutA | brillo_uefi_x86_64/boot_loader/bub_ab_flow.c:45-59 | after a reset both slots have priority 15 and seven tries, and the next choice hands out slot A |
| AbRuns.MarkMeans | brillo_uefi_x86_64/boot_loader/bub_ab_flow.c:133-158 | the result of marking in every case, and the named slot zeroed exactly on success |
| AbRuns.MarkKeepsRecord | brillo_uefi_x86_64/boot_loader/bub_ab_flow.c:133-158 | marking never loses a valid record: it clears the slot named, when it reports so, or leaves the disk as it was |
| AbRuns.HandoutIsRecorded | brillo_uefi_x86_64/boot_loader/bub_ab_flow.c:116-130 | a slot with tries left is handed out only after the record with one try less is on disk |
| AbRuns.TriesNeverOverspent | brillo_uefi_x86_64/boot_loader/bub_ab_flow.c:45-158 | over any run of slot choices and invalidations from any bytes with any failures, untried hand-outs plus tries on disk never exceed the starting tries, at most 14 |
| AbRuns.InvalidNeverRecurs | brillo_uefi_x86_64/boot_loader/bub_ab_flow.c:75-143 | once any call of either kind has changed the disk no later call of the run reports invalid metadata |
| AbRuns.SuccessfulSurvives | brillo_uefi_x86_64/boot_loader/bub_ab_flow.c:23-158 | under any failures no run of calls alters a successful slot it does not itself mark invalid, and no choice after it reports no valid slot or invalid metadata |
| AbRuns.EveryRunSettles | brillo_uefi_x86_64/boot_loader/bub_ab_flow.c:61-131 | with working I/O, within one reset plus the recorded tries every boot has one answer forever, either no valid slot or the same slot, which is a successful one at every later boot; from the next boot on nothing is written |
| AbRuns.SettledOnSuccessful | brillo_uefi_x86_64/boot_loader/bub_ab_flow.c:96-130 | the slot a settled disk keeps answering is a successful one |
| AbRuns.FallbackAfterTries | brillo_uefi_x86_64/boot_loader/bub_ab_flow.c:23-130 | a preferred slot with t tries is booted exactly t times and the successful slot at every later boot |
| BootKernel.BubBootKernel | brillo_uefi_x86_64/boot_loader/bub_boot_kernel.c:523-640 | result and kernel bytes of an attempt, through every check and failure in order |
| BootKernel.ResultMeans | brillo_uefi_x86_64/boot_loader/bub_boot_kernel.c:523-645 | on every partition in the table each result has exactly one cause, in bytes and little-endian numbers of the header: the format is bad exactly when the magic is missing, the kernel size exceeds the partition or the page size exceeds the rest after a header; the boot is OK exactly when nothing fails |
| BootKernel.FourByteNumber | brillo_uefi_x86_64/boot_loader/bub_boot_kernel.c:591-596 | a 32-bit header field is its four bytes, lowest first |
| BootKernel.ReadsStay | brillo_uefi_x86_64/boot_loader/bub_boot_kernel.c:541-619 | on partitions as large as a header, passing the checks makes both reads stay in the partition; the second moves min(kernel size, size - page size) bytes |
| BootKernel.KernelReadStaysIff | brillo_uefi_x86_64/boot_loader/bub_boot_kernel.c:590-619 | on any partition, after the checks, the kernel read stays inside if and only if the page size is not beyond the end or the kernel is empty |
| BootKernel.SmallPartitionPasses | brillo_uefi_x86_64/boot_loader/bub_boot_kernel.c:595-599 | on partitions smaller than a header the page-size check wraps and lets every page size through |
| BootKernel.KernelIsOfPartition | brillo_uefi_x86_64/boot_loader/bub_boot_kernel.c:523-629 | the kernel handed to the firmware is the partition's own bytes, from the number at byte 36 on and as many as the number at byte 8 says; it is complete exactly when the two together fit the partition |
| EfiMain.IntendedLoopEnds | brillo_uefi_x86_64/boot_loader/bub_main.c:48-66 | as intended, the loop ends within three slot selections for every disk, failure and boot outcome, and attempts each slot at most once |
| EfiMain.TurnMeans | brillo_uefi_x86_64/boot_loader/bub_main.c:49-66 | how a turn ends in every case, as written and as intended: the slot attempted is the best one held, the loop is left with success exactly when it booted, and every other end has its own cause |
| EfiMain.TurnLeaves | brillo_uefi_x86_64/boot_loader/bub_main.c:49-61 | a turn leaves on misc what the choice left, but that a slot attempted with a bad format is cleared when its marking works |
| EfiMain.LoopEndMeans | brillo_uefi_x86_64/boot_loader/bub_main.c:48-68 | the end of a whole run means what its last turn made it: booted exactly when the slot attempted last booted |
| EfiMain.BootNames | brillo_uefi_x86_64/boot_loader/bub_main.c:38-53 | the partitions of the slots are "boot_a" for A and "boot_b" for B |
| EfiMain.BadFormatLowersBootable | brillo_uefi_x86_64/boot_loader/bub_main.c:55-61 | as intended, a turn followed by another strictly lowers the number of bootable slots on disk |
| EfiMain.AsWrittenGoesOnIff | brillo_uefi_x86_64/boot_loader/bub_main.c:55-66 | as written, the loop goes on after a turn if and only if the record is readable and names a bootable slot, the write the choice needs is made, the format is bad, and marking can be read but not written |
| EfiMain.AsWrittenMayRunForever | brillo_uefi_x86_64/boot_loader/bub_main.c:48-66 | as written, from every disk with a successful slot there are runs of any length, attempting a slot in each turn |
| EfiMain.AsWrittenEndsIff | brillo_uefi_x86_64/boot_loader/bub_main.c:48-66 | as written, the loop is certain to end if and only if the disk it starts from has no successful slot, and then within as many turns as there are tries on it |
| EfiMain.TurnOnce | brillo_uefi_x86_64/boot_loader/bub_main.c:49-64 | one turn on the disk, as written or as intended, is one turn of the loop model, its boot result coming from the disk it found |
| EfiMain.RunLoop | brillo_uefi_x86_64/boot_loader/bub_main.c:48-68 | the loop on the disk, as written or as intended, followed for a given number of turns, is a run of the loop model that changes only misc, and its end has the cause in the last turn; as intended it has ended after three turns with at most two different slots attempted, as written after one turn more than the tries of a disk without a successful slot |
| MiscImage.SetSlotsFromTokens | brillo_uefi_x86_64/make_misc_image/make_misc_image.cc:32-66 | succeeds exactly when the first six tokens are integers within 15, 7, 1, 15, 7, 1, and then both slots carry them |
| MiscImage.UsableIff | brillo_uefi_x86_64/make_misc_image/make_misc_image.cc:36-63 | six tokens are usable if and only if they spell the attributes of two slots: 4-bit priority, 3-bit tries, and 1 or 0 for success |
| MiscImage.WriteAbMetadata | brillo_uefi_x86_64/boot_loader/bub_image_util.cc:128-146 | whatever the struct held before, it becomes the record of these six attributes and this magic, all reserved bytes zero |
| MiscImage.MakeMetadataImage | brillo_uefi_x86_64/boot_loader/bub_image_util.cc:148-166 | the image built byte by byte is the one the boot loader itself would write for that record |
| MiscImage.MakeMiscImage | brillo_uefi_x86_64/make_misc_image/make_misc_image.cc:90-105 | the image of two slots is the boot loader's own disk image of the record that has their attributes |
| MiscImage.GeneratedImageHeld | brillo_uefi_x86_64/make_misc_image/make_misc_image.cc:90-105 | the boot loader accepts every misc partition that starts with a generated image, with the attributes asked for, and never resets it on the first call |
| MiscImage.GeneratedBytes | brillo_uefi_x86_64/boot_loader/bub_image_util.cc:128-166 | the bytes of a generated image at their places: "BUEF", version 1.0, the flag bytes, zeros, and the CRC highest byte first |
| Tsync.StepKeeps | pts/seccomp/seccomp_bpf.c:1703-1790 | every step of every thread keeps the invariant relating program counters, wait counts, mutex owner and semaphore |
| Tsync.EveryRunFinishes | pts/seccomp/seccomp_bpf.c:1703-1790 | every interleaving of any number of siblings is finite, and one that cannot go on has all joins done and every sibling exited; spurious wakeups are never needed |
| Tsync.NoDeadlock | pts/seccomp/seccomp_bpf.c:1773-1789 | in every state the invariant allows, some thread can move unless all have finished |
| Tsync.StepLowersMeasure | pts/seccomp/seccomp_bpf.c:1722-1725 | every step, spurious wakeups included, lowers one natural number made of program counters and wait counts |
| Tsync.MutualExclusion | pts/seccomp/seccomp_bpf.c:1710-1726 | at most one thread is where it holds the mutex |
| Tsync.NoBroadcastLost | pts/seccomp/seccomp_bpf.c:1773-1783 | when the parent broadcasts every sibling is waiting, woken or finished, and every post has been taken |
| Tsync.WaitsNeverNegative | pts/seccomp/seccomp_bpf.c:1722-1725 | no wait count is ever below zero |
| Tsync.HeldUntilSecondBroadcast | pts/seccomp/seccomp_bpf.c:1986-2019 | without spurious wakeups a sibling held for the second phase never leaves its loop before the second broadcast |
| Tsync.ReleasedLeaves | pts/seccomp/seccomp_bpf.c:2012-2024 | after the broadcast meant for it a sibling never waits again, whether or not it ran between the two |
| Tsync.FailureReported | pts/seccomp/seccomp_bpf.c:1711-1721 | a sibling exits with the failure status if and only if it is diverging and its prctl failed in this run |
| Tsync.SpuriousWakeupBreaksHold | pts/seccomp/seccomp_bpf.c:1722-1725 | in every configuration that allows spurious wakeups, any sibling has a run in which it exits before any broadcast |
| Tsync.HoldWorksIff | pts/seccomp/seccomp_bpf.c:1986-2024 | in every configuration a held sibling stays in its loop until the second broadcast in all interleavings if and only if waits do not end unasked |
| TestList.Harness.RegisterTest | pts/seccomp/test_harness.h:424-445 | registering appends in forward order and prepends otherwise, keeping the links: next a chain, prev circular in forward mode only |
| TestList.RunConstructors | pts/seccomp/test_harness.h:299-305 | either order of constructors leaves the tests in source order |
| TestList.NextVisitsAll | pts/seccomp/test_harness.h:406-445 | following next from the head visits each test once, in order, and then ends |
| TestList.Harness.TestHarnessRun | pts/seccomp/test_harness.h:506-528 | every test is run and counted; the return value is 0 exactly when all counted tests passed |
| TestList.AllPassedIff | pts/seccomp/test_harness.h:517-524 | the pass count equals the count if and only if every test passed |
| TestList.CountIsCardinality | pts/seccomp/test_harness.h:517-524 | the pass count is the number of tests that passed |

## Left out

- UEFI services: `LoadImage`, `StartImage`, `LoadParameters`, pools, `CalculateCrc` and the device-path walk are foreign
  code; a boot attempt takes what they answer as an input, and a failed device access as a fault.
- Torn writes: a write the device reports as failed leaves the disk as it was, and a failed read leaves the caller's
  buffer as it was.
- The partition table is kept apart from the disk bytes and does not change; its blocks are not among them.
- Gpt.PartitionEntryByName: requires at most 128 entries and each name terminated within its field, and of the name sought
  that it is rejected by the decoder, has at most 36 bytes, or has at least 36 code units; what the source's 8-bit index
  and its reads from one entry on into the next would do otherwise is not modelled.
- Ucs2.Utf8ToUcs2: requires input that does not make the decoder read past its end; `Ucs2.OverrunIff` says which terminated
  inputs do. What is then read is not modelled. The 32-bit indices of the source do not wrap for inputs under 4 GiB and
  are unbounded here.
- Crc32.BubCrc32: the length is that of the buffer; a negative size argument is not modelled.
- PartitionIO.Disk.ReadFromPartition: offsets are integers, so negating the smallest 64-bit offset is not modelled.
- AbControl.AbControl.BubAbFlow: the precondition that the suffix buffer has three bytes is met by returning exactly three.
- BootKernel.BubBootKernel: allocation failures are one input each; that its pools are never freed is not modelled.
- EfiMain.RunLoop: follows the loop for a given number of turns, because as written it need not end.
- MiscImage.SetSlotsFromTokens: starts from tokens already parsed as integers or not; the tokenizer, the command line and
  the file written are left out.
- Tsync.EveryRunFinishes: whether a diverging sibling's `prctl` fails is an input; what seccomp does to the threads, their
  exit statuses, thread-creation failures and the polling for thread death after a join are left out.
- TestList.Harness.TestHarnessRun: the verdict of each forked test is an input; the printing and the abort path are left out.
- TestList.Harness.ConstructorOrderFirst: requires the order flag to be set before a second test is registered, as the two
  constructors of the harness see to.
- `bub_be64toh`, debug printing, teardown of fixtures, the audio, sensor and wifi tests, policy files and build files: nothing
  hard to state about them.
