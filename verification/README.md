# Verified model of the disk-clone and boot-repair core

This project models the parts of the tool that decide what is written to a disk, to the firmware and to the EFI
system partition, and proves what those parts are for. Everything is stated for all inputs, all runs and all
answers of the outside world; `dafny verify dfyconfig.toml` checks the whole project.

## What is modelled

- **GPT tables** (`gpt*.dfy`, `crc32.dfy`, `polynomial.dfy`, `machine_word.dfy`): the parser and printer of
  protective MBR, headers and entry arrays, byte by byte (sections 5.2.3, 5.3.2 and 5.3.3 of UEFI 2.10), the
  CRC-32 loop on machine words (section 8 of RFC 1952), and the two planners. A disk is an array of bytes, a
  write changes it in place, and a crash stops after any prefix of the writes, possibly in the middle of one.
  Main results: `GptStore.AcceptedExactly`, `GptPlan.FreshTargetFills`, `GptCrash.FreshRoundTrip`,
  `GptCrash.FreshCommitsLast`, `GptAtomic.AddPartitionIsAtomic`, `GptDamage.HeaderBurstRejected`,
  `Crc32.ChecksumIsPolynomialRemainder`.
- **MBR to GPT** (`mbr2gpt_*.dfy`): source validation, layout arithmetic in 64 bits, the metadata planner, the
  independent cross-check and the list of build steps. Main results: `Mbr2GptPlanner.AcceptedLayoutSound`,
  `Mbr2GptTerms.RebuildAccepted`, `Mbr2GptExecution.StepsInOrder` and the end-to-end theorem
  `Mbr2GptExecution.RebuildFitsTogether`.
- **Removing third-party EFI directories** (`efi_*.dfy`): the review of an observation, the canonical manifest
  and the bytes of its digest, the quarantine-rebuild-delete-commit transaction with a rollback at every failure
  point, and the recursive scan and deletion of a directory tree. Main results: `EfiDeleteRun.ExecuteEfiDelete` and
  `EfiDeleteRun.OutcomeFollows` with the lemmas of `EfiDelete`, `EfiReview.ReviewIgnoresOrder`, `EfiManifest.MaterialIsUnique`,
  `EfiTreeRun.DeleteCandidate`.
- **Firmware boot entries** (`nvram_*.dfy`): the boot order and load option codecs (sections 3.1.3, 10.3.5.1 and
  10.3.5.4 of UEFI 2.10) and the repair transaction over a store with compare and swap. Main results:
  `NvramRepair.RepairCurrentPc`, `NvramRepair.RepairTwice`, `NvramCodec.AlignedOptionMatches`.
- **Boot store and command line** (`bcd_store.dfy`, `command_line.dfy`): the transaction around BCDBoot for one and
  for several installations, and the quoting of its arguments against the decoding rules of the Microsoft C runtime.
- **New system partition** (`system_partition*.dfy`): review, shrink, create, verification and rollback.
- **Registry hive** (`hive*.dfy`): validation of hostile bytes, binary search for cells, the index walk. Main result:
  `HiveBytes.HiveExactly`, which describes the accepted hives by their bytes alone.
- **Log in memory** (`ram_log.dfy`): the bounded router with its sink.

What lies outside is a class whose calls may fail at any time: the answers are arbitrary functions or scripts, and
the contract of the interface is written as the contract of the class. A digest is an arbitrary function of bytes,
a locale's lower-casing an arbitrary function of one character. The standard library's sort is an insertion sort
on values, because the source only relies on the order of its result.

A method models what the source does step by step and is proved equal to a specification function, or is proved to
establish the state that its contract names; the lemmas then say what the specification means. Where a format or a
set of rules decides, the specification is compared with a second description that does not use it: bytes at their
offsets (`HiveBytes`, `GptStore.AcceptedExactly`, `NvramCodec.MatchExactly`), rules in numbers
(`Mbr2GptTerms.RebuildAccepted`, `SystemPartition.ReviewAccepts`, `NvramRepair.ValidRequests`), or the answers of the
calls (`EfiDeleteRun.OutcomeFrom`, `SystemPartitionRun.RunFrom`, `BcdStore.Deserved`).

## What the proofs found

- A GPT addition accepts names that contain a NUL. The part behind the NUL is lost, and the stored table differs from
  the planned one exactly then (`GptAtomic.AddedAsPlanned`, `GptAtomic.NameWithNulIsCut`).
- The metadata planner rejects exactly those layouts of the rebuild planner that have more than 128 partitions
  (`Mbr2GptMetadata.PlannedLayoutHasTable`). The final capacity guard of the rebuild planner is never reached
  (`Mbr2GptPlanner.FitToTarget`).
- A clean rollback of the EFI deletion is never reported under the Windows adapter: its quarantine removal demands
  that all candidates are deleted (`EfiDelete.RolledBackUnreachable`). The outcome for an incomplete finalization is
  never produced (`EfiDeleteRun.ExecuteEfiDelete`).
- Load options compare whole sectors, so that partitions with a different unaligned start match each other
  (`NvramCodec.BuiltOptionMatches`, `NvramCodec.UnalignedOptionsCollide`).
- Quoted arguments arrive unchanged exactly when none of them contains a NUL
  (`CommandLine.ArgumentsArriveUnlessNul`).
- When the file that was moved to the backup path cannot be observed, the boot store transaction moves it back under
  its old identity. That works if and only if the rename left the compared metadata as they were
  (`BcdStore.MoveAside`); otherwise the prior store stays at the backup path and the boot store path is empty
  (`BcdStore.StaleIdentityIsRefused`). No other single fault of a look, a check or a run leaves a rollback incomplete
  (`BcdStore.OneFaultIsUndone`), and in no case is the prior store lost.
- A move aside that reports a failure is not undone, although the move may have happened
  (`BcdStore.HalfMovedIsLeft`).
- The boot entry repair adds a number to an order of 4096 entries, cannot read the longer order back, and undoes it.
  Such variables are never repaired, although a free number is found (`NvramRepair.FullOrderNotRepairable`); with
  working calls, the repairable variables are exactly those described by `NvramRepair.ScannedOnce`.

## Model

| member | source | states |
|---|---|---|
| Polynomial.RemainderDivides | src/CloneCore/src/crc32.cpp:5-16 | Long division by the CRC-32 generator leaves a true remainder: some quotient times the generator, plus it, is the dividend |
| Polynomial.RemainderIsUnique | src/CloneCore/src/crc32.cpp:5-16 | No other polynomial of degree below 32 is a remainder, so the remainder form defines the checksum |
| Polynomial.FeedIsRemainder | src/CloneCore/src/crc32.cpp:7-14 | Shifting a message through the register, bit by bit, leaves the remainder of the message times x^32 with the start value added in front |
| Polynomial.FeedPreloaded | src/CloneCore/src/crc32.cpp:8-13 | Up to 32 message bits may be added to the register at once and then shifted out: the reason why a byte is exclusive-ored in before eight shifts |
| Polynomial.BurstChangesRegister | src/CloneCore/src/crc32.cpp:5-16 | Two bursts of at most 32 bits that are followed by the same bits end in different registers |
| MachineWord.WordStep | src/CloneCore/src/crc32.cpp:10-13 | The shift with the masked 0xEDB88320 on a 32-bit word is one step of the polynomial register, bit for bit |
| Crc32.ChecksumIsPolynomialRemainder | src/CloneCore/src/crc32.cpp:5-16 | For all byte strings the complemented checksum is the remainder of the message, preloaded with ones and multiplied by x^32 (section 8 of RFC 1952) |
| Crc32.BurstDetected | src/CloneCore/src/crc32.cpp:5-16 | Any two different strings of equal length that differ only within four consecutive bytes have different checksums |
| Crc32.KnownChecksum | src/CloneCore/src/crc32.cpp:5-16 | A known value: the checksum of one zero byte is 0xD202EF8D |
| Crc32.AbsorbByte | src/CloneCore/src/crc32.cpp:8-13 | The eight single-bit iterations take the register through exactly the eight bits of the byte, least significant first |
| Crc32.ComputeCrc32 | src/CloneCore/src/crc32.cpp:5-16 | The bitwise loop over 32-bit words computes the polynomial checksum of every byte string |
| GptStore.ParsedWellFormed | src/CloneCore/src/gpt.cpp:371-473 | Whatever bytes are accepted, the delivered disk is well formed: entries in ascending order, distinct identities, partitions apart and in the usable range, both arrays equal |
| GptStore.AcceptedExactly | src/CloneCore/src/gpt.cpp:371-473 | The reader delivers a disk if and only if the image holds it, field by field: protective MBR, two headers that point at each other, two equal arrays with the right checksum, partitions placed and apart |
| GptStore.SameHeaderSameDisk | src/CloneCore/src/gpt.cpp:385-473 | Two accepted images with the same primary header differ at most in their partitions |
| GptStore.StoredParses | src/CloneCore/src/gpt.cpp:371-473 | An image that holds protective MBR, headers and arrays of a storable table is accepted and decodes to that table in entry order |
| GptBuild.HeaderRoundTrip | src/CloneCore/src/gpt.cpp:298-324 | The header parser accepts every built header and reads every field back |
| GptBuild.BackFields | src/CloneCore/src/gpt.cpp:298-324 | The fields of a built header stand at the offsets of section 5.3.2 of UEFI 2.10 |
| GptBuild.EntryFields | src/CloneCore/src/gpt.cpp:268-296 | The fields of a stored entry stand at the offsets of section 5.3.3 of UEFI 2.10 |
| GptBuild.MbrRoundTrip | src/CloneCore/src/gpt.cpp:326-340 | The built protective MBR passes the check of the parser, for disks of any size |
| GptBuild.MbrProtects | src/CloneCore/src/gpt.cpp:326-340 | The one record of the protective MBR covers the disk from sector 1 to its end, or as far as 32 bits reach; every other byte but the boot signature is zero |
| GptBuild.EntryRoundTrip | src/CloneCore/src/gpt.cpp:268-296 | A stored entry is decoded to the partition with its name cut at the first NUL and at 36 code units |
| GptBuild.NameRoundTrip | src/CloneCore/src/gpt.cpp:202-213 | Decoding a padded name field gives the name up to its first NUL or the end of the field |
| GptBuild.EntriesRoundTrip | src/CloneCore/src/gpt.cpp:215-296 | Reading a built entry array back yields the partitions ordered by entry, for every placement of the entries |
| GptBuild.ByIndexAscending | src/CloneCore/src/gpt.cpp:268-296 | Partitions already in entry order whose names fit come back unchanged |
| GptBuild.ByIndexConsistent | src/CloneCore/src/gpt.cpp:215-266 | Ordering by entry keeps identities, placement and disjointness |
| GptMethods.BuildEntryArray | src/CloneCore/src/gpt.cpp:268-296 | The in-place writes into a zeroed array produce exactly the entry array: each partition at its index, zeros elsewhere |
| GptMethods.BuildHeader | src/CloneCore/src/gpt.cpp:298-324 | Field by field in place, then the checksum over the header with a zero checksum field: exactly the header sector |
| GptMethods.BuildProtectiveMbr | src/CloneCore/src/gpt.cpp:326-340 | The in-place writes produce exactly the protective MBR |
| GptMethods.WriteEntry | src/CloneCore/src/gpt.cpp:276-294 | Writing one entry changes its 128 bytes and nothing else in the array |
| GptMethods.EntriesAppended | src/CloneCore/src/gpt.cpp:268-296 | Placing one more partition in a free entry changes that entry only |
| GptRun.ReadPartitionName | src/CloneCore/src/gpt.cpp:202-213 | The loop delivers the code units up to the first NUL |
| GptRun.ParsePartitionEntries | src/CloneCore/src/gpt.cpp:215-266 | Entry loop, identity set and sorted neighbour check accept exactly the arrays whose partitions are all in range, pairwise disjoint and distinctly identified |
| GptRun.NeighboursDecide | src/CloneCore/src/gpt.cpp:249-264 | In order of the first sector, comparing neighbours decides whether all pairs are disjoint |
| GptRun.ReadTable | src/CloneCore/src/gpt.cpp:371-473 | The reader runs through MBR, headers and arrays in the order of the source and agrees with the specification on every image, accepted or not |
| GptPlan.DrawsSucceed | src/CloneCore/src/gpt.cpp:524-544 | Distinct non-zero answers of the identity generator are all accepted |
| GptPlan.DrawsExactly | src/CloneCore/src/gpt.cpp:524-544 | Drawing succeeds if and only if all answers are usable and pairwise different |
| GptPlan.DrawnGuids | src/CloneCore/src/gpt.cpp:524-544 | Drawn identities are pairwise distinct and are the generator's own answers, in order |
| GptPlan.FreshTargetWellFormed | src/CloneCore/src/gpt.cpp:475-545 | Every accepted fresh plan describes a well-formed table that fills the target exactly |
| GptPlan.FreshTargetFills | src/CloneCore/src/gpt.cpp:475-545 | Every accepted fresh plan makes the whole target usable up to the backup array and keeps everything of the source but the identities, which are the answers of the generator in order |
| GptPlan.FreshTableAccepted | src/CloneCore/src/gpt.cpp:475-545 | A table that was read is accepted for exactly the targets of whole sectors that are at least as large, with a generator that delivers |
| GptPlan.AddedTargetStorable | src/CloneCore/src/gpt.cpp:587-686 | An accepted addition keeps all old partitions and adds one in an entry that was free |
| GptPlan.AddedPartitionAccepted | src/CloneCore/src/gpt.cpp:587-686 | A table that was read takes exactly the requests that fit between its partitions, with a free entry, a type, a name of at most 36 units and a fresh identity |
| GptPlan.FreshGuidExactly | src/CloneCore/src/gpt.cpp:646-663 | The fresh identity is the first usable one of at most 32 answers, and exists if and only if such an answer comes before any failure |
| GptExecute.MakeGptWritePlan | src/CloneCore/src/gpt.cpp:475-585 | Plans exactly the specified table or fails with the same error, and emits the five writes in commit order |
| GptExecute.MakeGptAddPartitionPlan | src/CloneCore/src/gpt.cpp:587-731 | Plans exactly the specified addition or fails with the same error, and emits the four writes in commit order |
| GptExecute.DrawFreshGuid | src/CloneCore/src/gpt.cpp:646-663 | Takes the first of at most 32 answers that is neither zero nor in use |
| GptExecute.FindFreeEntry | src/CloneCore/src/gpt.cpp:631-644 | Finds the first entry without a partition, or that there is none |
| GptExecute.CheckExisting | src/CloneCore/src/gpt.cpp:613-630 | Accepts exactly when all current partitions have distinct entries and identities and lie in the usable range, and none overlaps the request |
| GptExecute.TargetDisk.Apply | src/CloneCore/src/gpt.cpp:546-584 | Carrying out the first writes in place and stopping anywhere leaves exactly that prefix applied |
| GptCrash.WritesStayApart | src/CloneCore/src/gpt.cpp:546-584 | All writes of a plan are inside the disk, pairwise disjoint, and outside the usable sectors |
| GptCrash.UsableSectorsUntouched | src/CloneCore/src/gpt.cpp:546-584 | No prefix of the writes changes a byte between the first and the last usable sector |
| GptCrash.FreshRoundTrip | src/CloneCore/src/gpt.cpp:371-585 | For every parsed source, target size and generator with an accepted plan: any image of that size, after the five writes, decodes to exactly the planned disk |
| GptCrash.WellFormedRoundTrip | src/CloneCore/src/gpt.cpp:371-585 | Every well-formed table survives being written to any image of its size |
| GptCrash.FreshCommitsLast | src/CloneCore/src/gpt.cpp:546-584 | On a target without a header signature in sector 1, no strict prefix of the five writes is accepted |
| GptCrash.MbrUntouched | src/CloneCore/src/gpt.cpp:698-730 | No prefix of an update changes the protective MBR |
| GptAtomic.AddPartitionIsAtomic | src/CloneCore/src/gpt.cpp:587-731 | After every prefix of the four writes, and even with the next write in any half-done state, the image is rejected or decodes to the old table (first write) or to the new one; all four writes give the new one |
| GptAtomic.FirstWriteRejected | src/CloneCore/src/gpt.cpp:445-456 | After the first write alone the two arrays differ, and the image is rejected without any assumption about checksums |
| GptAtomic.CommittedByHeader | src/CloneCore/src/gpt.cpp:698-731 | Before the primary header is written the new table is read only if the checksums of the two arrays collide |
| GptAtomic.ArraysDiffer | src/CloneCore/src/gpt.cpp:631-688 | The old and the new entry array differ, because the free entry's type is no longer zero |
| GptAtomic.PrimaryArrayDamaged | src/CloneCore/src/gpt.cpp:430-456 | Whatever is left in the primary array, the backup array still decides: the old table or none |
| GptAtomic.NewTable | src/CloneCore/src/gpt.cpp:587-731 | The decoded new table has every old partition in its entry and the request in the first free one |
| GptAtomic.NameKept | src/CloneCore/src/gpt.cpp:268-296 | A partition comes back from storage unchanged if and only if its name contains no NUL |
| GptAtomic.AddedAsPlanned | src/CloneCore/src/gpt.cpp:587-731 | Once all writes are done, the disk reads back the planned partition if and only if the requested name contains no NUL |
| GptAtomic.NameWithNulIsCut | src/CloneCore/src/gpt.cpp:587-731 | Whatever request is accepted is accepted with the name "A NUL B" as well; the written disk then has that partition with the name "A" |
| GptDamage.HeaderBurstRejected | src/CloneCore/src/gpt.cpp:111-163 | An accepted header sector altered within a window of four bytes, its size field intact and the window not straddling the checksum field, is rejected |
| GptDamage.DamagedPrimaryRejected | src/CloneCore/src/gpt.cpp:371-473 | The whole disk is rejected when its primary header is damaged in this way |
| Mbr2GptSource.AcceptedSources | src/BootRepair/src/mbr2gpt_layout.cpp:130-236 | A source list is accepted, in whatever order, exactly when media and platform are supported, all partitions fit and are pairwise disjoint with distinct numbers, and the role counts are right |
| Mbr2GptSource.SourceRules | src/BootRepair/src/mbr2gpt_layout.cpp:130-236 | The accepted media, platforms and partitions in numbers: 4 GiB, whole sectors, 128 partitions, primary, known role, its file system |
| Mbr2GptSource.NeighboursDecide | src/BootRepair/src/mbr2gpt_layout.cpp:130-236 | In offset order, comparing each partition with the end of its predecessor decides about every pair |
| Mbr2GptSource.ValidateAndSortSource | src/BootRepair/src/mbr2gpt_layout.cpp:130-236 | The loop with its running end and number set finds the first fault, or the sorted list |
| Mbr2GptLayout.AlignUp | src/BootRepair/src/mbr2gpt_layout.cpp:56-71 | The next multiple of one MiB, or an error exactly when that does not fit 64 bits |
| Mbr2GptPlanner.AcceptedLayoutSound | src/BootRepair/src/mbr2gpt_layout.cpp:300-553 | Every accepted layout starts at 1 MiB, is contiguous and MiB-aligned, ends at the last MiB boundary that leaves 1 MiB free, has its roles in order, and copies Windows and every data partition into at least their size; the flags say what is still to be done |
| Mbr2GptPlanner.CopiesAreDistinct | src/BootRepair/src/mbr2gpt_layout.cpp:503-537 | No source partition is copied to two places |
| Mbr2GptPlanner.SizeRecovery | src/BootRepair/src/mbr2gpt_layout.cpp:340-374 | The recovery size with overflow reported exactly when the exact sum does not fit 64 bits |
| Mbr2GptPlanner.SumRequired | src/BootRepair/src/mbr2gpt_layout.cpp:376-423 | The running checked sum is the exact total, or an overflow error exactly when that does not fit 64 bits |
| Mbr2GptPlanner.LayOut | src/BootRepair/src/mbr2gpt_layout.cpp:485-537 | The moving cursor lays out exactly the drafted partitions, one behind the other |
| Mbr2GptPlanner.FitToTarget | src/BootRepair/src/mbr2gpt_layout.cpp:425-553 | Refuses exactly when the required space exceeds the available space, and otherwise gives the whole remainder to Windows; the final capacity guard is never reached |
| Mbr2GptPlanner.CheckInPlace | src/BootRepair/src/mbr2gpt_layout.cpp:85-128 | The preview answer about an in-place conversion |
| Mbr2GptPlanner.PlanRebuildToNewTarget | src/BootRepair/src/mbr2gpt_layout.cpp:300-553 | The imperative planner agrees with the specification on every request |
| Mbr2GptTerms.RebuildAccepted | src/BootRepair/src/mbr2gpt_layout.cpp:300-553 | A request is accepted if and only if its source is sound, its recovery tools are known, and the rounded sizes of what is copied and created fit the target |
| Mbr2GptTerms.AcceptedSizes | src/BootRepair/src/mbr2gpt_layout.cpp:340-553 | The sizes of EFI, reserved and recovery partition, and when the recovery partition of the source is kept |
| Mbr2GptTerms.AcceptedNotes | src/BootRepair/src/mbr2gpt_layout.cpp:455-483 | What the plan says about the replaced system partition and about the order of the recovery partition, in terms of the source as listed |
| Mbr2GptTerms.AcceptedPreview | src/BootRepair/src/mbr2gpt_layout.cpp:85-128 | The in-place preview in terms of the source as listed: at most three partitions, one active, room at both ends |
| Mbr2GptMetadata.TableIsTemplate | src/BootRepair/src/mbr2gpt_layout.cpp:575-669 | A table that the metadata planner builds is storable and fills the target disk |
| Mbr2GptMetadata.PublishedTypes | src/CloneCore/src/gpt.cpp:342-361 | Every role has its published partition type |
| Mbr2GptMetadata.TypesTellRolesApart | src/BootRepair/src/mbr2gpt_layout.cpp:238-285 | Only Windows and data share a type, and only the recovery partition has attributes: required, no drive letter |
| Mbr2GptMetadata.PublishedNames | src/BootRepair/src/mbr2gpt_layout.cpp:254-272 | The names of the new partitions |
| Mbr2GptMetadata.PlannedLayoutHasTable | src/BootRepair/src/mbr2gpt_layout.cpp:555-669 | A layout of the rebuild planner fits a table exactly when it has at most 128 partitions |
| Mbr2GptMetadata.BuildTable | src/BootRepair/src/mbr2gpt_layout.cpp:560-669 | The partition loop accepts exactly the faultless layouts and builds their table |
| Mbr2GptMetadata.MakeMetadataPlan | src/BootRepair/src/mbr2gpt_layout.cpp:555-675 | Builds the specified table under fresh identities and its five writes, or fails with the same error |
| Mbr2GptExecution.ValidateLayoutAndMetadata | src/BootRepair/src/mbr2gpt_execution.cpp:93-212 | The independent cross-check of layout against table finds the first disagreement |
| Mbr2GptExecution.CheckEntry | src/BootRepair/src/mbr2gpt_execution.cpp:137-204 | One table entry agrees with one planned partition, given what was seen before |
| Mbr2GptExecution.CheckedAgrees | src/BootRepair/src/mbr2gpt_execution.cpp:93-212 | What the cross-check accepts agrees byte for byte: entry by entry the same place and number, own identities, the roles in order |
| Mbr2GptExecution.CheckedWrites | src/BootRepair/src/mbr2gpt_execution.cpp:44-135 | And its five writes are in commit order, not empty and inside the disk, and its entries have the type of their role |
| Mbr2GptExecution.CrossCheckAccepts | src/BootRepair/src/mbr2gpt_execution.cpp:93-212 | Whatever the metadata planner makes of a layout passes the independent cross-check, and agrees with it entry by entry |
| Mbr2GptExecution.PlannedTable | src/BootRepair/src/mbr2gpt_layout.cpp:555-675 | The planned table in numbers: 128 entries, the usable span, and for every partition its type, name, place and drawn identity |
| Mbr2GptExecution.MetadataAccepts | src/BootRepair/src/mbr2gpt_layout.cpp:555-675 | With distinct non-zero identities the metadata planner accepts a rebuild layout exactly up to 128 partitions |
| Mbr2GptExecution.RebuildFitsTogether | src/BootRepair/src/mbr2gpt_execution.cpp:93-240 | End to end: for every accepted rebuild request, at most 128 partitions decide; then metadata, cross-check and write plan all succeed, and the written image parses back to a table that matches the layout partition by partition |
| Mbr2GptExecution.PrepareExecution | src/BootRepair/src/mbr2gpt_execution.cpp:216-390 | Fails with the error of the cross-check, or delivers numbered build steps that are in order, never write to the source, and copy exactly what the layout copies |
| Mbr2GptExecution.StepsAreGuarded | src/BootRepair/src/mbr2gpt_execution.cpp:240-390 | For every layout that passed the cross-check the steps are numbered, in order, and copy exactly the copied partitions |
| Mbr2GptExecution.StepsInOrder | src/BootRepair/src/mbr2gpt_execution.cpp:240-390 | Six checks, then table and EFI partition, then every partition filled (Windows extended right behind its copy, the recovery image staged right behind its partition), then BCDBoot, the registration if required, and only checks up to the cold boot; no step twice |
| Mbr2GptExecution.OnlyThere | src/BootRepair/src/mbr2gpt_execution.cpp:240-390 | A step of each kind stands only there, and exactly the steps from the table to the registration mutate |
| Mbr2GptExecution.FewEnoughSteps | src/BootRepair/src/mbr2gpt_execution.cpp:240-390 | They can be numbered for every layout of at most 128 partitions |
| EfiDelete.ReflectsNext | src/BootRepair/src/efi_delete_transaction.cpp:980-1253 | Every call to a contract-respecting platform keeps the agreement between its state and what the answers prove |
| EfiDelete.JudgedExactly | src/BootRepair/src/efi_delete_transaction.cpp:503-515 | What an answer proves: completion, failure without mutation and partial failure need consistent parts, anything else violates the contract |
| EfiDelete.CommittedIsTrue | src/BootRepair/src/efi_delete_transaction.cpp:1213-1252 | Committed means: every candidate deleted, the new boot store final, the quarantine gone, on every run |
| EfiDelete.RolledBackIsTrue | src/BootRepair/src/efi_delete_transaction.cpp:1066-1209 | Rolled back means: every candidate in its place, the prior boot store, the quarantine gone, on every run |
| EfiDelete.StoppedIsTrue | src/BootRepair/src/efi_delete_transaction.cpp:984-1064 | Stopped before mutation means that nothing has changed |
| EfiDelete.FailedDeleteIsExact | src/BootRepair/src/efi_delete_transaction.cpp:1141-1211 | When deletion k fails, exactly the candidates before k are deleted; those behind it are where the last successful call left them |
| EfiDelete.FinishedDeletesAreTrue | src/BootRepair/src/efi_delete_transaction.cpp:1213-1252 | Once all deletions worked, all candidates are deleted, however commit and cleanup end |
| EfiDelete.DeletesComeLast | src/BootRepair/src/efi_delete_transaction.cpp:1066-1149 | No deletion is attempted before every candidate is in quarantine and the rebuilt boot store is verified |
| EfiDelete.RolledBackUnreachable | src/BootRepair/src/efi_delete_transaction_windows.cpp:2005-2016 | If quarantine removal demands that every candidate is deleted, as the Windows adapter does, no run with a candidate ends rolled back |
| EfiDeleteRun.RollbackQuarantined | src/BootRepair/src/efi_delete_transaction.cpp:542-595 | Restores the candidates in reverse order, every one of them attempted, then removes the quarantine if that is allowed and all came back; the summary tells exactly what happened |
| EfiDeleteRun.StopAtMove | src/BootRepair/src/efi_delete_transaction.cpp:1076-1103 | The report after a failed quarantine move tells exactly what the calls proved |
| EfiDeleteRun.StopAtRebuild | src/BootRepair/src/efi_delete_transaction.cpp:1109-1138 | The report after a failed boot store rebuild tells exactly what the calls proved |
| EfiDeleteRun.StopAtDelete | src/BootRepair/src/efi_delete_transaction.cpp:1149-1209 | The report after a failed deletion tells exactly what the calls proved; the boot store is rolled back only if nothing was deleted |
| EfiDeleteRun.QuarantineAndDelete | src/BootRepair/src/efi_delete_transaction.cpp:1041-1253 | Every run follows the protocol, and the report agrees with its calls in every field |
| EfiDeleteRun.OutcomeFollows | src/BootRepair/src/efi_delete_transaction.cpp:1039-1253 | The protocol leaves no choice: the answers alone determine the outcome, by the first call that does not work and by whether the rollback works throughout |
| EfiDeleteRun.ExecuteEfiDelete | src/BootRepair/src/efi_delete_transaction.cpp:980-1253 | Over every run of a contract-respecting platform: the platform is called if and only if the run is confirmed and the inspection matches; the outcome is the one that the answers deserve, and committed only if every call works; committed and rolled back are true of the final state; every field of the report is exact |
| EfiManifest.MaterialIsUnique | src/BootRepair/src/efi_delete_transaction.cpp:433-487 | Two candidate lists with the same digest input are equal: the serialization is uniquely decodable |
| EfiManifest.MaterialBegins | src/BootRepair/src/efi_delete_transaction.cpp:433-460 | The digest input begins with the length-prefixed label of its format and the number of candidates |
| EfiManifest.EntryBegins | src/BootRepair/src/efi_delete_transaction.cpp:461-484 | An entry begins with its kind and its length-prefixed path, and has 101 more bytes |
| EfiManifest.EntriesDecode | src/BootRepair/src/efi_delete_transaction.cpp:461-484 | Entry by entry, equal bytes mean equal entries and equal remainders |
| EfiManifest.TextDecodes | src/BootRepair/src/efi_delete_transaction.cpp:286-302 | A length-prefixed text is decoded from the front of any bytes |
| EfiManifest.SerializeManifest | src/BootRepair/src/efi_delete_transaction.cpp:433-487 | The appending loops produce exactly the digest input, and refuse exactly when it exceeds 16 MiB |
| EfiPaths.SegmentsJoin | src/BootRepair/src/efi_delete_transaction.cpp:149-181 | Splitting a path at its separators loses nothing, and no segment contains one |
| EfiPaths.CheckPath | src/BootRepair/src/efi_delete_transaction.cpp:149-181 | Walking the path accepts exactly the safe paths of at most nine safe segments and counts them |
| EfiPaths.SafeSegmentExactly | src/BootRepair/src/efi_delete_transaction.cpp:104-147 | Exactly these names are safe: up to 128 ordinary characters, no dot or blank at the ends, and no device name in any spelling in front of the first dot |
| EfiPaths.SafePathExactly | src/BootRepair/src/efi_delete_transaction.cpp:149-181 | Exactly these paths are safe: at most nine safe names with one separator between them, 1024 characters |
| EfiReview.ReviewIgnoresOrder | src/BootRepair/src/efi_delete_transaction.cpp:650-876 | Candidates and entries observed in any other order: the same verdict and the same plan |
| EfiReview.PlanListsTheTrees | src/BootRepair/src/efi_delete_transaction.cpp:799-876 | A plan lists exactly the observed candidates, sorted, and every listed entry is reached from its candidate root through listed directories |
| EfiReview.PlanSparesTheRest | src/BootRepair/src/efi_delete_transaction.cpp:650-876 | Nothing in a plan lies under Microsoft, Boot, EFI or the quarantine, no name in it leads elsewhere, every object is a singly linked file or directory of the volume, and an unsigned fallback loader forbids any plan |
| EfiReview.ReviewedBounds | src/BootRepair/src/efi_delete_transaction.cpp:650-797 | The bounds of a reviewed observation: 64 candidates, 4096 entries, the size of the partition, every identifier valid and unique |
| EfiReview.EmptyDirectoryAccepted | src/BootRepair/src/efi_delete_transaction.cpp:650-876 | A plan for one empty foreign directory is accepted under every lower-casing |
| EfiReview.EntryReachesRoot | src/BootRepair/src/efi_delete_transaction.cpp:833-856 | Going from parent to parent ends at the candidate itself |
| EfiReview.SameMaterialSamePlan | src/BootRepair/src/efi_delete_transaction.cpp:433-487 | Two accepted reviews whose digests are taken of the same bytes have the same plan |
| EfiReviewRun.CheckEntry | src/BootRepair/src/efi_delete_transaction.cpp:715-762 | The checks of one entry, in the order of the source, accept exactly the valid ones |
| EfiReviewRun.ReviewEntries | src/BootRepair/src/efi_delete_transaction.cpp:715-797 | With running totals and an identifier set: accepts exactly when all entries are valid, identifiers stay distinct and the file bytes stay within the partition |
| EfiReviewRun.CheckTree | src/BootRepair/src/efi_delete_transaction.cpp:799-856 | The map from folded paths decides exactly: no path twice, the root listed as a directory, every parent listed as a directory |
| EfiReviewRun.ReviewDeletion | src/BootRepair/src/efi_delete_transaction.cpp:650-876 | Accepts exactly the reviewable observations and then delivers the canonical plan with its digest |
| TextOrder.SortedIsUnique | src/BootRepair/src/efi_delete_transaction.cpp:69-78 | Under distinct folded names only one sorted order exists |
| TextOrder.SortIgnoresOrder | src/BootRepair/src/efi_delete_transaction.cpp:799-805 | Whatever the input order, the sorted sequence is the same |
| Rearrangement.TotalRearranged | src/BootRepair/src/efi_delete_transaction.cpp:763-782 | Totals do not depend on the order in which they are added up |
| EfiTree.ScannedIsExact | src/BootRepair/src/efi_delete_transaction_windows.cpp:782-872 | A manifest that lists a scan in any order covers the tree exactly |
| EfiTree.EntryDescribes | src/BootRepair/src/efi_delete_transaction_windows.cpp:1183-1231 | An entry describes an object if and only if kind and every compared fact agree |
| EfiTree.ReviewedScanIsExact | src/BootRepair/src/efi_delete_transaction_windows.cpp:782-872 | What the review makes of a scanned candidate covers the candidate's tree exactly |
| EfiTree.ExactBelow | src/BootRepair/src/efi_delete_transaction_windows.cpp:1258-1312 | A covering manifest covers every subdirectory as well |
| EfiTree.ExactCount | src/BootRepair/src/efi_delete_transaction_windows.cpp:1258-1276 | It lists as many direct children for a directory as the directory has |
| EfiTree.ScanBelowChild | src/BootRepair/src/efi_delete_transaction_windows.cpp:815-843 | Of a directory's scan, what lies below one child is that child's scan: siblings never share paths |
| EfiTree.LicensedMatches | src/BootRepair/src/efi_delete_transaction_windows.cpp:1183-1231 | Every licensed object lies in the tree and matches a manifest entry at its own path in all compared fields |
| EfiTree.ScanCountsObjects | src/BootRepair/src/efi_delete_transaction_windows.cpp:782-872 | A scan lists as many entries as the tree has objects |
| EfiTreeRun.ScanTree | src/BootRepair/src/efi_delete_transaction_windows.cpp:782-872 | Unless a call is refused, scanning succeeds exactly within its bounds on depth, path length, number and kind, and lists the tree |
| EfiTreeRun.VerifyOpened | src/BootRepair/src/efi_delete_transaction_windows.cpp:1194-1231 | Accepts an open object only if every compared fact is what the manifest says |
| EfiTreeRun.DeleteTree | src/BootRepair/src/efi_delete_transaction_windows.cpp:1233-1328 | On every run, failing ones included, only objects matching a manifest entry are removed; success removes the directory's whole tree; against a covering manifest only a refused call can fail it |
| EfiTreeRun.DeleteChildren | src/BootRepair/src/efi_delete_transaction_windows.cpp:1254-1312 | The children loop removes exactly the children's trees |
| EfiTreeRun.DeleteCandidate | src/BootRepair/src/efi_delete_transaction_windows.cpp:1957-2003 | With a manifest that a scan of this tree made, the tree is removed object by object, as many as the manifest lists, or some call was refused; nothing else is ever removed |
| NvramCodec.OrderParsesBack | src/BootRepair/src/nvram_repair.cpp:156-195 | Parsing inverts encoding on all non-empty duplicate-free lists of at most 4096 numbers |
| NvramCodec.ParsedOrderEncodes | src/BootRepair/src/nvram_repair.cpp:156-195 | And encoding inverts parsing on all accepted values |
| NvramCodec.OrderElements | src/BootRepair/src/nvram_repair.cpp:187-195 | The order is stored number by number as an ordinary variable |
| NvramCodec.ParseBootOrder | src/BootRepair/src/nvram_repair.cpp:156-185 | The loop accepts exactly the even-sized, non-empty, bounded, duplicate-free values |
| NvramCodec.BuildWindowsBootManagerLoadOption | src/BootRepair/src/nvram_repair.cpp:419-496 | Appending header, description and device path gives exactly the specified option, or the specified error |
| NvramCodec.BuiltOptionLayout | src/BootRepair/src/nvram_repair.cpp:419-496 | An option is built for exactly the expressible partitions, and its 164 bytes stand as sections 3.1.3 and 10.3.5 of UEFI 2.10 say |
| NvramCodec.LoadOptionMatches | src/BootRepair/src/nvram_repair.cpp:498-603 | The matcher agrees with the specification on every byte string |
| NvramCodec.MatchExactly | src/BootRepair/src/nvram_repair.cpp:498-603 | An option matches if and only if its description has at most 256 characters and its device path is the reviewed partition with the boot manager on it |
| NvramCodec.BuiltOptionMatches | src/BootRepair/src/nvram_repair.cpp:419-603 | A built option matches exactly the partitions with the same number, whole-sector start and length, and GUID |
| NvramCodec.AlignedOptionMatches | src/BootRepair/src/nvram_repair.cpp:419-603 | For sector-aligned partitions that is: number, offset, size and GUID agree |
| NvramCodec.UnalignedOptionsCollide | src/BootRepair/src/nvram_repair.cpp:419-603 | Partitions that differ only within one sector cannot be told apart |
| NvramCodec.ActivatedMatches | src/BootRepair/src/nvram_repair.cpp:730-739 | Setting the active bit does not change what an option matches |
| NvramCodec.ActivatedIsActive | src/BootRepair/src/nvram_repair.cpp:730-739 | Afterwards the option is active, and an active one is left as it is |
| NvramRepair.Firmware.ReplaceIfExact | src/BootRepair/src/nvram_repair.cpp:320-376 | Compare and swap: works exactly if the call does not fail, the variable has the expected value and both values are ordinary and bounded; nothing changes on failure, only the named variable on success |
| NvramRepair.ValidRequests | src/BootRepair/src/nvram_repair.cpp:111-149 | The valid requests, field by field: both confirmations and the token, and a complete aligned EFI partition inside an identified disk |
| NvramRepair.ScanListed | src/BootRepair/src/nvram_repair.cpp:626-658 | Finds the one listed option that boots the partition; a second one or an unreadable one is an error; with working calls it fails only where no such answer exists |
| NvramRepair.ScanUnlisted | src/BootRepair/src/nvram_repair.cpp:660-695 | Finds a forgotten option among the probed numbers, and the first free number exactly if there is one outside the order; with working calls it fails only where no such answer exists |
| NvramRepair.Scan | src/BootRepair/src/nvram_repair.cpp:605-695 | With working calls the scan succeeds exactly on the variables whose order and options have one reading, and delivers it |
| NvramRepair.ScannedOnce | src/BootRepair/src/nvram_repair.cpp:605-740 | That reading is unique, so repairable means: an option to repair or a free number, and room in the order for a number to be added |
| NvramRepair.WriteOption | src/BootRepair/src/nvram_repair.cpp:767-792 | Either the option is written and nothing else changed, or the failure is reported and undone; with working calls it is written, and one failing call leaves the variables as they were |
| NvramRepair.WriteOrder | src/BootRepair/src/nvram_repair.cpp:794-842 | Either the number is appended to the order and nothing else changed, or the failure is reported and undone; with working calls it is appended, and one failing call leaves the variables as they were |
| NvramRepair.RollbackAll | src/BootRepair/src/nvram_repair.cpp:844-853 | When all restores succeed the store is as it was before the run, and working calls make them succeed |
| NvramRepair.Confirm | src/BootRepair/src/nvram_repair.cpp:855-898 | Without a problem the store is the intended one; with working calls and room in the order there is no problem |
| NvramRepair.FinalCheck | src/BootRepair/src/nvram_repair.cpp:855-900 | Reports success only for exactly the intended store; with working calls exactly if the order had room, and otherwise everything is undone |
| NvramRepair.AchievedIsHealthy | src/BootRepair/src/nvram_repair.cpp:855-900 | After success the reported number is the only option that boots the partition, and it is listed and active |
| NvramRepair.RepairCurrentPc | src/BootRepair/src/nvram_repair.cpp:605-901 | Success leaves the order as it was or with one number more, every other variable untouched, and one option active and matching: the one that was found, otherwise kept, or a new one under the first free number. With working calls exactly the valid requests on repairable variables succeed, and every failure leaves the variables as they began; so does any single failing call if the order has room. Without the confirmations no call is made; a healthy store is reported valid without a write |
| NvramRepair.FullOrderNotRepairable | src/BootRepair/src/nvram_repair.cpp:156-164 | For every valid request there are variables with a free number that cannot be repaired: 4096 listed options for another partition |
| NvramRepair.RepairTwice | src/BootRepair/src/nvram_repair.cpp:605-716 | Running again after a success, with nothing failing, reports the same number as already valid and writes nothing |
| RegistryHive.ScannedBinsTile | src/BootRepair/src/registry_hive.cpp:289-354 | Free and used cells of an accepted hive tile every bin, and the bins tile the declared region |
| RegistryHive.AllocatedOrdered | src/BootRepair/src/registry_hive.cpp:330-343 | The recorded cells are strictly ordered and disjoint |
| RegistryHive.ScannedCellsTile | src/BootRepair/src/registry_hive.cpp:311-348 | Inside a bin the cells follow each other without a gap up to its end |
| HiveBytes.HiveExactly | src/BootRepair/src/registry_hive.cpp:233-364 | A hive is accepted if and only if its bytes hold a sound base block, bins and cells that tile the declared region, and a root key in a used cell; then exactly the used cells are recorded |
| HiveBytes.CellsExactly | src/BootRepair/src/registry_hive.cpp:311-348 | A scan of a range delivers the one way to tile it with cells whose stored sizes say so, if there is one |
| HiveBytes.BinsExactly | src/BootRepair/src/registry_hive.cpp:289-354 | The same for bins with their headers |
| HiveBytes.RecordsFromBytes | src/BootRepair/src/registry_hive.cpp:330-343 | A recorded cell has a negative stored size, and its recorded size is that size negated |
| HiveBytes.KeyExactly | src/BootRepair/src/registry_hive.cpp:480-520 | A key is read exactly as it is stored, field by field and name unit by name unit |
| HiveBytes.IndexExactly | src/BootRepair/src/registry_hive.cpp:530-562 | An index cell is read exactly as it is stored |
| HiveBytes.AlteredWordRefused | src/BootRepair/src/registry_hive.cpp:233-287 | A base block with one altered word is refused, but for the four sums that share a checksum |
| RegistryHive.CollectSubkeys | src/BootRepair/src/registry_hive.cpp:522-584 | Terminates on every index graph, cyclic ones included; succeeds exactly when no list is visited twice, no key repeats and no more keys are found than declared, and then delivers the keys in index order |
| RegistryHive.CollectLists | src/BootRepair/src/registry_hive.cpp:563-575 | The same for an indirect index: its lists in order |
| HiveParsing.HiveParser.ComputeChecksum | src/BootRepair/src/registry_hive.cpp:261-269 | The exclusive or of the words in front of the checksum field |
| HiveParsing.HiveParser.RecordCells | src/BootRepair/src/registry_hive.cpp:311-348 | Walks one bin; accepts exactly when its cells tile it and records those in use |
| HiveParsing.HiveParser.RecordBins | src/BootRepair/src/registry_hive.cpp:289-354 | Walks the declared region; accepts exactly when its bins tile it |
| HiveParsing.HiveParser.Validate | src/BootRepair/src/registry_hive.cpp:233-364 | Accepts exactly the hives whose bytes are sound, and then exactly the cells in use are recorded in order |
| HiveParsing.HiveParser.LowerBound | src/BootRepair/src/registry_hive.cpp:416-434 | Halving finds the boundary between smaller and not smaller offsets |
| HiveParsing.HiveParser.Cell | src/BootRepair/src/registry_hive.cpp:416-434 | The binary search finds the same cell as a search from the front |
| HiveParsing.HiveParser.ReadKey | src/BootRepair/src/registry_hive.cpp:480-520 | Accepts exactly the sound key nodes |
| HiveParsing.HiveParser.FindSubkey | src/BootRepair/src/registry_hive.cpp:586-641 | Delivers a key if and only if the index is sound and the name occurs exactly once among readable subkeys |
| BcdStore.MoveAside | src/BootRepair/src/bcdboot.cpp:1398-1433 | The prior store is at one of its two paths with nothing at the other; if the look behind the move fails and the move back does not, the store is restored if and only if the rename kept its identity |
| BcdStore.Rollback | src/BootRepair/src/bcdboot.cpp:1435-1462 | Restored if and only if every call of the rollback works and the replacement is still in place: then the prior store is back at its path and the backup path is empty |
| BcdStore.RunAndVerify | src/BootRepair/src/bcdboot.cpp:1464-1524 | Fails exactly at the first call that does not do its work; otherwise a fresh verified store is in place; a failure is restored exactly if the calls behind it all work |
| BcdStore.RemovePrior | src/BootRepair/src/bcdboot.cpp:1526-1535 | Success leaves no backup; a failed cleanup keeps it, and comes exactly from a failed removal; the new store stays verified |
| BcdStore.RebuildStore | src/BootRepair/src/bcdboot.cpp:1342-1536 | At no step of a single run is the prior store lost before a fresh verified one is in place; every outcome is true of both paths and is the one that the answers of the calls deserve |
| BcdStore.RebuildStoreForAll | src/BootRepair/src/bcdboot.cpp:1538-1799 | The same for up to 32 installations, with BCDBoot run once for each |
| BcdStore.OneFaultIsUndone | src/BootRepair/src/bcdboot.cpp:1392-1799 | If all calls but one do their work, the rollback is complete except in one case: the look behind the move aside fails and the rename changed the identity |
| BcdStore.StaleIdentityIsRefused | src/BootRepair/src/bcdboot.cpp:1414-1431 | A run in that case: one look fails, all other calls work, and the prior store stays at the backup path |
| BcdStore.HalfMovedIsLeft | src/BootRepair/src/bcdboot.cpp:1398-1411 | A run whose move aside reports a failure although the file moved: nothing is undone, the prior store stays at the backup path |
| CommandLine.QuoteWindowsArgument | src/BootRepair/src/bcdboot.cpp:1271-1297 | The counting loop produces the quoted form with every backslash run doubled where a quote follows |
| CommandLine.QuotedIfNeeded | src/BootRepair/src/bcdboot.cpp:1271-1297 | An argument is passed as it is if and only if it is not empty and has no blank, line break or quote |
| CommandLine.JoinArguments | src/BootRepair/src/bcdboot.cpp:598-602 | The command line is the quoted program followed by the quoted arguments |
| CommandLine.ArgumentsRoundTrip | src/BootRepair/src/bcdboot.cpp:598-602 | The C runtime rules for backslashes and quotes give back exactly the arguments, for every list without NUL |
| CommandLine.ArgumentsArriveUnlessNul | src/BootRepair/src/bcdboot.cpp:1271-1297 | And exactly those lists arrive: an argument with a NUL ends the line |
| SystemPartition.ReviewedGeometry | src/BootRepair/src/system_partition_creation.cpp:585-693 | The reviewed partition is the aligned end of Windows: its offset is the new end of Windows, its end the old one, and more than the minimum remains |
| SystemPartition.ReviewAccepts | src/BootRepair/src/system_partition_creation.cpp:585-693 | On a sound disk a request passes the review if and only if the disk lacks a system partition, nothing changed since it was discovered, and Windows is healthy, aligned and large enough |
| SystemPartition.ReviewBoundsHold | src/BootRepair/src/system_partition_creation.cpp:662-684 | On a sound disk the last bounds checks of the review never fail |
| SystemPartition.SystemIsNew | src/BootRepair/src/system_partition_creation.cpp:428-480 | The system partition of a completed layout is none of the partitions that were there before |
| SystemPartition.ExpectedIsAccepted | src/BootRepair/src/system_partition_creation.cpp:257-480 | The checks accept the expected shrunken layout and the expected complete one |
| SystemPartition.CompletedSystem | src/BootRepair/src/system_partition_creation.cpp:428-480 | The new partition of a complete layout is an EFI system partition on FAT32, or an active NTFS partition, in the reviewed place |
| SystemPartition.ExactMeansUnchanged | src/BootRepair/src/system_partition_creation.cpp:207-255 | An exact match means: disk, partitions, installations and volume are as they were reviewed |
| SystemPartition.CompletedIsFreedTail | src/BootRepair/src/system_partition_creation.cpp:428-480 | An accepted final layout is the reviewed one with Windows shortened, plus exactly one partition in the freed end |
| SystemPartition.FreedTailIsApart | src/BootRepair/src/system_partition_creation.cpp:257-338 | Nothing overlaps in that layout |
| SystemPartitionRun.CheckShrunkenBase | src/BootRepair/src/system_partition_creation.cpp:257-338 | The loops with their sets decide exactly whether everything but the Windows size is as reviewed |
| SystemPartitionRun.AttemptRollback | src/BootRepair/src/system_partition_creation.cpp:482-523 | Reports an exact rollback if and only if every undo call and the last look work and the disk is the reviewed one in every compared field |
| SystemPartitionRun.ExecuteCreation | src/BootRepair/src/system_partition_creation.cpp:768-869 | Every run keeps the protocol, its outcome is true of the disk and is the one determined by the answers of the calls; nothing changes without confirmation and an exact match |
| SystemPartitionRun.CommitsWhenAllWorks | src/BootRepair/src/system_partition_creation.cpp:768-869 | A run commits if and only if its five calls work and its three looks show the reviewed, the shrunken and the completed disk |
| SystemPartitionRun.OnlyAnUnclearShrinkRemains | src/BootRepair/src/system_partition_creation.cpp:768-869 | If the way back works, a rollback is incomplete only after a shrink that reported failure and left neither layout to be seen |
| SystemPartitionRun.AfterFailedShrink | src/BootRepair/src/system_partition_creation.cpp:797-823 | A shrink that reported failure but happened is undone; only one that left an unclear disk is reported as incomplete |
| SystemPartitionRun.CreateSystem | src/BootRepair/src/system_partition_creation.cpp:841-868 | After a verified shrink: commits exactly when the creation works and the completed layout is seen, and otherwise rolls back and says how far that went |
| SystemPartitionRun.CommittedLayout | src/BootRepair/src/system_partition_creation.cpp:768-869 | A committed run leaves the reviewed layout with only the Windows size changed plus the freed end as the system partition, and nothing overlaps |
| RamLog.SanitizeMessage | src/CloneCore/src/log.cpp:34-66 | The loop delivers the bounded single-line form of every message |
| RamLog.SanitizedIsClean | src/CloneCore/src/log.cpp:34-66 | No control character and no double space is left |
| RamLog.SanitizedKeepsWords | src/CloneCore/src/log.cpp:34-66 | A message that fits keeps its words and its ends, and is not changed at all if it is clean |
| RamLog.CleanIsUnique | src/CloneCore/src/log.cpp:34-66 | There is only one clean text with these words and ends |
| RamLog.SanitizedFront | src/CloneCore/src/log.cpp:34-66 | A longer message gives its front, with three dots at the end if there is room |
| RamLog.SanitizedAgain | src/CloneCore/src/log.cpp:34-66 | Sanitizing twice changes nothing |
| RamLog.Router.Write | src/CloneCore/src/log.cpp:163-198 | After every write the kept records are the longest end of the sanitized history that fits both limits, and the counters are exact |
| RamLog.Router.MakeRoom | src/CloneCore/src/log.cpp:176-183 | Dropping from the front stops at the longest end that still has room |
| RamLog.LongestIsUnique | src/CloneCore/src/log.cpp:163-198 | No longer end of the history would fit |
| RamLog.Router.AttachPersistentSink | src/CloneCore/src/log.cpp:252-267 | The sink receives exactly the kept records, oldest first; it is refused when isolated or attached already |
| RamLog.Router.IsolateToRamPermanently | src/CloneCore/src/log.cpp:269-277 | No sink is attached from then on |
| RamLog.SinkSeesSuffix | src/CloneCore/src/log.cpp:252-277 | Over any writes before, during and after an attachment: the sink has the records kept at the attachment, then exactly the sanitized later ones until isolation, and nothing after it |

## Left out

- The Windows, VDS, COM, WinTrust and CNG calls behind the interfaces, including process launch, signature checks and SHA-256: only their results appear.
- Error texts, native error codes and operation names; where a contract names an error it names its kind.
- GptExecute.MakeGptWritePlan: sources are disks as the parser delivers them, or tables of the same shape without identities; hand-made disk descriptions with other geometry are not modelled.
- GptExecute.MakeGptAddPartitionPlan: the current disk is one as the parser delivers it; hand-made descriptions whose 64-bit products would wrap are not modelled.
- EfiReviewRun.ReviewDeletion: says exactly when a review is refused, but not which of several violated rules the refusal names.
- The stable-identity check of the disk and the field checks of the EFI partition in the review: their joint result is one input of the observation.
- EfiDeleteRun.ExecuteEfiDelete: the report's platform failure kinds and error values are not modelled; all counters, flags, stage and outcome are.
- EfiTreeRun.DeleteTree: nobody else changes the tree during the run; the source keeps others out by opening without write and delete sharing, which is not modelled, and a handle is the object itself.
- The read-back of a quarantined tree before its deletion, the quarantine moves and the boot store calls of the Windows adapter: they are single steps of the transaction model.
- NvramRepair.RepairCurrentPc: no other writer touches the variables between two calls; the compare and swap is atomic in the model.
- The formatting of variable names such as Boot0001 and the privilege handling around firmware calls.
- RegistryHive: reading values (find_value, parse_value, read_current_version) and text decoding of values; the walk over keys is modelled.
- BcdStore.RebuildStore: the policy that preserves an existing store is a single BCDBoot run without a transaction and is not modelled; a failed look, removal or check is assumed to change nothing (a failed move may have happened), and BCDBoot not to touch the backup path.
- SystemPartition: texts such as types and volume names are labels that are equal or not; the raw-disk variant of the layout check is not modelled. The results about layouts take the discovered Windows partition to be a copy of one in the table of the disk.
- SystemPartitionRun.ExecuteCreation: an observation may fail but is truthful, and nothing else changes the disk between an observation and the end of the run.
- RamLog.Router.Write: exceptions, allocation failure and locking are not modelled; the router is a sequential object.
- The privacy filter, log files, the stderr logger and line formatting.
- GptExecute.TargetDisk.Apply: flushing and reordering by the device are not modelled; a crash leaves a prefix of the writes, and for the atomicity theorem also any half-done next write.
- The relation of two equal keys in the library's sort: ties cannot occur where the order matters, because such inputs are refused.
- clone_boot_finalization, standalone_repair, automatic repair, offline Windows discovery, volume mounting, WinRE registration and the user interfaces: adapters and sequences of guard checks around external tools.
- disk_identity, completion and power actions, clone_target_layout: field comparisons that would only add easy members.
