# Quark platform firmware: a verified model

This project models the parts of the Quark platform package that keep invariants over byte buffers, flash,
memory maps, replayed scripts and device traces, and proves those invariants for all inputs and all runs.

**Variable store.** A store is a byte buffer at an address; records are aligned on absolute addresses.
`VariableStore` gives the walk that every loop of the driver performs, `VariablePrint` its inverse, `VariableConvert` the
two-pass conversion of an authenticated store into a normal one, `VariableAccess` the search and read, `VariableSet` the
in-place set and what it does to later reads and to the other records, and `DefaultStore` the two libraries that build the default store of a board: the plain one, and the size-optimised one that
patches a base store with chained deltas. `Bytes` holds what the buffer-based modules share.

**S3 resume script.** `S3Script` compiles a register state into PCI configuration writes (a message-bus write is an MDR
write and an MCR trigger), interprets such scripts, and proves what a replay restores and what every prefix of it keeps.
`S3Tables` applies this to the two tables of the platform.

**Memory.** `MemoryMap` carves TSEG and the RMU shadow off the top of memory; `MemoryInstall` chooses PEI memory and the
capsule buffer, emits resource descriptors, and finds the RMU shadow again by summing them, on a cold boot and on resume.

**Firmware volumes.** `BlockMap` is block-map lookup and counting, `FlashAttributes` the attribute state of section 3.4.2
of the UEFI PI Specification Volume 3, and `FlashDriver` the block driver over one flash array: clipped reads and writes,
block erase, erase with an argument list, erase of a custom range, and what no sequence of calls can change.

**MADT.** `Madt` sizes and builds the table of section 5.2.12 of the ACPI specification; `MadtUpdate` walks and patches it.

**SPI protection and TPM transports.** `SpiProtect` is the encoding of the three protected range registers and the lock
policy. `TpmInfineon` is the I2C transport with its guard time and burst counts, over traces of bus events. `TpmAtmel` is
the transport that sends chunks until its time is up, with a counter that wraps. `TpmResponse` is the response header of both.

Reading notes. A buffer that the code changes in place is an array and a record of driver state is a class; their methods
are proved against functions on sequences, and the lemmas are about those functions. Masks of contiguous fields are written
as divisions and remainders where addresses are involved, and as bit-vectors where bits are. Device operations, the answers
of a device and the time an attempt takes are nondeterministic.

Where the code and its comments disagree, the model follows the code:

- A comment in `FvbEraseCustomBlockRange` has the last block treated like the first; the code sizes the final write by the
  start offset and takes its bytes from the front of the scratch space (`CustomEraseTail`).
- The custom-range erase is to keep the bytes below the start offset. On a volume that is writable but cannot be read, the
  code does not look at the failed read and writes stale scratch bytes there (`StaleFront`, `FrontKeptExactlyWhen`).
- The header comments of `TisPcReceive` list a timeout for every stalled read; a stall after the header is reported as a
  device error.
- `ApicTableUpdate` sets the interrupt base of the IO APIC to 0 after the builder took it from the configuration.
- The header of `FvbProtocolEraseBlocks` promises that a list with a block that does not exist erases nothing; the range check
  adds 64-bit numbers, and a sum that wraps gets past it (`WrappingList`, `OutOfRangeUnchangedWhen`).
- `SetVariableToHob` answers success for sets that no read returns: attributes of all ones make the sizes of a record read
  as 0, and attributes that end this bring the raw sizes back (`NotReadBack`, `SetReadsBack`).
- The conversion to normal records copies by the size fields, which an all-ones field makes every other reader ignore; the
  walk of the result then leaves the copies (`NotFollowed`, `FollowsExactlyWhen`).
- `InstallS3Memory` asserts that the saved length exceeds 1 MB through a macro that only tests for error codes, so that it
  never fails; a smaller length wraps (`ResumeHobs`, `ResumeSumIsSaved`).
- The lock policy protects all of flash when NV storage starts the device, since a length of 0 wraps (`EmptyRangeAtZero`).

## Model

| member | source | states |
|---|---|---|
| Bytes.Le32Means | QuarkPlatformPkg/Library/PeiMultiPlatSupportLib/InternalCommonLib.c:100-164 | a 32-bit field has its least significant byte first |
| VariableStore.AlignedAt | QuarkPlatformPkg/Library/PeiMultiPlatSupportLib/InternalCommonLib.c:34-62 | an address is aligned up on its absolute value: the least aligned position not before p |
| VariableStore.PadIsLeast | QuarkPlatformPkg/Library/PeiMultiPlatSupportLib/InternalCommonLib.c:246-263 | the padding behind a name or data is the least that makes its size a multiple |
| VariableStore.WalkTurn | QuarkPlatformPkg/Library/PeiMultiPlatSupportLib/InternalCommonLib.c:277-294 | one turn of the walk loop visits the record at the pointer and leaves the rest of the walk and its end as they were |
| VariableStore.SameSizes | QuarkPlatformPkg/Library/PeiMultiPlatSupportLib/InternalCommonLib.c:100-164 | the sizes a record reports depend on its header bytes alone, including the all-ones rule that makes them 0 |
| VariableStore.SameRecord | QuarkPlatformPkg/Library/PeiMultiPlatSupportLib/InternalCommonLib.c:246-294 | a record is decoded from its own bytes alone: equal bytes at any two places give equal records of equal extent |
| VariablePrint.RecordPrintedReads | QuarkPlatformPkg/Library/PeiMultiPlatSupportLib/InternalCommonLib.c:369-391 | a record printed at any place is parsed as itself, and the bytes before it stay |
| VariablePrint.PrintThenWalk | QuarkPlatformPkg/Library/PeiMultiPlatSupportLib/InternalCommonLib.c:34-294 | for every base address and every list of printable records, walking the printed store visits exactly those records in order and stops exactly at its end |
| VariablePrint.WalkIsPrintable | QuarkPlatformPkg/Library/PeiMultiPlatSupportLib/InternalCommonLib.c:100-164 | a walk visits no other records: each one it visits can be printed |
| VariableConvert.RequiredSize | QuarkPlatformPkg/Library/PeiMultiPlatSupportLib/InternalCommonLib.c:339-351 | the first pass computes, with aligned offsets, the size of exactly the added records |
| VariableConvert.AddedMeans | QuarkPlatformPkg/Library/PeiMultiPlatSupportLib/InternalCommonLib.c:343-369 | the records copied are exactly those in state 0x3F, each as often as it was there |
| VariableConvert.FirstPassBoundsSecond | QuarkPlatformPkg/Library/PeiMultiPlatSupportLib/InternalCommonLib.c:339-399 | for every list of records and every HOB base, the first-pass size plus HEADER_ALIGNMENT - 1 bounds where the second pass, which aligns addresses, ends |
| VariableConvert.RecordPatchedReads | QuarkPlatformPkg/Library/PeiMultiPlatSupportLib/InternalCommonLib.c:371-391 | the record written at any place reads back by its raw sizes as the source record, in the other header format, and the bytes before it stay |
| VariableConvert.CopyRecord | QuarkPlatformPkg/Library/PeiMultiPlatSupportLib/InternalCommonLib.c:371-391 | the field-by-field copy goes by the raw sizes, whatever the attributes, stays inside the buffer and leaves the whole copied record there |
| VariableConvert.NewStore | QuarkPlatformPkg/Library/PeiMultiPlatSupportLib/InternalCommonLib.c:353-362 | the new HOB has the asked size, and the signature, format and state of the new store |
| VariableConvert.StoredWalk | QuarkPlatformPkg/Library/PeiMultiPlatSupportLib/InternalCommonLib.c:369-399 | walking what was written visits exactly the written records in order and stops at the aligned end |
| VariableConvert.FollowsExactlyWhen | QuarkPlatformPkg/Library/PeiMultiPlatSupportLib/InternalCommonLib.c:277-294 | the walk visits every copy where it was stored and stops at the aligned end if and only if each copy is, up to header alignment, as long for the driver as its size fields say |
| VariableConvert.FollowingWalk | QuarkPlatformPkg/Library/PeiMultiPlatSupportLib/InternalCommonLib.c:277-294 | such a walk reads of every copy what the driver reads of the source record |
| VariableConvert.WellFormedCopies | QuarkPlatformPkg/Library/PeiMultiPlatSupportLib/InternalCommonLib.c:100-164 | without an all-ones field beside a size every added record can be copied and is as long as its size fields say |
| VariableConvert.ConvertedWalk | QuarkPlatformPkg/Library/PeiMultiPlatSupportLib/InternalCommonLib.c:334-401 | whatever the source: the walk of the converted store follows the copies exactly under that condition, and then gives the added records; the store ends where the second pass ends |
| VariableSet.NotFollowed | QuarkPlatformPkg/Library/PeiMultiPlatSupportLib/InternalCommonLib.c:369-399 | a record whose attributes are all ones beside sizes 2 and 1: the walk of the converted store leaves its copy |
| VariableConvert.BuildDefaultDataHobForRecoveryVariable | QuarkPlatformPkg/Library/PeiMultiPlatSupportLib/InternalCommonLib.c:334-401 | for any two base addresses the result holds copies of exactly the added records, by their raw sizes, in order and up to its end; when each is as long as its size fields say, walking the result as normal records gives exactly the added records of the source and stops exactly at its end pointer; source unchanged, header fields set, size within the HOB |
| VariableAccess.MatchesMeans | QuarkPlatformPkg/Library/PeiMultiPlatSupportLib/InternalCommonLib.c:450-460 | what a search matches: an added record of the vendor whose name is at the name pointer |
| VariableAccess.LookupIndex | QuarkPlatformPkg/Library/PeiMultiPlatSupportLib/InternalCommonLib.c:450-464 | the first match in walk order: it matches and no earlier record does |
| VariableAccess.FindsFirst | QuarkPlatformPkg/Library/PeiMultiPlatSupportLib/InternalCommonLib.c:448-466 | in a store whose walk stays inside the buffer, what the search finds is exactly the record at the place of the first match of the walk |
| VariableAccess.FindVariableFromHob | QuarkPlatformPkg/Library/PeiMultiPlatSupportLib/InternalCommonLib.c:448-466 | for every buffer that the search does not leave, the loop returns the one record that the search finds, or nothing if and only if there is none |
| VariableAccess.GetVariableFromHob | QuarkPlatformPkg/Library/PeiMultiPlatSupportLib/InternalCommonLib.c:504-533 | success hands out the attributes, the size and the data of the record found; a buffer that is too small is told the size needed; every missing argument; not-found; in a store, for the first match of the walk |
| VariableAccess.LookupAdded | QuarkPlatformPkg/Library/PeiMultiPlatSupportLib/InternalCommonLib.c:343-393 | leaving out the records that are not added changes no lookup |
| VariableAccess.ConversionKeepsLookups | QuarkPlatformPkg/Library/PeiMultiPlatSupportLib/InternalCommonLib.c:334-401 | every (name, guid) lookup in a converted store returns what it returned in the source |
| VariableSet.ReplacedWalk | QuarkPlatformPkg/Library/PeiMultiPlatSupportLib/InternalCommonLib.c:277-294 | when the bytes of one record change and all others stay, every other record of the walk is still visited at its place if and only if the record still fits and the pointer to the next header stays, or it is the last record and the walk stops where that pointer now leads |
| VariableSet.SetKeepsOthersWhen | QuarkPlatformPkg/Library/PeiMultiPlatSupportLib/InternalCommonLib.c:591-598 | a set leaves every other record of the store alone under exactly that condition, read off the attributes, the raw sizes and the data before the set |
| VariableSet.AfterSetRecord | QuarkPlatformPkg/Library/PeiMultiPlatSupportLib/InternalCommonLib.c:591-598 | a set after which the sizes read as before rewrites exactly attributes and data of its record |
| VariableSet.SetKeepsOthers | QuarkPlatformPkg/Library/PeiMultiPlatSupportLib/InternalCommonLib.c:591-598 | such a set leaves a store whose records are the old ones with that one rewritten |
| VariableSet.SetReadsBack | QuarkPlatformPkg/Library/PeiMultiPlatSupportLib/InternalCommonLib.c:581-598 | for every record that a search finds, whatever its attributes and raw sizes: the same search and a read return what was set if and only if, when the new attributes make the sizes read as 0, no data was set, and, when they end that, the raw data size is 0 and the name that comes back fits and agrees with the one asked for |
| VariableSet.NotReadBack | QuarkPlatformPkg/Library/PeiMultiPlatSupportLib/InternalCommonLib.c:581-598 | two sets that succeed and do not read back: attributes of all ones with data, and attributes 7 without data on a record whose attributes were all ones |
| VariableSet.SetVariableToHob | QuarkPlatformPkg/Library/PeiMultiPlatSupportLib/InternalCommonLib.c:571-601 | for every buffer that the search does not leave: success exactly for a record found, its own data size, data present and attributes not 0; every other status; errors change nothing, and on success the bytes are exactly the two stores into the record found; in a store, if the sizes read as before, the records are the old ones with the first match rewritten |
| VariableSet.SetThenGet | QuarkPlatformPkg/Library/PeiMultiPlatSupportLib/InternalCommonLib.c:504-601 | set and then get, under the condition of reading back: the get answers success with exactly the data and the attributes that were set |
| VariableSet.SetThenLookup | QuarkPlatformPkg/Library/PeiMultiPlatSupportLib/InternalCommonLib.c:504-533 | once a record is rewritten its name finds the new record, and every other lookup is as before unless it finds the same record |
| DefaultStore.RelocatedWalk | QuarkPlatformPkg/Library/PeiMultiPlatSupportLib/PeiMultiPlatSupportLibOptSize.c:126-139 | a walk over moved variable data visits the same records and stops at the same distance |
| DefaultStore.RelocatedRecords | QuarkPlatformPkg/Library/PeiMultiPlatSupportLib/PeiMultiPlatSupportLib.c:141-153 | a store moved between any two base addresses holds the same records and ends the same way |
| DefaultStore.RelocateStore | QuarkPlatformPkg/Library/PeiMultiPlatSupportLib/PeiMultiPlatSupportLib.c:126-153 | the realigning copy fits the HOB and yields such a moved store, its size field adjusted |
| DefaultStore.DeltaRelocated | QuarkPlatformPkg/Library/PeiMultiPlatSupportLib/PeiMultiPlatSupportLibOptSize.c:150-176 | a delta written at its place in the HOB equals patching the base store and moving it |
| DefaultStore.PatchedAt | QuarkPlatformPkg/Library/PeiMultiPlatSupportLib/PeiMultiPlatSupportLibOptSize.c:150-176 | a byte of a patched store is the value of the last delta for it, and the byte of the store if there is none |
| DefaultStore.BoardBytes | QuarkPlatformPkg/Library/PeiMultiPlatSupportLib/PeiMultiPlatSupportLibOptSize.c:109-191 | a byte of the HOB of a board is the value of the last delta for it in sections 2 to k, in their order, and the byte of the base store if there is none |
| DefaultStore.FirstListing | QuarkPlatformPkg/Library/PeiMultiPlatSupportLib/PeiMultiPlatSupportLibOptSize.c:109-191 | the first section that lists the default and the board, and none before it does |
| DefaultStore.ApplyDeltas | QuarkPlatformPkg/Library/PeiMultiPlatSupportLib/PeiMultiPlatSupportLibOptSize.c:150-176 | applying a section in place keeps the HOB a moved copy of the store patched so far |
| DefaultStore.CreateOptSizeHob | QuarkPlatformPkg/Library/PeiMultiPlatSupportLib/PeiMultiPlatSupportLibOptSize.c:109-203 | the HOB holds, byte by byte, the base store with the deltas of sections 2 to k in order, k the first that lists the board; without one it is marked unused; in recovery mode the conversion is asked for exactly when an authenticated store was found |
| DefaultStore.OptSizeHobRecords | QuarkPlatformPkg/Library/PeiMultiPlatSupportLib/PeiMultiPlatSupportLibOptSize.c:109-191 | the walk of that HOB equals the walk of the patched base store, whatever the alignments of both |
| DefaultStore.ListsDefault | QuarkPlatformPkg/Library/PeiMultiPlatSupportLib/PeiMultiPlatSupportLib.c:100-108 | the entry loop answers whether the section lists the default and the board |
| DefaultStore.CreateDefaultVariableHob | QuarkPlatformPkg/Library/PeiMultiPlatSupportLib/PeiMultiPlatSupportLib.c:95-167 | the plain library copies the store of the first section that lists the board, and reports not-found exactly when none does; in recovery mode the conversion is asked for exactly when that store is authenticated |
| S3Script.AddressRoundTrip | QuarkPlatformPkg/Feature/PowerManagement/SleepSmm/SleepSmmPlatform.c:684-696 | a PCI register number packed for the boot script addresses the same register on replay |
| S3Script.CommandRoundTrip | QuarkPlatformPkg/Feature/PowerManagement/SleepSmm/SleepSmmPlatform.c:737-744 | port, register and opcode of a message-bus command read back from the command word |
| S3Script.ReplayPair | QuarkPlatformPkg/Feature/PowerManagement/SleepSmm/SleepSmmPlatform.c:730-744 | an MDR write followed by an MCR trigger performs exactly one message-bus write |
| S3Script.DeviceWritesContents | QuarkPlatformPkg/Feature/PowerManagement/SleepSmm/SleepSmmPlatform.c:672-700 | the dwords saved for a device are exactly those its mask selects, with the values at suspend |
| S3Script.PciWritesContents | QuarkPlatformPkg/Feature/PowerManagement/SleepSmm/SleepSmmPlatform.c:661-702 | over the whole table the saved dwords are exactly the selected ones of the devices present |
| S3Script.SavePciConfig | QuarkPlatformPkg/Feature/PowerManagement/SleepSmm/SleepSmmPlatform.c:661-702 | the table loop compiles exactly those PCI writes |
| S3Script.SaveDevice | QuarkPlatformPkg/Feature/PowerManagement/SleepSmm/SleepSmmPlatform.c:672-700 | the mask loop, whose bit starts over every eight dwords, compiles exactly the selected dwords of one device |
| S3Script.SaveDisarmed | QuarkPlatformPkg/Feature/PowerManagement/SleepSmm/SleepSmmPlatform.c:706-746 | the first message loop compiles every table register with lock, enable and access masks disarmed |
| S3Script.SaveArmed | QuarkPlatformPkg/Feature/PowerManagement/SleepSmm/SleepSmmPlatform.c:748-803 | the second loop compiles the arming writes: IMRxL on QUARK2, access masks elsewhere |
| S3Script.SaveRuntimeScriptTable | QuarkPlatformPkg/Feature/PowerManagement/SleepSmm/SleepSmmPlatform.c:640-832 | the compiled script for a register state, in order |
| S3Script.ReplayRestores | QuarkPlatformPkg/Feature/PowerManagement/SleepSmm/SleepSmmPlatform.c:661-832 | replaying from any state restores every selected PCI dword and every table register to its final value, changes no other register but MDR and MCR, and rewrites SMIE |
| S3Script.RegisterAfterReplay | QuarkPlatformPkg/Feature/PowerManagement/SleepSmm/SleepSmmPlatform.c:706-803 | bit by bit: an IMRxL of the table ends with every bit it had at suspend but the lock bit, which ends clear; access masks of QUARK2 end all-access; every other register of the table ends as it was |
| S3Script.ConfigAfterReplay | QuarkPlatformPkg/Feature/PowerManagement/SleepSmm/SleepSmmPlatform.c:661-702 | every dword whose mask bit is set, on a device whose vendor id answers, ends as it was at suspend |
| S3Script.OtherConfigAfterReplay | QuarkPlatformPkg/Feature/PowerManagement/SleepSmm/SleepSmmPlatform.c:661-702 | no other PCI register is written, but for MDR and MCR |
| S3Script.ScrubAfterReplay | QuarkPlatformPkg/Feature/PowerManagement/SleepSmm/SleepSmmPlatform.c:805-822 | scrubbing is resumed once if its active bit was set at suspend, and not otherwise |
| S3Script.RestoredExactlyWhen | QuarkPlatformPkg/Feature/PowerManagement/SleepSmm/SleepSmmPlatform.c:715-734 | a replay of the script, from any state, gives a table register the value it had at suspend (up to the lock bit of an IMRxL) if and only if it is not a QUARK2 access mask that was not all-access |
| S3Script.ReplayPrefix | QuarkPlatformPkg/Feature/PowerManagement/SleepSmm/SleepSmmPlatform.c:706-803 | after any prefix the message registers are those of a prefix of the first pass, or of all of it and a prefix of the second |
| S3Script.NeverHalfRestored | QuarkPlatformPkg/Feature/PowerManagement/SleepSmm/SleepSmmPlatform.c:706-803 | from a state with no IMR in force, after any number of entries either none is in force, or every H register is as at suspend and every L register has all bits it had but the lock bit and, on QUARK2, the enable bit |
| S3Tables.QuarkTablesValid | QuarkPlatformPkg/Feature/PowerManagement/SleepSmm/SleepSmmPlatform.c:46-166 | the two tables of the platform meet what the compiler needs |
| S3Tables.ImrInTable | QuarkPlatformPkg/Feature/PowerManagement/SleepSmm/SleepSmmPlatform.c:109-166 | every L, H and mask register of IMR0 to IMR7 is in the message table |
| S3Tables.QuarkNeverHalfRestored | QuarkPlatformPkg/Feature/PowerManagement/SleepSmm/SleepSmmPlatform.c:706-803 | for the tables of the platform this holds for all eight IMRs |
| MemoryMap.BlockCount | QuarkPlatformPkg/PlatformInit/PlatformInitPei/MrcWrapper.c:1242-1250 | the top bit of the TSEG mask: the power of two between half the mask and the mask |
| MemoryMap.LargestBlockCount | QuarkPlatformPkg/PlatformInit/PlatformInitPei/MrcWrapper.c:1242-1252 | the shifting loop computes that count, also for mask 0 |
| MemoryMap.TsegIsLargest | QuarkPlatformPkg/PlatformInit/PlatformInitPei/MrcWrapper.c:1238-1259 | TSEG is at most the configured size and no larger power-of-two count of 128 KB blocks is |
| MemoryMap.GetMemoryMap | QuarkPlatformPkg/PlatformInit/PlatformInitPei/MrcWrapper.c:1178-1288 | the filled array is the map of the total size; too few entries change nothing |
| MemoryMap.MapPartitions | QuarkPlatformPkg/PlatformInit/PlatformInitPei/MrcWrapper.c:1200-1285 | every address below the total is in exactly one range and no other is in any, whatever the TSEG size |
| MemoryMap.MapKinds | QuarkPlatformPkg/PlatformInit/PlatformInitPei/MrcWrapper.c:1200-1285 | which addresses are main memory, which are SMRAM and which are reserved: the legacy hole and the RMU shadow |
| MemoryInstall.PeiMemoryIsHighest | QuarkPlatformPkg/PlatformInit/PlatformInitPei/MrcWrapper.c:636-675 | no range that can hold PEI memory has a higher top than the chosen one |
| MemoryInstall.ChoosePeiMemory | QuarkPlatformPkg/PlatformInit/PlatformInitPei/MrcWrapper.c:636-675 | the loop chooses the top of the last range that fits, and on a request to overwrite memory clears exactly the bytes of main memory |
| MemoryInstall.LargestFreeRange | QuarkPlatformPkg/PlatformInit/PlatformInitPei/MrcWrapper.c:680-697 | the capsule buffer is a usable range short of PEI memory, and none is longer; without room for PEI memory it still starts at a usable range or is empty |
| MemoryInstall.CapsuleAvoidsPei | QuarkPlatformPkg/PlatformInit/PlatformInitPei/MrcWrapper.c:680-697 | no byte of the capsule buffer is PEI memory |
| MemoryInstall.BuffersInMain | QuarkPlatformPkg/PlatformInit/PlatformInitPei/MrcWrapper.c:636-697 | every byte of PEI memory and of the capsule buffer is main memory below the limit |
| MemoryInstall.BuildDescriptors | QuarkPlatformPkg/PlatformInit/PlatformInitPei/MrcWrapper.c:749-842 | the emitted descriptors are one for PEI memory, with the TESTED attribute, and one for each range, with the cache attribute of its kind |
| MemoryInstall.DescriptorsCoverRanges | QuarkPlatformPkg/PlatformInit/PlatformInitPei/MrcWrapper.c:749-842 | each address lies in as many descriptors as ranges |
| MemoryInstall.ColdDescriptorsPartition | QuarkPlatformPkg/PlatformInit/PlatformInitPei/MrcWrapper.c:636-842 | the descriptors partition [0, total) if and only if some range can hold PEI memory |
| MemoryInstall.ColdKinds | QuarkPlatformPkg/PlatformInit/PlatformInitPei/MrcWrapper.c:749-842 | which addresses the descriptors of a cold boot call reserved and, if some range can hold PEI memory, system memory; only PEI memory has the TESTED attribute |
| MemoryInstall.SumSystemMemory | QuarkPlatformPkg/PlatformInit/PlatformInitPei/MrcWrapper.c:1649-1679 | the loop sums the system memory descriptors from 1 MB on, 64-bit sums cut to 32 bits |
| MemoryInstall.SumAtSuspend | QuarkPlatformPkg/Feature/PowerManagement/SleepSmm/SleepSmmPlatform.c:297-319 | the 32-bit loop of the suspend side gives the same number |
| MemoryInstall.ColdSumIsRmuBase | QuarkPlatformPkg/PlatformInit/PlatformInitPei/MrcWrapper.c:1649-1679 | on a cold boot that sum is the address the map reserves for the RMU shadow, whatever unrelated descriptors surround it and whether or not a range can hold PEI memory |
| MemoryInstall.InstallEfiMemory | QuarkPlatformPkg/PlatformInit/PlatformInitPei/MrcWrapper.c:538-842 | the cold path end to end, for every map: which addresses are in system and in reserved descriptors, which bytes are cleared on request, PEI base, SMRAM descriptors with their state, and the capsule buffer if some range can hold PEI memory |
| MemoryInstall.PeiTopIsRmuBase | QuarkPlatformPkg/PlatformInit/PlatformInitPei/MrcWrapper.c:666-674 | PEI memory taken above 1 MB ends where the RMU shadow begins |
| MemoryInstall.SmramDescriptors | QuarkPlatformPkg/PlatformInit/PlatformInitPei/MrcWrapper.c:858-880 | the SMRAM descriptors are those of the SMRAM ranges in order, with their state |
| MemoryInstall.Smram.ReservedS3Memory | QuarkPlatformPkg/Feature/PowerManagement/SleepSmm/SleepSmmPlatform.c:201-272 | the range data in TSEG gets the system memory length and, if there is one, the ACPI buffer; nothing else changes |
| MemoryInstall.InstallS3Memory | QuarkPlatformPkg/PlatformInit/PlatformInitPei/MrcWrapper.c:917-1070 | the resume path finds the saved data through the same map and emits its descriptors |
| MemoryInstall.ResumeDescriptors | QuarkPlatformPkg/PlatformInit/PlatformInitPei/MrcWrapper.c:1037-1071 | the resume path emits one descriptor from 1 MB over the saved length, whose 32-bit difference may wrap, and one for each main range below |
| MemoryInstall.ResumeKinds | QuarkPlatformPkg/PlatformInit/PlatformInitPei/MrcWrapper.c:1037-1071 | on resume system memory is what is below the legacy hole and from 1 MB up to the saved length |
| MemoryInstall.ResumeSumIsSaved | QuarkPlatformPkg/PlatformInit/PlatformInitPei/MrcWrapper.c:1037-1050 | the sum over the resume descriptors is the saved length, for every 32-bit length |
| MemoryInstall.BootsAgreeOnRmu | QuarkPlatformPkg/Feature/PowerManagement/SleepSmm/SleepSmmPlatform.c:308-324 | for every map, the descriptors of the cold boot and those that the resume path makes from their sum give the same sum, the RMU base |
| MemoryInstall.ColdBootThenResume | QuarkPlatformPkg/Feature/PowerManagement/SleepSmm/SleepSmmPlatform.c:201-324 | for every map: a cold boot, the sum and the save into TSEG at suspend and a resume, each among unrelated HOBs: both sums are the RMU base of the cold map |
| MemoryInstall.GetPlatformMemorySize | QuarkPlatformPkg/PlatformInit/PlatformInitPei/MrcWrapper.c:1330-1416 | the PEI memory size from the type information, with the default list in recovery or without a variable |
| MemoryInstall.RetriveRequiredMemorySize | QuarkPlatformPkg/PlatformInit/PlatformInitPei/MrcWrapper.c:1087-1136 | the pages before the end marker plus the DXE pages, 0 if there are none |
| MemoryInstall.SumPagesOf | QuarkPlatformPkg/PlatformInit/PlatformInitPei/MrcWrapper.c:1112-1128 | every entry of the type information counts once |
| MemoryInstall.RequiredFitsPei | QuarkPlatformPkg/PlatformInit/PlatformInitPei/MrcWrapper.c:609-620 | the memory kept back always leaves PEI at least 48 MB less the DXE pages |
| BlockMap.CountsAgree | QuarkPlatformPkg/Flash/SpiFvbServices/FwBlockService.c:1890-1901 | the blocks a lookup reaches are the blocks counted at initialisation if and only if no zero-length run precedes the end |
| BlockMap.ExtentsDisjoint | QuarkPlatformPkg/Flash/SpiFvbServices/FwBlockService.c:381-425 | an earlier block ends at or before the start of a later one |
| BlockMap.BlockOfOffset | QuarkPlatformPkg/Flash/SpiFvbServices/FwBlockService.c:381-425 | every offset of the volume lies in some block |
| BlockMap.FindBlock | QuarkPlatformPkg/Flash/SpiFvbServices/FwBlockService.c:381-425 | the lookup returns the summed length of all earlier blocks, the block length and a run of equally long blocks; it fails exactly when the block is not reachable |
| BlockMap.CountBlocks | QuarkPlatformPkg/Flash/SpiFvbServices/FwBlockService.c:1890-1901 | the initialisation loop counts the blocks and bounds every block length |
| FlashAttributes.SetAttributes | QuarkPlatformPkg/Flash/SpiFvbServices/FwBlockService.c:969-1026 | success if and only if the capabilities allow every status bit and a set lock allows no change; each error in the order of the code; on success the status bits are the requested ones and all others stay |
| FlashAttributes.SupportedMeans | QuarkPlatformPkg/Flash/SpiFvbServices/FwBlockService.c:985-1019 | what the capabilities allow, bit by bit |
| FlashAttributes.StatusMeans | QuarkPlatformPkg/Flash/SpiFvbServices/FwBlockService.c:969-973 | which bits are status bits |
| FlashAttributes.SuccessIsStep | QuarkPlatformPkg/Flash/SpiFvbServices/FwBlockService.c:975-983 | once locked, even a successful call changes no attribute bit |
| FlashAttributes.StepKeepsCapabilities | QuarkPlatformPkg/Flash/SpiFvbServices/FwBlockService.c:1021-1023 | no permitted step changes a capability bit |
| FlashDriver.Program | QuarkPlatformPkg/Flash/SpiFvbServices/FwBlockService.c:515-575 | programming can only clear bits; a failing device may stop anywhere |
| FlashDriver.EraseSector | QuarkPlatformPkg/Flash/SpiFvbServices/FwBlockService.c:576-630 | one erase operation sets the 4 KB sector of the address to 0xFF |
| FlashDriver.BlockInVolume | QuarkPlatformPkg/Flash/SpiFvbServices/FwBlockService.c:381-425 | every block lies inside its volume and is sector-aligned |
| FlashDriver.CountVolumes | QuarkPlatformPkg/Flash/SpiFvbServices/FwBlockService.c:1846-1917 | initialisation counts the blocks of every volume and finds a length that no block exceeds |
| FlashDriver.FvbDriver.constructor | QuarkPlatformPkg/Flash/SpiFvbServices/FwBlockService.c:1846-2038 | from the block maps of disjoint volumes, initialisation builds a valid driver whose scratch space holds every block |
| FlashDriver.ReadCheckMeans | QuarkPlatformPkg/Flash/SpiFvbServices/FwBlockService.c:470-505 | the answer to a read, by the bits of the attributes and the place in the block |
| FlashDriver.WriteCheckMeans | QuarkPlatformPkg/Flash/SpiFvbServices/FwBlockService.c:687-735 | the answer to a write, likewise |
| FlashDriver.EraseCheckMeans | QuarkPlatformPkg/Flash/SpiFvbServices/FwBlockService.c:789-812 | the answer to an erase |
| FlashDriver.ClippedMeans | QuarkPlatformPkg/Flash/SpiFvbServices/FwBlockService.c:503-506 | a transfer is as long as asked for, or up to the end of the block |
| FlashDriver.FvbDriver.FvbReadBlock | QuarkPlatformPkg/Flash/SpiFvbServices/FwBlockService.c:429-512 | a read is clipped at the block end, returns those bytes and leaves the rest of the buffer; every error case |
| FlashDriver.FvbDriver.FvbWriteBlock | QuarkPlatformPkg/Flash/SpiFvbServices/FwBlockService.c:632-740 | a write is clipped at the block end and programs exactly those bytes; every error case leaves flash unchanged |
| FlashDriver.FvbDriver.FvbEraseBlock | QuarkPlatformPkg/Flash/SpiFvbServices/FwBlockService.c:743-826 | the sector loop erases exactly the block |
| FlashDriver.ErasedRequestsAt | QuarkPlatformPkg/Flash/SpiFvbServices/FwBlockService.c:1211-1258 | erasing the requests sets exactly the union of the requested blocks to 0xFF and leaves every other byte |
| FlashDriver.FvbDriver.EraseRequest | QuarkPlatformPkg/Flash/SpiFvbServices/FwBlockService.c:1240-1258 | the loop over one pair erases exactly its blocks, or finds at once that the first does not exist |
| FlashDriver.FvbDriver.FvbProtocolEraseBlocks | QuarkPlatformPkg/Flash/SpiFvbServices/FwBlockService.c:1164-1258 | a list that the validation rejects changes nothing; an accepted one erases exactly the pairs before the first whose 64-bit sum wraps, and succeeds if and only if there is none |
| FlashDriver.OutOfRangeUnchangedWhen | QuarkPlatformPkg/Flash/SpiFvbServices/FwBlockService.c:1211-1258 | a list with an empty or out-of-range pair leaves every flash unchanged if and only if the validation rejects it, its first pair is the wrapping one, or the volume cannot be written |
| FlashDriver.PlainListRejected | QuarkPlatformPkg/Flash/SpiFvbServices/FwBlockService.c:1211-1234 | the validation rejects every such list in which no sum wraps |
| FlashDriver.WrappingList | QuarkPlatformPkg/Flash/SpiFvbServices/FwBlockService.c:1211-1258 | a list that passes although its second pair is out of range, so that block 0 is erased |
| FlashDriver.CustomErasedAt | QuarkPlatformPkg/Flash/SpiFvbServices/FwBlockService.c:867-917 | every byte after a custom-range erase of a writable volume, readable or not, block lengths equal or not, for any content of the scratch space |
| FlashDriver.CustomEraseMeetsRequest | QuarkPlatformPkg/Flash/SpiFvbServices/FwBlockService.c:867-917 | readable or not, the requested span is erased and no byte outside the blocks changes |
| FlashDriver.FrontKeptExactlyWhen | QuarkPlatformPkg/Flash/SpiFvbServices/FwBlockService.c:867-889 | on a writable volume the first block keeps its bytes below the start offset for every content of the scratch space if and only if the volume can be read or the start offset is 0 |
| FlashDriver.StaleFront | QuarkPlatformPkg/Flash/SpiFvbServices/FwBlockService.c:876-889 | on a writable volume that cannot be read those bytes become what the scratch space held before |
| FlashDriver.UnreadableAllowed | QuarkPlatformPkg/Flash/SpiFvbServices/FwBlockService.c:985-1023 | one permitted change of attributes takes an unlocked volume with that capability there |
| FlashDriver.CustomEraseTail | QuarkPlatformPkg/Flash/SpiFvbServices/FwBlockService.c:907-917 | the exact bytes behind the end offset: what was saved of the front of the last block, as many bytes as the start offset leaves, and 0xFF after them |
| FlashDriver.FinalLengthMeans | QuarkPlatformPkg/Flash/SpiFvbServices/FwBlockService.c:866-907 | which lookup sets the block length that sizes the final write |
| FlashDriver.FvbDriver.EraseFirst | QuarkPlatformPkg/Flash/SpiFvbServices/FwBlockService.c:867-889 | the first block is read if it can be, erased, and its bytes below the start offset are written from the scratch space |
| FlashDriver.FvbDriver.EraseMiddle | QuarkPlatformPkg/Flash/SpiFvbServices/FwBlockService.c:890-897 | the blocks strictly between are erased |
| FlashDriver.FvbDriver.EraseLast | QuarkPlatformPkg/Flash/SpiFvbServices/FwBlockService.c:898-905 | the last block, if it is not the first, is read if it can be, and erased |
| FlashDriver.FvbDriver.WriteTail | QuarkPlatformPkg/Flash/SpiFvbServices/FwBlockService.c:907-917 | the final write behind the end offset, with its answer |
| FlashDriver.FvbDriver.FvbEraseCustomBlockRange | QuarkPlatformPkg/Flash/SpiFvbServices/FwBlockService.c:867-917 | for any block numbers: changes only what a permitted step may, touches only the blocks from the first to the last, only if the volume is writable, and gives exactly those bytes on a writable volume, readable or not, when no device operation fails; the answer of the final write |
| FlashDriver.FvbDriver.FvbSetVolumeAttributes | QuarkPlatformPkg/Flash/SpiFvbServices/FwBlockService.c:921-1027 | updates the attributes of one volume by a permitted step and no other volume |
| FlashDriver.FrozenForever | QuarkPlatformPkg/Flash/SpiFvbServices/FwBlockService.c:969-1026 | in every run of permitted steps a volume that is locked with its write status clear keeps every byte and every attribute |
| FlashDriver.CapabilitiesForever | QuarkPlatformPkg/Flash/SpiFvbServices/FwBlockService.c:969-1026 | in every run no capability bit changes |
| FlashDriver.FvbDriver.Serve | QuarkPlatformPkg/Flash/SpiFvbServices/FwBlockService.c:632-1027 | every write, erase, custom-range erase and attribute call, with any block numbers, is a permitted step |
| FlashDriver.FvbDriver.ServeAll | QuarkPlatformPkg/Flash/SpiFvbServices/FwBlockService.c:632-1027 | over any sequence of such calls a locked, write-disabled volume keeps its bytes and attributes, and every volume its capabilities |
| Madt.Encode | QuarkPlatformPkg/Acpi/AcpiPlatform/MadtPlatform.c:235-303 | the bytes of each structure start with its type and its length, and are as many as the length says |
| Madt.EncodeInjective | QuarkPlatformPkg/Acpi/AcpiPlatform/MadtPlatform.c:235-303 | a structure can be read back from its bytes |
| Madt.HoldsUnique | QuarkPlatformPkg/Acpi/AcpiPlatform/MadtPlatform.c:235-303 | a table holds one list of structures at most |
| Madt.GetActualMadtTableSize | QuarkPlatformPkg/Acpi/AcpiPlatform/MadtPlatform.c:139-164 | for every configuration and up to 31 processors the precomputed size is that of the structures the builder has to write |
| Madt.FixedAt | QuarkPlatformPkg/Acpi/AcpiPlatform/MadtPlatform.c:250-302 | the IO APIC, NMI source and address override stand at their places with the configured fields, and the list has no further structures |
| Madt.OverrideAt | QuarkPlatformPkg/Acpi/AcpiPlatform/MadtPlatform.c:257-267 | every enabled interrupt setting has its override, with its source, interrupt and flags, right after those of the enabled settings before it |
| Madt.LocalNmiAt | QuarkPlatformPkg/Acpi/AcpiPlatform/MadtPlatform.c:283-293 | every processor in the mask has its NMI structure, with processor number, input and flags, right after those of the processors before it |
| Madt.FlagBitsMean | QuarkPlatformPkg/Acpi/AcpiPlatform/MadtPlatform.c:263-288 | bits 1 and 0 of the flags are those of the polarity, bits 3 and 2 those of the trigger mode |
| Madt.NmiOnMeans | QuarkPlatformPkg/Acpi/AcpiPlatform/MadtPlatform.c:284 | the bits of the processor mask are counted from the lowest |
| Madt.Store | QuarkPlatformPkg/Acpi/AcpiPlatform/MadtPlatform.c:239-301 | the field stores of a structure on zeroed memory leave its whole encoding, reserved bytes included |
| Madt.Append | QuarkPlatformPkg/Acpi/AcpiPlatform/MadtPlatform.c:235-303 | writing the next structure stays inside the table, keeps the ones before it and moves the pointer by its length |
| Madt.AppendOverrides | QuarkPlatformPkg/Acpi/AcpiPlatform/MadtPlatform.c:257-267 | the loop writes exactly the overrides of the enabled settings |
| Madt.AppendLocalNmis | QuarkPlatformPkg/Acpi/AcpiPlatform/MadtPlatform.c:283-293 | the loop writes exactly the NMI structures of the mask |
| Madt.HeaderFields | QuarkPlatformPkg/Acpi/AcpiPlatform/MadtPlatform.c:218-233 | where the fields of the table header are, and that they hold the given values |
| Madt.MadtTableInitialize | QuarkPlatformPkg/Acpi/AcpiPlatform/MadtPlatform.c:212-306 | the table is as long as its length field says and holds exactly the structures of the configuration |
| MadtUpdate.ApicTableUpdate | QuarkPlatformPkg/Acpi/AcpiPlatform/AcpiPlatform.c:284-343 | on a table of any structures the walk stops exactly at the length field, gives the k-th Local APIC the k-th processor, patches the first IO APIC and changes nothing else; without the services it changes nothing |
| MadtUpdate.UpdateOne | QuarkPlatformPkg/Acpi/AcpiPlatform/AcpiPlatform.c:290-343 | one turn of the walk patches the structure at the pointer, counts it and moves to the next |
| MadtUpdate.UpdateLocal | QuarkPlatformPkg/Acpi/AcpiPlatform/AcpiPlatform.c:296-315 | identifier and flags are cleared, and set again only from information that was given |
| MadtUpdate.UpdateIo | QuarkPlatformPkg/Acpi/AcpiPlatform/AcpiPlatform.c:317-336 | identifier and address are stored and the interrupt base becomes 0 |
| MadtUpdate.UpdatedMadt | QuarkPlatformPkg/Acpi/AcpiPlatform/AcpiPlatform.c:290-343 | in the table of a configuration one IO APIC is met, processor k gives Local APIC k its identifier and its enabled flag, both 0 without information, and all other structures stay as built |
| MadtUpdate.StoreChecksum | QuarkPlatformPkg/Acpi/AcpiPlatform/AcpiPlatform.c:651-656 | with the checksum stored the bytes of the table sum to 0 modulo 256, and no other byte changes |
| MadtUpdate.InstallMadt | QuarkPlatformPkg/Acpi/AcpiPlatform/AcpiPlatform.c:643-668 | the installed table holds the structures of the configuration with each Local APIC patched from its processor, sums to 0 modulo 256, and its header is as built but for the checksum; the version says whether the services were there |
| SpiProtect.FieldsReadBack | QuarkPlatformPkg/Library/PlatformHelperLib/PlatformHelperLib.c:179-190 | base and limit fields read back as they were packed, with the enable bit set |
| SpiProtect.AlignedRange | QuarkPlatformPkg/Library/PlatformHelperLib/PlatformHelperLib.c:65-73 | a page-aligned range inside 16 MB is protected exactly up to the end of its last page |
| SpiProtect.EmptyRangeAtZero | QuarkPlatformPkg/Library/PlatformHelperLib/PlatformHelperLib.c:65-69 | a range of length 0 at 0 wraps to all 16 MB |
| SpiProtect.DirectValue | QuarkPlatformPkg/Library/PlatformHelperLib/PlatformHelperLib.c:57-73 | a value given directly is written as it is, with the enable bit |
| SpiProtect.WrittenIsUsed | QuarkPlatformPkg/Library/PlatformHelperLib/PlatformHelperLib.c:64-73 | no register value written looks like a free register |
| SpiProtect.ProtectedRangeBytes | QuarkPlatformPkg/Library/PlatformHelperLib/PlatformHelperLib.c:163-201 | every byte of a range found protected is protected |
| SpiProtect.GrowKeepsProtection | QuarkPlatformPkg/Library/PlatformHelperLib/PlatformHelperLib.c:163-201 | as registers fill up, a protected range stays protected |
| SpiProtect.SpiController.WriteFirstFree | QuarkPlatformPkg/Library/PlatformHelperLib/PlatformHelperLib.c:31-84 | the first free register takes the value unless the controller is locked; no other register changes; each status |
| SpiProtect.SpiController.PlatformWriteFirstFree | QuarkPlatformPkg/Library/PlatformHelperLib/PlatformHelperDxe.c:112-155 | a write that took effect, and no other, goes to the S3 script, so that replaying the script on free registers gives the current ones |
| SpiProtect.SpiController.IsRangeProtected | QuarkPlatformPkg/Library/PlatformHelperLib/PlatformHelperLib.c:163-201 | true if and only if one register covers the whole range |
| SpiProtect.SpiController.ProtectRange | QuarkPlatformPkg/Library/PlatformHelperLib/PlatformHelperDxe.c:271-286 | a range that is not protected is written to a free register; whether that was tried and worked |
| SpiProtect.SpiController.FlashLockPolicy | QuarkPlatformPkg/Library/PlatformHelperLib/PlatformHelperDxe.c:234-326 | what each boot mode protects and locks, and how many register writes it tries |
| SpiProtect.SucceedsMeans | QuarkPlatformPkg/Library/PlatformHelperLib/PlatformHelperDxe.c:271-303 | when a step of the policy succeeds |
| SpiProtect.ProtectsExactlyWhen | QuarkPlatformPkg/Library/PlatformHelperLib/PlatformHelperDxe.c:260-318 | on a normal boot from free registers the protected flash is exactly that whose CPU address is outside NV storage if and only if NV storage is made of whole 4 KB pages and does not start the device |
| SpiProtect.SecondRun | QuarkPlatformPkg/Library/PlatformHelperLib/PlatformHelperDxe.c:260-318 | for page-aligned NV storage a second run changes no register, and tries no write unless NV storage starts the device |
| SpiProtect.PolicyGrows | QuarkPlatformPkg/Library/PlatformHelperLib/PlatformHelperDxe.c:260-318 | a policy call overwrites no used register |
| SpiProtect.CallGrows | QuarkPlatformPkg/Library/PlatformHelperLib/PlatformHelperLib.c:31-84 | no range write, policy call or lock overwrites a used register, and none changes anything once the configuration is locked |
| SpiProtect.RunKeepsProtection | QuarkPlatformPkg/Library/PlatformHelperLib/PlatformHelperLib.c:46-83 | over every sequence of range writes, policy calls and configuration locks a used register keeps its value and a protected range stays protected |
| SpiProtect.LockedForever | QuarkPlatformPkg/Library/PlatformHelperLib/PlatformHelperLib.c:46-83 | once the configuration is locked, no sequence of calls changes a register |
| SpiProtect.SpiController.Serve | QuarkPlatformPkg/Library/PlatformHelperLib/PlatformHelperDxe.c:112-326 | each call changes the registers and the lock as specified, and replaying the S3 script goes on to restore them |
| SpiProtect.SpiController.ServeAll | QuarkPlatformPkg/Library/PlatformHelperLib/PlatformHelperDxe.c:112-326 | over any sequence of calls no used register is overwritten, every protected range stays protected, a locked controller does not change, and a replay of the S3 script on free registers restores the protection |
| TpmInfineon.GuardTimeKept | QuarkPlatformPkg/Library/Tpm12DeviceLibInfineonI2c/TisPc.c:147-169 | in a guarded trace every write that follows a read comes at least 250 us after it |
| TpmInfineon.BurstKept | QuarkPlatformPkg/Library/Tpm12DeviceLibInfineonI2c/TisPc.c:334-350 | in a trace within its bursts no more FIFO bytes follow a burst count than 256 times the byte last read from the high count register plus the one last read from the low |
| TpmInfineon.WithinKeepsBursts | QuarkPlatformPkg/Library/Tpm12DeviceLibInfineonI2c/TisPc.c:322-352 | so for every count of the trace, and likewise for the guard time of every write |
| TpmInfineon.Tpm.TpmWriteByte | QuarkPlatformPkg/Library/Tpm12DeviceLibInfineonI2c/TisPc.c:128-169 | one register write, guard time kept |
| TpmInfineon.Tpm.ReadOnce | QuarkPlatformPkg/Library/Tpm12DeviceLibInfineonI2c/TisPc.c:213-266 | one register transfer, guard time kept before it and owed after it |
| TpmInfineon.Tpm.TpmReadByte | QuarkPlatformPkg/Library/Tpm12DeviceLibInfineonI2c/TisPc.c:185-278 | at most three tries, only while the answer is 0xFF, and one for the FIFO; guard time kept |
| TpmInfineon.Tpm.WaitRegisterBits | QuarkPlatformPkg/Library/Tpm12DeviceLibInfineonI2c/TisPc.c:292-313 | success rests on the value read last, which has all bits of one mask and none of the other; a timeout means that the time has passed and that no value had them, but for an 0xFF that was tried again |
| TpmInfineon.Tpm.ReadBurstCount | QuarkPlatformPkg/Library/Tpm12DeviceLibInfineonI2c/TisPc.c:322-352 | the count is 256 times the byte last read from the high register plus the one last read from the low, in that order; if it is 0 the time has passed |
| TpmInfineon.Tpm.RequestUseTpm | QuarkPlatformPkg/Library/Tpm12DeviceLibInfineonI2c/TisPc.c:386-413 | not-found means that every try read 0xFF from the access register and nothing was written; otherwise the register answered and the request is written once; success means that the device then said that it is active |
| TpmInfineon.Tpm.PrepareCommand | QuarkPlatformPkg/Library/Tpm12DeviceLibInfineonI2c/TisPc.c:361-376 | the ready command is written once before the wait; success means that the device said that it is ready, a timeout that it did not within two seconds |
| TpmInfineon.Tpm.SendBytes | QuarkPlatformPkg/Library/Tpm12DeviceLibInfineonI2c/TisPc.c:438-449 | the FIFO gets a prefix of the command in order, all of it exactly on success, within the announced bursts |
| TpmInfineon.Tpm.ReadBurst | QuarkPlatformPkg/Library/Tpm12DeviceLibInfineonI2c/TisPc.c:527-532 | the bytes of a burst go into the buffer in order, never past the end asked for |
| TpmInfineon.Tpm.ReadUpTo | QuarkPlatformPkg/Library/Tpm12DeviceLibInfineonI2c/TisPc.c:519-576 | reading stops at the end asked for, or when no burst is announced in time |
| TpmInfineon.Tpm.TisPcSend | QuarkPlatformPkg/Library/Tpm12DeviceLibInfineonI2c/TisPc.c:424-477 | success means ready, every command byte in order exactly once, and go; no byte before the device said that it is ready, and go last, after it said that it expects no more; otherwise ready, a prefix and ready again; never beyond the burst announced last; for any device behaviour |
| TpmInfineon.Tpm.TisPcReceive | QuarkPlatformPkg/Library/Tpm12DeviceLibInfineonI2c/TisPc.c:492-585 | the buffer holds the FIFO bytes in order, as many as the header decides, none read before the device said that an answer is there; every status; the device is told to be ready in the end |
| TpmInfineon.Tpm.ReadResponse | QuarkPlatformPkg/Library/Tpm12DeviceLibInfineonI2c/TisPc.c:505-576 | the header is read first, and as much behind it as it says |
| TpmResponse.JudgeMeans | QuarkPlatformPkg/Library/Tpm12DeviceLibInfineonI2c/TisPc.c:536-556 | what the header decides, by its bytes: the tag, and the size with its most significant byte first |
| TpmInfineon.Tpm.SubmitCommand | QuarkPlatformPkg/Library/Tpm12DeviceLibInfineonI2c/TisPc.c:604-618 | a successful command was sent whole and its answer is complete |
| TpmAtmel.DeltaIsTicksWhen | QuarkPlatformPkg/Library/Tpm12DeviceLibAtmelI2c/TisPc.c:191-225 | the ticks between two polls less than a period apart are counted for all polls, up or down, if and only if the span of the counter is below 2^63 |
| TpmAtmel.FullWidthDelta | QuarkPlatformPkg/Library/Tpm12DeviceLibAtmelI2c/TisPc.c:191-225 | a counter of all 64 bits is read right below 2^63 ticks although its cycle is wrong |
| TpmAtmel.AccumulatedIsElapsed | QuarkPlatformPkg/Library/Tpm12DeviceLibAtmelI2c/TisPc.c:207-225 | over any number of polls and of turns of the counter the total is the time since the first poll |
| TpmAtmel.ChunksCarry | QuarkPlatformPkg/Library/Tpm12DeviceLibAtmelI2c/TisPc.c:53-94 | the transfers concatenate to the buffer, none is empty or longer than 16 bytes, and all but the last are 16 |
| TpmAtmel.LimitIsTimeout | QuarkPlatformPkg/Library/Tpm12DeviceLibAtmelI2c/TisPc.c:192-197 | the limit is the whole ticks of 750 ms, unless the 64-bit product wraps |
| TpmAtmel.Tpm.WriteTpmBufferMultiple | QuarkPlatformPkg/Library/Tpm12DeviceLibAtmelI2c/TisPc.c:53-94 | success sends all transfers in order, failure a non-empty prefix |
| TpmAtmel.Tpm.ReadTpmBufferMultiple | QuarkPlatformPkg/Library/Tpm12DeviceLibAtmelI2c/TisPc.c:105-147 | success fills exactly the asked bytes from the transfers in order; other bytes stay |
| TpmAtmel.Tpm.Poll | QuarkPlatformPkg/Library/Tpm12DeviceLibAtmelI2c/TisPc.c:319-328 | the total stays the time since entry |
| TpmAtmel.Tpm.SendPhase | QuarkPlatformPkg/Library/Tpm12DeviceLibAtmelI2c/TisPc.c:316-333 | the command is sent whole in this phase unless the time is up at the first poll at or past the limit |
| TpmAtmel.Tpm.ReadPhase | QuarkPlatformPkg/Library/Tpm12DeviceLibAtmelI2c/TisPc.c:338-355 | the bytes are read whole in this phase unless the time is up at the first poll at or past the limit |
| TpmAtmel.Tpm.RequestUseTpm | QuarkPlatformPkg/Library/Tpm12DeviceLibAtmelI2c/TisPc.c:159-237 | the timeout is taken at exactly the first poll at or past the limit; until then only reads are tried |
| TpmAtmel.Tpm.SubmitCommand | QuarkPlatformPkg/Library/Tpm12DeviceLibAtmelI2c/TisPc.c:256-419 | over all three phases the call times out at exactly the first later poll at or past the limit, even after a successful attempt; otherwise the transfers of this call are writes that end with the whole command, then reads that end with the header, then, if the header asks for it, reads that end with the rest, and the header decides the status |

## Left out

- Protocol and PPI location, HOB and pool allocation, PCD reads, boot mode queries, debug output, SMM registration: their
  results are parameters, or memory that the methods allocate.
- Constants of headers outside the repository are parameters or take their standard values: header alignment, padding and
  variable header sizes, the SoC port numbers and register numbers, the bit positions of the protected range registers, and
  the mask of the TSEG size field, which is taken to hold every block count.
- A failing ASSERT stops a debug build. The model goes on as a release build does, or requires what the ASSERT demands
  (memory room, end of NV storage).
- Wrap-around of 32-bit sizes and addresses in the variable store and the memory map: buffers and memory are taken to end
  below the wrap. 64-bit descriptor lengths and the 32-bit arithmetic of the SPI ranges do wrap.
- VariableConvert.BuildDefaultDataHobForRecoveryVariable: takes stores whose walk stays inside the buffer, with the name and
  data bytes that the size fields of added records count.
- VariableConvert.CopyRecord: takes such records.
- VariableAccess.FindVariableFromHob: which HOB is there, and so the header format of its records, is a parameter.
- VariableSet.SetVariableToHob: takes buffers in which the search for the name ends inside the buffer. Where a set changes the
  sizes, the store after it is given as bytes, and `SetKeepsOthersWhen` says what becomes of its walk.
- DefaultStore.RelocateStore: takes a store whose size reaches its first aligned data position; below that the length of the
  copy wraps.
- DefaultStore.CreateDefaultVariableHob: takes stores of such sizes.
- DefaultStore.CreateOptSizeHob: takes a base store of such a size, and deltas inside the variable data in the sections read.
  The byte format of firmware file sections is not parsed: sections are lists of entries and deltas. The registration of the
  notification that runs the conversion is the result `convert`.
- S3Script.SaveRuntimeScriptTable: PCI registers are 32-bit dwords of 256-byte spaces, and the replay executes entries one
  after the other with no other writer.
- MemoryMap.GetMemoryMap: leaves out the write of the TSEG bounds to the HSMMC register.
- MemoryInstall.InstallEfiMemory: the calls of the capsule PPI are not modelled.
- FlashDriver.FvbDriver.constructor: takes flash of at most half the 32-bit address space.
- FlashDriver.FvbDriver.FvbReadBlock: for an offset inside the block, takes a byte count whose sum with it stays below 2^32,
  as it does for a buffer beside flash in a 32-bit address space; the clip test adds them.
- FlashDriver.FvbDriver.FvbWriteBlock: takes such a byte count and offset too.
- FlashDriver.FvbDriver.FvbEraseCustomBlockRange: takes any block numbers and end offset, but a start offset below the block
  length used, without which the byte count of the final write underflows; the code checks nothing.
- FlashDriver.FvbDriver.Serve: the calls meet these same bounds.
- FlashDriver.FvbDriver.ServeAll: the calls meet these same bounds.
- FlashDriver.Program: flash parts erase in 4 KB sectors; the opcode selection of the SPI driver is not modelled.
- Virtual-mode addresses, the memory-mapped write addresses of volumes and the healing of volume headers.
- Madt.MadtTableInitialize: up to 31 processors, the range of the mask shift in the code.
- SpiProtect.ProtectsExactlyWhen: flash of at most 16 MB, which is what the registers can name, and NV storage that is not
  empty.
- PlatformClearSpiProtect, which reads back only the first of the three registers that it clears.
- TpmInfineon.Tpm.TisPcReceive: takes an output buffer of at least ten bytes; the code writes the header past a shorter one.
  It does not bound the FIFO reads by the announced burst; the header loop leaves the last byte of the header counted.
- TpmInfineon.Tpm.SubmitCommand: takes such a buffer too.
- TpmAtmel.Tpm.SubmitCommand: an attempt takes at least one tick and less than the counter can tell apart; an empty command,
  for which the code returns an unset status, is not modelled.
- Tpm12PhysicalPresence is not part of this model; its answer is a parameter of `TpmAtmel.Tpm.RequestUseTpm`.
- GPIO, USB, PCIe and board initialisation, SMBIOS, boot manager, `AcpiPciUpdate.c`, memory training and thermal code: no
  invariant, or straight-line register programming.
