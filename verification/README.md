# Mangrove: what its core code is proved to do

A Dafny model of the five parts of Mangrove that keep state or read a format,
with the properties each is built for. Every statement is for all inputs, all
runs or all reachable states; code that works in place is modelled by classes
and loops that are proved against specification functions.

**MGFS, the native filesystem.** One writer, one formatter, two readers and a
checker of one format. The image is a sequence of 4096-byte blocks and CRC-64 is
computed, not assumed. Replacing a payload keeps the image consistent and every
other record unchanged (`MgfsUpdater`, `MgfsOwnership`); whatever the updater
writes, the boot reader reads back slice by slice (`MgfsBootReader`) and name by
name (`MgfsBootLookup`), on a volume that still opens (`MgfsUpdateBoot`); a
directory payload is a finite map under append, remove and rename
(`MgfsDirectory`); the checker's passes count zero errors exactly when the graph and
the ownership are sound, and then every directory is such a map for all readers
(`MgfsGraphCheck`, `MgfsGraphVolume`, `MgfsOwnerCheck`); a fresh image passes both
readers (`MgfsFormatter`, `MgfsBootInit`, `MgfsFresh`).

**Bootstrap page tables.** Four levels mixing 2 MiB and 4 KiB leaves refine a
flat page map; each refusal has its exact cause, and the tables a range adds are
counted before it is mapped (`PageTables`).

**Kernel heap and block layer.** A first-fit heap with coalescing that grows
while its lock is released, as rows of blocks (`HeapBlocks`), linked headers
(`HeapLists`) and interleaved threads (`HeapGrowth`); an LRU cache that agrees
with the device, partitions included, as long as two conditions hold
(`BlockCache`); a re-entrant gate with a queue of waiters (`IoGate`).

**Account registry.** Printer and parser are inverse (`IdentityText`,
`IdentityDatabase`, `IdentityCode`); every account operation keeps the registry's
invariants, salts included, and has a known effect on the disk
(`IdentityAccounts`); replacing the database file by renames leaves a complete
database at every step (`IdentityStore`).

**AML interpreter.** The namespace is a tree (`AmlNamespace`); fields are exact
bit ranges behind windowed read-modify-write (`AmlFields`); the evaluator
(`AmlEval`) refines a reference semantics without budgets or frames
(`AmlMeaning`), ends because every step spends budget, and consumes the bytes
the length scanner (`AmlTerms`) announces wherever the two see the same names
(`AmlAgreement`).

Where the code does not do what it sets out to do, the code is modelled as it
is and the exact condition is proved:

- A labelled image is formatted without complaint but the boot reader refuses it:
  it opens a fresh image if and only if the label is empty (`MgfsFresh.FreshAccepted`).
- The record-slot helpers of the updater address the right byte if and only if the
  slot lies in the first record-bitmap block (`MgfsUpdater.SlotByteCorrect`). Past it
  they address the slot 192 earlier for each block header, or a header
  (`MgfsUpdater.SlotHitExactly`, `MgfsUpdater.SlotBitBeyond`).
- A record ID that is not in the table names the slot it numbers. A rewrite then loses
  the ID of another record if and only if that slot holds one found nowhere else
  (`MgfsUpdater.RewriteKeepsIds`), the root's included (`MgfsUpdateBoot.RootGone`).
- A 2 MiB leaf is compared with its high bits, so a leaf on the right frame with its
  no-execute bit set is refused
  (`PageTables.NoExecuteRefused`, `PageTables.Tables.MapPage`).
- The fifteen largest heap requests round to zero (`HeapGrowth.RoundingHolds`).
- A write can leave a cache entry stale if and only if a live entry of another descriptor
  holds a sector of the range (`BlockCache.WriteCoherentExactly`); `BlockCache.AliasRun`
  is a run that then reads the old sector.
- Registering a descriptor again with another medium can make its old entries answer for
  it if and only if it has any (`BlockCache.ReuseCoherentExactly`), which can be the case
  if and only if an instance of it is still in the registry
  (`BlockCache.RegisterSafeExactly`). The xHCI driver leaves one there when it gives up a
  busy gate (kernel/src/usb/xhci_storage.c:86-90) and takes the structure for the next
  device by its `active` mark alone (lines 636-642); `BlockCache.ReplugRun` is that run.
- A waiter can be forgotten if and only if something other than the gate wakes its
  waiters (`IoGate.NoneLostExactly`), as the xHCI driver does with its worker. The
  branch that does it is an acquire that returns with its thread still queued: no run
  without one loses a wakeup (`IoGate.RunInside`), and each one can be continued to a
  lost wakeup (`IoGate.LeavingQueuedLoses`).
- Persisting starts by unlinking the backup. An attempt whose last two renames both
  fail leaves the only complete database there, and the next one destroys it
  (`IdentityStore.StrandedThenLost`): every step is recoverable if and only if `users`
  is complete, or the temporary name is a directory and the backup is complete
  (`IdentityStore.Store.Persist`).
- The AML scanner does not follow aliases and does not know local objects: on the bytes
  of a name it agrees with the evaluator if and only if neither matters
  (`AmlAgreement.NameAgreesExactly`, `AmlAgreement.AliasDiffers`,
  `AmlAgreement.LocalDiffers`). Two differences in one term can make up for each
  other (`AmlAgreement.DifferencesCancel`), so for whole terms the condition is
  sufficient (`AmlAgreement.MeaningTakes`).

Outside events are parameters: which file-system calls work and how much of a text
is written (`Faults`), what the world around an account operation answers
(`Surroundings`), what happens to a device during a request (`Circumstances`),
whether a lock is granted. `AmlEval` methods take a ghost `fuel` that bounds the
reference semantics; any amount not below the operations left will do.

Conditions taken over from the formats: images stay below 2^52 blocks; record IDs
lie in 1..record_count where the checker indexes arrays by them; unregistration
happens under quiesce. A slot of the block registry remembers the descriptor it was
copied from, which for the drivers is what their driver data tells.

## Model

| member | source | states |
|---|---|---|
| MgfsBytes.BootCrc64 | boot/src/mgfs.c:72-86 | the boot loop that skips the checksum field yields the CRC of the buffer with that field cleared |
| MgfsBytes.CrcShift | tools/populate_mgfs.py:38-43 | eight shift-and-xor steps of the bit loop are one step of the CRC definition over that byte |
| MgfsBytes.Crc64 | tools/mkmgfs.c:270-284 | the plain loop computes CRC-64 (ECMA-182) of the whole buffer as the recursive definition gives it |
| MgfsBytes.ReadAfterWrite | tools/populate_mgfs.py:35-36 | a stored 64-bit little-endian word reads back, and every disjoint word keeps its value |
| MgfsBytes.ChecksummedIsChecked | tools/mkmgfs.c:366-370 | whatever a writer checksums, a reader that clears the field and recomputes accepts |
| MgfsBytes.CheckedIsCanonical | tools/mkmgfs.c:366-370 | a buffer passes its checksum exactly when checksumming it again changes nothing |
| MgfsBytes.BitOfPutBit | tools/update_mgfs.py:579-588 | setting or clearing one bit of a byte changes that bit and no other |
| MgfsImage.BitmapBitSet | tools/update_mgfs.py:573-588 | setting a bit of a bitmap, across its headed blocks, changes that bit and no other bit of the bitmap |
| MgfsImage.AllocatedAfter | tools/update_mgfs.py:579-594 | marking a data block changes the allocation of that block alone and touches no block outside the allocation bitmap |
| MgfsImage.RecordAfter | tools/update_mgfs.py:356-387 | storing a record changes the record in that slot alone and no block outside the table |
| MgfsLayout.LayoutPartitions | tools/mkmgfs.c:291-336 | for every image of at least 64 blocks a layout exists, its five regions add up to the image in order, and each bitmap has a bit for all it must cover |
| MgfsLayout.LayoutsAgree | tools/mkmgfs.c:291-336 | formatter, boot reader and checker compute the same layout for every size |
| MgfsLayout.BootLayoutOnly | boot/src/mgfs.c:125-163 | the boot reader accepts the formatter's layout words and no others |
| MgfsLayout.ListCapSuffices | boot/src/mgfs.c:264-311 | allowing as many list blocks as there are record slots never refuses a chain that fits the data area |
| MgfsLayout.CeilDivForms | tools/mkmgfs.c:286-289 | the two ways of rounding a division up agree |
| MgfsFormat.MakeExtents | tools/update_mgfs.py:612-628 | the extents flatten back to exactly the given blocks, are logically consecutive, none could be merged with its neighbour, and there is one for each run of consecutive blocks |
| MgfsFormat.AscendingExtents | tools/update_mgfs.py:612-628 | extents made from ascending blocks are physically ascending, which is what the boot reader insists on |
| MgfsFormat.BuildListBlock | tools/update_mgfs.py:661-676 | the loop that fills a list block produces the block the format describes, checksum included |
| MgfsFormat.ListBlockReads | tools/update_mgfs.py:661-676 | a written list block reads back as the same owner, successor and extents |
| MgfsFormat.BuildRecord | tools/populate_mgfs.py:55-74 | the loop that fills a record produces the record the format describes |
| MgfsFormat.RecordReads | tools/populate_mgfs.py:55-74 | a written record reads back field by field as what it was made from |
| MgfsOwnership.RecordFrame | tools/update_mgfs.py:497-536 | a record none of whose blocks changed reads back with the same extents, footprint and payload |
| MgfsOwnership.OthersKept | tools/update_mgfs.py:679-751 | rewriting one record leaves the extents, footprint and payload of each other record, and keeps them apart from the new blocks |
| MgfsOwnership.RewriteKeepsImage | tools/update_mgfs.py:679-751 | rewriting one record keeps the invariant that allocated blocks are exactly the blocks owned, each by one record |
| MgfsUpdater.Updater.AllocateBlocks | tools/update_mgfs.py:596-609 | the blocks given are the lowest ones neither marked nor reserved, ascending, and only their marks change; it succeeds if and only if there are that many |
| MgfsUpdater.Updater.ReleaseBlocks | tools/update_mgfs.py:579-588 | exactly the given blocks lose their marks |
| MgfsUpdater.Updater.WriteBlocks | tools/update_mgfs.py:679-751 | each block holds its new content and every other block is unchanged |
| MgfsUpdater.Updater.FindSlot | tools/update_mgfs.py:356-368 | the first slot with the record ID, else the slot the ID numbers, else an error |
| MgfsUpdater.Updater.ReadExtents | tools/update_mgfs.py:497-523 | the loop over inline extents and the list chain agrees with the recursive reading of the chain, cycle and length errors included |
| MgfsUpdater.BuildLists | tools/update_mgfs.py:661-676 | filled from the last to the first, the list blocks form one chain holding the extents in order |
| MgfsUpdater.Updater.WriteExtentLists | tools/update_mgfs.py:661-676 | afterwards the list blocks hold the extents past the first two as one chain, and no other block changed |
| MgfsUpdater.RecordExtentsRead | tools/update_mgfs.py:497-523 | a written record and its chain read back as the extents and lists they were made of |
| MgfsUpdater.FlagsRoundTrip | tools/update_mgfs.py:631-637 | owner, permissions, policy and inline mark packed into the flags word come back out of it |
| MgfsUpdater.MakeRecord | tools/update_mgfs.py:640-658 | the new record keeps owner, permissions and policy and is one generation on |
| MgfsUpdater.Updater.StoreBlocks | tools/update_mgfs.py:679-751 | the payload is cut over the chosen blocks and chained through freshly allocated, previously free list blocks |
| MgfsUpdater.Updater.Store | tools/update_mgfs.py:640-751 | a stored payload and its record describe each other |
| MgfsUpdater.Updater.ReplaceFilePayload | tools/update_mgfs.py:719-751 | on an image where each allocated block has one owner the call returns if and only if the slot holds a file of data extents whose generation can be stepped and there are free blocks for the data and for the list blocks its runs need; then the record reads back as exactly the new payload, all other records as before, and allocated again equals owned |
| MgfsUpdater.Updater.ReplaceDirectoryPayload | tools/update_mgfs.py:679-716 | the same for directories, which reuse their own data blocks first |
| MgfsUpdater.Updater.ReleaseRecord | tools/update_mgfs.py:2054-2070 | frees exactly the record's blocks, its bytes and the slot bit the helper addresses; every other record, every other slot's bit and every other mark of a data block stays; fails exactly when the ID is unknown |
| MgfsUpdater.SlotByteCorrect | tools/update_mgfs.py:389-400 | the slot helpers address a slot's own bit if and only if it lies in the first record-bitmap block |
| MgfsUpdater.SlotHitExactly | tools/update_mgfs.py:389-400 | the slot whose bit the helpers address lies 192 before the one meant for each block header they fail to skip, so it is the one meant if and only if that is in the first bitmap block |
| MgfsUpdater.SlotBitHits | tools/update_mgfs.py:389-400 | the helpers change the bit of the slot they address and of no other slot |
| MgfsUpdater.SlotBitBeyond | tools/update_mgfs.py:389-400 | past the first bitmap block the slot's own bit stays as it was; where the helpers address no slot they change one bit of a block header and nothing else |
| MgfsUpdater.FitCount | tools/update_mgfs.py:596-609 | there is room for a number of blocks exactly when that many are neither marked nor reserved |
| MgfsUpdater.RewriteKeepsIds | tools/update_mgfs.py:356-368 | a rewrite by ID loses another record's ID if and only if the table does not have the given ID and the slot it numbers holds one found nowhere else |
| MgfsUpdater.Updater.Refresh | tools/update_mgfs.py:754-766 | exactly the given blocks get a new checksum, and nothing else of them changes |
| MgfsDirectory.SplitFlatten | tools/update_mgfs.py:426-440 | packed entries are cut exactly where they were joined |
| MgfsDirectory.FlattenSplit | tools/update_mgfs.py:426-440 | a payload that parses is the concatenation of its entries |
| MgfsDirectory.EntryReads | tools/populate_mgfs.py:100-109 | a written entry reads back as live, with its ID and name, and passes the boot reader's checks if the name is short enough |
| MgfsDirectory.DirectoryEntries | tools/update_mgfs.py:426-440 | the offset loop returns the entries the recursive cut returns, or an error exactly when the cut fails |
| MgfsDirectory.DirectoryFind | tools/update_mgfs.py:443-448 | returns the ID bound to the name, none if the name is not live, an error exactly on a malformed payload |
| MgfsDirectory.DirectoryRemove | tools/update_mgfs.py:475-489 | succeeds exactly when the name is live once and keeps every other byte |
| MgfsDirectory.DirectoryRename | tools/update_mgfs.py:451-472 | succeeds exactly when one live entry has the old name, none the new, and the sizes agree; the entry keeps its place and ID |
| MgfsDirectory.RemoveIsMapDelete | tools/update_mgfs.py:475-489 | removal deletes the name from the map the payload stands for |
| MgfsDirectory.AppendIsMapInsert | tools/populate_mgfs.py:100-109 | appending an entry for a new name inserts it into the map and leaves the old bytes in front |
| MgfsDirectory.RenameIsMapMove | tools/update_mgfs.py:451-472 | renaming moves one binding of the map and keeps all others |
| MgfsDirectory.LookupsAgree | boot/src/mgfs.c:375-427 | on every payload of acceptable entries boot reader and updater find the same; what the boot reader finds at all the updater finds too |
| MgfsDirectory.OperationsKeepBootOk | tools/update_mgfs.py:426-489 | append, remove and rename keep every entry acceptable to the boot reader |
| MgfsBootReader.ScanRun | boot/src/mgfs.c:245-262 | a run of extents is accepted exactly when every one is in the data area, logically next, physically ascending and of the right kind |
| MgfsBootReader.ReadMappedBlock | boot/src/mgfs.c:313-350 | the scan over inline and listed extents returns the logical block the validated extents map, or nothing exactly when they are refused or do not reach it |
| MgfsBootReader.ReadBlocks | boot/src/mgfs.c:561-603 | the copy loop returns exactly the requested slice, and fails exactly when the record's blocks do not cover it |
| MgfsBootReader.BootFile.Read | boot/src/mgfs.c:561-603 | a read at any position and length returns exactly that slice, short only at the end of the file, and moves the position past it |
| MgfsBootReader.WrittenIsAccepted | boot/src/mgfs.c:245-350 | every record the updater wrote is accepted through the same extents, order check, list checksums and list cap included |
| MgfsBootReader.WrittenRecordAccepted | boot/src/mgfs.c:172-203 | a record the updater rewrote passes the boot record checks |
| MgfsBootReader.CapHolds | boot/src/mgfs.c:264-311 | a chain whose blocks fit the data area never exceeds the list cap |
| MgfsBootReader.BootReadsPayload | boot/src/mgfs.c:352-603 | a record whose payload the updater replaced, file or directory, is accepted and its blocks hold exactly the payload's bytes |
| MgfsBootReader.ReadDirectoryBytes | boot/src/mgfs.c:352-373 | a slice of a directory is returned exactly when the record and its blocks cover it |
| MgfsBootInit.LoadRecordBitmap | boot/src/mgfs.c:429-519 | accepts exactly the bitmaps whose blocks pass their checks, and packs every slot bit at its own place |
| MgfsBootInit.PackBlock | boot/src/mgfs.c:429-519 | packing one bitmap block moves its bits and keeps those before it |
| MgfsBootInit.ValidateTables | boot/src/mgfs.c:205-243 | accepts exactly when every table block and every allocated record passes its checks |
| MgfsBootInit.ReadRecord | boot/src/mgfs.c:222-243 | returns the first allocated record with the ID |
| MgfsBootInit.InitVolume | boot/src/mgfs.c:429-519 | succeeds exactly on a volume whose bitmap, tables and root record pass |
| MgfsBootInit.Init | boot/src/mgfs.c:429-519 | opens a volume if and only if superblock, layout, bitmap, tables and root are acceptable |
| MgfsBootLookup.ScanDirectory | boot/src/mgfs.c:375-427 | reading a directory entry by entry from its blocks finds what the boot lookup finds in its stream, cut short where record or blocks end |
| MgfsBootLookup.ReadEntry | boot/src/mgfs.c:390-400 | the entry at an offset is read whole or not at all: its header first, then as much as its name needs |
| MgfsBootLookup.FindChild | boot/src/mgfs.c:375-427 | a name leads to the record its entry in the directory is bound to, and to nothing exactly when the parent is no directory, the scan finds nothing or no record has the ID |
| MgfsBootLookup.StreamSlice | boot/src/mgfs.c:352-373 | a read inside the stream is a slice of it, and one past it fails |
| MgfsFormatter.InitializeBitmapBlock | tools/mkmgfs.c:372-395 | bits beyond the valid ones are set, valid ones clear but for the reserved first, and the block carries its kind, index and checksum |
| MgfsFormatter.BuildTableBlock | tools/mkmgfs.c:436-464 | an empty table block, or the first one with the root record |
| MgfsFormatter.BuildSuperblock | tools/mkmgfs.c:466-520 | the superblock holds the layout, the label area and both checksums where the format puts them |
| MgfsFormatter.SuperReads | tools/mkmgfs.c:466-520 | every header word, the label area and the zero rest read back from a superblock |
| MgfsFormatter.Formatter.WriteBitmaps | tools/mkmgfs.c:397-434 | both bitmaps are fresh and nothing outside them changes |
| MgfsFormatter.Formatter.WriteRecordTable | tools/mkmgfs.c:436-464 | the table is fresh and nothing outside it changes |
| MgfsFormatter.Formatter.Format | tools/mkmgfs.c:522-585 | succeeds exactly from 64 blocks on, leaves a fresh image and the data area untouched; refusing changes nothing |
| MgfsFormatter.FreshBits | tools/mkmgfs.c:397-434 | in a fresh image no data block is allocated and of the record slots only the first |
| MgfsUpdateBoot.RewrittenSame | tools/update_mgfs.py:754-766 | renewing checksums changes nothing a rewrite promises |
| MgfsUpdateBoot.FoundById | boot/src/mgfs.c:222-243 | after the rewrite the boot reader finds the record under its ID |
| MgfsUpdateBoot.VolumeStays | boot/src/mgfs.c:429-519 | with renewed checksums every check of the boot reader behind the superblock still passes |
| MgfsUpdateBoot.RootGone | tools/update_mgfs.py:356-368 | if the ID is missing from the table and the root is in the slot it numbers, the root cannot be found afterwards |
| MgfsUpdateBoot.OpensAccepted | boot/src/mgfs.c:429-519 | such a volume is one the boot reader opens |
| MgfsUpdateBoot.RewriteFile | tools/update_mgfs.py:719-766 | rewriting a file and renewing the checksums succeeds exactly when the file fits; the volume then still opens, and reading the ID with the boot reader gives exactly the payload |
| MgfsUpdateBoot.RewriteDirectory | tools/update_mgfs.py:679-766 | the same for a directory, unless its ID is missing and the root is in the slot it numbers: the volume still opens, its blocks read back as the payload, and looking up any name in it on the volume is looking it up in the payload |
| MgfsUpdateBoot.ReadIsListed | boot/src/mgfs.c:375-427 | reading the payload back makes lookups in the directory lookups in the payload |
| MgfsUpdateBoot.ListsMap | boot/src/mgfs.c:375-427 | a rewritten directory of acceptable entries is, on the volume, the finite map the updater sees: each name leads to the record bound to it |
| MgfsGraphVolume.DecodeEntries | tools/mgfsck.c:196-219 | the scan loop yields the entries up to the first bad one: length, checksum, UTF-8 name, padding and flags |
| MgfsGraphVolume.DecodedExactly | tools/mgfsck.c:196-219 | a stream is well formed if and only if the updater can parse it and every entry passes; then both see the same entries |
| MgfsGraphVolume.CheckDirectories | tools/mgfsck.c:196-274 | on the bytes of an image the traversal counts no error if and only if its directory graph is sound |
| MgfsGraphVolume.SoundIsMap | boot/src/mgfs.c:375-427 | in a sound volume every directory is a finite map: updater and boot reader find the same readable child, never the root, under each live name |
| MgfsFresh.LabelReads | tools/mkmgfs.c:501-514 | the label extension reads back with its magic, length, terminator and checksum |
| MgfsFresh.CheckerAcceptsSuper | tools/mgfsck.c:48 | the checker accepts the superblock of every fresh image, labelled or not |
| MgfsFresh.BootAcceptsSuper | boot/src/mgfs.c:429-519 | the boot reader accepts the superblock of a fresh image if and only if it has no label |
| MgfsFresh.FreshOpens | boot/src/mgfs.c:429-519 | bitmaps, tables and root of a fresh image pass the boot reader |
| MgfsFresh.CheckerAcceptsFresh | tools/mgfsck.c:274 | the ownership passes have nothing to report on a fresh image |
| MgfsFresh.FreshGraph | tools/mgfsck.c:274 | the directory pass has nothing to report on a fresh image |
| MgfsFresh.FreshAccepted | tools/mkmgfs.c:466-520 | a newly formatted image of any size gives the checker zero errors, and the boot reader opens it if and only if it has no label |
| MgfsGraphCheck.ReachesClosed | tools/mgfsck.c:196-271 | a set that holds the root and is closed under live entries holds everything reachable |
| MgfsGraphCheck.NoCycle | tools/mgfsck.c:191-195 | with the ranks the scan assigns, no chain of directory entries returns to its start |
| MgfsGraphCheck.OpenBound | tools/mgfsck.c:196-271 | directories open at once never outnumber the records, so the depth limit is never met |
| MgfsGraphCheck.CountRepeats | tools/mgfsck.c:196-271 | a name counts as repeated exactly when it is among the earlier live names |
| MgfsGraphCheck.GraphCheck.Refer | tools/mgfsck.c:196-271 | the first reference to a record is entered, any further one is an error |
| MgfsGraphCheck.GraphCheck.ScanDirectory | tools/mgfsck.c:196-271 | with no error counted, everything below the directory is well formed, referenced once and finished; only unvisited records are consumed |
| MgfsGraphCheck.GraphCheck.ScanRoot | tools/mgfsck.c:274 | the pass from the root leaves only finished directories |
| MgfsGraphCheck.GraphCheck.ScanRest | tools/mgfsck.c:274 | the pass over directories the root does not reach finishes every one |
| MgfsGraphCheck.GraphCheck.CheckTypes | tools/mgfsck.c:274 | no error exactly when every allocated record is a file or a directory |
| MgfsGraphCheck.SoundIfClean | tools/mgfsck.c:196-271 | if every directory was finished without an error the graph is sound and the marks are exactly what the root reaches |
| MgfsGraphCheck.IdealIfSound | tools/mgfsck.c:196-271 | soundness is the same as every entry passing each single check under one numbering |
| MgfsGraphCheck.GraphCheck.Check | tools/mgfsck.c:274 | zero errors if and only if every directory is well formed, the live graph is acyclic, no record has two incoming entries, the root none, and names are unique; then marked equals reachable |
| MgfsBitmapCheck.FlattenBitmap | tools/mgfsck.c:54-66 | in place, the headed blocks become one packed bitmap |
| MgfsBitmapCheck.PackedBits | tools/mgfsck.c:54-66 | packing keeps the number of every bit |
| MgfsBitmapCheck.NormalizeBitmap | tools/mgfsck.c:67 | in place, bit n of the data-relative map ends up at exactly physical block dataStart + n, and bits below it clear |
| MgfsOwnerCheck.OwnerCheck.AddOwner | tools/mgfsck.c:49 | a block is entered for its first claimant; a different claimant is an error |
| MgfsOwnerCheck.OwnerCheck.AddExtent | tools/mgfsck.c:118 | an extent is refused exactly when it is misplaced, and otherwise claims each of its blocks |
| MgfsOwnerCheck.OwnerCheck.ScanChain | tools/mgfsck.c:119 | the chain is followed exactly while its blocks pass, and claims its list blocks and all extents |
| MgfsOwnerCheck.OwnerCheck.ScanExtents | tools/mgfsck.c:119 | everything a record claims is entered, and its capacity is what its extents cover |
| MgfsOwnerCheck.OwnerCheck.LoadBitmap | tools/mgfsck.c:54-67 | no new error exactly when every bitmap block passes, and then the bytes are those on disk |
| MgfsOwnerCheck.OwnerCheck.ValidateSlots | tools/mgfsck.c:68-99 | no error exactly when every allocated slot holds a well-formed record |
| MgfsOwnerCheck.OwnerCheck.FindSlot | tools/mgfsck.c:100-115 | returns the first allocated slot with the ID |
| MgfsOwnerCheck.OwnerCheck.CheckRecord | tools/mgfsck.c:116-119 | no error only if the record with that ID is in order; one in order has all its claims entered |
| MgfsOwnerCheck.OwnerCheck.CheckRecords | tools/mgfsck.c:274 | after the pass with no error the owners are exactly all claims of all records |
| MgfsOwnerCheck.OwnerCheck.CheckMarked | tools/mgfsck.c:274 | no error exactly when every owned block is marked |
| MgfsOwnerCheck.OwnerCheck.Check | tools/mgfsck.c:274 | zero errors if and only if all slots and records are in order, no block is claimed by two records or as both data and list, and each claimed block is marked on disk |
| MgfsOwnerCheck.SoundBySlots | tools/mgfsck.c:274 | where allocated slots carry different IDs, the checker finds nothing wrong if and only if every allocated slot holds a record in order, each block is claimed by one slot in one way, and each claimed block is marked |
| MgfsOwnerCheck.ClaimedBySlot | tools/mgfsck.c:274 | the claims the checker collects ID by ID are those of the allocated slots |
| PageTables.EntriesRead | boot/src/bootstrap.c:30-84 | each kind of entry reads back as present, of its size and with its frame |
| PageTables.WalkFrame | boot/src/bootstrap.c:47-69 | changing one entry changes only the translation of pages whose indices lead to it |
| PageTables.Arrives | boot/src/bootstrap.c:30-45 | the four-level walk of a page passes through every table its indices lead to |
| PageTables.SmallWrite | boot/src/bootstrap.c:47-69 | a 4 KiB leaf maps exactly one page |
| PageTables.LargeWrite | boot/src/bootstrap.c:71-84 | a 2 MiB leaf maps exactly the 512 pages of its unit |
| PageTables.LinkWalk | boot/src/bootstrap.c:30-45 | linking an empty table into an empty entry changes no translation |
| PageTables.LargeAgrees | boot/src/bootstrap.c:60-64 | a 2 MiB leaf that passes the comparison already translates the page to the wanted frame |
| PageTables.NoExecuteRefused | boot/src/bootstrap.c:60-64 | a 2 MiB leaf with its no-execute bit set fails the comparison even on the right frame |
| PageTables.Tables.constructor | boot/src/bootstrap.c:123-213 | a new root maps nothing |
| PageTables.Tables.ChildTable | boot/src/bootstrap.c:30-45 | finds or creates the table for its place without changing a translation; refused exactly for a 2 MiB leaf, out of pages exactly when one is needed and none is left |
| PageTables.Tables.Directory | boot/src/bootstrap.c:47-84 | reaches the page directory for an address; fails exactly when more tables are missing on the way than pages are left |
| PageTables.Tables.MapPage | boot/src/bootstrap.c:47-69 | on success exactly that page is remapped, with the flags asked for or under the 2 MiB leaf that was there, on failure none; refused if and only if a 2 MiB leaf is there whose entry, high bits included, does not equal the wanted address; out of pages if and only if more tables are missing than pages are left |
| PageTables.Tables.MapHuge | boot/src/bootstrap.c:71-84 | on success exactly 512 pages are remapped with the flags asked for, on failure none; refused if and only if the directory entry is neither empty nor the leaf to be written |
| PageTables.Tables.MapRange | boot/src/bootstrap.c:86-110 | on success every page of the range has a leaf for the matching frame, with the flags asked for or as it was, and every other page is as before; if it stops, exactly the pages before that point are mapped; it succeeds if and only if no page is under a 2 MiB leaf that neither passes the comparison nor is the one the range would write, and the tables the range adds, counted on the tables before the call, are no more than the pages left; it runs out of pages if and only if the tables added up to some page are more and no page before that one is blocked |
| PageTables.Tables.MapNext | boot/src/bootstrap.c:86-110 | the next 2 MiB or the next page, and why not; out of pages exactly when more tables are missing for it than pages are left, none of them for 4 KiB leaves where a 2 MiB leaf will do |
| PageTables.PdeWalk | boot/src/bootstrap.c:47-84 | the page-directory entry and the walk agree on what is there |
| PageTables.MissingThree | boot/src/bootstrap.c:30-69 | a 4 KiB leaf needs one table more than its directory unless the table or a 2 MiB leaf is there |
| PageTables.SameLeaf | boot/src/bootstrap.c:71-84 | the pages of a unit share its 2 MiB leaf |
| PageTables.MissingSum | boot/src/bootstrap.c:30-69 | the tables missing for a page, level by level |
| PageTables.LinkOpens | boot/src/bootstrap.c:30-45 | a new table is missing no more for the pages its place leads to, and nothing changes for the others |
| PageTables.Progresses | boot/src/bootstrap.c:86-110 | after each step the tables for the pages still to come are missing as before the call, except those shared with the last page |
| PageTables.CostIs | boot/src/bootstrap.c:86-110 | what the next step needs is what its page adds to the tables of the pages before it |
| HeapBlocks.LiveInside | kernel/src/heap.c:144-229 | live payloads lie inside the heap and are 16-aligned |
| HeapBlocks.LiveApart | kernel/src/heap.c:144-229 | two live payloads are the same or disjoint with a header between them |
| HeapBlocks.TakeSound | kernel/src/heap.c:144-229 | allocating keeps the tiling and adds exactly one payload of at least the size asked for |
| HeapBlocks.FreeSound | kernel/src/heap.c:231-268 | freeing keeps the tiling with no two free neighbours and removes exactly that payload |
| HeapBlocks.GrowSound | kernel/src/heap.c:50-121 | growing keeps the tiling and every live payload |
| HeapBlocks.AllFreed | kernel/src/heap.c:231-268 | once everything is freed one block is left, of everything |
| HeapLists.Heap.constructor | kernel/src/heap.c:14-44 | the heap starts as one free block of four pages |
| HeapLists.Heap.TryAllocate | kernel/src/heap.c:144-229 | takes the first block that fits, with no earlier one fitting, and adds exactly that payload; nothing only if none fits |
| HeapLists.Heap.TakeBlock | kernel/src/heap.c:144-229 | the links still list the row with the block split where the rest is worth one |
| HeapLists.Heap.AbsorbNext | kernel/src/heap.c:231-268 | the links still list the row with two blocks merged |
| HeapLists.Heap.Free | kernel/src/heap.c:231-268 | removes exactly the given payload and merges on both sides; null does nothing |
| HeapLists.Heap.LastBlock | kernel/src/heap.c:50-121 | walking the links ends at the last block of the row |
| HeapLists.Heap.Commit | kernel/src/heap.c:50-121 | mapped pages extend a free last block or become a new one, and no payload changes |
| HeapLists.Heap.Sizes | kernel/src/heap.c:284-341 | used and free add up to the total, and the total and the headers to the heap |
| HeapGrowth.RoundingHolds | kernel/src/heap.c:144-229 | the rounded size is at least the request if and only if the request is at most 2^64 - 16; above, it wraps to zero |
| HeapGrowth.StepKeeps | kernel/src/heap.c:50-268 | every step of every thread keeps the heap invariant, and none panics |
| HeapGrowth.StepLives | kernel/src/heap.c:50-268 | a step adds one payload where none was, removes one, or leaves them all alone |
| HeapGrowth.RunKeeps | kernel/src/heap.c:50-268 | in every interleaving of allocation, freeing and growth the blocks tile the heap, one thread grows at a time, and no frame is lost or used twice |
| HeapGrowth.FramesReturned | kernel/src/heap.c:50-121 | with nobody growing, each frame taken is either mapped or back in the pool |
| HeapGrowth.Initially | kernel/src/heap.c:14-44 | the heap starts in that invariant |
| BlockCache.WriteCoherent | kernel/src/block.c:471-516 | whatever a write, failed or not, does within its range, the entries it leaves agree with the device |
| BlockCache.WriteCoherentExactly | kernel/src/block.c:471-516 | every possible write keeps the cache right if and only if no live entry of another descriptor holds a sector of the range, partitions counted at their offset |
| BlockCache.StaleWrite | kernel/src/block.c:471-516 | if one does, some write leaves it stale |
| BlockCache.OldestIsLeastRecent | kernel/src/block.c:194-204 | the lowest age belongs to the entry used least recently |
| BlockCache.BlockLayer.constructor | kernel/src/block.c:259-304 | no device in any slot, and every cache entry empty |
| BlockCache.BlockLayer.FindSlot | kernel/src/block.c:306-313 | finds the slot an ID is registered in, if it is |
| BlockCache.BlockLayer.IsLive | kernel/src/block.c:315-329 | a descriptor is live exactly when its ID is registered and online |
| BlockCache.BlockLayer.Find | kernel/src/block.c:183-192 | finds the valid entry with the exact key, or there is none |
| BlockCache.BlockLayer.Victim | kernel/src/block.c:194-204 | an invalid entry if there is one, else the least recently used |
| BlockCache.BlockLayer.MarkGone | kernel/src/block.c:348-358 | exactly the slot of the instance goes offline: it is never live again and nothing else becomes live |
| BlockCache.BlockLayer.Register | kernel/src/block.c:259-298 | succeeds exactly when a slot is free, in the first such slot and under an ID never used; a right cache stays right if and only if the entries left from an earlier registration match, and so whenever no instance of the descriptor is left in the registry |
| BlockCache.BlockLayer.InvalidateAll | kernel/src/block.c:300-304 | the cache is empty |
| BlockCache.BlockLayer.Unregister | kernel/src/block.c:360-376 | exactly the slot of the ID is cleared, and the cache, whatever it held, is empty and right |
| BlockCache.BlockLayer.Use | kernel/src/block.c:387-469 | entering or renewing one entry changes no other, keeps keys unique and ages in order of use |
| BlockCache.BlockLayer.Read | kernel/src/block.c:387-469 | a read that succeeds returns what the device holds, from the cache or not, unless a wrong entry has its key; a cacheable result is then in the cache, in the entry it was found in or in place of the victim, and no other entry changed; an undisturbed read of a live device succeeds |
| BlockCache.BlockLayer.ReadDevice | kernel/src/block.c:387-469 | the same for the part that reaches the device: a cacheable result replaces exactly the victim, and nothing else changes the cache |
| BlockCache.BlockLayer.Keep | kernel/src/block.c:452-466 | what was read replaces exactly the victim if it is small enough |
| BlockCache.BlockLayer.Invalidate | kernel/src/block.c:153-168 | exactly the entries of the device that the range may touch are dropped |
| BlockCache.BlockLayer.Write | kernel/src/block.c:471-516 | exactly the entries of the range go and the store becomes what the callback leaves, or nothing happens; a right cache stays right if no live entry of another descriptor holds a sector of the range, and no other store changes |
| BlockCache.JoinCoherentExactly | kernel/src/block.c:259-298 | registering makes the entries of a descriptor live, so the cache stays right exactly when those left from an earlier registration match |
| BlockCache.ReuseCoherentExactly | kernel/src/usb/xhci_storage.c:636-726 | a driver that registers its descriptor again with a medium nothing live uses leaves the cache right whatever the medium holds if and only if the descriptor has no entries |
| BlockCache.RegisterSafeExactly | kernel/src/usb/xhci_storage.c:86-103 | that is so for every cache there can be if and only if no instance of the descriptor is left in the registry: if it was unregistered, not just marked gone |
| BlockCache.AliasRun | kernel/src/usb/xhci_storage.c:706-727 | a run in which a disk read through the driver's descriptor, as its partitions read it, and written through its slot is read again as it was before |
| BlockCache.ReplugRun | kernel/src/usb/xhci_storage.c:78-90 | a run in which a stick is pulled out while the gate is busy, its structure is used for the next stick and registered again, and reads return what the first one held |
| BlockCache.BlockLayer.Refill | kernel/src/usb/xhci_storage.c:643-702 | a driver that clears and refills its descriptor makes nothing live and no entry wrong |
| BlockCache.NoneWrong | kernel/src/block.c:259-376 | a descriptor that is live, or of which no instance is left in the registry, has no wrong entries |
| BlockCache.BlockLayer.Outside | kernel/src/block.c:348-358 | a medium may change; if no live descriptor uses it the cache does not become wrong |
| BlockCache.BlockLayer.Admit | kernel/src/block.c:387-420 | a request goes on only with the gate and a descriptor live until then |
| BlockCache.BlockLayer.Lookup | kernel/src/block.c:421-434 | a hit is the data of the entry with the exact key, which is renewed, and what the device holds while no entry is wrong; a miss leaves the cache alone |
| BlockCache.BlockLayer.ReadPartition | kernel/src/storage/gpt.c:549-558 | a partition read returns the sectors at its offset in the parent, whichever of the two caches has them, and keeps them under its own key |
| BlockCache.BlockLayer.WritePartition | kernel/src/storage/gpt.c:560-570 | a partition write drops its own entries and, through the parent, those of the parent; the cache agrees with every device unless a third descriptor holds a sector of the range |
| BlockCache.BlockLayer.Change | kernel/src/block.c:471-516 | entries of the range are dropped before the store changes |
| IoGate.BlockGate.Shift | kernel/src/block.c:83-93 | the gap closes and the order of the others stays |
| IoGate.BlockGate.RemoveWaiter | kernel/src/block.c:83-93 | exactly the first entry of that thread leaves the queue |
| IoGate.BlockGate.Try | kernel/src/block.c:95-127 | one round of acquiring enters, queues or gives up as the gate's state decides |
| IoGate.BlockGate.BeginQuiesce | kernel/src/block.c:45-64 | enters exactly when the gate is open or already the caller's |
| IoGate.BlockGate.Release | kernel/src/block.c:129-151 | the last leave opens the gate and wakes the first waiter; an inner leave only counts down |
| IoGate.RunExclusive | kernel/src/block.c:45-151 | in every run at most one context owns the gate and depth is positive exactly while it is busy |
| IoGate.RunAttended | kernel/src/block.c:45-151 | in every run in which only the gate wakes its waiters a non-empty queue means a busy gate or a woken thread that has yet to retry |
| IoGate.LosingRun | kernel/src/usb/xhci.c:1563-1582 | a run in which a waiter is forgotten: another part of the kernel unblocks the waiting worker, which barges in while still queued |
| IoGate.NoneLostExactly | kernel/src/block.c:95-151 | no wakeup is lost in any run if and only if nothing but the gate wakes its waiters |
| IoGate.RunInside | kernel/src/block.c:95-127 | whatever wakes the waiters, no run loses a wakeup as long as no thread leaves an acquire, granted or refused, while it is still queued |
| IoGate.LeavingQueuedLoses | kernel/src/block.c:95-127 | and every such leave can be followed, by steps of the gate alone, by a lost wakeup |
| Identity.HomeIsPath | kernel/src/identity.c:92-131 | the home of every valid username is a valid path |
| Identity.CheckRegistry | kernel/src/identity.c:825-845 | the pairwise loop accepts exactly the registries with valid, distinct accounts, valid credentials, UIDs below the next one and one initial account |
| IdentityText.NumberRoundTrip | kernel/src/identity.c:250-264 | a printed number is read back |
| IdentityText.HexRoundTrip | kernel/src/identity.c:302-313 | printed bytes are read back |
| IdentityText.FieldsRoundTrip | kernel/src/identity.c:340-447 | printed key=value fields are read back in order |
| IdentityText.AccountFieldsRoundTrip | kernel/src/identity.c:340-447 | the fields of a valid account give the account and its credentials back |
| IdentityDatabase.AccountSound | kernel/src/identity.c:340-447 | an accepted account line yields a valid account with valid credentials |
| IdentityDatabase.TakeLineSound | kernel/src/identity.c:449-516 | taking one more line keeps accounts distinct, paired and valid |
| IdentityDatabase.AcceptedIsValid | kernel/src/identity.c:449-516 | whatever text is accepted, the registry passes the registry check |
| IdentityDatabase.AccountRoundTrip | kernel/src/identity.c:340-447 | a printed account line survives trimming and is read back |
| IdentityDatabase.RoundTrip | kernel/src/identity.c:910-961 | printing any valid registry that fits and parsing it gives it back: accounts, their credentials, the order and the next UID |
| IdentityCode.Writer.AppendText | kernel/src/identity.c:862-876 | appended if it fits; a failure is remembered and later appends do nothing |
| IdentityCode.Writer.AppendU32 | kernel/src/identity.c:878-895 | the digit loop appends the decimal form |
| IdentityCode.Writer.AppendHex | kernel/src/identity.c:897-908 | the nibble loop appends the hexadecimal form |
| IdentityCode.Writer.AppendAccount | kernel/src/identity.c:910-961 | one account line as printed |
| IdentityCode.Writer.Serialize | kernel/src/identity.c:910-961 | succeeds exactly when the registry is valid and its printed form fits, and then the buffer holds that form |
| IdentityCode.ParseNumber | kernel/src/identity.c:250-264 | the digit loop reads a 32-bit number, overflow refused |
| IdentityCode.ParseHexDigits | kernel/src/identity.c:302-313 | the digit loop reads exactly the given number of bytes |
| IdentityCode.TrimSpan | kernel/src/identity.c:315-338 | between two positions, the trimmed line without its comment |
| IdentityCode.ReadFields | kernel/src/identity.c:340-447 | the field loop sets each field as the recursive reading does, duplicates and unknown keys refused |
| IdentityCode.ReadAccount | kernel/src/identity.c:340-447 | reads an account line as the specification does |
| IdentityCode.ReadLine | kernel/src/identity.c:449-516 | takes a version, next_uid or account line as the specification does |
| IdentityCode.ReadDatabase | kernel/src/identity.c:449-516 | the line loop over a text accepts exactly what the specification accepts and yields the same registry |
| IdentityAccounts.Find | kernel/src/identity.c:1278-1285 | the index of the first account with the name, or -1 |
| IdentityAccounts.CountAdmins | kernel/src/identity.c:1287-1293 | the number of administrators |
| IdentityAccounts.FindReplacement | kernel/src/identity.c:1555-1569 | there is a successor for the initial mark unless the account is the only one, an administrator if there is one |
| IdentityAccounts.Shift | kernel/src/identity.c:1571-1575 | the elements after the gap move up by one |
| IdentityAccounts.Without | kernel/src/identity.c:1555-1575 | copying, passing the mark on and shifting both arrays gives the registry without that account |
| IdentityAccounts.CreatedValid | kernel/src/identity.c:1390-1487 | adding an account under a new name keeps the registry valid |
| IdentityAccounts.RemovedValid | kernel/src/identity.c:1489-1593 | removing one, with the mark passed on, keeps the registry valid and lowers the administrators by the removed one alone |
| IdentityAccounts.WithRoleValid | kernel/src/identity.c:1595-1660 | changing a role keeps the registry valid |
| IdentityAccounts.CreatedAccounted | kernel/src/identity.c:1390-1487 | the UID issued has never been issued, the next one is higher, and everybody keeps their credentials |
| IdentityAccounts.RemovedPaired | kernel/src/identity.c:1571-1575 | after the shift everyone left still has their own credentials |
| IdentityAccounts.WithAuthAccounted | kernel/src/identity.c:1211-1264 | a new password changes the credentials of that UID alone |
| IdentityAccounts.Accounts.Create | kernel/src/identity.c:1390-1487 | the outcome is decided, in the order of the checks, by authority, name and password, room, duplicates, confirmation, the credentials that can be made, the homes there are, and the directory the database is in; on success exactly that account and its home are added, else the active registry stays and the home made is taken back if it can be; the directory is the one the store leaves, and untouched when nothing was to be saved |
| IdentityAccounts.Accounts.CreateWith | kernel/src/identity.c:1443-1487 | the part of a creation that makes the home and saves |
| IdentityAccounts.SaltUnique | kernel/src/identity.c:1141-1154 | compares a salt with those of the other accounts that have a password |
| IdentityAccounts.MakePassword | kernel/src/identity.c:1156-1173 | the first of at most eight draws whose salt is free, refused without entropy and after eight taken salts |
| IdentityAccounts.MadeFree | kernel/src/identity.c:1156-1173 | credentials that are made were drawn and share their salt with no other account |
| IdentityAccounts.HomesSafe | kernel/src/identity.c:1295-1300 | every home of a valid registry passes the check made before a purge |
| IdentityAccounts.Accounts.Remove | kernel/src/identity.c:1489-1593 | nobody removes themselves, the last administrator or the last account, and an unsafe home is refused before confirmation; on success exactly that account goes, with its home if it is purged; the active registry never changes on failure; a home that cannot be purged, or is not the account's own, makes the store save the old registry again, and the failure reported is the purge's unless that save fails too |
| IdentityAccounts.Accounts.SetRole | kernel/src/identity.c:1595-1660 | the last administrator cannot be demoted; on success exactly that role changes; the directory is the one the store leaves |
| IdentityAccounts.Accounts.SetPassword | kernel/src/identity.c:1211-1264 | bad input is refused first; then oneself or a manager who confirms; on success exactly those credentials change, with a salt no other account has; the directory is the one the store leaves |
| IdentityAccounts.Accounts.SetPasswordAt | kernel/src/identity.c:1255-1264 | the part of a password change that saves |
| IdentityAccounts.Accounts.SetRoleAt | kernel/src/identity.c:1595-1660 | the part of a role change that saves |
| IdentityAccounts.Accounts.RemoveAt | kernel/src/identity.c:1555-1593 | the part of a removal that saves, purges, and saves again when the purge fails |
| IdentityAccounts.Accounts.Save | kernel/src/identity.c:999-1084 | saving goes through the store: it works exactly when the store persists the registry |
| IdentityAccounts.DiskAfter | kernel/src/identity.c:999-1084 | a save that works puts the new registry on disk; one that fails keeps the old one there if and only if it does not strand it |
| IdentityStore.Printed | kernel/src/identity.c:999-1018 | the text to be written, which the parser reads back as the registry |
| IdentityStore.Store.ClearStale | kernel/src/identity.c:1025-1040 | succeeds exactly when both stale names are absent or removable files, and never touches the database |
| IdentityStore.Store.WriteFresh | kernel/src/identity.c:1041-1059 | a failed or partial write is confined to the temporary name |
| IdentityStore.Store.Swap | kernel/src/identity.c:1061-1083 | at every step the database is in place, moved aside or replaced; it stays aside exactly when the move worked and both publishing and the compensating rename failed |
| IdentityStore.Store.Publish | kernel/src/identity.c:1075-1083 | success leaves the new text in place; failure the old one exactly when the compensating rename works |
| IdentityStore.Store.Save | kernel/src/identity.c:999-1084 | succeeds exactly when every call on the way does |
| IdentityStore.RecoverableExactly | kernel/src/identity.c:999-1084 | a run that at some point has nothing but the old file is recoverable throughout exactly when that file was complete |
| IdentityStore.Store.SaveDatabase | kernel/src/identity.c:999-1084 | from a complete database every intermediate state has one under some name |
| IdentityStore.Store.Persist | kernel/src/identity.c:999-1084 | success leaves the printed registry under `users` and readable; failure leaves the old one there unless publishing and compensating both fail, and then under the backup name; `users` is missing in exactly one unbroken stretch of states, between the two renames; from a complete `users` every state on the way has a complete database under one of the three names, and if stale names can be unlinked only from there or if the temporary name is a directory beside a complete backup |
| IdentityStore.StrandedThenLost | kernel/src/identity.c:999-1084 | from a complete database, an attempt that strands it under the backup name and any next attempt: the first is recoverable throughout, the second passes through a state with no complete database |
| AmlNamespace.PathLeadsBack | kernel/src/aml.c:798-818 | the names on the way from the root to a node lead from the root back to it |
| AmlNamespace.FollowAddsPath | kernel/src/aml.c:798-818 | following names from a node adds them to its path, so no other path leads there |
| AmlNamespace.NearestIsOne | kernel/src/aml.c:820-840 | at most one node is the nearest match |
| AmlNamespace.SearchIsNearest | kernel/src/aml.c:820-840 | the outward search finds the match in the nearest enclosing scope, or there is none |
| AmlNamespace.InsertKeepsTree | kernel/src/aml.c:842-881 | adding a new name keeps parents before children, child lists complete and names unique |
| AmlNamespace.InsertKeepsPaths | kernel/src/aml.c:842-881 | it keeps every path and gives the new node its parent's path and its name |
| AmlNamespace.RetypeKeepsTree | kernel/src/aml.c:842-881 | changing what a node holds leaves the tree and all paths alone |
| AmlNamespace.Namespace.constructor | kernel/src/aml.c:3299-3320 | a tree of the root alone |
| AmlNamespace.Namespace.FindChild | kernel/src/aml.c:773-786 | walking the sibling list finds the child with the name, or there is none |
| AmlNamespace.Namespace.Ascend | kernel/src/aml.c:788-796 | the scope so many levels out, or none above the root |
| AmlNamespace.Namespace.Follow | kernel/src/aml.c:798-818 | the node a path leads to from its start |
| AmlNamespace.Namespace.FollowSegments | kernel/src/aml.c:798-818 | the node child names lead to one by one |
| AmlNamespace.Namespace.Resolve | kernel/src/aml.c:820-840 | a single unprefixed segment is searched for outwards, anything else followed |
| AmlNamespace.Namespace.CreateNode | kernel/src/aml.c:842-881 | finds or adds exactly one node and keeps all paths; fails exactly when there is no such parent, no name or no room |
| AmlNamespace.Namespace.CreatePath | kernel/src/aml.c:883-903 | the node made has the path asked for; failing changes nothing |
| AmlNamespace.Namespace.EnsureScopePath | kernel/src/aml.c:3241-3269 | the scope has the path asked for, whatever part of it was missing |
| AmlNamespace.Namespace.HandlePath | kernel/src/aml.c:905-935 | prints exactly when the path is short enough and fits, and the segments printed, followed from the root, lead back to the handle |
| AmlNamespace.TextReadsBack | kernel/src/aml.c:905-935 | the segments of a printed path are the ones it was printed from |
| AmlNamespace.PrintNames | kernel/src/aml.c:905-935 | the reversed segments are printed in order while they fit |
| AmlNamespace.UnpackPacks | kernel/src/aml.c:378-391 | a name unpacked and packed is itself |
| AmlFields.ReadUnit | kernel/src/aml.c:2005-2050 | a little-endian load within the region; refused exactly outside it or for a bad width |
| AmlFields.WriteUnit | kernel/src/aml.c:2052-2102 | a little-endian store changes exactly the bits of its bytes |
| AmlFields.InputBits | kernel/src/aml.c:2281-2308 | the next bits of a value, zero past its end |
| AmlFields.OutputBits | kernel/src/aml.c:2258-2279 | a fragment put into the value being read sets exactly those bits |
| AmlFields.Merged | kernel/src/aml.c:2400-2413 | mask-and-merge puts the fragment at its place in the unit and keeps the other bits |
| AmlFields.FullMask | kernel/src/aml.c:2400-2402 | the shortcut for a unit that needs no read is taken exactly when the field covers it |
| AmlFields.WriteStep | kernel/src/aml.c:2387-2416 | one unit gets its part of the value, and beside it what the update rule says |
| AmlFields.WriteField | kernel/src/aml.c:2368-2430 | a successful write replaces exactly the bits of the field, for every access width, alignment and length, keeping all others under Preserve; a failing one has written whole units in order; it succeeds exactly when lock, value and region allow |
| AmlFields.ReadStep | kernel/src/aml.c:2336-2350 | one unit's part of the field is added to the value |
| AmlFields.ReadField | kernel/src/aml.c:2310-2366 | a successful read returns exactly the bits of the field, as an integer if it fits the mode, else as a buffer just large enough |
| AmlFields.ReadsWritten | kernel/src/aml.c:2310-2430 | a read after a write returns the value cut or zero-extended to the field |
| AmlFields.WriteKeepsOthers | kernel/src/aml.c:2368-2430 | under Preserve a write is invisible to every field beside it |
| AmlFields.WriteTwice | kernel/src/aml.c:2368-2430 | a later write to a field hides an earlier one |
| AmlTerms.PackageSpan | kernel/src/aml.c:682-710 | an accepted package covers its own length and lies within the bytes |
| AmlTerms.ParseName | kernel/src/aml.c:712-764 | an accepted name takes at least one byte and no more than there are |
| AmlTerms.TermSpan | kernel/src/aml.c:1029-1324 | a span is never empty and never reaches past the bytes, so no offset wraps |
| AmlTerms.TargetSpan | kernel/src/aml.c:989-1010 | the same for targets |
| AmlTerms.PartsSpan | kernel/src/aml.c:1012-1027 | the same for the pieces of a term |
| AmlTerms.TermDepth | kernel/src/aml.c:1029-1324 | the depth limit only refuses: where two depths give a length it is the same |
| AmlTerms.PartsTaken | kernel/src/aml.c:1029-1324 | a consumer that agrees with the scanner on each piece agrees on the whole |
| AmlAgreement.NameAgreesExactly | kernel/src/aml.c:1303-1321 | for every byte string that begins with a name and on which both succeed, the scanner announces the length the evaluator takes if and only if the name is not hidden by a local object where it is a method with arguments, nor an alias of one; for a name met directly, given that its arguments are in step |
| AmlAgreement.HiddenTakes | kernel/src/aml.c:1303-1321 | a name hidden by a local object takes its own bytes alone; the scanner says so exactly when the node found upwards takes no arguments |
| AmlAgreement.AliasTakes | kernel/src/aml.c:1306-1311 | the scanner stops behind an alias; the evaluator does so exactly when what is behind the alias takes no arguments |
| AmlAgreement.DirectTakes | kernel/src/aml.c:4187-4239 | a name met directly takes the bytes the scanner says as long as its arguments do |
| AmlAgreement.AliasDiffers | kernel/src/aml.c:1306-1311 | five bytes, an alias of a method and the constant One, which the scanner takes for four bytes and the evaluator for five |
| AmlAgreement.LocalDiffers | kernel/src/aml.c:4187-4239 | five bytes, a method name and the constant One, which the scanner takes for five bytes and, where a local object has the name, the evaluator for four |
| AmlAgreement.DifferencesCancel | kernel/src/aml.c:1303-1321 | ten bytes on which both differences occur and the lengths agree all the same, so the condition is exact for each name and cannot be exact for the term around them |
| AmlAgreement.TargetTaken | kernel/src/aml.c:2657-2716 | the evaluator takes for a target what the scanner takes |
| AmlAgreement.MeaningTakes | kernel/src/aml.c:1029-1324 | every term takes the bytes the scanner says, through all its operands and arguments, as long as no alias leads to a method with arguments and no local object hides one |
| AmlEval.Machine.Step | kernel/src/aml.c:600-618 | counts one operation and refuses exactly past the budget |
| AmlEval.Machine.WritePlace | kernel/src/aml.c:2518-2578 | writes exactly the slot, local object or named object the target is |
| AmlEval.Machine.WriteNode | kernel/src/aml.c:2518-2578 | only a named object can be written, through its aliases |
| AmlEval.Machine.ReadPlace | kernel/src/aml.c:2474-2516 | the value of a target as the reference gives it |
| AmlEval.Machine.ReadNode | kernel/src/aml.c:2580-2628 | a named object is evaluated when first read; other nodes stand for themselves |
| AmlEval.Machine.Dereference | kernel/src/aml.c:2630-2642 | a reference to a node is read, any other value is itself |
| AmlEval.Machine.AsInteger | kernel/src/aml.c:2644-2655 | the integer a value stands for, as the reference gives it |
| AmlEval.Machine.EvalTerm | kernel/src/aml.c:4410-4849 | a success has the value, the length and the state the reference semantics gives; it takes as many bytes as the scanner says wherever the two see the same names; it spends budget, so evaluation ends; no integer exceeds the mode |
| AmlEval.Machine.EvalStore | kernel/src/aml.c:4483-4496 | Store and CopyObject refine their meaning |
| AmlEval.Machine.EvalPair | kernel/src/aml.c:2898-2907 | left operand first, each converted before the next is evaluated |
| AmlEval.Machine.EvalArithmetic | kernel/src/aml.c:2884-2964 | refines the masked operator on both operands, stored where the target says |
| AmlEval.Machine.EvalLogical | kernel/src/aml.c:2884-2964 | refines the comparison of both operands, with no target |
| AmlEval.Machine.EvalDivide | kernel/src/aml.c:4241-4297 | remainder to the first place, quotient to the second, refused on zero |
| AmlEval.Machine.EvalNot | kernel/src/aml.c:4554-4568 | refines the complement |
| AmlEval.Machine.EvalLogicalNot | kernel/src/aml.c:4570-4579 | refines logical negation |
| AmlEval.Machine.EvalConversion | kernel/src/aml.c:4316-4408 | refines conversion to an integer and to a buffer |
| AmlEval.Machine.EvalDereference | kernel/src/aml.c:4507-4514 | refines dereferencing |
| AmlEval.Machine.EvalCount | kernel/src/aml.c:4516-4529 | refines increment and decrement in place |
| AmlEval.Machine.EvalSizeOf | kernel/src/aml.c:4584-4599 | refines the size of what a target holds |
| AmlEval.Machine.EvalNameOp | kernel/src/aml.c:4465-4481 | refines naming a local object, refused when there is no room |
| AmlEval.Machine.AddDynamic | kernel/src/aml.c:2444-2463 | exactly one local object changes; refused exactly without a name or without room |
| AmlEval.Machine.EvalBuffer | kernel/src/aml.c:2734-2766 | refines a buffer of the size its term gives, filled from the bytes that follow |
| AmlEval.Machine.EvalPackage | kernel/src/aml.c:2768-2819 | refines a package of as many elements as are there, the rest empty |
| AmlEval.Machine.EvalElements | kernel/src/aml.c:2799-2811 | the element loop agrees with the recursive reading |
| AmlEval.Machine.EvalArguments | kernel/src/aml.c:4216-4227 | the argument loop agrees with the recursive reading |
| AmlEval.Machine.EvalName | kernel/src/aml.c:4187-4239 | refines a local object, a named object or a method call |
| AmlEval.Machine.Invoke | kernel/src/aml.c:3026-3099 | a call refines the method's body on slots of its own, and cannot reach the caller's frame; the call depth is restored |
| AmlEval.Machine.RunMethod | kernel/src/aml.c:3081-3090 | the value returned, dereferenced, or zero |
| AmlEval.Machine.ExecuteBlock | kernel/src/aml.c:3101-3239 | the statement loop refines the block: same state, same way of ending |
| AmlEval.Machine.RunReturn | kernel/src/aml.c:3114-3126 | refines Return |
| AmlEval.Machine.RunIf | kernel/src/aml.c:3135-3181 | refines If and the Else behind it |
| AmlEval.Machine.RunWhile | kernel/src/aml.c:3182-3227 | refines the loop, with Break and Continue used up, within the loop budget |
| AmlEval.Machine.RunTurn | kernel/src/aml.c:3194-3225 | one turn of a loop and whether there is another |
| AmlEval.Machine.Evaluate | kernel/src/aml.c:3855-3910 | a handle evaluated from outside gives what the reference gives for a call or a read |
| AmlEval.Machine.Initialize | kernel/src/aml.c:2580-2628 | the first reading evaluates the whole initial expression in a frame of its own, on the shared budget, and refuses an object already being initialized |
| AmlEval.Machine.EvalNumber | kernel/src/aml.c:2644-2655 | a term and the integer it stands for |
| AmlEval.Machine.EvalFollowed | kernel/src/aml.c:2630-2642 | a term and what it refers to |

## Left out

- MgfsUpdater.Updater.ReplaceFilePayload: says nothing about the partly changed image when the call raises an error; the tool discards it.
- MgfsFresh.LabelReads: a label is any non-empty run of bytes without a zero that fits; the code point and UTF-8 rules of the formatter are not modelled.
- MgfsOwnerCheck.OwnerCheck.Check: as in the code, a record that claims a block twice in the same way is not reported, and only the first slot with an ID is looked at (`MgfsOwnerCheck.SoundBySlots` says what that means where IDs differ).
- MgfsGraphCheck.GraphCheck.Check: the messages and the counts above zero are not modelled.
- MgfsBootLookup.FindChild: the path walk above it, one call for each component, is not modelled.
- MgfsUpdateBoot.RewriteFile: a file whose slot is not marked in the record bitmap is rewritten too, but the boot reader does not look at such slots, so nothing is said about reading it.
- MgfsBootInit.Init: block-device discovery and partition offsets are not modelled; the disk is the volume.
- PageTables.Tables.MapRange: the loop over ELF segments is not modelled.
- HeapLists.Heap.constructor: the start-up that finds too few frames and leaves no heap at all is not modelled.
- BlockCache.BlockLayer.Read: statistics, flush and probe requests are left out, and the age counter does not wrap.
- IoGate.BlockGate.Try: interrupt masking and memory ordering are not modelled; each locked section is one step.
- HeapGrowth.RunKeeps: locked sections are single steps, and frames come from a finite pool.
- IdentityAccounts.Accounts.Create: hashing, random numbers and the prompts are answers in `Surroundings`; memory, the update lock, publishing to registry slots and reloading are not modelled.
- IdentityStore.Store.Persist: file-system calls are atomic and may fail, except that a write may stop after any prefix.
- AmlFields.ReadField: index and bank fields, embedded-controller and I/O-port regions and the global lock word are not modelled; a region is its bytes.
- AmlEval.Machine.EvalTerm: says what a success means but not when there is one, since that depends on budgets the caller cannot see; has no RefOf, Index, CondRefOf, CreateField, Notify, Sleep, Stall, mutex, region, field, ToString or decimal and hexadecimal conversion; those opcodes, and field nodes, fail here. The scanner covers all of them.
- AmlEval.Machine.WritePlace: package elements, buffer fields and field nodes are no places here; field nodes are modelled by themselves in `AmlFields`.
- AmlEval.Machine.WriteNode: field nodes are not written here.
- AmlEval.Machine.ReadPlace: package elements and buffer fields are no places here.
- AmlEval.Machine.ReadNode: field nodes are not read here.
- AmlEval.Machine.Dereference: a reference names a node; references to elements are left out with Index.
- AmlEval.Machine.EvalConversion: conversions to strings, decimal and hexadecimal are left out.
- AmlEval.Machine.Evaluate: releasing mutexes an evaluation left behind is not modelled, as mutexes are not.
- AmlAgreement.TargetTaken: Index, RefOf and the other targets the evaluator does not model are not compared.
- AmlAgreement.NameAgreesExactly: for a name met directly the arguments are taken to be in step, since two differences among them can cancel.
- AmlEval.Machine.Step: the wall-clock deadline is left out; it can only turn a success into a failure.
- AmlEval.Machine.Invoke: the lock of serialized methods is left out, since one evaluation runs at a time.
- Scrubbing and reconciling the record bitmap, the layout and migration passes of the updater and table checksum freshness after a release in those passes: long policies over the primitives modelled here.
- Table loading in AML (field lists, devices, methods): it only fills the nodes the namespace operations create.
- Device snapshots, console, entropy, ELF loading, configuration parsing, GPT discovery and UEFI plumbing: input and output, or single loops that would add easy members.
