# Verified models of the firmware's storage, data and transfer code

A Dafny project that models five components of the firmware and proves what they are for.

* **FAT file system** (`component/fatfs`). A one-sector write-back window over the disk
  (`FatVolume`), the three FAT entry encodings on top of it (`FatEntries`) and as bits of the
  drive (`FatBits`), chains and the allocator (`FatChains`, `FatAlloc`), the byte files with
  their private sector buffer (`FatSectors`, `FatFile`, `FatFileOps`, `FatFileRead`,
  `FatFileSeek`, `FatFileTruncate`, `FatOpen`), any client of the allocator (`FatRuns`),
  directory tables over sectors and clusters (`FatDir`) with long names put into their slots
  and read back (`FatNames`, `FatLongNames`, `FatDirRead`), and formatting against mounting
  (`FatFormat`), with both in plain numbers (`FatMount`). Each layer is proved to be a simple thing: an
  array of sectors, an array of entries, a set of disjoint lists, a byte string, a table of
  slots, a name.
* **JSON** (`component/cJSON`). Values and their meaning with objects as maps
  (`JsonValues`, `JsonMembers`), the child list on the heap with its merge sort, insertion and
  removal (`JsonSort`, `JsonList`), sorted lists side by side (`JsonCompare`), trees of nodes on
  the heap, sorted, compared, taken apart, put together and copied in place (`JsonTrees`,
  `JsonKids`), pointers with their escapes and where they lead (`JsonPointer`, `JsonGraft`),
  what JSON Patch and JSON Merge Patch mean on values (`JsonPatch`, `JsonLeads`, `JsonMerge`,
  `JsonNames`), applying them in place (`JsonDetach`, `JsonInPlace`, `JsonMergeTree`),
  generating them in memory and the round trips (`JsonDiff`, `JsonMergeDiff`), the
  parser (`JsonParse`, `JsonParser`) against the grammar of RFC 8259 with UTF-8 and UTF-16
  (`JsonGrammar`, `JsonAccepts`), the two printers and their common text (`JsonText`,
  `JsonPrint`, `JsonBuffer`), print against grammar and parser (`JsonInverse`), and the
  minifier (`JsonMinify`).
* **Command index** (`component/shell`). The intrusive balanced tree with rotations and
  rebalancing (`AvlTree`), insertion and registration (`AvlInsert`), successor walking and
  prefix completion (`AvlScan`).
* **MQTT framing** (`component/mqtt`). The length field (`MqttLength`), the blocking and the
  resumable reader (`MqttRead`), PUBLISH and SUBSCRIBE packets (`MqttPackets`) against the
  packets of MQTT 3.1.1 (`MqttWire`).
* **XMODEM transfer** (`boot`, `tools/xfer`). The receiver (`Xmodem`), the check sum as long
  division of bits (`XmodemCrc`), the sender, the line and both ends together (`XmodemSend`),
  and what passes over the line in numbers (`XmodemWire`).

Code that updates memory is modelled with classes, arrays and loops; the heap is tied to
ghost values (trees, member lists, byte strings) by predicates such as `Placed`,
`DoublyLinked`, `Stands`, `FatFs.Valid` and `Fil.Core`. A tree with a node singled out is a subtree
plus its surroundings (`Ctx`), so that a rotation speaks of one place only.

A function that a method and its specification both use is tied to something defined without
it: sectors and bits of the drive, the grammar of JSON, the packets of MQTT, long division.

Conventions shared by the models:

* disk and line operations succeed; a disk is a sequence of sectors, a line a sequence of
  byte events, and timing enters as explicit timeouts or empty polls;
* a volume is one find_volume accepts (`Geometry.Valid`), which bounds every cluster number
  below the 28-bit end mark and every sector number below 2^32, so that 32-bit sums in the
  file layer cannot wrap; where they can (`FatFormat`), wrap-around is written out;
* `x & (csize - 1)` with a power of two is written `x % csize`;
* CRC-32 is a parameter; CRC-16 is computed bit by bit, as the code does;
* where the code can write or read behind a buffer, an array of the model is the memory from
  the buffer on, and the extent of what is touched is stated exactly;
* names in a JSON document count as they are in the case-sensitive variants and in lower
  case in the others; a document is one whose names are distinct in every object as they
  count;
* a JSON node has one type and one name for good: a duplicate is made under the name it is
  added by, a moved node is made anew over its children, and a document replaced or removed as
  a whole hands over to the duplicate, or to an invalid item, instead of being overwritten by
  it.

Properties the code does not meet everywhere are proved with their exact extent:

* a long name of 254 or 255 units can be registered but is read back as nameless, because
  the buffer has no room left for the terminator of its last part
  (`FatNames.RegisterThenRead`);
* f_mkfs does not check that alignment to erase blocks leaves room for a cluster; without
  it the volume is not mounted (`FatFormat.FormatThenMount`, `FatFormat.AlignmentEatsAll`);
* a volume of so many clusters that their numbers reach the 28-bit end mark is mounted all
  the same, and its chains then do not end (`FatFormat.MountedSound`,
  `FatFormat.EndMarkReadsBack`);
* prefix completion finds nothing when the first character has its low six bits all set,
  because the end index wraps to zero (`AvlScan.WrapMisses`), passes over a command on the
  start index, and stores one entry more than its limit before it gives up, which is behind
  the array of its one caller (`AvlScan.CompletionExact`, `AvlScan.StoresInside`,
  `AvlScan.ElevenMatches`);
* find_volume mounts some boot sectors whose sectors before the data number 2^32 or more
  (`FatMount.MountsBeyond`, `FatMount.CountWraps`);
* f_getfree's scan by sectors counts entries 0 and 1 when they are zero
  (`FatAlloc.GetFree`);
* the MQTT readers write header and length field back before they compare sizes: a packet
  refused can still be written behind a buffer of fewer than five bytes
  (`MqttRead.WritesInside`, `MqttRead.WritesBehind`);
* a PUBLISH or SUBSCRIBE too short for its packet identifier has the identifier read from
  behind it (`MqttPackets.ShortOfId`, `MqttPackets.ShortSubscribe`);
* JSON Patch takes some texts for array indexes that RFC 6901 does not know, takes a path
  without a slash in front for one of its last token, decodes some escapes wrong in the last
  token, lets a value be moved into itself, and copies and moves nothing to the root
  (`JsonPatch.RfcAgreement`, `JsonPatch.EmptyTokenRemoves`, `JsonPointer.LaxIndexes`,
  `JsonPointer.DecodesRight`, `JsonPointer.DecodesWrong`);
* the case-sensitive variant of JSON Patch removes a member whose name differs in case from
  the one asked for when it comes first or alone (`JsonDetach.DetachChild`,
  `JsonDetach.DetachPath`, `JsonInPlace.CaseStumbles`), so that its round trip needs names
  without such twins (`JsonDiff.PatchRoundTrip`);
* a replacement without a value and a move that cannot be put in place take out first and
  fail then (`JsonInPlace.ApplyPatch`);
* a tilde in a name is written into a generated path as the escape of a slash
  (`JsonDiff.EncodedBack`);
* the walk of generate_merge_patch compares bytes in lists that may be sorted without case
  (`JsonMergeDiff.GenerateMergePatch`, `JsonMergeDiff.WalkMisled`);
* a merge patch cannot bring in a null member, so that the generated one then leads
  elsewhere (`JsonMergeDiff.GenerateMergePatch`, `JsonMerge.OnlyKept`, `JsonMerge.NewNull`);
* the blocking MQTT reader takes a length field of more than four bytes as if it had four, and
  one cut off by the end of the stream for zero if its value so far is zero; the other reader
  refuses the former (`MqttRead.TakenExact`, `MqttRead.ReadNb`);
* MQTTPacket_len gives one byte too many for four remaining lengths (`MqttLength.PacketLen`);
* an escape of zero and surrogates that make no pair are left out of a parsed string
  (`JsonAccepts.EscapeDropped`);
* a loader of more than 65520 bytes passes the header check but is written behind the 64 KB
  it may take (`Xmodem.LoaderInside`, `Xmodem.LoaderBehind`);
* minifying a text that ends inside a literal or a block comment reads behind its terminator
  (`JsonMinify.ReadsInside`, `JsonMinify.QuoteReadsOn`).

`dafny verify dfyconfig.toml` checks the whole project.

## Model

| member | source | states |
|---|---|---|
| `FatVolume.FatFs.constructor` | component/fatfs/ff.c:2323-2352 | After a mount the clean window shows the boot sector, or the sector behind it where the volume is FAT32 and octets 48 and 49 of the boot sector hold 1; free count and last cluster are then the numbers at octets 488 and 492 if "RRaA", "rrAa" and 55 AA stand at 0, 484 and 510; else both are 0xFFFFFFFF. |
| `FatVolume.SyncWindow` | component/fatfs/ff.c:699-723 | Writing back makes the disk equal what the window stands for: that sector, and of a FAT sector on a volume with two copies the one fsize sectors on, get the octets of the window, every other sector stays; the view of the disk is unchanged. |
| `FatVolume.MoveWindow` | component/fatfs/ff.c:727-750 | The window shows the requested sector of the disk as it would be after write-back; that disk is not changed by moving. |
| `FatEntries.PutEntry` | component/fatfs/ff.c:872-927 | In any octet string long enough, storing one entry is read back as the stored value and leaves every other entry alone, for 12, 16 and 32 bits, nibble neighbours included. |
| `FatBits.EntryBits` | component/fatfs/ff.c:818-858 | The FAT is a string of bits, octets in order and the lowest bit of each first: bit j of the value of entry c is bit 12 c + j, 16 c + j or 32 c + j, for the 12, 16 and low 28 bits of the value. |
| `FatBits.PutBits` | component/fatfs/ff.c:872-927 | A store sets just these bits to those of the value and leaves every other bit of the table, the four above a FAT32 entry included. |
| `FatBits.FatBit` | component/fatfs/ff.c:818-858 | On the drive: octet k of the table is octet k % ss of sector fatbase + k / ss, so each bit of what get_fat returns is found there. |
| `FatEntries.GetFat` | component/fatfs/ff.c:818-858 | Through the window, reading yields entry `clst` of an array of n_fatent entries, 1 outside 2..n_fatent-1; the window only ever moves inside the FAT. |
| `FatEntries.PutFat` | component/fatfs/ff.c:873-927 | Through the window, writing updates exactly that entry of the array: the octets of the FAT become those of the store, and nothing outside the FAT changes. |
| `FatEntries.StoreEffect` | component/fatfs/ff.c:873-927 | One octet stored in the FAT changes one octet of the FAT of the drive, with its mirror copy following when the window is written back. |
| `FatChains.ChainDistinct` | component/fatfs/ff.c:952-975 | No cluster occurs twice in a chain that ends: chains are acyclic. |
| `FatChains.ChainUnique` | component/fatfs/ff.c:952-975 | A start cluster has one chain: two terminated chains from it are equal. |
| `FatChains.NewChain` | component/fatfs/ff.c:1003-1039 | Giving a free cluster an end mark adds a one-cluster chain, and the set stays disjoint and terminated. |
| `FatChains.StretchedChain` | component/fatfs/ff.c:993-1039 | Linking a free cluster behind the tail of one chain lengthens that chain only. |
| `FatChains.RemovedChain` | component/fatfs/ff.c:952-975 | Freeing from the head of a terminated chain zeroes its clusters and no other entry. |
| `FatChains.RemovedHead` | component/fatfs/ff.c:952-975 | After it, the other chains are the set of chains of the FAT. |
| `FatChains.CutThenFree` | component/fatfs/ff.c:3488-3503 | An end mark in the middle of a chain and freeing the rest leave the first part as the chain, and the other chains as they were. |
| `FatChains.RunKeepsForest` | component/fatfs/ff.c:937-1041 | Over every run of allocations, removals of heads and cuts, the FAT stays a set of disjoint, acyclic, terminated chains, and it is the set the operations name. |
| `FatRuns.Do` | component/fatfs/ff.c:937-1041 | Each of the calls create_chain, remove_chain and the cut of f_truncate on the volume is one operation on the table of entries, or leaves it alone; an allocation that fails found no free entry, and the caller is told the cluster allocated. |
| `FatRuns.RunCalls` | component/fatfs/ff.c:937-1041 | Any client that chooses each call by the results of those before, as long as it names a chain there is at the time, and any number of its calls: the volume ends where the run of their operations ends, with the chains of that run, a set of disjoint, acyclic, terminated chains. |
| `FatRuns.GrowIsProper` | component/fatfs/ff.c:990-1041 | Such a client is the one that creates a chain and goes on stretching what it created, whatever the calls come to. |
| `FatAlloc.RemoveChain` | component/fatfs/ff.c:937-984 | Terminates on any FAT contents, cycles included; the entries afterwards are those of the model removal, a right free count stays right, and FSINFO is due exactly when a known count has changed. |
| `FatAlloc.CreateChain` | component/fatfs/ff.c:990-1041 | Takes the first free entry of the circular search, links it to the named tail or to none, and returns 0 only when no entry from 2 on is free; what was taken is where the next search starts, the free count goes down by one and FSINFO is due if the count is known, and a right count stays right. |
| `FatAlloc.CutBehind` | component/fatfs/ff.c:3494-3502 | An end mark at a cluster and what followed it freed, on any FAT contents. |
| `FatAlloc.GetFree` | component/fatfs/ff.c:3422-3457 | A plausible cached count is returned as it is; a scan counts the free entries, and the sector-wise scan of FAT16 and FAT32 counts entries 0 and 1 too when they are zero. |
| `FatAlloc.CountBySector` | component/fatfs/ff.c:3437-3453 | The scan by sectors equals the count of zero entries over all n_fatent entries. |
| `FatAlloc.ZeroIsFree` | component/fatfs/ff.c:1022-1026 | The count is zero exactly when no entry is free. |
| `FatSectors.ClusterSectors` | component/fatfs/ff.c:799-808 | Sectors of clusters lie on the drive behind the FAT area, and a sector number tells cluster and position apart. |
| `FatSectors.ClusterLayout` | component/fatfs/ff.c:799-808 | The first sector of cluster 2 is the first of the data area, that of cluster c + 1 is csize behind that of c, and what is no cluster has none. |
| `FatSectors.SectorHome` | component/fatfs/ff.c:799-808 | Sector s of the data area is sector (s - database) % csize of cluster 2 + (s - database) / csize. |
| `FatFileOps.ContentOnDrive` | component/fatfs/ff.c:2586-2800 | Octet i of the file is octet i % ss of sector database + (c - 2) * csize + i / ss % csize of the drive, c being the cluster i / ss / csize of its chain, or of the dirty buffer that stands for that sector. |
| `FatFileOps.FWrite` | component/fatfs/ff.c:2687-2800 | The file is a byte string: the bytes written replace those at the pointer and extend the file where needed, and lie in the sectors of the drive that `DriveOctet` computes from the chain, or in the dirty buffer; fewer are written only when no cluster is free; nothing outside the own sectors of the file and the FAT changes. |
| `FatFileOps.WriteAll` | component/fatfs/ff.c:2707-2791 | The loop of f_write, direct multi-sector writes and the private buffer included, in terms of the bytes of the chain. |
| `FatFileOps.Opened` | component/fatfs/ff.c:2586-2800 | A file object whose fields are as an open sets them satisfies the invariant of the file layer. |
| `FatOpen.Open` | component/fatfs/ff.c:2561-2573 | The end of f_open: the file object satisfies the invariant, and its contents are as many bytes of the chain as the directory entry says. |
| `FatOpen.FirstFile` | component/fatfs/ff.c:2323-2573 | From the mount of an empty volume on: a first, empty file that satisfies the invariant. |
| `FatOpen.WriteThenRead` | component/fatfs/ff.c:2586-3175 | Writing, seeking back and reading give back what was written, all of it unless no cluster is free. |
| `FatFileOps.OthersKept` | component/fatfs/ff.c:2687-2800 | What an operation leaves alone includes every byte of every other chain. |
| `FatFileRead.FRead` | component/fatfs/ff.c:2586-2677 | Delivers exactly the slice at the pointer, up to the end of the file, which is what lies in the sectors of the drive that `DriveOctet` computes from the chain, the dirty buffer before them; the contents do not change. |
| `FatFileRead.ReadDirect` | component/fatfs/ff.c:2622-2655 | Whole sectors go straight to the caller, with the dirty buffer copied over its own sector. |
| `FatFileSeek.FLseek` | component/fatfs/ff.c:3102-3175 | The bytes up to the old size stay; the pointer reaches the target, except at the end of a read-only file or when no cluster is free, where it stops behind the last cluster. |
| `FatFileSeek.WalkClusters` | component/fatfs/ff.c:3125-3148 | The walk along the chain stops on the cluster that holds the target, stretching the chain on the way when writing. |
| `FatFileTruncate.FTruncate` | component/fatfs/ff.c:3470-3515 | The file is cut at the pointer, the clusters behind it are free afterwards, the other chains untouched, and the dirty buffer is written; at its end nothing is cut. |
| `FatNames.FitLfn` | component/fatfs/ff.c:1341-1366 | The slot holds the thirteen units of that part of the name at octets 1 to 9, 14 to 24 and 28 to 30, terminator and filler behind the name, attribute 0F, the sum at 13, zeros at 12, 26 and 27, and 40 added to the number exactly on the last part. |
| `FatNames.PickLfn` | component/fatfs/ff.c:1307-1336 | For any slot: it is taken exactly when its number is not 0, octets 26 and 27 are 0, only filler stands behind a zero unit, and the buffer has room for its units, for the last part also for a terminator; the units then stand at their place and nothing else changes. |
| `FatNames.PartTaken` | component/fatfs/ff.c:1307-1336 | A part of a name is taken, but for the last one of a name of more than 253 units. |
| `FatNames.ComputeSum` | component/fatfs/ff.c:1438-1447 | The check sum of the eleven octets of a short name: each is added to the sum so far turned right by one bit, the turning defined bit by bit. |
| `FatDir.DirSdi` | component/fatfs/ff.c:1080-1118 | The directory object stands at the slot of this index, on the static table and along the cluster chain alike; past the end it is refused, and the disk is as before. |
| `FatDir.SlotOnDrive` | component/fatfs/ff.c:1080-1118 | Octet o of slot k is octet 32 k + o of the table, in sectors root + j of a static table and database + (c - 2) * csize + j % csize of a chain, c being its cluster j / csize; or in the dirty window. |
| `FatDir.DirNext` | component/fatfs/ff.c:1128-1188 | The next slot across sectors and clusters; at the end of the table either the end is reported and nothing changes, or the table grows, or no cluster is free. |
| `FatDir.Extend` | component/fatfs/ff.c:1159-1172 | The table grows by one cluster of zero slots; the slots before stay, and nothing outside the FAT and that cluster changes. |
| `FatDir.DirAlloc` | component/fatfs/ff.c:1199-1224 | The first run of free slots of that length, the table stretched as far as need be; refused only when no such run is left below slot 65536 and the table cannot grow. |
| `FatLongNames.DirRegister` | component/fatfs/ff.c:1607-1645 | The parts stand last first before the short entry, which holds the eleven characters, the two case flags at 12 and zeros, with its check sum, in the first run of free slots; the other slots keep their octets; refused exactly for want of such a run. |
| `FatDirRead.DirRead` | component/fatfs/ff.c:1519-1567 | In any table, ends on the first short entry from the current slot on, or where an octet 0 or the end of the table comes first. A long name reported is there: its parts lie in the slots in front, numbered down to 1, with the check sum of that entry, and all their units stand in the buffer. A registered name of up to 253 units is found whole, one of 254 or 255 as nameless; the disk does not change. |
| `FatDirRead.LookMeans` | component/fatfs/ff.c:1535-1552 | What a slot is, in numbers: 0 ends the table; E5, a dot and a volume label are passed over; attribute 0F is a part; the rest are short entries. |
| `FatDirRead.RegisterThenRead` | component/fatfs/ff.c:1519-1645 | The round trip gives the name back if and only if it has at most 253 units. |
| `FatFormat.SelectAu` | component/fatfs/ff.c:4118-4126 | The cluster size is a power of two from 1 to 128 sectors: the one asked for if it is a power of two, from 512 on in bytes, else 512 bytes to 32 KB by the size of the volume in units of 1 024 000 bytes. |
| `FatFormat.GapBelow` | component/fatfs/ff.c:4150-4153 | The data area moves by less than an erase block, to a multiple of it. |
| `FatFormat.SameNeed` | component/fatfs/ff.c:2313-2321 | Formatter and mounter ask for the same FAT size, for each sub-type. |
| `FatMount.LayoutInNumbers` | component/fatfs/ff.c:4129-4165 | The layout in plain numbers: 12 bits an entry up to 4085 clusters, 16 up to 65525, else 32; the least FAT that holds them; 1 or 32 reserved sectors; 512 directory entries or none; the data area at the next block; given up when not one cluster fits, or too few for the sub-type are left. |
| `FatMount.Mounts` | component/fatfs/ff.c:2273-2324 | As long as the sectors before the data number less than 2^32 and the cluster numbers fit 28 bits, find_volume mounts exactly the boot sectors of FAT volumes: sector size, one or two FATs, cluster size, whole directory sectors, at least one cluster, a directory unless on FAT32, and a FAT with the bits for every entry. It mounts what they describe, with the sub-type of their cluster count, and that is a sound volume. |
| `FatMount.MountsBeyond` | component/fatfs/ff.c:2273-2324 | Outside these bounds no volume it mounts is sound. |
| `FatMount.CountWraps` | component/fatfs/ff.c:2287-2303 | Such a boot sector is one with two FATs of 2^31 sectors each, which count as none. |
| `FatFormat.FormatThenMount` | component/fatfs/ff.c:2273-2324 | When no sum leaves 32 bits, a layout f_mkfs arrives at is mounted, with the same sub-type, cluster count and areas, if and only if alignment leaves room for a cluster, a condition on the sizes asked for. |
| `FatFormat.MountedSound` | component/fatfs/ff.c:4118-4165 | What is mounted has its areas in order inside the drive and a FAT that holds every entry, the condition all of the file system part starts from, if and only if its cluster numbers stay below the end mark. |
| `FatFormat.EndMarkReadsBack` | component/fatfs/ff.c:911-918 | Beyond that, the end mark kept in 28 bits reads back as a cluster number. |
| `FatFormat.AlignmentEatsAll` | component/fatfs/ff.c:4153-4165 | A volume of 937 sectors on erase blocks of 1024 is laid out with a wrapped cluster count and not mounted. |
| `AvlTree.RotateRight` | component/shell/avltree.c:54-105 | Child, parent and root pointers are those of the rotated tree, in any surroundings. |
| `AvlTree.RotateLeft` | component/shell/avltree.c:115-145 | The mirror rotation. |
| `AvlTree.BalanceLeft` | component/shell/avltree.c:155-231 | A node whose left side is two higher becomes a balanced subtree one lower with true balance factors, the same nodes and the same order. |
| `AvlTree.BalanceRight` | component/shell/avltree.c:241-312 | The mirror case. |
| `AvlTree.Rescale` | component/shell/avltree.c:200-216 | The balance factors written after a double rotation are the real height differences. |
| `AvlTree.PlugLinked` | component/shell/avltree.c:377-419 | A tree is linked exactly when a subtree and its surroundings are. |
| `AvlTree.PlugAvl` | component/shell/avltree.c:377-419 | A tree is balanced exactly when a subtree is, and its surroundings are for its height. |
| `AvlTree.PlugInorder` | component/shell/avltree.c:377-419 | The order of a tree is what lies before a place, the subtree, and what lies after. |
| `AvlInsert.TrackLeft` | component/shell/avltree.c:323-342 | Returns 0 exactly when the subtree at this place grew by one, -1 when its height is as before; balanced and linked either way. |
| `AvlInsert.TrackRight` | component/shell/avltree.c:350-366 | The mirror case. |
| `AvlInsert.Climb` | component/shell/avltree.c:404-418 | The climb ends where the height no longer grows or at the root, with the whole tree balanced. |
| `AvlInsert.Insert` | component/shell/avltree.c:377-419 | The tree stays linked, its stored factors true and at most one apart, and gains exactly the new node at that place of the order. |
| `AvlInsert.InsertCmd` | component/shell/shell_src.c:166-204 | A command is refused exactly when its ID is taken; otherwise it is added at its place and the IDs stay ascending. |
| `AvlInsert.Landed` | component/shell/shell_src.c:175-190 | The empty place the descent ends at is the place of a new ID in the order. |
| `AvlScan.Next` | component/shell/avltree.c:568-594 | The in-order successor, null exactly after the last command. |
| `AvlScan.FindStart` | component/shell/shell_src.c:229-240 | The descent ends on a command with nothing above the start index before it. |
| `AvlScan.IdFields` | component/shell/shell_src.c:654-673 | An ID has six bits of the first character on top, then five of the length, five of the sum and two check bytes. |
| `AvlScan.IndexFields` | component/shell/shell_src.c:223-224 | The scan runs from the character and length of the prefix with nothing behind them to the next character, which after the last one is zero. |
| `AvlScan.PrefixInRange` | component/shell/shell_src.c:654-679 | A registered name that begins with the prefix has an ID in the scanned range, unless the range wraps. |
| `AvlScan.Checkout` | component/shell/shell_src.c:215-261 | For a prefix of any length but zero, returns the commands found, in ID order, nothing when they are more than checkmax; exactly so many stores are made to the memory behind checkout, one more than returned then. |
| `AvlScan.CompletionExact` | component/shell/shell_src.c:215-261 | What is found is precisely the commands whose names begin with the prefix if and only if there are none, or the range does not wrap, no such command stands on the start index where the descent passes over it, and they are at most checkmax. |
| `AvlScan.StoresInside` | component/shell/shell_src.c:252-256 | Every store is inside an array of n entries if and only if the range wraps, the commands found fit, or checkmax is below n. |
| `AvlScan.ElevenMatches` | component/shell/shell_src.c:329-344 | With the ten entries and the limit ten of the one caller, eleven matching commands make a store behind the array. |
| `AvlScan.OnStart` | component/shell/shell_src.c:223-240 | A command on the start index whose name begins with the prefix is the one of exactly that name, with check bits of zero. |
| `AvlScan.WrapMisses` | component/shell/shell_src.c:224-226 | With a prefix that starts with '?' nothing is found although a command matches. |
| `JsonSort.SortList` | component/cJSON/cJSON_Utils.c:460-569 | Terminates with the same nodes, linked both ways with null at the ends, in key order, a list in strict order being left as it is. |
| `JsonSort.Merge` | component/cJSON/cJSON_Utils.c:504-566 | Two sorted lists become one sorted list of their nodes, of two equal keys that of the second list first. |
| `JsonSort.EqualsReversed` | component/cJSON/cJSON_Utils.c:460-569 | Nodes of equal keys come out of the sort in the reverse order. |
| `JsonSort.Middle` | component/cJSON/cJSON_Utils.c:485-496 | The slower of two pointers ends on the middle node, at half the length rounded up. |
| `JsonSort.CmpTrans` | component/cJSON/cJSON_Utils.c:73-98 | The key comparison is transitive, strictly where one step is strict. |
| `JsonSort.CmpZero` | component/cJSON/cJSON_Utils.c:73-98 | It is zero exactly on equal keys, and reversing the arguments reverses the sign. |
| `JsonSort.CmpEarlier` | component/cJSON/cJSON_Utils.c:73-98 | Its sign is dictionary order: the first place where two keys differ decides, and a shorter one comes first. |
| `JsonValues.LettersFold` | component/cJSON/cJSON_Utils.c:88-96 | Without case the 26 letters fold and no other character. |
| `JsonValues.TextsFold` | component/cJSON/cJSON_Utils.c:88-96 | Two names are the same without case exactly when they have the same length and at each place the same character or the two forms of one letter. |
| `JsonCompare.PartAt` | component/cJSON/cJSON_Utils.c:631-660 | Two sorted member lists that part at a position have different members. |
| `JsonList.Detach` | component/cJSON/cJSON_Utils.c:372-402 | In place: the node at the index leaves the doubly linked list, which closes up with the other nodes in order; its own links are cleared; past the end nothing changes. |
| `JsonList.Insert` | component/cJSON/cJSON_Utils.c:669-703 | In place: the new node stands at the index of the doubly linked list, up to and including its end; beyond it the list is refused and unchanged. |
| `JsonList.AddItem` | component/cJSON/cJSON.c:710 | In place: the new node goes behind the last. |
| `JsonTrees.SortHere` | component/cJSON/cJSON_Utils.c:571-578 | In place: the children of the object stand in key order, each with everything below it where it was, and none lost. |
| `JsonTrees.CompareTrees` | component/cJSON/cJSON_Utils.c:580-666 | True exactly when the two trees in memory are equal with objects read as unordered maps, names counting with or without case as the variant has it; the objects visited are left sorted, which changes neither meaning nor nodes. |
| `JsonKids.DetachKid` | component/cJSON/cJSON.c:716-717 | In place: the child leaves with everything below it, and what remains is a tree of the other nodes. |
| `JsonKids.Duplicate` | component/cJSON/cJSON.c:747-772 | New nodes throughout, linked as a tree, with the same value. |
| `JsonDetach.DetachNamed` | component/cJSON/cJSON.c:719 | In place: the first member whose name counts as the key leaves the object with all below it, if there is one. |
| `JsonDetach.DetachChild` | component/cJSON/cJSON_Utils.c:432-451 | The removal at a parent is the one the name asks for if and only if, in the case-sensitive variant, the first member alike without case has that very name; else another member goes. |
| `JsonInPlace.CaseStumbles` | component/cJSON/cJSON_Utils.c:441-444 | With "A" before "a" in one object the case-sensitive removal of "/a" takes the wrong one. |
| `JsonMergeTree.MergePatch` | component/cJSON/cJSON_Utils.c:1295-1352 | In place: the tree that results means what section 2 of RFC 7396 defines on unordered objects, made of nodes of the target and new ones; the patch is as before. |
| `JsonMergeDiff.GenerateMergePatch` | component/cJSON/cJSON_Utils.c:1364-1440 | On two trees in memory whose names stand in the same order with and without case: nothing exactly for two objects that are equal; otherwise a new patch that turns `from` into `to` if and only if `to` has no null member that `from` does not have, and that names nothing on which the two agree. Both are left sorted, which changes no meaning. |
| `JsonNames.NotOrderly` | component/cJSON/cJSON_Utils.c:73-98 | The names "a" and "B" stand one way without case and the other in bytes. |
| `JsonMergeDiff.WalkMisled` | component/cJSON/cJSON_Utils.c:1378-1432 | From an object of "a" and "B" to one of "B" alone the walk adds "B" and then removes both, which merged in turn leaves nothing. |
| `JsonNames.TreeLowers` | component/cJSON/cJSON_Utils.c:73-98 | What such a tree means without case is what it means with it, every name in lower case. |
| `JsonNames.LowersOnce` | component/cJSON/cJSON_Utils.c:73-98 | Two such values that read the same without case are the same. |
| `JsonNames.MergeLowers` | component/cJSON/cJSON_Utils.c:1295-1352 | Merging and then ignoring case is ignoring case and then merging. |
| `JsonMerge.OnlyKept` | component/cJSON/cJSON_Utils.c:1364-1440 | No merge patch whatever leads to a null member the target does not have. |
| `JsonMerge.NewNull` | component/cJSON/cJSON_Utils.c:1364-1440 | A null member cannot be brought into an empty object. |
| `JsonMergeDiff.MergeRoundTrip` | component/cJSON/cJSON_Utils.c:1295-1440 | Generating from `from` to `to` and merging into `from`, all in memory, gives `to` up to member order if and only if `to` has no null member that `from` does not have. |
| `JsonMerge.NamedNeverNull` | component/cJSON/cJSON_Utils.c:1295-1352 | Merging leaves no null under a key the patch names. |
| `JsonMerge.AllSettled` | component/cJSON/cJSON_Utils.c:1400-1432 | A patch that is right under every key is right as a whole, and empty only for equal members. |
| `JsonPointer.ComparePointers` | component/cJSON/cJSON_Utils.c:102-136 | True exactly when the next token, its escapes read as RFC 6901 has them, is the name as names count; a token with a broken escape names nothing. |
| `JsonPointer.DecodeInPlace` | component/cJSON/cJSON_Utils.c:339-370 | The loop leaves what the decoding function says, in place. |
| `JsonPointer.DecodesRight` | component/cJSON/cJSON_Utils.c:339-370 | A token comes out as RFC 6901 has it if and only if it holds no ~1 and after n escapes each character equals the one n places before it. |
| `JsonPointer.DecodesWrong` | component/cJSON/cJSON_Utils.c:339-370 | "~1" comes out as "~" and "~0a" as "~0". |
| `JsonPointer.DecodeIndex` | component/cJSON/cJSON_Utils.c:254-279 | The index in a path token, with the decoder's acceptance of an empty token and of later characters above '9'. |
| `JsonPointer.DecimalIndex` | component/cJSON/cJSON_Utils.c:1166-1170 | An index printed into a path is read back as itself. |
| `JsonPointer.LaxIndexes` | component/cJSON/cJSON_Utils.c:254-279 | The decoder takes the empty token for 0 and "1:" for 20, which RFC 6901 does not know as indexes. |
| `JsonGraft.FindNode` | component/cJSON/cJSON_Utils.c:281-326 | Follows any pointer text through the tree in memory to the node its tokens lead to, escapes and case included, or to none; a text without a slash in front leads to the root. |
| `JsonGraft.WalkMeans` | component/cJSON/cJSON_Utils.c:281-326 | The walk along the nodes and the walk along the value find the same, or both nothing. |
| `JsonGraft.WalkPut` | component/cJSON/cJSON_Utils.c:281-326 | Another tree at the place found sets that place of the value and nothing else. |
| `JsonInPlace.ApplyPatch` | component/cJSON/cJSON_Utils.c:783-1010 | In place, for every patch object, its members looked up by name, in any order and with others among them: the status is 0 exactly when the object asks for an operation and section 4 of RFC 6902, with paths as the code reads them, allows it, and the document then means its result; each refusal has its own number, by what is missing first; after a failure the document is as before, or without what a move or a replacement without value had taken out. Read by the standard the same holds except where `Differs` says so. A removal that stumbles succeeds with another result than asked for. |
| `JsonInPlace.ApplyPatches` | component/cJSON/cJSON_Utils.c:1012-1068 | In place: the patches in turn, the first failure ending the run with its status and what it leaves; with the case-sensitive variant, as long as nothing is taken out next to a name that differs in case only. |
| `JsonInPlace.AloneSteady` | component/cJSON/cJSON_Utils.c:406-457 | A removal with no other name alike in its place does not stumble. |
| `JsonDetach.DetachPath` | component/cJSON/cJSON_Utils.c:406-457 | In place, for any path text: the node named leaves with all below it and the document is the rest, or nothing is there and nothing changes, if and only if the path does not stumble over a name that differs in case only; where it does, another member leaves. |
| `JsonPatch.RfcAgreement` | component/cJSON/cJSON_Utils.c:783-1010 | The operation as the code reads it is that of RFC 6902 if and only if the guards of `Differs` are not met: a path without a slash in front, a lax index, a name decoded wrong that makes a difference, a move into the value moved, a copy or move to the root; for a move whose last name is decoded right. |
| `JsonPatch.WhenDoes` | component/cJSON/cJSON_Utils.c:783-1010 | An operation has a result exactly when its target, its source and the parent of its place are there. |
| `JsonPatch.EmptyTokenRemoves` | component/cJSON/cJSON_Utils.c:254-279 | Removing at "/" takes the first element of an array, which RFC 6902 refuses. |
| `JsonPatch.RemoveThenAdd` | component/cJSON/cJSON_Utils.c:872-995 | Detaching and adding at the same path is replacing. |
| `JsonDiff.CreatePatches` | component/cJSON/cJSON_Utils.c:1115-1253 | On two trees in memory, which are left sorted and meaning the same: the patch objects added to the array ask for operations that lead, by RFC 6902, from what `from` means to what `to` means, at any depth and below any path; each is at a place where the two differ and where not both have an object or both an array, so that none is added when they mean the same. |
| `JsonDiff.PatchArray` | component/cJSON/cJSON_Utils.c:1144-1186 | Arrays: common elements patched in place, surplus removed at one constant index, the rest appended. |
| `JsonDiff.PatchObject` | component/cJSON/cJSON_Utils.c:1188-1247 | Objects: both are sorted in memory, and a walk along both lists removes, adds and descends. |
| `JsonDiff.ComposePatch` | component/cJSON/cJSON_Utils.c:1070-1108 | A new patch object goes behind the others of the array, and its members ask for this operation on this path, with a duplicate of the value. |
| `JsonDiff.EncodedBack` | component/cJSON/cJSON_Utils.c:155-177 | A name without a slash written into a path is read back as itself if and only if it has no tilde. |
| `JsonLeads.LeadsBelow` | component/cJSON/cJSON_Utils.c:1012-1039 | Operations below a child change that child and nothing else. |
| `JsonLeads.RunsTo` | component/cJSON/cJSON_Utils.c:783-1039 | Changes RFC 6902 makes on paths without escapes are made by the code, one after the other. |
| `JsonDiff.GeneratePatches` | component/cJSON/cJSON_Utils.c:1255-1283 | A new array of patch objects that ask for operations leading from what `from` means to what `to` means, each wanted in that sense, and none exactly when the two mean the same. |
| `JsonLeads.NoneIfSame` | component/cJSON/cJSON_Utils.c:1115-1253 | Operations that are all wanted and lead from one value to the other are none exactly when the two are equal. |
| `JsonDiff.PatchRoundTrip` | component/cJSON/cJSON_Utils.c:1012-1283 | Patches made from `from` to `to` and applied in place to `from` succeed and leave `to` up to member order; with the case-sensitive variant, if no names in the same place differ in case only. |
| `JsonDiff.ApplyGenerated` | component/cJSON/cJSON_Utils.c:1012-1068 | The same for any other document that means what `from` means. |
| `JsonInverse.PrintParse` | component/cJSON/cJSON.c:327-346 | Parsing what either printer writes rebuilds the tree, member order included, and consumes the whole text. |
| `JsonInverse.ParsePrinted` | component/cJSON/cJSON.c:396-697 | The same for a value anywhere in a text, whatever follows that cannot continue a number. |
| `JsonInverse.PrintedSyntax` | component/cJSON/cJSON.c:411-697 | What either printer writes is JSON by RFC 8259: a text of its grammar that denotes the value. |
| `JsonInverse.EscapedPiece` | component/cJSON/cJSON.c:300-322 | Each character is written as the grammar of strings has it. |
| `JsonAccepts.Accepted` | component/cJSON/cJSON.c:396-697 | Any text of the grammar, blanks anywhere it has them, whose numbers are 32-bit integers, is parsed to the value it denotes. |
| `JsonAccepts.TextAccepted` | component/cJSON/cJSON.c:327-341 | The same for a whole text. |
| `JsonAccepts.Utf8Encodes` | component/cJSON/cJSON.c:233-241 | The bytes made of a code point are its UTF-8 encoding, the encoding given by bits of RFC 3629. |
| `JsonAccepts.EscapeRead` | component/cJSON/cJSON.c:220-241 | A code point written in hexadecimal as one UTF-16 unit or a pair of surrogates is read as these bytes. |
| `JsonAccepts.EscapeDropped` | component/cJSON/cJSON.c:220-231 | Nothing is added for an escape of zero, for one without four digits, and for surrogates that make no pair, and for no other. |
| `JsonAccepts.HexOnly` | component/cJSON/cJSON.c:181-193 | What is read as a number other than 0 is four hexadecimal digits of it. |
| `JsonAccepts.OtherEscape` | component/cJSON/cJSON.c:215-246 | Behind a backslash, any other character stands for itself. |
| `JsonAccepts.LiteralRead` | component/cJSON/cJSON.c:196-253 | A string literal of the grammar is read as the bytes its characters and escapes denote. |
| `JsonAccepts.NumeralRead` | component/cJSON/cJSON.c:100-119 | A 32-bit integer of the grammar is read as its value. |
| `JsonAccepts.Blanks` | component/cJSON/cJSON.c:324 | Skipping passes over all characters from 1 to 32 and no other. |
| `JsonParser.ReadString` | component/cJSON/cJSON.c:196-253 | The unescaping loop computes the string function, lone surrogates and short literals included, which `JsonAccepts` states for literals of the grammar. |
| `JsonParser.ReadArray` | component/cJSON/cJSON.c:445-470 | The element loop computes the array function on every text. |
| `JsonParser.ReadObject` | component/cJSON/cJSON.c:553-586 | The member loop computes the object function on every text. |
| `JsonParser.ParseWithOpts` | component/cJSON/cJSON.c:327-341 | Computes the parse function on every text, gives back every tree printed, and what any text of the grammar of RFC 8259 with 32-bit integers denotes. |
| `JsonPrint.PrintJoined` | component/cJSON/cJSON.c:411-442 | The printer that renders parts and joins them writes the text of the value. |
| `JsonPrint.JoinArray` | component/cJSON/cJSON.c:473-550 | Elements rendered first and joined afterwards. |
| `JsonPrint.JoinObject` | component/cJSON/cJSON.c:589-697 | Names and values rendered first and joined afterwards. |
| `JsonPrint.EscapedLength` | component/cJSON/cJSON.c:293-294 | The room computed for an escaped string is its length. |
| `JsonPrint.Render` | component/cJSON/cJSON.c:300-322 | The escaping loop writes the quoted text and its terminator. |
| `JsonBuffer.Ensure` | component/cJSON/cJSON.c:125-140 | There is room at the write position afterwards, everything in the buffer is kept through the move, and a new buffer has the least power of two that is enough. |
| `JsonBuffer.Update` | component/cJSON/cJSON.c:142-148 | The write position moves to the terminator. |
| `JsonBuffer.PrintValue` | component/cJSON/cJSON.c:411-427 | Into the buffer goes the same text, behind what is there, through any number of growths. |
| `JsonBuffer.PrintBuffered` | component/cJSON/cJSON.c:349-357 | From any first size, the buffer holds the text the joining printer makes. |
| `JsonMinify.MinifyPrint` | component/cJSON/cJSON.c:774-789 | Minifying what cJSON_Print writes gives what cJSON_PrintUnformatted writes, whatever lies behind it in memory. |
| `JsonMinify.Minify` | component/cJSON/cJSON.c:774-789 | In place, what is kept of memory from the text on is moved to its front and terminated, whenever the reading stays inside that memory. |
| `JsonMinify.ReadsInside` | component/cJSON/cJSON.c:774-789 | What is kept of memory that begins with a text is what is left of the text; with nothing behind the terminator the reading stays inside if and only if the text does not end inside a literal or a block comment. |
| `JsonMinify.QuoteReadsOn` | component/cJSON/cJSON.c:785 | A text of one quote is read past its terminator, and what lies there is kept. |
| `JsonMinify.LeavesQuoted` | component/cJSON/cJSON.c:785 | A string literal is kept as it is, escapes and all. |
| `MqttLength.EncodeDecode` | component/mqtt/MQTTPacket.c:29-79 | A length encoded is decoded, with the same number of bytes, whatever follows. |
| `MqttLength.WriteLen` | component/mqtt/MQTTPacket.c:29-44 | The loop writes the encoded field and nothing else. |
| `MqttLength.PacketLen` | component/mqtt/MQTTPacket.c:84-98 | The size of a packet, and one byte more exactly for remaining lengths of 127, 16383, 2097150 and 2097151. |
| `MqttRead.DecodeLen` | component/mqtt/MQTTPacket.c:54-79 | On a field of at most four bytes, its value and size. |
| `MqttRead.Read` | component/mqtt/MQTTPacket.c:290-316 | A packet that fits is stored with its length field in shortest form and its type returned; one that does not is refused, and for any other stream the result is the one `TakenExact` says; header and length field are written in either case, and nothing behind them or the packet. |
| `MqttRead.TakenExact` | component/mqtt/MQTTPacket.c:290-316 | What is taken for a packet that fits: the packets that do; and a field cut off by the end of the stream with no value so far, and one of more than four bytes as if it had four. |
| `MqttPackets.PacketOnWire` | component/mqtt/MQTTPacket.c:290-316 | A packet is in front exactly where sections 2.2.1 and 2.2.3 of MQTT 3.1.1 have one: a length field of seven-bit groups, the lowest first, and as many bytes as it says. |
| `MqttPackets.StoredOnWire` | component/mqtt/MQTTPacket.c:290-316 | Its type is in bits 7 to 4 of its first byte, and it is stored with a length field of the same value in at most as many bytes. |
| `MqttRead.WritesInside` | component/mqtt/MQTTPacket.c:301-308 | What is written stays in the buffer if and only if header and length field do, as for every packet that fits and every buffer of five bytes. |
| `MqttRead.WritesBehind` | component/mqtt/MQTTPacket.c:301-308 | Refusing a PUBLISH of 128 bytes for a buffer of two writes three. |
| `MqttRead.ReadNb` | component/mqtt/MQTTPacket.c:362-411 | Either more of the packet has been taken and nothing is lost, or the result is that of the blocking reader, -1 for a length field of more than four bytes included; nothing is written behind what that one writes. |
| `MqttRead.DecodeNb` | component/mqtt/MQTTPacket.c:324-352 | The length field resumes where it was left; a fifth byte of it makes -1, and a field of at most four its value. |
| `MqttRead.ReadAll` | component/mqtt/MQTTPacket.c:290-316 | Reading a stream of packets one after the other yields their types and contents. |
| `MqttRead.PollAll` | component/mqtt/MQTTPacket.c:362-411 | Under every schedule of empty polls and partial deliveries the results are the first of those, and all of them once the schedule has delivered enough. |
| `MqttPackets.SerializePublish` | component/mqtt/MQTTSerializePublish.c:55-91 | What stands in the buffer is a PUBLISH of section 3.3 of MQTT 3.1.1, flag bits included, of exactly 1 + length field + remaining length bytes, never more than MQTTPacket_len; or the buffer is too short, which gives -2. |
| `MqttPackets.PublishWritten` | component/mqtt/MQTTSerializePublish.c:55-91 | The packet in bits and numbers of the standard: the high half of the first byte is 3, bit 3 is set for a duplicate, bits 2 and 1 hold the quality of service, bit 0 is set to retain; then length field, topic, identifier where there is one, payload. |
| `MqttPackets.PublishFound` | component/mqtt/MQTTDeserializePublish.c:36-69 | Of any PUBLISH of the standard these fields are found. |
| `MqttPackets.DeserializePublish` | component/mqtt/MQTTDeserializePublish.c:36-69 | Finds the fields of a packet in memory, with the code's return value after a bad topic, and a payload length below zero where the packet ends before its identifier does. |
| `MqttPackets.ShortOfId` | component/mqtt/MQTTDeserializePublish.c:58-62 | That is so exactly when quality of service asks for an identifier and fewer than two bytes are left behind the topic. |
| `MqttPackets.PublishRoundTrip` | component/mqtt/MQTTDeserializePublish.c:36-69 | Deserializing a serialized PUBLISH returns the same fields, for any payload. |
| `MqttPackets.WriteString` | component/mqtt/MQTTPacket.c:194-207 | Either form of a string is written with its length in two bytes. |
| `MqttPackets.StringBack` | component/mqtt/MQTTPacket.c:215-235 | A string written is a string read. |
| `MqttPackets.SubscribeLength` | component/mqtt/MQTTSubscribeClient.c:28-37 | The remaining length of the packet to be written. |
| `MqttPackets.SerializeSubscribe` | component/mqtt/MQTTSubscribeClient.c:51-86 | What stands in the buffer is a SUBSCRIBE of section 3.8 of MQTT 3.1.1, or it is too short, which gives -2. |
| `MqttPackets.SubscribeWritten` | component/mqtt/MQTTSubscribeClient.c:51-86 | The packet in bits and numbers of the standard, the first byte 0x82 but for the duplicate flag. |
| `MqttPackets.SubscribeFound` | component/mqtt/MQTTSubscribeServer.c:35-76 | Of any SUBSCRIBE of the standard identifier and requests are found. |
| `MqttPackets.DeserializeSubscribe` | component/mqtt/MQTTSubscribeServer.c:35-76 | Fills the arrays with the requests of a packet in memory, and rejects one with more than maxcount or a broken string. |
| `MqttPackets.ShortSubscribe` | component/mqtt/MQTTSubscribeServer.c:51-72 | A body too short for the packet identifier is accepted as one without requests, the identifier being read from behind it. |
| `MqttPackets.SubscribeRoundTrip` | component/mqtt/MQTTSubscribeServer.c:35-76 | Deserializing a serialized SUBSCRIBE returns the same requests, for any number up to maxcount. |
| `Xmodem.ComputeCrc16` | boot/main.c:245-256 | The bit loop of both ends computes one function of the data, which `XmodemCrc.CrcIsRemainder` identifies. |
| `XmodemCrc.CrcIsRemainder` | boot/main.c:245-256 | The check sum is what long division of the bits of the data, with sixteen zeros behind them, by x^16 + x^12 + x^5 + 1 leaves. |
| `XmodemCrc.DivisionHolds` | boot/main.c:245-256 | The division is one: bits are quotient times generator plus remainder, without carries. |
| `XmodemCrc.TakenIff` | boot/main.c:325-335 | Data and two check bytes fit exactly when together they are a multiple of the generator. |
| `XmodemCrc.BurstShows` | boot/main.c:245-256 | Two blocks that differ within one run of at most sixteen bits have different sums. |
| `Xmodem.ReceiveBlock` | boot/main.c:304-341 | A block is taken and acknowledged exactly when framing and check bytes fit, in the sense of `XmodemWire.FrameAnswered`, else refused with everything kept. |
| `Xmodem.ReceiveLoader` | boot/main.c:263-377 | For any byte stream and any timeouts, 0 implies a valid header and a matching CRC-32 over dst; every reply is that of the state machine; exactly the blocks taken are written from dst on, 112 bytes for the first and 128 for each other, and nothing else. |
| `XmodemWire.FrameAnswered` | boot/main.c:304-341 | In numbers: a frame of 133 bytes, 0x01, the block number modulo 256 and 255 less it, is answered by 0x06 and its 128 data bytes taken exactly when data and check bytes leave no remainder, else by 0x15. |
| `XmodemWire.HeaderBytes` | boot/main.c:345-362 | A valid header in bytes: "2LDR" and a size from 1 to 65536 at 8, lowest byte first. |
| `Xmodem.LoaderInside` | boot/main.c:345-362 | What a loader of some size writes stays inside its memory if and only if the size leaves sixteen bytes free. |
| `Xmodem.LoaderBehind` | boot/main.c:345-362 | One of 65521 bytes, which the header check lets pass, writes 112 bytes behind it. |
| `XmodemSend.FeedFrame` | boot/main.c:304-352 | A frame with the framing bytes of the next block is answered by ACK or NAK as its check bytes fit or not. |
| `XmodemSend.WaitAck` | tools/xfer/flash_upg.c:343-371 | What comes before the first answer is skipped; ACK counts as 0, NAK and 'C' as 1, CAN as -2; without an answer the time runs out. |
| `XmodemSend.SendSoh` | tools/xfer/flash_upg.c:535-577 | The frame written: framing bytes, data filled up with 0x1A, check bytes. |
| `XmodemWire.FrameBytes` | tools/xfer/flash_upg.c:535-577 | The frame in numbers: 0x01, the number and 255 less it, the data filled up to 128 bytes with 0x1A, and two bytes that leave no remainder. |
| `XmodemSend.SendBlock` | tools/xfer/flash_upg.c:603-631 | A block passes if and only if at most nine copies of it are damaged, ten tries being made; the receiver has exactly one block more, or still waits for this one. |
| `XmodemSend.XmodemSend` | tools/xfer/flash_upg.c:579-646 | The sender succeeds, across the wrap of the block number, if and only if at most nine copies of each block are damaged, and then the receiver does with the body at dst; else it gives up at the first block of which there are more, with all blocks before it at the receiver, which still waits. |
| `XmodemSend.Transfer` | boot/main.c:263-377 | The bytes the line passed on, read by the receiver's own loop, give success and the body at dst, and nothing is written behind its last block. |
| `XmodemSend.TryFrame` | tools/xfer/flash_upg.c:609-616 | The frame of the next block is accepted by a receiver that has all blocks before it. |

## Left out

- Disk-error paths, `fp->err`, `validate`, locking, fast seek, trim, relative paths, code
  pages and timestamps; f_sync and f_close, and of f_open everything before the fields of the
  file object are set; dir_find with its matching of names, and numbered short names.
- FatFileOps.FWrite: the update of the directory entry, which f_sync makes, is not modelled.
- FatLongNames.DirRegister: the short name is given, as it is once it does not collide.
- FatMount.MountsBeyond: the reserved sectors end below sector 2^32 of the drive.
- FatFormat.FormatThenMount: partition tables and the clearing of FAT and root directory
  sectors are not modelled; erase blocks are powers of two, as the disk layer reports them.
- avl_delete, avl_prev and avl_replace_node, the first of which is compiled out.
- AvlScan.Checkout: the CRC and sum bits of an ID can be anything.
- JsonDiff.CreatePatches: no name holds a '~', which is encoded wrong, or a '/', of whose
  escape the code leaves the first character as it finds it in memory.
- JsonDiff.PatchRoundTrip: where names in one place differ in case only, the case-sensitive
  variant may still come out right, if a later removal makes up for an earlier one or none is
  made; that is not told apart. A document read with case must have no two equal names, one
  read without case no two that differ in case only.
- JsonMergeDiff.GenerateMergePatch: the names of both documents stand in the same order with
  and without case; the case-sensitive variant needs that too, because it recurses through the
  one that ignores case, but not for names that occur at the top only.
- JsonInPlace.ApplyPatch: a move whose "from" is there but no string is not modelled, for its
  text is then read through a null pointer; an index is an unbounded number, so that the wrap
  of a very long index text is not modelled; deleted nodes are left to themselves instead of
  freed.
- JsonPatch.RfcAgreement: for a move, the last name of the source is one the code decodes
  right.
- JsonPrint.PrintJoined: an invalid item, which component/cJSON/cJSON.c has no type for, is
  not printed.
- JsonParser.ParseWithOpts: numbers with a fraction or exponent or beyond 32 bits, and
  escapes that run past the end of the text, have the outcome `Undefined`; the sizes
  parse_string and the joining printers allocate, and failing allocation, are not modelled.
- JsonBuffer.Ensure: sizes are unbounded numbers; a text of 2^30 bytes would wrap them.
- CONNECT and the fixed-size MQTT packets, MQTTPacket_equals, and transport errors.
- Xmodem.ReceiveLoader: when the modelled line ends, the receiver is still waiting, which has
  the result `WAITING`.
- XmodemSend.XmodemSend: damaged copies keep their three framing bytes and replies are not
  lost, as in lock step; a lost ACK or a repeated 'C' is not modelled.
- YMODEM, UART registers, flash layout, jumps, the shell's line editing and history, the web
  page and the packing scripts.
