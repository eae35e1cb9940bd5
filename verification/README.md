# Verified model of a sensor node's storage and network code

A Dafny model of the parts of the node's firmware in which most can go wrong:
the FAT file system engine, the CoAP message codec and block engine, the Contiki
event kernel with its timers and the CoAP retransmission layer on top, and the
hashed ring of records on the memory card. The model keeps the form of the
firmware: sector windows, file buffers, receive buffers, linked lists and rings
are objects, arrays and fields that methods change in place, with the branches,
limits and error results of the code. What the methods promise is said on plain
values - byte strings, tables, lists of entries, option lists, traces - and the
properties of those values are proved as lemmas.

`dafny verify dfyconfig.toml` checks everything.

## Structure

- `Octets`, `Arith`: bytes; the multiplication and division facts the solver
  has to be led through.
- `FatBytes`, `FatDisk`, `FatTable`, `FatVol`, `FatVolume`: sectors, the block
  device, the packed table as a function of the sectors, and the one-sector
  write-back window with its mirror.
- `FatChain`, `FatAlloc`, `FatFree`: cluster chains, taking and freeing
  clusters, counting free ones.
- `FatLayout`, `FatCursor`, `FatBytesSpec`, `FatState`, `FatSeek`, `FatFile`,
  `FatRun`, `FatLinkMap`: open files. `FatState` and `FatSeek` hold the steps a
  read, write or seek is made of, as lemmas on values; `FatFile.File` has the
  methods; `FatRun` replays whole runs against a byte string.
- `FatEntries`, `FatDirState`, `FatDir`, `FatName`: directories and short names.
- `FatMount`, `FatFormat`, `FatMkfs`, `FatSync`, `FatHints`: mounting,
  formatting, and writing the allocation hints back.
- `CoapOption`, `CoapText`, `CoapInt`, `CoapMessage`, `CoapPacket`: packets as
  values, and that reading undoes writing (sections 3, 3.1 and 3.2 of RFC 7252,
  section 2.2 of RFC 7959). `CoapSerialize`, `CoapParse`, `CoapExchange`: the
  same done in buffers. `CoapWire`, `CoapReceived`: the formats, and what any
  packet is taken to say, apart from the functions that write and read them.
  `CoapLinks`, `CoapBlocks`: the windowed list of
  resources and blockwise answers.
- `ContikiList`, `ContikiMemb`, `ContikiEvents`, `ContikiProcess`,
  `ContikiTimer`, `ContikiEtimer`, `CoapTransactions`, `CoapSending`: lists,
  pool, event ring, calls between processes, timers, retransmission.
- `HashedRing`: the records on the card.

## Reading the contracts

Disk calls may fail at any time. `disk.failed` records whether a checked call
has failed, `disk.lost` whether one whose answer the code ignores has; results
about content are stated for runs without a failed call, while what keeps the
objects usable holds always. Integer widths are written out where they matter:
table entries, 32-bit sector and size arithmetic, block options, the clock.
Threads of processes are unknown code, so the calls between them are a
transition system over which all runs are considered.

Six properties do not hold of the code without a condition; each is proved
with the condition under which it does, and an input for which it fails:

- the linear free count needs both reserved table entries to be non-zero
  (`FatFree.CountedExactly`, `FatFree.ScanTrap`);
- a text survives being cut and merged only if it neither begins with its
  separator nor ends in an odd number of them (`CoapText.TextBack`,
  `CoapText.SlashLost`);
- the list printer announces another window after one that the last attributes
  fill exactly (`CoapLinks.PrintLinks`, `CoapLinks.MoreThanNothing`);
- a thread can be entered twice after an exit of an active process or an
  initialization event for a process not started
  (`ContikiProcess.ProperExactly`, `ContikiProcess.PostedInitReenters`,
  `ContikiProcess.ExitedCallerReenters`);
- a volume just formatted can be mounted only if a cluster is left behind the
  erase block its data begin on, and used only if FAT32 can number its clusters
  (`FatFormat.FormatMounts`, `FatFormat.EraseBlockTrap`, `FatFormat.HugeTrap`);
- a record of the ring stays for a full round of writes, but where indices begin
  anew after 2^32 (`HashedRing.ReusedExactly`, `HashedRing.RoundCutShort`).

The comment at `HAL/src/FatFS/ff.c:3649` calls the test behind it a final check
of validity; it lets both volumes through. The card's driver reports
single-sector blocks, so that the first does not arise here.

## Model

| member | source | states |
|---|---|---|
| FatVolume.FatFs.MoveWindow | HAL/src/FatFS/ff.c:719-751 | every sector keeps its logical content (medium overlaid by a dirty window), whether the call succeeds or fails; on success the window is at the sector asked for, and after sector 0 nothing waits in it; a second table follows the first as long as no unchecked write to it is lost |
| FatVolume.FatFs.WriteBack | HAL/src/FatFS/ff.c:730-741 | writing a dirty window out, to both tables if it is a table sector, changes no logical content and leaves the second table a copy of the first |
| FatTable.PackedLaw | HAL/src/FatFS/ff.c:862-914 | after a store of any 32-bit value the table reads that value cut to the entry width at the cluster, and every other entry as before, for FAT12 (entries across two sectors included), FAT16 and FAT32; nothing outside the table moves |
| FatTable.ReservedKept | HAL/src/FatFS/ff.c:899-904 | after a store of any 32-bit value the four reserved bits of the FAT32 entry are its old ones ORed with the value's top bits, so that a 28-bit value leaves them alone; those of all other entries are unchanged |
| FatTable.EntryFormat | HAL/src/FatFS/ff.c:819-852 | the entry of a cluster in terms of the bytes of the table: two entries in three bytes, one in two, or 28 bits of four, the least significant byte first |
| FatVolume.FatFs.GetFat | HAL/src/FatFS/ff.c:819-852 | through the window: the entry of the cluster, 1 for a number that names none, 0xFFFFFFFF exactly on a disk error; no logical content changes |
| FatVolume.FatFs.PutFat | HAL/src/FatFS/ff.c:862-914 | through the window: on success the whole table is the old one with this entry set to the value cut to its width; a number that names no cluster changes nothing; a failed disk call leaves all other entries as they were, and off FAT12 this one too, the window being marked dirty all the same |
| FatChain.ChainDistinct | HAL/src/FatFS/ff.c:978-1027 | a chain that ends visits no cluster twice |
| FatAlloc.CreateChain | HAL/src/FatFS/ff.c:978-1027 | follows the chain if it goes on, else takes the first free cluster after the hint or after the end of the chain, going round, and links it; returns 0 when nothing is free, 1 on a broken entry, and changes the table in the new entry and its predecessor only; the cached free count falls by one exactly when a cluster is taken, which becomes the hint and raises the FSInfo flag |
| FatAlloc.FullExactly | HAL/src/FatFS/ff.c:1004-1009 | asked to start or extend a chain in a table without broken entries, create_chain returns 0 exactly when no entry is free |
| FatAlloc.SearchOrder | HAL/src/FatFS/ff.c:987-1010 | the cluster taken is the first free one behind the end of the chain or the cluster allocated last, and only if there is none up to the end of the volume, the first free one of all |
| FatAlloc.CreateKeepsChains | HAL/src/FatFS/ff.c:978-1027 | a table that is a set of disjoint chains and free entries stays one: a chain is begun, or the one whose tail was given grows by a cluster that was free |
| FatAlloc.CreateKeepsCount | HAL/src/FatFS/ff.c:1016-1021 | a cached free count that is right stays right over every create_chain |
| FatAlloc.RemoveChain | HAL/src/FatFS/ff.c:925-967 | frees what a walk over the table from the cluster visits, on any table at all, and terminates because each round frees an entry; FR_INT_ERR exactly on a cluster number out of range or an entry with the reserved value 1; the cached free count rises by what was freed, and the FSInfo flag with it |
| FatChain.RemovedIsFreed | HAL/src/FatFS/ff.c:925-967 | on any table, exactly the entries of that walk become free, each once |
| FatChain.WalkIsChain | HAL/src/FatFS/ff.c:925-967 | from the head of a chain the walk is that chain |
| FatChain.RemoveKeepsChains | HAL/src/FatFS/ff.c:925-967 | remove_chain on the head of a chain zeroes its entries and no others, and the rest stays a set of disjoint chains |
| FatAlloc.RemoveKeepsCount | HAL/src/FatFS/ff.c:946-951 | a cached free count that is right stays right over every remove_chain |
| FatLayout.ClustToSectIsBase | HAL/src/FatFS/ff.c:801-809 | clust2sect gives the first sector of a cluster, and 0 exactly for numbers that name none |
| FatLayout.SectsDistinct | HAL/src/FatFS/ff.c:801-809 | the sectors of the clusters of a chain are pairwise different |
| FatLayout.BaseIs | HAL/src/FatFS/ff.c:801-809 | the clusters lie one behind the other from the start of the data area on, beginning with number 2 |
| FatFile.File.Read | HAL/src/FatFS/ff.c:2373-2464 | reads exactly the bytes of the file from the cursor on, as many as asked for or as there are, whatever waits in the sector buffer or the window; content and everything else on the volume stay |
| FatFile.File.Write | HAL/src/FatFS/ff.c:2474-2584 | the file becomes the old one overwritten at the cursor, through buffer and direct transfers alike; it is cut short only by a full volume, and refused as a whole at 4 GiB; other files' sectors are untouched |
| FatFile.File.Seek | HAL/src/FatFS/ff.c:2874-2950 | the cursor ends at the position asked for, or where a full volume stopped it, with the cluster and sector a walk from the start of the file would give; the old bytes are kept and the file ends at the cursor if that lies past its end |
| FatFile.File.SeekFast | HAL/src/FatFS/ff.c:2846-2870 | with a link map of the file the cursor goes to the position, clipped at the end, content and chain unchanged |
| FatRun.Replay | HAL/src/FatFS/ff.c:2373-2953 | any run of reads, writes and seeks on an open file gives the replies the same run gives on a byte string with a position, and leaves that string and position, as long as no disk call fails |
| FatBytesSpec.ReadBack | HAL/src/FatFS/ff.c:2373-2584 | on the byte string: reading where one wrote gives what was written |
| FatBytesSpec.OverwriteFrame | HAL/src/FatFS/ff.c:2474-2584 | on the byte string: bytes before and after the written stretch stay |
| FatState.DirectRead | HAL/src/FatFS/ff.c:2419-2432 | a direct read of whole sectors, overlaid with a dirty buffer that is among them, delivers the file's bytes |
| FatState.DirectStep | HAL/src/FatFS/ff.c:2533-2552 | a direct write of whole sectors, refilling the buffer if it held one of them, writes the file's bytes |
| FatState.CopyStep | HAL/src/FatFS/ff.c:2567-2576 | a copy into the sector buffer writes the file's bytes and nothing else |
| FatLinkMap.CreateLinkMap | HAL/src/FatFS/ff.c:2821-2844 | the table built by walking the chain lists exactly its clusters; the size reported is two more than twice the number of runs, and the result says whether that fits; FR_INT_ERR exactly when the end mark happens to be the number after the last cluster |
| FatLinkMap.EndNotStray | HAL/src/FatFS/ff.c:2834-2838 | an end mark as the file system writes it never has that value |
| FatLinkMap.ClmtClust | HAL/src/FatFS/ff.c:1038-1055 | the cluster at the offset's place in the list the map stands for, 0 past its end |
| FatLinkMap.TwoWays | HAL/src/FatFS/ff.c:2821-2914 | on the same file, for every offset in its space, building the map and looking the cluster up gives the cluster that walking the chain over the table gives |
| FatFree.GetFree | HAL/src/FatFS/ff.c:3092-3130 | a plausible cached count is returned as it is; otherwise the count of the scan, or of the cluster by cluster walk on FAT12, is returned and cached |
| FatFree.ScanExactly | HAL/src/FatFS/ff.c:3107-3126 | the linear scan counts the free clusters exactly when neither reserved entry is zero |
| FatFree.ScanTrap | HAL/src/FatFS/ff.c:3107-3126 | a FAT16 table with a zero in entry 0 and one free cluster, of which the scan counts two |
| FatFree.CountedExactly | HAL/src/FatFS/ff.c:3096-3127 | the count f_getfree caches is the number of free clusters if and only if the volume is FAT12 or neither reserved entry is zero |
| FatDir.Dir.Sdi | HAL/src/FatFS/ff.c:1065-1103 | stands on entry idx if and only if the table, static or chained, has that many entries; the directory is unchanged |
| FatDirState.RootIs | HAL/src/FatFS/ff.c:1075-1083 | a directory that starts nowhere is the root: static, or on FAT32 the chain from the cluster the boot record names |
| FatDir.Dir.Next | HAL/src/FatFS/ff.c:1113-1171 | stands on the next entry, exactly if there is one below 65536, or after appending a cluster of unused entries when asked to; denied only on a full volume |
| FatDir.Dir.Stretch | HAL/src/FatFS/ff.c:1139-1163 | a stretched directory is the old one followed by zero entries, the new cluster having been cleared through the window |
| FatDir.WalkTo | HAL/src/FatFS/ff.c:1065-1171 | dir_sdi(0) and n rounds of dir_next reach entry n exactly if dir_sdi(n) does |
| FatDir.TwoPaths | HAL/src/FatFS/ff.c:1065-1171 | run on the same directory, the two succeed together, and then end in the same cluster and sector |
| FatDir.Dir.Find | HAL/src/FatFS/ff.c:1353-1404 | stops at the first entry of that name, or tells that there is none before the first unused entry; the directory is unchanged |
| FatEntries.FindDecides | HAL/src/FatFS/ff.c:1353-1404 | what it tells is membership, and a deleted entry never matches a name |
| FatEntries.MarksAre | HAL/src/FatFS/ff.c:1396-1402 | an entry is blank if it begins with 0 or 0xE5; a label, by bit 3 of its attributes, matches no name |
| FatEntries.NewMatches | HAL/src/FatFS/ff.c:1553-1564 | a fresh entry matches its own name and no other, and all its other bytes are zero |
| FatDir.Dir.Register | HAL/src/FatFS/ff.c:1540-1567 | the first deleted or unused entry, appended if need be, becomes a fresh entry of that name, and no other changes; refused only without room |
| FatDir.RegisterIsInsert | HAL/src/FatFS/ff.c:1540-1567 | which inserts exactly that name, keeps names unique and everything after the first unused entry unused, whether or not the table grew |
| FatDir.Dir.Remove | HAL/src/FatFS/ff.c:1600-1612 | only the first byte of the current entry changes, to the deletion mark |
| FatDir.RemoveIsDelete | HAL/src/FatFS/ff.c:1600-1612 | which deletes exactly that name and keeps the same invariants |
| FatName.CreateName | HAL/src/FatFS/ff.c:1753-1827 | succeeds exactly on segments with an 8.3 form, and then gives its 11 bytes, which never look like an unused or deleted entry, and where the next segment begins |
| FatName.GoodAre | HAL/src/FatFS/ff.c:1776-1802 | which characters a short name can have, and which end a segment |
| FatName.NameBytes | HAL/src/FatFS/ff.c:1776-1812 | each byte of a name is a character of body or extension, small letters made capitals, or a blank; none is a small letter |
| FatName.SameShortName | HAL/src/FatFS/ff.c:1753-1827 | two legal segments get the same name if and only if bodies and extensions have the same capitals, a final dot making no difference |
| FatName.SameName | HAL/src/FatFS/ff.c:1803-1810 | two legal segments of the same length get the same name if and only if at each place their characters are the same or the same letter |
| FatMount.Mount | HAL/src/FatFS/ff.c:2051-2145 | finds the layout the first sector, or the boot record of the first partition, stands for, and on FAT32 the free count and allocation hint of the FSInfo sector if that carries its signatures |
| FatMount.KindIs | HAL/src/FatFS/ff.c:1983-1998 | a boot record is known by its signature, and as one of FAT by that name at byte 54 or 82 |
| FatMount.BootSectorIs | HAL/src/FatFS/ff.c:2066-2079 | the volume begins with the first sector, if that is a boot record of FAT, or else where a first partition that has a type does |
| FatMount.HintsAre | HAL/src/FatFS/ff.c:2134-2148 | the hints of the FSInfo sector count exactly if it carries its three signatures |
| FatMount.LayoutIs | HAL/src/FatFS/ff.c:2083-2131 | for one table or two, where tables, root directory, data and FSInfo of an accepted volume are, how many clusters it has and of what width its entries are, in terms of its boot record |
| FatMount.MountedIsValid | HAL/src/FatFS/ff.c:2083-2131 | a layout accepted without 32-bit overflow has disjoint areas in order, a table with room for every entry, and lies within the volume |
| FatFormat.TableLarge | HAL/src/FatFS/ff.c:3617-3653 | the table f_mkfs sizes, in 32-bit arithmetic, from all sectors of the volume passes the size check of mounting for all three widths, for every number of clusters that FAT32 can number |
| FatFormat.TableLeast | HAL/src/FatFS/ff.c:3622-3632 | and it is the smallest with room for an entry for each of them and the two reserved ones |
| FatFormat.PlanIs | HAL/src/FatFS/ff.c:3616-3653 | where erase blocks do not matter, whether there is a plan and all its sizes, in exact arithmetic |
| FatFormat.UnitIsPower | HAL/src/FatFS/ff.c:3612-3614 | units that are powers of two are kept between one sector and 128, and cut to these outside |
| FatFormat.PadAligns | HAL/src/FatFS/ff.c:3638-3647 | the bit mask moves the data area to the next erase block where erase blocks are a power of two long, and by less than a block in any case |
| FatFormat.FormatMounts | HAL/src/FatFS/ff.c:3607-3659 | for every medium, mounting a boot record that carries f_mkfs's sizes gives a sound layout if and only if a cluster still fits behind the aligned data start and there are no more clusters than FAT32 can number; it then is the same sub-type, cluster size and areas |
| FatFormat.EraseBlockTrap | HAL/src/FatFS/ff.c:3638-3653 | a medium with erase blocks for which f_mkfs has a plan, and whose boot record mounting refuses |
| FatFormat.HugeTrap | HAL/src/FatFS/ff.c:3617-3653 | a medium for which f_mkfs has a plan, and whose boot record mounting accepts, with more clusters than a table entry can number |
| FatMkfs.Format | HAL/src/FatFS/ff.c:3571-3784 | on success the medium carries partition table, boot record, fresh tables, root directory and FSInfo of the plan for its size; a unit that is no power of two is refused; the automatic choice of the unit never gives more clusters than FAT32 can number |
| FatMkfs.AutoUnitIs | HAL/src/FatFS/ff.c:3562-3611 | the unit chosen automatically, and where the classes of volume sizes begin |
| FatMkfs.SystemIdIs | HAL/src/FatFS/ff.c:3655-3659 | the partition type for each sub-type and size |
| FatMkfs.MbrIs | HAL/src/FatFS/ff.c:3670-3686 | the partition table has one partition, not active, from sector 63 to the end of the medium, whose last cylinder is the volume's |
| FatMkfs.VbrParameters | HAL/src/FatFS/ff.c:3690-3727 | the parameters in the boot record, each at its place, in 16 or 32 bits |
| FatMkfs.VbrFields | HAL/src/FatFS/ff.c:3690-3727 | media byte, geometry, sectors in front of the volume, drive, serial number and place of the backup, as the boot record says them |
| FatMkfs.VbrCarries | HAL/src/FatFS/ff.c:3690-3727 | the boot record written is recognised as one and read back as the plan |
| FatMkfs.MkfsMounts | HAL/src/FatFS/ff.c:3556-3784 | mounting a formatted medium gives a sound layout, which then is the planned one, exactly if a cluster fits and FAT32 can number them all; none at all if no cluster fits |
| FatMkfs.MkfsCounts | HAL/src/FatFS/ff.c:3733-3781 | the fresh table is a set of chains, its reserved entries are ones but for the media byte, its number of free entries is the number of clusters less the root directory's on FAT32, and there FSInfo records just that number |
| FatSync.Sync | HAL/src/FatFS/ff.c:761-790 | nothing waits in the window, the table and every sector but FSInfo keep their logical content, and FSInfo holds the current free count and hint if they had changed |
| FatSync.SyncAndMount | HAL/src/FatFS/ff.c:761-790 | for every sub-type, mounting after sync finds the same layout; on FAT32 the free count and hint held if they had changed, else those recorded before |
| FatHints.Apply | HAL/src/FatFS/ff.c:925-1027 | create_chain, remove_chain and f_getfree keep the free count that of the table, and as long as the FSInfo flag is clear the FSInfo sector says the same count and hint |
| FatHints.RunAndMount | HAL/src/FatFS/ff.c:761-790 | after any run of these, a sync and another mount find the same layout and, on FAT32, a free count that is the number of free entries of the table, and the hint as it was |
| CoapOption.HeaderBack | HAL/src/Modsense/Libraries/Coap/er-coap-13.c:118-143 | delta and length below 269 + 65536 are read back from the bytes of an option header, which never begin with nibble 15 |
| CoapOption.OptionsBack | HAL/src/Modsense/Libraries/Coap/er-coap-13.c:464-509 | options in order, written one after the other with a payload marker or nothing behind them, are read back as they were |
| CoapWire.LeadFormat | HAL/src/Modsense/Libraries/Coap/er-coap-13.c:309-340 | the first bytes of a packet: version 1, type and token length, code, message id with its high byte first, and the token |
| CoapWire.HeaderFormat | HAL/src/Modsense/Libraries/Coap/er-coap-13.c:118-143 | option headers at the bounds of their three forms, byte by byte |
| CoapWire.IntFormat | HAL/src/Modsense/Libraries/Coap/er-coap-13.c:147-166 | numbers with their most significant byte first and no zeros in front, byte by byte |
| CoapWire.BlockFormat | HAL/src/Modsense/Libraries/Coap/er-coap-13.c:612-627 | number, more flag and size exponent of a block descriptor, in both directions |
| CoapText.TextBack | HAL/src/Modsense/Libraries/Coap/er-coap-13.c:170-234 | the parts a text is cut into at its separator merge to the text again if and only if it is empty, or does not begin with the separator and ends in an even number of them |
| CoapText.SlashLost | HAL/src/Modsense/Libraries/Coap/er-coap-13.c:170-234 | a path that ends in one separator comes back without it |
| CoapText.PlainSurvives | HAL/src/Modsense/Libraries/Coap/er-coap-13.c:170-234 | in particular every text that neither begins nor ends with the separator comes back |
| CoapInt.Log2 | HAL/src/Modsense/Libraries/Coap/er-coap-13.c:73-82 | the binary logarithm rounded down, 0 for 0 |
| CoapInt.IntBack | HAL/src/Modsense/Libraries/Coap/er-coap-13.c:86-166 | every 32-bit number is read back from its shortest big-endian form |
| CoapInt.BlockBack | HAL/src/Modsense/Libraries/Coap/er-coap-13.c:612-627 | a block descriptor is read back if and only if its number has 28 bits, its size is a power of two from 16 to 2048, and its offset is number times size modulo 2^32 |
| CoapInt.OffsetExact | HAL/src/Modsense/Libraries/Coap/er-coap-13.c:1038-1052 | for numbers of at most 20 bits the offset is number times size exactly |
| CoapMessage.OptionsRebuild | HAL/src/Modsense/Libraries/Coap/er-coap-13.c:345-366 | receiving the options a packet is sent with sets the same options and fields if and only if every set field can be carried |
| CoapPacket.PacketBack | HAL/src/Modsense/Libraries/Coap/er-coap-13.c:309-649 | reading a written packet gives back type, code, message id, token and payload - a packet with Proxy-Uri is refused, its payload unread - and all options and fields if and only if every text, block descriptor and list of accepted types that is set can be carried |
| CoapSerialize.SetOptionHeader | HAL/src/Modsense/Libraries/Coap/er-coap-13.c:118-143 | the buffer gets the header bytes at the position and keeps what is in front |
| CoapSerialize.SerializeInt | HAL/src/Modsense/Libraries/Coap/er-coap-13.c:147-166 | the buffer gets one option with the shortest form of the number |
| CoapSerialize.SerializeText | HAL/src/Modsense/Libraries/Coap/er-coap-13.c:170-210 | the buffer gets one option for every part of the text |
| CoapSerialize.SerializeMessage | HAL/src/Modsense/Libraries/Coap/er-coap-13.c:309-401 | the buffer gets the packet, and its length is returned; 0 exactly when what precedes the payload is longer than 70 bytes |
| CoapParse.ParseInt | HAL/src/Modsense/Libraries/Coap/er-coap-13.c:86-96 | the number the bytes stand for |
| CoapParse.Merged | HAL/src/Modsense/Libraries/Coap/er-coap-13.c:214-234 | the text ends up as the old one, the separator and the option value, the bytes in front of its end and everything behind the option being untouched |
| CoapParse.ParseMessage | HAL/src/Modsense/Libraries/Coap/er-coap-13.c:419-649 | although repeated options are merged in the buffer they are read from, the structure ends up saying what the packet said before any byte was overwritten, error results included |
| CoapReceived.KnownAre | HAL/src/Modsense/Libraries/Coap/er-coap-13.h:178-197 | the seventeen option numbers the parser knows |
| CoapReceived.ParsedStatus | HAL/src/Modsense/Libraries/Coap/er-coap-13.c:419-649 | 4.02 if and only if there is an unknown option of odd number and no Proxy-Uri in front of it; no error if and only if every option is known or even, and none is Proxy-Uri |
| CoapReceived.ParsedField | HAL/src/Modsense/Libraries/Coap/er-coap-13.c:464-649 | in a packet that is not refused, every field is what the values of its own options make it, whatever other options there are |
| CoapReceived.ElectiveIgnored | HAL/src/Modsense/Libraries/Coap/er-coap-13.c:632-640 | unknown options of even number leave every field as it is without them |
| CoapWire.PayloadTaken | HAL/src/Modsense/Libraries/Coap/er-coap-13.c:436-509 | 4.00 exactly for another version than 1; of the payload at most 1024 bytes are taken |
| CoapExchange.Exchange | HAL/src/Modsense/Libraries/Coap/er-coap-13.c:309-649 | a packet serialized into a buffer and parsed there arrives as it was sent, under the same conditions |
| CoapLinks.PrintLinks | HAL/src/Modsense/Libraries/Coap/er-coap-13-engine.c:373-496 | the buffer holds exactly the window of the full link-format text; the next offset is -1 exactly when nothing is left, except when the last attributes exactly fill the window |
| CoapWire.LinkFormat | HAL/src/Modsense/Libraries/Coap/er-coap-13-engine.c:373-471 | the full text: each resource between angle brackets behind a slash, with its attributes behind a semicolon if it has any, and commas between |
| CoapLinks.MoreThanNothing | HAL/src/Modsense/Libraries/Coap/er-coap-13-engine.c:454-471 | such a list, where with blocks of 16 bytes nothing is left and another window is announced |
| CoapBlocks.ListResources | HAL/src/Modsense/Libraries/Coap/er-coap-13-engine.c:475-497 | the response gets the window, or 4.02 past the end of a list that is not empty |
| CoapBlocks.ApplyBlocks | HAL/src/Modsense/Libraries/Coap/er-coap-13-engine.c:152-195 | block descriptor and payload of the response, for resources aware and unaware of blocks, and the refusals |
| CoapBlocks.PlainAnswer | HAL/src/Modsense/Libraries/Coap/er-coap-13-engine.c:189-195 | a resource unaware of blocks answers a request without one as it is |
| CoapBlocks.RefusedExactly | HAL/src/Modsense/Libraries/Coap/er-coap-13-engine.c:155-161 | no answer is made exactly for a Block1 request that the resource grants without answering its Block1 |
| CoapBlocks.PastTheEnd | HAL/src/Modsense/Libraries/Coap/er-coap-13-engine.c:165-174 | a block past the end of what an unaware resource answers is refused with 4.02 |
| CoapWire.OutOfScope | HAL/src/Modsense/Libraries/Coap/er-coap-13-engine.c:173-173 | with BlockOutOfScope as its text |
| CoapBlocks.Block2Set | HAL/src/Modsense/Libraries/Coap/er-coap-13.c:1038-1052 | Block2 is set for sizes from 16 to 2048 and numbers of at most 20 bits, else left as it is |
| CoapBlocks.FirstAnswered | HAL/src/Modsense/Libraries/Coap/er-coap-13-engine.c:189-195 | without Block2 in the request, the list is answered with its first 1024 bytes as block 0 of that size, and the more flag exactly when the list goes on |
| CoapBlocks.PlainFetch | HAL/src/Modsense/Libraries/Coap/er-coap-13-engine.c:152-195 | that answer and the blocks after it, as long as more are announced, are the whole list |
| CoapBlocks.ListPastEnd | HAL/src/Modsense/Libraries/Coap/er-coap-13-engine.c:475-497 | a block past the end of the list is refused with 4.02, unless there is no list |
| CoapBlocks.ListFormat | HAL/src/Modsense/Libraries/Coap/er-coap-13-engine.c:475-480 | the list is said to be in link format, number 40 |
| CoapBlocks.Answered | HAL/src/Modsense/Libraries/Coap/er-coap-13-engine.c:159-175 | from an unaware resource, an answer is the block asked for, with the more flag clear exactly on the last |
| CoapBlocks.BlocksAssemble | HAL/src/Modsense/Libraries/Coap/er-coap-13-engine.c:138-187 | for every block size, the answers to successive requests put together are the payload |
| CoapBlocks.ListAssembles | HAL/src/Modsense/Libraries/Coap/er-coap-13-engine.c:323-498 | for block sizes up to 1024, the list of resources fetched block by block is complete, whatever lies behind the window in the buffer |
| CoapBlocks.ListCompleteExactly | HAL/src/Modsense/Libraries/Coap/er-coap-13-engine.c:138-187 | a client that keeps to its block size gets the whole list if and only if that size is at most 1024 or the list is |
| ContikiList.List.Remove | HAL/src/Modsense/Libraries/Libs/list.c:239-262 | the list without the element, whose link is cleared if it was on it; lists stay free of cycles and repetitions |
| ContikiList.List.Add | HAL/src/Modsense/Libraries/Libs/list.c:142-158 | the list without the element, followed by it |
| ContikiList.List.Push | HAL/src/Modsense/Libraries/Libs/list.c:164-173 | the element, followed by the list without it |
| ContikiList.List.Chop | HAL/src/Modsense/Libraries/Libs/list.c:185-204 | the last element, and the list without it |
| ContikiList.List.Pop | HAL/src/Modsense/Libraries/Libs/list.c:217-226 | the first element, and the list without it |
| ContikiList.List.Tail | HAL/src/Modsense/Libraries/Libs/list.c:117-128 | the last element |
| ContikiList.List.Length | HAL/src/Modsense/Libraries/Libs/list.c:274-284 | the number of elements |
| ContikiList.List.Insert | HAL/src/Modsense/Libraries/Libs/list.c:302-311 | the new element stands right after the given one |
| ContikiMemb.Memb.Alloc | HAL/src/Modsense/Libraries/Libs/memb.c:59-76 | the first free block, and no other count changes; nothing exactly if none is free |
| ContikiMemb.Memb.Free | HAL/src/Modsense/Libraries/Libs/memb.c:79-101 | the count of that block falls unless it is zero; -1 exactly for what is no block |
| ContikiEvents.EventQueue.Post | HAL/src/Modsense/Libraries/Process/process.c:324-361 | refused exactly when 32 events wait; otherwise the event is put behind those that wait |
| ContikiEvents.EventQueue.Take | HAL/src/Modsense/Libraries/Process/process.c:266-273 | the event that has waited longest is taken out; over any run what was accepted is what was taken followed by what waits |
| ContikiProcess.InitialValid | HAL/src/Modsense/Libraries/Process/process.c:209-220 | the kernel as set up satisfies the invariant: nothing listed, nothing active, nothing posted |
| ContikiProcess.StepKeeps | HAL/src/Modsense/Libraries/Process/process.c:101-240 | calls, returns, exits, starts and polls keep: no process is active twice, active ones are never in state RUNNING, all others are RUNNING exactly when on the list |
| ContikiProcess.RunsAreSafe | HAL/src/Modsense/Libraries/Process/process.c:101-301 | in every run of proper steps no thread is entered while it is under way, and calls nest no deeper than there are processes |
| ContikiProcess.ListedAfter | HAL/src/Modsense/Libraries/Process/process.c:101-174 | a process is on the list after a step exactly if it was or is started, and is not the one whose exit ends |
| ContikiProcess.ExitLeads | HAL/src/Modsense/Libraries/Process/process.c:126-174 | exiting a process marks it as not running, tells all others, then lets its thread leave and takes it off the list, and returns to the caller |
| ContikiProcess.CallEnters | HAL/src/Modsense/Libraries/Process/process.c:177-201 | a call enters the thread exactly if the process is on the list and not active, and else does nothing |
| ContikiProcess.StartEnters | HAL/src/Modsense/Libraries/Process/process.c:101-123 | a start enters the thread exactly if the process is not on the list, which it then heads |
| ContikiProcess.PollAsks | HAL/src/Modsense/Libraries/Process/process.c:373-382 | asking for a poll marks a process on the list that is not exiting, and none that is not on it |
| ContikiProcess.PollWaits | HAL/src/Modsense/Libraries/Process/process.c:227-240 | no other step but serving it forgets a poll, and none but asking for it makes one |
| ContikiProcess.PollServed | HAL/src/Modsense/Libraries/Process/process.c:227-240 | with no call under way, a poll that waits can be served, which enters the thread and settles it |
| ContikiProcess.NoneUnasked | HAL/src/Modsense/Libraries/Process/process.c:210-240 | in every run from the start, only those are polled for whom somebody asked |
| ContikiProcess.ProperExactly | HAL/src/Modsense/Libraries/Process/process.c:126-301 | a step is proper - it exits no active process, and delivers no initialization event to a process that was not started - if and only if no run of proper steps after it enters a thread that is under way |
| ContikiProcess.PostedInitReenters | HAL/src/Modsense/Libraries/Process/process.c:291-297 | an initialization event posted to a process not started, and the re-entry it leads to |
| ContikiProcess.ExitedCallerReenters | HAL/src/Modsense/Libraries/Process/process.c:135-158 | a process exiting its caller, and the re-entry it leads to |
| ContikiTimer.ExpiredExactly | HAL/src/Modsense/Libraries/Libs/timer.c:134-167 | looked at within one round of the wrapping clock, a timer has expired exactly when its interval has passed, except at the last tick of the round; until then timer_remaining is what is left |
| ContikiTimer.ResetsDoNotDrift | HAL/src/Modsense/Libraries/Libs/timer.c:92-95 | reset k times, a timer runs from its start plus k intervals |
| ContikiEtimer.Timers.UpdateTime | HAL/src/Modsense/Libraries/Libs/etimer.c:59-83 | the next expiration is now plus the least modular distance, 0 without timers |
| ContikiEtimer.Timers.AddTimer | HAL/src/Modsense/Libraries/Libs/etimer.c:156-179 | the timer is on the list once, in its old place or in front, and belongs to the current process |
| ContikiEtimer.Timers.Set | HAL/src/Modsense/Libraries/Libs/etimer.c:182-186 | the same, with the interval running from now |
| ContikiEtimer.Timers.Reset | HAL/src/Modsense/Libraries/Libs/etimer.c:189-193 | the same, with the interval running from when it last expired |
| ContikiEtimer.Timers.Restart | HAL/src/Modsense/Libraries/Libs/etimer.c:196-200 | the same, with the interval running anew |
| ContikiEtimer.Timers.Stop | HAL/src/Modsense/Libraries/Libs/etimer.c:240-267 | the timer is off the list and marked as expired; the others stay in order |
| ContikiEtimer.Timers.Exited | HAL/src/Modsense/Libraries/Libs/etimer.c:96-112 | exactly the timers of that process are gone, the others stay in order |
| ContikiEtimer.Timers.HandlePoll | HAL/src/Modsense/Libraries/Libs/etimer.c:117-142 | the clock standing still, the first expired timers of the list are taken out and one event posted for each, in order, to the process it belonged to; an expired timer stays only if the queue is full, and then another poll is requested; the next expiration is set anew if a timer has gone |
| CoapTransactions.Transactions.NewTransaction | HAL/src/Modsense/Libraries/Coap/er-coap-13-transactions.c:79-96 | takes a block and puts it at the end of the list; nothing exactly if all blocks are on the list |
| CoapTransactions.Transactions.SendTransaction | HAL/src/Modsense/Libraries/Coap/er-coap-13-transactions.c:99-155 | sent now; a confirmable message is sent at most five times, the waits between being at least the first interval of 200 to 300 ticks doubled each time, and closed with the fifth; others are closed at once |
| CoapSending.ConfirmableExactly | HAL/src/Modsense/Libraries/Coap/er-coap-13-transactions.c:105-105 | of the packet written for any message, the type that is looked at is 0 exactly if the message is confirmable |
| CoapSending.SendAgain | HAL/src/Modsense/Libraries/Coap/er-coap-13-transactions.c:99-155 | sent once more, a message stays on the list, with its timer running, exactly if it is confirmable and has not been sent more than four times; else it is closed |
| CoapSending.SendMessage | HAL/src/Modsense/Libraries/Coap/er-coap-13-transactions.c:79-155 | a confirmable message written into a new transaction and sent is listed with its timer running; any other is sent once and forgotten |
| CoapTransactions.Transactions.ClearTransaction | HAL/src/Modsense/Libraries/Coap/er-coap-13-transactions.c:158-168 | off the list, its block free and its timer stopped; a block is in use exactly when it is on the list |
| CoapTransactions.Transactions.CheckTransactions | HAL/src/Modsense/Libraries/Coap/er-coap-13-transactions.c:187-200 | transactions whose timer has expired are sent once more, in order, up to the first that is closed by it |
| CoapTransactions.Transactions.GetTransactionByMid | HAL/src/Modsense/Libraries/Coap/er-coap-13-transactions.c:171-184 | a transaction of that message id, nothing exactly if there is none |
| CoapTransactions.Transactions.Run | HAL/src/Modsense/Libraries/Coap/er-coap-13-transactions.c:79-200 | over any run of requests, timers firing, answers and checks at any times, as long as no expired timer waits longer than d ticks for a check, every message on the list or closed by a check has been sent for the last time at most 4500 + 4d ticks after the first |
| HashedRing.SlotInside | HAL/src/Modsense/Libraries/Libs/cyclic_buffer_sd_mmc.c:235-240 | every record lies between sectors 130 and 3850240 |
| HashedRing.SlotsAre | HAL/src/Modsense/Libraries/Libs/cyclic_buffer_sd_mmc.c:235-235 | where the first, second and last slot begin, and that the first follows the last |
| HashedRing.SlotsApart | HAL/src/Modsense/Libraries/Libs/cyclic_buffer_sd_mmc.c:235-240 | two records share a sector exactly when their indices are congruent modulo 1925055 |
| HashedRing.Card.WriteHashed | HAL/src/Modsense/Libraries/Libs/cyclic_buffer_sd_mmc.c:231-257 | succeeds exactly when the driver does, and every record written last in its slot stays on the card |
| HashedRing.Card.ReadHashed | HAL/src/Modsense/Libraries/Libs/cyclic_buffer_sd_mmc.c:259-283 | what is read is what was last written to the slot, if that write succeeded |
| HashedRing.ReusedExactly | HAL/src/Modsense/Libraries/Libs/cyclic_buffer_sd_mmc.c:231-257 | of consecutive indices, which begin anew at 0 after 2^32 - 1, the slot of one is used again if and only if its life is over |
| HashedRing.LifeIs | HAL/src/Modsense/Libraries/Libs/cyclic_buffer_sd_mmc.c:235-235 | that life is 1925055 writes, but 169591 for the indices of the incomplete last round before 2^32, and 2094646 for those of the round before that have no successor in it |
| HashedRing.Retained | HAL/src/Modsense/Libraries/Libs/cyclic_buffer_sd_mmc.c:231-283 | as long as it lives, a record written with success is kept, whatever was written before |
| HashedRing.MadeWay | HAL/src/Modsense/Libraries/Libs/cyclic_buffer_sd_mmc.c:231-283 | and then it has made way for the record written at that time |
| HashedRing.RoundCutShort | HAL/src/Modsense/Libraries/Libs/cyclic_buffer_sd_mmc.c:235-235 | two indices 169591 writes apart that share a slot |

## Left out

- A failed read that has already overwritten part of the buffer: here a failed disk call transfers nothing, and that the window shows its old sector after a failed `move_window` rests on it; the code keeps `winsect` and `dsect` at the old sector whatever the buffer then holds.
- The disk adapter and the SD and SPI drivers (`HAL/src/FatFS/diskio.c`); the disk is an array of 512-byte sectors with reads and writes of several sectors.
- Long file names, double-byte code pages, `_FS_TINY`, `_FS_SHARE`, re-entrancy, volumes other than the first partition, `f_fdisk`: configured off.
- Walking paths and opening files (`follow_path`, `f_open`, `f_mkdir`, `f_rename`, `f_unlink`): a file starts from its first cluster and size, a directory from its first cluster.
- The directory entry part of `f_sync`, which writes size and first cluster back, and `f_close`.
- `f_truncate`, which neither flushes nor drops a dirty sector buffer that belongs to a removed cluster.
- The case and attribute bits of directory entries (NT flags, time stamps), and characters above 127 in names.
- FatMkfs.Format: the write-protect, initialisation and multi-partition branches of `f_mkfs` come before or instead of what is modelled.
- FatFile.File.Seek: says nothing about the bytes a seek past the end adds, which the code leaves as they are on the medium.
- FatVolume.FatFs.PutFat: after a failed disk call does not say what a half-stored FAT12 entry reads as.
- The code's `unsigned int` has 16 bits on the node's processor: option headers are modelled for all lengths and deltas below 269 + 65536, and content types for 32 bits, as on a wider machine; what the node itself sends and its parser's bitmap hold stays below.
- ContikiList.List.Insert: a new element that is already on the list, which the code links in a second time without taking it out first.
- CoapParse.ParseMessage: incomplete packets, for which the code has no length checks, and option numbers above 39, which lie outside its bitmap.
- The options bitmap is a set of numbers; bit 19, which only the token setter sets, has no counterpart.
- Query filters of the list printer, path and query lookup, observers and separate responses, and the client side of the engine.
- Offsets of the list printer and of blocks as 32-bit integers: texts and offsets are taken to be smaller.
- The callback of a transaction, the observers removed on its timeout, and the event by which its timer tells the process; that a timer expires only when its interval has passed is a precondition of `CoapTransactions.Transactions.TimerExpires`, as `ContikiEtimer.Timers.HandlePoll` guarantees it.
- CoapTransactions.Transactions.CheckTransactions: only for lists on which every transaction has been sent, as all callers send what they create; one pass may end early, because removing an element clears the link the loop goes on by.
- Removal of all observers of a client, which ends early for the same reason.
- `etimer_adjust`, and the static variables of `do_event`'s broadcast loop: a broadcast is a sequence of calls.
- Thread bodies, and handlers that call `process_run`.
- The cyclic buffer that is not hashed, whose pointers pass the end of its area, the hardware layer, interrupts, GPS and socat framing, RTC conversion, and the uIP side: plumbing, or parts that would add only easy members.
