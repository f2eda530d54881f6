# A verified model of a FAT32 image tool

The modelled system opens a raw FAT32 disk image and works on it in three parts:

- **The volume engine `Reader`** (reader.py). It reads the geometry from the boot sector and walks cluster chains through the FAT. It lists a directory from its 32-byte records, and creates files and directories: a short DOS record plus long-name (LFN) records. It removes them by zeroing their FAT chain and marking their records 0xE5. It also checks the whole tree for crossed, lost and wrongly sized chains.
- **The repair engine `Fixer`** (fix.py). It cuts self-crossing chains and rewrites wrong sizes. It rebuilds a directory's "." and ".." records and copies crossed chains. It gathers lost clusters into files under LOSTFOUND and reports what it fixed.
- **The hex-dump formatter `HexDump`** (hexdump.py).

The image is a byte sequence, or an `array<byte>` inside the classes, and every offset is the one the Python code uses:

- FAT entry n lies at `start_fat + 4n`;
- cluster n lies at `root_dir + (n-2)*len_clus`;
- the root directory is cluster 2.

- common.dfy (`Common`): bytes, 16-bit name units, the error and result types, Python-style slicing (`Take`, `Drop`, `Splice`)
- codec.dfy (`Codec`): `get_bytes`/`read_num`, FAT date and time packing, the short record (`make_dos_record`, `get_info`), the short-name checksum, the LFN records (`make_lfn_records`, `parse_record`), UTF-16 on code units
- fat.dfy (`Fat`): the boot-sector geometry, FAT entries, chain walks (`get_clusters`), cluster reads and writes, `write_data`, `add_cluster`, `rm`'s zeroing loop
- dir.dfy (`Directory`): the listing parser of `cd`, `check_double`, `add_entry`, `clear_dir`, `del_dir_record`, the records of `make_new_records`
- volume.dfy (`Volume`): whole operations as functions of an image: `md`, `cf`, `rm` (recursive), `fschk`/`check_crosses`
- reader.dfy (`Engine`): class `Reader`: the image array, the geometry, `current`, `files` and the shared default error list of `check_crosses`
- fix.dfy (`Repair`): class `ErrorsFixed` and class `Fixer` over a `Reader`, with the log `errors` and the parent start `ps`
- hexdump.dfy (`HexDump`): class `HexDump`: `build`, `get_line`, `get_begin`, `get_end`

Most state-changing methods are proved equal to a function of the old state, such as `MdOn`, `RmOn`, `FixSizeOn` or `CopyLoopOn`. The lemmas beside those functions then state what the operation promises. The recursive repair methods state only part of their effect; "## Left out" lists them: `Descend`, `FixChecked`, `FixEntry`, `FixCrosses`, `FixAll` and `Run`, and also `PrepareToCopy` and `CopyCrossed`. Examples:

- the new entry is listed;
- the removed records are no longer listed;
- only the freed FAT entries change;
- a reread chain has no crossing;
- every byte of the block is shown in its line.

Errors are values. A Python exception becomes `Fail(e)` or `Failed(e)`, with `e` naming the exception (`IndexError`, `NameError`, `FreeSpace`, `PermissionDenied`, …).

The Python code's traps are modelled as written:

- `make_new_records` uses the unbound `last` once one `add_entry` does not place every record (reader.py:310). This is `Fail(NameError)`.
- `add_entry` fills only 0x00 slots, possibly scattered.
- `fschk` drops a crossing found on the root chain (reader.py:196-197).
- `check_crosses`'s default `errors=[]` is one list that keeps what earlier calls appended, kept as the field `defaultErrors` of each Reader (after a failed call, see "## Left out").
- `path.join(dir_, "/")` is "/": a subdirectory named "/" is checked as the root, with no "."/".." check and its "." and ".." walked (`Volume.JoinPath`).
- An all-space short name raises IndexError.
- `prepare_to_copy`'s call of the missing `self.write` (fix.py:97) is `Fail(AttributeError)`.
- The reuse branch of `copy_crossed` keeps a cluster without relinking the previous one (fix.py:83-84).
- The forward loop of `get_files` (fix.py:145-147) never runs, because the popped cluster is no longer in the list.
- `create_LOSTFOUND` always makes a new LOSTFOUND.
- `fix_dir_struct`'s loop skips the record after each removed one, and counts the empty trailing slices as removable (`StripSkips`).
- `fix_crosses`' `while not_fixed` runs once.

## Model

| member | source | states |
|---|---|---|
| Common.Take | reader.py:428 | Python's s[:n] keeps the first min(n, len) elements |
| Common.Drop | reader.py:429 | Python's s[n:] keeps what follows the first min(n, len) elements |
| Common.Slice | fix.py:183 | Python's s[a:b] has length min(b, len) − a, or 0 when that is not positive |
| Common.Splice | fix.py:175 | overwriting at an offset keeps the length, puts the new bytes in their range and leaves every other byte |
| Codec.GetBytes | reader.py:123-128 | get_bytes always yields exactly four bytes |
| Codec.ComputeBytes | reader.py:123-128 | the loop of get_bytes (four rounds of `% 256`, `//= 256`) yields GetBytes, least significant byte first |
| Codec.ReadGetBytes | reader.py:123-128 | read_num of get_bytes(x) gives back x for every x below 2^32 |
| Codec.ComputeNum | reader.py:439-444 | read_num(n) fails with IndexError when fewer than n bytes are there, and is otherwise the little-endian value of the first n bytes |
| Codec.GetBytesReadNum | reader.py:439-444 | get_bytes of read_num(s) gives back any four bytes s |
| Codec.ReadNum4Bound | reader.py:439-444 | four bytes read as a number stay below 2^32 |
| Codec.DecimalRoundTrip | reader.py:352 | the digits str(n) gives read back as n |
| Codec.DecimalInjective | reader.py:352 | different listing sizes give different short names |
| Codec.PackTime | reader.py:133-136 | the packed time fits in 16 bits |
| Codec.PackDate | reader.py:137-139 | the packed date fits in 16 bits |
| Codec.GetDateTime | reader.py:131-140 | date and time are two bytes each |
| Codec.DateTimeWords | reader.py:133-140 | the time word is hour·2048 + minute·32 + second//2, the date word is (year−1980)·512 + month·32 + day, and the hundredths byte is microsecond//10000 |
| Codec.UnpackTimeWord | reader.py:375-381 | get_info's bit slicing returns hour, minute and 2·(second field) for any in-range fields, whatever the date half holds |
| Codec.UnpackDateWord | reader.py:375-382 | get_info's bit slicing returns day, month and year field + 1980 for any in-range fields |
| Codec.UnpackPacked | reader.py:375-382 | unpacking the packed clock gives the clock's hour, minute, even second, day, month and year |
| Codec.PackedClock | reader.py:375-382 | get_info reads back from get_date_time's time and date bytes exactly the written time and date |
| Codec.DosLayout | reader.py:354-361 | the record's bytes 0-7 are the name, 8-10 the extension, 11 the attribute, 12 zero, 13 the hundredths, 0x14-0x15 the high start half, 0x16-0x19 time then date, 0x1a-0x1b the low start half, 0x1c-0x1f the size |
| Codec.DosName | reader.py:352-353 | the short name part is 1 to 8 bytes and does not start with a space |
| Codec.KindOfAttr | reader.py:370-371 | the attribute make_dos_record writes (0x10 or 0x20) is read back as the same type |
| Codec.MakeDosRecord | reader.py:349-362 | make_dos_record yields one 32-byte record |
| Codec.Latin1 | reader.py:383 | latin-1 decoding keeps every byte as the code unit of the same value |
| Codec.StripSpaces | reader.py:385-386 | the strip succeeds exactly when the name is not all spaces (else IndexError); the result is a prefix ending in a non-space and only spaces were cut |
| Codec.StripPadded | reader.py:385-386 | stripping a name padded with spaces gives back the name |
| Codec.GetInfo | reader.py:364-391 | get_info succeeds exactly on a record of at least 32 bytes whose name field is not blank |
| Codec.InfoOfLayout | reader.py:364-391 | get_info of a laid-out record returns the start (low half + 65536·high half), the size, the type of the attribute bit, the unpacked time and date, and the stripped name |
| Codec.DosRecordName | reader.py:349-353 | the name read back from make_dos_record is "." or ".." for those, and otherwise str(len(files)) |
| Codec.ShortNameFits | reader.py:352-355 | below 10^8 listed files the short name is the decimal count with no extension, ending in a non-space |
| Codec.DosRecordInfo | reader.py:349-382 | get_info of make_dos_record returns the same start cluster, size and type and the clock's written time and date |
| Codec.DosRecordFields | reader.py:349-382 | get_info of make_dos_record reads back the stored start and size and the type of the written attribute, for any values |
| Codec.Checksum | reader.py:303-305 | the loop seeded with byte 0 and stepped over bytes 1..10 equals the standard rolling checksum (s&1)<<7 + s>>1 + b mod 256 seeded with 0 over all eleven name bytes |
| Codec.SumFromSnoc | reader.py:304-305 | one more byte steps the checksum once more |
| Codec.StepInjective | reader.py:305 | for a fixed byte, one checksum step is injective in the running sum |
| Codec.SumFromSeeds | reader.py:303-305 | two seeds that give the same checksum over the same bytes are equal |
| Codec.ChecksumSeesOneByte | reader.py:303-305 | changing any single one of the eleven name bytes changes the checksum |
| Codec.LfnRecordParts | reader.py:150-160 | an LFN record is 32 bytes: the sequence byte, 0x0F at 11, 0 at 12, the checksum at 13, 0 at 26-27, and the 26 name bytes at 1-10, 14-25 and 28-31 |
| Codec.BuildLfnRecords | reader.py:143-165 | the padding and the `while fn` loop compute MakeLfnRecords |
| Codec.LfnFromShape | reader.py:149-164 | n full chunks give 32·n bytes of records in descending sequence order, the first carrying 0x40 |
| Codec.LfnRoundTrip | reader.py:143-165 | for an even-length name with no aligned 0x0000 unit: 32·ceil(len/26) bytes, descending sequence numbers with 0x40 only on the first, the LFN markers in every record, and parse_record prepended over the records in order (as cd does) gives back the name |
| Codec.LfnTooLong | reader.py:151 | a name of more than 191 chunks makes bytes([k]) raise ValueError |
| Codec.LfnFromFails | reader.py:151-163 | once a sequence byte would pass 255 the records fail with ValueError |
| Codec.PadNameFacts | reader.py:145-147 | the padded name is a whole number of 26-byte chunks, starts with the name, and carries the 0x0000 terminator when it is not full |
| Codec.CutAtZero | reader.py:451-454 | parse_record's cut is a prefix of the name bytes |
| Codec.ParseRecordLoop | reader.py:449-454 | the loop of parse_record returns ParseRecord |
| Codec.CutAtTerminator | reader.py:451-453 | the cut stops before the first aligned 0x0000 unit |
| Codec.CutNoZero | reader.py:454 | without an aligned 0x0000 unit the whole 26 bytes are kept |
| Codec.GatherAppend | reader.py:268-271 | reading one more record puts its name part in front of what was read |
| Codec.ParseLfnRecord | reader.py:450-454 | parse_record of a built record returns that record's chunk up to its terminator |
| Codec.LittleEndian | reader.py:306 | each code unit becomes its low byte then its high byte |
| Codec.Encode16 | reader.py:306 | encoding succeeds exactly when there is no unpaired surrogate (else EncodeError), and its bytes are the little-endian units without the BOM |
| Codec.Decode16 | reader.py:272 | odd byte counts fail with DecodeError, and a decoded name has no unpaired surrogate |
| Codec.UnitsOfLittleEndian | reader.py:272 | reading little-endian bytes as units gives back the units |
| Codec.NameRoundTrip | reader.py:272 | decoding what make_new_records encoded gives back the name, unless it starts with a byte-order mark |
| Codec.MarkLost | reader.py:272 | a name starting with U+FEFF comes back without it, since decode takes it as a byte-order mark |
| Fat.ReadGeometry | reader.py:175-188 | the geometry is read exactly when the boot sector has the fields and bytes per sector, sectors per cluster, reserved sectors, number of FATs and sectors per FAT are non-zero (else BrokenLayout, or IndexError on a short sector); start_fat, len_fat, root_dir and len_clus are the products and sums __init__ computes |
| Fat.FieldWord | reader.py:176 | a 2-byte field is read little-endian and stays below 2^16 |
| Fat.GeometryValid | reader.py:185-188 | non-zero fields give a geometry whose FAT lies before the data area |
| Fat.FatEntry | reader.py:328-329 | reading entry n succeeds exactly when it lies inside the FAT and the image; the value is below 2^32; a miss is IndexError inside the FAT and OutsideFat past it |
| Fat.DwordIsReadNum | reader.py:439-444 | the entry's value is read_num(4) of its four bytes |
| Fat.SetFatEntry | reader.py:342-343 | writing entry n succeeds exactly when it lies in the FAT and the image; entry n then reads v, every other entry and every byte outside n's four bytes are unchanged, and the length is kept |
| Fat.SpliceOtherEntries | reader.py:294-295 | four bytes written over entry n leave every other entry as it was |
| Fat.ClusterAt | reader.py:396 | every cluster's data lies at or after root_dir |
| Fat.ClustersApart | reader.py:396 | different data clusters do not overlap |
| Fat.ClusterBytes | reader.py:396-397 | a cluster read returns at most len_clus bytes, exactly the cluster's bytes when it lies inside the image |
| Fat.WriteCluster | reader.py:420-424 | upwrite_data_by_cluster succeeds exactly for data of at most len_clus bytes on a data cluster, when the data is empty or fits inside the image; empty data changes nothing, and otherwise the bytes are written at the cluster and nothing else changes |
| Fat.WriteClusterFat | reader.py:423-424 | a cluster write changes no FAT entry |
| Fat.WalkFacts | reader.py:326-332 | the walk follows the FAT link by link from n without repeating a cluster |
| Fat.GetClusters | reader.py:322-333 | the chain starts at n, lists distinct clusters in [2, 0x0FFFFFF8) each linked to the next, and stops at the first repeat (the crossing) or at the first link outside the data range |
| Fat.ChainLinked | reader.py:322-333 | a chain starts at its first cluster, every cluster links to the next, a crossing points back into the chain, and otherwise the last link is not a data cluster |
| Fat.ChainInData | reader.py:326 | every chain cluster lies in [2, 0x0FFFFFF8) |
| Fat.ReadClustersLength | reader.py:393-397 | reading k clusters inside the image gives k·len_clus bytes |
| Fat.ReadClustersSnoc | reader.py:395-397 | one more cluster appends that cluster's bytes |
| Fat.GetData | reader.py:446-447 | get_data succeeds exactly when the chain walk does, and has one cluster's worth of bytes per chain cluster |
| Fat.ZeroFrom | reader.py:289-295 | the zeroing loop keeps the image length |
| Fat.ZeroOnly | reader.py:289-295 | every FAT entry is either unchanged or zero afterwards |
| Fat.ZeroFrame | reader.py:294-295 | no byte outside the FAT changes |
| Fat.ZeroFromStart | reader.py:290-295 | the first entry of the chain becomes 0 |
| Fat.ZeroChain | reader.py:289-295 | every cluster of the start's chain has FAT entry 0 afterwards, so the loop ends even on a cycle |
| Fat.TakenShrinks | reader.py:290-295 | zeroing a taken entry shrinks the set of taken entries (the loop's measure) |
| Fat.WriteData | reader.py:426-431 | write_data keeps the image length |
| Fat.WriteFrom | reader.py:427-431 | each state of the write_data loop keeps the image length |
| Fat.WriteFromFat | reader.py:426-431 | write_data changes no FAT entry |
| Fat.WriteChunks | reader.py:428-429 | writing chunks over a chain keeps the image length |
| Fat.WriteChunksOutside | reader.py:428 | no byte outside the chain's clusters changes |
| Fat.WriteDataChain | reader.py:426-431 | on a chain inside the image, write_data does nothing for a start ≥ 0x0FFFFFF8; it fails on a start below 2 or a link to 0 or 1 (BelowData) and on a cyclic chain (Diverges); on a chain ending in an end mark it writes len_clus-byte chunks over the chain's clusters |
| Fat.ReadAfterChunks | reader.py:427-429 | reading back the written clusters gives the data cut to the chain, followed by the old bytes past the data |
| Fat.WriteThenRead | reader.py:426-431 | on a proper chain write_data succeeds, leaves the chain alone, and get_data returns the data cut to the chain, padded with the old bytes |
| Fat.FirstFree | reader.py:337-338 | the scan returns an index whose entry is 0 |
| Fat.FirstFreeFacts | reader.py:336-347 | the index found is the lowest free one; FreeSpace exactly when every entry is taken |
| Fat.AddClusterFails | reader.py:347 | add_cluster raises FreeSpaceError exactly when every FAT entry is taken |
| Fat.AddClusterLow | reader.py:337 | a free entry 0 or 1 makes add_cluster fail (BelowData) |
| Fat.AddClusterScan | reader.py:336-339 | the new cluster is the lowest free index and is a data cluster |
| Fat.AddClusterLinks | reader.py:339-343 | the new entry reads 0xFFFFFFFF, FAT[end] reads the new index when end is non-zero, and every other entry is unchanged |
| Fat.AddClusterZeroed | reader.py:344-345 | the new cluster's bytes are all zero |
| Fat.AddClusterFacts | reader.py:335-347 | add_cluster(end) takes the lowest free entry ≥ 2, writes 0xFFFFFFFF there, links FAT[end] to it when end ≠ 0, zero-fills its cluster and leaves every other entry and the length unchanged |
| Directory.Record | reader.py:265 | record i is the 32 bytes at 32·i, shorter at the end |
| Directory.ParseEntry | reader.py:265-277 | an entry read at record i starts at i and covers at least one record |
| Directory.EntryAt | reader.py:268-276 | an entry preceded by k LFN records covers k+1 records |
| Directory.LfnCountFacts | reader.py:268-271 | the LFN run counted from p ends at a record that is not an LFN record, and every record before it is one |
| Directory.ParseEntryFacts | reader.py:265-277 | a parsed entry is the LFN name (or the short name), the short record's fields and the (first, count) of its records |
| Directory.ListFromFacts | reader.py:259-278 | the listing loop from any record keeps the listing ordered, each entry as its records say, and every live record covered |
| Directory.ListingFacts | reader.py:259-278 | the listing is ordered, every entry is what its records say, and every live record not inside an entry begins one |
| Directory.StopIsListing | reader.py:259-278 | cd's loop stops without an error exactly when the listing succeeds, with the listing's entries, and otherwise with the listing's error |
| Directory.ScanFail | reader.py:265-277 | a live record that fails to parse ends the listing with its error, and the entries appended before it stay in files |
| Directory.ScanLive | reader.py:265-278 | a live record that parses appends its entry and skips its count − 1 further records |
| Directory.ScanEnd | reader.py:261-278 | past the last record the listing is the entries appended |
| Directory.ListedLive | reader.py:266-267 | every listed entry begins at a live record (first byte neither 0x00 nor 0xE5) |
| Directory.ListedAt | reader.py:261-277 | an entry at a live record not preceded by an LFN record is in the listing |
| Directory.ShortFor | reader.py:301 | the short name is "." or ".." exactly for those names, and empty exactly for the empty name |
| Directory.NewRecordsShape | reader.py:300-306 | the new records are the LFN records of the name with the checksum of the short record, followed by the short record |
| Directory.EntryRoundTrip | reader.py:300-306 | the records make_new_records builds parse back as the entry with the same name, type, start, size and written clock |
| Directory.FreeBefore | reader.py:401-402 | the free slots before record j are at most j |
| Directory.Placed | reader.py:401-406 | the filled prefix keeps the buffer's length |
| Directory.AddEntryFacts | reader.py:399-408 | add_entry puts the records, in order, into the 0x00 slots from the front and leaves the rest of the buffer and the leftover records |
| Directory.AddIntoRoom | reader.py:399-408 | with a run of free slots at p, the records land there and nothing is left over |
| Directory.NewEntryListed | reader.py:299-308 | after add_entry of new records into free room, the new entry is in the listing |
| Directory.Dead | reader.py:414-416 | the count of removed records never exceeds the records seen |
| Directory.ClearedTo | reader.py:410-418 | compacting every record gives Compacted |
| Directory.Sweep | reader.py:413-417 | each step of clear_dir's loop keeps the buffer length |
| Directory.SweepGathers | reader.py:413-417 | the loop with its shifting index gathers the live records in order |
| Directory.CompactedShape | reader.py:410-418 | clear_dir keeps the length, puts every live record first and fills the rest with zeros |
| Directory.CompactIdempotent | reader.py:410-418 | clearing a cleared directory changes nothing |
| Directory.MarkFromFacts | reader.py:433-437 | del_dir_record succeeds exactly when its records exist (else IndexError) and sets exactly byte 0 of each of those records to 0xE5 |
| Directory.MarkedUnlisted | reader.py:433-437 | after del_dir_record no listed entry begins inside the marked records |
| Directory.CheckDoubleFromFacts | reader.py:248-250 | the scan from j fails exactly when a later entry has the name |
| Directory.CheckDoubleFacts | reader.py:247-250 | check_double raises FileExistsError(fn) exactly when some listed entry is named fn |
| Volume.CdTarget | reader.py:255-257 | cd to a start of 0 goes to the root; any other directory is kept |
| Volume.DirHeader | reader.py:237-238 | the "." and ".." records are 64 bytes |
| Volume.DirHeaderInfo | reader.py:237-238 | get_info reads the header as a "." directory at the new start and a ".." directory at the parent's start |
| Volume.MdSteps | reader.py:230-239 | md is add_cluster, make_new_records and the header write, in that order |
| Volume.MdIntoSteps | reader.py:236-239 | once the cluster is taken, md makes the records in the current directory, reads the new cluster and writes the header over its first 64 bytes |
| Volume.MdHeader | reader.py:237-239 | after md the new directory's data begins with the "." and ".." records |
| Volume.MdListed | reader.py:230-239 | after md the new directory is listed in the current directory with its name, its new start, type directory and size 0 |
| Volume.CfListed | reader.py:241-245 | after cf the file is listed in the current directory with its name, start and size |
| Volume.NewRecordsListed | reader.py:300-310 | after make_new_records the new entry is in the directory's listing |
| Volume.WriteElsewhere | reader.py:426-431 | writing one chain leaves the data of a disjoint chain unchanged |
| Volume.SameChains | reader.py:426-431 | write_data leaves every chain of the FAT as it was |
| Volume.WrittenBack | reader.py:426-431 | data of the directory's own length reads back unchanged after write_data |
| Volume.SameChainAfterWrite | reader.py:426-431 | write_data over a directory that reads back leaves its chain as the walk saw it: in the image, uncrossed and ending in an end mark |
| Volume.DelDirRecordOnFat | reader.py:433-437 | del_dir_record changes no FAT entry |
| Volume.DelDirRecordOnReads | reader.py:433-437 | the directory's data afterwards is the old data with the records marked |
| Volume.DelDirRecordOnUnlists | reader.py:433-437 | the deleted entry's records no longer begin a listed entry |
| Volume.RmTailFrees | reader.py:289-296 | rm's last part only frees FAT entries, zeroes the start's entry and every entry of its chain |
| Volume.RmChildrenFrees | reader.py:285-287 | removing the children only frees FAT entries |
| Volume.RmInsideFrees | reader.py:283-288 | emptying a directory only frees FAT entries |
| Volume.RmFrees | reader.py:280-296 | rm changes the FAT only by freeing entries, frees f's first entry and, for a file, every entry of its chain |
| Volume.RmUnlists | reader.py:280-296 | after rm, no entry of the directory rm returns to begins inside f's records |
| Volume.FreedTrans | reader.py:289-296 | freeing in two steps is freeing |
| Volume.CdScan | reader.py:223 | entering a directory during check_crosses keeps visited and the errors |
| Volume.CdScanOf | reader.py:223 | Reader.cd's effect is the checker's CdScan step |
| Volume.VisitStep | reader.py:216-219 | one cluster of the walk appends it to visited and reports it crossed exactly when it was visited |
| Volume.VisitFacts | reader.py:216-219 | the loop returns visited + the chain, keeps the earlier errors in front, and adds Crossed(x) exactly for the chain clusters already visited (before or earlier in the chain) |
| Volume.CrossedOf | reader.py:330-331 | a chain reports at most one crossing |
| Volume.CrossFilesStep | reader.py:212-227 | the loop over the listing checks one entry and continues with what it returns |
| Volume.JoinPath | reader.py:213 | the joined path is the root exactly when the name is "/", and otherwise the directory's path followed by the name |
| Volume.SizeCheckFacts | reader.py:220-227 | NonZeroDirSize is reported exactly for a directory of non-zero size, BrokenFileSize exactly for a file whose size is outside [chain − len_clus, chain], and at most one of them |
| Volume.LostFromFacts | reader.py:198-201 | the scan fails only on an entry outside the image, and reports Lost(k) exactly for each entry k from i on that is non-zero and not visited |
| Volume.FschkLost | reader.py:194-203 | fschk's report ends with Lost(k) exactly for the non-zero, unvisited FAT entries |
| Volume.Prefixed | reader.py:201 | errors found so far are kept in front of the rest of the scan |
| Volume.LostStep | reader.py:198-201 | one entry of the scan adds Lost(i) exactly when it is non-zero and not visited |
| Engine.Reader.Init | reader.py:174-191 | the reader holds the geometry read from its boot sector, with the root current and the shared error list empty; Open then lists the root |
| Engine.Reader.Open | reader.py:168-192 | __init__ fails as the geometry read fails, otherwise lists the root: the reader is made exactly when the root lists, with that listing, and the image is unchanged |
| Engine.Reader.OpenWith | reader.py:189-192 | with a read geometry, the root is current and its listing is files exactly when it lists |
| Engine.Reader.WriteBytes | reader.py:294-295 | a write puts the bytes at the offset and changes nothing else |
| Engine.Reader.SetEntry | reader.py:340-343 | writing a FAT entry has the effect of SetFatEntry, or its error |
| Engine.Reader.UpwriteDataByCluster | reader.py:420-424 | the image becomes WriteCluster of the old image, or the method fails as it does |
| Engine.Reader.GetClusters | reader.py:322-333 | the loop returns the chain walk GetClusters of the image |
| Engine.Reader.ReadChain | reader.py:393-397 | the loop returns the clusters' bytes in order |
| Engine.Reader.GetData | reader.py:446-447 | get_data returns GetData of the image |
| Engine.Reader.WriteData | reader.py:426-431 | the loop's image is WriteData of the old image, or it fails as that does |
| Engine.Reader.AddCluster | reader.py:335-347 | the scan returns the index AddCluster picks and leaves its image |
| Engine.Reader.ZeroChain | reader.py:289-295 | rm's loop leaves the image ZeroFrom computes |
| Engine.Reader.ParseAt | reader.py:265-276 | one entry read at record i is ParseEntry, starting at i |
| Engine.Reader.LongRecords | reader.py:268-271 | the inner while counts the LFN run and gathers its name |
| Engine.Reader.ListRecords | reader.py:259-278 | the loop of cd builds Listing of the data, and leaves in found the entries appended before it stops, also when an entry fails to parse |
| Engine.Reader.ScanRecord | reader.py:261-278 | one turn of cd's loop keeps the loop state (the rest of the listing still gives Listing and CdStop), or stops it with the error of the entry that fails to parse, which is then the listing's error |
| Engine.Reader.Cd | reader.py:252-278 | cd of a file fails with NotADirectory and changes nothing; cd of a directory (start 0 meaning the root) makes it current and sets files to its listing, or fails as the listing does; when get_data fails files is unchanged, and when an entry fails to parse files holds the entries before it; the image is unchanged |
| Engine.Reader.CheckDouble | reader.py:247-250 | check_double's loop is CheckDouble of the listing |
| Engine.Reader.FillSlots | reader.py:401-406 | add_entry's loop is Directory.AddEntry |
| Engine.Reader.AddEntry | reader.py:399-408 | add_entry writes the filled buffer back and returns the leftover records |
| Engine.Reader.Compact | reader.py:411-417 | clear_dir's loop returns Compacted |
| Engine.Reader.ClearDir | reader.py:410-418 | clear_dir writes the compacted directory back |
| Engine.Reader.MarkDeleted | reader.py:434-436 | del_dir_record's loop is Directory.DelDirRecord |
| Engine.Reader.DelDirRecord | reader.py:433-437 | del_dir_record writes the marked directory back |
| Engine.Reader.MakeNewRecords | reader.py:300-310 | make_new_records has MakeNewRecordsOn's effect, with NameError when records are left over |
| Engine.Reader.Md | reader.py:230-239 | md has MdOn's effect (PermissionDenied, the duplicate check, add_cluster, the records, the header write) |
| Engine.Reader.Cf | reader.py:241-245 | cf has CfOn's effect |
| Engine.Reader.RmInside | reader.py:283-288 | emptying a directory has RmInside's effect on the image, the current directory and its listing |
| Engine.Reader.RmEach | reader.py:285-287 | the loop over the listing taken on entry has RmChildren's effect: rm of every entry but "", "." and "..", in order, stopping at the first that fails |
| Engine.Reader.Rm | reader.py:280-296 | rm has RmOn's effect on the image, current and files: PermissionDenied on a read-only image; for a file, the chain freed and the records marked with current and files kept |
| Engine.Reader.VisitChain | reader.py:216-219 | the loop of check_crosses over a chain is Visit |
| Engine.Reader.Enter | reader.py:223 | the cd of check_crosses is CdScan |
| Engine.Reader.CheckAndLeave | reader.py:224-225 | the recursive check and the cd back are CheckAndLeave |
| Engine.Reader.Descend | reader.py:220-225 | the directory branch is Volume.Descend |
| Engine.Reader.CheckEntry | reader.py:213-227 | one entry of check_crosses is CrossEntry |
| Engine.Reader.CheckFiles | reader.py:212-227 | the loop over the listing is CrossFiles |
| Engine.Reader.CheckCrosses | reader.py:205-228 | check_crosses only reads the image and returns CrossDir's visited list and errors |
| Engine.Reader.LostClusters | reader.py:198-201 | fschk's FAT scan is LostFrom |
| Engine.Reader.Fschk | reader.py:194-203 | fschk only reads the image and reports FschkOn's anomalies, which also become the shared list |
| Repair.SplitJoin | fix.py:20 | splitting a newline join of lines without a newline gives them back |
| Repair.ReportLines | fix.py:16-20 | the report is "No errors found" exactly when nothing was fixed, and otherwise splits into "Fixed errors:" followed by the logged categories |
| Repair.ErrorsFixed.constructor | fix.py:12-14 | the exception holds the log |
| Repair.ErrorsFixed.Str | fix.py:16-20 | the text is the report of the log, and the log gains the headline in front when it was not empty |
| Repair.Bound | fix.py:174 | a Python slice bound lies in the buffer and is the index itself when inside |
| Repair.EocBytes | fix.py:167 | the four bytes written are get_bytes(0x0FFFFFF8) |
| Repair.WalkToMark | fix.py:161-168 | a distinct chain ending in the mark walks back as itself, uncrossed |
| Repair.CutChain | fix.py:161-168 | cutting a crossed chain at its last cluster makes a walk from the same start return the same clusters with no crossing |
| Repair.CrossingFixedOk | fix.py:161-168 | an uncrossed chain is left alone; a crossed one is cut and logged once |
| Repair.SelfCrossingCut | fix.py:161-168 | fix_self_crossing fails as the walk fails, returns the walk's clusters, writes the mark only when the walk crossed, and afterwards the walk from start returns the same clusters uncrossed |
| Repair.SizeOnly | fix.py:172-175 | the rebuilt buffer differs from the old only in bytes 28-31 of record sum(blocks)−1, which hold get_bytes(size) |
| Repair.FixSizeEffect | fix.py:170-176 | after fix_size the directory's chain is unchanged and its data is the old data with that size field rewritten |
| Repair.RewriteReadsBack | fix.py:176 | writing data of the directory's length reads back as that data, chain unchanged |
| Repair.ReadClustersIs | fix.py:173 | a directory on a chain inside the image reads as its clusters' bytes |
| Repair.StripSkips | fix.py:182-186 | as written, two zeroed records lose only the first, and yet 64 zero bytes are counted |
| Repair.Rebuilt | fix.py:187-189 | the rebuilt buffer begins with the "." and ".." records |
| Repair.HeaderDots | fix.py:187-188 | the header's records read back as "." at d.start and ".." at ps, both directories |
| Repair.FixDirStructHeader | fix.py:178-190 | after fix_dir_struct the chain is unchanged, the data keeps its length and begins with a "." directory at d.start and a ".." directory at ps |
| Repair.RebuiltReadsBack | fix.py:178-190 | fix_dir_struct succeeds on a proper chain, and what reads back keeps the length and begins with the header |
| Repair.HeaderSurvives | fix.py:190 | write_data's truncation keeps the 64-byte header in front |
| Repair.CopyClustExact | fix.py:106-110 | copy_clust makes the target cluster's bytes equal to the copied cluster's and changes no other byte and no FAT entry |
| Repair.CopyStepFacts | fix.py:77-85 | a kept cluster leaves the image; a copied one takes a free entry, marks it, links the previous cluster to it, leaves the other entries, and begins with the bytes of the cluster it copies |
| Repair.CopyStepFat | fix.py:80 | the copy's new cluster is linked after the previous one and every other entry is kept |
| Repair.CopyStepBytes | fix.py:81-82 | the copied cluster begins with the bytes of the cluster it copies |
| Repair.StepOnKeepsKept | fix.py:83-84 | the reuse branch returns the cluster itself and changes nothing |
| Repair.CopyShape | fix.py:74-86 | copy_crossed's list has one cluster per chain cluster, starts at the prepared first cluster, and keeps each unvisited file cluster in its place |
| Repair.CopyLoopLength | fix.py:76-85 | the loop adds one cluster per remaining chain cluster |
| Repair.CopyLoopKeptAt | fix.py:83-85 | each kept cluster stands at its own position in the result |
| Repair.OrphansFacts | fix.py:31-35 | the scan fails only on an entry outside the image, returns increasing indices, and returns k exactly when k's entry is non-zero and k is not visited |
| Repair.OrphansAreLost | fix.py:31-35 | the Fixer's lost clusters are exactly the ones fschk reports lost |
| Repair.OrphanStep | fix.py:33-35 | one entry of the scan adds i exactly when it is non-zero and not visited |
| Repair.IncreasingDistinct | fix.py:33-35 | the lost list has no repeats |
| Repair.LostName | fix.py:125 | FILE.n is 5 characters longer than n's digits |
| Repair.Names | fix.py:123 | the listing's names in order |
| Repair.Longest | fix.py:123 | no listed name is longer than the bound |
| Repair.TakenNameBound | fix.py:124-128 | a taken FILE.n has fewer digits than the longest listed name, so the search for a free name ends |
| Repair.Regroup | fix.py:155-157 | moving a group's clusters out of the pending list keeps the partition of the lost list |
| Repair.BackJoin | fix.py:152-153 | two backward-linked runs sharing their joint form one |
| Repair.GroupingSnoc | fix.py:157 | one more group and its (start, count) extend the grouping |
| Repair.Fixer.Over | fix.py:25-28 | the Fixer starts over a writable reader with an empty log |
| Repair.Fixer.FixSelfCrossing | fix.py:161-168 | fix_self_crossing returns the walk and, exactly when it crossed, writes the mark after its last cluster and logs "Self-crossed file" once |
| Repair.Fixer.FixSize | fix.py:170-176 | fix_size logs "Illegal size" and has FixSizeOn's effect |
| Repair.Fixer.FixDirStruct | fix.py:178-190 | fix_dir_struct logs "Wrong directory structure" and has FixDirStructOn's effect with ps as parent |
| Repair.Fixer.Strip | fix.py:181-186 | the loop of fix_dir_struct computes Stripped |
| Repair.Fixer.CopyClust | fix.py:106-110 | copy_clust has CopyClustOn's effect |
| Repair.Fixer.GetLostedName | fix.py:121-128 | the name is FILE.n for the smallest n whose name the listing does not hold |
| Repair.Fixer.Orphans | fix.py:31-35 | the scan returns OrphansFrom, without repeats |
| Repair.Fixer.Pass | fix.py:149-156 | one pass is exactly PassOn: pending[j] is taken exactly when its entry holds the start the pass holds on reaching it (Turn), the rest keeps pending's order, the taken ones link backwards from the old start to the new one, and the start moves exactly when something is taken; when nothing is, no rest cluster links to the start |
| Repair.Fixer.Grow | fix.py:148-156 | the passes are exactly GrowOn: the group links backwards from n to its start, the pending list is partitioned into the group and the rest, and no rest cluster links to the final start (the last pass took nothing); for n = 0 the loop does not run |
| Repair.Fixer.NextGroup | fix.py:142-158 | a round is GrowOn from the popped front cluster over the rest: the group is taken out of the pending list, linked backwards, with its start last; no cluster left pending links to that start unless the popped cluster was 0 |
| Repair.Fixer.GetFiles | fix.py:140-159 | the result is exactly GetFilesOn of the lost list; every lost cluster lands in exactly one group, each group linked backwards from its start, each (start, count) counts its group, and no cluster of a later group links to an earlier group's start (Apart) |
| Repair.PassOn | fix.py:150-156 | a pass takes the pending clusters and keeps the others with their lengths adding up, as a partition of the pending list, and a pass that takes nothing leaves the start |
| Repair.GrowOn | fix.py:148-156 | the `while cs != start` loop as a function: it stops exactly when cs is the start, and never leaves more clusters pending than it began with |
| Repair.ScanOn | fix.py:150-156 | a pass within that loop, cluster by cluster: a cluster whose entry holds the current start is taken and becomes the start, the others are kept in order; what stays pending is never more than what was kept and still to scan |
| Repair.ScanPass | fix.py:149-156 | the pass as the loop makes it is PassOn from the start over the pending list, followed by the loop on what that pass took and kept |
| Repair.GrowOnSplit | fix.py:148-156 | the group taken and the clusters left pending partition the clusters taken before and the ones pending |
| Repair.ScanOnSplit | fix.py:150-156 | within a pass, the same partition counts the kept and the still-to-scan clusters |
| Repair.GetFilesOn | fix.py:140-159 | get_files as a function: the pairs found so far are never lost (exact offsets in GetFilesCounted) |
| Repair.GetFilesCounted | fix.py:141-158 | the counts of get_files add up to the number of lost clusters, and the pairs found so far stay in front |
| Repair.PassOnTake | fix.py:153-155 | a cluster whose entry holds the current start is taken and becomes the start |
| Repair.PassOnKeep | fix.py:153 | a cluster whose entry does not hold the current start stays pending, in its place |
| Repair.PassOnFails | fix.py:152-153 | an entry that cannot be read fails the pass |
| Repair.GetFilesStep | fix.py:142-158 | one round of the outer loop appends (start, count) of the group grown from the front cluster |
| Repair.GetFilesBackward | fix.py:140-159 | grouping only goes backwards: for losted [3, 5, 7] with FAT[7] = 3, FAT[3] = 5 and 5 ending its chain, get_files gives [(7, 2), (5, 1)] |
| Repair.GrowTakesFirst | fix.py:149-156 | with two pending clusters linking to the start, the pass takes the first in list order and keeps the second |
| Repair.PassTake | fix.py:152-154 | a cluster taken keeps the pass state: the taken clusters link backwards from the start to it, and it becomes the start |
| Repair.PassKeep | fix.py:152 | a cluster kept keeps the pass state, the start unchanged |
| Repair.PassEnd | fix.py:150-156 | at the end of a pass the taken and kept clusters partition the pending ones, the taken link backwards from the start, the start moves exactly when something was taken, and when nothing was no kept cluster links to it |
| Repair.GrowStep | fix.py:148-156 | after a pass the group, grown by what it took, still links backwards from the popped cluster to the new start, the partition is kept, and the pending list shrinks when the start moved |
| Repair.PopFront | fix.py:143 | after popping the front of a list without repeats, the rest has no repeats and does not hold the popped cluster |
| Repair.PoppedGroup | fix.py:143-157 | the popped cluster and what the loop took form a group linked backwards that, with the rest, partitions the list, and its count is what left the list |
| Repair.GetFilesFails | fix.py:152 | a round that cannot read an entry fails get_files with that error |
| Repair.GatherStart | fix.py:141 | before the outer loop nothing is grouped and every lost cluster is pending |
| Repair.GatherStep | fix.py:142-158 | a round closing a group keeps the partition of the lost list, the grouping, and that no pending cluster links to a closed start |
| Repair.GatherEnd | fix.py:159 | once nothing is pending, the groups partition the lost list, each (start, count) counts a group linked backwards, later groups do not link to earlier starts, and the pairs are GetFilesOn of the lost list |
| Repair.Fixer.Round | fix.py:142-158 | one round of the outer loop keeps the loop state and shrinks the pending list, or fails exactly as get_files does |
| Repair.Fixer.Close | fix.py:143-157 | a round grows the group of the front cluster exactly as GrowOn does and, on success, closes it as a new group with its (start, count) |
| Repair.Fixer.FitSize | fix.py:60-61 | a file whose size fits its chain is left alone; otherwise fix_size rewrites it |
| Repair.Fixer.Leave | fix.py:59 | cd(files[1]) fails with IndexError on a listing of fewer than two entries |
| Repair.Fixer.Descend | fix.py:53-59 | the directory branch only adds to the log and to visited, and fails when the recursion bound is spent; a non-zero size logs "Illegal size" first, and when FixSizeOn(…, f, 0) fails the branch fails with that error after that one entry |
| Repair.Fixer.FixChecked | fix.py:53-61 | the rest of the loop body only adds to the log and visited; a file adds nothing to visited and leaves ps, and with size = count·len_clus it is left alone when its size lies in [size − len_clus, size] and otherwise gets FixSizeOn's effect with "Illegal size" logged once |
| Repair.Fixer.FixEntry | fix.py:49-61 | one entry of fix_crosses only adds to the log and to visited |
| Repair.Fixer.FixCrosses | fix.py:40-63 | fix_crosses only appends to the log and returns visited extended |
| Repair.Fixer.CheckCrosses | fix.py:65-70 | check_crosses fails as fix_self_crossing does, returns its clusters with its image when none was visited, and otherwise copies the chain: one cluster per chain cluster, the reused ones in place, "Crossed file" logged once after the self-crossing entry, and the directory trap failing without it |
| Repair.Fixer.CopyStep | fix.py:77-84 | one round of the copy has CopyStepOn's effect |
| Repair.Fixer.CopyLoop | fix.py:76-85 | the loop has CopyLoopOn's effect |
| Repair.Fixer.CopyRest | fix.py:76-86 | the loop's list has one cluster per chain cluster, begins at the prepared start and keeps each kept cluster in place |
| Repair.Fixer.PrepareToCopy | fix.py:88-104 | a directory whose first cluster was not visited fails (the missing self.write); a file's unvisited first cluster is reused as the start |
| Repair.Fixer.CopyCrossed | fix.py:72-86 | copy_crossed logs "Crossed file" once on success, returns one cluster per chain cluster keeping the reused ones, and fails without logging for the directory trap |
| Repair.Fixer.MakeLostFound | fix.py:131-134 | the root's listing is read, LOSTFOUND is made without the duplicate check (MdOn with check false), leaving MdOn's image, and the root, listed again on that image, is current |
| Repair.Fixer.EnterLostFound | fix.py:135-138 | the first entry named LOSTFOUND (FirstNamed) is cd'd to: a file is refused, a directory becomes current with its listing; with none nothing changes (Entered) |
| Repair.Fixer.CreateLostFound | fix.py:130-138 | the image is MdOn's for LOSTFOUND in the root, and the first LOSTFOUND of the root's new listing is entered; afterwards the current directory is a LOSTFOUND directory or the root, with its listing |
| Repair.FirstNamed | fix.py:135-138 | the index of the first entry with the name, or the length when none has it |
| Repair.EnteredInDir | fix.py:135-138 | from a listed directory the loop ends in a listed directory |
| Repair.Fixer.RepairLosted | fix.py:112-119 | "Found losted clusters" is logged exactly when there are lost clusters; with none nothing changes; on success the image after md("LOSTFOUND") is the one get_files read, and Salvaged holds: the files are GetFilesOn of the lost list on that image, one file per group created in order by cf with the group's start and count·len_clus bytes, under the first free FILE.n of the listing at that moment |
| Repair.Fixer.FileGroups | fix.py:116-119 | the loop of repair_losted from the entered directory leaves Salvaged's steps: one cf per (start, count) of GetFilesOn on the image it began with, then the image the last one left, with the directory current |
| Repair.Fixer.FileOne | fix.py:117-119 | one turn is CfDone: the listing it reads, get_losted_name's first free name, and CfOn's image; the directory is listed again |
| Repair.FiledAt | fix.py:116-119 | step k worked on the image step k − 1 left, created the file of group k with its start and count·len_clus bytes, and did what cf does |
| Repair.Fixer.FixAll | fix.py:28-36 | the repairs only append to the log |
| Repair.Fixer.Run | fix.py:24-38 | a read-only image raises PermissionDenied untouched; otherwise the raised log holds only report categories |
| HexDump.Quot16 | hexdump.py:21 | the quotient by 16 |
| HexDump.HexDigits | hexdump.py:21 | hex() gives at least one digit |
| HexDump.Last | hexdump.py:24 | s[-m:] keeps the last m characters |
| HexDump.LastIsSuffix | hexdump.py:24 | s[-m:] is s when short and its suffix otherwise |
| HexDump.Begin | hexdump.py:40-41 | the line prefix is 12 characters |
| HexDump.BeginDigits | hexdump.py:40-41 | the prefix is " ", the 8-digit hex of the offset plus start, and " \| " |
| HexDump.FixedValue | hexdump.py:41 | the 8 digits read as the offset modulo 16^8 |
| HexDump.OffsetRoundTrip | hexdump.py:40-41 | the prefix's digits read back as (offset + start) mod 2^32 |
| HexDump.PaddedDigits | hexdump.py:41 | the last w of zero padding plus the digits is the fixed-width number |
| HexDump.Cell | hexdump.py:20-24 | each cell is exactly 3 characters |
| HexDump.CellShape | hexdump.py:20-24 | a present byte is two lowercase hex digits and a space, a byte past the end three spaces |
| HexDump.CellRoundTrip | hexdump.py:21-24 | a cell's two digits read back as its byte |
| HexDump.Cells | hexdump.py:19-24 | m cells are 3·m characters |
| HexDump.CellsAt | hexdump.py:19-24 | cell j of a row is the cell of byte n + j |
| HexDump.Glyphs | hexdump.py:30-37 | the ASCII column has one character per byte of the row |
| HexDump.GlyphsAt | hexdump.py:30-37 | column j shows byte n + j: itself for 32..126, "." for other bytes, " " past the end |
| HexDump.Line | hexdump.py:16-26 | every line is 14 + 4·len_row characters |
| HexDump.LineAt | hexdump.py:16-38 | a line is the prefix, the cells in order, "\| " and the ASCII column |
| HexDump.ByteInLine | hexdump.py:16-38 | byte n + j appears in line n at cell j and column j |
| HexDump.RowsCover | hexdump.py:10 | the row count is ceil(len/len_row), and the rows cover every byte exactly |
| HexDump.RowsSign | hexdump.py:10 | a negative row length gives no positive row count |
| HexDump.NoLinesForNegativeRow | hexdump.py:10-12 | a negative row length builds no line |
| HexDump.RowOfByte | hexdump.py:10-12 | every byte's row is below the row count |
| HexDump.EveryByteShown | hexdump.py:8-12 | every byte of the block is shown in line i // len_row at position i % len_row |
| HexDump.HexDump.Fields | hexdump.py:2-5 | the block, start and row length are kept and no line is built yet |
| HexDump.HexDump.GetCell | hexdump.py:20-24 | the try/except builds the byte's cell |
| HexDump.HexDump.GetCells | hexdump.py:19-24 | the loop of get_line builds the row's cells |
| HexDump.HexDump.GetEnd | hexdump.py:28-38 | get_end builds the row's ASCII column |
| HexDump.HexDump.GetLine | hexdump.py:16-26 | get_line builds Line |
| HexDump.HexDump.GetLines | hexdump.py:11-12 | the loop appends the line of each row offset r·len_row in order |
| HexDump.HexDump.Build | hexdump.py:8-12 | build fails with ZeroDivisionError exactly for a row length of 0, and otherwise builds the lines of every row |
| HexDump.New | hexdump.py:2-6 | the constructor fails exactly for a row length of 0 and otherwise holds the built lines |

## Left out

- Fat.FatEntry: an entry past len_fat/4 fails with OutsideFat. Python reads whatever bytes are there, from the second FAT copy or data, and fails only past the end of the file. So `get_clusters`, `fschk`, `add_cluster` and `rm`'s zeroing loop differ on a corrupt link: in Python, `rm` then overwrites data bytes.
- Fat.WriteCluster: a cluster below 2 fails with BelowData. Python writes at `root_dir + (c-2)*len_clus`, inside the FAT area. So `write_data` on a chain whose links reach 0 or 1 goes on in Python and fails in the model.
- Fat.WriteCluster: a non-empty write past the end of the image fails with OutOfImage, where Python's write grows the file. The image therefore never changes length. An empty write succeeds and changes nothing, as in Python.
- Fat.AddClusterLow: a zero FAT[0] or FAT[1] makes add_cluster fail with BelowData. Python returns 0 or 1 and writes before the data area.
- Fat.WriteDataChain: write_data over a cyclic chain fails with Diverges, where Python loops for ever.
- Engine.Reader.AddEntry, Engine.Reader.AddCluster, Engine.Reader.MakeNewRecords, Engine.Reader.Md, Engine.Reader.Cf, Engine.Reader.Rm, Engine.Reader.RmInside, Engine.Reader.RmEach: on a failed outcome the image is not stated. Python does partial writes before raising, for example add_entry before the `last` NameError, or part of a recursive rm.
- Engine.Reader.WriteData, Engine.Reader.ZeroChain, Engine.Reader.ClearDir, Engine.Reader.DelDirRecord: on a failed outcome the image is not stated. Python has then already written the clusters before the failing one (write_data), or zeroed the FAT entries before the failing read (rm's loop).
- Repair.Fixer.FixSize, Repair.Fixer.FixDirStruct, Repair.Fixer.CopyStep, Repair.Fixer.CopyLoop, Repair.Fixer.CopyRest, Repair.Fixer.CheckCrosses: on a failed outcome the image is not stated either.
- Repair.Fixer.CopyCrossed, Repair.Fixer.PrepareToCopy: the records these create through md and cf are not restated, because the copy's final chain is not one: the reuse branch does not relink (fix.py:83-84). The FAT links are stated per copy step (CopyStepFacts).
- Repair.Fixer.RepairLosted, Repair.Fixer.CreateLostFound: the LOSTFOUND entered is stated as the first entry of that name in the root listing read after md (Repair.Entered), and not as the one just made. When an older LOSTFOUND exists it is listed first and is the one entered, as in Python. That the new record is listed at all is stated only under Volume.MdListed's conditions.
- Engine.Reader.Fschk, Engine.Reader.CheckCrosses: a failed check (an IndexError, an unreadable entry, a spent depth) leaves `defaultErrors`, `current` and `files` unstated in the model, and Fschk keeps `defaultErrors` as it was. Python appends to the shared list in place, so the anomalies found before the exception stay in it for later calls. For example, a subdirectory whose cluster is all zeros gets WrongDirStruct appended, and then its `files[1]` raises IndexError.
- Engine.Reader.CheckCrosses, Engine.Reader.Fschk: the default error list is a field of each Reader. Python's `errors=[]` is created once per process, so a second Reader in the same process would start with what the first left there.
- Volume.JoinPath: paths are kept as lists of names, and only the name "/" is taken as absolute. Other path.join effects do not change the walk and only alter a report's path text, which is not rendered: a name that begins with "/", such as "/x", and a name that ends with "/".
- Repair.Fixer.Descend, Repair.Fixer.FixChecked: for a directory of non-zero size, the "Illegal size" log entry and a failing fix_size(f, 0) are stated. The image that fix_size(f, 0) leaves before the descent is not stated, nor is the image after the descent.
- Repair.Fixer.FixCrosses, Repair.Fixer.FixEntry, Repair.Fixer.FixAll, Repair.Fixer.Run: only the growing log and visited are stated. No global claim that the image checks clean afterwards is made: the code does not deliver one, because of the missing relink, the stale `blocks` after a copy, the AttributeError at fix.py:97 and backward-only grouping.
- Repair.Fixer.GetFiles, Repair.Fixer.NextGroup, Repair.Fixer.Grow, Repair.Fixer.Pass: these require the lost list to have no repeats, which the scan that builds it guarantees (Repair.Fixer.Orphans). Repair.GetFilesOn leaves out the forward loop of fix.py:145-147, which runs only on a list with repeats.
- Repair.Fixer.Over: `ps` starts at 0. Python has no `ps` until fix_crosses first descends, and fix_dir_struct runs only below the root.
- Volume.MdHeader: stated for clusters of at least 64 bytes. With smaller clusters Python's header write is cut at the chain's end.
- Volume.CfListed, Volume.MdListed, Volume.NewRecordsListed, Directory.NewEntryListed: stated when the directory has a run of free slots for all the records. Records scattered over non-adjacent slots are covered only by Directory.AddEntryFacts.
- Volume.CfListed, Volume.MdListed, Volume.NewRecordsListed, Directory.NewEntryListed: stated also only for a `Directory.Storable` name: valid UTF-16, no zero unit, no leading 0xFEFF or 0xFFFE, at most 191 LFN chunks, and a first sequence byte 0x40 + chunks other than 0xE5. A name of exactly 165 chunks is written by md or cf and then skipped by cd as a deleted entry.
- Codec.DosRecordName, Codec.ShortNameFits: stated below 10^8 listed files. Beyond that the count spills into the extension, as in Python, and the name read back is not stated.
- Codec.LfnRoundTrip: stated for even-length names with no aligned 0x0000 unit. A name of more than 191 chunks fails (Codec.LfnTooLong).
- Codec.NameRoundTrip: a name that starts with a byte-order mark loses it on decoding (Codec.MarkLost).
- HexDump.HexDump.GetLine, HexDump.HexDump.GetCells, HexDump.HexDump.GetCell, HexDump.HexDump.GetEnd: these require a non-negative offset. build passes only row·len_row, never negative for a positive length, and for a negative length it builds no line at all. A negative Python index would wrap to the end of the block.
- Engine.Reader.Rm, Engine.Reader.CheckCrosses, Repair.Fixer.FixCrosses: the recursion carries a depth bound (`Fuel`) and fails with TooDeep when it is spent. This stands for Python's recursion limit, which a directory cycle reaches.
- The wall clock of get_date_time is the `Clock` parameter, and one reading serves both `datetime.now()` calls.
- Dates and times: `MyFile` keeps them as numbers, hour/minute/second and day/month/year. get_info's string formatting ("hh:mm:ss", "dd.mm.yyyy") is not modelled.
- Text codecs: names are sequences of 16-bit code units, encoded little-endian without a byte-order mark; latin-1 is byte-for-byte.
- The file object's seek position is not modelled: every read and write names its offset. fix.py:31-35 reads the FAT sequentially, which becomes one read of entry i per step.
- Closing the file (fix.py:37) and opening it (the `rb+` then `rb` fallback) are not modelled: the image array and `writable` are given.
- find_last_cluster (reader.py:312-320) is unused and broken, and is not part of this model.
- The messages of the exception classes and `MyFile.get_line`'s formatting are presentation only and are not modelled.
- cmd.py and fat32.py are the command line and the interactive loop: argument parsing, printing, and host-filesystem import and export. They are not part of this model, and neither is fix.py's `__main__` block.
