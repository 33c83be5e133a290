# Verified model of the PST writer

This project models the byte-format engine of a library that writes Outlook PST files, and proves what its layers
promise. The format is the one of [MS-PST], the PST file format specification; section numbers in the sources refer
to it. Bytes are integers below 256 (`Bytes.Byte`); fixed-width integers are subset types, and every wrap-around,
truncating cast and mask of the original is written out. Exceptions and error returns are `Result` values. Output
that the original hands to the file system is a byte sequence.

Code that changes buffers, cursors, counters or parser positions is modelled by methods and classes over arrays and
fields, each tied by its `ensures` to a function of its input; what the original promises is then proved about that
function. The readers (property reader, node lookup, and the walks of the diagnostic tool) are modelled beside the
writers, so most main results are of the form "what is read back is what was given to the writer".

| Part | Modules | Main results |
|---|---|---|
| Heap and property lists | `Heap`, `Bth`, `PropertyContext`, `PropertyReader`, `PropertyMeaning` | `ListReads`, `SubnodesExactly`, `OutcomeExactly`, `WrittenIsRead` |
| Tables | `TableContext`, `TableBuilder`, `TableSize`, `TableReader`, `TableSchema`, `TableLimits` | `TableReadsBack`, `ColumnsReadBack`, `IndexReadsBack`, `EstimateIsExact`, `OutcomeBySize` |
| Folder tables | `PresenceBits`, `TableFields`, `Messaging`, `ContentsTable` | `BuildFolderHierarchyTc`, `BuildFolderContentsTc`, `TableAgrees` |
| Checksums and ciphers | `Crc`, `CipherTables`, `Cipher` | `Crc32`, `CrcLinear`, `WindowDetected`, `DecodedEncoded`, `CyclicIsMixing` |
| Blocks | `Ndb`, `Block`, `BlockReader` | `SignatureBits`, `DataRoundTrip`, `DamageIsNoticed`, `BidListRoundTrip` |
| Pages and the node tree | `Page`, `Nbt`, `NbtReader`, `NbtTree`, `PageDamage` | `IndexAgreesWithScan`, `TreeIsValid`, `MapMatchesFile`, `FailsExactly`, `DamagedRootFails` |
| The file image | `Header`, `Image`, `ImageWriter`, `BbtReader`, `ImageReader`, `TreePages`, `FilePlan` | `PlanIsKept`, `NodesAreFound`, `BlocksAreListed`, `HeaderIsTrue`, `TreePagesAreTrue`, `WrittenIsLaidOut` |
| Payload trees and assembly | `Chunks`, `ScheduleRun`, `Assembly`, `PayloadReader` | `PayloadReassembles`, `PayloadIsShaped`, `SignatureMatchesEntry`, `PayloadSurvives` |
| Node ids | `Allocator`, `FolderRun` | `RunIsSafe`, `AllocateRun`, `PlanIsDistinct` |
| Whole runs | `PstRun`, `StoreRun` | `WriteContents`, `WriteStore` |
| JSON and Unicode | `Json`, `JsonParser`, `JsonText`, `JsonGrammar`, `Utf8`, `UnicodePipeline` | `ParserUndoesPrinter`, `AcceptsExactly`, `OneMeaning`, `PipelineIsIdentity`, `NeverUnpaired` |
| Dates and base64 | `Calendar`, `IsoTime`, `IsoGrammar`, `Base64` | `DaysAreCounted`, `TakesExactly`, `TicksOfText`, `TicksAreMonotone`, `EncodesDecoded` |

`Ascii`, `Bytes`, `ByteBits`, `Sorting` and `Wrappers` hold what several of these share.

Where the code and its comments disagree, the model follows the code:

- include/pstwriter/ltp.hpp:194 speaks of subnode ids four apart; the code steps by 0x20 (src/ltp.cpp:338-493).
- src/m5_allocator.cpp:106 speaks of 19 node types; `isValidNidType` accepts 20 (src/m5_allocator.cpp:61-69).
- src/writer.cpp:598-599 gives page ids 0x07 and 0x0B; `makeInternal` yields 0x06 and 0x0A (include/pstwriter/types.hpp:235-248).
- src/messaging.cpp:298 and include/pstwriter/messaging.hpp:311 describe 27 Contents columns in 122-byte rows; the
  schema has 28 columns and 126-byte rows (src/messaging.cpp:308-339).
- The id 0x617 of the baseline list has no valid node type, so registering the baseline skips it (src/pst_baseline.cpp:199-218).

The results that span most of these are `PstRun.WriteContents` and `StoreRun.WriteStore`: node ids are allocated, nodes
with their bodies and subnodes go through scheduling, block encoding, signing, both trees and the header, and a reader
that starts from the header of the finished file finds every node and subnode with exactly its bytes, and nothing else.

Properties that hold only under a condition are stated with that condition in both directions, and where the writer
accepts an input that breaks them, with such an input:

- A property list reads back as given if and only if no value of a fixed type of at most four bytes is forced into a
  subnode (`PropertyReader.WrittenIsRead`); `PropertyReader.ForcedIntegerIsLost` is a list that does not.
- A table reads back if and only if it has at most 255 columns and its heap ids stay within 11 bits
  (`TableReader.TableReadsBack`); `TableLimits.ColumnCountIsLost` and `TableLimits.SlotNumberIsLost` are tables that
  do not.
- The size check after building a table fires if and only if the table has no rows and at least 1015 columns
  (`TableReader.DriftOnlyWithoutRows`); `TableLimits.SizeCheckFires` is such a table.
- Every block body of a written file is at most 8176 bytes if and only if no node body is longer and no node has more
  than 340 subnodes (`PstRun.WriteContents`); `PstRun.LongListPasses` is a node that has more and is still written.
- Day 0 of a month counts as the day before its first except in March of every 400th year (`Calendar.DayZero`).
- Re-encoding decoded base64 gives back exactly the texts without blanks, with the right padding and with zeros in
  the bits that are dropped (`Base64.EncodesDecoded`).
- A run of folders and messages succeeds exactly when both index ranges suffice (`FolderRun.AllocateRun`).
- The JSON parser accepts a text if and only if it is a written form (`JsonGrammar.AcceptsExactly`), and the time stamp
  conversion takes a text if and only if its first nineteen characters and its sign are right (`IsoGrammar.TakesExactly`).
- A node lookup fails if and only if one of the at most two pages it visits is refused, or does not have the level it
  must have (`PageDamage.FailsExactly`).

## Model

| member | source | states |
|---|---|---|
| Bytes.ReadsBack16 | include/pstwriter/types.hpp:40-71 | a 16-bit field holding the little-endian bytes of a value reads as that value, whatever surrounds it |
| Bytes.ReadsBack32 | include/pstwriter/types.hpp:46-79 | the same for 32-bit fields |
| Bytes.ReadsBack64 | include/pstwriter/types.hpp:54-91 | the same for 64-bit fields |
| Bytes.WritesBack32 | include/pstwriter/types.hpp:46-79 | writing back a 32-bit field that was read restores its four bytes |
| Bytes.WriteU16 | include/pstwriter/types.hpp:40-44 | storing at an offset changes exactly those two bytes, to the little-endian image |
| Bytes.WriteU32 | include/pstwriter/types.hpp:46-52 | storing at an offset changes exactly those four bytes, to the little-endian image |
| Bytes.WriteU64 | include/pstwriter/types.hpp:54-64 | storing at an offset changes exactly those eight bytes, to the little-endian image |
| Heap.BuildHeapOnNode | src/ltp.cpp:29-139 | the heap bytes are header, allocations back to back, alignment pad with its phantom slot, and a page map; read byte by byte, every slot begins where the map says and holds its allocation, and the map counts the slots and the empty ones among them |
| Heap.SlotResolves | src/ltp.cpp:861-905 | every slot an 11-bit heap id can name resolves through the page map to exactly the bytes allocated there |
| Bth.KeyLess | src/ltp.cpp:166-177 | comparing from the most significant byte down is comparing the little-endian integers |
| Bth.BuildLeafRecords | src/ltp.cpp:184-232 | each error exactly under its condition; otherwise the records packed back to back in ascending key order, a permutation of the input |
| PropertyContext.BuildPropertyContext | src/ltp.cpp:338-493 | every outcome: the first failing check in the writer's order, or the heap image of the tag-sorted list with its three storage classes, slots and subnode ids |
| PropertyContext.SortedInput | src/ltp.cpp:351-377 | sorting an input without errors gives strictly ascending tags and keeps all value sizes valid |
| PropertyContext.HeapBytesPermuted | src/ltp.cpp:351-357 | the heap size does not depend on the order of the properties |
| PropertyReader.ReadPropertyContext | src/ltp.cpp:908-1020 | the reader accepts and decodes exactly the records the leaf slice holds, with its errors in order |
| PropertyReader.RoundTrip | src/ltp.cpp:908-1020 | reading a written context yields every property in ascending tag order |
| PropertyReader.RecordReadsBack | src/ltp.cpp:990-1018 | each leaf record decodes to its tag, its type and its inline word, heap bytes or subnode id |
| PropertyReader.WrittenIsRead | src/ltp.cpp:274-287 | every accepted list is read back as it was stored if and only if no small fixed-size property was forced into a subnode |
| PropertyReader.ForcedIntegerIsLost | src/ltp.cpp:274-287 | a four-byte integer forced into a subnode is accepted, and reading gives the id of the subnode as the integer |
| PropertyReader.PackInlineKeepsBytes | src/ltp.cpp:289-304 | the inline slot holds the bytes of a small value, zeros after them |
| PropertyReader.SubnodeIdNamesEntry | src/ltp.cpp:393-421 | the id read for a promoted property belongs to exactly the output entry with its tag and value |
| PropertyReader.OrderIsIrrelevant | src/ltp.cpp:351-357 | permuting an accepted list changes neither the bytes nor the subnodes |
| PropertyMeaning.SubnodesExactly | src/ltp.cpp:274-287 | for every accepted list: a tag is among the output entries if and only if its value was forced out, or is of no fixed size and longer than 3580 bytes; the entries carry those values, in ascending order of tags, under ids 32 apart |
| PropertyMeaning.ListReads | src/ltp.cpp:908-1020 | for every accepted list the reader gives one property for each given one, in ascending order of tags: small fixed values inline and zero-extended, promoted values by the id of their entry, all others byte for byte from the heap |
| PropertyMeaning.OutcomeExactly | src/ltp.cpp:338-493 | the outcome of every list from the list as given: the first refusal in order, or a heap of exactly the stated length |
| PropertyMeaning.HeapStart | src/ltp.cpp:472-489 | the signatures, the root and the tree header every property heap begins with |
| TableContext.ComputeRgib | src/ltp.cpp:512-545 | the four region ends are the largest ends of the columns of each width, with the fallbacks for absent widths |
| TableContext.RegionCovers | src/ltp.cpp:512-545 | every column of a width class ends inside its region |
| TableContext.CellErrorMeans | src/ltp.cpp:615-625 | a row's cells are accepted exactly when each names an existing four-byte column |
| TableContext.RowErrorMeans | src/ltp.cpp:606-626 | the rows are accepted exactly when each has the computed row size and valid cells |
| TableContext.EstimateIsExact | src/ltp.cpp:704-725 | the size estimate equals the byte length of the heap that is built, promoted or not |
| TableSize.EstimatePermuted | src/ltp.cpp:704-725 | the estimate and the number of cells do not depend on the order of the rows |
| TableSize.OutcomeBySize | src/ltp.cpp:727-744 | whether a table of valid rows is built, and which error it gives otherwise, follows from the sizes of the rows as given |
| TableBuilder.BuildTableContext | src/ltp.cpp:561-839 | input errors in order; otherwise the layout is inline when it fits, promoted when only that fits, an error when neither, over tag-sorted columns and id-sorted rows |
| TableBuilder.GatherRows | src/ltp.cpp:656-690 | the matrix holds the rows in sorted order and every cell's patch offset lies at its column in its row |
| TableBuilder.PatchHids | src/ltp.cpp:746-755 | each cell's slot receives the next heap id and nothing else in the matrix changes |
| TableBuilder.EstimateHnSize | src/ltp.cpp:705-725 | the estimator's figure for inline and promoted layouts |
| TableReader.RowKept | src/ltp.cpp:672-690 | a byte of a row outside its variable-size cells is stored as the caller gave it |
| TableReader.CellPatched | src/ltp.cpp:746-755 | the slot of each cell holds the heap id handed out for that very cell, although later cells are patched after it |
| TableReader.CellResolves | src/ltp.cpp:800-802 | that heap id resolves to the cell's payload |
| TableReader.RowAbsent | tools/pst_info.cpp:288-311 | an id no row has is not found |
| TableReader.AcceptedIsWritten | src/ltp.cpp:727-744 | an accepted table is written in the layout its subnode list shows, and that layout fits |
| TableReader.PromotedWhenTooLong | src/ltp.cpp:727-744 | the row matrix is promoted exactly when the inline heap would exceed 8176 bytes, and the heap built never does |
| TableReader.TableReadsBack | src/ltp.cpp:561-839 | for disjoint columns, distinct ids and one cell a column: every row id finds its row, equal outside its cells, each cell resolving to its payload, and no other id finds anything, if and only if there are at most 255 columns and 2047 heap slots |
| TableSchema.ColumnsReadBack | src/ltp.cpp:757-790 | for every accepted table of at most 255 columns, the descriptors read from the heap are the columns given, in ascending order of tags, each with its type, place, width and existence bit, and the region ends read follow from the columns of each width |
| TableSchema.RegionsAre | src/ltp.cpp:512-545 | each region ends where the last column of its widths ends, with the fallbacks for absent widths |
| TableSchema.IndexReadsBack | src/ltp.cpp:641-654 | the row index of an accepted table lists the ids of all rows in ascending order, numbered from zero |
| TableSchema.HeapStart | src/ltp.cpp:757-839 | the signatures, the root and the index header every table heap begins with |
| TableReader.SlotsStayNameable | include/pstwriter/ltp.hpp:33-40 | payloads of at least two bytes keep every slot number of a table that fits within 11 bits |
| TableReader.DriftOnlyWithoutRows | src/ltp.cpp:809-816 | the drift error arises if and only if there are no rows and at least 1015 columns |
| TableLimits.SizeCheckFires | src/ltp.cpp:809-816 | 1015 columns and no rows pass every check of the input and give the drift error |
| TableLimits.ColumnCountIsLost | src/ltp.cpp:757-760 | 256 columns and no rows are accepted, and the table cannot be opened again |
| TableLimits.SlotNumberIsLost | include/pstwriter/ltp.hpp:33-40 | 46 rows of 46 empty cells are accepted, and not all of them read back |
| PresenceBits.SetCebBit | src/messaging.cpp:208-213 | exactly the named bit, high bit first, joins the set of bits shown; every other bit and the fixed cells stay |
| PresenceBits.CellsOfMeans | src/messaging.cpp:499-529 | the pushed cells are exactly the non-empty payloads, one a column |
| PresenceBits.ColumnUntouched | src/ltp.cpp:746-755 | no heap id patch touches a column without a cell |
| PresenceBits.CebUntouched | src/ltp.cpp:746-755 | no heap id patch touches the existence block |
| PresenceBits.RowAgrees | src/messaging.cpp:272-284 | in a row read back, a variable column's bit is set exactly when its slot is not zero, exactly when a payload was given, and then the slot resolves to it |
| PresenceBits.SlotsFit | src/messaging.cpp:499-529 | at most eight non-empty payloads a row keep all heap ids within 11 bits in any table that fits |
| PresenceBits.TableAgrees | src/messaging.cpp:229-295 | the agreement holds for every row of every accepted table of such rows |
| TableFields.FieldReads | src/messaging.cpp:180-213 | looking a property up by its tag among the stored descriptors gives the place and existence bit of its column, whether the row has it, and the value supplied |
| TableFields.AnswersRead | src/messaging.cpp:229-295 | a row answers every tag of its schema with the value supplied for it, and no other tag |
| Messaging.OwnedIsDisjoint | src/messaging.cpp:180-200 | columns are disjoint when every byte of the row has one owner |
| Messaging.HierarchyRowSize | src/messaging.cpp:202-204 | the region computation gives the 55-byte Hierarchy row the builder assumes |
| Messaging.HierarchySchemaOk | src/messaging.cpp:180-204 | the 13 columns are disjoint, end before the existence block, and the block has a bit for each |
| Messaging.BuildHierarchyRow | src/messaging.cpp:229-291 | the row's fixed cells, the exact set of existence bits, and the cells pushed |
| Messaging.HierarchyRowIsMarked | src/messaging.cpp:257-284 | the bits of the variable columns match the supplied payloads and their slots start as zeros |
| Messaging.BuildMarkedTable | src/messaging.cpp:293-294 | every outcome: the id check first, then the size error that the rows as given decide, otherwise a table whose rows read back in agreement with their bits and in which no other id finds a row |
| Messaging.BuildFolderHierarchyTc | src/messaging.cpp:217-295 | succeeds if and only if the heap computed from the folders given fits 8176 bytes, and otherwise reports a body too large; on success the schema is stored and every row id finds its row with cells, bits and payloads in agreement, and no other id finds one |
| Messaging.HierarchyRowAnswers | src/messaging.cpp:229-291 | what the table says of a folder under each of the 13 tags: row id, version, counts, subfolder flag, name and class at their places, with their existence bits set when they are there; nothing under any other tag |
| ContentsTable.ContentsRowSize | src/messaging.cpp:371-375 | the region computation gives the 126-byte Contents row the builder assumes |
| ContentsTable.ContentsSchemaOk | src/messaging.cpp:308-339 | the 28 columns are disjoint, end before the existence block, and the block has a bit for each |
| ContentsTable.WriteFixedCells | src/messaging.cpp:427-493 | the fixed cells at their offsets and, for optional values, bits exactly when they are not the default |
| ContentsTable.BuildContentsRow | src/messaging.cpp:420-536 | the row's fixed cells, the exact set of existence bits, and the cells pushed in the builder's order |
| ContentsTable.ContentsBitsMatch | src/messaging.cpp:499-529 | for every variable column, its bit is in the set exactly when its payload is not empty |
| ContentsTable.ContentsRowIsMarked | src/messaging.cpp:420-536 | the rows built meet what the agreement theorem needs |
| ContentsTable.BuildFolderContentsTc | src/messaging.cpp:406-541 | every error exactly under its condition on the messages given, their heap size inline and promoted; on success the schema is stored and every row id finds its row with cells, bits and payloads in agreement, and no other id finds one |
| ContentsTable.ContentsRowAnswers | src/messaging.cpp:420-536 | what the table says of a message under each of the 28 tags: each value at its place, with its existence bit set exactly when it is given or not the default; nothing under any other tag |
| Crc.TableMatches | src/crc.cpp:39-107 | every table entry is the exclusive or of the table entries of its bits |
| Crc.LookupIsFeed | src/crc.cpp:131-135 | one table step is one byte of bit-serial division by the reflected polynomial 0xEDB88320 |
| Crc.Crc32 | src/crc.cpp:119-137 | the loop computes the remainder of the whole buffer with zero start |
| Crc.CrcLinear | src/crc.cpp:119-137 | the checksum of the exclusive or of equal-length buffers is the exclusive or of their checksums |
| Crc.WindowDetected | src/crc.cpp:119-137 | buffers that differ only inside a window of at most four bytes have different checksums |
| Crc.ChangeDetected | src/crc.cpp:119-137 | the same for the stored 32-bit values of byte buffers |
| CipherTables.DecryptsEncrypted | src/encoding.cpp:131-155 | the decryption table inverts the encryption table |
| CipherTables.EncryptsDecrypted | src/encoding.cpp:119-155 | and the encryption table inverts it back, so both are permutations |
| CipherTables.MixesTwice | src/encoding.cpp:141-157 | the mixing table is its own inverse |
| Cipher.EncodePermute | src/encoding.cpp:170-175 | the first `length` bytes in place become their table images, the rest stays |
| Cipher.DecodePermuteInPlace | tools/pst_info.cpp:116-122 | the first `length` bytes in place become their inverse images, the rest stays |
| Cipher.EncodeCyclic | src/encoding.cpp:205-225 | each byte in place is transformed with the key word for its position, which wraps at 16 bits |
| Cipher.EncodeBlock | src/encoding.cpp:230-245 | the three methods, dispatched in place |
| Cipher.PermuteRoundTrip | src/encoding.cpp:170-175 | inverse permutation undoes permutation on every byte string |
| Cipher.CyclicRoundTrip | src/encoding.cpp:205-225 | the cyclic cipher applied twice is the identity |
| Cipher.StartKeyBits | src/encoding.cpp:205-210 | bit k of the first running key is the exclusive or of bits k and k + 16 of the block key |
| Cipher.CyclicIsMixing | src/encoding.cpp:205-225 | between the key-shifted substitutions the cyclic cipher is exactly the mixing table |
| Cipher.KnownBytes | src/encoding.cpp:41-112 | sample bytes under both ciphers |
| Cipher.DecodedEncoded | src/encoding.cpp:230-245 | for every method and key, decoding gives back the data |
| Ndb.BidsAreDistinct | include/pstwriter/types.hpp:230-248 | data and internal ids never coincide, and neither counter repeats an id below 2^62 |
| Ndb.SignatureBits | include/pstwriter/ndb.hpp:63-67 | bit k of a signature is the exclusive or of bits k and k + 16 of offset and id, whatever the bits from 32 on |
| Block.RoundBlockSize | include/pstwriter/block.hpp:66-71 | the smallest multiple of 64 that holds body and trailer |
| Block.BuildDataBlock | src/block.cpp:83-115 | the block is the encrypted payload, zero padding, and a trailer over the encrypted bytes |
| Block.BuildInternalBlock | src/block.cpp:40-76 | header, entries, padding and trailer of an internal block |
| Block.BuildBidListBlock | src/block.cpp:122-142 | the child ids in order behind the level and the total |
| Block.BuildSlBlock | src/block.cpp:167-187 | the subnode entries in the given order |
| BlockReader.BlockReadsBack | src/block.cpp:213-225 | the trailer found at the rounded size has the right size, signature, id and checksum |
| BlockReader.StoredReadsBack | tools/pst_info.cpp:587-629 | a stored block passes the size and checksum test and yields its body |
| BlockReader.DataRoundTrip | src/block.cpp:83-115 | for every payload up to 8176 bytes, id, offset and method: the trailer read back has its size, checksum and id and is signed bit by bit for its id and offset, and decoding gives the payload |
| BlockReader.DamageIsNoticed | tools/pst_info.cpp:605-628 | changing stored bytes inside one window of at most four is always reported |
| BlockReader.BidListRoundTrip | src/block.cpp:122-142 | level, total and children of a list block read back |
| BlockReader.SlRoundTrip | src/block.cpp:167-187 | the entries of a subnode block read back, all and in order |
| Page.WritePageTrailer | src/ndb.cpp:33-69 | trailer with type, signature where the type has one, checksum over the first 496 bytes and id |
| Page.BuildAMap | src/page.cpp:31-65 | the page whose bitmap covers the units that begin before the end of file |
| Page.MapMatchesFile | src/page.cpp:31-65 | bit i, low bit first, is set exactly when its 64-byte unit begins before the end of file |
| Page.FreeFigureMatchesMap | src/writer.cpp:77-87 | the free figure of the header is 64 times the clear bits of the map |
| Page.BuildBbtLeaf | src/page.cpp:125-160 | at most 20 block entries in the given order behind their control bytes |
| Page.BuildBbtIntermediate | src/page.cpp:163-190 | at most 20 child entries in the given order behind their control bytes |
| Nbt.BuildNbtLeaf | src/nbt.cpp:34-82 | an error exactly above 15 entries; otherwise a leaf over the NID-sorted permutation of the input |
| Nbt.BuildBtIntermediate | src/nbt.cpp:90-139 | the errors in order; otherwise an index page over the key-sorted permutation of the input |
| Nbt.BuildNbtTree | src/nbt.cpp:144-220 | an error above 20 leaves; otherwise the leaves and the index of an id-sorted permutation of the entries, equal ids included, and for distinct ids the tree of the sorted entries whatever order they came in |
| Nbt.DistinctArrangement | src/nbt.cpp:144-220 | for distinct ids the two sorts leave no choice |
| Nbt.KeysAscend | src/nbt.cpp:197-208 | the index keys of successive leaves strictly ascend |
| NbtReader.FetchAndValidatePage | src/nbt.cpp:229-288 | the first violated page condition, in the reader's order, or none |
| NbtReader.SearchLeaf | src/nbt.cpp:304-315 | the first entry of the leaf with the target id |
| NbtReader.DescendIntermediate | src/nbt.cpp:323-358 | the child of the last key not above the target |
| NbtReader.NbtFind | src/nbt.cpp:370-396 | the whole lookup with its errors |
| NbtReader.NbtForEach | src/nbt.cpp:398-428 | the whole enumeration with its errors |
| NbtReader.IndexAgreesWithScan | src/nbt.cpp:303-428 | on every valid tree of depth at most one, lookup gives exactly the first listed entry with that id, or nothing |
| NbtTree.TreeIsValid | src/nbt.cpp:144-220 | every built tree, stored in a file, is valid and its enumeration is exactly the sorted entries |
| NbtTree.BuiltTreeFinds | src/nbt.cpp:144-220 | looking any id up in a built tree finds exactly its entry, or nothing |
| PageDamage.AcceptsExactly | src/nbt.cpp:229-288 | a page is accepted if and only if it lies in the file, has the node type twice, a count within its maximum and the entry size of its level, which is 0 or 1, and under strict checking the checksum of its body |
| PageDamage.DamageIsNoticed | src/nbt.cpp:279-286 | a change within one window of four of the 496 body bytes of a page is refused under strict checking |
| PageDamage.DamagedRootFails | src/nbt.cpp:370-428 | so every strict lookup and listing fails when the root is damaged |
| PageDamage.DamagedChildFails | src/nbt.cpp:370-428 | so does every listing, and every lookup led to it, when a page below an accepted index page is damaged |
| PageDamage.FailsExactly | src/nbt.cpp:370-396 | a lookup fails if and only if the root is refused, or is an index page without entries, or the child of the last leading key not above the target is refused or is no leaf |
| Header.SerializeHeader | src/ndb.cpp:116-196 | the 564 header bytes, with both checksums over their final ranges |
| Header.HeaderReadsBack | src/ndb.cpp:148-196 | the root fields and the two counters read back and both checksums match the bytes they cover |
| Header.PreambleReadsBack | src/ndb.cpp:116-147 | magic numbers, versions, platform bytes and the unique counter read back at their places |
| Header.NidReadsBack | src/ndb.cpp:138-144 | the 32 starting ids read back word by word |
| Header.RestReadsBack | src/ndb.cpp:148-196 | the free maps, the sentinel, the cipher method and the reserved bytes read back |
| ImageWriter.PlanLayout | src/writer.cpp:550-595 | every block and page gets the offset of the plan |
| ImageWriter.AllocatePageBids | src/writer.cpp:597-616 | page ids are consecutive over leaves and roots of both trees, roots shared with single leaves |
| ImageWriter.Partition | src/writer.cpp:636-639 | dealing sorted entries out one by one gives each leaf its own run of them |
| ImageWriter.Emitter.PadTo | src/writer.cpp:727-734 | zeros up to the target, nothing when it is passed |
| ImageWriter.Emitter.Emit | src/writer.cpp:735-738 | the data is appended and the cursor stays the file length |
| ImageWriter.WriteM5Pst | src/writer.cpp:539-767 | an error exactly above 400 blocks or 300 nodes; otherwise the planned file over key-sorted permutations of blocks and nodes, equal ids included, and for distinct ids exactly one file |
| ImageWriter.DistinctImage | src/writer.cpp:618-700 | for distinct ids the file does not depend on how the sorts order equal keys |
| ImageReader.BlocksInOrder | src/writer.cpp:550-563 | planned blocks start after the map, follow one another without overlap and end before the pages |
| ImageReader.PagesInOrder | src/writer.cpp:563-595 | planned pages follow one another and the last one ends at the recorded end of file |
| ImageReader.PlanIsKept | src/writer.cpp:721-762 | the emission cursor puts every block and page at its planned offset, however the sorts arranged equal ids |
| ImageReader.HeaderIsTrue | src/writer.cpp:702-719 | in every file that keeps the plan the header records the true file length, its roots, the free space its own map shows, and the counters for the next page and block; all its other fields have the values of a fresh store, among them the starting index of every node type |
| ImageReader.StateIsFresh | src/ndb.cpp:98-110 | read back, the word of node type t has type t and its index is 0x4000, 0x10000 and 0x8000 for types 3, 4 and 8 and 0x400 otherwise; versions and counters are those of a fresh store |
| TreePages.TreePagesAreTrue | src/writer.cpp:597-700 | every tree page of a file has the type, shape and level of its place, is signed and checked for that place under its own id, and the page counter of the header lies beyond all of them |
| TreePages.BlockIndexIsTrue | src/writer.cpp:640-661 | the index page of the block tree names the pages below it by their own ids and first keys, in ascending order |
| TreePages.NodeIndexIsTrue | src/writer.cpp:663-700 | so does the index page of the node tree |
| FilePlan.WrittenMapIsTrue | src/page.cpp:31-65 | in the finished file a bit of the map is set exactly when the file reaches its 64 bytes, the map's own trailer is right, and the header's free figure is what the map leaves |
| FilePlan.WrittenIsLaidOut | src/writer.cpp:550-595 | zeros behind header and blocks, blocks end to end from 0x4600, pages from the next multiple of 512, as many as the entries need, and nothing after them |
| FilePlan.EntryIs | src/writer.cpp:618-635 | the block tree's entry of a block: its id, its place, its logical size and a count of two |
| FilePlan.NodeEntryPlaces | src/nbt.cpp:34-82 | where a node entry keeps its id, data id, subnode id and parent |
| FilePlan.BlockEntryPlaces | src/page.cpp:125-160 | where a block entry keeps its id, offset, size and count |
| FilePlan.SubnodeEntryPlaces | src/block.cpp:167-187 | where a subnode entry keeps its three ids |
| FilePlan.BlockPlaces | src/block.cpp:40-115 | body, zeros up to a multiple of 64, and size, signature, checksum and id in the last sixteen bytes |
| FilePlan.InternalPlaces | src/block.cpp:40-76 | where an internal block keeps its type, level, count and total |
| ImageReader.NodesAreFound | src/writer.cpp:663-700 | from the header's root, enumeration is the sorted node list and lookup gives exactly the node with that id, or nothing |
| BbtReader.StoredTreeWalks | tools/pst_info.cpp:571-662 | walking a stored block tree lists exactly its entries, in order |
| ImageReader.BlocksAreListed | src/writer.cpp:618-661 | from the header's root, every block is listed at the offset where its bytes lie, in the order of the sort, equal ids included |
| ImageReader.SortedBlocksAreListed | src/writer.cpp:618-661 | for distinct ids the list is the sorted one |
| Chunks.Scheduler.ScheduleDataBlock | src/mail.cpp:980-987 | one new block under the next data id, all else unchanged |
| Chunks.Scheduler.AllocInternalBid | src/mail.cpp:937-939 | the next internal id, and only its counter moves |
| Chunks.Scheduler.SchedulePayload | src/mail.cpp:998-1067 | which data blocks and list blocks are added, under which ids, where both counters end, and which id is returned; their shape in plain numbers |
| Chunks.Scheduler.ScheduleSubnodes | src/mail.cpp:1464-1478 | one new block holding a permutation of the entries in ascending id order |
| Chunks.Pieces | src/mail.cpp:999-1018 | at least one piece, none longer than 8176 bytes |
| Chunks.PiecesJoin | src/mail.cpp:1004-1018 | the pieces of a payload concatenate to it |
| Chunks.PayloadReassembles | src/mail.cpp:998-1067 | following the returned id through two levels of lists gives the payload, now and after anything else is scheduled |
| Chunks.ListBlocksAreExact | src/mail.cpp:1020-1066 | below 2^32 bytes every total equals the bytes below it and no list has more than 1021 children |
| Chunks.PayloadIsShaped | src/mail.cpp:998-1067 | full data blocks of 8176 bytes and one with the rest; several lie below XBLOCKs of 1021, full but for the last, each with the number of bytes below it; several of those below one XXBLOCK; the topmost id is the payload's |
| Chunks.IdsAreDistinct | src/mail.cpp:931-939 | all block ids given out are distinct, data, list and subnode blocks together |
| ScheduleRun.ReassembleGrows | src/mail.cpp:998-1067 | what an id leads to never changes when more is scheduled |
| ScheduleRun.ListsCounted | src/mail.cpp:1020-1066 | how many list blocks a payload takes, and that their child counts fit |
| ScheduleRun.ScheduleContent | src/mail.cpp:1373-1488 | one node: its subnodes, its own block and its sorted subnode list are all held below the ids in its entry, and the counters count every block |
| ScheduleRun.ScheduleContents | src/mail.cpp:1373-1488 | any number of nodes: at the end everything of every node is still held below its ids |
| Assembly.EncodeBlocks | src/mail.cpp:1502-1552 | one block each in scheduling order, and as long as the 64-bit cursor does not wrap each is signed for the running offset of this loop |
| Assembly.SignatureMatchesEntry | src/mail.cpp:1502-1552 | the offset baked, bit by bit, into each block's signature is the one its block tree entry names in the finished file |
| Assembly.NodeReadsBack | src/mail.cpp:1554-1561 | from a node id through both trees and decryption to the bytes scheduled for it |
| Assembly.AbsentNode | src/nbt.cpp:370-396 | a node id that no node has is not found |
| PayloadReader.FileShowsBlocks | src/mail.cpp:1502-1552 | what the scheduled blocks hold below an id is what a reader of the file finds below it |
| PayloadReader.PayloadSurvives | src/mail.cpp:998-1067 | a payload scheduled at any moment is read back byte for byte from the finished file, which holds at most 400 blocks |
| PayloadReader.ScheduledIdsAreDistinct | src/mail.cpp:1497-1552 | a scheduler's blocks meet the distinctness the file writer needs |
| PayloadReader.AtMost400Blocks | src/writer.cpp:539-767 | whatever a finished file shows is at most 400 blocks |
| PayloadReader.TwoLevelsNeverFit | src/mail.cpp:1041-1066 | a payload that needs an XXBLOCK always takes more blocks than the file writer accepts |
| PayloadReader.NodePayloadReadsBack | src/mail.cpp:1554-1561 | from a node id through both trees to whatever is held below its data id, across any number of blocks |
| PayloadReader.SubnodeListReadsBack | src/mail.cpp:1464-1487 | the subnode list found under a node id is the one scheduled for it |
| PayloadReader.SubnodeReadsBack | src/mail.cpp:1464-1487 | from a node id and a subnode id to whatever is held below the subnode, across any number of blocks |
| PayloadReader.SubnodeAbsent | src/mail.cpp:1464-1487 | a subnode id the list does not have finds nothing |
| PstRun.BodiesAreShort | src/mail.cpp:1502-1552 | in a file of at most 400 blocks every stored body fits its 16-bit size field |
| PstRun.HeldIsRead | src/mail.cpp:1497-1561 | what the scheduled blocks hold of a node is what a reader of the file finds of it |
| PstRun.WriteContents | src/mail.cpp:1373-1563 | nodes with bodies and subnodes to a finished file: the error exactly above 400 blocks or 300 nodes, counted from the input; otherwise, for distinct node ids, every node is found with its parent and body, every subnode of a list of distinct ids with its bytes, and no other id finds anything; the block tree lists exactly that many blocks, all below the block counter of the header, and none of them is above 8176 bytes if and only if no body is and no node has more than 340 subnodes |
| PstRun.IdsAreBelow | src/writer.cpp:702-719 | every id a scheduler has given out lies below the one that the writer leaves in the header for the next block |
| PstRun.BodiesWithinCap | src/block.cpp:167-187 | in a file of at most 400 blocks the stored bodies are at most 8176 bytes if and only if all data blocks are and no subnode list has more than 340 entries |
| PstRun.LongListPasses | src/mail.cpp:1464-1478 | a node with 341 empty subnodes takes 343 blocks, so it is written and read back, although its subnode list is longer than a block payload may be |
| StoreRun.PlannedAreDistinct | src/mail.cpp:1069-1181 | the nodes of every plan a run ends with have distinct ids, whatever they hold |
| StoreRun.WriteStore | src/mail.cpp:925-1570 | from numbers of folders and messages to a file: ids first, then bodies that may depend on them, then the file; each error exactly under its condition on counts and sizes, and otherwise every node and subnode reads back and no other id finds anything |
| Allocator.NidParts | include/pstwriter/types.hpp:174-190 | type and index of a composed id read back |
| Allocator.M5Allocator.constructor | src/m5_allocator.cpp:84-97 | the starting counters and the 14 reserved ids |
| Allocator.M5Allocator.Allocate | src/m5_allocator.cpp:102-129 | one allocation as a step of the state machine; the skip loop terminates |
| Allocator.M5Allocator.RegisterExternal | src/m5_allocator.cpp:134-145 | one registration as a step of the state machine |
| Allocator.FirstFreeIsLeast | src/m5_allocator.cpp:111-125 | no index between the counter and the result was free |
| Allocator.AllocationMeans | src/m5_allocator.cpp:102-129 | each error exactly when it applies; a result has the requested type, was not taken, is the least free one, and other counters stay |
| Allocator.RunIsSafe | src/m5_allocator.cpp:84-145 | over every interleaving: no id is issued twice or was reserved, the taken set grows by exactly the issued ids, no counter goes back |
| FolderRun.RegisterBaselineReservedNids | src/pst_baseline.cpp:199-218 | the taken set gains exactly the listed ids of valid type, and nothing throws |
| FolderRun.AllocateFolder | src/mail.cpp:1093-1106 | registering the three sibling ids never fails |
| FolderRun.AllocateFolders | src/mail.cpp:1093-1106 | any number of folders below exhaustion succeeds, each at the next free index |
| FolderRun.AllocateMessages | src/mail.cpp:1171-1181 | any number of messages below exhaustion succeeds, in folder order |
| FolderRun.AllocateRun | src/mail.cpp:1069-1181 | a run succeeds exactly when both index ranges suffice, and with which ids; in numbers, the first folder is 0x8002, the k-th 0x8062 + 0x20 k with its tables 11, 12 and 13 above, and messages count on from 0x8004 in steps of 0x20, folder by folder |
| FolderRun.ScheduledAreDistinct | src/mail.cpp:1069-1106 | baseline, folder, sibling, message and 0x802D nodes are pairwise distinct |
| FolderRun.PlanIsDistinct | src/mail.cpp:1069-1181 | so are the ids of every plan a run ends with |
| Utf8.AppendUtf8Codepoint | src/internal_json.hpp:206-223 | the one to four bytes of a code point are appended |
| Utf8.DecodeEncoded | src/graph_convert.cpp:35-80 | decoding the bytes of a scalar value gives that value and their number |
| Utf8.DecodesExactly | src/graph_convert.cpp:35-80 | decoding gives a value and a length if and only if the bytes spell that value in that length: a lead byte of the right range and its continuation bytes |
| Utf8.EncodedIsShortest | src/internal_json.hpp:206-223 | every scalar value is spelled in the fewest bytes |
| Utf8.UnitsExactly | src/graph_convert.cpp:82-101 | one unit, a surrogate pair or an error, exactly by the range of the value |
| Utf8.Utf8ToUtf16le | src/graph_convert.cpp:35-101 | the little-endian units of the whole text, or the first error |
| Utf8.NeverUnpaired | src/graph_convert.cpp:35-101 | whatever bytes go in, every surrogate that comes out is paired |
| Utf8.UnitsRoundTrip | src/graph_convert.cpp:35-101 | encoding paired units as UTF-8 and converting back restores exactly those units |
| JsonParser.Parser.ParseHex4 | src/internal_json.hpp:225-238 | value and position after four hex digits in either case, or the error |
| JsonParser.Parser.ParseNumberToken | src/internal_json.hpp:178-204 | the token text and the position after it |
| JsonParser.Parser.ParseString | src/internal_json.hpp:240-284 | the UTF-8 text with all escapes and surrogate pairs resolved, the position after the quote, or the error |
| JsonParser.Parser.ParseObject | src/internal_json.hpp:111-134 | the members, of equal keys the first, and the position after the brace |
| JsonParser.Parser.ParseArray | src/internal_json.hpp:136-153 | the elements in order and the position after the bracket |
| JsonParser.Parser.ParseValueHere | src/internal_json.hpp:97-109 | the value at the position; the mutual recursion ends because the rest of the text shrinks |
| JsonParser.Parser.ParseTopLevel | src/internal_json.hpp:51-59 | one value and nothing after it but white space |
| JsonText.NumberParses | src/internal_json.hpp:178-204 | every written number form is consumed exactly and kept as its text |
| JsonText.GoodIsTaken | src/internal_json.hpp:178-204 | every number of RFC 8259 is among the number forms |
| JsonText.ItemsParse | src/internal_json.hpp:240-284 | every written string, with any mix of raw characters and escapes, decodes to its meaning |
| JsonText.FormParses | src/internal_json.hpp:97-176 | every written value, followed by anything that may follow a value, parses to its meaning and leaves the rest |
| JsonText.ParserUndoesPrinter | src/internal_json.hpp:51-204 | for every value tree, however written, with any white space: parsing gives that tree and consumes all input |
| JsonText.ValueIsWritten | src/internal_json.hpp:51-204 | every value tree, whatever bytes its strings hold, has a text that parses to it, as long as its numbers have a form the conversion accepts |
| JsonGrammar.Punctuation | src/internal_json.hpp:60-109 | the characters of the grammar |
| JsonGrammar.Escapes | src/internal_json.hpp:253-265 | which letters escape and what they stand for |
| JsonGrammar.HexDigits | src/internal_json.hpp:225-238 | the sixteen digits in either case and their values |
| JsonGrammar.NumberTaken | src/internal_json.hpp:178-204 | whatever the parser takes for a number is a written number form, digits possibly missing |
| JsonGrammar.CharsAreItems | src/internal_json.hpp:240-284 | every string that parses is a sequence of raw characters and escapes, and has their meaning |
| JsonGrammar.ValueIsForm | src/internal_json.hpp:97-176 | every value that parses is a written form after white space, and parses to that form's meaning |
| JsonGrammar.AcceptsExactly | src/internal_json.hpp:51-204 | a text is accepted if and only if it is a written form with white space around it |
| JsonGrammar.OneMeaning | src/internal_json.hpp:51-204 | two forms with the same text have the same meaning |
| JsonGrammar.KeysAre | src/internal_json.hpp:111-134 | the keys of an object are those of its members |
| JsonGrammar.FirstKeyStays | src/internal_json.hpp:111-134 | of equal keys the first one's value stays |
| UnicodePipeline.EscapesParse | src/internal_json.hpp:240-284 | paired units written as escapes parse to their UTF-8 |
| UnicodePipeline.PipelineIsIdentity | src/graph_convert.cpp:35-101 | any paired unit sequence written as escapes, parsed, and converted gives back the same units |
| UnicodePipeline.HexTextReads | src/internal_json.hpp:225-238 | every 16-bit unit has a four-digit spelling that reads as it |
| Calendar.DaysAreCounted | src/graph_convert.cpp:109-119 | for every year, month and day from 1 to 99, the closed form equals the count of days by summed year and month lengths, days beyond a month's end counting on |
| Calendar.DayZero | src/graph_convert.cpp:109-119 | day 0 counts as the day before the first if and only if it is not March of a year divisible by 400, where the unsigned sum wraps |
| Calendar.EarlierCountsLess | src/graph_convert.cpp:109-119 | an earlier date has a smaller count |
| IsoTime.ParseInt | src/graph_convert.cpp:123-136 | the decimal value of the field, or which error |
| IsoTime.ReadFraction | src/graph_convert.cpp:163-189 | the value of the first seven digits, zeros for missing ones, and the end of the digit run |
| IsoTime.ReadOffset | src/graph_convert.cpp:191-209 | the offset in seconds with its optional parts, unknown characters ignored |
| IsoTime.IsoToFiletimeTicks | src/graph_convert.cpp:140-228 | the ticks or the first error, in the order of the code, the product wrapping at 64 bits |
| IsoTime.TicksOfStamp | src/graph_convert.cpp:140-228 | every written time stamp of a valid date converts to its calendar instant, zone offset taken off, or is refused exactly when it lies before 1601 |
| IsoGrammar.TakesExactly | src/graph_convert.cpp:140-228 | which texts are taken, and what each other text is refused for: its length, its first wrong character, or what follows its sign |
| IsoGrammar.TicksOfText | src/graph_convert.cpp:140-228 | the instant of every text that is taken, read off its characters, for months from 1 to 12 and days from 1, whatever the time of day and whatever follows |
| IsoTime.TicksAreMonotone | src/graph_convert.cpp:140-228 | for UTC stamps from 1601 on, tick order is exactly the order of date, time and first seven fraction digits |
| Base64.Strip | src/graph_convert.cpp:257-266 | blanks are removed everywhere, padding only at the end |
| Base64.CharacterDecoded | src/graph_convert.cpp:273-282 | one turn of the loop emits the octet its bits complete although the accumulator has lost its high bits |
| Base64.ValueIsPlace | src/graph_convert.cpp:243-253 | the value of a character is its place in the alphabet of RFC 4648 |
| Base64.SameNumber | src/graph_convert.cpp:273-282 | four groups and their three octets are the same 24-bit number |
| Base64.DecodeBinary | src/graph_convert.cpp:255-284 | failure exactly on a character outside the alphabet; otherwise the octets of the six-bit groups |
| Base64.DecodesEncoded | src/graph_convert.cpp:255-284 | any text that is the RFC 4648 encoding of some bytes, with any padding and blanks anywhere, decodes to those bytes |
| Base64.SextetsOfOctets | src/graph_convert.cpp:273-282 | the six-bit groups come back from the octets if and only if the dropped bits are zero and no single group is left over |
| Base64.EncodesDecoded | src/graph_convert.cpp:255-284 | encoding what a text was decoded to gives exactly that text if and only if it has no blanks, the right padding and zeros in the dropped bits |

## Left out

- Heap.BuildHeapOnNode: assumes that header and allocations end at or below 65532 and that slots fit 16 bits; beyond that the original's 16-bit offsets wrap and it copies outside its buffer.
- PropertyContext.BuildPropertyContext: the same assumption, for lists that pass every check made before the heap is laid out (the body cap is only compared afterwards, src/ltp.cpp:486); null value pointers are not modelled.
- PropertyReader.WrittenIsRead: the value of a promoted property is its subnode id; the subnode's bytes are compared in `SubnodeIdNamesEntry`.
- TableBuilder.BuildTableContext: assumes four-byte columns that lie inside the row, because slots are patched without a bounds check, and at most 8186 columns for a table without rows, whose heap is built whatever its size; null row pointers are not modelled.
- Messaging.BuildFolderHierarchyTc: an empty payload stands for a null pointer or a zero size, which the original treats alike.
- ContentsTable.BuildFolderContentsTc: the same; the signed fields are modelled by their 32 stored bits.
- Page.BuildAMap: assumes that the covered range ends below 2^64.
- ImageWriter.WriteM5Pst: assumes that a file within the block and node limits ends below 2^64.
- Assembly.EncodeBlocks: nothing is claimed about the signatures of more than 2^64 bytes of blocks.
- Chunks.Scheduler.SchedulePayload: assumes that the 62-bit id counters do not run out.
- ScheduleRun.ScheduleContent: in the order of messages (subnodes, own block, subnode list); Contents tables schedule the list before their own block, which only swaps ids.
- PstRun.WriteContents: node bodies are below 65536 bytes, as every heap is; nothing is claimed about subnodes that share an id, or about nodes that do, since the order std::sort gives equal keys is unspecified.
- PageDamage.FailsExactly: assumes that the entries a readable page counts lie in the file; beyond it the original's reads are undefined.
- NbtReader.NbtFind: a read past the end of the file inside a damaged page is an error of the model, where the original's behaviour is undefined.
- JsonText.ParserUndoesPrinter: numbers are kept as their token text, and whether the platform's conversion accepts a token is a parameter; nesting depth limits of the call stack are not modelled.
- Utf8.UnitsRoundTrip: says nothing about overlong UTF-8 forms, which the original accepts; `DecodesExactly` says what they decode to.
- IsoGrammar.TicksOfText: says nothing about month 00 and months above 12, nor about day 00, for which see `Calendar.DayZero`.
- File and console input and output, and the failures of opening, writing and closing files.
- The older single-tree writers writeBlocksPst and writeXBlockPst (src/writer.cpp:177-533) and the contact and event writers, which repeat writeM7Pst in simpler form.
- The property catalogues of messages, contacts, events and the message store, the extraction of fields from JSON, and hash helpers: each claim about them is settled by one branch.
- Multi-valued string encoding, subnode index blocks, and the FAI, recipient and attachment tables; the recipient table sets all existence bits, even for empty names (src/mail.cpp:602-603).
- Distinctness of subnode ids within a message: attachments reuse the message's first subnode id (src/mail.cpp:1446).
- The presence of all 27 mandatory nodes: 0x802E and 0x802F are neither in the baseline nor added (src/pst_baseline.cpp:169-170).
- The environment switch PSTWRITER_OMIT_RFT (src/pst_baseline.cpp:130-136).
