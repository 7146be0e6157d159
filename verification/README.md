# xArchive in Dafny

xArchive keeps a small filesystem inside one archive file. The file starts
with a header:

- a tag;
- the allocation unit;
- an allocation table of 1024 32-bit words, one bit per allocation unit;
- an inline copy of the root directory node.

After the header come allocation units holding directory nodes and file
payloads. A directory node has a tag, a parent offset, a `Next` offset
linking it to an overflow node, an entry count and 16 entry slots. Each
entry has a 32-character name, an offset, a size and a type. The engine
(`Archive`) keeps a cursor, the current directory. The cursor is an offset,
a copy of that offset's node, and a textual path.

The model has these modules, one per file:

| module | file | what it models |
|---|---|---|
| `Helpers` | helpers.dfy | the string helpers of `xArchiveHelpers.h`: prefix and suffix tests, storing a name in a fixed buffer, join, split on a non-empty separator, and the byte swap |
| `Layout` | layout.dfy | the records of `xArchive.h` with their sizes and tags; the entry constructors; a directory node both as a value (`DirectoryImage`) and as an object updated in place (`ArchiveDirectory`) |
| `DirectoryTree` | directory_tree.dfy | path resolution (`_GetDirectoryOffset`), listing, entry lookup (`_GetEntry`), the chain walk of the create operations and the normalization of the textual cursor, all as functions over the stored nodes |
| `Allocator` | allocator.dfy | the bitmap allocator (`ArchiveAllocator`) as a class whose methods change the table in place with the source's own word and bit counters; each owner callback is recorded as an event |
| `ArchiveFile` | archive_file.dfy | `CompressedArchiveFile`: the uncompressed content as a growable byte buffer with a cursor |
| `ArchiveEngine` | archive.dfy | `Archive` as a class, and a specification function on an `EngineState` value for every operation; each method is proved equal to its function |
| `EngineProperties` | engine_properties.dfy | properties that relate several engine operations |
| `TreeFrame` | tree_frame.dfy | the frame argument for one creation: when a store grows by one entry appended to one node (and perhaps one overflow link), every path that resolved still resolves to the same offset, and the listing of the receiving chain gains exactly the new name |
| `CreateProperties` | create_properties.dfy | the creation properties for any archive in good order (`Orderly`), and for any number of creations in one directory |

The archive file is modelled as a `Store`, a map from a byte offset to the
block last written there. A block is either a directory node or a payload
of bytes. A flush of the allocation table writes the whole header. In the
store, a flush therefore writes the header's copy of the root at the root
offset (4104), whether or not that copy is current. The allocation base is
the header size, 4824. Both numbers are derived from the record
declarations (`Layout.LayoutSizes`).

Several behaviours of the source are modelled as written and stated as
lemmas:

- The entry search in `_GetDirectoryOffset` has no `break`
  (`DirectoryTree.NoBreakDescendsTwice`).
- `_GetEntry` searches only the head node of the parent directory
  (`DirectoryTree.LookupHeadOnly`).
- A one-component absolute path is resolved from the cursor
  (`DirectoryTree.OneComponentAbsoluteUsesCursor`).
- The allocator's index conventions disagree: `Allocate` returns a byte
  offset, which `Free`, `Shrink` and `Expand` read as a unit number
  (`Allocator.RunPositionIsOffset`, `Allocator.FreeMissesAllocatedUnit`). So
  the number of units in use does not follow the live allocations
  (`Allocator.FreeKeepsCount`).
- The root's overflow link is lost when the root fills up
  (`EngineProperties.RootOverflowState`, `EngineProperties.RootOverflowLinkLost`).

The creation properties are proved for any archive in good order
(`CreateProperties.Orderly`), not only a fresh one: a created file reads
back as written, the parent's listing gains the new name, and after any
number of creations in one directory its listing ends with the new names in
creation order. `TreeFrame` carries the frame argument: a creation grows one
node by one entry, and every path that avoids the new name still resolves to
the same offset.

## Model

| member | source | states |
|---|---|---|
| Helpers.NulIndex | xArchive/xArchiveHelpers.h:52 | the position of the first NUL, or the length: no NUL before it, and a NUL at it when it is inside the string |
| Helpers.CStrOfNoNul | xArchive/xArchiveHelpers.h:52 | a string without NUL is its own C-string view |
| Helpers.StringStartsWith | xArchive/xArchiveHelpers.h:45-59 | the pointer loop answers true exactly when `b`, read up to its first NUL, is a prefix of `a`, read up to its first NUL; an empty `b` gives true |
| Helpers.StringEndsWith | xArchive/xArchiveHelpers.h:61-75 | the backward loop answers true exactly when `b` is a suffix of `a` |
| Helpers.StoreCString | xArchive/xArchiveHelpers.h:85-86 | the buffer after a store keeps its length; it holds the string, a NUL after it, a NUL in the last slot, and its old contents in between |
| Helpers.StringToArray | xArchive/xArchiveHelpers.h:77-87 | fails with the array untouched exactly when the string and its NUL do not fit; otherwise the array becomes `StoreCString` of its old contents |
| Helpers.JoinLength | xArchive/xArchiveHelpers.h:93-96 | the joined length is the sum of the element lengths plus one separator fewer than there are elements |
| Helpers.JoinSnoc | xArchive/xArchiveHelpers.h:101-107 | joining a sequence with one more element appends a separator and that element |
| Helpers.StringJoin | xArchive/xArchiveHelpers.h:89-110 | the append loop produces the elements in order with a separator between neighbours only (`""` for none) |
| Helpers.FindSepSpec | xArchive/xArchiveHelpers.h:125-135 | `FindSep` gives the first occurrence of the separator at or after a position, or the end, with none before it |
| Helpers.FindSepUnique | xArchive/xArchiveHelpers.h:125-135 | a position with a separator and none before it is the one `FindSep` finds |
| Helpers.SplitStep | xArchive/xArchiveHelpers.h:123-141 | one round of the split emits the text up to the next separator and goes on after it |
| Helpers.PartialMatch | xArchive/xArchiveHelpers.h:127-135 | a separator that matches only in part does not occur at that position |
| Helpers.StringSplit | xArchive/xArchiveHelpers.h:112-142 | the three nested pointer loops produce exactly the components `Split` defines |
| Helpers.SkipToSepStart | xArchive/xArchiveHelpers.h:125 | the first inner loop stops at the end or at a character equal to the separator's first, skipping no occurrence of the separator |
| Helpers.MatchSep | xArchive/xArchiveHelpers.h:127-129 | the second inner loop counts how much of the separator follows the position, and stops at the first mismatch |
| Helpers.SplitPush | xArchive/xArchiveHelpers.h:137-140 | emitting a component and moving both cursors past the separator keeps the remaining components equal to the split of the rest |
| Helpers.SplitEmpty | xArchive/xArchiveHelpers.h:123 | the empty string splits into no components |
| Helpers.SplitLeadingSep | xArchive/xArchiveHelpers.h:123-141 | a leading separator yields a leading empty component |
| Helpers.SplitNoSep | xArchive/xArchiveHelpers.h:112-142 | no component contains the separator |
| Helpers.SplitNoNul | xArchive/xArchiveHelpers.h:112-142 | the components of a string without NUL are without NUL |
| Helpers.JoinNoNul | xArchive/xArchiveHelpers.h:89-110 | joining strings without NUL with a separator without NUL gives a string without NUL |
| Helpers.JoinSplit | xArchive/xArchiveHelpers.h:89-142 | joining the components of a string that does not end in the separator gives that string back |
| Helpers.SplitTrailingSep | xArchive/xArchiveHelpers.h:123-141 | a final separator adds an empty component only when the text before it is empty or already ends in the separator |
| Helpers.BSwap | xArchive/xArchiveHelpers.h:10 | byte k of the result is byte 3-k of the argument |
| Helpers.BSwapInvolution | xArchive/xArchiveHelpers.h:10 | swapping twice gives the value back |
| Layout.LayoutSizes | xArchive/xArchive.h:57-110 | an entry takes 44 bytes and a node 720; the root lies at offset 4104 and the header ends at 4824, right after the root |
| Layout.MagicValues | xArchive/xArchive.h:42-48 | the three tags, stored as little-endian words of `ARCH`, `DIR ` and `FILE`, are pairwise distinct |
| Layout.NulName | xArchive/xArchive.cpp:84 | a cleared name buffer: 32 NUL characters |
| Layout.NulIndexStore | xArchive/xArchiveHelpers.h:85 | the first NUL after a stored name is the one right after the name's own text |
| Layout.NewEntry | xArchive/xArchive.cpp:87-94 | the entry constructor succeeds exactly when the name has at most 31 characters, and the stored name then reads back as the name up to its first NUL |
| Layout.DirectoryEntry | xArchive/xArchive.cpp:96-99 | a directory entry has the directory type and the node size 720, and fails on a name that is too long |
| Layout.FileEntry | xArchive/xArchive.cpp:101-104 | a file entry has the file type and the given size, and fails on a name that is too long |
| Layout.NewDirectory | xArchive/xArchive.cpp:106-114 | a new node is tagged, has the given parent, no `Next`, no entries in use and cleared slots |
| Layout.HasFreeSlot | xArchive/xArchive.cpp:155-158 | true exactly when fewer than 16 entries are in use |
| Layout.Added | xArchive/xArchive.cpp:116-124 | fails with "out of memory" exactly when all 16 slots are in use; otherwise the entries in use become the old ones plus the new one at the end, and the other slots and fields are unchanged |
| Layout.Removed | xArchive/xArchive.cpp:126-137 | fails on an empty node and on an index not in use; otherwise the entries in use are the old ones with entry `n` removed, in order |
| Layout.EntryAt | xArchive/xArchive.cpp:139-153 | the entry at an index in use, and "out of range" otherwise |
| Layout.AddThenRemoveLast | xArchive/xArchive.cpp:116-137 | removing the entry just added restores the entries in use |
| Layout.AddThenGet | xArchive/xArchive.cpp:116-153 | the entry just added is found at the old count |
| Layout.RemoveThenGet | xArchive/xArchive.cpp:126-153 | after a removal at `n`, the entry in use at `k >= n` is the one that was at `k+1` |
| Layout.ArchiveDirectory.Image | xArchive/xArchive.h:80-95 | the node object's value has 16 slots and at most 16 in use |
| Layout.ArchiveDirectory.constructor | xArchive/xArchive.cpp:106-114 | a new node object has the value `NewDirectory(parent)` |
| Layout.ArchiveDirectory.Load | xArchive/xArchive.cpp:507-508 | a node object copied from a node read from the file has that node's value |
| Layout.ArchiveDirectory.HasFreeSpace | xArchive/xArchive.cpp:155-158 | agrees with `HasFreeSlot` on the object's value |
| Layout.ArchiveDirectory.GetEntry | xArchive/xArchive.cpp:139-153 | agrees with `EntryAt` on the object's value |
| Layout.ArchiveDirectory.AddEntry | xArchive/xArchive.cpp:116-124 | the object's new value is `Added` of its old value; on failure it is unchanged |
| Layout.ArchiveDirectory.RemoveEntry | xArchive/xArchive.cpp:126-137 | the shifting loop leaves the object with the value `Removed` of its old value; on failure it is unchanged |
| DirectoryTree.ReadNode | xArchive/xArchive.cpp:493-509 | succeeds exactly when a tagged node is stored at a non-zero offset, and returns that node; otherwise "corrupted" |
| DirectoryTree.Scan | xArchive/xArchive.cpp:460-473 | the entry loop: without a match the position is unchanged; a matching file gives "not a directory"; a match moves into that directory and the loop goes on there |
| DirectoryTree.SearchChain | xArchive/xArchive.cpp:458-482 | the search ends on a well-formed node, or fails with "not a directory", "not found" or "corrupted" |
| DirectoryTree.Step | xArchive/xArchive.cpp:445-482 | each path component leads to a well-formed node |
| DirectoryTree.Walk | xArchive/xArchive.cpp:441-483 | walking a path's components leads to a well-formed node |
| DirectoryTree.Resolve | xArchive/xArchive.cpp:427-486 | resolution of an absolute path starts at the root offset, and of any other path at the cursor; it ends on a well-formed node |
| DirectoryTree.ScanSkips | xArchive/xArchive.cpp:460-473 | entries whose names do not match are skipped |
| DirectoryTree.ScanNoMatch | xArchive/xArchive.cpp:460-473 | a node without a matching name leaves the position as it was |
| DirectoryTree.FirstMatchIsFile | xArchive/xArchive.cpp:464-467 | when the first match is a file, the component fails with "not a directory" |
| DirectoryTree.FirstMatchDescends | xArchive/xArchive.cpp:464-471 | when the first match is a directory, the component moves to that directory's offset and node |
| DirectoryTree.SearchMovesAlongChain | xArchive/xArchive.cpp:475-481 | a node without a match hands the search to its `Next` node, keeping the offset |
| DirectoryTree.SearchEndsAtChainEnd | xArchive/xArchive.cpp:475-478 | the last node of the chain without a match gives "not found" |
| DirectoryTree.WalkDot | xArchive/xArchive.cpp:445-446 | a `.` component changes nothing |
| DirectoryTree.WalkDotDot | xArchive/xArchive.cpp:448-456 | `..` fails at a node with parent 0, and otherwise moves to the parent |
| DirectoryTree.ResolveRoot | xArchive/xArchive.cpp:434-439 | `/` resolves to the root offset with the header's copy of the root |
| DirectoryTree.ResolveCursor | xArchive/xArchive.cpp:429-432 | the empty path and `.` resolve to the cursor |
| DirectoryTree.NoBreakDescendsTwice | xArchive/xArchive.cpp:460-473 | without a `break`, `/x` can descend twice: into `x`, then into the `x` found at a later index of that directory |
| DirectoryTree.SplitOneAbsolute | xArchive/xArchive.cpp:164 | `/name` splits into an empty component and the name |
| DirectoryTree.OneComponentAbsoluteUsesCursor | xArchive/xArchive.cpp:164-178 | the parent path of `/name` is the empty path, which resolves to the cursor rather than the root |
| DirectoryTree.SlashIsEmptyLeaf | xArchive/xArchiveHelpers.h:112-142 | `/` splits into one empty component: its leaf is the empty name and its parent path is the empty path |
| DirectoryTree.AbsoluteParentPath | xArchive/xArchive.cpp:171-175 | an absolute path with two or more components has an absolute parent path |
| DirectoryTree.ParentPathRebuilds | xArchive/xArchive.cpp:164-175 | the joined parent components, a `/` and the leaf give back a path that does not end in `/` |
| DirectoryTree.IsAbsoluteStartsWith | xArchive/xArchive.cpp:434 | on a path without NUL, `IsAbsolute` answers exactly what `StringStartsWith(path, "/")` answers |
| DirectoryTree.Names | xArchive/xArchive.cpp:266-267 | the names of the entries in use, in slot order |
| DirectoryTree.ListFrom | xArchive/xArchive.cpp:264-270 | a listing starts with the node's own names and, when `Next` is 0, is just those names; it fails only with "corrupted" |
| DirectoryTree.ListFollowsNext | xArchive/xArchive.cpp:264-270 | listing a node is its names followed by the listing of its `Next` node |
| DirectoryTree.NamesAdded | xArchive/xArchive.cpp:116-124 | adding an entry appends its name to the node's names |
| DirectoryTree.FirstNamed | xArchive/xArchive.cpp:416-422 | the lowest index in use whose entry has the name, with no earlier match; or none at all |
| DirectoryTree.LookupHeadOnly | xArchive/xArchive.cpp:398-425 | a lookup succeeds exactly when the head node of the parent holds the leaf's name, and returns the first such entry; otherwise "not found" |
| DirectoryTree.List | xArchive/xArchive.cpp:257-273 | a listing that succeeds comes from a path that resolves to a node readable from the file, and starts with that node's names |
| DirectoryTree.Lookup | xArchive/xArchive.cpp:398-425 | an entry that is found carries the leaf's name |
| DirectoryTree.ChainEnd | xArchive/xArchive.cpp:181-188 | the walk ends at the first node of the chain with room or at the last node; a node with room ends it at once |
| DirectoryTree.ChainEndSkipsFull | xArchive/xArchive.cpp:183-187 | a full node with a successor hands the walk to that successor |
| DirectoryTree.NormalizeFrom | xArchive/xArchive.cpp:515-525 | the component stack holds no `.` or `..` and only components from the input; popping an empty stack gives "invalid path" |
| DirectoryTree.Render | xArchive/xArchive.cpp:527-532 | the rendered path starts and ends with `/` |
| DirectoryTree.NormalizedComponents | xArchive/xArchive.cpp:511-525 | the normalized components contain no `.`, `..` or `/` |
| DirectoryTree.Normalize | xArchive/xArchive.cpp:511-533 | normalization succeeds exactly when the components do, and gives `/` or `/c1/.../ck/` |
| DirectoryTree.Entered | xArchive/xArchive.cpp:244-248 | an absolute path replaces the cursor path; any other is appended to it with a trailing `/`, keeping the old path as a prefix; the result is absolute when either input is |
| DirectoryTree.SplitExampleDown | xArchive/xArchiveHelpers.h:112-142 | `a/b/` splits into `a`, `b` |
| DirectoryTree.SplitExampleUp | xArchive/xArchiveHelpers.h:112-142 | `a/b/../` splits into `a`, `b`, `..` |
| DirectoryTree.NormalizeExampleDown | xArchive/xArchive.cpp:244-249 | from `/`, entering `a/b` gives `/a/b/` |
| DirectoryTree.NormalizeFromExampleUp | xArchive/xArchive.cpp:515-525 | the components `a`, `b`, `..` normalize to `a` |
| DirectoryTree.NormalizeExampleUp | xArchive/xArchive.cpp:244-249 | from `/a/b/`, entering `..` gives `/a/` |
| Allocator.SetsThenClears | xArchive/xArchiveAllocator.cpp:141-145 | marking the new run and then freeing the old run is the relocation `MovesRun` |
| Allocator.SectorsNoWrap | xArchive/xArchiveAllocator.cpp:57-58 | for a non-empty request the unit count does not wrap around |
| Allocator.SectorsIsCeiling | xArchive/xArchiveAllocator.cpp:57-58 | for a non-empty request the unit count is the ceiling of size over unit, at least 1 |
| Allocator.ZeroSizeWraps | xArchive/xArchiveAllocator.cpp:57-58 | a zero-byte request wraps around: 0 units with 1-byte units, and 2^20 units (more than the table holds) with 4096-byte units |
| Allocator.LargeUnitWraps | xArchive/xArchiveAllocator.cpp:97-99 | with 2^31-byte units the offset computation wraps around, and unit 2 gets the offset of unit 0, 4824 |
| Allocator.RunPositionIsOffset | xArchive/xArchiveAllocator.cpp:97-99 | applied to the offset `Allocate` returned for unit `i`, the position expansion and shrinking start from is the byte offset of unit `i + k`, not a unit number |
| Allocator.ModAddLeft | xArchive/xArchiveAllocator.cpp:97-99 | the `uint32_t` wrap-around of a sum does not depend on reducing its left operand first |
| Allocator.FirstFit | xArchive/xArchiveAllocator.cpp:63-118 | a result starts a free run of the requested length with no free run of that length before it; no result means no start anywhere is a free run |
| Allocator.FirstFitFrom | xArchive/xArchiveAllocator.cpp:69-118 | the lowest start at or after a unit of a run of free units inside the table, with none before it; or none at all |
| Allocator.FirstFitIs | xArchive/xArchiveAllocator.cpp:69-118 | a free run with no free run before it is the first fit |
| Allocator.FirstFitNone | xArchive/xArchiveAllocator.cpp:69-120 | when no run before a position is free and none fits from it on, nothing fits |
| Allocator.UnitInUseBlocksRuns | xArchive/xArchiveAllocator.cpp:77-85 | a unit in use rules out every run that reaches it |
| Allocator.RelocationDisjoint | xArchive/xArchiveAllocator.cpp:139-145 | a new run found while the old run is still marked never overlaps it |
| Allocator.AllocateFreeRoundTrip | xArchive/xArchiveAllocator.cpp:97-99 | with base 0 and unit 1, freeing what was allocated restores the table |
| Allocator.ExpandShrinkRoundTrip | xArchive/xArchiveAllocator.cpp:158-254 | expanding in place and then shrinking back restores the table |
| Allocator.FreeMissesAllocatedUnit | xArchive/xArchiveAllocator.cpp:97-99 | with base 4824 and unit 4096, the first allocation takes unit 0, but freeing the offset it returned leaves unit 0 in use |
| Allocator.EmptyTableFirstFit | xArchive/xArchiveAllocator.cpp:69-118 | in an empty table every request that fits starts at unit 0 |
| Allocator.Count | xArchive/xArchive.h:102 | the number of units the table marks in use, never more than the table has |
| Allocator.CountFlipped | xArchive/xArchiveAllocator.cpp:101-114 | turning the free units of a range into used units raises the count of every prefix by the number of range units inside it |
| Allocator.CountSetsRange | xArchive/xArchiveAllocator.cpp:101-114 | marking a free run of `n` units raises the count by exactly `n` |
| Allocator.CountClearsRange | xArchive/xArchiveAllocator.cpp:261-278 | freeing a run of `n` units in use lowers the count by exactly `n` |
| Allocator.CountNone | xArchive/xArchive.cpp:27 | the table `Create` zeroes counts no unit in use |
| Allocator.FreeKeepsCount | xArchive/xArchiveAllocator.cpp:97-99 | with base 4824 and 4096-byte units, the first one-byte allocation raises the count from 0 to 1, and `Free` of the offset it returned leaves the count at 1: the count does not follow the live runs |
| Allocator.ArchiveAllocator.constructor | xArchive/xArchiveAllocator.cpp:7-20 | the allocator works on the owner's table with the given unit, base 0 and no callbacks yet |
| Allocator.ArchiveAllocator.SetAllocationBase | xArchive/xArchiveAllocator.cpp:22-25 | sets the base and invokes no callback |
| Allocator.ArchiveAllocator.GetAllocationBase | xArchive/xArchiveAllocator.cpp:27-30 | returns the base |
| Allocator.ArchiveAllocator.FindFreeRun | xArchive/xArchiveAllocator.cpp:63-118 | the scan over words and bits finds exactly `FirstFit`, the lowest free run of the requested length |
| Allocator.ArchiveAllocator.SetRun | xArchive/xArchiveAllocator.cpp:101-114 | exactly the run's units become used and every other unit keeps its flag |
| Allocator.ArchiveAllocator.ClearRun | xArchive/xArchiveAllocator.cpp:261-278 | exactly the run's units become free and every other unit keeps its flag |
| Allocator.ArchiveAllocator.RunIsClear | xArchive/xArchiveAllocator.cpp:203-228 | true exactly when every unit of the run is free |
| Allocator.ArchiveAllocator.AllocateRun | xArchive/xArchiveAllocator.cpp:55-121 | returns `base + i*unit` for the first fit `i` and marks exactly that run, raising the count of units in use by the run length; without a fit, "out of memory" with the table unchanged |
| Allocator.ArchiveAllocator.Allocate | xArchive/xArchiveAllocator.cpp:32-38 | as `AllocateRun`, then exactly one flush callback when it succeeded |
| Allocator.ArchiveAllocator.ExpandRun | xArchive/xArchiveAllocator.cpp:192-254 | all or nothing: when the units after the run are free they all become used; otherwise false with the table unchanged |
| Allocator.ArchiveAllocator.ShrinkRun | xArchive/xArchiveAllocator.cpp:158-190 | frees exactly the units the run no longer needs, counted from the offset as a unit number |
| Allocator.ArchiveAllocator.FreeRun | xArchive/xArchiveAllocator.cpp:256-279 | frees exactly `Sectors(size)` units from the offset taken as a unit number; when those units were all in use, the count falls by the run length |
| Allocator.ArchiveAllocator.Free | xArchive/xArchiveAllocator.cpp:48-53 | as `FreeRun`, then exactly one flush callback |
| Allocator.ArchiveAllocator.ReallocateRun | xArchive/xArchiveAllocator.cpp:123-156 | same size: nothing changes; shrink: frees the tail and keeps the offset; grow in place: marks the following units and keeps the offset; otherwise moves the run to the first fit, asks once for a copy of the old bytes, and frees the old run; failure leaves the table unchanged |
| Allocator.ArchiveAllocator.Reallocate | xArchive/xArchiveAllocator.cpp:40-46 | as `ReallocateRun`, then exactly one flush callback when it succeeded |
| ArchiveFile.Zeros | xArchive/xArchiveFile.cpp:160 | the zero bytes a resize adds |
| ArchiveFile.Written | xArchive/xArchiveFile.cpp:156-166 | the buffer length becomes the larger of the old length and the cursor plus the data length; the data sits at the cursor; other bytes are kept, and new bytes are zero |
| ArchiveFile.ReadOut | xArchive/xArchiveFile.cpp:170-171 | a read copies at most up to the end of the buffer, the bytes starting at the cursor |
| ArchiveFile.WriteThenRead | xArchive/xArchiveFile.cpp:156-174 | reading at the position of a write gives the written data |
| ArchiveFile.WriteAtEndAppends | xArchive/xArchiveFile.cpp:156-166 | writing at the end appends |
| ArchiveFile.ConsecutiveWrites | xArchive/xArchiveFile.cpp:156-166 | two consecutive writes equal one write of both pieces |
| ArchiveFile.WriteKeepsPrefix | xArchive/xArchiveFile.cpp:156-166 | a write leaves the bytes before the cursor alone |
| ArchiveFile.CompressedArchiveFile.constructor | xArchive/xArchiveFile.cpp:98-149 | opening starts with the cursor at 0; a write-only open starts with an empty buffer, and any other open with the file's content |
| ArchiveFile.CompressedArchiveFile.Write | xArchive/xArchiveFile.cpp:156-166 | the buffer becomes `Written` and the cursor advances by the data length |
| ArchiveFile.CompressedArchiveFile.Read | xArchive/xArchiveFile.cpp:168-174 | the destination's first bytes become `ReadOut` and its tail is untouched; the buffer is unchanged; the cursor advances by the requested size, modulo 2^64 |
| ArchiveFile.CompressedArchiveFile.Seek | xArchive/xArchiveFile.cpp:176-189 | the three origins set the cursor to offset, cursor plus offset or length plus offset, and never change the buffer; only an unknown origin resizes |
| ArchiveFile.CompressedArchiveFile.Tell | xArchive/xArchiveFile.cpp:191-194 | returns the cursor |
| ArchiveFile.CompressedArchiveFile.Flush | xArchive/xArchiveFile.cpp:196-198 | changes nothing |
| ArchiveFile.CompressedArchiveFile.Close | xArchive/xArchiveFile.cpp:200-211 | stores the buffer as the file's content unless the file was opened read-only |
| ArchiveFile.SeekWriteSeekRead | xArchive/xArchiveFile.cpp:156-182 | seeking to a position, writing, seeking back and reading as many bytes gives the data |
| ArchiveEngine.MarkRun | xArchive/xArchiveAllocator.cpp:105-114 | the table with exactly the run marked used |
| ArchiveEngine.SetsRangeIsMarkRun | xArchive/xArchiveAllocator.cpp:105-114 | marking a run determines the new table |
| ArchiveEngine.Flushed | xArchive/xArchive.cpp:555-559 | a flush stores the header's copy of the root at the root offset and changes nothing else |
| ArchiveEngine.AllocStep | xArchive/xArchiveAllocator.cpp:32-38 | succeeds exactly when a first fit exists, returning its offset after the header, marking exactly that run and flushing the header; otherwise "out of memory" with nothing changed |
| ArchiveEngine.AllocOffsetAfterHeader | xArchive/xArchiveAllocator.cpp:97-99 | with units of at most 128 KiB, an offset handed out lies after the header |
| ArchiveEngine.Mirrored | xArchive/xArchive.cpp:217-227 | the header's root and the cursor are replaced by the written node exactly when their offset is that node's |
| ArchiveEngine.ParentOf | xArchive/xArchive.cpp:164-179 | the parent directory of a path, with its head node as read from the file |
| ArchiveEngine.GrowChain | xArchive/xArchive.cpp:190-201 | a node with room is kept; a full last node gets the first fit as overflow node, is written back with `Next` pointing to it, and an empty node with the same parent becomes the receiver |
| ArchiveEngine.EndAndGrow | xArchive/xArchive.cpp:184-202 | the receiver has room; the cursor and the header's root are unchanged; used units stay used; a start node with room is itself the receiver |
| ArchiveEngine.Prepare | xArchive/xArchive.cpp:160-202 | the receiving node has room; the cursor and the header's root are unchanged; used units stay used; read-only mode fails before any change |
| ArchiveEngine.Insert | xArchive/xArchive.cpp:204-227 | the new block is stored at its offset, the receiving node is written back with the entry added, every other block is kept, and the table is unchanged |
| ArchiveEngine.CreateDirectorySpec | xArchive/xArchive.cpp:160-228 | the cursor offset is kept, used units stay used, and read-only mode fails before any change |
| ArchiveEngine.CreateFileSpec | xArchive/xArchive.cpp:275-340 | the cursor offset is kept, used units stay used, and read-only mode fails before any change |
| ArchiveEngine.OpenModeOf | xArchive/xArchive.cpp:10-18 | read-only exactly when the read-only flag bit is set, and never write-only |
| ArchiveEngine.CheckRead | xArchive/xArchive.cpp:535-539 | fails exactly in write-only mode |
| ArchiveEngine.CheckWrite | xArchive/xArchive.cpp:541-545 | fails exactly in read-only mode |
| ArchiveEngine.HeaderCheck | xArchive/xArchive.cpp:55-59 | "not an archive" when the archive tag is wrong, otherwise "corrupted" when the root's tag is wrong |
| ArchiveEngine.Opened | xArchive/xArchive.cpp:41-76 | after opening, the cursor is the header's root at the root offset |
| ArchiveEngine.InitialHeader | xArchive/xArchive.cpp:20-39 | the header `Create` writes passes the open checks, has the given unit and an empty table |
| ArchiveEngine.FileSize | xArchive/xArchive.cpp:352-358 | the size recorded in the entry the path finds |
| ArchiveEngine.Content | xArchive/xArchive.cpp:377-378 | exactly the entry's size in bytes, from the payload at the entry's offset |
| ArchiveEngine.ReadInto | xArchive/xArchive.cpp:360-382 | "insufficient buffer" when the buffer is shorter than the entry; otherwise the entry's bytes followed by zeros up to the buffer's length |
| ArchiveEngine.WholeFile | xArchive/xArchive.cpp:384-396 | exactly `GetFileSize` bytes, the entry's content |
| ArchiveEngine.EntryOf | xArchive/xArchive.cpp:398-425 | fails with "not readable" in write-only mode; an entry found carries the leaf's name |
| ArchiveEngine.Listing | xArchive/xArchive.cpp:257-273 | fails with "not readable" in write-only mode; a listing that succeeds starts with the names of the resolved node as read from the file |
| ArchiveEngine.Truncated | xArchive/xArchive.cpp:321 | the `size_t` length stored as `uint32_t`: never more than the length, and equal to it below 2^32 |
| ArchiveEngine.Copied | xArchive/xArchive.cpp:561-570 | a payload becomes its first `size` bytes, a prefix of length exactly `size`; a node is kept as it is |
| ArchiveEngine.ParentPathNoNul | xArchive/xArchive.cpp:164-175 | the parent path of a path without NUL has no NUL |
| ArchiveEngine.NormalizeNoNul | xArchive/xArchive.cpp:511-533 | normalizing a path without NUL gives a path without NUL |
| ArchiveEngine.SetCursor | xArchive/xArchive.cpp:235-250 | a failed resolution leaves the cursor and its path unchanged; on success the cursor is the resolved offset with its node as read from the file, and the path is the normalized entered path |
| ArchiveEngine.Archive.State | xArchive/xArchive.h:114-121 | the engine's fields, as a state value |
| ArchiveEngine.Archive.FromHeader | xArchive/xArchive.cpp:61-75 | the allocator works on the header's table with base 4824, and the state is `Opened` |
| ArchiveEngine.Archive.Load | xArchive/xArchive.cpp:41-76 | a header that fails `HeaderCheck` is refused with that error; otherwise the archive is opened in the given mode |
| ArchiveEngine.Archive.Open | xArchive/xArchive.cpp:10-18 | opens in the mode `OpenModeOf` gives, with the header checks of `Load` |
| ArchiveEngine.Archive.Create | xArchive/xArchive.cpp:20-39 | a new archive is read-write, with the state `Opened(InitialHeader(unit))` and the path `/`; the unit defaults to 4096 bytes, as the default argument in xArchive.h does |
| ArchiveEngine.Archive.ScanNode | xArchive/xArchive.cpp:460-473 | the entry loop computes `Scan` |
| ArchiveEngine.Archive.SearchComponent | xArchive/xArchive.cpp:458-482 | the chain loop computes `SearchChain` |
| ArchiveEngine.Archive.GetDirectoryOffset | xArchive/xArchive.cpp:427-486 | computes `Resolve` from the cursor fields: an absolute path starts at the header's root, any other at the cursor |
| ArchiveEngine.Archive.WalkComponents | xArchive/xArchive.cpp:441-483 | the component loop computes `Walk`: `.` stays, `..` moves to the parent (an error at the root), any other name is searched along the chain |
| ArchiveEngine.Archive.SplitLeaf | xArchive/xArchive.cpp:164-175 | the leaf and the parent path, without NUL |
| ArchiveEngine.Archive.GetEntry | xArchive/xArchive.cpp:398-425 | computes `Lookup`: only the head node of the parent is searched |
| ArchiveEngine.Archive.ListDirectory | xArchive/xArchive.cpp:257-273 | computes `Listing`: the names of every node along the chain |
| ArchiveEngine.Archive.ListChain | xArchive/xArchive.cpp:264-270 | the chain loop computes `ListFrom` |
| ArchiveEngine.Archive.AppendNames | xArchive/xArchive.cpp:266-267 | appends the node's names in slot order |
| ArchiveEngine.Archive.GetFileSize | xArchive/xArchive.cpp:352-358 | computes `FileSize` |
| ArchiveEngine.Archive.ReadFile | xArchive/xArchive.cpp:360-382 | on success the buffer becomes `ReadInto`; on failure it is untouched |
| ArchiveEngine.Archive.ReadWholeFile | xArchive/xArchive.cpp:384-396 | computes `WholeFile` |
| ArchiveEngine.Archive.GetCurrentDirectory | xArchive/xArchive.cpp:252-255 | the textual cursor, non-empty and without NUL |
| ArchiveEngine.Archive.NormalizeCurrentDirectoryPath | xArchive/xArchive.cpp:511-533 | the push and pop loop leaves the textual cursor as `Normalize` of the old one; nothing else changes |
| ArchiveEngine.Archive.SetCurrentDirectory | xArchive/xArchive.cpp:235-250 | the new state and textual cursor are `SetCursor` of the old ones |
| ArchiveEngine.Archive.AllocateAndFlush | xArchive/xArchive.cpp:555-559 | the allocation followed by the header flush is `AllocStep` |
| ArchiveEngine.Archive.ReceivingNode | xArchive/xArchive.cpp:162-182 | the write check, the parent lookup and the chain loop together compute `Prepare` |
| ArchiveEngine.Archive.GrowToFreeSlot | xArchive/xArchive.cpp:184-202 | the `while (!HasFreeSpace())` loop, including its allocation and write-back, computes `EndAndGrow` |
| ArchiveEngine.Archive.InsertEntry | xArchive/xArchive.cpp:209-227 | the writes and the mirror rule compute `Insert` |
| ArchiveEngine.Archive.CreateDirectory | xArchive/xArchive.cpp:160-228 | the new state and outcome are `CreateDirectorySpec` |
| ArchiveEngine.Archive.CreateFile | xArchive/xArchive.cpp:275-340 | the new state and outcome are `CreateFileSpec` |
| ArchiveEngine.Archive.ReallocationHandler | xArchive/xArchive.cpp:561-570 | the new offset receives the first `size` bytes of the old block, and nothing else changes |
| EngineProperties.Fresh | xArchive/xArchive.cpp:20-39 | a fresh archive's cursor is its empty root at the root offset |
| EngineProperties.FreshPrepare | xArchive/xArchive.cpp:160-202 | in a fresh archive, the node that receives `/name` is the root |
| EngineProperties.FreshAlloc | xArchive/xArchiveAllocator.cpp:55-117 | the first allocation in a fresh archive returns the header size, 4824 |
| EngineProperties.SectorsAtMostSize | xArchive/xArchiveAllocator.cpp:57-58 | a request takes at least one unit and at most its size in units |
| EngineProperties.RootWith | xArchive/xArchive.cpp:116-124 | the fresh root with one entry added |
| EngineProperties.AfterFirst | xArchive/xArchive.cpp:204-227 | the state after the first creation is sane |
| EngineProperties.FreshCreateFile | xArchive/xArchive.cpp:275-340 | creating `/name` in a fresh archive succeeds and stores the data at 4824, with its entry in the root |
| EngineProperties.AfterFirstLookup | xArchive/xArchive.cpp:398-425 | after the first creation, `/name` finds the new entry |
| EngineProperties.FreshFileRoundTrip | xArchive/xArchive.cpp:275-396 | a file created in a fresh archive reads back as exactly the bytes written (the instance of `CreateProperties.CreateFileReadBack` at the first creation) |
| EngineProperties.PlainNameSplit | xArchive/xArchiveHelpers.h:112-142 | a name without `/` is one component |
| EngineProperties.FreshCreateDirectory | xArchive/xArchive.cpp:160-228 | creating `/name` in a fresh archive succeeds, with an empty node at 4824 whose parent is the root |
| EngineProperties.AfterFirstListing | xArchive/xArchive.cpp:257-273 | after the first creation, listing `/` gives just the new name |
| EngineProperties.AfterFirstEnter | xArchive/xArchive.cpp:427-486 | after the first directory creation, `/name` resolves to the new node |
| EngineProperties.FreshDirectoryListed | xArchive/xArchive.cpp:160-273 | a directory created in a fresh archive is listed under `/` and resolves to a new empty node whose parent is the root (any number of creations inside it: `CreateProperties.FreshDirectoryFilled`) |
| EngineProperties.SetCursorToRoot | xArchive/xArchive.cpp:235-250 | `SetCurrentDirectory("/")` sets the path to `/` and takes the cursor's node from the file, not from the header's copy |
| EngineProperties.CopyKeepsContent | xArchive/xArchive.cpp:561-570 | an entry moved by the copy callback reads back the same bytes at its new offset |
| EngineProperties.AllocAfterHeader | xArchive/xArchiveAllocator.cpp:97-99 | with units of at most 128 KiB, every allocation lies after the header |
| EngineProperties.RootOverflowState | xArchive/xArchive.cpp:296-340 | creating in a full root: the stored root afterwards is the header's stale copy, without the overflow link |
| EngineProperties.RootOverflowLinkLost | xArchive/xArchive.cpp:296-340 | after that creation, listing `/` gives only the old names, and the new file is not found |
| EngineProperties.PrepareReceiver | xArchive/xArchive.cpp:181-202 | the receiving node is the end of the chain walk, or a new empty node with the same parent, linked from a full last node |
| EngineProperties.CreateDirectoryWrites | xArchive/xArchive.cpp:204-227 | a successful CreateDirectory stores a new empty node with the receiving node as parent at the allocated offset, adds a directory entry of size 720 to the receiving node, and applies the mirror rule |
| EngineProperties.CreateFileWrites | xArchive/xArchive.cpp:319-339 | a successful CreateFile stores the data at the allocated offset, adds a file entry with that offset and the data's length, and applies the mirror rule |
| TreeFrame.GrownFields | xArchive/xArchive.cpp:116-124 | a grown node keeps its tag, parent, existing entries and a non-zero `Next`; it has the same entries or one more, the new entry, in the next slot |
| TreeFrame.ReadGrown | xArchive/xArchive.cpp:493-509 | a node read from the old store is read from the grown store too, grown |
| TreeFrame.ScanGrown | xArchive/xArchive.cpp:460-473 | the entry loop over a grown node, for a component other than the new name, ends as on the old node: same match flag, same offset |
| TreeFrame.SearchGrown | xArchive/xArchive.cpp:458-482 | the chain search in the grown store, with at least as much fuel, ends at the same offset as in the old store |
| TreeFrame.SearchGrownFound | xArchive/xArchive.cpp:460-473 | when the head node matches, the search succeeds in both stores at the same offset |
| TreeFrame.NextGrown | xArchive/xArchive.cpp:475-481 | without a match in the head, both searches move to the same `Next` offset and read grown nodes there |
| TreeFrame.StepGrown | xArchive/xArchive.cpp:445-482 | one component leads to the same offset in both stores |
| TreeFrame.WalkGrown | xArchive/xArchive.cpp:441-483 | a path whose components do not include the new name leads to the same offset in both stores |
| TreeFrame.Walked | xArchive/xArchive.cpp:434-441 | the components resolution walks: the split of the path after a leading `/`, or of the whole path |
| TreeFrame.SubsetCard | xArchive/xArchive.cpp:493-509 | a subset has no more elements than its superset (the fuel of a grown store is no smaller) |
| TreeFrame.FuelGrows | xArchive/xArchive.cpp:493-509 | a store with one more block gives its chain walks at least one more step of fuel |
| TreeFrame.ResolveGrown | xArchive/xArchive.cpp:427-486 | a path that resolved before a creation resolves after it to the same offset, when it avoids the new name and its start node (root or cursor) grew |
| TreeFrame.AppendedGrown | xArchive/xArchive.cpp:204-227 | a store where one chain's last node gained the entry (and perhaps an overflow link) is a grown store |
| TreeFrame.NamesRelinked | xArchive/xArchive.cpp:192-195 | setting a node's `Next` does not change its names |
| TreeFrame.ListAppended | xArchive/xArchive.cpp:264-270 | the listing of a chain whose last node received the entry is the old listing followed by the new name |
| CreateProperties.AllocOffsetExact | xArchive/xArchiveAllocator.cpp:97-99 | with units of at most 128 KiB, the offset of unit `i` is `4824 + i*unit` without wrap-around |
| CreateProperties.AllocOffsetInjective | xArchive/xArchiveAllocator.cpp:97-99 | two units of the table never get the same offset |
| CreateProperties.FreeUnitFresh | xArchive/xArchiveAllocator.cpp:97-99 | in an archive in good order, the offset of a free unit lies after the header and holds no block yet |
| CreateProperties.AllocFresh | xArchive/xArchiveAllocator.cpp:55-121 | in an archive in good order, the offset of the first fit lies after the header and holds no block yet |
| CreateProperties.TrackedGrows | xArchive/xArchiveAllocator.cpp:101-114 | marking more units and storing no new block keeps every stored block marked |
| CreateProperties.MarkedAfterAlloc | xArchive/xArchiveAllocator.cpp:101-114 | after the first fit is marked, its offset is marked in use |
| CreateProperties.MarkedGrows | xArchive/xArchiveAllocator.cpp:101-114 | an offset marked in use stays marked when more units are marked |
| CreateProperties.ChainEndFacts | xArchive/xArchive.cpp:181-188 | the chain walk ends on a stored node with `Next` 0, and ends at the root only when it started there |
| CreateProperties.PrepareShape | xArchive/xArchive.cpp:160-202 | preparation keeps good order, the root and the cursor; the receiver is the chain's last node when it has room (nothing changes), and otherwise a new empty node at a fresh, marked offset, linked from the last node |
| CreateProperties.AllocShape | xArchive/xArchiveAllocator.cpp:32-38 | an allocation keeps good order and the store, and returns an offset after the header, unmarked and unstored before, marked after |
| CreateProperties.InsertOrderly | xArchive/xArchive.cpp:204-227 | writing the new block and the receiver with the entry added keeps good order |
| CreateProperties.InsertShape | xArchive/xArchive.cpp:204-227 | the insertion keeps good order, appends the entry to the chain's last node or its new overflow node, stores the block at its new offset, and grows the root and (when in sync) the cursor |
| CreateProperties.InsertInPlace | xArchive/xArchive.cpp:204-227 | as `InsertShape` when the last node has room |
| CreateProperties.InsertOverflow | xArchive/xArchive.cpp:190-227 | as `InsertShape` when the last node is full and a new overflow node receives the entry |
| CreateProperties.OverflowAppended | xArchive/xArchive.cpp:190-227 | the overflow case appends the entry, stores the block, and grows the root and a cursor in sync |
| CreateProperties.PlacedShape | xArchive/xArchive.cpp:160-227 | preparation, allocation and insertion together keep good order, append the entry along the parent's chain and store the block at a fresh offset |
| CreateProperties.CreateFileShape | xArchive/xArchive.cpp:275-340 | a successful `CreateFile` keeps good order, stores the data at a fresh offset, and appends a file entry with the leaf's name and the truncated length to the parent's chain |
| CreateProperties.CreateDirectoryShape | xArchive/xArchive.cpp:160-228 | a successful `CreateDirectory` keeps good order, stores an empty node whose parent is the receiver at a fresh offset, and appends a directory entry with the leaf's name |
| CreateProperties.LeafNoNul | xArchive/xArchive.cpp:166 | the leaf of a path without NUL has no NUL and is its own C-string view |
| CreateProperties.AddedFirstNamed | xArchive/xArchive.cpp:416-422 | after adding an entry with a name not yet in the node, the first slot with that name is the new one |
| CreateProperties.LookupAppended | xArchive/xArchive.cpp:398-425 | after the entry is appended to the parent's head node, `_GetEntry` of the path finds exactly that entry |
| CreateProperties.ReadFound | xArchive/xArchive.cpp:352-396 | once the entry is found and its payload is stored, the size is the entry's and the whole read is the payload's first `size` bytes |
| CreateProperties.CreateFileReadBack | xArchive/xArchive.cpp:275-396 | in any archive in good order, a file created in a parent whose head node has room and no entry of that name has the length written as its size and reads back as the bytes written |
| CreateProperties.ListAppendedAt | xArchive/xArchive.cpp:257-273 | a directory whose chain received the entry still resolves to the same offset and lists the old names followed by the new one |
| CreateProperties.CreateFileListed | xArchive/xArchive.cpp:275-340 | in any archive in good order, a successful `CreateFile` keeps good order and the parent's offset, and the parent's listing becomes the old listing followed by the leaf |
| CreateProperties.CreateDirectoryListed | xArchive/xArchive.cpp:160-228 | in any archive in good order, a successful `CreateDirectory` keeps good order and the parent's offset, and the parent's listing becomes the old listing followed by the leaf |
| CreateProperties.Apply | xArchive/xArchive.cpp:160-340 | either creation keeps the state sane, the cursor offset and the used units, and fails without change in read-only mode |
| CreateProperties.Leaves | xArchive/xArchive.cpp:166 | the leaves of the requests, one per request, in order |
| CreateProperties.ApplyListed | xArchive/xArchive.cpp:160-340 | one creation in directory `dir` keeps good order and `dir`'s offset, and `dir`'s listing gains the new name at its end |
| CreateProperties.SucceedsTail | xArchive/xArchive.cpp:160-340 | a run of successful creations without its first step is still a run of successful creations |
| CreateProperties.FirstStep | xArchive/xArchive.cpp:160-340 | after the first of a run of creations in `dir`, good order and the hypotheses for the rest hold, and the listing gained the first leaf |
| CreateProperties.ApplyAllListed | xArchive/xArchive.cpp:160-340 | after any number of successful creations in a directory other than the root, its listing is the old listing followed by the new names in creation order |
| CreateProperties.AfterFirstOrderly | xArchive/xArchive.cpp:20-39 | the state after the first creation in a fresh archive is in good order |
| CreateProperties.FreshDirectoryFilled | xArchive/xArchive.cpp:20-273 | in a fresh archive, after `CreateDirectory("/name")` and any number of successful creations inside it, listing `/name` gives exactly the new names in creation order |

## Left out

- The allocation table is one flag per unit, numbered `32*word + bit`, rather than 1024 packed 32-bit words. The loops keep the source's word and bit counters, but the bit masks are not modelled.
- Allocator.ArchiveAllocator.AllocateRun: requires `Sectors(size) >= 1`. A zero-byte request wraps around (see `ZeroSizeWraps`). With one-byte units it asks for no units at all, and that case is excluded. With larger units it asks for more units than the table holds, and it fails.
- Allocator.ArchiveAllocator.Allocate: requires `Sectors(size) >= 1`, for the reason given for `AllocateRun`, which it calls.
- Allocator.ArchiveAllocator.ReallocateRun: requires `Sectors(newSize) >= 1`, as `AllocateRun` does, and requires the units the expansion or the shrinking touches to lie inside the table, as `ExpandRun` and `ShrinkRun` do.
- Allocator.ArchiveAllocator.Reallocate: the same preconditions as `ReallocateRun`, which it calls.
- Allocator.ArchiveAllocator.FindFreeRun: where the scan would read the word past the table, the model reports no fit.
- Allocator.ArchiveAllocator.ExpandRun, ShrinkRun, FreeRun: require the units they touch to lie inside the table. Out of range, the source writes past the table.
- Allocator.ArchiveAllocator.Free: requires the units it frees to lie inside the table, as `FreeRun` does, which it calls.
- Allocator.ArchiveAllocator.FreeRun: the count of units in use falls by the run length only when the units it clears were all in use. Because `_Free` reads the offset as a unit number while `Allocate` returns a byte offset (`RunPositionIsOffset`, `FreeMissesAllocatedUnit`), freeing what was allocated can clear other units or none, so the count is not an invariant tying the table to the live allocations (`FreeKeepsCount`).
- Layout.Removed: when all 16 slots are in use, `memmove` reads one slot past the array. The model keeps the last slot as it was, and the contract speaks only of the entries still in use.
- zlib compression and decompression, and the file on disk. A file's content is its uncompressed bytes, loaded and stored whole. `UncompressedArchiveFile` is not part of this model.
- The whitespace branch of `StringSplit` (empty separator) is not modelled. The engine always splits on `/`.
- The stubs `RemoveDirectory`, `UpdateFile` and `RemoveFile` have no behaviour, so they are not modelled.
- The `shared_ptr` deleter `_FreeNonRoot` manages memory only and is not modelled.
- Exceptions are modelled as error values (`Result`). Their types and messages are not modelled.
- Node images are values, not bytes. The store maps each offset to the whole block last written there, so overlapping writes are not modelled.
- Reading a directory entry as a file gives `NoPayload`. In the source, that read copies the node's bytes.
- ArchiveEngine.Archive.ReallocationHandler: copies whole blocks only, and requires the old block to be at least `size` bytes long.
- A chain is followed for at most as many steps as there are stored blocks. A cyclic chain, which the source would follow forever, gives "corrupted".
- `_ReadDirectory(0)` returns a null node, which the resolver would then dereference. The model reports it as "corrupted". So does a node with more than 16 entries in use.
- Paths containing NUL are excluded, because `NoNul` is a precondition. So are paths that split into no components, of which `""` is the only one, for the create and lookup operations, where the source calls `back()` on an empty vector. `"/"` is accepted: it splits into one empty component (`DirectoryTree.SlashIsEmptyLeaf`), so these operations work on an entry with the empty name in the cursor's directory, as the source does.
- A `..` that pops the empty component stack in `_NormalizeCurrentDirectoryPath` is undefined in the source. The model gives "invalid path".
- ArchiveEngine.Archive.Create: requires a non-zero allocation unit; with unit 0 the source divides by zero when it first allocates.
- ArchiveEngine.Archive.Load: requires a non-zero allocation unit. It also checks that the root has at most 16 entries in use, which the source does not.
- ArchiveEngine.Archive.ReceivingNode: computes the leaf before the write check. Both are free of side effects, so the order does not matter.
- ArchiveFile.CompressedArchiveFile.Read: requires the cursor not to be past the end of the buffer. There the source's remaining length `size() - pointer` underflows and the copy reads out of bounds, which is undefined behaviour.
- CreateProperties.CreateFileReadBack, CreateFileListed, CreateDirectoryListed, ApplyAllListed, FreshDirectoryFilled: require allocation units of at most 128 KiB (`0 < unit <= 0x2_0000`, part of `Orderly`). With larger units `base + i*unit` wraps around modulo 2^32, so two units can get the same offset (`Allocator.LargeUnitWraps`: with 2^31-byte units, unit 2 gets 4824 again), and a new block can overwrite an old one. `Archive.Create` accepts any non-zero unit; nothing is promised for those.
- The engine never calls `Reallocate` or `Free`. The model of `_ReallocationHandler` is therefore not connected to the allocator's copy events.
- The engine's own `CompressedArchiveFile` is abstracted into the store. The seeks and writes it performs are stated as store updates.
- CreateProperties.CreateFileReadBack: requires that the parent's head node has room and holds no entry of that name. `_GetEntry` searches the head node only (`LookupHeadOnly`), so a file placed in an overflow node is not found, and an older entry of the same name shadows the new one.
- CreateProperties.CreateFileListed, CreateDirectoryListed, PrepareShape, PlacedShape, CreateFileShape, CreateDirectoryShape: require `RootHasRoom`. When the chain that receives the entry starts at a full root, the overflow link is lost (`RootOverflowLinkLost`), so nothing is promised for that case.
- CreateProperties.ApplyAllListed: requires `dir` to be absolute and not to resolve to the root, so that no creation in the run meets the lost root link and the cursor's stale copy plays no part.
- CreateProperties.CreateFileReadBack, CreateFileListed, CreateDirectoryListed: require `Orderly` (a sane state with a unit of at most 128 KiB, whose stored root is the header's copy, every stored block marked in use, and every linked node full). Creations keep it (the `Orderly` clauses of `CreateFileShape` and `CreateDirectoryShape`), and the first creation in a fresh archive establishes it (`AfterFirstOrderly`). Whether `SetCurrentDirectory` or an archive opened from an arbitrary file keeps it is not proved.
- CreateProperties.CreateFileReadBack, CreateFileListed, CreateDirectoryListed: require the parent path to be absolute or the cursor's copy to be the stored node (`CursorSynced`). A relative path is resolved from the cursor's copy, which a creation elsewhere in its chain leaves stale.
- CreateProperties.CreateFileReadBack, CreateFileListed, CreateDirectoryListed: require the new name not to be a component of the parent path. Because the entry search has no `break` (`NoBreakDescendsTwice`), a new entry with such a name could change where that path resolves.
