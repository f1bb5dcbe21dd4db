# Verification model of selected support code

This project models the self-contained algorithms and small protocols in the support layers of
the media process platform and proves what they are for. The Dafny files are grouped by the
source they follow; `dafny verify dfyconfig.toml` checks everything.

| files | source | what is proved |
|---|---|---|
| `StableMerge`, `RunSizes`, `PendingRuns`, `ListSort` | osal/mpp_list.c | the bottom-up merge sort on heap nodes: stability, permutation, a well-formed ring, equal in-loop merges, 2:1 closing merges |
| `SplitLine` | mpp/mpp_sys.c | the in-place tokenizer equals a functional one and undoes quoting |
| `Dictionary` (module `Dictionaries`) | utils/dictionary.c | the hash-tagged arrays refine a finite map through growth and wrap-around probing |
| `CType`, `IniLine`, `IniFile`, `IniRoundTrip`, `IniSurvival`, `IniParser` | utils/iniparser.c | exactly which entries, sections and whole dictionaries come back from being dumped and loaded, down to the imperative code |
| `RoiMap`, `RoiBits`, `RoiRecord` | utils/mpp_enc_roi_utils.c | region painting, reordering, and the 512-bit records of the newer chips, down to single bits |
| `MetaProtocol`, `KmppMeta` | kmpp/base/kmpp_meta.c | the lock-free slots as interleaved atomic steps, and the consuming map they are one call at a time |
| `SThread`, `SThreadGroup` | osal/mpp_thread.c | the simple threads and their groups as interleaved steps |
| `AxbDivC` | osal/mpp_common.c | accuracy and overflow of `axb_div_c` |
| `Pixels` | mpp/mpp_impl.c, utils/utils.c | the 10-bit unpackers agree |
| `MemPool`, `MemTrack`, `BufferGroups` | osal/mpp_mem_pool.c, osal/mpp_mem.c, mpp/mpp.c | ownership and bookkeeping |

## How to read it

Code that works in place is a class or a method on arrays whose `ensures` equates the new state
with a specification function of the old one; the promises are then lemmas about that function.
Strings are `seq<char>`, a C string in a buffer is the bytes before its NUL, files are the text
read or written. Concurrent code is a machine of steps with theorems over every run.

Some things that look natural are not true of the code. Each is kept as the code has it, with a
lemma that shows it and a lemma that says exactly when the code does what one would expect:

- An entry whose value starts like a quoted string, holds `;` or `#`, or ends in a backslash does
  not survive being dumped and loaded, nor does one whose line looks like a section
  (`IniLine.SemicolonLost`, `IniLine.EntrySurvives`). A line `[]` keeps the first byte of the
  previous section name (`IniLine.StaleName`, `IniLine.SectionParsed`), so that an empty section
  name survives only in front of all others (`IniSurvival.SurvivesIff`).
- A dictionary that has entries and no section is dumped key by key, and every load puts one more
  colon in front of the keys (`IniRoundTrip.PlainLoads`, `IniSurvival.PlainSurvivesIff`).
- An empty argument vanishes in `split_line`: empty quotes start no token
  (`SplitLine.EmptyArgumentLost`, `SplitLine.QuotedListSurvives`).
- The region check compares pixels, the painter rounds origin and size up separately; off the
  block grid an accepted region can leave the grid (`RoiMap.UnalignedBounds`, `RoiMap.InGridIff`)
  and be painted into the next row or below the buffer (`RoiMap.RegionSpills`,
  `RoiMap.RegionLeavesBuffer`, `RoiMap.HitsCovers`, `RoiMap.FitsIff`). Nor does the check keep the
  marks of a region in `cu_map` (`RoiMap.MarksLeaveMap`, `RoiMap.MarksFitIff`). It lets negative
  flags through, of which the bit fields keep the low bit (`RoiMap.NegativeFlag`,
  `RoiMap.CfgKept`).
- When every block of a CTU is adjusted, the 8x8 nodes carry the flags of the last block on top of
  those of their own block (`RoiRecord.StrayIntra`, `RoiRecord.SmallNodeDecodes`), and they have
  no quantizer of their own, only the last block's or none (`RoiRecord.OtherQpDecodes`).
- A set that overwrites while another thread gets can leave a metadata slot READY without VALID,
  which then refuses every get for good (`MetaProtocol.OverwriteSticks`, `MetaProtocol.StuckIff`).
- `mpp_sthd_stop_sync` joins while it holds the lock that a waiting worker needs to come back
  (`SThread.JoinDeadlocks`, `SThread.JoinReturnsIff`). A group does not notice a create that fails
  (`SThreadGroup.FailedCreate`, `SThreadGroup.AgreesIff`).
- The cast at the end of `axb_div_c` can wrap (`AxbDivC.CastWraps`, `AxbDivC.NoWrapIff`).
- The full dump of 10-bit lines unpacks whole groups of eight pixels into a buffer for the width
  (`Pixels.GroupsFit`).

The C standard's `sscanf` formats are modelled after section 7.19.6.2 of ISO/IEC 9899:1999.
Signed overflow, undefined in C, is taken to wrap.

## Model

| member | source | states |
|---|---|---|
| `ListSort.Sort` | osal/mpp_list.c:531-598 | `list_sort` on heap nodes: for every ring and every total preorder the ring at head afterwards is the stable sort of the nodes, `next` and `prev` inverse; the merges made are the counted ones, one less than there are elements, equal while counting and within a factor of two at the end |
| `ListSort.MergeRuns` | osal/mpp_list.c:447-473 | `merge` relinks two null-terminated runs in place into the stable merge, older run first on ties, touching only their nodes |
| `ListSort.MergeFinal` | osal/mpp_list.c:482-529 | `merge_final` gives the same order and restores `prev`, so that the nodes form a ring at head |
| `ListSort.Round` | osal/mpp_list.c:560-583 | one round keeps the invariant of the comment: pending is the prev-linked list of sorted consecutive runs with the sizes the counter fixes, and the merge it makes, if any, is the one the counter asks for |
| `ListSort.MergePending` | osal/mpp_list.c:564-575 | the merge selected by the low bits of the counter, spliced into the list of runs in place of its inputs |
| `ListSort.FindTail` | osal/mpp_list.c:565-566 | chasing `prev` over the trailing ones of the counter never meets NULL and stops at the run before the two to merge |
| `ListSort.MergeAll` | osal/mpp_list.c:585-597 | the merges after the input ends, the last included, join each remaining run with everything newer and leave the sorted ring |
| `ListSort.OpenRing` | osal/mpp_list.c:533-540 | the test `head->next == head->prev` is exactly zero or one element |
| `StableMerge.MergeOfSorts` | osal/mpp_list.c:447-473 | merging the stable sorts of two adjacent slices is the stable sort of both together, whatever order of merges is used |
| `StableMerge.MergeElems` | osal/mpp_list.c:447-473 | a merge keeps all elements of both runs |
| `StableMerge.MergeSorted` | osal/mpp_list.c:447-473 | a merge of sorted runs is sorted |
| `StableMerge.MergeTies` | osal/mpp_list.c:453-454 | equal elements keep their order, those of `a` first |
| `StableMerge.StableSortIsStable` | osal/mpp_list.c:531-598 | the specification is sorted, a permutation, and keeps the order of equal elements |
| `StableMerge.StableSortUnique` | osal/mpp_list.c:531-598 | any list with those three properties is that specification |
| `RunSizes.RoundSizes` | osal/mpp_list.c:542-582 | the low bits of the counter select two equal pending sizes, and merging them and adding a one gives the sizes for the next count |
| `RunSizes.SizesSum` | osal/mpp_list.c:542-559 | the pending sizes add up to the count |
| `RunSizes.SizeIsPow2` | osal/mpp_list.c:542-559 | every pending size is a power of two |
| `RunSizes.SizesOrdered` | osal/mpp_list.c:542-559 | sizes grow from the front and at most two are equal |
| `RunSizes.FinalMergeBalance` | osal/mpp_list.c:551-554 | at every count each pending size is within a factor of two of everything newer |
| `RunSizes.MergesBalanced` | osal/mpp_list.c:531-598 | sorting n elements takes n - 1 merges: those made while counting join equally long runs, those at the end runs within a factor of two |
| `PendingRuns.RoundRuns` | osal/mpp_list.c:560-583 | one round turns the sorted slices for a count into those for the next |
| `PendingRuns.RunsMerge` | osal/mpp_list.c:567-575 | merging two neighbouring equal runs is again the list of sorted slices |
| `PendingRuns.RunsApart` | osal/mpp_list.c:542-559 | different runs share no node |
| `PendingRuns.ClosingStep` | osal/mpp_list.c:585-597 | a closing merge turns a sorted slice and the run before it into a longer sorted slice |
| `SplitLine.SplitLine` | mpp/mpp_sys.c:117-217 | `split_line`: argv points at exactly the tokens of the original line, each NUL-terminated where there is room, in order and without overlap; nothing past the line or past argc is written |
| `SplitLine.EmitToken` | mpp/mpp_sys.c:129-211 | one token is read, terminated and handed out without touching the tokens handed out before |
| `SplitLine.ReadToken` | mpp/mpp_sys.c:140-200 | the write index never passes the read index, so every byte is read before it is overwritten, and the bytes collected are the functional token |
| `SplitLine.Terminate` | mpp/mpp_sys.c:202-204 | the NUL lands behind the token, never inside it |
| `SplitLine.TokenAsCString` | mpp/mpp_sys.c:208-209 | a reader of the pointer sees the token |
| `SplitLine.SplitOfWritten` | mpp/mpp_sys.c:129-209 | for every list of arguments, each bare, single-quoted or double-quoted with escapes, splitting the joined line gives the non-empty ones back, cut at maxargv |
| `SplitLine.QuotedListSurvives` | mpp/mpp_sys.c:129-209 | a list of strings survives double-quoting, joining and splitting if and only if it fits in argv and has no empty string |
| `SplitLine.EmptyArgumentLost` | mpp/mpp_sys.c:155-199 | a line with an empty quoted argument, which vanishes |
| `SplitLine.BodyOfEscaped` | mpp/mpp_sys.c:161-199 | reading an escaped string between its quote marks collects the string itself |
| `SplitLine.BodyOfBare` | mpp/mpp_sys.c:155-199 | outside quotes everything but blanks and quote marks, a backslash included, belongs to the token |
| `Dictionaries.Dictionary.constructor` | utils/dictionary.c:150-166 | a new dictionary has at least 128 empty slots and is the empty map |
| `Dictionaries.Dictionary.Set` | utils/dictionary.c:255-298 | a set is a map update, whatever the hashes; a NULL key is refused with -1 |
| `Dictionaries.Dictionary.Insert` | utils/dictionary.c:279-297 | a new key goes to a free slot, after growing a full dictionary |
| `Dictionaries.Dictionary.Probe` | utils/dictionary.c:286-291 | the wrap-around probe ends at a free slot whenever fewer slots are taken than exist |
| `Dictionaries.Dictionary.Get` | utils/dictionary.c:209-227 | a get returns the stored value or the default |
| `Dictionaries.Dictionary.Unset` | utils/dictionary.c:314-349 | an unset removes the key from the map, or does nothing |
| `Dictionaries.Dictionary.Grow` | utils/dictionary.c:68-101 | growing doubles the slots and keeps the map |
| `Dictionaries.Dictionary.Find` | utils/dictionary.c:215-225 | the search by tag and key finds the slot exactly when the key is stored |
| `Dictionaries.Hash` | utils/dictionary.c:118-137 | the hash loop in 32-bit arithmetic; NULL hashes to zero |
| `Dictionaries.FreeSlot` | utils/dictionary.c:286-288 | the pigeonhole behind the probe: fewer keys than slots leaves a free slot |
| `Dictionaries.OccupiedIsCardinality` | utils/dictionary.c:279-298 | the number of occupied slots, which `n` counts, is the number of keys |
| `Dictionaries.MapOfPut` | utils/dictionary.c:270-296 | writing a free slot, or the slot of the key, is a map update and keeps the keys distinct |
| `Dictionaries.MapOfDrop` | utils/dictionary.c:340-348 | clearing a slot removes its key and keeps the others |
| `Dictionaries.MapOfPadded` | utils/dictionary.c:88-99 | empty slots added behind change neither map nor count |
| `IniLine.EntrySurvives` | utils/iniparser.c:633-698 | printing an entry and loading the line gives the entry back if and only if key and value are printable; the condition is spelled out |
| `IniLine.SectionSurvives` | utils/iniparser.c:653-658 | a printed section line gives its name back, whatever section was read before, if and only if the name is printable |
| `IniLine.KeyShape` | utils/iniparser.c:659-690 | every key the line parser reports, for any line, is trimmed, lower-case, non-empty and free of `=` |
| `IniLine.EntryParsed` | utils/iniparser.c:633-698 | how any value is read back from a printed line: quotes, comment marks and blanks included |
| `IniLine.CommentDropped` | utils/iniparser.c:659-690 | a `;` or `#` comment behind a value, empty values included, does not change what is read |
| `IniLine.SectionParsed` | utils/iniparser.c:653-658 | what any printed section line leaves in the section buffer, the stale name included |
| `IniLine.SemicolonLost` | utils/iniparser.c:663-674 | a value with a semicolon, which is cut there |
| `IniLine.StaleName` | utils/iniparser.c:653-658 | the line `[]`, which leaves the first byte of the section read before |
| `CType.StripStripped` | utils/iniparser.c:91-109 | stripping gives a string without blanks at the ends, and changes nothing exactly when there are none |
| `CType.LowerKeeps` | utils/iniparser.c:45-57 | lower-casing is idempotent and keeps blanks and punctuation |
| `CType.TrimCommute` | utils/iniparser.c:99-105 | trimming left and right commute, so the two loops of the strip give one result |
| `IniFile.LoadUndoesDump` | utils/iniparser.c:258-320 | for every well-formed dictionary, loading the text that the dump prints gives the same map, section entries, empty values and a leading empty section name included |
| `IniSurvival.SurvivesIff` | utils/iniparser.c:258-320 | for every dictionary whatsoever, dumping it and loading the text gives it back if and only if it is well formed: printable one-line names and entries whose lines fit, every section of an entry present, no empty name but the first |
| `IniSurvival.LoadedWithin` | utils/iniparser.c:714-808 | what a dump can load as: never more keys and brackets than its lines hold, and if not fewer, never more backslashes, whatever lines are joined, cut or taken for sections |
| `IniSurvival.LoadsLineStep` | utils/iniparser.c:748-761 | a line that does not fit the buffer behind what was kept aborts the load, any other is one step of it |
| `IniRoundTrip.WellFormedReads` | utils/iniparser.c:296-320 | every line of the dump of a well-formed dictionary is read as what it was printed for |
| `IniRoundTrip.PlainLoads` | utils/iniparser.c:267-275 | what the dump of entries without any section loads as: every key with a colon in front, with the value read from its line |
| `IniSurvival.PlainSurvivesIff` | utils/iniparser.c:267-275 | a dictionary without sections comes back if and only if it is empty |
| `IniFile.SectionsLoaded` | utils/iniparser.c:277-280 | dumped sections are read back one by one, with all their entries and nothing else |
| `IniFile.EntriesLoaded` | utils/iniparser.c:307-317 | all entries of a section are read back under that section |
| `IniFile.ContinuedLine` | utils/iniparser.c:772-779 | a line that ends in a backslash and the next one load as if they were one line |
| `IniFile.LoadsLine` | utils/iniparser.c:748-803 | a line that fits the buffer is read whole, and the rest of the file is loaded from there |
| `IniFile.SplitKey` | utils/iniparser.c:311-315 | a key is printed under exactly the section in front of its first colon |
| `IniParser.Strstrip` | utils/iniparser.c:91-109 | the in-place strip leaves the stripped C string and returns its length |
| `IniParser.Strlwc` | utils/iniparser.c:45-57 | lower-cases at most len - 1 bytes, also in place |
| `IniParser.IniparserLine` | utils/iniparser.c:633-698 | the line parser over its buffers leaves what the functional parser says, for each of the five results |
| `IniParser.Fgets` | utils/iniparser.c:748-748 | `fgets` at an offset of the line buffer: one chunk up to a newline, the room or the end of the file, and whether the end was met |
| `IniParser.TrimLine` | utils/iniparser.c:763-771 | the loop that cuts blanks off the end of the line, and the index it leaves |
| `IniParser.Dispatch` | utils/iniparser.c:780-801 | what the switch on the line status stores in the dictionary |
| `IniParser.Round` | utils/iniparser.c:748-808 | one round of the load loop, with continuation, the length check, NUL bytes in the file and the stale section buffer |
| `IniParser.IniparserLoad` | utils/iniparser.c:714-820 | the load over the bytes of a file: NULL exactly when a line is too long or malformed, otherwise a dictionary with the specified map |
| `IniParser.GetNSec` | utils/iniparser.c:164-179 | counts the keys without a colon |
| `IniParser.GetSecName` | utils/iniparser.c:195-215 | the n-th of them in slot order, NULL if there is none |
| `IniParser.FindEntry` | utils/iniparser.c:579-586 | looks up the lower-cased name cut to the buffer |
| `IniParser.DumpSection` | utils/iniparser.c:296-320 | writes exactly the section text of the specification |
| `IniParser.DumpIni` | utils/iniparser.c:258-282 | writes exactly the dump of the specification, with and without sections |
| `IniParser.SaveAndLoad` | utils/iniparser.c:258-320 | dumping a dictionary object and loading the text gives an object with the same contents if and only if it is well formed |
| `RoiMap.GenVepu54xRoi` | utils/mpp_enc_roi_utils.c:223-352 | every cell of the padded grid gets the configuration of the last region that writes it, in flat buffer positions as the code counts them, and `cu_map` is marked; all default and unmarked when a region is rejected |
| `RoiMap.CheckRegions` | utils/mpp_enc_roi_utils.c:252-273 | accepts exactly the regions inside the picture with allowed flags and quantizer |
| `RoiMap.PaintRegion` | utils/mpp_enc_roi_utils.c:278-347 | one region writes exactly the cells of its rectangle and marks exactly its map cells, also where they run over the end of a row |
| `RoiMap.ResetMap` | utils/mpp_enc_roi_utils.c:234-245 | the whole padded grid is set to the default and the map is cleared |
| `RoiMap.CoversIntersects` | utils/mpp_enc_roi_utils.c:280-285 | for an origin on the block grid the covered blocks are those that share a pixel with the region |
| `RoiMap.HitsCovers` | utils/mpp_enc_roi_utils.c:280-313 | an accepted region writes the blocks it covers and, exactly when it overhangs a full row, the first block of the row below each of its rows |
| `RoiMap.FitsIff` | utils/mpp_enc_roi_utils.c:301-313 | an accepted region stays in the buffer exactly when its rows do, with one row more if it overhangs a full row |
| `RoiMap.FlatIsGrid` | utils/mpp_enc_roi_utils.c:280-313 | regions inside the grid are painted where they should be: every block shows the last region over it, or the default |
| `RoiMap.ConfigAtLast` | utils/mpp_enc_roi_utils.c:275-313 | the last region over a block decides its configuration |
| `RoiMap.ConfigAtUncovered` | utils/mpp_enc_roi_utils.c:229-245 | a block under no region has the default |
| `RoiMap.AlignedBounds` | utils/mpp_enc_roi_utils.c:288-291 | for accepted regions on the block grid the upper asserted bounds hold, and all four do if and only if the origin lies inside the picture |
| `RoiMap.InGridIff` | utils/mpp_enc_roi_utils.c:280-291 | an accepted region breaks an upper asserted bound exactly when, in one direction, origin and size both lie off the block grid, fit one block together beyond it, and the far edge lies in the last block |
| `RoiMap.RoundingCost` | utils/mpp_enc_roi_utils.c:280-285 | rounding origin and size up separately costs one block exactly when both lie off the grid and their remainders fit one block |
| `RoiMap.UnalignedBounds` | utils/mpp_enc_roi_utils.c:280-291 | a region that passes the check and breaks the asserted bound |
| `RoiMap.RegionSpills` | utils/mpp_enc_roi_utils.c:280-313 | a region that passes the check and is painted into the next row |
| `RoiMap.RegionLeavesBuffer` | utils/mpp_enc_roi_utils.c:280-313 | a region that passes the check and would be painted below the buffer |
| `RoiMap.InGridFits` | utils/mpp_enc_roi_utils.c:288-313 | regions within the asserted bounds stay in the buffer |
| `RoiMap.CfgKept` | utils/mpp_enc_roi_utils.c:293-299 | the bit fields keep an accepted configuration if and only if its flags are not negative and the quantizer fits seven bits |
| `RoiMap.NegativeFlag` | utils/mpp_enc_roi_utils.c:258-299 | a negative flag that passes the check and is stored as one |
| `RoiMap.RelativeKept` | utils/mpp_enc_roi_utils.c:261-299 | a relative quantizer that passes the check is always kept |
| `RoiMap.MarksCover` | utils/mpp_enc_roi_utils.c:315-347 | for HEVC a region marks the CTU of every block it covers |
| `RoiMap.MarksFitIff` | utils/mpp_enc_roi_utils.c:315-347 | the marks of a region stay in a map of that many CTUs exactly when the cell marked last lies in one of its rows |
| `RoiMap.MarksLeaveMap` | utils/mpp_enc_roi_utils.c:315-347 | a region that passes the check and whose marks leave the map of its picture |
| `RoiMap.StridesAgree` | utils/mpp_enc_roi_utils.c:226-229 | the painter's stride and the stride of the reorder agree for every size |
| `RoiMap.Vepu54xH265SetRoi` | utils/mpp_enc_roi_utils.c:189-221 | slot 16 * ctu + c of the result is block c of that CTU |
| `RoiMap.RasterInjective` | utils/mpp_enc_roi_utils.c:206-216 | the reorder reads inside the grid and no block twice |
| `RoiMap.RasterOnto` | utils/mpp_enc_roi_utils.c:206-216 | the reorder reads every block |
| `RoiMap.RoiMapH265` | utils/mpp_enc_roi_utils.c:856-857 | painting and reordering together show at every slot what was painted at that block |
| `RoiMap.ShowsLast` | utils/mpp_enc_roi_utils.c:856-857 | for regions inside the grid that is the last region over the block |
| `RoiBits.SetRoiPosVal` | utils/mpp_enc_roi_utils.c:355-362 | ORs any value into one word of one record; the values 0 and 1 set exactly one bit or none and disturb no other bit or word |
| `RoiRecord.FieldsDisjoint` | utils/mpp_enc_roi_utils.c:364-386 | no field of the 85 nodes straddles a 32-bit word, leaves the record or overlaps another |
| `RoiRecord.Zscan16IsZOrder` | utils/mpp_enc_roi_utils.c:182-187 | the 16-entry table is the z-order of the 16x16 blocks |
| `RoiRecord.Scan8IsZOrder` | utils/mpp_enc_roi_utils.c:171-180 | the 64-entry table is the z-order of the 8x8 blocks |
| `RoiRecord.Z16Involution` | utils/mpp_enc_roi_utils.c:182-187 | raster order and z-order of the 16 blocks are inverse to themselves |
| `RoiRecord.SetRoiBaseCfg` | utils/mpp_enc_roi_utils.c:388-420 | the four fields of one node, and nothing else |
| `RoiRecord.SetRoiCu16SplitCu8` | utils/mpp_enc_roi_utils.c:512-531 | the flags of a 16x16 block go to its four 8x8 nodes |
| `RoiRecord.SetRoiQpCfg` | utils/mpp_enc_roi_utils.c:422-430 | one quantizer entry, and nothing else |
| `RoiRecord.VisitBlock` | utils/mpp_enc_roi_utils.c:567-584 | what is written for one of the 16 blocks |
| `RoiRecord.FinishCtu` | utils/mpp_enc_roi_utils.c:589-612 | after the last block the record and the table are complete, in each of the three cases of the adjust count |
| `RoiRecord.GenCtu` | utils/mpp_enc_roi_utils.c:558-614 | the record of a marked CTU is exactly the bits of its 16 source blocks and its table exactly their quantizers |
| `RoiRecord.GenVepu580RoiH265` | utils/mpp_enc_roi_utils.c:533-632 | every marked CTU gets its record and table, every other CTU is all zero |
| `RoiRecord.RecordIs` | utils/mpp_enc_roi_utils.c:558-614 | the OR-ed writes together are exactly the 512 bits of the record's definition |
| `RoiRecord.RecordDecodes` | utils/mpp_enc_roi_utils.c:364-386 | reading a field back gives the node's flag |
| `RoiRecord.BlockDecodes` | utils/mpp_enc_roi_utils.c:576-583 | node 64 + z(c) carries the intra and adjust flags of source block c |
| `RoiRecord.QpDecodes` | utils/mpp_enc_roi_utils.c:584-584 | node 64 + z(c) carries the quantizer of source block c |
| `RoiRecord.SplitDecodes` | utils/mpp_enc_roi_utils.c:589-612 | the split bits of nodes 64 to 84 are set exactly when some but not all 16 blocks are adjusted |
| `RoiRecord.SmallNodeDecodes` | utils/mpp_enc_roi_utils.c:588-602 | an 8x8 node carries the flag of its block, except exactly when every block is adjusted and the last one has the flag and its own does not |
| `RoiRecord.StrayIntra` | utils/mpp_enc_roi_utils.c:588-602 | a CTU whose first block is not intra and whose first 8x8 node is |
| `RoiRecord.LargeNodeDecodes` | utils/mpp_enc_roi_utils.c:588-598 | the 32x32 and 64x64 nodes carry a flag exactly when every block is adjusted and the last one has it |
| `RoiRecord.OtherQpDecodes` | utils/mpp_enc_roi_utils.c:588-602 | all nodes but the 16x16 ones carry the quantizer of the last block when every block is adjusted, and none otherwise |
| `RoiRecord.RoiRecordsH265` | utils/mpp_enc_roi_utils.c:867-875 | from regions to records: in every CTU that some region marks, the node of each 16x16 block carries what was painted there, and the other CTUs are empty |
| `RoiRecord.CarriesLast` | utils/mpp_enc_roi_utils.c:867-875 | for regions inside the grid, the record of every block under a region carries the last region over it |
| `MetaProtocol.EveryRunBalanced` | kmpp/base/kmpp_meta.c:202-240 | in every interleaving of any number of setters and getters, size plus claimed-but-uncounted sets minus consumed-but-uncounted gets is the number of VALID slots, and size alone is once all calls have returned |
| `MetaProtocol.StuckArises` | kmpp/base/kmpp_meta.c:298-310 | a slot becomes READY without VALID exactly when a setter marks it ready after a getter consumed it |
| `MetaProtocol.StuckForever` | kmpp/base/kmpp_meta.c:298-310 | such a slot stays so in every continuation |
| `MetaProtocol.StuckRefuses` | kmpp/base/kmpp_meta.c:298-310 | on such a slot every get fails and no set claims it |
| `MetaProtocol.OverwriteSticks` | kmpp/base/kmpp_meta.c:293-315 | a run of three calls on two threads that ends in a stuck slot |
| `MetaProtocol.StuckIff` | kmpp/base/kmpp_meta.c:293-328 | over any run, from any state, a slot gets stuck if and only if some step of the run marks it ready while it is not VALID |
| `MetaProtocol.NeverStuck` | kmpp/base/kmpp_meta.c:293-328 | which never happens in a run from the start in which no get consumes a slot while a set on it is in progress |
| `MetaProtocol.SoloRuns` | kmpp/base/kmpp_meta.c:293-328 | a call that runs alone is a run of the machine of atomic steps |
| `MetaProtocol.SoloSet` | kmpp/base/kmpp_meta.c:334-359 | a set that runs alone leaves the slot valid and ready with its value |
| `MetaProtocol.SoloGet` | kmpp/base/kmpp_meta.c:361-377 | a get that runs alone empties the slot |
| `KmppMeta.Meta.constructor` | kmpp/base/kmpp_meta.c:87-105 | a new object holds nothing |
| `KmppMeta.Meta.SetVal` | kmpp/base/kmpp_meta.c:293-303 | one call at a time, a set is a map update; an unknown key is refused |
| `KmppMeta.Meta.GetVal` | kmpp/base/kmpp_meta.c:304-315 | a get consumes: it returns the value and removes the key, or fails |
| `KmppMeta.Meta.GetValOr` | kmpp/base/kmpp_meta.c:316-328 | the getter with a default never fails on a known key |
| `KmppMeta.Meta.SetObj` | kmpp/base/kmpp_meta.c:334-359 | stores the shared memory addresses of an object that has them, otherwise the object |
| `KmppMeta.Meta.GetObj` | kmpp/base/kmpp_meta.c:361-377 | returns and removes the object pointer, whichever setter stored it |
| `KmppMeta.Meta.GetObjOr` | kmpp/base/kmpp_meta.c:379-397 | the same with a default |
| `KmppMeta.Meta.SetShm` | kmpp/base/kmpp_meta.c:399-425 | stores an address pair, or zeros for NULL |
| `KmppMeta.Meta.GetShm` | kmpp/base/kmpp_meta.c:427-444 | returns and removes both addresses |
| `KmppMeta.Meta.Size` | kmpp/base/kmpp_meta.c:262-265 | the size is the number of keys held |
| `KmppMeta.MapSize` | kmpp/base/kmpp_meta.c:202-240 | the number of keys held is the number of VALID slots |
| `SThread.EveryRun` | osal/mpp_thread.c:378-611 | in every interleaving of controllers and worker, creates minus joins is one exactly when the status is RUNNING, WAITING or STOPPING, and WAITING is shown exactly during a wait no stop has interrupted |
| `SThread.NextInv` | osal/mpp_thread.c:378-611 | what every single step keeps: lock, status, worker and counters fit together |
| `SThread.StoppingSurvives` | osal/mpp_thread.c:522-611 | STOPPING survives every call and every worker wait until the join |
| `SThread.JoinDeadlocks` | osal/mpp_thread.c:553-561 | `mpp_sthd_stop_sync` joins with the lock held: if the worker is still in a wait, the join does not return in any continuation |
| `SThread.JoinReturnsIff` | osal/mpp_thread.c:553-561 | the join can return if and only if the worker is not in a wait when it begins |
| `SThread.DeadlockReached` | osal/mpp_thread.c:522-569 | setup, start, stop and stop_sync in a row reach that state when the worker waits |
| `SThreadGroup.EveryRunAgrees` | osal/mpp_thread.c:687-806 | when members are driven through the group and no create fails, between group calls every member shows the group's status, with per-member steps of the workers in between |
| `SThreadGroup.MoveAgrees` | osal/mpp_thread.c:687-806 | what every visit of a member and every worker step keeps |
| `SThreadGroup.AgreesIff` | osal/mpp_thread.c:687-806 | over any run from the fresh group, members and group agree if and only if no create has failed |
| `SThreadGroup.LostForever` | osal/mpp_thread.c:718-806 | a member whose create failed stays without a thread in every continuation |
| `SThreadGroup.CreateDecides` | osal/mpp_thread.c:732-735 | a visit of the start call keeps the agreement if and only if the create succeeds |
| `SThreadGroup.FailedCreate` | osal/mpp_thread.c:718-775 | after a failed create the group stops a member that has no thread |
| `AxbDivC.AxbDivC` | osal/mpp_common.c:49-99 | `axb_div_c` with its loops in wrapping 32-bit arithmetic returns the specified result |
| `AxbDivC.DivideBackDecides` | osal/mpp_common.c:59-60 | the divide-back test accepts exactly the products that fit 32 bits |
| `AxbDivC.FindLeft` | osal/mpp_common.c:84-87 | the loop finds the largest left shift below 31 bits |
| `AxbDivC.FindRight` | osal/mpp_common.c:89-90 | the loop finds the smallest right shift that brings b down to c |
| `AxbDivC.ShiftBack` | osal/mpp_common.c:84-84 | shifting left and back loses nothing exactly when the value fits 32 bits |
| `AxbDivC.ProductFits` | osal/mpp_common.c:95-97 | the unsigned product never exceeds 32 bits |
| `AxbDivC.SlowPathAccuracy` | osal/mpp_common.c:92-98 | the value r before the cast satisfies r <= |a b / c| < r + min(|a|, |b|) / 2^shift + 1 |
| `AxbDivC.SaturationOnlyAbove` | osal/mpp_common.c:92-93 | saturation happens only for |a b / c| above 2^30 |
| `AxbDivC.NoWrapIff` | osal/mpp_common.c:95-97 | the result is the signed value of r if and only if the shift is positive, or the larger argument divided by c times the smaller is below 2^31, or is 2^31 with a negative sign; a quotient below 2^31 guarantees it |
| `AxbDivC.CastWraps` | osal/mpp_common.c:96-97 | an input for which the cast wraps |
| `Pixels.PixelIsTenBits` | mpp/mpp_impl.c:142-155 | pixel j is bits 10j to 10j+9 of the line, and nothing else |
| `Pixels.RearrangePix` | mpp/mpp_impl.c:142-155 | `rearrange_pix` (the same code stands in utils/utils.c:47-60) writes the eight pixels of its group and no other |
| `Pixels.UnpackLine` | mpp/mpp_impl.c:238-241 | a line of the full dump, of any width, is the pixels of all its groups in order, and nothing behind them is written |
| `Pixels.GroupsFit` | mpp/mpp_impl.c:230-241 | the line buffer of `width` pixels holds the groups if and only if the width is a multiple of eight |
| `Pixels.FetchedIs` | mpp/mpp_impl.c:129-134 | the two-byte shift and mask is the ten-bit pixel shifted right by two |
| `Pixels.SampleIsPixel` | mpp/mpp_impl.c:124-140 | `fetch_data` of a 10-bit line is that pixel shifted right by two |
| `Pixels.SampleLine` | mpp/mpp_impl.c:180-185 | a line of the sampled dump agrees with every step-th pixel of the full dump |
| `MemPool.Pool.Get` | osal/mpp_mem_pool.c:228-271 | returns a zeroed block that no one holds; reuses the first unused node or allocates one |
| `MemPool.Pool.Put` | osal/mpp_mem_pool.c:273-301 | moves the node back, or rejects a block that is not handed out, of this pool or of none |
| `MemPool.Pool.Partition` | osal/mpp_mem_pool.c:228-301 | used and unused partition the nodes ever allocated, a node is its own check exactly while used, and their number is the peak of used |
| `MemPool.PutTwice` | osal/mpp_mem_pool.c:283-287 | a second put of the same block changes nothing |
| `MemTrack.MemSrv.AddNode` | osal/mpp_mem.c:361-398 | a new pointer is recorded in a free node, or the table is full |
| `MemTrack.MemSrv.DelNode` | osal/mpp_mem.c:400-424 | a live pointer is removed and its size returned |
| `MemTrack.MemSrv.ResetNode` | osal/mpp_mem.c:308-333 | a live pointer is replaced by the new one with its size |
| `MemTrack.MemSrv.AddLog` | osal/mpp_mem.c:335-359 | one more operation in the ring |
| `MemTrack.MemSrv.DumpLog` | osal/mpp_mem.c:214-234 | the walk visits exactly the last min(k, log_max) operations in the order they happened |
| `MemTrack.MemSrv.OsalMalloc` | osal/mpp_mem.c:640-668 | a malloc is logged and recorded |
| `MemTrack.MemSrv.OsalRealloc` | osal/mpp_mem.c:680-723 | a realloc is logged and replaces the record; of NULL it is a malloc, to size zero it does nothing |
| `MemTrack.MemSrv.OsalFree` | osal/mpp_mem.c:725-758 | a free is logged with the recorded size and removes the record |
| `MemTrack.LiveUpdate` | osal/mpp_mem.c:361-424 | writing one node of the table changes exactly one entry of the live map |
| `MemTrack.RingAdd` | osal/mpp_mem.c:335-359 | adding to the ring keeps the last operations in their slots |
| `BufferGroups.Mpp.SetExtBufGroup` | mpp/mpp.c:1364-1419 | the control switches between internal and external mode; before the decoder is initialized it is refused |
| `BufferGroups.Mpp.SetExternal` | mpp/mpp.c:1394-1418 | the internal group in use is put, the callback moves to the new external group |
| `BufferGroups.Mpp.SetInternal` | mpp/mpp.c:1378-1393 | from external mode the callback is taken off and the group is let go without a put; in internal mode the group is kept and its buffers are cleared |
| `BufferGroups.Mpp.NeedGroup` | mpp/codec/mpp_dec_normal.c:565-567 | an internal group is created only when there is none |
| `BufferGroups.Mpp.Clear` | mpp/mpp.c:269-337 | at the end every internal group was put exactly once, no external group ever, and no callback is left |
| `BufferGroups.Lifetime` | mpp/mpp.c:1364-1419 | the same for every run of controls and buffer needs followed by the clear |

## Left out

- Allocation failure: every allocation is taken to succeed, except that a system allocator's NULL is recorded as such in `MemTrack`.
- Locale: `isspace` and `tolower` are those of the C locale, and bytes above 127 are neither blanks nor letters.
- The periodic call `cmp(priv, b, b)` in `merge_final`, which only gives the caller a chance to yield, and side effects of `cmp`.
- Logging, debug prints and `mpp_assert`, which logs.
- IniFile.SectionText: the source prints the section name into a buffer of 1025 bytes (utils/iniparser.c:307), which a name of 1024 bytes or more overruns; the model writes the section text for names of any length.
- Partial results of a failing `sscanf`: what it leaves in the key and value buffers is not specified, as the next format overwrites it.
- The numeric and boolean getters of the ini parser, and the file handles themselves.
- The rest of osal/mpp_list.c: the keyed and counted list around `list_sort`.
- RoiMap.GenVepu54xRoi: writes outside the grid buffer or `cu_map`, which the region check does not rule out, have no defined effect and are excluded by its precondition; `RoiMap.FitsIff` and `RoiMap.MarksFitIff` say when there are none. The map may be larger than the CTUs of the picture. Picture sizes given as negative numbers are not modelled.
- The H.264 packing in `gen_vepu580_roi_h264`, which copies fields block by block.
- MetaProtocol.EveryRunBalanced: atomic operations are taken to be sequentially consistent, and the 32-bit size not to wrap.
- The lookup tables behind `meta_key_to_addr` and the getter of an address pair with a default.
- SThread.EveryRun: creation and destruction of the lock and condition variable, `mpp_sthd_put`, and calls of the worker on its own object are not steps of the machine; the status fields are values of a machine state, not object fields, so that steps of several threads can interleave.
- SThreadGroup.EveryRunAgrees: members are driven through the group only, as the calls on a single member do not look at the group.
- AxbDivC.AxbDivC: arguments equal to INT_MIN where the code would negate them, which C leaves undefined.
- Pixels.UnpackLine: takes a line buffer with room for all groups, which the allocated one has only for some widths.
- MemPool.Pool.Put: a block that another pool handed out and that passes the check; the service list of pools and their final release.
- MemTrack.MemSrv.OsalFree: the poison mode with its delayed-free ring and the extra-room mode.
- BufferGroups.Mpp.SetExternal: the notification of the decoder when an external group is ready.
- BufferGroups.Mpp.Clear: the queues, lists and threads that the clear also takes down, and encoder contexts.
- Hardware access, task ports, SoC tables, option handlers, configuration defaults, test patterns and timers.
