# GiST build, SP-GiST scan, small numerics and the jsonbc key dictionary

A Dafny model of four pieces of a PostgreSQL fork:

- **GiST index build** (`gistbuild.c`). This covers three things.
  - The choice of build mode: the `buffering` reloption, the AUTO/STATS switch test and the tuner that picks `levelStep` and `pagesPerBuffer`.
  - The buffering build. Index tuples descend the tree, stop at node buffers every `levelStep` levels, and are pushed on when a buffer overflows. A parent map tracks downlinks so that splits can be propagated. At the end every buffer is emptied level by level, from the top.
  - The sorted loader. It fills leaf pages left to right, sends each closed page's union up as a downlink, and writes the top page at the root block.
- **SP-GiST index scan** (`spgscan.c`, `spgproc.c`).
  - Scan-key preparation turns IS NULL / IS NOT NULL keys into the two search flags.
  - The search queue is a tree of nodes, each holding a chain of work items.
  - The inner and leaf tests decide what to queue or report.
  - One pass of `spgWalk` handles one work item.
  - `spggettuple` returns buffered results in order; `spggetbitmap` adds every match to a bitmap.
- **Small numerics** (`numeric_utils.c`).
  - Reading the header fields of a `Numeric`.
  - `numeric_get_small`, which reads a whole number of at most three base-10000 digits into a `uint32`.
  - `small_to_numeric`, which encodes a `uint32` (read as `int32`) in the short format.
- **jsonbc key dictionary** (`jsonbc_dict.c`).
  - The backend-local cache of id ↔ name pairs in front of the persistent dictionary table.
  - The name comparison the cache's hash tables use.

Pure computations are functions with lemmas. The objects the C code updates in place are classes whose methods are proved against those functions:

- the GiST build state and its node buffers;
- the sorted loader;
- the SP-GiST scan state, its key state and its queue;
- the key dictionary and its table.

Functions the C code calls but does not define are parameters of the model: opclass consistent functions, page placement, `gistchoose`, unions and `smgrnblocks`.

Files:

| file | module | models |
|---|---|---|
| `wrappers.dfy` | `Wrappers` | `Option` and `Result` |
| `numeric_small.dfy` | `NumericSmall` | `numeric_utils.c` |
| `jsonbc_dict.dfy` | `JsonbcDict` | `jsonbc_dict.c` |
| `gist_mode.dfy` | `GistMode` | build modes, the `buffering` option, fill factor |
| `gist_tuner.dfy` | `GistTuner` | the `levelStep` / `pagesPerBuffer` computation |
| `gist_pages.dfy` | `GistPages` | index pages and the parent map |
| `gist_buffers.dfy` | `GistBuffers` | node buffers, the emptying queue, the per-level lists |
| `gist_build.dfy` | `GistBuild` | the buffering build |
| `gist_sorted.dfy` | `GistSorted` | the sorted loader |
| `spg_keys.dfy` | `SpgKeys` | scan-key preparation |
| `spg_queue.dfy` | `SpgQueue` | work items and the search queue |
| `spg_scan.dfy` | `SpgScan` | the scan proper |

## Model

| member | source | states |
|---|---|---|
| NumericSmall.Sign | src/backend/utils/adt/numeric_utils.c:89-92 | the sign is NaN exactly when the flag bits are NaN |
| NumericSmall.DScale | src/backend/utils/adt/numeric_utils.c:93-96 | a short header's scale is bits 7-12, so below 64; a long header's scale is below 0x4000 |
| NumericSmall.Weight | src/backend/utils/adt/numeric_utils.c:97-101 | a short header's weight lies in -64..63 and agrees modulo 128 with the low 7 header bits (sign extension) |
| NumericSmall.NDigits | src/backend/utils/adt/numeric_utils.c:102-105 | the digit count is the bytes after the header divided by the 2-byte digit size |
| NumericSmall.Digits | src/backend/utils/adt/numeric_utils.c:102-105 | the digit array has NDigits entries |
| NumericSmall.Accumulate | src/backend/utils/adt/numeric_utils.c:130-137 | the loop yields the base-10000 value of weight+1 digits (missing digits read as 0) modulo 2^32 |
| NumericSmall.NumericGetSmall | src/backend/utils/adt/numeric_utils.c:107-145 | succeeds exactly when the value is not NaN, has scale 0, weight at most 2 and leading digit at most 20 at weight 2; the output is the value, negated modulo 2^32 when negative |
| NumericSmall.Magnitude | src/backend/utils/adt/numeric_utils.c:156-158 | the absolute value of the argument read as int32, at most 2^31 |
| NumericSmall.DigitsOf | src/backend/utils/adt/numeric_utils.c:160-162 | three base-10000 digits, each below 10000 |
| NumericSmall.HeaderFields | src/backend/utils/adt/numeric_utils.c:169-171 | the short header written reads back as short, with the given sign, scale 0 and the given weight |
| NumericSmall.ShortFields | src/backend/utils/adt/numeric_utils.c:166-174 | a short numeric built from that header and weight+1 digits is well formed and reads back as sign, weight and those digits |
| NumericSmall.SmallToNumeric | src/backend/utils/adt/numeric_utils.c:147-177 | the result is a well-formed short numeric: negative exactly when the int32 reading is negative, scale 0, weight 2/1/0 by magnitude, length HDRSZ_SHORT + 2(weight+1), digits the low weight+1 of the magnitude's digits |
| NumericSmall.WeightOfBounds | src/backend/utils/adt/numeric_utils.c:160-164 | the weight picked from the leading non-zero digit matches the magnitude, and the three digits recompose it |
| NumericSmall.HornerOfDigits | src/backend/utils/adt/numeric_utils.c:160-174 | the digits kept for the chosen weight evaluate back to the magnitude |
| NumericSmall.DecodeShort | src/backend/utils/adt/numeric_utils.c:116-140 | what numeric_get_small gives for a finite short numeric of scale 0 and weight at most 2 |
| NumericSmall.DecodeOfSmall | src/backend/utils/adt/numeric_utils.c:107-177 | decoding an encoded value fails exactly on a leading digit above 20, and otherwise restores the magnitude with its sign |
| NumericSmall.SignOfMagnitude | src/backend/utils/adt/numeric_utils.c:139-140 | negating the magnitude modulo 2^32 restores every value read as negative int32 |
| NumericSmall.RoundTrip | src/backend/utils/adt/numeric_utils.c:107-177 | numeric_get_small(small_to_numeric(v)) succeeds exactly when the int32 magnitude of v is at most 2,099,999,999, and then gives back v |
| NumericSmall.IntMinRejected | src/backend/utils/adt/numeric_utils.c:126-128 | INT_MIN is encoded with leading digit 21 and is refused when read back |
| JsonbcDict.Memcmp | src/backend/utils/adt/jsonbc_dict.c:43-53 | comparing equal-length byte strings gives -1, 0 or 1, and 0 exactly when they are equal |
| JsonbcDict.MemcmpAntisymmetric | src/backend/utils/adt/jsonbc_dict.c:43-53 | swapping the arguments negates the comparison |
| JsonbcDict.MemcmpTransitive | src/backend/utils/adt/jsonbc_dict.c:43-53 | the byte comparison is transitive |
| JsonbcDict.NameMatchZeroIff | src/backend/utils/adt/jsonbc_dict.c:43-53 | name_match is 0 exactly when both names have the same length and bytes |
| JsonbcDict.NameMatchByLength | src/backend/utils/adt/jsonbc_dict.c:43-53 | names of different lengths compare by length |
| JsonbcDict.NameMatchAntisymmetric | src/backend/utils/adt/jsonbc_dict.c:43-53 | name_match is antisymmetric |
| JsonbcDict.NameMatchTransitive | src/backend/utils/adt/jsonbc_dict.c:43-53 | name_match orders names transitively |
| JsonbcDict.IdOf | src/backend/utils/adt/jsonbc_dict.c:116-139 | the table's id for a name is the 1-based position of a row holding it, and none exactly when no row holds it |
| JsonbcDict.NameAt | src/backend/utils/adt/jsonbc_dict.c:173-199 | a row exists exactly for ids 1..rows, and holds a name of the table |
| JsonbcDict.IdNameInverse | src/backend/utils/adt/jsonbc_dict.c:109-209 | in a table of distinct names, looking up the name of an id gives back that id |
| JsonbcDict.DictTable.constructor | src/backend/utils/adt/jsonbc_dict.c:116-139 | the dictionary table starts empty |
| JsonbcDict.DictTable.SelectOrInsert | src/backend/utils/adt/jsonbc_dict.c:116-139 | the upsert returns the existing row's id, or appends the name and returns the new id; the names stay distinct |
| JsonbcDict.DictTable.SelectName | src/backend/utils/adt/jsonbc_dict.c:173-199 | the select returns the row's name, none when no row has the id |
| JsonbcDict.KeyDictionary.constructor | src/backend/utils/adt/jsonbc_dict.c:55-81 | a backend starts uninitialized with empty caches |
| JsonbcDict.KeyDictionary.CheckInit | src/backend/utils/adt/jsonbc_dict.c:55-81 | the first call creates both empty tables; later calls change nothing |
| JsonbcDict.KeyDictionary.AddEntry | src/backend/utils/adt/jsonbc_dict.c:83-106 | both directions of the pair are entered, replacing earlier entries for either key |
| JsonbcDict.KeyDictionary.GetIdByNameSlow | src/backend/utils/adt/jsonbc_dict.c:109-149 | returns the table's id (inserting the name if missing) and caches the pair; the cache stays coherent with the table |
| JsonbcDict.KeyDictionary.GetIdByName | src/backend/utils/adt/jsonbc_dict.c:151-164 | a cached name returns its id with no table access; otherwise the table's id is returned and cached |
| JsonbcDict.KeyDictionary.GetNameByIdSlow | src/backend/utils/adt/jsonbc_dict.c:166-209 | returns and caches the table's name for the id, or {NULL, 0} with nothing cached when no row has it |
| JsonbcDict.KeyDictionary.GetNameById | src/backend/utils/adt/jsonbc_dict.c:211-224 | the name is present exactly when the table has the id, and then it is the table's name |
| JsonbcDict.KeyDictionary.GetIdByNameSql | src/backend/utils/adt/jsonbc_dict.c:229-241 | the id returned names exactly the given text in the table |
| JsonbcDict.KeyDictionary.GetNameByIdSql | src/backend/utils/adt/jsonbc_dict.c:243-254 | the result is SQL NULL exactly when no row has the id, else the row's name |
| JsonbcDict.LookupTwice | src/backend/utils/adt/jsonbc_dict.c:151-164 | two lookups of one name give the same id |
| GistMode.FreeSpace | src/backend/access/gist/gistbuild.c:535 | free space is BLCKSZ·(100−fillfactor)/100 rounded down, within 0..BLCKSZ |
| GistMode.FreeSpaceAntitone | src/backend/access/gist/gistbuild.c:535 | a larger fill factor never leaves more free space |
| GistMode.ValidateBufferingOption | src/backend/access/gist/gistbuild.c:634-647 | accepted exactly when the value is present and is "on", "off" or "auto" |
| GistMode.AcceptedOptionRoundTrip | src/backend/access/gist/gistbuild.c:510-533 | each accepted value selects a distinct starting mode that names it back |
| GistMode.UnvalidatedOptionIsAuto | src/backend/access/gist/gistbuild.c:510-533 | no options, or a rejected value, start in AUTO |
| GistMode.StartIsNeverActive | src/backend/access/gist/gistbuild.c:510-533 | the build never starts in ACTIVE |
| GistMode.TerminalModes | src/backend/access/gist/gistbuild.c:906-917 | DISABLED and ACTIVE are never left |
| GistMode.AutoSwitch | src/backend/access/gist/gistbuild.c:906-917 | AUTO moves exactly at multiples of 256 tuples with the cache smaller than the index, and only to the tuner's verdict |
| GistMode.StatsSwitch | src/backend/access/gist/gistbuild.c:906-917 | STATS moves exactly once 4096 tuples were indexed, and only to the tuner's verdict |
| GistMode.ModeOrder | src/backend/access/gist/gistbuild.c:906-917 | the mode only moves from AUTO/STATS to DISABLED/ACTIVE |
| GistTuner.MinTupleSize | src/backend/access/gist/gistbuild.c:686-695 | the smallest possible index tuple: the MAXALIGNed header plus each fixed-length attribute, with variable-length ones counted as VARHDRSZ; the sum itself is not aligned |
| GistTuner.ClosedFormIsSum | src/backend/access/gist/gistbuild.c:748-774 | the subtree size (1−f^(k+1))/(1−f) is the sum of f^0..f^k |
| GistTuner.SumTimesOneMinus | src/backend/access/gist/gistbuild.c:748-774 | the geometric sum times (1−f) is 1−f^(k+1) |
| GistTuner.PowAtLeastOne | src/backend/access/gist/gistbuild.c:748-774 | a fanout of at least 1 has powers of at least 1 |
| GistTuner.SumGrows | src/backend/access/gist/gistbuild.c:748-774 | the subtree size grows with levelStep |
| GistTuner.PowGrows | src/backend/access/gist/gistbuild.c:748-774 | a fanout of at least 2 raised to n is at least n + 1, so the subtree size grows without bound in levelStep |
| GistTuner.BreaksFromBound | src/backend/access/gist/gistbuild.c:748-774 | once the subtree size passes both memory bounds the loop's test breaks |
| GistTuner.FirstBreakFrom | src/backend/access/gist/gistbuild.c:748-774 | the first step at or after i where the loop breaks, with no break before it |
| GistTuner.ChosenLevelStep | src/backend/access/gist/gistbuild.c:748-780 | the levelStep after the decrement: step r+1 breaks and none of 1..r does |
| GistTuner.ChooseLevelStep | src/backend/access/gist/gistbuild.c:748-780 | the loop returns ChosenLevelStep |
| GistTuner.BreaksAntitone | src/backend/access/gist/gistbuild.c:748-774 | at a fixed levelStep, a step that breaks the loop with more cache and work memory also breaks it with less |
| GistTuner.ChosenLevelStepMonotone | src/backend/access/gist/gistbuild.c:748-780 | more cache and work memory never choose a smaller levelStep |
| GistTuner.Rint | src/backend/access/gist/gistbuild.c:843-845 | the nearest integer, ties to even |
| GistTuner.RintMonotone | src/backend/access/gist/gistbuild.c:843-845 | rint is monotone |
| GistTuner.PowMonotoneInExponent | src/backend/access/gist/gistbuild.c:819-846 | real powers of a base of at least 1 grow with the exponent |
| GistTuner.PagesPerBuffer | src/backend/access/gist/gistbuild.c:819-846 | rint(2·fanout^levelStep) |
| GistTuner.PagesPerBufferGrows | src/backend/access/gist/gistbuild.c:819-846 | pagesPerBuffer is at least 2 and grows with levelStep |
| GistPages.FirstDownlinkFrom | src/backend/access/gist/gistbuild.c:1291-1302 | the first offset from i whose downlink points at the child, none exactly when no later item does |
| GistPages.FirstDownlinkTo | src/backend/access/gist/gistbuild.c:1291-1302 | the first downlink offset to the child, none exactly when the child is not among the page's children |
| GistPages.MemorizeAll | src/backend/access/gist/gistbuild.c:1561-1579 | every child of the page maps to the page; other entries are kept |
| GistPages.RootSplitMapsChildrenToRoot | src/backend/access/gist/gistbuild.c:1112-1131 | after a root split every new child of the root maps to the root, provided no child is also a grandchild |
| GistPages.RootSplitMapsGrandchildren | src/backend/access/gist/gistbuild.c:1112-1131 | after a root split every grandchild of the root that is not itself a child maps to the child page holding its downlink, provided the children have disjoint children |
| GistPages.Downlinks | src/backend/access/gist/gistbuild.c:1174-1205 | the downlinks of the split pages, one per page, in order |
| GistPages.SplitRecordsParents | src/backend/access/gist/gistbuild.c:1174-1205 | after a split each split page maps to the parent and each of its children to it |
| GistPages.ParentOf | src/backend/access/gist/gistbuild.c:1582-1596 | the parent when the child is in the map, else a parent-not-found error |
| GistPages.LastMemorizedWins | src/backend/access/gist/gistbuild.c:1545-1555 | memorizing a parent twice keeps only the last one |
| GistBuild.EmptyIndex | src/backend/access/gist/gistbuild.c:564-590 | the new index is one empty leaf root |
| GistBuild.DepthBelow | src/backend/access/gist/gistbuild.c:1442-1492 | the depth below a page, bounded by the fuel |
| GistBuild.DepthSteps | src/backend/access/gist/gistbuild.c:1442-1492 | a leaf has depth 0 and an inner page one more than its first child |
| GistBuild.SplitBlocks | src/backend/access/gist/gistbuild.c:1174-1205 | the blocks of the split pages, in order |
| GistBuild.SplitDownlinks | src/backend/access/gist/gistbuild.c:1208-1210 | the downlinks of the split pages, in order |
| GistBuild.BuildState.constructor | src/backend/access/gist/gistbuild.c:498-590 | starting mode from the options, free space from the fill factor, no buffers, an empty leaf root, an empty parent map |
| GistBuild.BuildState.MemorizeParent | src/backend/access/gist/gistbuild.c:1545-1555 | the child now maps to the parent; nothing else changes |
| GistBuild.BuildState.MemorizeAllDownlinks | src/backend/access/gist/gistbuild.c:1561-1579 | every child of the page maps to it; a missing page is a corrupt tree and changes nothing |
| GistBuild.BuildState.GetParent | src/backend/access/gist/gistbuild.c:1582-1596 | the memorized parent, or parent-not-found |
| GistBuild.BuildState.FindCorrectParent | src/backend/access/gist/gistbuild.c:1239-1306 | the parent comes from the parent map (or the given block at leaf level); the hint offset is kept if it still points at the child, else the first downlink to it; errors when there is no parent or no downlink |
| GistBuild.BuildState.GetMaxLevel | src/backend/access/gist/gistbuild.c:1442-1492 | the depth of the tree below the root, or a corrupt-tree error |
| GistBuild.BuildState.RootSplit | src/backend/access/gist/gistbuild.c:1096-1133 | the root level goes up by one; above level 1 the grandchildren and new children are memorized |
| GistBuild.BuildState.MemorizeRootChildren | src/backend/access/gist/gistbuild.c:1112-1131 | every new child of the root has its downlinks memorized and the root recorded as its parent, so the parent map becomes AfterRootSplit of the children. A child missing from the pages is CorruptTree |
| GistBuild.BuildState.MemorizeSplit | src/backend/access/gist/gistbuild.c:1174-1205 | the parent map records the split pages under the parent and their children under them |
| GistBuild.BuildState.InsertTuples | src/backend/access/gist/gistbuild.c:1071-1218 | returns the block the tuples were placed on; buffered tuples are relocated, not lost. A placement with no split leaves the parent map, the buffers and the root level alone, and the pages are the placement's pages. A root split adds a level and records the new children and grandchildren (AfterRootSplit) |
| GistBuild.BuildState.FinishSplit | src/backend/access/gist/gistbuild.c:1135-1213 | returns the parent: the memorized one (the caller's for a leaf), holding the downlink to the split page at the returned offset. One downlink per split page goes to that parent at that offset. When the parent takes them without splitting, the pages are that placement's and the parent map is AfterSplit under that parent. Buffered tuples are kept |
| GistBuild.BuildState.LocateSplitParent | src/backend/access/gist/gistbuild.c:1149-1205 | the parent of the split page is the memorized one (the caller's for a leaf), and it holds the downlink to that page at the returned offset. There is one downlink per split page, pointing at that page. The pages and the root level are unchanged, the buffered tuples are kept, and the parent map becomes AfterSplit under that parent |
| GistBuild.BuildState.Descend | src/backend/access/gist/gistbuild.c:963-1021 | the descent stops at or below the start level, at a leaf or a buffered level, with the buffered tuples kept. While no widened downlink splits its page, it returns the page, level and parent hint that Walk reaches, and leaves the pages and the parent map as Walk does. A missing page or a bad offset is CorruptTree |
| GistBuild.WalkStops | src/backend/access/gist/gistbuild.c:963-1021 | the descent Walk describes stops at the leaf level or at a buffered level other than the start. A walk that takes no step returns its starting page, parent hint, pages and parent map. After at least one step the parent hint carries a real offset. A page reached at level 1 or above is memorized with the page its downlink was read from as its parent |
| GistBuild.BuildState.StepDown | src/backend/access/gist/gistbuild.c:984-1014 | one level of the descent: the chosen child and its offset, the child's parent memorized when level > 1, and the downlink widened in place. When that placement does not split, the result is the page the widened downlink went to. A missing page or a bad offset is CorruptTree |
| GistBuild.BuildState.ProcessItup | src/backend/access/gist/gistbuild.c:939-1056 | true means a buffer below the start level now overflows and holds the tuple last. While no widened downlink splits its page: a tuple stopping at a buffered level is the newest tuple of the node buffer of the page Walk reaches, and the result is whether that buffer overflowed. A tuple reaching a leaf is placed there, and the result is false |
| GistBuild.BuildState.EmptyBuffer | src/backend/access/gist/gistbuild.c:1346-1375 | true means the buffered tuples decreased; false means the buffer was already empty and nothing changed |
| GistBuild.BuildState.ProcessEmptyingQueue | src/backend/access/gist/gistbuild.c:1313-1377 | the queue ends empty; the buffered tuples decreased, or every queued buffer was empty |
| GistBuild.BuildState.EmptyQueueHead | src/backend/access/gist/gistbuild.c:1324-1375 | the buffer at the head of the queue is dequeued and emptied. Ok(false) means it held no tuples: only the queue lost its head, and the buffered tuples are as before. Ok(true) means the buffered weight fell |
| GistBuild.BuildState.EmptyAllBuffers | src/backend/access/gist/gistbuild.c:1386-1436 | every buffer ends empty |
| GistBuild.BuildState.BufferingBuildInsert | src/backend/access/gist/gistbuild.c:923-931 | the emptying queue ends empty. The tuple is run down from the root at the root level as Walk describes, and a missing page or bad offset on the way is CorruptTree. When the queue starts empty and the tuple reaches a leaf that takes it without a split, the result is Ok, the pages are that placement's, the parent map is Walk's and the buffers are unchanged |
| GistBuild.BuildState.InitBuffering | src/backend/access/gist/gistbuild.c:657-809 | a chosen levelStep of 0 or less disables buffering; statistics outside `Tunable` give TunerDiverges with the mode unchanged; otherwise ACTIVE with fresh buffers, the tuned levelStep and pagesPerBuffer |
| GistBuild.BuildState.Callback | src/backend/access/gist/gistbuild.c:852-918 | one more tuple and its size are counted, the mode moves as the switch test says, and outside ACTIVE the tuple goes straight into the tree |
| GistBuild.BuildState.Build | src/backend/access/gist/gistbuild.c:592-611 | every heap tuple is counted; a build ending ACTIVE leaves every buffer empty |
| GistBuffers.WeightUpdate | src/backend/access/gist/gistbuild.c:1036 | replacing a buffer changes Weight, the sum of level × tuple count over the buffers, by the difference of the two buffers' shares |
| GistBuffers.LoadPush | src/backend/access/gist/gistbuild.c:1036 | a push adds one tuple |
| GistBuffers.WeightAppend | src/backend/access/gist/gistbuild.c:1033 | a new empty buffer keeps the total |
| GistBuffers.FindBuffer | src/backend/access/gist/gistbuild.c:1033 | the index of the buffer of (block, level), none exactly when there is no such buffer |
| GistBuffers.ReplaceKeepsValid | src/backend/access/gist/gistbuild.c:1036 | replacing a buffer's tuples keeps the buffers well formed |
| GistBuffers.AppendKeepsValid | src/backend/access/gist/gistbuild.c:1033 | a new buffer for a page without one keeps the buffers well formed |
| GistBuffers.RemoveKeepsValid | src/backend/access/gist/gistbuild.c:1429-1430 | dropping an empty buffer from the head of a level's list, as gistEmptyAllBuffers does, keeps the buffers well formed and keeps the flush state of that level |
| GistBuffers.WithBuffer | src/backend/access/gist/gistbuild.c:1033 | the existing buffer of (block, level), or a new empty one, listed on its level |
| GistBuffers.WithBufferKeepsValid | src/backend/access/gist/gistbuild.c:1033 | getting a buffer keeps the buffers well formed and listed |
| GistBuffers.Pushed | src/backend/access/gist/gistbuild.c:1036 | the tuple appended; a buffer reaching half full and not queued goes to the queue's front |
| GistBuffers.PushedKeepsValid | src/backend/access/gist/gistbuild.c:1036 | a push keeps the buffers well formed |
| GistBuffers.PushedKeeps | src/backend/access/gist/gistbuild.c:1036 | a push keeps every invariant of the flush |
| GistBuffers.PoppedKeeps | src/backend/access/gist/gistbuild.c:1351 | a pop keeps every invariant of the flush |
| GistBuffers.FindTargets | src/backend/access/gist/gistbuild.c:1164-1168 | every split page gets a buffer; a page other than the split one already having a buffer is a corrupt tree |
| GistBuffers.DistributeTuples | src/backend/access/gist/gistbuild.c:1164-1168 | every moved tuple goes to one split page's buffer, so the total is kept; a choice outside the split pages is an error |
| GistBuffers.DistributeOne | src/backend/access/gist/gistbuild.c:1164-1168 | one moved tuple goes to the buffer of the chosen split page, and the relocation invariant holds with one more tuple pushed. Every split page keeps its block and its downlink pointer. A choice outside the split pages is CorruptTree |
| GistBuffers.BuildBuffers.constructor | src/backend/access/gist/gistbuild.c:797-804 | no buffers, an empty queue, the given levelStep and pagesPerBuffer |
| GistBuffers.BuildBuffers.StagedAtTop | src/backend/access/gist/gistbuild.c:1398 | every buffer is listed before the flush starts at the top level |
| GistBuffers.BuildBuffers.StagedStepDown | src/backend/access/gist/gistbuild.c:1398-1431 | once a level's list is empty every buffer on it is empty |
| GistBuffers.BuildBuffers.StagedBelowZero | src/backend/access/gist/gistbuild.c:1398-1436 | after level 0 every buffer is empty |
| GistBuffers.BuildBuffers.GetNodeBuffer | src/backend/access/gist/gistbuild.c:1033 | returns the buffer of (block, level), creating and listing an empty one when missing |
| GistBuffers.BuildBuffers.Push | src/backend/access/gist/gistbuild.c:1036 | the tuple is appended; the buffer is queued at the front when half full and not yet queued |
| GistBuffers.BuildBuffers.PushToPage | src/backend/access/gist/gistbuild.c:1024-1039 | pushes onto the page's buffer and reports exactly whether it now overflows |
| GistBuffers.BuildBuffers.Pop | src/backend/access/gist/gistbuild.c:1351 | the last tuple, removed; none exactly when the buffer is empty |
| GistBuffers.BuildBuffers.Dequeue | src/backend/access/gist/gistbuild.c:1324-1326 | takes the first queued buffer and clears its queued flag |
| GistBuffers.BuildBuffers.Enqueue | src/backend/access/gist/gistbuild.c:1415-1421 | puts the buffer at the front and marks it queued |
| GistBuffers.BuildBuffers.RemoveFirstOnLevel | src/backend/access/gist/gistbuild.c:1429-1430 | drops the first (empty) buffer of the level's list |
| GistBuffers.BuildBuffers.Clear | src/backend/access/gist/gistbuild.c:1164-1168 | empties the buffer, keeping its queued flag |
| GistBuffers.BuildBuffers.SplitBuffers | src/backend/access/gist/gistbuild.c:1164-1168 | the split pages get the old buffer or fresh ones |
| GistBuffers.BuildBuffers.Distribute | src/backend/access/gist/gistbuild.c:1164-1168 | the moved tuples land in the split pages' buffers |
| GistBuffers.BuildBuffers.RelocateOnSplit | src/backend/access/gist/gistbuild.c:1164-1168 | the buffered tuples are kept across the split; without a buffer nothing moves |
| GistBuffers.BuildBuffers.ClearAndSplit | src/backend/access/gist/gistbuild.c:1164-1168 | the split buffer is emptied and the split pages' buffers are found |
| GistBuffers.BuildBuffers.MoveBuffer | src/backend/access/gist/gistbuild.c:1164-1168 | the old buffer's tuples go to the split pages' buffers, and the total is kept |
| GistBuffers.BuildBuffers.SetPagesPerBuffer | src/backend/access/gist/gistbuild.c:891-897 | only pagesPerBuffer changes |
| GistBuffers.BuildBuffers.IncrementRootLevel | src/backend/access/gist/gistbuild.c:1103 | only the root level changes, by one |
| GistSorted.MaxAlign | src/backend/access/gist/gistbuild.c:236-237 | the next multiple of 8 at or above n |
| GistSorted.PageFreeSpace | src/backend/access/gist/gistbuild.c:268-269 | a page's free space less one line pointer, or 0 |
| GistSorted.NewLevel | src/backend/access/gist/gistbuild.c:161-183 | one more level, with an empty page at the next block number |
| GistSorted.BuildAdd | src/backend/access/gist/gistbuild.c:216-322 | an oversize tuple is refused; otherwise the tuple is last on its level's page, and a closed page leaves its union downlink last on the level above |
| GistSorted.FinishPage | src/backend/access/gist/gistbuild.c:199-214 | the union of the closed page, pointing at its block, is added last to the level above |
| GistSorted.ReserveNext | src/backend/access/gist/gistbuild.c:274-308 | taking the next block number keeps the numbering disjoint |
| GistSorted.PlaceReserved | src/backend/access/gist/gistbuild.c:274-308 | writing the closed page and opening its successor on the reserved block keeps the numbering |
| GistSorted.BuildAddNumbering | src/backend/access/gist/gistbuild.c:216-322 | each block number is handed out once and never written twice |
| GistSorted.FinishPageNumbering | src/backend/access/gist/gistbuild.c:199-214 | the same holds through the union's insertion |
| GistSorted.InitialNumbering | src/backend/access/gist/gistbuild.c:455 | the first leaf starts with a valid numbering |
| GistSorted.AddClosesIff | src/backend/access/gist/gistbuild.c:262-321 | the page closes exactly when the tuple does not fit, or the page holds enough tuples and is past the fill target; a closed page is written with the new block as its right link |
| GistSorted.EmptyPageStaysOpen | src/backend/access/gist/gistbuild.c:262-269 | an empty page takes any accepted tuple |
| GistSorted.FewItemsStayOpen | src/backend/access/gist/gistbuild.c:262-269 | under two-per-page rules a page of at most one tuple takes any accepted tuple |
| GistSorted.TwoFitClosesFullPages | src/backend/access/gist/gistbuild.c:262-269 | under two-per-page rules every closed page holds at least two tuples |
| GistSorted.TwoFitSingleNeverCloses | src/backend/access/gist/gistbuild.c:262-269 | under two-per-page rules a one-tuple page cannot be closed |
| GistSorted.Shutdown | src/backend/access/gist/gistbuild.c:324-352 | every level's last page sends its union up; the top page is written at the root block |
| GistSorted.ShutdownWritesAll | src/backend/access/gist/gistbuild.c:324-352 | after the shutdown exactly the root and every handed-out block but the top page's own are written |
| GistSorted.AddAll | src/backend/access/gist/gistbuild.c:360-377 | every tuple goes onto the leaf level in turn, the last one last |
| GistSorted.SortedLoad | src/backend/access/gist/gistbuild.c:354-402 | a RowTooBig refusal names a size above the largest accepted; when every tuple and every union has a positive size, an oversize tuple is the only refusal |
| GistSorted.AddAllNumbering | src/backend/access/gist/gistbuild.c:360-377 | the leaf loop keeps the block numbering |
| GistSorted.LoadWritesAll | src/backend/access/gist/gistbuild.c:354-402 | a finished load wrote the root and every numbered block but one, each once |
| GistSorted.ShutdownFuelAgrees | src/backend/access/gist/gistbuild.c:324-352 | under two-per-page rules the shutdown loop as written ends, where Shutdown does |
| GistSorted.BigFacts | src/backend/access/gist/gistbuild.c:191-194 | a 7400-byte tuple is aligned and accepted, and leaves 744 bytes on a page |
| GistSorted.StuckStep | src/backend/access/gist/gistbuild.c:332-351 | with one big tuple per page, a shutdown step adds a level above a one-tuple page |
| GistSorted.StuckForever | src/backend/access/gist/gistbuild.c:332-351 | from such a state the shutdown loop never ends |
| GistSorted.TwoBigTuplesNeverFinish | src/backend/access/gist/gistbuild.c:268-269 | two 7400-byte tuples at fill factor 90 make the load as written never finish |
| GistSorted.SortedLoader.constructor | src/backend/access/gist/gistbuild.c:455 | the block counter starts past the root |
| GistSorted.SortedLoader.PageState | src/backend/access/gist/gistbuild.c:161-183 | the state is NewLevel of the old state |
| GistSorted.SortedLoader.Add | src/backend/access/gist/gistbuild.c:216-322 | the state is BuildAdd of the old state, with its error |
| GistSorted.SortedLoader.Finish | src/backend/access/gist/gistbuild.c:199-214 | the state is FinishPage of the old state, with its error |
| GistSorted.SortedLoader.UpperShutdown | src/backend/access/gist/gistbuild.c:324-352 | the state is Shutdown of the old state, with its error |
| GistSorted.SortedLoader.Load | src/backend/access/gist/gistbuild.c:354-402 | the state is SortedLoad of the tuples, with its error |
| SpgKeys.Classify | src/backend/access/spgist/spgscan.c:116-137 | IS NULL wins over IS NOT NULL, which wins over a null argument; the rest are ordinary |
| SpgKeys.OrdinaryKeys | src/backend/access/spgist/spgscan.c:116-137 | only ordinary keys are kept, empty exactly when there are none |
| SpgKeys.NoKeysScansAll | src/backend/access/spgist/spgscan.c:103-110 | no keys: search nulls and non-nulls with no keys kept |
| SpgKeys.EmptyScanIff | src/backend/access/spgist/spgscan.c:93-156 | both flags are off exactly when keys were given and cannot be satisfied; then no key is kept |
| SpgKeys.SatisfiablePlan | src/backend/access/spgist/spgscan.c:140-155 | satisfiable keys keep their ordinary keys and never search both nulls and non-nulls |
| SpgKeys.KeyState.constructor | src/backend/access/spgist/spgscan.c:158-189 | the key array has room for the scan's keys and is empty |
| SpgKeys.KeyState.PrepareScanKeys | src/backend/access/spgist/spgscan.c:93-156 | the flags and the kept keys are Plan of the keys |
| SpgKeys.KeyState.ExamineKeys | src/backend/access/spgist/spgscan.c:116-137 | qualOk exactly when no strict key has a null argument; then the flags match the key classes and the kept keys are the ordinary keys in order |
| SpgQueue.Infinities | src/backend/access/spgist/spgscan.c:366-369 | n infinite distances |
| SpgQueue.Zeros | src/backend/access/spgist/spgscan.c:53-80 | n zero distances |
| SpgQueue.NewHeapItem | src/backend/access/spgist/spgproc.c:35-50 | a heap item at the leaf's level, recheck kept, value 0 for a null leaf, no traversal value |
| SpgQueue.PopHead | src/backend/access/spgist/spgscan.c:452-486 | the chain's head and its tail; lastHeap moves with the chain and clears when its item leaves |
| SpgQueue.NextItemTakesFirst | src/backend/access/spgist/spgscan.c:452-486 | the item returned is the first queued one and the rest stay in order; none only on an empty queue |
| SpgQueue.NextItemDropsOnlyEmpty | src/backend/access/spgist/spgscan.c:452-486 | only leading tree nodes with empty chains are dropped |
| SpgQueue.LastHeapFollowsItem | src/backend/access/spgist/spgscan.c:452-486 | lastHeap keeps pointing at the same item, or clears when that item is handed out |
| SpgQueue.InsertAllSnoc | src/backend/access/spgist/spgproc.c:24-29 | a run of insertions extended by one is one more insertion |
| SpgQueue.SearchQueue.constructor | src/backend/access/spgist/spgscan.c:191-224 | an empty queue with the given number of ORDER BY keys |
| SpgQueue.SearchQueue.Add | src/backend/access/spgist/spgproc.c:24-29 | the item takes its first numberOfOrderBys distances, then is inserted |
| SpgQueue.SearchQueue.Next | src/backend/access/spgist/spgscan.c:452-486 | the state after the call is NextItem of the old state |
| SpgScan.StartItem | src/backend/access/spgist/spgscan.c:32-47 | an inner item at level 0 pointing at the nulls root or the regular root |
| SpgScan.StartItemsPerSearch | src/backend/access/spgist/spgscan.c:53-80 | one start item per enabled search, a nulls item exactly when nulls are searched |
| SpgScan.EffectiveOut | src/backend/access/spgist/spgscan.c:392-399 | on a nulls page every node is chosen |
| SpgScan.NodeItem | src/backend/access/spgist/spgscan.c:408-445 | the child item for a chosen node: its downlink, level+levelAdd, the reconstructed and traversal values |
| SpgScan.NodeDistances | src/backend/access/spgist/spgscan.c:366-369 | the node's distances, or infinities when the consistent function gave none |
| SpgScan.Child | src/backend/access/spgist/spgscan.c:408-445 | a chosen node's queued item with its distances |
| SpgScan.Children | src/backend/access/spgist/spgscan.c:408-445 | one inner item per chosen node with a valid downlink, at most as many as chosen |
| SpgScan.ChildrenStep | src/backend/access/spgist/spgscan.c:408-445 | one more choice adds its child exactly when the downlink is valid |
| SpgScan.ChildrenAreChosen | src/backend/access/spgist/spgscan.c:408-445 | every queued child comes from a chosen node with a valid downlink |
| SpgScan.NullsPageVisitsEveryNode | src/backend/access/spgist/spgscan.c:392-406 | on a nulls page the test never fails and queues every node with a valid downlink, in order, with infinite distances |
| SpgScan.LeafReport | src/backend/access/spgist/spgscan.c:298-325 | a null leaf reports value 0 without recheck; any other the consistent function's value and recheck |
| SpgScan.HeapItem | src/backend/access/spgist/spgscan.c:298-312 | the heap item an ordered scan queues: the leaf's tid and level, infinities for a null leaf |
| SpgScan.DeferredReportIsImmediateReport | src/backend/access/spgist/spgscan.c:514-521 | reporting a queued heap item gives what an unordered scan reports at once |
| SpgScan.ChainReports | src/backend/access/spgist/spgscan.c:577-611 | the passing leaves' reports in chain order; empty exactly when no leaf passes |
| SpgScan.ChainHeapItems | src/backend/access/spgist/spgscan.c:577-611 | one heap item per passing leaf, reporting what the unordered scan would |
| SpgScan.ChainStep | src/backend/access/spgist/spgscan.c:577-611 | a chain one leaf longer adds that leaf's report or heap item last |
| SpgScan.BitmapEntriesAppend | src/backend/access/spgist/spgscan.c:650-655 | bitmap entries of joined reports are joined entries |
| SpgScan.ChainEffectStep | src/backend/access/spgist/spgscan.c:577-611 | the chain's effect grows by one leaf's effect |
| SpgScan.UnorderedChainStep | src/backend/access/spgist/spgscan.c:577-611 | unordered: one more report stored |
| SpgScan.BufferedStep | src/backend/access/spgist/spgscan.c:675-692 | stores into the tuple buffer concatenate |
| SpgScan.BitmapStep | src/backend/access/spgist/spgscan.c:650-655 | stores into the bitmap concatenate and count |
| SpgScan.OrderedChainStep | src/backend/access/spgist/spgscan.c:577-611 | ordered: one more heap item queued |
| SpgScan.BitmapEntries | src/backend/access/spgist/spgscan.c:650-655 | one (tid, recheck) entry per report, in order |
| SpgScan.ScanOpaque.constructor | src/backend/access/spgist/spgscan.c:158-189 | an empty queue, an empty buffer and an empty bitmap count |
| SpgScan.ScanOpaque.AddStartItem | src/backend/access/spgist/spgscan.c:32-47 | the start item is queued with the current distances |
| SpgScan.ScanOpaque.AddStartItems | src/backend/access/spgist/spgscan.c:62-76 | the nulls root first, then the regular root, as the flags ask |
| SpgScan.ScanOpaque.Reset | src/backend/access/spgist/spgscan.c:53-80 | zero distances, the start items queued, an empty result buffer |
| SpgScan.ScanOpaque.InnerTest | src/backend/access/spgist/spgscan.c:356-448 | an allTheSame tuple with some but not all nodes chosen is an error that queues nothing; otherwise every chosen node with a valid downlink is queued |
| SpgScan.ScanOpaque.AddChildren | src/backend/access/spgist/spgscan.c:408-445 | the queue receives Children in order |
| SpgScan.ScanOpaque.AddChoice | src/backend/access/spgist/spgscan.c:408-445 | the i-th choice is queued exactly when its downlink is valid |
| SpgScan.ScanOpaque.StoreGettuple | src/backend/access/spgist/spgscan.c:675-692 | one more buffered result, with its index tuple when wanted |
| SpgScan.ScanOpaque.StoreBitmap | src/backend/access/spgist/spgscan.c:650-655 | the tid joins the bitmap and is counted |
| SpgScan.ScanOpaque.LeafTest | src/backend/access/spgist/spgscan.c:245-329 | passes exactly when null or consistent; a passing leaf is queued in an ordered scan and reported otherwise |
| SpgScan.ScanOpaque.VisitLeafChain | src/backend/access/spgist/spgscan.c:577-611 | every leaf of the chain tested in order; reported something exactly when unordered and a leaf passed |
| SpgScan.ScanOpaque.WalkStep | src/backend/access/spgist/spgscan.c:496-645 | pops the next item; a heap item is reported; a leaf chain is tested; an inner tuple queues its children or fails; an empty queue changes nothing |
| SpgScan.ScanOpaque.Refill | src/backend/access/spgist/spgscan.c:718-732 | the buffer is refilled from the next walk, and the pending results are unchanged |
| SpgScan.ScanOpaque.NextBuffered | src/backend/access/spgist/spgscan.c:706-716 | returns the first pending result and drops it |
| SpgScan.ScanOpaque.GetTuple | src/backend/access/spgist/spgscan.c:695-736 | only forward scans; returns the pending results in order, each once, and nothing exactly when none is left |
| SpgScan.ScanOpaque.GetBitmap | src/backend/access/spgist/spgscan.c:658-671 | every remaining result joins the bitmap in order, and the count is returned |

## Left out

- `gistbuildbuffers.c` and `gist_private.h` are not part of this model.
  - The node-buffer operations in `GistBuffers` are reconstructed from how `gistbuild.c` uses them. The buffers are kept in memory as tuple lists; their temporary-file pages are not modelled.
  - `BUFFER_HALF_FILLED` and `BUFFER_OVERFLOWED` are stated in tuples against `pagesPerBuffer`.
- Domain code the build calls is a parameter of the build state: `gistchoose`, `gistgetadjusted`, `gistplacetopage`, `gistdoinsert`, `gistMakeUnionOfTuples`, `smgrnblocks`, the relocation's choice of split page and the size of tuples.
- The tuner's floating point is exact real arithmetic. `pow` and `log` are not modelled.
  - `GistBuild.BuildState.InitBuffering`: a fanout that makes the C doubles infinite or NaN is outside the model's `Tunable` condition. The model then reports that the tuner diverges instead of choosing a levelStep.
- `GistBuild.BuildState.FindCorrectParent`: the C function never writes its `parentblkno` out-argument (gistbuild.c:1239-1306). Its callers use the block of the buffer it returns, and so does the model.
- `GistBuild.BuildState.Callback` and `GistBuild.BuildState.Build` require positive tuple sizes. Every index tuple carries its header, and the requirement keeps `indtuples <= indtuplesSize` in `Valid`.
- `GistBuild.BuildState.InsertTuples`: when a split page's parent splits too, the final pages and parent map are stated only through `FinishSplit`, not as a closed formula.
- `GistBuild.BuildState.FinishSplit`: when the parent splits as well, the recursive insertion one level up decides the final pages and parent map. The contract then states only the parent and the downlinks.
- `GistBuild.BuildState.Descend` and `GistBuild.BuildState.StepDown`: once a widened downlink splits its page, the rest of the descent is not described. What is stated then is the stop condition and the kept buffers.
- `GistBuild.BuildState.ProcessItup`: where the tuple goes is stated only for descents in which no widened downlink splits its page, and, at a leaf, when the leaf takes the tuple without splitting.
- `GistBuild.BuildState.BufferingBuildInsert`: the tuple's fate is stated only when it reaches a leaf without any split and the queue starts empty. A tuple that joins a node buffer may be pushed further down by the emptying, and where it ends then is not stated. What is stated then is that the queue ends empty.
- `GistBuild.BuildState.StepDown` and `GistBuild.Walk` refuse a widened downlink on a page above the root level with CorruptTree. gistProcessItup has no such check (gistbuild.c:1001-1010). The guard only keeps the insertion's level within the tree, and it cannot fire in a consistent tree.
- `JsonbcDict.NameAt`: ids are taken to be dense and 1-based, so row k - 1 holds id k. A serial id column can leave gaps, for instance after a failed insert. The model does not cover such gaps.
- `GistSorted.SortedLoad`: an AddFailed refusal is excluded only when every tuple and every union tuple has a positive size. The size is a plain number here, and a zero-size tuple can reach PageAddItem's failure in the model, while real index tuples always carry their header.
- Not modelled:
  - the parallel and sorted-build entry points (gistbuild.c:428-490) apart from the loader itself;
  - WAL logging, `smgr` writes and fsync;
  - buffer locking and pins;
  - memory contexts and `CHECK_FOR_INTERRUPTS`;
  - the DEBUG messages.
- `GistSorted.Shutdown`, `GistSorted.SortedLoad`, `GistSorted.SortedLoader.UpperShutdown` and `GistSorted.SortedLoader.Load` are proved under rules that keep two tuples on every page, the corrected rules of the finding below.
  - The rules as written appear only in `ShutdownFuel` and `LoadFuel`, which take a step bound.
- SP-GiST page reads are not modelled: buffer reads, redirect and dead tuples, snapshot checks, and the "unexpected SPGiST tuple state" ERRORs (spgscan.c:564, 602, 629), which cannot arise through the `visit` parameter.
  - What `spgWalk` finds at a work item's tid is a parameter (`visit`).
  - The reports of the later walks are given to the scan state as batches. `SpgScan.ScanOpaque.WalkStep` models one pass of `spgWalk`'s loop, not its whole run.
- The opclass consistent functions, `inner_consistent` and `leaf_consistent`, appear only through their outputs.
- The search queue's ordering is left abstract.
  - `spgAddSearchItemToQueue` calls `pairingheap_add` (spgproc.c:28), while `spgscan.c` drives an `rb_*` tree.
  - The insertion, with its comparator and combiner, is a function given to the queue. The queue's proofs state which items it received and in what order they are handed out.
- Float distances are reals, with infinity as its own value.
- Not modelled: `spgFreeSearchItem` and every `pfree`; `spgendscan`; the memory-context half of `spgbeginscan` and `spgrescan`. The TIDBitmap is a list of (tid, recheck) entries.
- `NumericSmall.NumericGetSmall` requires that the leading digit can be read (`LeadingDigitReadable`).
  - The C code reads `digits[0]` at weight 2 without checking that a digit exists.
- The long numeric format and NaN are modelled only as far as the header macros read them. Digits are unbounded integers within the int16 range.
- In the key dictionary:
  - the SQL the slow paths send through SPI is the `DictTable` object;
  - `hash_any` and `name_hash` are left out, because the hash tables are modelled as maps;
  - the private copies of name bytes are values.
- `jsonbc_dict_worker.c`, `json_generic.h`, `json_op.c` and `pg_compression.h` are not part of this model.
- `SpgKeys.NoKeysScansAll`, `SpgScan.DeferredReportIsImmediateReport` and several of the `GistMode` lemmas hold by unfolding the definitions. They need no proof work.

## Findings

| source | as written | input that shows it | evidently intended | confidence | as-written member | corrected member |
|---|---|---|---|---|---|---|
| src/backend/access/gist/gistbuild.c:268-269 | A page may close as soon as it holds one tuple (`last_off > FirstOffsetNumber`), and a tuple may fill a whole page (`GistMaxItemSize`, gistbuild.c:191-194). Each step of `gistUpperShutdown` (gistbuild.c:332-351) can then split a one-tuple top page and add a level above it. | Two index tuples of 7400 bytes at fill factor 90, where the union of one tuple is that tuple. The second tuple closes the first leaf, and from level 1 every shutdown step adds a new level. | At least two tuples on a page before it may close, with tuples of at most half a page, so that every page above the leaves holds two downlinks and the shutdown reaches a single top page. | medium, not executed | GistSorted.TwoBigTuplesNeverFinish | GistSorted.ShutdownFuelAgrees |
