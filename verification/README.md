# KalpavrikshaAssignments in Dafny

A model of the logic of several C exercises from the KalpavrikshaAssignments repository,
with proofs about that logic. Each program's shell, menu and prompt loops are removed. What is
left is stated as Dafny datatypes, functions and methods with contracts, plus lemmas that
relate the operations to each other.

| Dafny module | file | program |
|---|---|---|
| `CType` | ctype.dfy | the `<ctype.h>` and `strcasecmp` helpers shared by the programs, `Option`, bounded `strncpy` |
| `BlockAllocator` | vfs_blocks.dfy | virtualFileSystem.c: the FIFO free-block queue and the `usedBlocks` counter |
| `VfsState` | vfs_state.dfy | virtualFileSystem.c: disk, node arena, root and current directory, and the invariant every command keeps |
| `Namespace` | vfs_tree.dfy | virtualFileSystem.c: node creation and the circular sibling list (`addChild`, `removeChild`, `findChild`) |
| `FileContent` | vfs_content.dfy | virtualFileSystem.c: `writeFile`, `readFile`, `deleteFile`, `removeDir` |
| `VfsPath` | vfs_path.dfy | virtualFileSystem.c: `buildFullPath` and `changeDirPath` |
| `WriteArgs` | vfs_args.dfy | virtualFileSystem.c: `parseWriteArgs` |
| `VfsShell` | vfs_shell.dfy | virtualFileSystem.c: the bare-name commands `mkdir`, `create`, `rmdir`, `write`, `read`, `delete` |
| `LruCache` | lru_cache.dfy | lruCacheImplementation.c: recency queue plus chained hash table |
| `Calculator` | calculator.dfy | calculator.c and calc.c, two copies of the same integer expression evaluator |
| `Sonar` | sonar.dfy | sonarImageProcessing.c: in-place rotation and 3-by-3 smoothing |
| `Players` | players.dfy | iccOdiPlayerPerformance.c: team table, role lists, player insertion |
| `Inventory` | inventory.dfy | dynamicInventoryManagementSystem.c: product validation, search, add, update, delete |
| `Students` | students.dfy | studentPerformanceAnalyzer.c: validators, grades, duplicates, bubble sort |

**The virtual file system.**
- The disk is a sequence of `TOTAL_BLOCKS` (1024) blocks of `BLOCK_SIZE` (512) bytes.
- The free list is the sequence of block indices from `freeHead` to `freeTail`.
- Nodes live in an arena: a `FileNode` pointer becomes a handle, and freeing a node empties its slot.
- A directory's circular doubly linked child list is the sequence of handles read from the anchor along `next`.
- The invariant `VfsState.Valid` says:
  - the free list and the blocks the files own partition `0..TOTAL_BLOCKS-1`, each index exactly once;
  - `usedBlocks` agrees with the free list;
  - parent and child links agree, and sibling names are distinct;
  - every file owns exactly `ceil(contentSize / BLOCK_SIZE)` blocks.
- Every command keeps `Valid`, and refusals change nothing.

Points where the file system's behaviour is easy to misread:
- **The space check in `writeFile` (virtualFileSystem.c:161-162).** It compares the blocks the new content needs with the free count BEFORE the file's old blocks are released. So rewriting a file on a full disk is refused even when the new content is no larger than the old. `FileContent.WriteFileSpec` states the refusal exactly as the code makes it.
- **No failure after the check.** The check guarantees the allocation loop never fails. So the loop's own failure branch (lines 180-186) cannot run, and the model has no such outcome.
- **Name lookup in the shell.** Only `cd` resolves a path of several components. `rmdir`, `write`, `read` and `delete` look up the argument as one name among the children of the current directory (lines 416, 429, 441, 448).
- **No slash names.** `mkdir` and `create` refuse any name containing `/`, so a command such as `create x/y` is refused. In a file system built by these commands a name with a slash is never found (`VfsShell.SlashNameNotFound`).
- **Where names are checked.** `createFileNode` itself checks only the length. The empty-name and slash checks are made by `makeDirCmd` and `createFileCmd`.

**The LRU cache.** The abstract state is the queue of `(key, value)` entries, most recently used first, together with the bucket chains of the hash table, read from their heads. The invariant ties them together:
- every key is queued at most once;
- a key is queued exactly when its bucket `key % 1009` chains it;
- the size counts both and never exceeds the capacity.

`Put` and `Get` are proved equal to a reference cache on the plain list (`RefPut`, `RefGet`). The reference-level properties carry over: put-then-get, others unchanged, and eviction of the rear.

**The calculator.** The program evaluates in three steps inside `main`:
1. a tokenising loop;
2. a first pass that folds `*` and `/` in place;
3. a second pass over `+` and `-`.

These become a pure tokeniser and two methods with loop invariants. The first pass is proved to compute the terms of a sum-of-products reading of the expression. The second pass is proved to fold those terms from the left. Together they give `PrecedenceValue`, standard precedence with left associativity. The division-by-zero flag is raised exactly when some `/` has a zero right operand.
calc.c is the same program under other names. Its `removeSpaces` (calc.c:7-16), `isValidExpression` (22-39) and `evaluate` (41-54) are modelled by the same members as calculator.c's `removeSpaces`, `checkValidation` and `operations`. So are its tokenising loop (79-91) and its two passes (93-111, 113-116). The table cites calculator.c.

## Model

| member | source | states |
|---|---|---|
| CType.BoundedCopy | iccOdiPlayerPerformance.c:213-214 | a copy into a buffer of `size` characters is the whole string when it fits and exactly its first size-1 characters otherwise |
| CType.DecimalValuePositive | studentPerformanceAnalyzer.c:22-23 | the value `atoi` reads from a digit string is at least 1 exactly when some digit is not '0' |
| BlockAllocator.InitFreeBlockList | virtualFileSystem.c:50-61 | the queue built holds the indices 0..total-1, in ascending order from head to tail |
| BlockAllocator.Initial | virtualFileSystem.c:467-470 | after initialisation all TOTAL_BLOCKS blocks are free, none is used, and the counter agrees with the queue |
| BlockAllocator.RangeOccurrences | virtualFileSystem.c:52-60 | the initial queue holds every disk block exactly once and nothing else |
| BlockAllocator.AllocateBlock | virtualFileSystem.c:63-73 | -1 with nothing changed on an empty queue (and, for a queue of indices, only then); otherwise the head is returned, the rest stays queued in order, `usedBlocks` grows by one, and the counter stays consistent |
| BlockAllocator.ReleaseBlock | virtualFileSystem.c:75-84 | the index joins the tail behind the unchanged queue, `usedBlocks` drops by one, and the counter stays consistent |
| BlockAllocator.CountFreeBlocks | virtualFileSystem.c:86-88 | with a consistent counter the free count is the length of the queue |
| BlockAllocator.ReleaseAll | virtualFileSystem.c:164 | releasing a file's blocks appends them to the tail in their order and lowers `usedBlocks` by their number |
| BlockAllocator.AllocateMany | virtualFileSystem.c:178-187 | n allocations from a queue of at least n entries hand out its first n entries in order and leave the rest queued |
| BlockAllocator.ReleaseThenAllocate | virtualFileSystem.c:63-84 | reuse is FIFO for any queue: a released block goes behind every queued block, the next allocation takes the old head (the released block itself on an empty queue), and draining hands out the old queue and then the released block |
| VfsState.InitVfs | virtualFileSystem.c:463-470 | the initial file system is valid, has every block free, and its root is an empty directory that is also the current directory |
| VfsState.PartitionCounts | virtualFileSystem.c:17-32 | under the partition invariant every disk block is either free or owned by a file, exactly once, and no other index appears |
| VfsState.FreeBlockIsUnowned | virtualFileSystem.c:63-73 | an entry of the free queue is a disk block that no file owns |
| VfsState.OwnedBlockIsExclusive | virtualFileSystem.c:24-25 | a block a node owns is a disk block, is not on the free queue, and is owned by no other node |
| VfsState.ReleasedPool | virtualFileSystem.c:163-187 | the blocks a rewrite draws from (the free queue followed by the file's old blocks) are distinct disk blocks |
| VfsState.ContentSwapKeepsValid | virtualFileSystem.c:163-196 | giving a file new blocks and size, with the free queue taking exactly the blocks it gives up, keeps the file system valid |
| Namespace.CreateFileNode | virtualFileSystem.c:90-104 | NULL exactly for a name longer than MAX_NAME_LEN; otherwise a node of the requested kind and parent, without children, blocks or content |
| Namespace.AppendLinks | virtualFileSystem.c:108-118 | the pointer updates of `addChild` read from the anchor are the old ring with the child appended; every other link is unchanged |
| Namespace.UnlinkLinks | virtualFileSystem.c:125-131 | the pointer updates of `removeChild` read from the (possibly advanced) anchor are the old ring without the node, and its neighbours are linked to each other |
| Namespace.AddChild | virtualFileSystem.c:106-121 | refused with nothing changed for a parent that is not a directory; otherwise the child is appended to the end of the parent's ring and records the parent, and no other node changes |
| Namespace.RemoveChild | virtualFileSystem.c:123-135 | refused for a non-directory or a childless parent; otherwise the node leaves the ring: the only child leaves it empty, an anchor hands over to its successor, the other siblings keep their order, and the node loses its parent |
| Namespace.FindChild | virtualFileSystem.c:137-147 | the first sibling from the anchor whose name equals the argument exactly; none when no sibling has the name or the parent is not a directory |
| Namespace.FindFrom | virtualFileSystem.c:141-145 | the scan from position i finds the first later sibling with the name, or establishes that none has it |
| Namespace.DropAt | virtualFileSystem.c:128-130 | removing one entry of a ring without repeats keeps the entries before it, moves up those after it, and keeps exactly the other members |
| Namespace.AddThenRemove | virtualFileSystem.c:106-135 | detaching a freshly attached child gives the parent its old ring back |
| Namespace.AddThenFind | virtualFileSystem.c:106-147 | a child attached under a name no sibling had is what `findChild` then finds under that name |
| FileContent.Clamp | virtualFileSystem.c:160 | a negative size counts as 0, any other size is kept |
| FileContent.Chunk | virtualFileSystem.c:188-193 | block i of a write holds the content from offset i*BLOCK_SIZE up to the size, then zeros to the end of the block |
| FileContent.WriteChunksSpec | virtualFileSystem.c:178-194 | the copy loop over distinct blocks leaves each listed block holding its chunk, every other block unchanged, and every block BLOCK_SIZE long |
| FileContent.RewriteShape | virtualFileSystem.c:163-196 | a successful write owns the first ceil(n/BLOCK_SIZE) blocks of the free queue followed by its old blocks; the rest of that pool is the new free queue and `usedBlocks` is adjusted by the difference |
| FileContent.RewriteDisk | virtualFileSystem.c:176-194 | after a successful write the file's blocks hold the content chunk by chunk and no other block changes |
| FileContent.RewriteValid | virtualFileSystem.c:163-197 | a write that passed the space check keeps the file system valid |
| FileContent.RewriteSpec | virtualFileSystem.c:163-197 | a write that passed the space check keeps the file system valid and leaves exactly the state described by `Rewritten` |
| FileContent.WriteFileSpec | virtualFileSystem.c:158-198 | -1 exactly for a handle that is not a live file; -2 exactly when the blocks the content needs exceed the free count, before the file's own blocks are counted; nothing changes on either; a success keeps the file system valid with the content stored |
| FileContent.Emit | virtualFileSystem.c:203-211 | the output loop prints exactly `remaining` bytes when the blocks left can hold them |
| FileContent.ReadFile | virtualFileSystem.c:200-213 | -1 exactly for anything but a live file; otherwise exactly `contentSize` bytes are printed |
| FileContent.EmitChunks | virtualFileSystem.c:203-211 | printing blocks that hold the chunks of a content gives back that content from the starting block's offset to its end |
| FileContent.ReadChunks | virtualFileSystem.c:200-213 | a file whose blocks hold the chunks of a content reads back as its first `contentSize` bytes |
| FileContent.WriteThenRead | virtualFileSystem.c:158-213 | reading a file after a successful write gives back exactly the first `size` bytes written, and nothing for a size of 0 or less |
| FileContent.ReadSameBlocks | virtualFileSystem.c:200-213 | reading depends only on the file's node and the bytes of its own blocks |
| FileContent.WriteLeavesOthers | virtualFileSystem.c:158-198 | a write, successful or not, changes what no other file reads |
| FileContent.DetachShape | virtualFileSystem.c:224-225 | removing a node unlinks it from its parent's ring at some position and empties its slot, leaving disk, queue, root and current directory alone |
| FileContent.DetachKeepsTree | virtualFileSystem.c:232-233 | detaching a childless node other than the root and the current directory keeps the tree well formed |
| FileContent.DetachKeepsPartition | virtualFileSystem.c:224-225 | detaching a node that owns no blocks keeps the partition of the disk |
| FileContent.DetachSpec | virtualFileSystem.c:224-233 | detaching an empty directory or a blockless file keeps the file system valid; the node is gone and its parent lists exactly its other children; no other slot, block or byte changes |
| FileContent.Strip | virtualFileSystem.c:217-223 | the file's blocks go to the tail of the free queue in order, the file is left empty, and the file system stays valid |
| FileContent.StripEmpty | virtualFileSystem.c:217 | stripping a file without blocks changes nothing |
| FileContent.DeleteFile | virtualFileSystem.c:215-227 | -1 and no change exactly for anything but a live file; otherwise its blocks join the tail of the free queue (the free count grows by exactly their number), it leaves its directory, whose other children stay, and the file system stays valid |
| FileContent.RemoveDir | virtualFileSystem.c:229-235 | -1 exactly for anything but a live directory, -2 exactly for a directory with children, no change on either; otherwise it leaves its parent, blocks and disk are untouched, and the file system stays valid |
| VfsPath.Components | virtualFileSystem.c:261-268 | the names climbed from a node up to the root, outermost first; none exactly for the root |
| VfsPath.Joined | virtualFileSystem.c:269-273 | the joined path is empty exactly when there are no components, and otherwise starts with '/' |
| VfsPath.FullPathShape | virtualFileSystem.c:259-276 | the path printed for any node starts with '/' and fits the 1024-character buffer |
| VfsPath.ChildPath | virtualFileSystem.c:264-273 | the path of a node below the root is its parent's path (empty for the root), a slash and its name, while it fits the buffer |
| VfsPath.Tokens | virtualFileSystem.c:285-295 | `strtok` on "/" yields non-empty slash-free tokens |
| VfsPath.TokensOfJoined | virtualFileSystem.c:285-295 | splitting a joined path of non-empty slash-free names gives back exactly those names |
| VfsPath.Walk | virtualFileSystem.c:286-296 | a walk that reaches somewhere reaches a live directory |
| VfsPath.WalkAppend | virtualFileSystem.c:287-296 | walking over more tokens continues from where the first tokens led |
| VfsPath.WalkComponents | virtualFileSystem.c:287-296 | walking from the root over a directory's own components reaches that directory |
| VfsPath.ChangeDirPath | virtualFileSystem.c:278-301 | usage error exactly for an empty path; any failure leaves the file system unchanged; only the current directory ever changes, and validity is kept |
| VfsPath.MoveKeepsValid | virtualFileSystem.c:297 | making any live directory the current directory keeps the file system valid |
| VfsPath.CdDot | virtualFileSystem.c:289 | `cd .` succeeds and stays put |
| VfsPath.CdSlash | virtualFileSystem.c:281 | `cd /` moves to the root |
| VfsPath.CdDotDot | virtualFileSystem.c:290 | `cd ..` moves to the parent, stays at the root, and never enters a child named ".." |
| VfsPath.FindNamedChild | virtualFileSystem.c:291 | with sibling names distinct, looking up a child's own name finds that child |
| VfsPath.CdFullPath | virtualFileSystem.c:259-301 | `cd` to the path `pwd` prints for a directory returns to that directory, when the path fits and its names are proper |
| VfsPath.CdIntoAndBack | virtualFileSystem.c:287-297 | `cd name/..` for a child directory leaves the current directory where it was |
| WriteArgs.SkipSpace | virtualFileSystem.c:324 | the first non-space position at or after i, with only white space skipped |
| WriteArgs.NameEnd | virtualFileSystem.c:327 | the name stops at white space, at the end, or after MAX_NAME_LEN characters, and holds no white space |
| WriteArgs.Find | virtualFileSystem.c:334 | the first position at or after i holding the quote, or the end |
| WriteArgs.TrimNewlines | virtualFileSystem.c:341-342 | the text without its trailing run of '\n' and '\r', and nothing else removed |
| WriteArgs.ParseWriteArgs | virtualFileSystem.c:319-348 | the name is at most MAX_NAME_LEN non-space characters; it is empty exactly for an all-blank line, and then there is no content |
| WriteArgs.ParseQuoted | virtualFileSystem.c:331-339 | a name and a quoted text give the name and exactly the text between the quotes; anything after the closing quote is ignored |
| WriteArgs.ParseUnquoted | virtualFileSystem.c:340-347 | a name and unquoted text give the name and the text |
| WriteArgs.ParseNameOnly | virtualFileSystem.c:329-330 | a name alone gives the name and no content |
| WriteArgs.LongNameSpills | virtualFileSystem.c:327-330 | a name longer than MAX_NAME_LEN is cut, and the rest of it starts the content |
| VfsShell.Lookup | virtualFileSystem.c:137-147 | the lookup in the current directory finds a child carrying exactly the name (never the root or the current directory itself), or establishes that no child carries it |
| VfsShell.Bytes | virtualFileSystem.c:433 | the characters of the command line are handed over as bytes, one per character, each the character code modulo 256 |
| VfsShell.Attach | virtualFileSystem.c:242-243 | the new node takes the next handle, is listed last in the current directory, is what its name then finds, nothing else changes, and validity is kept |
| VfsShell.AttachedValid | virtualFileSystem.c:242-243 | attaching a node whose name no sibling has keeps the file system valid |
| VfsShell.AttachedFound | virtualFileSystem.c:241-243 | the attached node is what looking its name up finds |
| VfsShell.Make | virtualFileSystem.c:237-257 | `mkdir` and `create`: usage exactly for an empty name, then too long, containing '/', already present, each exactly under its condition and in that order, with no change; otherwise the directory or the empty file is created and found by its name, the free count unchanged |
| VfsShell.MakeKeepsSlashFree | virtualFileSystem.c:240 | `mkdir` and `create` never create a name containing '/' |
| VfsShell.SlashNameNotFound | virtualFileSystem.c:416 | in a file system built by these commands, a name containing '/' is never found by the bare-name lookup |
| VfsShell.GoneFromCwd | virtualFileSystem.c:416-420 | once a child is gone from the current directory, looking its name up finds nothing |
| VfsShell.RmdirCmd | virtualFileSystem.c:413-422 | usage, not found, not a directory and not empty, each exactly under its condition and with no change; otherwise the directory is removed, its name no longer found, blocks and disk untouched |
| VfsShell.ReadCmd | virtualFileSystem.c:439-445 | usage, not found and is a directory exactly under their conditions; otherwise exactly what `readFile` prints for the file |
| VfsShell.DeleteCmd | virtualFileSystem.c:446-453 | usage, not found and is a directory exactly under their conditions, with no change; otherwise the file is gone, its name not found, and the free count grows by its block count |
| VfsShell.LookupSameTree | virtualFileSystem.c:429-433 | a write leaves every name lookup as it was |
| VfsShell.WriteFound | virtualFileSystem.c:432-437 | writing the text either succeeds with its length as size, after which reading the name prints exactly its bytes, or is refused for space exactly when it needs more blocks than are free, with no change |
| VfsShell.WriteCmd | virtualFileSystem.c:423-438 | usage exactly for an empty line, missing name exactly for a blank one, not found exactly when no child of the current directory has the name, is a directory exactly when the name finds a directory, out of space exactly when the text needs more blocks than are free, and a success in every other case; no change on any refusal; a success reports the text's length and reading the name then prints exactly the text |
| VfsShell.WrittenIsRead | virtualFileSystem.c:433-444 | after a successful write, `read` of the same name prints exactly the bytes written |
| VfsShell.UnlinkAttached | virtualFileSystem.c:123-135 | unlinking the node attached last gives back the arena it was attached to, with one more empty slot |
| VfsShell.DetachAttached | virtualFileSystem.c:224-225 | removing a freshly attached node restores the file system, apart from the emptied slot |
| VfsShell.MakeThenRmdir | virtualFileSystem.c:413-422 | `rmdir` of a directory `mkdir` has just made succeeds and restores the file system, apart from the emptied slot |
| VfsShell.CreateThenDelete | virtualFileSystem.c:446-453 | `delete` of a file `create` has just made succeeds and restores the file system, apart from the emptied slot |
| LruCache.IsValidIntegerString | lruCacheImplementation.c:31-41 | accepted exactly when the string is non-empty and all decimal digits |
| LruCache.HashIndex | lruCacheImplementation.c:43-45 | C's truncating `%`: a bucket index for a non-negative key, a value in (-1009, 0] for a negative one |
| LruCache.HashIndexSpread | lruCacheImplementation.c:43-45 | keys 1009 apart share a bucket, and each key below 1009 is its own bucket |
| LruCache.Truncate | lruCacheImplementation.c:54-55 | a stored value is the whole value when it fits and exactly its first MAX_STRING_LENGTH-1 characters otherwise |
| LruCache.MoveToFront | lruCacheImplementation.c:73-98 | the entry comes first and the others keep their relative order; the queue's entries and keys are unchanged as a multiset and stay distinct |
| LruCache.InsertFront | lruCacheImplementation.c:100-113 | the new entry comes first, in front of the unchanged queue |
| LruCache.RemoveRear | lruCacheImplementation.c:115-129 | the rear entry is detached and returned, and the rest of the queue is kept in order |
| LruCache.TableInsert | lruCacheImplementation.c:144-149 | the key goes to the head of its own bucket; every other bucket is unchanged and the table gains exactly that key |
| LruCache.ChainDelete | lruCacheImplementation.c:156-168 | a chain without the key is kept as it is |
| LruCache.ChainDeleteCount | lruCacheImplementation.c:156-168 | the chain loses exactly one occurrence of a key it chains |
| LruCache.ChainDeleteFirst | lruCacheImplementation.c:156-168 | only the first entry with the key is unlinked; the others keep their order |
| LruCache.TableDelete | lruCacheImplementation.c:151-169 | only the key's bucket changes, losing its first entry with the key; a key not chained changes nothing |
| LruCache.CreateLruCache | lruCacheImplementation.c:171-194 | NULL exactly for a capacity outside 1..1000; otherwise a valid empty cache of that capacity with every bucket empty |
| LruCache.QueuedIffChained | lruCacheImplementation.c:131-142 | in a valid cache a key is queued exactly when its bucket chains it |
| LruCache.SizeCountsBoth | lruCacheImplementation.c:215-225 | `currentCacheSize` equals both the number of queued entries and the number of table entries |
| LruCache.Search | lruCacheImplementation.c:131-142 | looking a key up through its bucket finds its queue entry exactly when it is cached |
| LruCache.Get | lruCacheImplementation.c:196-203 | a miss returns NULL and changes nothing; a hit returns the stored value and moves the entry to the front, as the reference cache does; the table and size are untouched and validity is kept |
| LruCache.MoveKeepsValid | lruCacheImplementation.c:201 | moving an entry to the front keeps the cache invariant |
| LruCache.PutExisting | lruCacheImplementation.c:206-213 | a key already present takes the truncated value and moves to the front; size and table are unchanged |
| LruCache.Evict | lruCacheImplementation.c:215-220 | a full cache drops its rear entry from both queue and table, and the size drops by one |
| LruCache.PutNew | lruCacheImplementation.c:222-225 | a new key enters at the front of the queue and its bucket, and the size grows by one |
| LruCache.Put | lruCacheImplementation.c:205-226 | the cache stays valid, and its queue is what the reference put gives: a present key is updated and moved to the front; a new key evicts the rear when full, then enters at the front |
| LruCache.PutThenGet | lruCacheImplementation.c:196-226 | a get right after a put of the same key returns the truncated value |
| LruCache.PutKeepsOthers | lruCacheImplementation.c:205-226 | a put changes what is held for no other key, except the rear key a full cache evicts for a new one |
| LruCache.PutEvictsRear | lruCacheImplementation.c:215-220 | a full cache taking a new key no longer holds its least recently used key |
| LruCache.GetKeepsHeld | lruCacheImplementation.c:196-203 | a get changes what is held for no key |
| LruCache.RefPutDistinct | lruCacheImplementation.c:205-226 | the reference put keeps the keys distinct and at most `capacity` entries |
| Calculator.RemoveSpaces | calculator.c:6-15 | the result is the input with every white-space character removed and the others kept in order |
| Calculator.StrippedAppend | calculator.c:8-13 | stripping works piece by piece, so the kept characters stay in their order |
| Calculator.StrippedIdempotent | calculator.c:6-15 | stripping a stripped string changes nothing |
| Calculator.CheckValidation | calculator.c:21-36 | accepted exactly when non-empty, a digit at both ends, only digits and `+ - * /`, and no two operators side by side |
| Calculator.Op | calculator.c:38-55 | the error flag is raised exactly for `/` with a zero divisor, which gives 0; a non-operator gives 0 |
| Calculator.CDivTruncates | calculator.c:52 | C's division leaves a remainder smaller than the divisor with the dividend's sign, and agrees with Dafny's on non-negative operands |
| Calculator.DigitRun | calculator.c:80-83 | the digit loop stops at the end of the maximal digit run |
| Calculator.Tokenize | calculator.c:78-90 | on digits and operators: one more number than operators when the text ends in a digit, and every token kept is an operator |
| Calculator.JoinValid | calculator.c:21-36 | digit runs joined by single operators form a valid expression |
| Calculator.TokenizeJoin | calculator.c:78-90 | tokenising non-empty digit runs joined by operators gives the decimal value of each run and the operators between them, in order |
| Calculator.ValidIsJoin | calculator.c:21-36 | conversely, every valid expression is such a join: cutting it into its maximal digit runs and operators and joining them again gives it back, so the joins are exactly the valid expressions |
| Calculator.TokenizeValid | calculator.c:78-90 | tokenising ANY valid expression gives the decimal value of each of its maximal digit runs and the operators between them, in order, and its division error arises exactly from a `/` followed by a run of zeros only |
| Calculator.ZeroDivisorText | calculator.c:47-51 | on joined digit runs, the division error arises exactly from a `/` followed by a run of zeros only |
| Calculator.FoldDivisionByZero | calculator.c:96-109 | folding one `*` or `/` loses a zero divisor only at that operator |
| Calculator.FoldStep | calculator.c:96-109 | folding at a position keeps the pending expression, read as a sum of products |
| Calculator.FirstPass | calculator.c:93-111 | the pass leaves the terms of the sum-of-products reading and only `+` and `-`; the flag is raised exactly when some `/` has a zero right operand |
| Calculator.SecondPass | calculator.c:112-115 | the result is the left-to-right fold of the remaining `+` and `-` over the terms |
| Calculator.ProductsFirst | calculator.c:93-115 | for all operands, products bind tighter than sums on either side: a+b*c is a+(b*c) and a*b+c is (a*b)+c |
| Calculator.LeftToRight | calculator.c:93-115 | for all operands with a non-zero divisor, both levels associate to the left: a/b*c is (a/b)*c with C's truncating division, and a-b-c is (a-b)-c |
| Calculator.Calculate | calculator.c:57-122 | "Invalid Expression" exactly when the stripped line is not valid; otherwise one more number than operators, "Division by Zero" exactly when some `/` has a zero right operand, and else the precedence value |
| Sonar.Swap4 | sonarImageProcessing.c:48-57 | the four-way swap moves the left cell to the top, the bottom to the left, the right to the bottom and the top to the right, and touches no other cell |
| Sonar.SwapStep | sonarImageProcessing.c:45-58 | each swap extends the set of cells that already hold their rotated value |
| Sonar.RingDone | sonarImageProcessing.c:45 | a ring is finished once the inner index reaches its last index |
| Sonar.AllRingsDone | sonarImageProcessing.c:42 | once the n/2 outer rings are done the corner is rotated; an odd n's centre maps onto itself |
| Sonar.RotateClockwise | sonarImageProcessing.c:38-60 | afterwards cell (i, j) holds the old cell (n-1-j, i) for all i, j below n, and cells with a row or column at least n are untouched |
| Sonar.RotationPermutes | sonarImageProcessing.c:42-59 | every cell (a, b) of the corner lands at (b, n-1-a), so the corner is permuted |
| Sonar.RotationKeepsBytes | sonarImageProcessing.c:53-57 | rotating keeps every cell an `unsigned char` |
| Sonar.FourTurns | sonarImageProcessing.c:48-57 | four quarter turns give back the original matrix |
| Sonar.NeighbourhoodContents | sonarImageProcessing.c:77-87 | the neighbourhood holds exactly the corner cells at most one row and one column away, and always the cell itself, so the count is at least 1 |
| Sonar.AverageBetween | sonarImageProcessing.c:90 | the floor of the mean of a non-empty list lies between its smallest and largest element |
| Sonar.SmoothedWithinNeighbourhood | sonarImageProcessing.c:74-90 | each smoothed value lies between the least and the greatest value of its neighbourhood before smoothing |
| Sonar.SmoothingKeepsBytes | sonarImageProcessing.c:90 | every smoothed value fits an `unsigned char` again |
| Sonar.FlatStaysFlat | sonarImageProcessing.c:72-106 | smoothing a flat picture leaves it flat |
| Sonar.BandStats | sonarImageProcessing.c:81-87 | the column loop adds up exactly the corner cells of one row among the three columns and counts them |
| Sonar.NeighbourStats | sonarImageProcessing.c:74-88 | the two offset loops give the sum and the count of exactly the neighbourhood |
| Sonar.RowAverages | sonarImageProcessing.c:73-91 | the buffer receives the floor average of each neighbourhood of the row |
| Sonar.WriteRow | sonarImageProcessing.c:93-97 | only the first n cells of the row change, each to its buffered value |
| Sonar.RowFinished | sonarImageProcessing.c:93-101 | writing the buffered averages finishes the previous row |
| Sonar.WindowsStillOriginal | sonarImageProcessing.c:72-101 | the rows an average reads still hold the picture before smoothing when that average is computed |
| Sonar.AllRowsFinished | sonarImageProcessing.c:104-106 | writing the last buffer finishes the smoothing |
| Sonar.ApplySmoothing | sonarImageProcessing.c:62-107 | despite writing in place, every corner cell ends as the floor average of its neighbourhood in the picture before smoothing, and other cells are untouched |
| Players.RoleIndex | iccOdiPlayerPerformance.c:12 | every role has one of the four enum values 0..3 |
| Players.RoleAt | iccOdiPlayerPerformance.c:12 | the role listed at position k has the enum value k |
| Players.ParseRole | iccOdiPlayerPerformance.c:120-126 | NULL gives RoleUnknown; "Batsman", "Bowler" and the three all-rounder spellings are recognised in any case; RoleUnknown exactly for NULL and for a text matching none of the five spellings |
| Players.RoleNameParses | iccOdiPlayerPerformance.c:232 | the name printed for each known role parses back to that role |
| Players.CaseInsensitiveTransitive | iccOdiPlayerPerformance.c:122-124 | spellings equal ignoring case compare the same with any third string |
| Players.ParseRoleIgnoresCase | iccOdiPlayerPerformance.c:120-126 | spellings that differ only in case parse to the same role |
| Players.UnrecognisedRole | iccOdiPlayerPerformance.c:125 | a string matching none of the five spellings gives RoleUnknown |
| Players.NameCharsOk | iccOdiPlayerPerformance.c:106-112 | accepted exactly when every character is a letter, digit, white space, '.' or '-' |
| Players.AcceptNameLine | iccOdiPlayerPerformance.c:100-113 | an accepted line is a valid name, possibly followed by one '\n'; a refused line is no valid name followed by '\n', and when it has no trailing newline it is not itself a valid name |
| Players.NameRoundTrip | iccOdiPlayerPerformance.c:100-116 | a valid name typed with its newline is accepted as exactly that name |
| Players.ReadNameLine | iccOdiPlayerPerformance.c:95-118 | the strict reader's verdict on a line is `AcceptNameLine` |
| Players.InitialTeams | iccOdiPlayerPerformance.c:210-219 | the table holds MAX_TEAMS teams |
| Players.InitialLayout | iccOdiPlayerPerformance.c:210-219 | team k has id k+1, so the ids ascend |
| Players.InitialConsistent | iccOdiPlayerPerformance.c:210-219 | the initial league is consistent, with empty role lists matching empty teams, and ids are unique |
| Players.FindTeamIndexById | iccOdiPlayerPerformance.c:174-183 | on ascending ids, an index whose id is the target (the only such index), or -1 exactly when no team has the id |
| Players.FindInInitialTable | iccOdiPlayerPerformance.c:174-183 | on the initial table, id k is found at index k-1 for 1..10 and every other id gives -1 |
| Players.FirstTeamNamed | iccOdiPlayerPerformance.c:186-187 | the first team from i on whose name equals the given name ignoring case, or -1 exactly when there is none |
| Players.WithRoleMembers | iccOdiPlayerPerformance.c:311-316 | the players of a role are exactly the list's players with that role |
| Players.IsPlayerIdPresent | iccOdiPlayerPerformance.c:163-172 | true exactly when some team's list holds a player with the id |
| Players.InsertPlayer | iccOdiPlayerPerformance.c:185-196 | nothing changes when no team name matches; otherwise the player is prepended to the first matching team, its count grows by one, and the player is prepended to its role list, everything else unchanged |
| Players.InsertKeepsRoleLists | iccOdiPlayerPerformance.c:188-192 | after insertion each role list still holds exactly the players of that role across all teams |
| Players.InsertKeepsTeams | iccOdiPlayerPerformance.c:185-196 | insertion keeps each team's count equal to its list length and every player filed under a team of its team name |
| Players.InsertKeepsConsistent | iccOdiPlayerPerformance.c:185-196 | insertion keeps the league consistent |
| Players.InsertKeepsIdsUnique | iccOdiPlayerPerformance.c:185-196 | inserting a player with a fresh id keeps player ids unique |
| Players.GatherTeamByRole | iccOdiPlayerPerformance.c:306-320 | exactly the team's players of the role, in list order, and their number |
| Players.GatherByRole | iccOdiPlayerPerformance.c:356-368 | every node of the role list, in order, and their number |
| Players.GatherByRoleIsAllOfRole | iccOdiPlayerPerformance.c:356-368 | in a consistent league the role list holds exactly the players of that role across all teams |
| Players.AddPlayer | iccOdiPlayerPerformance.c:236-262 | team not found exactly for an unknown id; full exactly when the team has 50 players; a taken player id is never added; a refusal changes nothing; an added player joins the chosen team with its name cut to MAX_NAME_LENGTH-1 characters; consistency and unique ids are kept |
| Players.AddedToChosenTeam | iccOdiPlayerPerformance.c:258-259 | the new player lands at the head of the team chosen by id, whose count grows by one |
| Inventory.IsProductNameValid | dynamicInventoryManagementSystem.c:66-77 | accepted exactly when 1 to 50 letters, digits, spaces and hyphens with no leading, trailing or doubled space |
| Inventory.TwoWordName | dynamicInventoryManagementSystem.c:66-77 | two words of letters, digits and hyphens joined by one space are a valid name when they fit |
| Inventory.FindSubstringIgnoreCase | dynamicInventoryManagementSystem.c:94-103 | NULL for a NULL input; position 0 for an empty search text; otherwise the first position where the search text matches ignoring case, or NULL exactly when there is none |
| Inventory.MatchIgnoresCase | dynamicInventoryManagementSystem.c:99 | search texts equal ignoring case match at the same positions |
| Inventory.ContainsItself | dynamicInventoryManagementSystem.c:94-103 | a name always contains itself, in any case |
| Inventory.MatchingProducts | dynamicInventoryManagementSystem.c:171-191 | the products listed are exactly those whose name contains the search text ignoring case |
| Inventory.SearchProductById | dynamicInventoryManagementSystem.c:105-111 | the lowest index holding the id, or -1 exactly when no product has it |
| Inventory.IsProductIdUnique | dynamicInventoryManagementSystem.c:113-115 | unique exactly when no product has the id |
| Inventory.AddProduct | dynamicInventoryManagementSystem.c:117-141 | refused exactly once 100 products exist; below that, a duplicate exactly when the id is in range and taken, rejected exactly when the id is out of range or the name, price or quantity is; appended exactly in every other case; a refusal changes nothing; at most 100 products with unique ids are kept |
| Inventory.UpdateQuantity | dynamicInventoryManagementSystem.c:156-169 | no products exactly for an empty inventory; out of range exactly for an id outside 1..10000, or a found id with a quantity outside 0..1000000; not found exactly for an in-range id nobody has, whatever the quantity; updated exactly in every other case, when only the quantity of the first product with the id (the index `searchProductByID` returns) changes; no change on any refusal |
| Inventory.ShiftOut | dynamicInventoryManagementSystem.c:220-221 | the shift loop gives the list without the element at the index, the others in order |
| Inventory.DeleteProduct | dynamicInventoryManagementSystem.c:212-228 | no products exactly for an empty inventory; out of range exactly for an id outside 1..10000; not found exactly for an in-range id nobody has; removed exactly in every other case: the first product with the id (the index `searchProductByID` returns) is removed, the others keep their order, and with unique ids no product with the id remains; no change on any refusal |
| Inventory.RemoveAtKeepsOthers | dynamicInventoryManagementSystem.c:218-222 | removing one element takes exactly it out of the multiset, shortens the list by one and keeps ids unique |
| Inventory.AddThenDelete | dynamicInventoryManagementSystem.c:212-228 | deleting the product just appended gives the old list back |
| Students.IsValidRollNumber | studentPerformanceAnalyzer.c:17-24 | accepted exactly when non-NULL, non-empty, all digits, and of value at least 1 |
| Students.RollNumberShape | studentPerformanceAnalyzer.c:17-24 | a roll number is valid exactly when it is all digits with some digit other than '0' |
| Students.IsValidName | studentPerformanceAnalyzer.c:26-32 | accepted exactly when non-NULL, non-empty, and only letters and spaces |
| Students.FullNameValid | studentPerformanceAnalyzer.c:131-137 | "first last" is valid exactly when both words are letters only |
| Students.Grade | studentPerformanceAnalyzer.c:41-47 | one of A, B, C, D, F; 'A' exactly from 85 and 'F' exactly below 35 |
| Students.GradeMonotone | studentPerformanceAnalyzer.c:41-47 | a higher average never earns a worse grade |
| Students.GradeBands | studentPerformanceAnalyzer.c:41-47 | each grade other than F is earned exactly from its threshold up to the next grade's threshold |
| Students.IsDuplicateRollNumber | studentPerformanceAnalyzer.c:57-62 | true exactly when the roll number occurs among the first `count` entries |
| Students.Admit | studentPerformanceAnalyzer.c:119-154 | a bad roll number, a duplicate, a bad name and bad marks are refused in that order, each exactly under its condition; otherwise the roll number joins the list, which stays free of repeats |
| Students.SwapNext | studentPerformanceAnalyzer.c:67-71 | exchanging two neighbours keeps every other entry and the multiset |
| Students.BubblePass | studentPerformanceAnalyzer.c:66-72 | one inner pass keeps the multiset and carries the largest remaining entry to the end of the unsorted part |
| Students.SortRollNumbers | studentPerformanceAnalyzer.c:64-74 | the result is sorted ascending and a permutation of the input |
| Students.SortedDistinctAscending | studentPerformanceAnalyzer.c:174 | sorting the distinct roll numbers lists them strictly ascending |

## Left out

- Shells, menus and prompt loops are left out as standard-input plumbing. This covers `promptAndRun`, every `main` menu, the `read*InRange` and `getValidated*` loops, `getMatrixSize` and all output formatting. The commands are modelled from the point where their arguments are in hand. The shell's splitting of a line into command and arguments (virtualFileSystem.c:392-406) is not modelled.
- `ls`, `pwd` (beyond the path `buildFullPath` renders) and `df` only print, so they are left out. `df`'s usage percentage is also floating point.
- crud.c, crudOps.c and crudops.c are left out: they are CRUD over a text file through `fopen`, `fscanf`, `fprintf` and `rename`.
- Floating-point code is left out. This covers:
  - `computePerformanceIndexForPlayer`, `recomputeAverageStrikeRateForTeam` and the `qsort` comparators and top-K displays;
  - the product price-range search (prices are carried as `real` and only range-checked);
  - `isValidMark` and the marks total and average.
  `Students.Grade` takes the average as a `real`. `Students.Admit` takes the verdict on the marks as a parameter.
- Memory management is left out: `malloc`, `realloc`, `free`, the out-of-memory exits in `fatal`, `freeEntireCache`, `cleanupAll`, `freeAllAllocatedMemoryAndExit` and `storeAllocatedPlayerPointer`. Arenas and sequences stand for the heap. A freed VFS node leaves an empty arena slot that is never reused.
- `loadPlayersFromHeaderIntoStructures` is left out: Players_data.h is not part of this model. The initial team names are a parameter.
- The random fill of the sonar matrix is left out; the matrix is an input.
- `printRollNumbers` is left out: it calls `printRollsRecursive`, which the program never defines.
- C `int` overflow is left out:
  - `atoi` and the calculator's `num*10 + digit` are unbounded here;
  - `+`, `-` and `*` in `operations` do not wrap;
  - sizes, counters and ids are mathematical integers.
- The calculator's fixed 31-character input buffer is left out. `fgets` keeps at most 30 characters and the rest of the line is never read. `Calculator.Calculate` takes the line as read.
- VfsShell.Bytes: command lines are taken to be ASCII text without NUL. A character stands for one byte, its code modulo 256. C sees the several UTF-8 bytes of a non-ASCII character, and every C string ends at its first NUL. For other input, the length of the written text, its block count and the size reported differ from C.
- Calculator.RemoveSpaces: the line is taken to hold no NUL. C's copy loop (calculator.c:8-13) stops at the first NUL, while the model strips the whole string.
- Calculator.Calculate: the value of `-` and `*` is that of unbounded integers, so an expression whose intermediate value overflows a 32-bit `int` is not modelled as C computes it.
- The LRU hash table's queue-node pointer is not kept. A hash entry is its key, and the node it points to is the queue entry with that key; the invariant ties the two together.
- LruCache.HashIndex: keys are `nat` in the cache, as the shell only passes strings accepted by `isValidIntegerString`. A negative key, which would index outside the table in C, is only described by the sign of its remainder.
- Players.AddPlayer: the loop re-asking for a player id that already exists (iccOdiPlayerPerformance.c:244-248) is modelled as one refusal, `DuplicateId`. The range prompts for the team id and the statistics are not modelled. The team name is filed as the team stores it, without the second cut at line 149: every team name is built by `CType.BoundedCopy` (lines 213-214), so that cut changes nothing.
- Inventory.UpdateQuantity: the prompt loops that re-ask for an id or a quantity outside its range (dynamicInventoryManagementSystem.c:161, 164) are modelled as one refusal, `OutOfRange`. `Inventory.DeleteProduct` does the same for the id prompt at line 217.
- Inventory.AddProduct: the prompt loops that re-ask for a duplicate id or an out-of-range value (dynamicInventoryManagementSystem.c:129-138) are modelled as one refusal each, `DuplicateId` and `Rejected`.
- Players.AcceptNameLine: the refusal side says only that the line is no valid name followed by one newline, and is not itself a valid name when it lacks a trailing newline. `isspace` accepts '\n' as a name character, so a line ending in two newlines can be accepted with one of them kept.
- VfsPath.ChangeDirPath: its contract states the usage error, that nothing but the current directory changes, and that failures change nothing. The successful walks are stated by `VfsPath.CdDot`, `VfsPath.CdSlash`, `VfsPath.CdDotDot`, `VfsPath.CdFullPath` and `VfsPath.CdIntoAndBack`, not for every path.
- The path printed by `buildFullPath` is modelled up to the 1024-character buffer. Deeper than 256 levels, its name stack (virtualFileSystem.c:261) would overflow in C; the model does not bound the depth.
