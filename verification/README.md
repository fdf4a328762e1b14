# Verified models of the translation tools

A Dafny project that models the algorithmic parts of the gettext and git helpers
of this repository and proves what they are for. Check everything with
`dafny verify dfyconfig.toml`.

| module | what it models |
|---|---|
| StringOrder, GitTree, TreeDiff, TreeNames | byte-string order, git trees, the recursive difference of two trees, finding files by names |
| Commits, CommitTimes, Repositories | the changes of one commit, commit times, the history index and its queries |
| BlobIterators | the stack-based iterator over the files of a tree |
| Sha1Spec, Sha1Numbers, Sha1, Sha1Example | SHA-1 as FIPS 180-4 defines it, what its bit operations do to numbers, the streaming unrolled implementation, a known digest |
| Powers, Sequences, Options | what several of the others need |
| MappedFiles, IdForest, IdMapDbs | files that grow by megabytes, the parent-pointer forest of ids, the database of ids |
| MessageTexts, EqualMessages, Connectivity | message keys and their order, collapsing ids of equal messages |
| Translations, IddiffSections, Iddiffs, IddiffPatching, SortedIds, IddiffRoundTrip | translation patches: sections, insertion, merge, diff, apply, minimised ids |
| GraphCondensers | clusters of a graph by depth-first search |
| GreedyCoverage | greedy choice of files that contain all ids of a patch |
| TrDbLogs, TrDbs | linked lists of messages in one append-only byte log |

Objects that the C++ code updates in place are classes here, and its loops are
loops. Each method is proved against functions or predicates on values, and
the lemmas say what those mean.

Conventions:

- A failed assertion of the source that depends on the data is a failed outcome
  (`ok == false`, `None`); an assertion about the caller is a precondition.
- Names and paths are NUL-free byte strings, modelled as `string`.
- Objects with the same git id have the same content: all trees come from one
  object database, given as a ghost map. A tree is sorted as the source checks it.
- The answer of the id server (the minimiser, the first id of a file) is a
  parameter.
- An ordered `std::map` is a sorted list of slots or a `map` read in ascending
  order of its keys.

Where the code does not do what its comments say, the model follows the code:

- A file at the root of a tree gets the full name "/name", which can break the
  order that the binary search of a commit relies on. `Commits.DiffSearchIff`
  says exactly when the search works, `Commits.RootFileIsMissed` gives a tree
  where it does not, and `Repositories.HistoryTells` says what this means for
  the lookups in a history.
- `addRow` with the id 0 cuts the other id off its chain
  (`IdForest.MergeWithZero`).
- `addRow` re-points only the two ids it is given, so classes can be split.
  `IdForest.MergeIsCompleteIff` says when they are joined, and
  `IdForest.MergeCanSplit` gives the failing case.
- The greedy choice of files is not a minimal set in general
  (`GreedyCoverage.NotMinimal`, `GreedyCoverage.DisjointIsSmallest`).
- `acceptTranslation` never replaces another translation: that branch inserts
  before it removes and fails its own check.
- The reader of the translation database never fills in translations: a message
  read back has no plural forms.
- An empty subdirectory makes the file iterator spin: `BlobIterators.EndsIff`
  says that it ends exactly when there is none.

## Model

| member | source | states |
|---|---|---|
| TreeDiff.WalkIsMerge | gettextpo-helper/gtpo/repository.cpp:81-223 | the recursive walk over two sorted directory trees, which skips subtrees of equal id, emits exactly the list that one linear merge of the two flattened file lists emits (also where a file becomes a directory of the same name) |
| TreeDiff.MergeDiffSplit | gettextpo-helper/gtpo/repository.cpp:109-222 | merging splits at any boundary: if every path of the first halves is below every path of the second halves, the change list is the concatenation of the two halves' change lists |
| TreeDiff.MergeDiffExact | gettextpo-helper/gtpo/repository.cpp:125-207 | a path appears in the change list iff its content differs, at most once, with the right kind and the right old and new ids, and the list is sorted by path |
| TreeDiff.DiffTreesExact | gettextpo-helper/gtpo/repository.cpp:81-223 | the same for whole trees: changes and difference of the two snapshots (maps path to id) say the same, in both directions |
| TreeDiff.ReplayDiff | gettextpo-helper/gtpo/repository.cpp:81-223 | replaying the ADD/DEL/MOD list on the old snapshot gives the new snapshot |
| TreeDiff.ModesOkMeaning | gettextpo-helper/gtpo/repository.cpp:177-185 | the walk aborts on file modes iff some path holds files of different content in both trees whose modes changed in a way other than 100755 to 100644; equal subtrees, which are not looked into, make no difference |
| TreeDiff.OneModeChange | gettextpo-helper/gtpo/repository.cpp:177-185 | with the modes as numbers: a changed file keeps its mode or goes from 33261 (0100755) to 33188 (0100644), every other change of mode aborts |
| TreeDiff.ReplayLookup | gettextpo-helper/gtpo/commitfilechange.cpp:68-82 | after a replay each changed path holds the new id of its change (none for DEL), every other path what it held before |
| GitTree.EntriesBelow | gettextpo-helper/gtpo/repository.cpp:68-79 | the order of entries with '/' appended to directory names is the order of the flattened paths: everything in the smaller entry is below everything in the greater one |
| GitTree.PrefixIsBlob | gettextpo-helper/gtpo/repository.cpp:68-79 | an entry whose sort name is a proper prefix of another's is a plain file |
| GitTree.FlatSorted | gettextpo-helper/gtpo/repository.cpp:111-115 | a tree sorted as the source checks it flattens to a strictly sorted list of paths |
| StringOrder.LessMeaning | gettextpo-helper/gtpo/repository.cpp:68-79 | a string is less than another iff at the first place where they differ it ends or has the smaller byte |
| TreeNames.SnapshotResolves | gettextpo-helper/gtpo/repository.cpp:81-223 | a snapshot holds a file with this id at "/a/b/c" iff walking down the tree by the entry names a, b, c leads to it |
| TreeNames.SnapshotIsNamed | gettextpo-helper/gtpo/repository.cpp:81-223 | every location in a snapshot is such a string of names |
| TreeNames.DiffByNames | gettextpo-helper/gtpo/repository.cpp:81-223 | there is a change for a file, by the names of its directories and its own, iff walking down the two trees by these names does not lead to the same content; it holds what they lead to in either tree |
| TreeNames.ChangeHasNames | gettextpo-helper/gtpo/commitfilechange.cpp:40-45 | the path of every change is the joined names of its directories without a leading slash |
| TreeNames.CallerNames | gettextpo-helper/gtpo/commit.cpp:53-57 | a caller's path and name stand for the location whose names are those of the directories and the file |
| Commits.Commit.AddChange | gettextpo-helper/gtpo/commit.cpp:23-26 | a change is appended |
| Commits.Commit.FindChange | gettextpo-helper/gtpo/commit.cpp:59-82 | the binary search loop computes the specified search (whose meaning the lemmas below give) |
| Commits.Commit.FindRemovalOid | gettextpo-helper/gtpo/commit.cpp:95-104 | the old id of a found change if it is a DEL, else nothing |
| Commits.Commit.FindUpdateOid | gettextpo-helper/gtpo/commit.cpp:106-116 | the new id of a found change if it has one, else nothing |
| Commits.SearchFinds | gettextpo-helper/gtpo/commit.cpp:59-82 | on strictly sorted keys the search finds every change inside its bounds |
| Commits.DiffSortedByKey | gettextpo-helper/gtpo/commit.cpp:53-82 | the changes of a commit are strictly sorted by full name when neither tree has a blob at the root |
| Commits.SortedByKeyIff | gettextpo-helper/gtpo/commit.cpp:53-82 | a list sorted by path is sorted by full name iff every root-level change comes before just those changes in directories whose path begins with a byte above '/' |
| Commits.SearchIff | gettextpo-helper/gtpo/commit.cpp:59-82 | for distinct full names: the search finds every change of the list iff the list is strictly sorted by full name |
| Commits.KeysDistinct | gettextpo-helper/gtpo/commit.cpp:53-82 | the full names of the changes of a commit are distinct, also with root-level files |
| Commits.DiffChangesOk | gettextpo-helper/gtpo/repository.cpp:81-223 | the changes between two trees have slash-free names and paths without a leading slash |
| Commits.DiffSearchIff | gettextpo-helper/gtpo/commit.cpp:59-82 | between two trees: the search finds every change iff the changed root-level files fit into the order of the other changed files, a condition on the two snapshots |
| Commits.KeyNamesLocation | gettextpo-helper/gtpo/commit.cpp:53-57 | a change has the full name that a caller's path and name give iff it sits at the location they stand for; a path of "" stands for the root |
| Commits.RootFileIsMissed | gettextpo-helper/gtpo/commit.cpp:59-82 | a concrete sorted and stored tree with a root-level file whose addition the search misses |
| Commits.FoundByLocation | gettextpo-helper/gtpo/commit.cpp:59-82 | on changes sorted by full name, root-level ones included, a change is found for a name and path iff there is one at that location |
| Commits.OneCommit | gettextpo-helper/gtpo/commit.cpp:95-116 | both queries answer from the two snapshots for every name and path (the update id is the new content iff it differs from the old, the removal id is the old content iff there is no new one) iff the changed root-level files fit |
| Repositories.Repository.DiffTree | gettextpo-helper/gtpo/repository.cpp:81-223 | the loop over both entry lists, with its recursive calls, appends exactly the specified changes, or reports the abort |
| Repositories.Repository.DiffHeads | gettextpo-helper/gtpo/repository.cpp:118-221 | one turn of that loop advances one or both positions and appends the changes of the entries passed |
| Repositories.Repository.DiffRemoved | gettextpo-helper/gtpo/repository.cpp:125-147 | an entry only in the old tree: a DEL, or all DELs below a directory |
| Repositories.Repository.DiffAdded | gettextpo-helper/gtpo/repository.cpp:148-168 | an entry only in the new tree: an ADD, or all ADDs below a directory |
| Repositories.Repository.DiffSameName | gettextpo-helper/gtpo/repository.cpp:169-208 | entries of equal name: nothing, a MOD, the recursive difference, or the abort |
| Repositories.Repository.DiffCommit | gettextpo-helper/gtpo/repository.cpp:227-248 | a new commit object that holds the difference of the parent's and the commit's tree |
| Repositories.Repository.ReadBackwards | gettextpo-helper/gtpo/repository.cpp:275-299 | reading from the newest commit back to the root gives one described commit per commit of the history, or stops at a failing mode check |
| Repositories.Repository.ReadAll | gettextpo-helper/gtpo/repository.cpp:275-302 | the same from the root to the newest commit |
| Repositories.Repository.ReadRepositoryCommits | gettextpo-helper/gtpo/repository.cpp:266-329 | succeeds iff no commit changes a mode in an unsupported way and the commit times pass both checks; then the commits describe the history from root to head; a second call changes nothing |
| Repositories.Repository.CheckTimes | gettextpo-helper/gtpo/repository.cpp:304-326 | both time loops accept iff t[i] <= t[i+1]+394 and t[i] < t[i+2] throughout |
| Repositories.HistoryLink | gettextpo-helper/gtpo/repository.cpp:275-299 | neighbours in the history are parent and child |
| Repositories.HistoryTells | gettextpo-helper/gtpo/repository.cpp:381-396 | the per-commit queries answer from the life of every file (its content in each snapshot), in every commit, iff in every commit the changed root-level files fit |
| Repositories.RootFreeFits | gettextpo-helper/gtpo/repository.cpp:81-223 | a history without root-level files meets that condition |
| Repositories.Repository.FindLastUpdateOid | gettextpo-helper/gtpo/repository.cpp:381-396 | returns the newest update that the per-commit queries report up to the commit; where the root-level files fit, that is the last version of the file, and the content that the names of the path lead to if the file is in the tree of that commit |
| Repositories.LastVersionMeaning | gettextpo-helper/gtpo/repository.cpp:381-396 | that last version is the content in the commit's tree if the path is present there, nothing iff the path was in no tree so far, and the newest earlier content otherwise |
| Repositories.LastVersionByNames | gettextpo-helper/gtpo/repository.cpp:381-396 | the same by walking down the trees by names: the content they lead to in the commit's tree, nothing iff they led to no file in any tree so far |
| Repositories.NextVersionMeaning | gettextpo-helper/gtpo/repository.cpp:364-379 | the next update is the first content from the commit on, the newest commit included, that differs from what the commit before held; nothing iff there is none |
| Repositories.LostVersionMeaning | gettextpo-helper/gtpo/repository.cpp:346-362 | the last removal is the content before the last loss of the file within the bounds; nothing iff it was not lost there |
| Repositories.LastUpdateMeaning | gettextpo-helper/gtpo/repository.cpp:381-396 | the backward walk over commits equals the last version read off the file's life |
| Repositories.Repository.FindNextUpdateOid | gettextpo-helper/gtpo/repository.cpp:364-379 | returns the first update that the per-commit queries report from the commit on; where the root-level files fit, that is the first new content of the file |
| Repositories.NextUpdateMeaning | gettextpo-helper/gtpo/repository.cpp:364-379 | the forward walk over commits equals the next update read off the file's life |
| Repositories.Repository.FindLastRemovalOid | gettextpo-helper/gtpo/repository.cpp:346-362 | returns the newest removal reported in the eleven commits up to the given one; where the root-level files fit, that is the content at the last removal among them |
| Repositories.LastRemovalMeaning | gettextpo-helper/gtpo/repository.cpp:346-362 | the bounded backward walk equals the last removal read off the file's life |
| CommitTimes.AlmostMonotone | gettextpo-helper/gtpo/repository.cpp:304-326 | the two checks of neighbouring times imply t[i] <= t[j]+394 for all i < j |
| CommitTimes.LooseBounds | gettextpo-helper/gtpo/repository.cpp:398-423 | the bounds that the loose search ends with determine the answer up to 394 seconds, and exactly when the times are sorted |
| CommitTimes.NoneBefore | gettextpo-helper/gtpo/repository.cpp:400-401 | for a time before the first commit the answer is -1, and the commits that are not after it are within 394 seconds |
| Repositories.Repository.LastCommitByTime | gettextpo-helper/gtpo/repository.cpp:398-423 | returns j, which is -1 iff there is no commit or the first is after time, else t[j] <= time; commits behind j that are not after time are within 394 seconds of it, commits before j at most 394 seconds past it; on sorted times exactly the last commit not after time |
| Repositories.Repository.LooseSearch | gettextpo-helper/gtpo/repository.cpp:403-422 | the search loop terminates and never reaches its final assertion |
| Repositories.Repository.FindFileOidByTime | gettextpo-helper/gtpo/repository.cpp:426-442 | the newest update reported up to the commit found by time (the last version of the file where the root-level files fit); nothing for a time before the first commit; exact on sorted times |
| BlobIterators.BlobIterator.constructor | gettextpo-helper/gtpo/repository.cpp:630-648 | at begin the remaining blobs are all blobs of the tree |
| BlobIterators.BlobIterator.WalkBlob | gettextpo-helper/gtpo/repository.cpp:650-684 | moves the stack to the next blob and loses none; terminates for trees without empty subdirectories |
| BlobIterators.BlobIterator.Increment | gettextpo-helper/gtpo/repository.cpp:686-692 | removes exactly the first of the remaining blobs |
| BlobIterators.BlobIterator.Current | gettextpo-helper/gtpo/repository.cpp:694-702 | the first of the remaining blobs |
| BlobIterators.AllBlobs | gettextpo-helper/gtpo/repository.cpp:630-721 | iterating from begin to end visits the blobs of the tree, each once, in flatten order |
| BlobIterators.BlobsAreFlat | gettextpo-helper/gtpo/repository.cpp:614-684 | that order is the order of the flattened file list used for diffs |
| BlobIterators.StepLeaves | gettextpo-helper/gtpo/repository.cpp:665-674 | leaving a directory keeps the remaining blobs and lowers the remaining work |
| BlobIterators.StepEnters | gettextpo-helper/gtpo/repository.cpp:675-678 | entering a non-empty directory keeps the remaining blobs and lowers the remaining work |
| BlobIterators.EndsIff | gettextpo-helper/gtpo/repository.cpp:630-721 | incrementing from begin reaches the end after some number of steps iff no directory below the root is empty |
| BlobIterators.TrapStays | gettextpo-helper/gtpo/repository.cpp:650-692 | as long as an empty directory lies ahead, every step leaves it ahead and the iterator is not at its end |
| BlobIterators.StepWorks | gettextpo-helper/gtpo/repository.cpp:650-692 | without empty directories every step lowers a measure of the remaining work |
| BlobIterators.EmptyDirIsATrap | gettextpo-helper/gtpo/repository.cpp:614-625 | an empty subdirectory is not entered and not passed: the loop step leaves the stack as it is |
| Sha1.ChoiceIsCh | gettextpo-helper/gtpo/block-sha1/sha1.cpp:127-128 | ((C^D)&B)^D is Ch (section 4.1.1 of FIPS 180-4) |
| Sha1.SumIsMaj | gettextpo-helper/gtpo/block-sha1/sha1.cpp:130 | the sum (B&C)+(D&(B^C)) never carries and is Maj (section 4.1.1) |
| Sha1.WindowMoves | gettextpo-helper/gtpo/block-sha1/sha1.cpp:113 | writing word t at place t mod 16 keeps the ring holding the last sixteen schedule words |
| Sha1.MixIsSchedule | gettextpo-helper/gtpo/block-sha1/sha1.cpp:120 | mixing four words of the ring gives word t of the 80-word schedule (section 6.1.3) |
| Sha1.T_0_15 | gettextpo-helper/gtpo/block-sha1/sha1.cpp:122-127 | rounds 0-15 with input from the block: one step of the textbook round on rotated variable names, ring moved on |
| Sha1.T_16_19 | gettextpo-helper/gtpo/block-sha1/sha1.cpp:122-128 | rounds 16-19 from the ring: one step of the textbook round on rotated variable names, ring moved on |
| Sha1.T_20_39 | gettextpo-helper/gtpo/block-sha1/sha1.cpp:122-129 | rounds 20-39: one step of the textbook round on rotated variable names, ring moved on |
| Sha1.T_40_59 | gettextpo-helper/gtpo/block-sha1/sha1.cpp:122-130 | rounds 40-59: one step of the textbook round on rotated variable names, ring moved on |
| Sha1.T_60_79 | gettextpo-helper/gtpo/block-sha1/sha1.cpp:122-131 | rounds 60-79: one step of the textbook round on rotated variable names, ring moved on |
| Sha1.Rounds0To9 | gettextpo-helper/gtpo/block-sha1/sha1.cpp:145-154 | the unrolled calls for rounds 0 to 9, with their rotated names, lead from the textbook variables after 0 rounds to those after 10 |
| Sha1.Rounds10To19 | gettextpo-helper/gtpo/block-sha1/sha1.cpp:155-166 | the unrolled calls for rounds 10 to 19, with their rotated names, lead from the textbook variables after 10 rounds to those after 20 |
| Sha1.Rounds20To29 | gettextpo-helper/gtpo/block-sha1/sha1.cpp:169-178 | the unrolled calls for rounds 20 to 29, with their rotated names, lead from the textbook variables after 20 rounds to those after 30 |
| Sha1.Rounds30To39 | gettextpo-helper/gtpo/block-sha1/sha1.cpp:179-188 | the unrolled calls for rounds 30 to 39, with their rotated names, lead from the textbook variables after 30 rounds to those after 40 |
| Sha1.Rounds40To49 | gettextpo-helper/gtpo/block-sha1/sha1.cpp:191-200 | the unrolled calls for rounds 40 to 49, with their rotated names, lead from the textbook variables after 40 rounds to those after 50 |
| Sha1.Rounds50To59 | gettextpo-helper/gtpo/block-sha1/sha1.cpp:201-210 | the unrolled calls for rounds 50 to 59, with their rotated names, lead from the textbook variables after 50 rounds to those after 60 |
| Sha1.Rounds60To69 | gettextpo-helper/gtpo/block-sha1/sha1.cpp:213-222 | the unrolled calls for rounds 60 to 69, with their rotated names, lead from the textbook variables after 60 rounds to those after 70 |
| Sha1.Rounds70To79 | gettextpo-helper/gtpo/block-sha1/sha1.cpp:223-232 | the unrolled calls for rounds 70 to 79, with their rotated names, lead from the textbook variables after 70 rounds to those after 80 |
| Sha1.Context.constructor | gettextpo-helper/gtpo/block-sha1/sha1.cpp:241-251 | a new context has absorbed the empty message |
| Sha1.PutBe32 | gettextpo-helper/gtpo/block-sha1/sha1.cpp:103-108 | four bytes, the highest first, are written and no others |
| Sha1.RoundIs | gettextpo-helper/gtpo/block-sha1/sha1.cpp:122-125 | the in-place update of two of the five variables is the textbook round with its renaming of variables |
| Sha1.Block80 | gettextpo-helper/gtpo/block-sha1/sha1.cpp:133-232 | the 80 unrolled rounds over a 16-word ring compute the 80 rounds over the 80-word schedule of section 6.1.2 |
| Sha1.Context.Block | gettextpo-helper/gtpo/block-sha1/sha1.cpp:133-239 | one block is folded into H as section 6.1.2 says |
| Sha1.Context.Update | gettextpo-helper/gtpo/block-sha1/sha1.cpp:253-279 | the message absorbed so far is extended by the data: H folds all full blocks and W holds the tail |
| Sha1.Context.Fill | gettextpo-helper/gtpo/block-sha1/sha1.cpp:260-271 | completing a started block, or returning early |
| Sha1.Context.Rest | gettextpo-helper/gtpo/block-sha1/sha1.cpp:272-278 | hashing whole blocks and keeping the tail |
| Sha1.Context.FillUp | gettextpo-helper/gtpo/block-sha1/sha1.cpp:288-293 | what is appended at the end is the padding of section 5.1.1 |
| Sha1.Context.Final | gettextpo-helper/gtpo/block-sha1/sha1.cpp:281-298 | the output is SHA-1 of the absorbed message |
| Sha1.PadCount | gettextpo-helper/gtpo/block-sha1/sha1.cpp:291-292 | 63 & (55 - i), on 32-bit numbers, is the least number of zero bytes that completes the last block |
| Sha1.MaskedNumber | gettextpo-helper/gtpo/block-sha1/sha1.cpp:291-292 | the mask also gives the right remainder where the difference is negative |
| Sha1.LengthBytes | gettextpo-helper/gtpo/block-sha1/sha1.cpp:288-289 | the two 32-bit words made by shifting are the 64-bit big-endian bit length |
| Sha1.Sha1Buffer | gettextpo-helper/gtpo/block-sha1/sha1.cpp:300-310 | for every message below 2^61 bytes the digest is SHA-1 |
| Sha1.Sha1Chunks | gettextpo-helper/gtpo/block-sha1/sha1.cpp:253-298 | every way of cutting the message into updates gives the same digest |
| Sha1Spec.ZeroCount | gettextpo-helper/gtpo/block-sha1/sha1.cpp:291-292 | the zero count of section 5.1.1 is the least that makes the padded length a multiple of 64 |
| Sha1Spec.ScheduleAt | gettextpo-helper/gtpo/block-sha1/sha1.cpp:119-120 | the schedule satisfies its recurrence at every place |
| Sha1Spec.TraceAt | gettextpo-helper/gtpo/block-sha1/sha1.cpp:122-125 | the sequence of working variables satisfies the round equation at every place |
| Sha1Numbers.WordValue | gettextpo-helper/gtpo/block-sha1/sha1.cpp:93-102 | a word read from four bytes is their number to base 256, the first byte counting most |
| Sha1Numbers.BytesAreBigEndian | gettextpo-helper/gtpo/block-sha1/sha1.cpp:103-108 | the four bytes put out for a word are the digits of its number to base 256, the highest first |
| Sha1Numbers.BigEndianValue | gettextpo-helper/gtpo/block-sha1/sha1.cpp:288-289 | the digits written for a number stand for that number, the first one counting most |
| Sha1Numbers.WordOfBigEndian | gettextpo-helper/gtpo/block-sha1/sha1.cpp:93-102 | reading back the digits of a 32-bit number gives it |
| Sha1Numbers.RotL1Value | gettextpo-helper/gtpo/block-sha1/sha1.cpp:120 | rotating by 1 multiplies by 2 and brings the top bit in at the bottom |
| Sha1Numbers.RotL5Value | gettextpo-helper/gtpo/block-sha1/sha1.cpp:124 | rotating by 5 multiplies by 32 and brings the top five bits in at the bottom |
| Sha1Numbers.RotL30Value | gettextpo-helper/gtpo/block-sha1/sha1.cpp:125 | rotating right by 2 brings the two lowest bits to the top |
| Sha1Example.DigestOfAbc | gettextpo-helper/gtpo/block-sha1/sha1.cpp:300-310 | the digest of the message "abc" is a9993e36 4706816a ba3e2571 7850c26c 9cd0d89d |
| MappedFiles.RoundUp | gettextpo-helper/gtpo/mappedfile.cpp:75 | the rounded size is the least multiple of a megabyte that is not smaller |
| MappedFiles.Grown | gettextpo-helper/gtpo/mappedfile.cpp:66-97 | growing keeps the content as a prefix, appends zeros only and keeps the length a multiple of 2^20 |
| MappedFiles.MappedFile.Ptr | gettextpo-helper/gtpo/mappedfile.cpp:66-97 | makes the requested bytes accessible, with no other effect than that growth |
| MappedFiles.MappedFile.Store | gettextpo-helper/gtpo/mappedfile.cpp:66-97 | writing through the pointer changes exactly the given bytes of the grown file |
| MappedFiles.GrownNumber | gettextpo-helper/gtpo/mappedfile.cpp:127-135 | growth is unobservable: each cell reads as before, cells beyond the old end read 0 before and after |
| MappedFiles.StoredNumber | gettextpo-helper/gtpo/mappedfile.cpp:122-125 | storing a number in one cell is read back there and changes no other cell |
| MappedFiles.DecodeEncode | gettextpo-helper/gtpo/mappedfile.cpp:122-125 | a number that fits its width survives the byte encoding |
| MappedFiles.FourByteNumber | gettextpo-helper/gtpo/mappedfile.cpp:122-125 | a stored number has its lowest byte first |
| MappedFiles.MappedFile.PtrConst | gettextpo-helper/gtpo/mappedfile.cpp:99-108 | reads the bytes without changing the file; they must lie in it |
| IdMapDbs.IdMapDb.Open | gettextpo-helper/gtpo/mappedfile.cpp:117-120 | opening a database written before changes none of its rows |
| IdMapDbs.IdMapDb.GetRow | gettextpo-helper/gtpo/mappedfile.cpp:122-125 | reading a row for writing may grow the file but changes no row |
| IdMapDbs.IdMapDb.GetRowConst | gettextpo-helper/gtpo/mappedfile.cpp:127-135 | the row, 0 beyond the end of the file |
| IdMapDbs.IdMapDb.GetRecursiveMinId | gettextpo-helper/gtpo/mappedfile.cpp:138-145 | the chain walk reaches the root and never fails its check |
| IdMapDbs.IdMapDb.GetPlainMinId | gettextpo-helper/gtpo/mappedfile.cpp:147-151 | one step of the chain: between the id and its recursive minimum, and in the same class |
| IdMapDbs.IdMapDb.WriteRow | gettextpo-helper/gtpo/mappedfile.cpp:168-177 | exactly one row of the file is written, links keep pointing downwards |
| IdMapDbs.IdMapDb.AddRow | gettextpo-helper/gtpo/mappedfile.cpp:156-166 | the bytes written represent exactly the merge of the two arguments, in either order, the argument 0 included |
| IdMapDbs.IdMapDb.NormalizeDatabase | gettextpo-helper/gtpo/mappedfile.cpp:179-198 | one ascending pass makes every row point to its root; the printed number is the number of rows that did not |
| IdMapDbs.IdMapDb.NormalizeRow | gettextpo-helper/gtpo/mappedfile.cpp:186-195 | one turn of that pass |
| IdMapDbs.IdMapDb.GetMinIdArray | gettextpo-helper/gtpo/mappedfile.cpp:200-211 | the roots of a range of ids |
| IdMapDbs.NormalizedHasNoCount | gettextpo-helper/gtpo/mappedfile.cpp:179-198 | a second pass changes nothing |
| IdMapDbs.CountIsNumberOfRows | gettextpo-helper/gtpo/mappedfile.cpp:184-197 | the printed number is the number of rows from 100 on that hold an id other than their root |
| IdMapDbs.RowBytes | gettextpo-helper/gtpo/mappedfile.cpp:122-135 | row id is the number in the bytes 4*id to 4*id+3 of the file, the lowest first |
| IdForest.MergedForest | gettextpo-helper/gtpo/mappedfile.cpp:138-166 | after every merge links keep pointing downwards, so the chain walk's check never fails |
| IdForest.MergeEffect | gettextpo-helper/gtpo/mappedfile.cpp:156-166 | every id whose chain meets one of the two ids gets the smaller of their roots, every other id keeps its root |
| IdForest.MergeWithZero | gettextpo-helper/gtpo/mappedfile.cpp:156-166 | with the argument 0 the other id is cut off and becomes the root of the ids that lead to it; every other id keeps its root |
| IdForest.RootsNeverIncrease | gettextpo-helper/gtpo/mappedfile.cpp:156-166 | no root grows, and the two ids end with the same root |
| IdForest.MergeIsCompleteIff | gettextpo-helper/gtpo/mappedfile.cpp:156-166 | the two whole classes are joined iff each argument is a root or already has the new minimum as root |
| IdForest.MergeCanSplit | gettextpo-helper/gtpo/mappedfile.cpp:156-166 | the failing case: after 500-400, adding 500-300 leaves 400 behind |
| IdForest.RunIsSound | gettextpo-helper/gtpo/mappedfile.cpp:156-166 | after any run of merges, ids with the same root are connected by merged pairs |
| IdForest.SafeRunIsClosure | gettextpo-helper/gtpo/mappedfile.cpp:156-166 | if every merge of a run was of the complete kind, the classes are exactly the equivalence closure of the pairs and each root is its class minimum |
| IdForest.NormalizedRoot | gettextpo-helper/gtpo/mappedfile.cpp:179-198 | normalising any prefix of the rows keeps all roots |
| IdForest.NormalizedIsFlat | gettextpo-helper/gtpo/mappedfile.cpp:179-198 | after a pass the plain minimum of every id is its recursive minimum, and a second pass is the identity |
| MessageTexts.OptStringOrder | gettextpo-helper/gtpo/optstring.cpp:49-63 | < is irreflexive, asymmetric and total with respect to ==, with the null string first |
| MessageTexts.OptStringMeaning | gettextpo-helper/gtpo/optstring.cpp:55-63 | a null string comes before every other one; others are ordered as strings |
| MessageTexts.TextOrder | gettextpo-helper/gtpo/messageoriginaltext.cpp:75-90 | < on (msgctxt, msgid, msgid_plural) is a strict total order whose ties are exactly == |
| MessageTexts.TextOrderMeaning | gettextpo-helper/gtpo/messageoriginaltext.cpp:82-90 | the first component that differs decides: msgctxt, then msgid, then msgid_plural |
| MessageTexts.TextTransitive | gettextpo-helper/gtpo/messageoriginaltext.cpp:82-90 | < is transitive |
| EqualMessages.PushBackSorted | gettextpo-helper/gtpo/gettextpo-helper.cpp:234 | the ordered map stays ordered when an id is appended under a key |
| EqualMessages.PushBackIds | gettextpo-helper/gtpo/gettextpo-helper.cpp:234 | that appends the id to the list of this key and to no other |
| EqualMessages.CollectIds | gettextpo-helper/gtpo/gettextpo-helper.cpp:225-235 | after reading all files every key holds all ids of that text, in file order |
| EqualMessages.ListEqualMessagesIds | gettextpo-helper/gtpo/gettextpo-helper.cpp:221-255 | lists the ids of every text that occurs twice, once, in the order of the texts; fails iff some text occurs more often |
| EqualMessages.ListEqualMessagesIds2 | gettextpo-helper/gtpo/gettextpo-helper.cpp:257-275 | the same as pairs, for two files |
| EqualMessages.TwoIds | gettextpo-helper/gtpo/gettextpo-helper.cpp:268-271 | both ids of a pair are different ids of messages with that text |
| EqualMessages.DumpEqualMessages | gettextpo-helper/gtpo/gettextpo-helper.cpp:277-285 | merges exactly the pairs of equal messages, one after another, returns their number, and keeps the database sound; a failing list changes nothing |
| EqualMessages.NewDumpIsExact | gettextpo-helper/gtpo/gettextpo-helper.cpp:277-285 | after a dump of two files with new ids, two of these ids have the same recursive minimum iff their messages are equal |
| EqualMessages.RunDatabase | gettextpo-helper/gtpo/gettextpo-helper.cpp:221-285 | after any run of dumps and normalisations, ids with the same recursive minimum name messages with equal msgctxt, msgid and msgid_plural |
| EqualMessages.LinksGiveClasses | gettextpo-helper/gtpo/mappedfile.cpp:138-145 | if every link joins equal messages, so does every class |
| EqualMessages.MergeKeepsLinks | gettextpo-helper/gtpo/mappedfile.cpp:156-166 | merging equal messages keeps every link between equal messages |
| EqualMessages.NormalizeKeepsLinks | gettextpo-helper/gtpo/mappedfile.cpp:179-198 | so does normalising |
| Translations.EqualMsgstrIsEquality | gettextpo-helper/gtpo/messagetranslationbase.cpp:176-184 | the comparison loop decides equality of the translation texts, number of plural forms included |
| Translations.AllEmptyMeaning | gettextpo-helper/gtpo/messagetranslationbase.cpp:191-196 | untranslated iff every plural form is the empty string (a null form is not) |
| Translations.EffectiveMeaning | gettextpo-helper/gtpo/messagetranslationbase.cpp:191-196 | the effective translation is the text iff it is not fuzzy and some plural form is not empty |
| Translations.Message.EditFuzzy | gettextpo-helper/gtpo/message.cpp:130-137 | sets the flag; the message counts as edited iff that changed it |
| Translations.Message.EditMsgstr | gettextpo-helper/gtpo/message.cpp:139-149 | replaces one plural form; the message counts as edited iff that changed it |
| Translations.CopyTranslationsToMessage | gettextpo-helper/gtpo/iddiffmessage.cpp:43-49 | copies all plural forms and nothing else |
| Iddiffs.Iddiff.FindInList | gettextpo-helper/gtpo/iddiff.cpp:1149-1157 | finds the first entry of that text iff there is one |
| Iddiffs.Iddiff.InsertRemoved | gettextpo-helper/gtpo/iddiff.cpp:887-898 | fails iff the text is in ADDED; otherwise REMOVED gains it once |
| Iddiffs.Iddiff.InsertAdded | gettextpo-helper/gtpo/iddiff.cpp:905-936 | fails iff the text is in REMOVED or another text is in ADDED; otherwise ADDED is that text |
| Iddiffs.Iddiff.InsertReview | gettextpo-helper/gtpo/iddiff.cpp:943-953 | fails iff there is a review or the text is not a translation |
| Iddiffs.RemovedVectorHas | gettextpo-helper/gtpo/iddiff.cpp:1003-1014 | the list of REMOVED entries holds exactly the entries of all ids |
| Iddiffs.AddedVectorHas | gettextpo-helper/gtpo/iddiff.cpp:1016-1027 | the same for ADDED |
| Iddiffs.ReviewVectorHas | gettextpo-helper/gtpo/iddiff.cpp:1029-1039 | the same for reviews, of which there is at most one per id |
| Iddiffs.Iddiff.GetRemovedVector | gettextpo-helper/gtpo/iddiff.cpp:1003-1014 | the loops over ids and entries build that list in the order of the ids |
| Iddiffs.Iddiff.GetAddedVector | gettextpo-helper/gtpo/iddiff.cpp:1016-1027 | the same for ADDED |
| Iddiffs.Iddiff.GetReviewVector | gettextpo-helper/gtpo/iddiff.cpp:1029-1039 | the same for reviews |
| Iddiffs.Iddiff.Merge | gettextpo-helper/gtpo/iddiff.cpp:1053-1067 | succeeds iff the section-wise union has no conflict; then it is that union and is well-formed |
| IddiffSections.MergeSays | gettextpo-helper/gtpo/iddiff.cpp:1053-1067 | after a merge a text is in REMOVED, or in ADDED, iff it was in that of either patch, and a review is that of the patch that had one |
| IddiffSections.CompatibleMeaning | gettextpo-helper/gtpo/iddiff.cpp:887-953 | two patches can be merged iff no text is in ADDED of one and REMOVED of the other, no id has two different texts in ADDED, and none has two reviews |
| IddiffSections.MergeCommutes | gettextpo-helper/gtpo/iddiff.cpp:1053-1067 | merging is commutative, failure included |
| IddiffSections.MergeAssociates | gettextpo-helper/gtpo/iddiff.cpp:1053-1067 | merging is associative, failure included |
| IddiffSections.MergeIsLeast | gettextpo-helper/gtpo/iddiff.cpp:1053-1067 | two review-free patches that some well-formed patch contains can be merged, and the result is contained in every such patch |
| IddiffSections.MergeWithItself | gettextpo-helper/gtpo/iddiff.cpp:1053-1067 | a patch merges with itself iff it has no reviews, and gives itself |
| Iddiffs.Iddiff.FilterTrustedIddiff | gettextpo-helper/gtpo/iddiff.cpp:1279-1299 | adds exactly what the input has beyond the filter, section by section; fails iff there is a review in the input or a conflict |
| Iddiffs.FilterSays | gettextpo-helper/gtpo/iddiff.cpp:1279-1299 | after filtering a text is in a section iff it was there or the input has it there and the filter has not; reviews stay |
| Iddiffs.Iddiff.EraseRemoved | gettextpo-helper/gtpo/iddiff.cpp:1179-1185 | takes one text out of REMOVED and drops an entry left empty |
| Iddiffs.Iddiff.EraseAdded | gettextpo-helper/gtpo/iddiff.cpp:1187-1193 | the same for ADDED |
| Iddiffs.Iddiff.AcceptTranslation | gettextpo-helper/gtpo/iddiff.cpp:1207-1229 | fails iff another translation is in ADDED; otherwise moves the text from REMOVED to ADDED |
| Iddiffs.Iddiff.RejectTranslation | gettextpo-helper/gtpo/iddiff.cpp:1236-1249 | moves the text from ADDED to REMOVED, other texts stay |
| Iddiffs.Iddiff.ClearEmptyMessageData | gettextpo-helper/gtpo/iddiff.cpp:697-704 | drops the entry iff it is empty |
| Iddiffs.Iddiff.SubstituteMsgId | gettextpo-helper/gtpo/iddiff.cpp:706-728 | moves one entry to a new id; fails iff that id is taken |
| Iddiffs.Iddiff.MinimizeIds | gettextpo-helper/gtpo/iddiff.cpp:730-742 | with a minimiser that never increases, succeeds iff it is injective on the involved ids, also where a new id is itself an old one; then each entry is found unchanged under its new id and nothing else is |
| IddiffPatching.RenamingKeeps | gettextpo-helper/gtpo/iddiff.cpp:730-742 | such a renaming keeps well-formedness and every section |
| IddiffPatching.TableMeaning | gettextpo-helper/gtpo/iddiff.cpp:166-246 | both tables: an entry is -1 iff one side is empty and fuzzy; otherwise ADDED is needed iff B brings an effective text that A does not have, REMOVED iff A's text is dropped |
| IddiffPatching.LegalMeaning | gettextpo-helper/gtpo/iddiff.cpp:166-210 | the impossible entries of the table are those of fuzzy messages without text |
| IddiffPatching.DiffChangeMeaning | gettextpo-helper/gtpo/iddiff.cpp:212-230 | in terms of strings and flags: B's text is added iff it is there and not fuzzy and A's was another or fuzzy; A's text is removed iff it is there and B has another one, unless both are fuzzy, or makes it fuzzy |
| Iddiffs.Iddiff.DiffMessage | gettextpo-helper/gtpo/iddiff.cpp:232-251 | one message: fails iff a state is illegal, otherwise exactly that message's change is inserted, without conflict |
| Iddiffs.Iddiff.DiffFiles | gettextpo-helper/gtpo/iddiff.cpp:109-252 | fails iff some state is illegal; otherwise the patch holds exactly the changes of all messages under their ids |
| Iddiffs.DiffListsTexts | gettextpo-helper/gtpo/iddiff.cpp:248-251 | of two different texts, neither fuzzy, the patch has the first in REMOVED and the second in ADDED, under the id of the message |
| IddiffPatching.DiffChangeWellFormed | gettextpo-helper/gtpo/iddiff.cpp:227-251 | the change of one message is a well-formed entry |
| Iddiffs.Iddiff.CanDropMessage | gettextpo-helper/gtpo/iddiff.cpp:745-756 | iff the message is fuzzy, untranslated or listed in REMOVED |
| Iddiffs.Iddiff.ApplyToMessage | gettextpo-helper/gtpo/iddiff.cpp:758-791 | the message after applying an entry, or the reported conflict with the message unchanged |
| Iddiffs.Iddiff.ApplyToContent | gettextpo-helper/gtpo/iddiff.cpp:823-832 | every message with an involved id is patched, the others stay as they were, also when another one fails |
| IddiffPatching.DiffThenApply | gettextpo-helper/gtpo/iddiff.cpp:148-252 | diff then apply leaves the effective translation of B (the text if translated and not fuzzy), never conflicts, and applying again to the message as read back changes nothing |
| IddiffPatching.ApplyIsCautious | gettextpo-helper/gtpo/iddiff.cpp:745-791 | applying any entry only drops an effective text listed in REMOVED and only brings the text listed in ADDED |
| IddiffPatching.ApplyFailsIff | gettextpo-helper/gtpo/iddiff.cpp:758-791 | applying fails iff the ADDED text has another number of plural forms where the old text may be given up, or is not the translation that is there where it may not |
| IddiffPatching.AppliedMeaning | gettextpo-helper/gtpo/iddiff.cpp:758-791 | after applying, the message has the ADDED text, not fuzzy, as its effective translation; without one it is marked fuzzy iff its text may be given up |
| IddiffRoundTrip.FoundAfterRenaming | gettextpo-helper/gtpo/iddiff.cpp:730-742 | after minimising, each message of the file finds its own change or none |
| IddiffRoundTrip.MakePatch | gettextpo-helper/gtpo/iddiff.cpp:109-742 | the patch of two versions under minimised ids, applied to each message of the first, gives the effective translation of the second |
| IddiffRoundTrip.PatchFile | gettextpo-helper/gtpo/iddiff.cpp:109-832 | diff of two versions, minimised, applied to the first: succeeds and leaves every message with the effective translation of the second |
| GraphCondensers.GraphCondenser.constructor | gettextpo-helper/gtpo/detector.cpp:157-167 | a graph of n vertices without edges, none visited |
| GraphCondensers.GraphCondenser.AddEdge | gettextpo-helper/gtpo/detector.cpp:176-180 | adds one undirected edge, also a loop |
| GraphCondensers.GraphCondenser.Visit | gettextpo-helper/gtpo/detector.cpp:198-205 | appends, each once, exactly the vertices newly visited; all are connected with the start and no edge leads from them to an unvisited vertex; terminates by the unvisited vertices |
| GraphCondensers.GraphCondenser.DumpCluster | gettextpo-helper/gtpo/detector.cpp:182-206 | returns the whole component of the first unvisited vertex; empty iff all vertices have been visited |
| GraphCondensers.GraphCondenser.Clusters | gettextpo-helper/gtpo/detector.cpp:236-241 | the clusters are exactly the connected components: each whole, pairwise disjoint, together all vertices |
| GraphCondensers.ExploredIsComponent | gettextpo-helper/gtpo/detector.cpp:198-205 | what is reached without passing visited vertices is the whole component when no edge led out of the visited ones |
| GreedyCoverage.GreedyIddiffCoverage.NextContent | tools/impl/lokalizereviewiddiff.cpp:55-91 | takes the best content out of the list and its ids out of the set, or changes nothing and returns nothing |
| GreedyCoverage.BestIsBest | tools/impl/lokalizereviewiddiff.cpp:57-74 | the index found holds the greatest count and is the first to do so; -1 iff every count is 0 |
| GreedyCoverage.Without | tools/impl/lokalizereviewiddiff.cpp:87-88 | taking a content out keeps the others in their order, on which the next tie depends |
| GreedyCoverage.GreedyIddiffCoverage.TakeAll | tools/impl/lokalizereviewiddiff.cpp:112-113 | contents returned and left make up the given ones; no content left holds an uncovered id |
| GreedyCoverage.CountIsSize | tools/impl/lokalizereviewiddiff.cpp:64-68 | the count is never less than the number of uncovered ids of the content, and at most m times that number when no uncovered id is listed more than m times |
| GreedyCoverage.StepCoversItsShare | tools/impl/lokalizereviewiddiff.cpp:60-74 | one step counts at least the k-th part of the coverable ids, for every cover with k contents |
| GreedyCoverage.StepRemovesItsCount | tools/impl/lokalizereviewiddiff.cpp:80-88 | what stays coverable shrinks by at most the count and at least its m-th part: by exactly the count when no uncovered id is listed twice |
| GreedyCoverage.GreedyBound | tools/impl/lokalizereviewiddiff.cpp:55-91 | at most m times k times H(n) contents are returned for n coverable ids, any cover with k contents, and contents that list an uncovered id at most m times (k times H(n) when none is listed twice) |
| GreedyCoverage.DisjointIsSmallest | tools/impl/lokalizereviewiddiff.cpp:20-24 | when no uncovered id is in two contents, no cover is smaller than what is returned |
| GreedyCoverage.ChosenIsCover | tools/impl/lokalizereviewiddiff.cpp:20-24 | the returned contents hold every id that any content holds |
| GreedyCoverage.NotMinimal | tools/impl/lokalizereviewiddiff.cpp:20-24 | three contents are returned where two would do, so the set is not minimal in general |
| GreedyCoverage.RepeatsBreakTheBound | tools/impl/lokalizereviewiddiff.cpp:64-68 | k times H(n) is exceeded when a content lists an uncovered id several times, so the factor m is needed |
| TrDbs.TrDb.constructor | tools/impl/tryfilltr.cpp:142-184 | opening a new database, or one written before, of which nothing changes |
| TrDbs.OpenStrings | tools/impl/tryfilltr.cpp:142-151 | a strings file always holds at least its own length field |
| TrDbs.TrDb.AppendData | tools/impl/tryfilltr.cpp:159-166 | the log is extended by exactly these bytes and the stored length follows |
| TrDbs.TrDb.WriteMessage | tools/impl/tryfilltr.cpp:211-232 | a record and its translations are appended; the offset is the former end |
| TrDbs.TrDb.ReadOffset | tools/impl/tryfilltr.cpp:133-140 | the head of the id's list, 0 if there is none or the file is too short |
| TrDbs.TrDb.ListNext | tools/impl/tryfilltr.cpp:237-240 | the next record of the list, 0 at its end |
| TrDbs.TrDb.ListLast | tools/impl/tryfilltr.cpp:242-249 | from any record of a list to the last one; the walk terminates |
| TrDbs.TrDb.AddIdMessage | tools/impl/tryfilltr.cpp:263-272 | the list of this id gains the message at its end, the lists of all other ids stay |
| TrDbs.TrDb.NewList | tools/impl/tryfilltr.cpp:266-268 | the first message of an id |
| TrDbs.TrDb.ListAppendMessage | tools/impl/tryfilltr.cpp:251-261 | a further message: written, then linked behind the last record of the list that the given record is in |
| TrDbs.TrDb.GetMessages | tools/impl/tryfilltr.cpp:274-298 | the messages of the id in insertion order, read from the bytes; the file is not changed |
| TrDbs.TrDb.ReadMessage | tools/impl/tryfilltr.cpp:278-292 | flag, signed plural byte and zero-terminated comment of one record |
| TrDbs.CommitInfo.Write | tools/impl/tryfilltr.cpp:105-113 | raw data between records changes no list |
| TrDbs.TrDb.Run | tools/impl/tryfilltr.cpp:302-324 | after any run of added messages and written commits, every id lists the messages added for it, in their order, with the same fuzzy flags, with the same comments if these hold no zero, and with the same plural flags for up to 127 forms |
| TrDbLogs.ReadBackExact | tools/impl/tryfilltr.cpp:278-292 | what survives: the fuzzy flag always, the plural flag iff the number of forms is between 1 and 127 modulo 256 (or the message is not plural), the comment iff it has no zero byte, the translations never unless there are none |
| TrDbs.AddedShow | tools/impl/tryfilltr.cpp:263-298 | the messages listed for an id and those added for it agree in flags and comments, one by one |
| TrDbLogs.RecordLayout | tools/impl/tryfilltr.cpp:215-225 | a record is the next offset in 8 bytes, the commit offset in 8, the fuzzy flag, the number of plural forms, and the comment with its zero |
| TrDbLogs.StringsInOrder | tools/impl/tryfilltr.cpp:225-229 | the translations follow in their order, each with its zero |
| TrDbLogs.ChainIncreases | tools/impl/tryfilltr.cpp:242-249 | offsets along a list strictly increase |
| TrDbLogs.HoldsLink | tools/impl/tryfilltr.cpp:254-261 | patching a link changes that record only |
| TrDbLogs.ChainLonger | tools/impl/tryfilltr.cpp:254-261 | linking a written record appends its message to one list and keeps the others |
| TrDbLogs.ChainsMore | tools/impl/tryfilltr.cpp:263-268 | a new list holds its one message and the other lists stay |
| TrDbLogs.StringRead | tools/impl/tryfilltr.cpp:286-288 | memory determines the string that begins at a place |
| TrDbs.LogLonger | tools/impl/tryfilltr.cpp:159-166 | bytes written behind the log in a grown file, then the new length, extend the log by those bytes |
| TrDbs.IndexedMore | tools/impl/tryfilltr.cpp:127-131 | entering a list head changes no other head, although the file may grow |

## Left out

- Repositories.Repository.ReadRepositoryCommits: requires at least two commits, because with one commit the bound of the second time check wraps around and reads out of range.
- Repositories.Repository.FindLastUpdateOid: where root-level files do not fit, only the reports of the per-commit queries are promised, which can miss changes; that they then do miss one is Repositories.HistoryTells.
- Repositories.Repository.FindFileOidByTime: on times that are only nearly sorted the commit is fixed up to 394 seconds, not exactly, as in the source.
- Sha1.Sha1Buffer: messages of 2^61 bytes and more, whose bit length does not fit 64 bits, are not covered.
- IdMapDbs.IdMapDb.AddRow: the range check on written ids and the check that the arguments differ are preconditions.
- Iddiffs.Iddiff.Merge: the order of entries inside a section is not part of the merge laws, and neither are dates and authors.
- Iddiffs.Iddiff.AcceptTranslation: the replacing branch is modelled as the failure that it is.
- Iddiffs.Iddiff.DiffFiles: file lookup, dates and authors are left out; file B has at least as many messages as file A.
- Translations.Message.EditMsgstr: the "untranslated" flag of a message is the one set when the file was read, which editing does not update.
- TrDbs.TrDb.AddIdMessage: the log stays below 2^63 bytes; message ids are not negative; comments and translations are not null.
- TrDbs.TrDb.GetMessages: translations are written to the log, but nothing is claimed about reading them, because the reader skips them.
- BlobIterators.AllBlobs: requires a tree without empty subdirectories, without which the iterator never ends (BlobIterators.EndsIff).
- Submodule entries of git trees, and what libgit2 does to read objects.
- Mapping files into memory, pointers that dangle when a mapping moves, and freeing of memory: a file is a sequence of bytes.
- Sockets, server loop, D-Bus, Qt, JSON text and reading or writing of .po files.
- Listing commits between dates, template lookup by date, current file ids with a name suffix: simple loops over the index.
- Patches of translators' comments, clearing of review comments, and the `set_difference` template, which ignores its second set.
- The plural flag in `equalTranslationsComments`, and formatting of messages for output.
- Building the graph from object ids: vertices are numbers below n.
- The Python ports of the helpers.
