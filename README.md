# UsedSpace size aggregation, modelled in Dafny

UsedSpace is a terminal disk-usage browser. It scans a directory tree into one in-memory store and rolls file sizes up into every directory. It then lists a directory's children largest first, and lets the user delete an entry and repairs the sizes above it.

The store maps a full path to a `FileDirStruct{FullPath, Size, IsDir}` record. This project models that store and the four pieces of logic that act on it:

- **Scan.** The walk callback stores one record per visited object. A file keeps its byte size; a directory is stored with size 0.
- **Rollup.** For every file, its size is added, in `uint64`, to each directory from its parent up to the scan root.
- **Children query.** `getDirectChildrenDir` selects the records whose `path.Dir` is a given directory, then sorts them by size, largest first.
- **Deletion repair.** After a successful removal, the deleted record's size is subtracted from every directory above it up to the scan root. Then the deleted record's own key is removed.

It also models these string rules:

- the choice of the scan root from the command line;
- the reason shown when a removal fails;
- the "N element(s)" contents line.

## How the model is organised

- **`Paths`**: Go's `path.Dir` on clean paths, and the loop `for cur != root { cur = path.Dir(cur) }`.
  - `Under(p, root)` says the loop ends.
  - `OnWalk(d, f, root)` says the loop started at `f` visits `d`.
- **`FileDir`**: the record, and `uint64` arithmetic as `Wrap` (reduction modulo 2^64).
- **`SizeStore`**: the concurrent map as a sequential class `Store` whose `contents` is a `map<string, Entry>`. `Keys` returns the keys once each, in an order the model does not fix.
- **`Aggregate`**: what the operations are proved against.
  - `Rolled(m, root)` is the store after the rollup. Every directory holds, in `uint64`, its own size plus the sizes of the files beneath it.
  - `Repaired(m, t, root)` is the store after deleting `t`.
  - `Consistent(m, root)` is the rollup invariant: every directory's size equals the total of the file records beneath it, modulo 2^64.
- **`WalkDir`**: the scan callback, the scan, and the rollup, as methods on the store proved against `ScanAll` and `Rolled`.
- **`MainPage`**: `getDirectChildrenDir` (key loop, then sort), the table refresh, and the record a tree node carries.
- **`PropertiesPage`**: the OK handler of the delete page, the error reason and the contents line.
- **`Text`**: `strings.Split`, the last occurrence of a character, `strconv.Itoa` and `path.Clean`.
- **`Launch`**: the choice of the scan root and `waitingScan` (scan, roll up, then the first query).
- **`Scenario`**: a small worked tree.
  - The root `/r` holds file `/r/a` (100 bytes) and directory `/r/b`, which holds file `/r/b/c` (50 bytes).
  - After the rollup, `/r` is 150 and `/r/b` is 50.
  - The children of `/r` are listed as `[/r/a, /r/b]`.
  - Deleting `/r/b/c` leaves `/r/b` at 0 and `/r` at 100, and removes `/r/b/c`.

The filesystem is a finite map from path to `Info(isDir, size)`. The walk is the sequence of `Visit`s it hands the callback, each a stat result or an error. A removal is an `Outcome`, success or failure with a message.

## Model

| member | source | states |
|---|---|---|
| Paths.Dir | usWalk/walkdir.go:35-36 | `path.Dir` of a clean path is the path itself only for "/" and "."; otherwise it is strictly smaller in `Rank`, so the upward walk is finite |
| Paths.LastSlash | usWalk/walkdir.go:36 | the index returned holds the last '/' of the path (or -1 when it has none) |
| Paths.OnWalkRank | usWalk/walkdir.go:35-36 | every directory the upward walk visits ranks strictly above the starting path |
| Paths.OnWalkTrans | usWalk/walkdir.go:35-36 | the walk from a path passes through every point of the walk from each of its ancestors |
| Paths.OnWalkLinear | usWalk/walkdir.go:35-36 | the points of one walk form a chain: of any two, one is on the walk from the other |
| Paths.UnderVisitsRoot | usWalk/walkdir.go:35-36 | a walk that stops at the root, from anywhere but the root, visits the root |
| Paths.OnWalkUnder | usWalk/walkdir.go:35-36 | every point of a walk that reaches the root also reaches the root |
| FileDir.WrapMod | usUI/mainPage.go:22 | `Wrap` is the remainder modulo 2^64, i.e. what a `uint64` keeps |
| FileDir.WrapAdd | usWalk/walkdir.go:43 | wrapping after each addition equals wrapping once at the end |
| FileDir.WrapShift | usUI/mainPage.go:22 | adding a multiple of 2^64 is invisible in a `uint64` |
| FileDir.WrapSub | usUI/propertiesPage.go:100 | a `uint64` subtraction from a wrapped sum equals wrapping the exact difference |
| SizeStore.Store.New | main.go:49 | a new store is empty |
| SizeStore.Store.Get | usWalk/walkdir.go:31 | finds a record exactly when the key is present, and returns that record |
| SizeStore.Store.Set | usWalk/walkdir.go:23-24 | the key now maps to the new record; every other key is unchanged |
| SizeStore.Store.Remove | usUI/propertiesPage.go:102 | exactly that key is gone; every other key is unchanged |
| SizeStore.Store.Keys | usWalk/walkdir.go:30 | every key of the store, each exactly once, in no promised order |
| Aggregate.AllFiles | usWalk/walkdir.go:39 | the files of the store are among its keys |
| Aggregate.FilesUnder | usWalk/walkdir.go:35-39 | the files beneath a directory are files of the store |
| Aggregate.RolledOver | usWalk/walkdir.go:29-46 | the rollup state after any set of handled keys keeps the keys |
| Aggregate.Descendants | usUI/propertiesPage.go:102 | the records beneath a deleted directory are keys of the store |
| Aggregate.Rolled | usWalk/walkdir.go:29-46 | the rolled-up store has exactly the keys of the scanned store |
| Aggregate.Repaired | usUI/propertiesPage.go:93-102 | the repaired store has the old keys minus the deleted one |
| Aggregate.SumRemove | usWalk/walkdir.go:43 | a set's total is one member's size plus the total of the rest |
| Aggregate.SumAdd | usWalk/walkdir.go:43 | adding a new key to a set adds its size to the total |
| Aggregate.SumCongruent | usWalk/walkdir.go:29-46 | sets whose records have equal sizes in two stores have equal totals |
| Aggregate.SumSplit | usUI/propertiesPage.go:93-102 | the total of a set is the total of a subset plus the total of the rest |
| Aggregate.WrapSubWrap | usUI/propertiesPage.go:99-100 | subtracting two wrapped values wraps their exact difference |
| Aggregate.RepairArith | usUI/propertiesPage.go:99-100 | taking a wrapped part from a wrapped total leaves the wrapped remainder |
| Aggregate.RolledOverNothing | usWalk/walkdir.go:29-46 | before any key has been processed, the rollup state is the scanned store itself |
| Aggregate.RolledKeepsShape | usWalk/walkdir.go:39-43 | the rollup keeps every record's path and kind, and leaves file records untouched |
| Aggregate.RolledSameFiles | usWalk/walkdir.go:39 | the rollup changes no file, so the files beneath any directory and their total are the same before and after |
| Aggregate.FilesUnderRoot | usWalk/walkdir.go:35 | in a well-formed store every file lies beneath the scan root |
| Aggregate.RollupEstablishesConsistency | usWalk/walkdir.go:24-46 | from a fresh scan (directories at 0), the rollup yields a well-formed store in which every directory holds the total of the files beneath it and the root holds the total of all files, modulo 2^64 |
| Aggregate.RepairedShape | usUI/propertiesPage.go:93-102 | the repair keeps every record's kind and leaves every record off the deleted entry's walk unchanged |
| Aggregate.RepairedAncestor | usUI/propertiesPage.go:98-100 | every ancestor up to the root loses the deleted size, in `uint64` |
| Aggregate.RepairedBelow | usUI/propertiesPage.go:93-102 | below any directory, the files left after the repair are the files before it minus the deleted one |
| Aggregate.DeleteFileAt | usUI/propertiesPage.go:93-102 | a directory that held the total of its files still does after a file beneath it is deleted |
| Aggregate.DeleteFilePreservesConsistency | usUI/propertiesPage.go:93-102 | deleting a file record keeps the store well-formed and keeps the rollup invariant |
| Aggregate.PurgedBelow | usUI/propertiesPage.go:93-102 | once a deleted directory's descendants are set aside, the files below any directory are the old ones minus those of the deleted directory |
| Aggregate.NestedBelow | usUI/propertiesPage.go:93-102 | the files below an ancestor split into those below the descendant and the rest |
| Aggregate.DisjointBelow | usUI/propertiesPage.go:93-102 | two directories that are not on each other's walk share no files |
| Aggregate.DeleteDirectoryAt | usUI/propertiesPage.go:93-102 | after a directory is deleted, each remaining directory outside it holds the total of its remaining files |
| Aggregate.DeleteDirectoryLeavesStaleRecords | usUI/propertiesPage.go:102 | deleting a directory leaves every record beneath it in the store unchanged, and the store with those stale records set aside is well-formed and satisfies the rollup invariant |
| Aggregate.RepairDoesNotWrap | usUI/propertiesPage.go:99-100 | when the invariant holds and all files total less than 2^64, every ancestor is at least the deleted size, so the `uint64` subtraction does not wrap |
| WalkDir.Snapshot | usWalk/walkdir.go:19-27 | the records the scan should leave have exactly the reported paths |
| WalkDir.ScanRecord | usWalk/walkdir.go:23-24 | the record the callback leaves for a stat'ed object: its size for a file, `(path, 0, true)` for a directory; proved against the filesystem in `ScanOfFilesystem` |
| WalkDir.Callback | usWalk/walkdir.go:19-26 | an object reported with an error changes nothing; any other is stored under its own path, a file with its size and a directory as `(path, 0, true)` |
| WalkDir.Scan | usWalk/walkdir.go:19-27 | the scan applies the callback to every visit in order (`ScanAll`) |
| WalkDir.ScanOfFilesystem | usWalk/walkdir.go:19-27 | a scan of truthful reports holds, for each reported path, the filesystem's kind and (for a file) size, directories at 0 |
| WalkDir.ScanLeavesFreshTree | usWalk/walkdir.go:19-27 | a scan of a tree below the root leaves a well-formed store whose directories are all at 0 |
| WalkDir.Walking | usWalk/walkdir.go:35-45 | the inner loop's intermediate store keeps the keys |
| WalkDir.WalkingStart | usWalk/walkdir.go:32 | before the inner loop moves, no directory has received the key's size |
| WalkDir.PassedStep | usWalk/walkdir.go:35-36 | each step of the inner loop reaches exactly one new ancestor of the key |
| WalkDir.WalkingParent | usWalk/walkdir.go:40-43 | the parent reached gets the key's contribution added in `uint64` |
| WalkDir.WalkingOthers | usWalk/walkdir.go:40-43 | every other record is untouched by that step |
| WalkDir.WalkingStep | usWalk/walkdir.go:39-43 | one step changes the new parent's record, by the key's size for a file, and no other record |
| WalkDir.WalkingDirectory | usWalk/walkdir.go:39 | a directory key contributes nothing: its inner loop changes no record |
| WalkDir.WalkingEndEntry | usWalk/walkdir.go:35-45 | at the root, a directory has received the key's size exactly when the key is a file beneath it |
| WalkDir.WalkingEnd | usWalk/walkdir.go:35-45 | when the inner loop stops at the root, the key counts among the files rolled up |
| WalkDir.AddToAncestors | usWalk/walkdir.go:31-45 | the inner loop adds a file's size to every directory from its parent up to and including the root, and nothing to anything else |
| WalkDir.PrefixStep | usWalk/walkdir.go:30 | each round of the outer loop handles one new key |
| WalkDir.PrefixAll | usWalk/walkdir.go:30 | after the last round every key has been handled |
| WalkDir.Rollup | usWalk/walkdir.go:29-46 | for any order `Keys` gives, the store ends as `Rolled` of the scanned store |
| WalkDir.WalkGivenDir | usWalk/walkdir.go:18-50 | scanning then rolling up gives `Rolled(ScanAll(...))`, and the completion signal is sent |
| WalkDir.ScanThenRollup | usWalk/walkdir.go:18-46 | from an empty store and truthful reports of a tree: one record per reported object; every file as stat'ed; every directory (and the root) holding the total of the files beneath it, modulo 2^64 |
| MainPage.ChildKeys | usUI/mainPage.go:184 | the child keys are keys of the store |
| MainPage.EntriesRemove | usUI/mainPage.go:183-194 | the records of a key set are one key's record plus those of the rest |
| MainPage.EntriesAdd | usUI/mainPage.go:183-194 | adding a new key adds its record |
| MainPage.EntriesFrom | usUI/mainPage.go:183-194 | a key set gives one record per key, each the record of a key in the set |
| MainPage.EntriesOnce | usUI/mainPage.go:183-194 | in a store whose records carry their own key, each child's record appears exactly once |
| MainPage.InsertBySize | usUI/mainPage.go:198 | inserting into a non-increasing sequence keeps it non-increasing and adds exactly that record |
| MainPage.HeadFirst | usUI/mainPage.go:198 | a record no smaller than the head can go first (helper of `InsertBySize`) |
| MainPage.SortBySize | usUI/mainPage.go:198 | the sorted slice is a permutation of its input with sizes non-increasing |
| MainPage.MultisetHead | usUI/mainPage.go:198 | dropping the head removes one copy of it (helper of `SameSizeColumn`) |
| MainPage.MultisetRemoveAt | usUI/mainPage.go:198 | dropping any position removes one copy of its element (helper of `SameSizeColumn`) |
| MainPage.HeadsAgree | usUI/mainPage.go:198 | two descending permutations of each other start with the same number (helper of `SameSizeColumn`) |
| MainPage.DescendingTail | usUI/mainPage.go:198 | the tail of a descending sequence is descending (helper of `SameSizeColumn`) |
| MainPage.SortedNumbersUnique | usUI/mainPage.go:198 | two descending sequences with the same numbers are equal (helper of `SameSizeColumn`) |
| MainPage.SameHeadSameTail | usUI/mainPage.go:198 | sequences with equal heads and tails are equal (helper of `SameSizeColumn`) |
| MainPage.SizesRemoveAt | usUI/mainPage.go:198 | the size column commutes with dropping a row (helper of `SameSizeColumn`) |
| MainPage.SizesPermuted | usUI/mainPage.go:198 | permuted rows have permuted size columns (helper of `SameSizeColumn`) |
| MainPage.SizesDropOne | usUI/mainPage.go:198 | matching heads and matching remainders give matching size columns (helper of `SameSizeColumn`) |
| MainPage.SameSizeColumn | usUI/mainPage.go:198 | any two size-sorted orders of the same records show the same size column, so only the order among equal sizes can differ |
| MainPage.ChildSeen | usUI/mainPage.go:184-193 | a key met by the loop adds its record to the children met so far exactly when its parent is the directory |
| MainPage.CollectedSnoc | usUI/mainPage.go:183-194 | the loop over one more key appends that key's record when it is a child |
| MainPage.KeysSnoc | usUI/mainPage.go:183 | the keys of one more element |
| MainPage.CollectedStep | usUI/mainPage.go:183-194 | one more key, not met before, keeps the collected records equal to the children among the keys met |
| MainPage.CollectedChildren | usUI/mainPage.go:183-194 | a duplicate-free key sequence collects exactly the records of the child keys in it, whatever the order |
| MainPage.CollectedEveryKey | usUI/mainPage.go:183-194 | over all keys, the loop collects every child's record once, and nothing exactly when there is no child |
| MainPage.EntriesEmpty | usUI/mainPage.go:188-190 | a key set contributes no record exactly when it is empty |
| MainPage.CollectChildren | usUI/mainPage.go:181-195 | the flag is true exactly when some key's parent is the directory; then the slice holds each child's record once, otherwise it is the one zero-valued record |
| MainPage.DirectChildren | usUI/mainPage.go:179-201 | as `CollectChildren`, and the slice is sorted by size, non-increasing; the store is only read |
| MainPage.TableRows | usUI/mainPage.go:135-138 | the rows the table shows are the directory's children, each once, largest first, and none when there is no child |
| MainPage.QueryTwice | usUI/mainPage.go:179-201 | two queries with no store change in between return the same records with the same size column |
| MainPage.NodeReference | usUI/mainPage.go:65-75 | a tree node carries its path and kind, size 0 for a directory and the stat size for a file: the record the scan stores |
| Text.FirstIndex | usUI/propertiesPage.go:123 | the index of the first separator, or the length when there is none |
| Text.Split | usUI/propertiesPage.go:123 | `strings.Split` always yields at least one piece |
| Text.JoinCons | usUI/propertiesPage.go:123 | joining puts one separator between the first piece and the rest |
| Text.Join | usUI/propertiesPage.go:123 | `strings.Join`, the inverse of `Split` proved in `JoinSplit` |
| Text.JoinSplit | usUI/propertiesPage.go:123 | splitting then joining with the same separator gives the text back |
| Text.SplitPiecesClean | usUI/propertiesPage.go:123 | no piece holds the separator |
| Text.SplitHasSecond | usUI/propertiesPage.go:123-124 | text holding the separator splits into at least two pieces, the first being what precedes the separator |
| Text.SplitAfterFirst | usUI/propertiesPage.go:123 | a separator-free prefix is the first piece, followed by the pieces of the rest |
| Text.SplitAt | usUI/propertiesPage.go:123 | the split is the part before the first separator, then the split of what follows |
| Text.SplitNone | usUI/propertiesPage.go:123 | text without the separator is one piece |
| Text.LastIndex | usUI/propertiesPage.go:123-126 | the index of the last occurrence, or -1 |
| Text.AfterLast | usUI/propertiesPage.go:123-126 | what follows the last separator holds no separator, and is the whole text when there is none |
| Text.AfterLastOf | usUI/propertiesPage.go:123-126 | after `a + sep + b`, with `b` separator-free, comes `b` |
| Text.DigitChar | usUI/propertiesPage.go:186 | a digit is printed as a character '0' to '9' |
| Text.DecimalString | usUI/propertiesPage.go:186 | `strconv.Itoa` of a count: digits only, non-empty, no leading zero |
| Text.DigitRoundTrip | usUI/propertiesPage.go:186 | a printed digit reads back as itself |
| Text.DecimalRoundTrip | usUI/propertiesPage.go:186 | the printed count reads back as the count |
| Text.Resolve | main.go:33 | the cleaned elements are non-empty, not ".", and either ".." or an element of the input; a rooted path keeps no ".." |
| Text.Clean | main.go:33 | Go's `path.Clean`; its shape is proved in `CleanShape` and `CleanOfSlashes` |
| Text.JoinNoEdgeSlash | main.go:33 | joining non-empty slash-free elements neither starts nor ends with '/' |
| Text.CleanShape | main.go:33 | `path.Clean` never gives "" and ends in '/' only for "/"; it starts with '/' exactly when its input does |
| Text.SplitOfSlashes | main.go:33 | a run of slashes splits into empty pieces |
| Text.ResolveEmpties | main.go:33 | empty elements leave nothing |
| Text.CleanOfSlashes | main.go:33 | any run of slashes cleans to "/" |
| Text.SplitTrailing | main.go:33 | a trailing separator adds exactly one empty piece to the split |
| Text.ResolveTrailingEmpty | main.go:33 | a trailing empty element does not change the cleaned elements |
| Text.CleanTrailingSlash | main.go:32-34 | `path.Clean` of a non-empty path ignores one trailing '/' |
| PropertiesPage.ErrorReason | usUI/propertiesPage.go:123-126 | as written: fails (index out of range) exactly when the message holds no ':'; otherwise the second ':'-separated field, or "Unknown Reason" when it is empty (stated in full by `ReasonIsSecondField`) |
| PropertiesPage.ReasonIsSecondField | usUI/propertiesPage.go:123-126 | for any text `head:field` or `head:field:rest` with no ':' in `head` or `field`, the reason shown is `field`, or "Unknown Reason" when `field` is empty |
| PropertiesPage.CauseOfError | usUI/propertiesPage.go:123-126 | corrected: always a non-empty reason, and the message itself when that is non-empty and holds no ':' (an empty message gives "Unknown Reason") |
| PropertiesPage.CauseIsMessage | usUI/propertiesPage.go:81-88 | for a removal error "op path: message", the corrected reason is the message, whatever the path holds |
| PropertiesPage.ReasonAgreesWithoutColonInPath | usUI/propertiesPage.go:123-126 | when neither the operation and path nor the message hold ':', both readings give the message |
| PropertiesPage.ReasonFromPathFragment | usUI/propertiesPage.go:123-126 | when the path holds ':', the as-written reason is a fragment of the path while the corrected one is still the message |
| PropertiesPage.ReasonForColonPath | usUI/propertiesPage.go:123-126 | for "remove /t/a:b: permission denied" the page shows "b"; the corrected reading gives " permission denied" |
| PropertiesPage.RemovalFailedLine | usUI/propertiesPage.go:123-130 | as written: the index panic exactly when the error text holds no ':'; otherwise "can't be removed : " followed by the handler's reason (`ErrorReason`) |
| PropertiesPage.FailurePage | usUI/propertiesPage.go:86-90 | a failed removal panics exactly when its error text holds no ':', and otherwise shows the error page with `RemovalFailedLine` |
| PropertiesPage.ColonPathPage | usUI/propertiesPage.go:86-130 | the failed removal of `/t/a:b` shows "can't be removed : b" |
| PropertiesPage.ContentsText | usUI/propertiesPage.go:182-186 | `strconv.Itoa` of the child count, then " element", plural from two on; what the line promises is proved in `ContentsTextReadsBack` |
| PropertiesPage.ContentsTextReadsBack | usUI/propertiesPage.go:182-186 | the contents line starts with the count, which reads back, then a space; it ends in "s" exactly when the count is at least 2 |
| PropertiesPage.Repairing | usUI/propertiesPage.go:94-101 | the repair loop's intermediate store keeps the keys |
| PropertiesPage.RepairingStart | usUI/propertiesPage.go:94 | before the loop moves, nothing is repaired |
| PropertiesPage.RepairingStep | usUI/propertiesPage.go:95-100 | each step rewrites exactly the new parent as `(parent, size - deleted size, true)` |
| PropertiesPage.RepairingEnd | usUI/propertiesPage.go:95-102 | at the root, removing the deleted key gives `Repaired` |
| PropertiesPage.Delete | usUI/propertiesPage.go:78-107 | as written: on a removal error the store is unchanged and the handler goes to `FailurePage` (the index panic when the text holds no ':', else the error page with the second ':'-field); otherwise the store becomes `Repaired` and the main page lists the parent's children from the updated store, largest first |
| Launch.PathDirOfTrailingSlash | main.go:32-34 | `path.Dir` of a path ending in '/' is the cleaned path, which ends in '/' only when it is "/" |
| Launch.PathDir | main.go:33 | Go's `path.Dir` on any text: the part up to the last '/', cleaned; its trailing-slash case is proved in `PathDirOfTrailingSlash` |
| Launch.LastSlashIsLastIndex | main.go:33 | the '/' that `path.Dir` cuts at is the last occurrence of '/' (`Paths.LastSlash` agrees with `Text.LastIndex`) |
| Launch.Message | main.go:18-39 | the panic text for each way start-up stops |
| Launch.RootReference | main.go:71 | the reference of the tree's root node; `RootReferenceIsScanRecord` proves it is the scan's root record |
| Launch.NormalizeRoot | main.go:17-46 | as written: more than one argument fails; none gives the working directory unchecked; "" and "/" are refused; an argument longer than one character that ends in '/' is replaced by its cleaned form (`path.Dir` of it), which must exist and be a directory; any other argument, one character long or unclean included, is checked as given; a root taken from an argument never ends in '/' unless it is "/" |
| Launch.TrailingSlashIgnored | main.go:32-39 | a clean argument other than "/" gives the same outcome with or without a trailing '/' |
| Launch.SlashesSlipPastRootCheck | main.go:26-34 | any run of two or more slashes passes the "/" check, is trimmed to "/" and scanned |
| Launch.DotSpellingSlipsPastRootCheck | main.go:26-39 | "/." names the root (it cleans to "/"), passes the "/" check untouched and is scanned |
| Launch.NormalizeRootChecked | main.go:17-46 | corrected: never chooses a root that cleans to "/" ("//", "/.", "/tmp/.." or a working directory of "/"), and agrees with `NormalizeRoot` on every other outcome |
| Launch.RootReferenceIsScanRecord | main.go:70-71 | the tree root's reference `(givenPath, 0, true)` is the record the scan stores for the root directory |
| Launch.WaitingScan | main.go:143-150 | the first query runs only after scan and rollup are done, on the rolled-up store, and lists the root's children largest first |
| Launch.Launch | main.go:17-150 | as written: start-up stops with `NormalizeRoot`'s reason, or scans the root it chose (also "/" reached through "//" or the working directory) and shows its children from a store in which every directory holds the total of the files beneath it |
| Scenario.Distinct | usWalk/walkdir.go:23 | the four paths of the worked tree are distinct |
| Scenario.Parents | usWalk/walkdir.go:36 | the parents of the worked tree's paths |
| Scenario.Walks | usWalk/walkdir.go:35-36 | the directories each walk of the worked tree visits |
| Scenario.ScanAppend | usWalk/walkdir.go:19-27 | one more stat'ed visit adds or overwrites its own record |
| Scenario.ScenarioScan | usWalk/walkdir.go:19-27 | the worked tree scans to `/r`=0, `/r/a`=100, `/r/b`=0, `/r/b/c`=50 |
| Scenario.ScenarioShaped | usWalk/walkdir.go:35-36 | the worked tree has the shape used by the generic lemmas |
| Scenario.RolledDirectory | usWalk/walkdir.go:39-43 | a directory's rolled-up record is its size plus the files beneath it |
| Scenario.RolledFile | usWalk/walkdir.go:39 | a file's record survives the rollup |
| Scenario.TreeFiles | usWalk/walkdir.go:35-36 | in the shaped tree the root has both files beneath it and `b` has `c` |
| Scenario.TreeSums | usWalk/walkdir.go:43 | the totals of those file sets |
| Scenario.FourKeys | usWalk/walkdir.go:30 | a four-key store is the display of its records |
| Scenario.TreeRolledDirectories | usWalk/walkdir.go:29-46 | the two directories after the rollup of the shaped tree |
| Scenario.TreeRollup | usWalk/walkdir.go:29-46 | the whole shaped tree after the rollup |
| Scenario.ScenarioRollup | usWalk/walkdir.go:29-46 | after the rollup `/r` is 150 and `/r/b` is 50, files unchanged |
| Scenario.EntriesOfTwo | usUI/mainPage.go:183-194 | the records of two keys |
| Scenario.TreeChildren | usUI/mainPage.go:184 | the children of the shaped tree's root are `a` and `b` |
| Scenario.ChildrenOfRoot | usUI/mainPage.go:184 | the children of `/r` after the rollup |
| Scenario.TwoInOrder | usUI/mainPage.go:198 | two records of different sizes have one non-increasing order |
| Scenario.ScenarioChildren | usUI/mainPage.go:179-201 | listing `/r` gives `/r/a` (100) then `/r/b` (50) |
| Scenario.ScenarioDelete | usUI/propertiesPage.go:93-102 | deleting `/r/b/c` leaves `/r`=100, `/r/a`=100, `/r/b`=0 and drops `/r/b/c` |

## Left out

- The tview/tcell interface: pages, forms, tables, tree nodes, colours, key bindings and the header. They are presentation only. `Delete` returns which page is shown, with the reason or the rows, and nothing else about it.
- Concurrency. This covers the parallel walk library, the concurrent map's locking, and the goroutine and channel handshake of `waitingScan`. The store is a sequential map. The walk is the sequence of reports the callback receives. The completion signal is the order of calls in `WaitingScan`, together with the `scanState` result of `WalkGivenDir`.
- The filesystem calls: `os.Open`, `Readdirnames`, `Lstat`, `Remove`, `RemoveAll` and `times.Stat`. They are inputs: a map from path to kind and size, a removal `Outcome`, and a child count for the contents line.
- The `Lstat` guards on vanished paths in `UpdateTableChildren` and the selection handlers. They are I/O checks. `MainPage.TableRows` models the table refresh as if the directory still exists.
- `humanize.Bytes`, `humanize.Time`, the timestamp splitting, `path.Base` for display, and the file-type classification from mode bits. These are foreign formatting, the clock and the OS mode bits.
- `AddNodes` reading a directory from disk. Only the record it attaches to each node is modelled (`MainPage.NodeReference`).
- MainPage.SortBySize: `sort.Slice` is not stable, and the order it gives among equal sizes is not modelled. The model sorts by insertion, which is one admissible order. `MainPage.SameSizeColumn` shows that every admissible order has the same size column.
- Launch.NormalizeRoot: when the argument does not exist, `Lstat` returns a nil result and `fd.IsDir()` dereferences it. So the source panics with a nil-pointer error, and its later `os.IsNotExist` check is never reached. The model gives `MissingPath` for that case.
- Launch.NormalizeRoot: an empty argument makes `givenPath[len(givenPath)-1:]` panic. The model gives `EmptyArgument`. The panic texts of `Launch.Message` are not compared with Go's runtime messages.
- WalkDir.Rollup: when a walk misses its root or an ancestor has no record, the source loops forever or panics on the failed type assertion. The model requires a well-formed store instead, in which every key lies below the root and every ancestor is a directory record.
- PropertiesPage.Delete: it likewise requires the deleted entry to lie below the root and every ancestor to be stored.
- WalkDir.ScanThenRollup: the rollup invariant is stated modulo 2^64. `Aggregate.RepairDoesNotWrap` shows the subtraction is exact when all files total less than 2^64.
- Paths.Dir: it is Go's `path.Dir` only on clean paths. For example, `Dir("/tmp//x")` is "/tmp/", where Go gives "/tmp". The store's keys are assumed clean. `Launch.PathDir` is the general `path.Dir`, and no lemma relates the two.
- WalkDir.Rollup: an unclean root such as "./foo" or "/tmp//x" passes `NormalizeRoot` unchanged. If the walk library joins child paths cleanly, a child `/tmp/x/f` walks up through `/tmp/x`, `/tmp` and `/` and never meets "/tmp//x", so the loop at usWalk/walkdir.go:35 would not end. The walk library is not part of this model, so this is not claimed as a finding; the model requires every key to lie below the root.
- The order-independence of the rollup is not a separate lemma. `Rolled` is defined over the set of keys, and `WalkDir.Rollup` is proved for whatever order `Keys` returns.

## Findings

| source | as written | input that shows it | evidently intended | confidence | as-written member | corrected member |
|---|---|---|---|---|---|---|
| usUI/propertiesPage.go:123-126 | the reason is the second ':'-separated field of the error text, and it panics when there is no ':' | removing `/t/a:b` fails with "remove /t/a:b: permission denied"; the page shows "b" | show the operating system's message, i.e. the text after the last ':' | not executed | PropertiesPage.ReasonForColonPath | PropertiesPage.CauseIsMessage |
| main.go:26-34 | only the literal argument "/" is refused, before the trailing slash is trimmed | the argument "//" is trimmed by `path.Dir` to "/", and "/." is kept as given; both name the filesystem root and are scanned | never scan the filesystem root, however it is spelled | not executed | Launch.SlashesSlipPastRootCheck | Launch.NormalizeRootChecked |

`PropertiesPage.Delete` and `Launch.Launch` follow the source as written. The corrected rules, `PropertiesPage.CauseOfError` and `Launch.NormalizeRootChecked`, are stated and proved beside them.
