# Space-bounded backup retention, modelled in Dafny

`backup.py` copies an input directory into a timestamped folder inside a
backup root. Before copying, it checks that the new backup fits under a
size cap next to the newest existing backup. It then deletes the oldest
backups, one at a time, until the root and the input fit under the cap.

This project models that retention policy over an abstract backup root.
The root is a sequence of entries in directory-listing order. Each entry
has a name, a ctime (the last metadata change time), a size in KB (what
`du -sk` reports for it) and a flag saying whether it is a directory.

- `Entries` (`entries.dfy`): the entry datatype, the sum of sizes, and
  deletion of a child by name (`Without`).
- `Ranking` (`ranking.dfy`): `oldest_in_directory` and
  `newest_in_directory`. Each one stably sorts the listing by ctime and
  takes the first or the last element. Two reference definitions,
  `FirstMinIndex` and `LastMaxIndex`, say which entry that is.
- `Admission` (`admission.dfy`): `check_backup_possible`, over a snapshot
  of the listing.
- `Eviction` (`eviction.dfy`): what the purge loop does, as functions of
  the listing it starts from (`Purged` and `Evictions`), and lemmas about
  them.
- `Backup` (`backup.dfy`): the backup root as a mutable `BackupFolder`
  object. It holds the purge loop (`PurgeOldBackupsAsRequired`), which is
  proved against `Purged`/`Evictions`, and `CreateNewBackup`. `RunBackup`
  is the script's dispatch.
- `Scenarios` (`scenarios.dfy`): three worked end-to-end cases.

The root's size as `du` measures it is modelled as the sum of the
children's sizes plus a fixed overhead `overheadKb` (a `nat`) for the root
directory itself. `du` counts blocks, so the root's size need not equal the
plain sum of its children. Properties that need the sum exactly are proved
with `overheadKb == 0` and say so.

Choices the model makes where the code's behaviour is easy to mistake:
- Ties in ctime: Python's `sorted` is stable, so among equal ctimes
  `oldest` picks the first entry in listing order and `newest` picks the
  last one.
- Deletions come in non-decreasing ctime order; entries can share a ctime.
- When `create_new_backup` finds its target already present, it prints a
  marker, changes nothing, and the run still exits with status 0
  (`CopyTargetExists`). `RunBackup` proves that this case cannot happen
  after the dispatch's own collision check.
- The argument check at backup.py:123-134 is inverted (see "Left out").

## Model

| member | source | states |
|---|---|---|
| `Ranking.SortByCtime` | backup.py:42-43 | The sorted listing is a permutation of the listing, and its ctimes never decrease; its stability is `Ranking.SortByCtimeStable`. |
| `Ranking.SortByCtimeStable` | backup.py:42-43 | The sort is stable: for every ctime, the entries with that ctime appear in the output in exactly their listing order. |
| `Ranking.InsertWithCtime` | backup.py:42-43 | An inserted entry lands ahead of every entry sharing its ctime, and the order among the others is kept. |
| `Ranking.Insert` | backup.py:42-43 | Inserting into a sorted listing keeps it sorted and adds exactly that one entry. |
| `Ranking.Oldest` | backup.py:42-46 | The result is None exactly when the folder is empty; otherwise it is one of the folder's entries. |
| `Ranking.Newest` | backup.py:56-60 | The result is None exactly when the folder is empty; otherwise it is one of the folder's entries. |
| `Ranking.FirstMinIndex` | backup.py:42-46 | Reference definition: a position whose ctime is at most every ctime, with every earlier entry strictly newer. |
| `Ranking.LastMaxIndex` | backup.py:56-60 | Reference definition: a position whose ctime is at least every ctime, with every later entry strictly older. |
| `Ranking.InsertLast` | backup.py:56-60 | The last element after an insertion is the inserted entry, unless the sorted listing already ends with an entry at least as new. |
| `Ranking.OldestIsFirstMinimum` | backup.py:42-46 | `oldest` is None exactly for an empty folder. Otherwise it is the first entry, in listing order, with the least ctime. |
| `Ranking.NewestIsLastMaximum` | backup.py:56-60 | `newest` is None exactly for an empty folder. Otherwise it is the last entry, in listing order, with the greatest ctime. |
| `Ranking.OldestNotNewerThanNewest` | backup.py:42-60 | The oldest entry's ctime is at most the newest entry's ctime. With exactly one entry, both are that entry. |
| `Admission.NewestSizeKb` | backup.py:72-76 | The newest backup's size is 0 for an empty folder, and otherwise the size of the last entry of greatest ctime. |
| `Admission.BackupPossible` | backup.py:70-80 | `check_backup_possible`: an admitted input is never larger than the cap, and on an empty folder admission is exactly "the input fits under the cap". |
| `Admission.BackupPossibleIff` | backup.py:70-80 | Admission holds iff the input fits under the cap on an empty folder, or the input plus the last entry of greatest ctime fits under the cap otherwise. An input larger than the cap is never admitted. |
| `Entries.HasNameIff` | backup.py:137 | A joined path exists exactly when some child of the listing carries its name. |
| `Entries.Without` | backup.py:97-100 | Deleting a child by name adds nothing, and the listing shrinks whenever the name was present. |
| `Entries.WithoutKeepsOthers` | backup.py:97-100 | Deleting a child by name keeps exactly the entries with other names. |
| `Entries.WithoutAbsent` | backup.py:97-100 | Deleting a name that is not present leaves the listing unchanged. |
| `Entries.WithoutAt` | backup.py:97-100 | With distinct names, deleting the child at index i removes exactly that element and keeps the others in order. |
| `Entries.WithoutAtMultiset` | backup.py:97-100 | Deleting one child takes exactly that child out of the multiset of entries. |
| `Entries.WithoutKeepsDistinct` | backup.py:97-100 | Deleting a child keeps the names in the folder distinct. |
| `Eviction.EvictOldest` | backup.py:96-101 | Deleting the oldest child shrinks the listing and adds nothing. |
| `Eviction.Purged` | backup.py:94-102 | When the purge stops, the root and the input fit under the cap, or the folder is empty. No entry is added. If they already fit at the start, nothing is deleted. |
| `Eviction.Evictions` | backup.py:94-101 | Every deleted child came from the starting folder. Nothing is deleted when the root and the input already fit. |
| `Eviction.PurgeStep` | backup.py:94-102 | When the folder does not fit and is not empty, the purge continues from the folder without its oldest child. |
| `Eviction.EvictionsStep` | backup.py:94-101 | When the folder does not fit and is not empty, the oldest child is the next deletion, and the later deletions are those of the smaller folder. |
| `Eviction.PurgePartitions` | backup.py:92-101 | The deleted children plus the survivors are exactly the starting children, as a multiset. So survivors are unchanged and nothing is added. |
| `Eviction.EvictionsOldestFirst` | backup.py:92-101 | Children are deleted in non-decreasing ctime order. |
| `Eviction.EvictionsNoNewerThanSurvivors` | backup.py:92-101 | No deleted child is newer than any survivor. |
| `Eviction.EvictOldestKeepsNewest` | backup.py:96-101 | While two or more children remain, deleting the oldest one leaves the newest child in place, and it is still the newest. |
| `Eviction.AdmittedSingleFits` | backup.py:72-80 | On a folder with one child and an additive root size, admission means that child and the input fit under the cap together. |
| `Eviction.NewestSurvivesPurge` | backup.py:70-102 | With an additive root size, an admitted backup never costs the newest existing backup. It survives the purge and stays the newest. |
| `Eviction.AdmittedPurgeFits` | backup.py:70-102 | With an additive root size, an admitted backup always fits after the purge. The purge never needs to empty the folder. |
| `Backup.BackupFolder.SizeKb` | backup.py:91 | `get_size_kilobytes(backup_folder)` is at least the root's own overhead plus the size of any one child. |
| `Backup.BackupFolder.Exists` | backup.py:137 | `os.path.exists` on a joined child path holds exactly when some child carries that name. |
| `Backup.BackupFolder.Delete` | backup.py:97-100 | The folder afterwards is the old listing without the named child, and the names stay distinct. |
| `Backup.BackupFolder.PurgeOldBackupsAsRequired` | backup.py:83-102 | The loop's final listing is `Purged` of the starting listing, and its deletions, in order, are `Evictions`. On exit the root and the input fit or the folder is empty. Nothing changes if they fit at the start. |
| `Backup.BackupFolder.CreateNewBackup` | backup.py:105-111 | When the target exists, nothing changes. Otherwise exactly one new directory entry is appended, with the target's name, the input's size and the given ctime. |
| `Backup.RunBackup` | backup.py:136-158 | A name collision gives exit status 2 and no change. A refused admission gives no eviction and no copy, and exits normally. Only an admitted run purges and then appends the copy. Exit status 2 occurs exactly on a collision. |
| `Backup.ExitStatus` | backup.py:141 | Exit status 2 belongs exactly to a name collision; every other outcome exits with 0. |
| `Backup.CreatedRunWithinCap` | backup.py:136-158 | With an additive root size, a run that makes the backup leaves the root, including the copy, within the cap. The newest earlier backup is still present. |
| `Scenarios.EmptyFolderAdmits` | backup.py:70-102 | An empty folder admits a 10 KB input under a 100 KB cap and deletes nothing. |
| `Scenarios.NewestTooLargeRefuses` | backup.py:70-80 | A single 90 KB backup refuses a 20 KB input under a 100 KB cap. |
| `Scenarios.ThreeBackupsEvictOne` | backup.py:70-102 | With three 30 KB backups, a 15 KB input and a 100 KB cap, the input is admitted. Exactly the oldest backup is deleted, and the other two survive in order. |

## Left out

- `get_size_kilobytes` (backup.py:17-32) runs `du -sk` in a subprocess. Sizes are abstract instead: each entry carries its own size, and the root's size is the sum of its entries' sizes plus `overheadKb`. The `if error:` branch is dead code, because stderr is not piped, so it is not modelled.
- The input directory's size is one `inputSizeKb` parameter. The source measures it twice, once in the admission check and once in the purge, and the model assumes nothing changes in between. The copy's measured size is also taken to equal `inputSizeKb`.
- `copy_tree`, `remove_tree` and `os.remove` act on whole entries. Adding or deleting an entry stands for them. The files inside an entry, and I/O errors from these calls, are not modelled.
- Backup.BackupFolder.Delete always succeeds. `remove_tree` logs each failed removal inside the entry and carries on. When every removal inside `remove_tree` fails (a read-only mount, say), the entry, its ctime and the root's size stay as they were, so `oldest_in_directory` returns it again and the loop at backup.py:94 never ends. A partial failure frees part of the entry and refreshes its ctime, and an unreadable entry makes `remove_tree` raise. The model's purge terminates only because its deletes always succeed.
- The listing position of a new entry is not modelled faithfully. `os.listdir` order is up to the operating system; the model appends the copy at the end.
- `get_new_backup_name` (backup.py:114-120) reads the clock and formats a timestamp. The model takes the resulting name (`outputName`) and the copy's ctime (`nowCtime`) as parameters. Folder names are names inside the root, not joined paths.
- Argument validation (backup.py:123-134) is left out. In the source, its condition is inverted: it prints usage only when the argument count is wrong and every argument is valid. Indexing `sys.argv[1..3]` raises before that test on too few arguments. The intended validation, with exit status 1, is therefore not modelled as if the code did it. `maxKb` is any integer.
- The Python version check (backup.py:12-14) and all printed messages are left out.
- ctime is a floating-point number in the source and a `real` here. Only its ordering is used.
- Ranking.SortByCtime: Python's stable sort is modelled as a stable insertion sort. Its sortedness, permutation and stability (`SortByCtimeStable`) together pin its output down, but the model does not prove that any other stable sort gives the same output.
- Concurrent runs against the same root, and the race between admission and eviction, are left out.
- Eviction.NewestSurvivesPurge, Eviction.AdmittedPurgeFits and Backup.CreatedRunWithinCap are proved only when `overheadKb == 0`, that is, when the root's size is exactly the sum of its children's sizes. With a positive overhead, a single remaining backup can legitimately be deleted, and the model does not claim otherwise.
- Backup.BackupFolder.PurgeOldBackupsAsRequired states its result through `Purged` and `Evictions`. The partition, ordering and survivor facts about those functions are proved as separate lemmas rather than repeated in the method's contract.
