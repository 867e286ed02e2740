# VPS backup script: versioned FTPS upload, modelled in Dafny

The backup script builds password-protected zip archives and copies them to a
remote directory over FTPS. It makes one archive of an Immich photo server: a
fresh database dump, the newest earlier database snapshot, and the library
directories. It also makes one archive per configured directory. Each archive
is uploaded under a versioned remote name, the archive's file name followed by
a dot and a timestamp. An upload is skipped when the newest remote version
already has the same size. After each archive, only the three
lexicographically greatest versions are kept.

The model covers the parts of the script that decide things:

- which database snapshot is the latest;
- what is staged for the Immich archive and what every archive is called;
- the order in which `main` hands the archives to the uploader;
- the upload-and-retention loop, over an abstract remote directory.

Modules:

- `Strings`: Python's `str.startswith` and Python's ordering of strings, which
  `list.sort()` uses and which makes `matching[-1]` the greatest name. It proves that ordering is a strict total order.
- `Timestamps`: the `%Y%m%dT%H%M%S` rendering of a date and time. It proves
  that comparing two renderings as strings is the same as comparing the two
  moments in time.
- `Paths`: `rstrip("/")`, `os.path.basename` and two-argument `os.path.join`.
- `NameOrder`: sorting a listing (`SortNames`, proved to return a sorted
  permutation). It also defines the specification side: `SortedNames`, the
  one strictly increasing enumeration of a set of names.
- `Remote`: the remote directory after `cwd`, as a class `RemoteDir`. Its map
  `objects` goes from name to size. `nlst`, `size`, `storbinary` and `delete`
  are its methods. A ghost log records every `STOR` and `DELE` in order.
- `Versioning`: `upload_with_versioning`. `SyncOne`/`SyncOps` are the
  specification of one iteration. `SyncAll`/`RunOps` are the specification of
  a whole run. The methods `SyncArchive`, `Retain`, `DeleteSurplus` and
  `UploadWithVersioning` are the loops over the FTP calls, proved equal to
  those specifications. Lemmas state the script's promises about the
  specifications: skip on equal size, at most three versions, the newest
  versions survive, the oldest goes first, and other archives' objects are
  untouched.
- `Backup`: `latest_file_in_dir`, `backup_immich` (its staging plan and
  archive name), `backup_other_dirs`, and `main`. `RunPipeline` chains
  archive creation and upload.

Two properties of the script as written shape the model:

- The code stamps each local archive name with the run's time
  (`MUSIC-20260115T030000.zip`, lines 117-120 and 133-137), so the upload key
  changes from run to run. See Findings.
- The upload loop has no exception handling: any FTP error ends the run. The
  model has no faults at all (see Left out).

## Model

| member | source | states |
|---|---|---|
| `Strings.StartsWith` | Vps-backup-script/Backup-script-template.py:167 | `s.startswith(prefix)`: the prefix is no longer than `s` and equals its first characters. `StartsWithAppend` and `UploadNameMatches` use it. |
| `Strings.LexLess` | Vps-backup-script/Backup-script-template.py:168 | Python's `<` on strings: the first differing code point decides, and a proper prefix sorts first. The lemmas below prove it a strict total order. |
| `Strings.LexLessIrreflexive` | Vps-backup-script/Backup-script-template.py:168 | No name sorts strictly before itself under Python's string order. |
| `Strings.LexLessTransitive` | Vps-backup-script/Backup-script-template.py:186 | Python's string order is transitive. |
| `Strings.LexTrichotomy` | Vps-backup-script/Backup-script-template.py:171 | Any two names are equal or one sorts strictly first, so the sorted listing's last element is well defined. |
| `Strings.LexLessAsymmetric` | Vps-backup-script/Backup-script-template.py:187 | Two names never each sort before the other. |
| `Strings.LexLessSplit` | Vps-backup-script/Backup-script-template.py:163 | For concatenations whose first parts have equal length, order is decided by the first parts, then by the rest. |
| `Strings.ConcatEq` | Vps-backup-script/Backup-script-template.py:164 | Concatenations with equal-length first parts are equal iff both parts are equal. |
| `Strings.LexLessCommonPrefix` | Vps-backup-script/Backup-script-template.py:164 | A shared prefix does not change the order: `base.x < base.y` iff `x < y`. |
| `Strings.StartsWithAppend` | Vps-backup-script/Backup-script-template.py:167 | A name built by appending to `base` starts with `base`. |
| `Timestamps.Digits` | Vps-backup-script/Backup-script-template.py:163 | A zero-padded field has exactly the field width, and every character is a digit. |
| `Timestamps.Strftime` | Vps-backup-script/Backup-script-template.py:163 | The timestamp has 15 characters: digits everywhere except a `T` at position 8, and no slash. |
| `Timestamps.DigitsOrder` | Vps-backup-script/Backup-script-template.py:163 | For numbers within the width, padded digit strings compare (and are equal) exactly as the numbers do. |
| `Timestamps.FieldThenRest` | Vps-backup-script/Backup-script-template.py:163 | A padded field followed by the rest compares field first, then rest. |
| `Timestamps.StrftimeOrder` | Vps-backup-script/Backup-script-template.py:163 | One timestamp sorts before another iff its moment is earlier. Two timestamps are equal iff their moments are (to the second). |
| `Paths.RStripSlash` | Vps-backup-script/Backup-script-template.py:112 | `rstrip("/")` drops trailing slashes one at a time; `RStripSlashDrops` characterises the result. |
| `Paths.Join` | Vps-backup-script/Backup-script-template.py:117-120 | Two-argument POSIX `join`: an absolute second part replaces the first, otherwise one `/` separates them unless the first is empty or already ends in `/`. `BasenameOfJoin` states what the archive paths need. |
| `Paths.RStripSlashDrops` | Vps-backup-script/Backup-script-template.py:112 | `rstrip("/")` returns a prefix that does not end in `/`, and everything it removes is `/`. |
| `Paths.Basename` | Vps-backup-script/Backup-script-template.py:162 | A basename never contains `/`. |
| `Paths.BasenameSuffix` | Vps-backup-script/Backup-script-template.py:162 | The basename is the suffix after the last `/`, or the whole path if there is none. |
| `Paths.BasenameOfJoin` | Vps-backup-script/Backup-script-template.py:117-120 | Joining a directory with a slash-free name and taking the basename gives the name back. |
| `Paths.BasenameAfterSlash` | Vps-backup-script/Backup-script-template.py:162 | A slash-free tail after a `/` (or after nothing) is the basename. |
| `NameOrder.Insert` | Vps-backup-script/Backup-script-template.py:168 | Inserting into a sorted list gives a sorted list with the same elements plus the new one. |
| `NameOrder.SortNames` | Vps-backup-script/Backup-script-template.py:168 | `sort()` returns a sorted permutation of its input, strictly increasing when the input has no repeats. |
| `NameOrder.SortedOfDistinct` | Vps-backup-script/Backup-script-template.py:186 | A sorted permutation of a repeat-free listing is strictly increasing. |
| `NameOrder.Least` | Vps-backup-script/Backup-script-template.py:188 | A non-empty set of names has a member no greater than any other. |
| `NameOrder.SortedNames` | Vps-backup-script/Backup-script-template.py:185-186 | The sorted listing of a set is strictly increasing, holds exactly the set, and has the set's size. |
| `NameOrder.SortedUnique` | Vps-backup-script/Backup-script-template.py:186 | Two strictly increasing lists with the same elements are equal, so the sorted listing does not depend on the server's listing order. |
| `NameOrder.StrictlySortedCard` | Vps-backup-script/Backup-script-template.py:187 | A strictly increasing list has as many distinct names as entries, so `len(matching)` counts versions. |
| `Remote.RemoteDir.constructor` | Vps-backup-script/Backup-script-template.py:154-159 | The session starts on the remote directory's current contents with nothing logged. |
| `Remote.RemoteDir.Nlst` | Vps-backup-script/Backup-script-template.py:167 | `nlst` lists every object exactly once, in an order the server chooses, and changes nothing. |
| `Remote.RemoteDir.Size` | Vps-backup-script/Backup-script-template.py:173 | `size` of a listed object returns its stored size. |
| `Remote.RemoteDir.Store` | Vps-backup-script/Backup-script-template.py:180-181 | `STOR` creates or replaces exactly that object with the local size and logs one `Stor`. |
| `Remote.RemoteDir.Delete` | Vps-backup-script/Backup-script-template.py:188 | `delete` removes exactly that object and logs one `Dele`. |
| `Versioning.UploadName` | Vps-backup-script/Backup-script-template.py:164 | The versioned remote name: the archive's basename, a dot and the upload timestamp. `UploadNameMatches` and `UploadNamesChronological` state that it belongs to the basename and sorts in upload-time order. |
| `Versioning.Matching` | Vps-backup-script/Backup-script-template.py:167 | The remote names that start with the archive's basename: the set the filters at lines 167 and 185 enumerate. `ListedMatching` ties any filtered, sorted listing to it, and `MatchingMinus` gives its behaviour under deletion. |
| `Versioning.ShouldUpload` | Vps-backup-script/Backup-script-template.py:169-176 | Upload unless some version exists and the greatest one has the local size; `UploadDecision` states it against `IsGreatest`. |
| `Versioning.AfterUpload` | Vps-backup-script/Backup-script-template.py:169-181 | The remote map after the upload decision and, when taken, the `STOR`. `UploadEffect` characterises it: the new version appears with the local size and nothing else changes, and a skip leaves the map as it was. |
| `Versioning.Surplus` | Vps-backup-script/Backup-script-template.py:187-189 | The entries the pop-front loop deletes: all but the last three of the sorted list, or none. `DeleteSurplus` is proved to delete exactly these. |
| `Versioning.Expired` | Vps-backup-script/Backup-script-template.py:184-189 | The matching names retention deletes, in deletion order: the surplus of the sorted matching names. `PruneMatching` and `RetentionKeepsNewest` characterise it. |
| `Versioning.Prune` | Vps-backup-script/Backup-script-template.py:185-188 | The remote map after retention: the expired names removed. `RetentionCount`, `RetentionKeepsNewest` and `PruneLeavesOthers` state its effect. |
| `Versioning.SyncOne` | Vps-backup-script/Backup-script-template.py:162-189 | The remote map after one archive's iteration: the upload decision and store, then retention on the updated map. |
| `Versioning.SyncOps` | Vps-backup-script/Backup-script-template.py:169-189 | The commands one iteration issues, in order: the `STOR` when the upload is taken, then one `DELE` per expired name. |
| `Versioning.SyncAll` | Vps-backup-script/Backup-script-template.py:161 | The remote map after the loop: one iteration per archive in list order, the i-th with the i-th clock reading and the basename of the i-th path. |
| `Versioning.RunOps` | Vps-backup-script/Backup-script-template.py:161-191 | The commands the loop issues, in order: each archive's iteration commands, in list order. |
| `Versioning.Deletions` | Vps-backup-script/Backup-script-template.py:188 | One `DELE` per name, in the order given. `DeletionsOnly` states that it contains no `STOR` and has one entry per name. |
| `Versioning.FilterPrefix` | Vps-backup-script/Backup-script-template.py:167 | The filter keeps exactly the listed names that start with the prefix, and keeps a repeat-free listing repeat-free. |
| `Versioning.SyncArchive` | Vps-backup-script/Backup-script-template.py:161-189 | One iteration leaves the remote map equal to `SyncOne` and logs exactly `SyncOps`. Upload happens when there is no match or the sizes differ. Retention follows. |
| `Versioning.Retain` | Vps-backup-script/Backup-script-template.py:184-189 | Retention re-lists, sorts, and deletes exactly `Expired` (all but the three greatest matching names), in order. |
| `Versioning.DeleteSurplus` | Vps-backup-script/Backup-script-template.py:187-189 | The pop-front loop deletes exactly the entries before the last three of the sorted list, in order, and nothing else. |
| `Versioning.UploadWithVersioning` | Vps-backup-script/Backup-script-template.py:147-191 | The whole loop leaves the remote map equal to `SyncAll` and logs `RunOps`: the archives processed in list order, the i-th with the i-th clock reading. |
| `Versioning.DeletionsOnly` | Vps-backup-script/Backup-script-template.py:188 | Retention issues one `DELE` per expired name and never a `STOR`. |
| `Versioning.ListedMatching` | Vps-backup-script/Backup-script-template.py:167-168 | Filtering a complete listing by the basename and sorting it gives the sorted set of matching names, whatever the server's order. |
| `Versioning.GreatestIsLast` | Vps-backup-script/Backup-script-template.py:170-171 | `matching[-1]` is the greatest matching name. |
| `Versioning.MatchingMinus` | Vps-backup-script/Backup-script-template.py:188 | Deleting names removes just those names from the matching set. |
| `Versioning.PruneMatching` | Vps-backup-script/Backup-script-template.py:185-189 | The number expired is the count above three. The expired names are the smallest ones. What remains matching is the rest of the sorted list. |
| `Versioning.NewerInSorted` | Vps-backup-script/Backup-script-template.py:186 | In a strictly increasing list, the names greater than an entry are exactly those after it. |
| `Versioning.NewestOfSorted` | Vps-backup-script/Backup-script-template.py:187-189 | The names with fewer than three greater names are the last three of the sorted list. |
| `Versioning.SplitOrdered` | Vps-backup-script/Backup-script-template.py:187-189 | Every name the loop deletes sorts before every name it keeps. |
| `Versioning.UploadDecision` | Vps-backup-script/Backup-script-template.py:169-181 | No match means upload. Otherwise upload iff the greatest matching object's size differs from the local size. An upload's first operation is the `STOR`. Nothing after it, and nothing in a skipped iteration, is a `STOR`. |
| `Versioning.StoreMatching` | Vps-backup-script/Backup-script-template.py:181 | Storing a name that starts with the basename adds it to the matching set with the local size and changes no other object. |
| `Versioning.UploadNameMatches` | Vps-backup-script/Backup-script-template.py:164 | The versioned remote name starts with the archive's basename, so the next listing finds it. |
| `Versioning.UploadEffect` | Vps-backup-script/Backup-script-template.py:179-181 | After the upload decision: the new version is present with the local size, it joins the matching set, and every other object is unchanged. A skip changes nothing. |
| `Versioning.NoExpiry` | Vps-backup-script/Backup-script-template.py:187 | With at most three matching names, retention deletes nothing. |
| `Versioning.FirstUpload` | Vps-backup-script/Backup-script-template.py:167-181 | With no earlier version, the iteration stores exactly one new object under the versioned name and deletes nothing. |
| `Versioning.RetentionCount` | Vps-backup-script/Backup-script-template.py:184-189 | After retention, min(3, n) versions match the basename, where n matched before. |
| `Versioning.RetentionKeepsNewest` | Vps-backup-script/Backup-script-template.py:184-189 | Retention keeps exactly the three greatest matching names. The deleted ones are matching names, in increasing order, and each sorts before every survivor. |
| `Versioning.PruneLeavesOthers` | Vps-backup-script/Backup-script-template.py:185-188 | Retention only deletes, never changes a size, and keeps every name that does not start with the basename. |
| `Versioning.SyncLeavesOthers` | Vps-backup-script/Backup-script-template.py:161-189 | An iteration does not add, remove or resize any object whose name does not start with that archive's basename. |
| `Versioning.UploadNamesChronological` | Vps-backup-script/Backup-script-template.py:163-164 | Versions of one basename sort in the order of their upload times, and two versions are equal iff their upload times are. |
| `Versioning.GreatestUnique` | Vps-backup-script/Backup-script-template.py:171 | The greatest matching name is unique. |
| `Versioning.TopHasLocalSize` | Vps-backup-script/Backup-script-template.py:170-181 | When the new version sorts last, the greatest matching object after the upload step has the local size. |
| `Versioning.PruneKeepsGreatest` | Vps-backup-script/Backup-script-template.py:185-189 | Retention never deletes the newest version, and it stays the greatest. |
| `Versioning.SkipIsIdle` | Vps-backup-script/Backup-script-template.py:170-189 | With at most three versions and the newest of equal size, the iteration makes no change and issues no command. |
| `Versioning.RerunIsNoOp` | Vps-backup-script/Backup-script-template.py:161-189 | Take a base whose earlier versions all sort before the new one. Syncing the same archive a second time, at any later time, changes nothing and issues no command. |
| `Versioning.SortedAppendGreatest` | Vps-backup-script/Backup-script-template.py:186 | Adding a name greater than all others appends it to the sorted listing. |
| `Versioning.FirstIsLeast` | Vps-backup-script/Backup-script-template.py:188 | `matching[0]` is the least matching name. |
| `Versioning.ExpiredOne` | Vps-backup-script/Backup-script-template.py:187-189 | Three versions plus a newer fourth: exactly one name expires, and it is the oldest of the three. |
| `Versioning.ExpiresOldest` | Vps-backup-script/Backup-script-template.py:184-189 | Same case: retention deletes only the oldest, leaving the two others and the new one. |
| `Versioning.FourthUploadDropsOldest` | Vps-backup-script/Backup-script-template.py:161-189 | Three versions of a different size and a newer upload: the iteration issues exactly `STOR new; DELE oldest`. The matching set loses the oldest and gains the new version. |
| `Versioning.ChangedSizeUploads` | Vps-backup-script/Backup-script-template.py:170-176 | If no matching version has the local size, the archive is uploaded. |
| `Versioning.RunLeavesOthers` | Vps-backup-script/Backup-script-template.py:161-189 | A whole run leaves every object alone whose name starts with none of the archives' basenames. |
| `Backup.LatestIndex` | Vps-backup-script/Backup-script-template.py:27-31 | No position iff no entry has the prefix. Otherwise the position has the largest ctime among matching entries, and it is the first such, as `max` keeps the first maximum. |
| `Backup.LatestUnique` | Vps-backup-script/Backup-script-template.py:31 | The latest matching entry is determined by the listing: any position that is the first newest matching entry is the one chosen. |
| `Backup.LatestFileInDir` | Vps-backup-script/Backup-script-template.py:27-31 | `None` iff no entry starts with the prefix. Otherwise the result is the directory joined with the first newest matching entry's name. |
| `Backup.JoinNonEmpty` | Vps-backup-script/Backup-script-template.py:100 | A path joined with a non-empty name is non-empty, so the line-100 filter keeps the latest snapshot's path (and the dump path). |
| `Backup.ImmichDbFiles` | Vps-backup-script/Backup-script-template.py:94-100 | The files to stage are one or two, the dump last. There are two iff some snapshot exists, and then the first is `latest_file_in_dir`'s answer. |
| `Backup.DirSegment` | Vps-backup-script/Backup-script-template.py:112 | A directory's name segment, taken after stripping trailing slashes, contains no `/`. |
| `Backup.StagingTarget` | Vps-backup-script/Backup-script-template.py:114 | Where `copytree` puts a directory: the staging directory joined with the directory's segment. |
| `Backup.StagingTargetsCollide` | Vps-backup-script/Backup-script-template.py:111-114 | Two directories are copied to the same staging target iff their last path segments are equal. The target's basename is that segment. |
| `Backup.ImmichArchiveName` | Vps-backup-script/Backup-script-template.py:117-120 | The Immich archive name contains no `/`. |
| `Backup.FileCopies` | Vps-backup-script/Backup-script-template.py:106-108 | One file copy into the staging directory per database file, in order; `BackupImmich` is proved to build it. |
| `Backup.TreeCopies` | Vps-backup-script/Backup-script-template.py:111-114 | One tree copy per other Immich directory, in order, each to its staging target; `TreeTargets` states sources and destinations. |
| `Backup.BackupImmich` | Vps-backup-script/Backup-script-template.py:88-125 | Returns the archive path in the temp directory (its basename is the stamped name). Also returns the copy plan: the database files into the staging directory, in order, then every other directory into its segment under staging. |
| `Backup.TreeTargets` | Vps-backup-script/Backup-script-template.py:111-114 | Each directory copy takes its source from the configuration and lands under its own segment. Two copies share a destination iff their segments agree. |
| `Backup.DirArchiveName` | Vps-backup-script/Backup-script-template.py:133-137 | A directory archive name contains no `/`. |
| `Backup.DirArchivePaths` | Vps-backup-script/Backup-script-template.py:132-140 | One archive path per configured directory. |
| `Backup.DirArchiveBasenames` | Vps-backup-script/Backup-script-template.py:133-137 | The basename of the i-th archive path is the i-th directory's segment stamped with the i-th clock reading. |
| `Backup.BackupOtherDirs` | Vps-backup-script/Backup-script-template.py:128-140 | Returns exactly one archive path per directory, in configuration order, each stamped with its own clock reading. |
| `Backup.DirArchiveNameInjective` | Vps-backup-script/Backup-script-template.py:133-137 | Two directory archive names are equal iff the segments and the moments (to the second) are equal. |
| `Backup.ArchiveOrder` | Vps-backup-script/Backup-script-template.py:212-218 | The upload list has the Immich archive first when it is enabled, then one archive per directory in configuration order, with the names above. |
| `Backup.RunPipeline` | Vps-backup-script/Backup-script-template.py:212-224 | `main` uploads exactly the archive list above. The remote directory ends as `SyncAll` over those archives and their sizes, and the log holds exactly their `RunOps`. |
| `Backup.ArchiveList` | Vps-backup-script/Backup-script-template.py:213-218 | The list `main` builds: the Immich archive first when enabled, then the directory archives; `ArchiveOrder` states the positions and names. |
| `Backup.StampedKeysNeverMatch` | Vps-backup-script/Backup-script-template.py:135-136 | An upload keyed by one run's stamped archive name never matches another run's stamped key for the same directory. |
| `Backup.StampedRerunUploadsAgain` | Vps-backup-script/Backup-script-template.py:161-189 | As written: backing up an unchanged directory again in a later run uploads it again, and both copies stay on the server. |
| `Backup.StableArchiveName` | Vps-backup-script/Backup-script-template.py:135 | The corrected key (the segment plus `.zip`) contains no `/`. |
| `Backup.StableRerunIsNoOp` | Vps-backup-script/Backup-script-template.py:161-189 | With a stable key, the first upload is a matching version. Rerunning with the same size changes nothing and issues no command. |

## Left out

- The FTPS session setup is not modelled: `connect`, `login`, `prot_p`, creating and entering the remote directory, `TYPE I`, and `quit`. `Remote.RemoteDir` starts inside the remote directory.
- Faults are not modelled. Every FTP, filesystem and subprocess call is taken to succeed. In the code, any exception ends the run, and no archive-level isolation exists.
- `Remote.RemoteDir.Size` and `Remote.RemoteDir.Delete` require a name that the same session has just listed. A server that reports no size (so the comparison fails and the archive is uploaded) is not modelled.
- `Remote.RemoteDir.Nlst` returns bare names. Servers that return paths, or that reject `NLST` on an empty directory, are not modelled.
- The database dump (`Await_run` and the docker command) is not modelled. The backup directory's listing is a parameter, taken after the dump has been written.
- Zipping and encryption (`zip_with_password`) are not modelled. An archive is its path, and its size is a parameter (`sizeOf`).
- The copies into the staging directory (`shutil.copy`, `copytree`) are returned as a plan and not performed. `os.makedirs`, `rmtree` of the staging directory and `cleanup` are not modelled.
- The clock is not modelled. Every `datetime.now()` reading is a parameter, and fractions of a second are not part of any name. `DateTime` admits only four-digit years (1000 to 9999); `strftime` renders earlier years differently across platforms.
- `os.path.getctime` is a real number carried in each listing entry.
- The configuration globals are a `Config` value. The password and FTPS credentials are not modelled.
- Console output is not modelled.
- The startup script is not part of this model.
- `Backup.LatestIndex` and `Backup.LatestFileInDir` take the listing in the order `os.listdir` returns it. That order decides only which entry wins among equal ctimes.
- `Backup.DirArchivePaths`, `Versioning.Surplus` and the other specification functions carry only light contracts. Their meaning is stated by the lemmas and methods listed above.

## Findings

| source | as written | input that shows it | evidently intended | confidence | as-written member | corrected member |
|---|---|---|---|---|---|---|
| Vps-backup-script/Backup-script-template.py:133-137 | Each local archive name, which the uploader uses as the version key (lines 162-167), carries the run's timestamp. | Back up `/lets/back-up/MUSIC`, unchanged, on two days. The keys `MUSIC-20261014T030000.zip` and `MUSIC-20261015T030000.zip` differ, so the second run finds no earlier version. It uploads again and deletes nothing, so both copies stay, and each later run adds one more. | A per-directory key that is the same from run to run (e.g. `MUSIC.zip`). The retention comment at line 184 (keep the newest three versions) and the skip message at line 177 (same size as the last remote copy) only make sense if later runs reuse the key. With a stable key, an unchanged archive is skipped, and at most three versions are kept across runs. | medium, not executed | `Backup.StampedRerunUploadsAgain` | `Backup.StableRerunIsNoOp` |

`RunPipeline` keeps the code's stamped names, as written. The versioning
lemmas in `Versioning` hold for any key, and the corrected key is the case
where they matter across runs.
