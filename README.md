# RebuildAccessDB, modelled in Dafny

RebuildAccessDB rebuilds a Microsoft Access database through the ariawase
`vbac.wsf` tool. It decomposes the original file into text, strips or reuses
a copy in ariawase's `bin` directory, loads the queries and the other objects
back into it, restores its VBA references, and compacts and repairs it. This
project models the logic behind the automation calls. The host application,
the files and the texts are abstract state:

- `Strings`: lower-casing, substring search and Python's `str.replace`
  (all occurrences, left to right, without overlap).
- `VbacScript`: the patch `update_vbac_script` applies to `vbac.wsf` so that
  queries are exported too.
- `References`: `reference_already_exists` and the specification of what
  `set_vba_references` appends to the live reference list.
- `QueryImport`: which directory entries `import_query_defs` loads, and the
  query name it gives each (`os.path.splitext` of the file name).
- `FileSystem`: a class holding a map from paths to contents, with the script
  update, the compact-and-repair swap (`access_compact_and_repair`) and
  `delete_all_files_except`.
- `Access`: one automation session on a database file as a class. Its object
  collections are `Container` objects whose name sequences the operations
  update in place. The operations are the reverse-order deletion
  (`delete_old_access_objects`), reading and setting references, and the
  query import.
- `Rebuild`: `close_ms_access` as a bounded retry loop, and `main` as a
  trace of abstract steps. Each step that touches a database names the file
  it acts on, the input or its copy in `bin`. The trace is proved equal to a
  plan. The plan's step counts, its order and the fact that only the copy is
  ever changed are proved as lemmas.

Some host failures are inputs of the model. A `Container` names the objects
whose deletion the host refuses. `CompactAndRepair` receives what the host's
repair did: it raised, it returned without writing the backup, or it wrote
the repaired content. `ForceClose` receives the
number of close messages after which the host's window goes away.
`RunRebuild` receives whether the input file and `vbac.wsf` exist.

## Model

| member | source | states |
|---|---|---|
| Strings.ReplaceAll | RebuildAccessDB.py:37 | Python's `str.replace`: every occurrence of the pattern, found scanning from the left and without overlap, is replaced; text too short to hold the pattern is kept |
| Strings.ReplaceAbsent | RebuildAccessDB.py:37 | `str.replace` leaves a text that does not contain the pattern unchanged |
| Strings.ReplaceIntroduces | RebuildAccessDB.py:37 | after replacing a pattern that occurs, the replacement occurs in the result |
| Strings.ReplaceGrows | RebuildAccessDB.py:129 | replacing with a longer text never shortens the string, and makes it strictly longer when the pattern occurs |
| VbacScript.PatchScript | RebuildAccessDB.py:36-37 | the text is unchanged when the commented-out setting is present; otherwise every occurrence of the setting is commented out |
| VbacScript.PatchIdempotent | RebuildAccessDB.py:31-39 | patching the script twice gives the same text as patching it once |
| VbacScript.PatchEnablesQueries | RebuildAccessDB.py:33-37 | the patched script contains the commented-out `//param.incQuery = false;` exactly when the original contains `param.incQuery = false;` |
| VbacScript.PatchLeavesOtherScripts | RebuildAccessDB.py:36-37 | a script without the parameter line comes out unchanged |
| FileSystem.FileSystem.UpdateScript | RebuildAccessDB.py:31-39 | a missing script is a FileNotFound error with nothing changed; otherwise the file is rewritten with the patched text exactly when it lacked the marker, and no other file changes |
| FileSystem.BackupName | RebuildAccessDB.py:129 | the backup path is the original path with every `.accdb` replaced by `_backup.accdb` |
| FileSystem.BackupNameDiffers | RebuildAccessDB.py:129 | the backup path differs from the original exactly when the original mentions `.accdb` |
| FileSystem.RepairEffect | RebuildAccessDB.py:127-134 | the outcome of repair, remove and rename as the program runs them; no path other than the original and its backup changes |
| FileSystem.RepairRaisedChangesNothing | RebuildAccessDB.py:131 | a repair that raises, or a missing original, ends the operation with no file changed |
| FileSystem.RepairSwapsIn | RebuildAccessDB.py:131-133 | a repair that writes its output leaves the repaired content at the original path and no backup file |
| FileSystem.RepairInPlaceLosesFile | RebuildAccessDB.py:129-133 | without `.accdb` in the path the original is removed and the rename fails with FileNotFound |
| FileSystem.RepairWithoutOutputLosesFile | RebuildAccessDB.py:131-133 | a repair that returns without writing the backup, with no earlier backup present, leaves the original removed and the rename failing with FileNotFound |
| FileSystem.RepairWithoutOutputRestoresStale | RebuildAccessDB.py:131-133 | a repair that returns without output while an earlier backup exists puts that stale backup in place of the original and reports success |
| FileSystem.FileSystem.CompactAndRepair | RebuildAccessDB.py:127-134 | the error and the new file map are exactly those of the unchecked swap (`RepairEffect`) |
| FileSystem.CheckedRepairEffect | RebuildAccessDB.py:127-134 | the swap done only after the repair reports that it wrote the backup; no other path changes |
| FileSystem.CheckedRepairKeepsFile | RebuildAccessDB.py:127-134 | with the check the original is never lost: a failure changes nothing, and a success leaves the repaired content at the original path and no backup |
| FileSystem.CheckedRepairAgrees | RebuildAccessDB.py:127-134 | when the repair writes its output under a different name, the checked swap and the program give the same result |
| FileSystem.FileSystem.CompactAndRepairChecked | RebuildAccessDB.py:127-134 | the error and the new file map are exactly those of the checked swap (`CheckedRepairEffect`) |
| FileSystem.FileSystem.DeleteAllFilesExcept | RebuildAccessDB.py:180-187 | afterwards a path exists exactly when it existed before and is either outside the target's directory or the target itself; surviving contents are unchanged |
| References.ReferenceAlreadyExists | RebuildAccessDB.py:109-114 | true exactly when some reference path, lower-cased, equals the lower-cased candidate |
| References.MissingFromCandidates | RebuildAccessDB.py:120-123 | every appended path is one of the candidates |
| References.MissingIsNew | RebuildAccessDB.py:120-123 | no appended path matches a reference that existed before |
| References.MissingDistinct | RebuildAccessDB.py:120-123 | no two appended paths match each other, even when a candidate is repeated |
| References.MissingInCandidateOrder | RebuildAccessDB.py:120-123 | the appended paths keep the candidates' order |
| References.SyncCovers | RebuildAccessDB.py:117-124 | after the sync a path is referenced exactly when it was referenced before or is a candidate |
| References.MissingNoneWhenCovered | RebuildAccessDB.py:120-123 | candidates that are all referenced already add nothing |
| References.SyncIdempotent | RebuildAccessDB.py:117-124 | a second sync with the same candidates adds nothing |
| Access.Session.GetReferences | RebuildAccessDB.py:98-106 | returns every reference path in order and quits without saving |
| Access.Session.SetReferences | RebuildAccessDB.py:117-124 | the reference list becomes the old list followed by exactly the missing candidates, and the session quits saving |
| Access.ReverseVisitsEach | RebuildAccessDB.py:143 | the reverse walk meets the object at position n-1-k in step k, so it meets each object exactly once |
| Access.SurvivorsAreLocked | RebuildAccessDB.py:143-152 | an object remains after the walk exactly when it was present and its deletion is refused |
| Access.AllDeletedWhenNoneLocked | RebuildAccessDB.py:143-152 | when the host refuses no deletion, the collection ends empty |
| Access.DeleteDocuments | RebuildAccessDB.py:139-152 | the walk over a shrinking collection tries every object once, last to first, and leaves exactly the refused ones, in order |
| Access.Session.DeleteOldObjects | RebuildAccessDB.py:137-160 | forms, reports, modules and queries are walked in that order, each keeping only its refused objects; tables are untouched; the session quits saving |
| QueryImport.QueryFiles | RebuildAccessDB.py:86 | a name is selected exactly when it is listed and its lower-cased form contains `.qry` |
| QueryImport.QueryFilesInOrder | RebuildAccessDB.py:86 | selecting from two listings in sequence gives the two selections in sequence, so the listing order is kept |
| QueryImport.LastDot | RebuildAccessDB.py:90 | the index of the last `.` of the name, or -1 when there is none |
| QueryImport.Stem | RebuildAccessDB.py:90 | the query name is a prefix of the file name; it drops exactly the last extension, keeping some non-dot character, or it is the whole name when no dot follows a non-dot character |
| QueryImport.StemOfQueryFile | RebuildAccessDB.py:90 | a file named base + "." + an extension without dots loads as query `base` |
| Access.Session.ImportQueries | RebuildAccessDB.py:83-95 | no matching file gives the warning and leaves the queries unchanged; otherwise each matching file is loaded in listing order under its stem, so every loaded name is a query afterwards and no other query is added; the existing queries stay in front and every query added is new and added once (`AddsOnlyNew`); either way the session quits saving |
| Rebuild.ForceClose | RebuildAccessDB.py:42-48 | at most 15 close messages are posted, as many as the window needs when it closes within 15, and the host is closed exactly when it needs no more than 15 |
| Rebuild.RepairThreeTimes | RebuildAccessDB.py:237-238 | the loop appends exactly three compact-and-repair steps on the bin copy; the same loop recurs at lines 268-269 |
| Rebuild.RunRebuild | RebuildAccessDB.py:188-272 | a missing input stops after the force-close; a missing `vbac.wsf` without download permission stops after the directories are recreated; otherwise the run performs exactly the plan |
| Rebuild.PlanRepairCount | RebuildAccessDB.py:228-269 | the plan compacts and repairs the bin copy 1 + 3 + 3 = 7 times when the copy is stripped, and 3 times when the bin file is reused |
| Rebuild.PlanStripsOnlyCopies | RebuildAccessDB.py:228-265 | copying, stripping and removing stray files each happen once without create-new-db and never with it |
| Rebuild.PlanSyncsOnlyReused | RebuildAccessDB.py:253-262 | references are read from the input and set on the bin copy once each with create-new-db, and never without it |
| Rebuild.PlanLeavesInputAlone | RebuildAccessDB.py:228-269 | every repair, object deletion, query import, reference update and clean-up of the plan acts on the bin copy; the input is only decomposed and read for its references |
| Rebuild.PlanConvertsOnce | RebuildAccessDB.py:212-251 | `vbac.wsf` is fetched only when missing; the patch, decompose, query import and recombine run once each |
| Rebuild.PlanOrder | RebuildAccessDB.py:189-272 | the host is closed first and the result revealed last; patch, decompose, import and recombine run in that order; without create-new-db the copy is stripped before the decompose; with it the input's references are read after the recombine and before they are set on the bin copy |

## Left out

- Automation and window handling: COM dispatch, opening and quitting the host, `DoCmd`, `LoadFromText`, `AddFromFile`, `compactRepair`, `FindWindow`, `PostMessage` and the sleep. Their effects are abstract state changes. Some failures are parameters: refused deletions, the three repair outcomes, and the number of close messages needed. Failures of `AddFromFile` and `LoadFromText` are not modelled; see the two lines below.
- External programs: the `cscript vbac.wsf` decombine and combine calls and `explorer /select`. They appear only as steps of the trace in `Rebuild`.
- The download of `vbac.wsf` and its licence, argument parsing, `os.chdir`, `shutil.rmtree`, `shutil.copyfile` and `verify_directory_exists`. They are I/O, so `RunRebuild` records them as steps. As written, `rmtree` raises when the `src` directory does not exist yet; the model does not capture this.
- `type=bool` in the argument parser turns any non-empty value, even `False`, into true. `RunRebuild` takes the two flags as booleans.
- `save_table_data` is never called and cannot run: line 67 combines strings with `&`, and line 65 compares five characters with the four-character `"MSys"`. It is not modelled.
- The commented-out `save_query_defs` and the extra `Dispatch` at line 154 have no effect.
- Printed messages are not modelled. For `import_query_defs` the warning is the `NoQueryDefinitions` outcome.
- Strings are sequences of characters, and `Lower` folds ASCII letters only, not Python's full Unicode lower-casing.
- Paths are a (directory, name) pair rather than joined strings. `BackupName` replaces `.accdb` in each part separately, which matches replacing in the joined path because `.accdb` holds no separator.
- Directories are not entities of the file map. Listing a missing directory, and `os.remove` on a sub-directory during clean-up, would raise in the program but are not modelled.
- Access.Session.SetReferences: `AddFromFile` is assumed to succeed. In the program a failing `AddFromFile` (line 123) raises. The loop stops after only some of the candidates are added, and `Quit(acSaveYes)` (line 124) never runs. The contract promises the full append and the saving quit, so it does not cover this path.
- Access.Session.ImportQueries: `LoadFromText` is assumed to succeed. In the program a failing `LoadFromText` (line 92) raises. Only the queries before it are loaded, and `Quit(acSaveYes)` (line 95) never runs. The contract promises every load and the saving quit, so it does not cover this path.
- Access.Session.ImportQueries: the query definitions' text is not modelled, only the query names. Loading a name that already exists replaces that query. Within one kind, object names are unique.
- Access.DeleteDocuments: a refused close is not distinguished from a successful one, because the program ignores both and the close changes no collection.
- Rebuild.RunRebuild: an exception inside a step after the start-up checks (a failed repair, a missing file) would end the program. The trace assumes every step returns.

## Findings

| source | as written | input that shows it | evidently intended | confidence | as-written member | corrected member |
|---|---|---|---|---|---|---|
| RebuildAccessDB.py:131-133 | the Boolean result of `compactRepair` is ignored, and the original is removed before anything checks that the backup was written | an existing `bin\db.accdb` with no `bin\db_backup.accdb`, and a repair that returns false without writing: the original is removed, the rename raises FileNotFoundError and the database is gone | remove and rename only after the repair reports success, otherwise keep the original | medium, not executed | FileSystem.RepairWithoutOutputLosesFile | FileSystem.CheckedRepairKeepsFile |
