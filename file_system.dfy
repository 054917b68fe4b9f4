/** The file-system side of the rebuild: patching vbac.wsf, the
    compact-and-repair swap, and the clean-up of the working directory. */
module FileSystem {
  import opened Strings
  import opened VbacScript

  /** A path as the script builds it with os.path.join: a directory and a
      name inside it. */
  datatype Path = Path(dir: string, name: string)

  datatype FsError = FileNotFound(path: Path) | RepairFailed(path: Path)

  datatype Result<T> = Ok(value: T) | Err(error: FsError)

  const AccdbExt: string := ".accdb"
  const BackupExt: string := "_backup.accdb"

  /** The name compactRepair writes to: every ".accdb" in the path becomes
      "_backup.accdb". The text is replaced in the directory and the name
      separately, which is the same as replacing in the joined path since
      ".accdb" holds no separator. */
  function BackupName(p: Path): (backup: Path)
  {
    Path(ReplaceAll(p.dir, AccdbExt, BackupExt), ReplaceAll(p.name, AccdbExt, BackupExt))
  }

  /** The backup differs from the original exactly when the path mentions
      ".accdb"; otherwise both names are the same file. */
  lemma BackupNameDiffers(p: Path)
    ensures BackupName(p) != p <==> Contains(p.dir, AccdbExt) || Contains(p.name, AccdbExt)
  {
    ReplaceGrows(p.dir, AccdbExt, BackupExt);
    ReplaceGrows(p.name, AccdbExt, BackupExt);
    if !Contains(p.dir, AccdbExt) {
      ReplaceAbsent(p.dir, AccdbExt, BackupExt);
    }
    if !Contains(p.name, AccdbExt) {
      ReplaceAbsent(p.name, AccdbExt, BackupExt);
    }
  }

  /** What the host's compactRepair does when asked to repair a file into its
      backup name: it raises, it returns without writing the backup (its
      Boolean result, which the program ignores, is then false), or it writes
      the repaired content. */
  datatype RepairOutcome = Raised | NoOutput | Wrote(content: string)

  /** The error and the files after access_compact_and_repair as written:
      repair into the backup name, remove the original, rename the backup
      over it. A failed remove or rename raises and ends the operation there.
      Only the original and its backup can change. */
  function RepairEffect(files: map<Path, string>, path: Path, outcome: RepairOutcome)
    : (e: (Result<()>, map<Path, string>))
    ensures forall q | q != path && q != BackupName(path) ::
      (q in e.1 <==> q in files) && (q in e.1 ==> e.1[q] == files[q])
  {
    var backup := BackupName(path);
    if path !in files || outcome.Raised? then (Err(RepairFailed(path)), files)
    else
      var written := if outcome.Wrote? then files[backup := outcome.content] else files;
      var removed := written - {path};
      if backup !in removed then (Err(FileNotFound(backup)), removed)
      else (Ok(()), (removed - {backup})[path := removed[backup]])
  }

  /** A repair that raises, or a missing original, changes no file. */
  lemma RepairRaisedChangesNothing(files: map<Path, string>, path: Path, outcome: RepairOutcome)
    requires path !in files || outcome.Raised?
    ensures RepairEffect(files, path, outcome) == (Err(RepairFailed(path)), files)
  {
  }

  /** A repair that writes its output swaps it in: the original path holds the
      repaired content and no backup file is left. */
  lemma RepairSwapsIn(files: map<Path, string>, path: Path, content: string)
    requires path in files && BackupName(path) != path
    ensures var e := RepairEffect(files, path, Wrote(content));
      e.0 == Ok(()) && path in e.1 && e.1[path] == content && BackupName(path) !in e.1
  {
  }

  /** Without ".accdb" in the path the backup is the original itself: the
      repaired file is removed and the rename fails, so the database is lost. */
  lemma RepairInPlaceLosesFile(files: map<Path, string>, path: Path, outcome: RepairOutcome)
    requires path in files && !outcome.Raised? && BackupName(path) == path
    ensures RepairEffect(files, path, outcome) == (Err(FileNotFound(path)), files - {path})
  {
    var written := if outcome.Wrote? then files[path := outcome.content] else files;
    assert written - {path} == files - {path};
  }

  /** A repair that returns without output is not noticed: the original is
      removed, and with no backup left from earlier the rename fails, so the
      database is gone. */
  lemma RepairWithoutOutputLosesFile(files: map<Path, string>, path: Path)
    requires path in files && BackupName(path) != path && BackupName(path) !in files
    ensures RepairEffect(files, path, NoOutput) == (Err(FileNotFound(BackupName(path))), files - {path})
    ensures path !in RepairEffect(files, path, NoOutput).1
  {
  }

  /** A repair that returns without output while a backup from an earlier run
      exists: that stale backup replaces the original and is reported as
      success. */
  lemma RepairWithoutOutputRestoresStale(files: map<Path, string>, path: Path)
    requires path in files && BackupName(path) != path && BackupName(path) in files
    ensures var e := RepairEffect(files, path, NoOutput);
      e.0 == Ok(()) && e.1[path] == files[BackupName(path)] && BackupName(path) !in e.1
  {
  }

  /** The intended behaviour: the original is removed only after the repair
      reports that it wrote the backup, and a path whose backup name is the
      path itself is refused. */
  function CheckedRepairEffect(files: map<Path, string>, path: Path, outcome: RepairOutcome)
    : (e: (Result<()>, map<Path, string>))
    ensures forall q | q != path && q != BackupName(path) ::
      (q in e.1 <==> q in files) && (q in e.1 ==> e.1[q] == files[q])
  {
    var backup := BackupName(path);
    if path !in files || !outcome.Wrote? || backup == path then (Err(RepairFailed(path)), files)
    else (Ok(()), (files - {backup})[path := outcome.content])
  }

  /** The checked swap never loses the database: on failure nothing changes,
      on success the original path holds the repaired content and no backup
      is left. */
  lemma CheckedRepairKeepsFile(files: map<Path, string>, path: Path, outcome: RepairOutcome)
    requires path in files
    ensures var e := CheckedRepairEffect(files, path, outcome);
      path in e.1 &&
      (e.0.Err? ==> e.1 == files) &&
      (e.0.Ok? ==> outcome.Wrote? && e.1[path] == outcome.content && BackupName(path) !in e.1)
  {
  }

  /** The checked swap agrees with the program whenever the repair wrote its
      output to a different name. */
  lemma CheckedRepairAgrees(files: map<Path, string>, path: Path, content: string)
    requires path in files && BackupName(path) != path
    ensures CheckedRepairEffect(files, path, Wrote(content)) == RepairEffect(files, path, Wrote(content))
  {
    var backup := BackupName(path);
    var removed := files[backup := content] - {path};
    assert (removed - {backup})[path := content] == (files - {backup})[path := content];
  }

  /** The files on disk, path to content. */
  class FileSystem {
    var files: map<Path, string>

    constructor (files: map<Path, string>)
      ensures this.files == files
    {
      this.files := files;
    }

    /** update_vbac_script: reads the script and writes it back patched,
        unless it already carries the marker. `r.value` tells whether it wrote. */
    method UpdateScript(script: Path) returns (r: Result<bool>)
      modifies this
      ensures script !in old(files) ==> r == Err(FileNotFound(script)) && files == old(files)
      ensures script in old(files) ==>
        r == Ok(!Contains(old(files)[script], Marker)) &&
        files == if r.value then old(files)[script := PatchScript(old(files)[script])] else old(files)
    {
      if script !in files {
        return Err(FileNotFound(script));
      }
      var text := files[script];
      if !Contains(text, Marker) {
        text := ReplaceAll(text, QueryParam, Marker);
        files := files[script := text];
        return Ok(true);
      }
      return Ok(false);
    }

    /** access_compact_and_repair as written: the host repairs `path` into its
        backup name, then the original is removed and the backup renamed
        over it, whatever the repair reported. */
    method CompactAndRepair(path: Path, outcome: RepairOutcome) returns (r: Result<()>)
      modifies this
      ensures (r, files) == RepairEffect(old(files), path, outcome)
    {
      var backup := BackupName(path);
      // compactRepair(path, backup)
      if path !in files || outcome.Raised? {
        return Err(RepairFailed(path));
      }
      if outcome.Wrote? {
        files := files[backup := outcome.content];
      }
      // os.remove(path)
      files := files - {path};
      // os.rename(backup, path)
      if backup !in files {
        return Err(FileNotFound(backup));
      }
      var content := files[backup];
      files := (files - {backup})[path := content];
      return Ok(());
    }

    /** The swap with the repair's result checked before the original is
        removed. */
    method CompactAndRepairChecked(path: Path, outcome: RepairOutcome) returns (r: Result<()>)
      modifies this
      ensures (r, files) == CheckedRepairEffect(old(files), path, outcome)
    {
      var backup := BackupName(path);
      if path !in files || !outcome.Wrote? || backup == path {
        return Err(RepairFailed(path));
      }
      ghost var before := files;
      files := files[backup := outcome.content];
      files := files - {path};
      var content := files[backup];
      files := (files - {backup})[path := content];
      assert files == (before - {backup})[path := outcome.content];
      return Ok(());
    }

    /** delete_all_files_except: removes every file of the target's
        directory other than the target, in whatever order the directory
        is listed. */
    method DeleteAllFilesExcept(target: Path)
      modifies this
      ensures forall p :: p in files <==> p in old(files) && (p.dir != target.dir || p == target)
      ensures forall p | p in files :: files[p] == old(files)[p]
    {
      var listing := set p | p in files && p.dir == target.dir;
      ghost var removed: set<Path> := {};
      while listing != {}
        invariant listing <= old(files).Keys
        invariant forall p :: p in old(files) && p.dir == target.dir <==> p in listing || p in removed
        invariant listing !! removed
        invariant forall p :: p in files <==> p in old(files) && !(p in removed && p != target)
        invariant forall p | p in files :: files[p] == old(files)[p]
        decreases listing
      {
        var p :| p in listing;
        if p != target {
          files := files - {p};
        }
        listing := listing - {p};
        removed := removed + {p};
      }
    }
  }
}
