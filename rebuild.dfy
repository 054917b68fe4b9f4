/** The top level of the rebuild (main and close_ms_access): which steps
    run, in which order and how often, for the two ways of building. */
module Rebuild {

  /** How many times the main window of a running host is told to close. */
  const MaxCloseAttempts: nat := 15

  /** close_ms_access: while the host's main window is found and fewer than
      15 close messages were posted, another one is posted. The host is
      modelled by `closesAfter`, the number of close messages after which its
      window is gone (0: no host is running). */
  method ForceClose(closesAfter: nat) returns (attempts: nat, closed: bool)
    ensures attempts == if closesAfter <= MaxCloseAttempts then closesAfter else MaxCloseAttempts
    ensures closed <==> closesAfter <= MaxCloseAttempts
  {
    attempts := 0;
    // FindWindow("OMain") finds the window while it has received fewer than
    // closesAfter close messages.
    while attempts < closesAfter && attempts < MaxCloseAttempts
      invariant attempts <= closesAfter && attempts <= MaxCloseAttempts
    {
      // PostMessage(window, WM_CLOSE); sleep
      attempts := attempts + 1;
    }
    closed := attempts >= closesAfter;
  }

  /** The database file a step acts on: the input given on the command line,
      or its copy in ariawase's bin directory. */
  datatype Target = Input | BinCopy

  /** The abstract operations main performs. */
  datatype Step =
    | ForceCloseHost              // close_ms_access
    | RecreateSourceDir           // rmtree and makedirs of the src and bin directories
    | DownloadHelper              // fetch vbac.wsf and its licence
    | CopyInput                   // copy the input database into bin
    | CompactRepair(db: Target)   // access_compact_and_repair
    | DeleteOldObjects(db: Target) // delete_old_access_objects
    | PatchScript                 // update_vbac_script
    | Decompose(db: Target)       // cscript vbac.wsf decombine on the directory of db
    | ImportQueries(db: Target)   // import_query_defs
    | Recombine                   // cscript vbac.wsf combine
    | GetReferences(db: Target)   // get_vba_references
    | SetReferences(db: Target)   // set_vba_references
    | DeleteFilesExcept(db: Target) // delete_all_files_except
    | RevealResult(db: Target)    // explorer /select

  datatype RunError = InputNotFound | HelperToolMissing

  /** A run either completes or stops early with an error; either way it has
      performed `steps`. */
  datatype Run = Completed(steps: seq<Step>) | Aborted(error: RunError, steps: seq<Step>)

  /** How often `s` occurs in `steps`. */
  function Count(steps: seq<Step>, s: Step): (n: nat)
  {
    if steps == [] then 0 else (if steps[0] == s then 1 else 0) + Count(steps[1..], s)
  }

  lemma {:induction false} CountConcat(a: seq<Step>, b: seq<Step>, s: Step)
    ensures Count(a + b, s) == Count(a, s) + Count(b, s)
  {
    if a == [] {
      assert a + b == b;
    } else {
      assert (a + b)[1..] == a[1..] + b;
      CountConcat(a[1..], b, s);
    }
  }

  /** Some `a` in `steps` comes before some `b`. */
  predicate Before(steps: seq<Step>, a: Step, b: Step)
  {
    exists i, j | 0 <= i < j < |steps| :: steps[i] == a && steps[j] == b
  }

  /** Three calls of access_compact_and_repair in a row. */
  const ThreeRepairs: seq<Step> := [CompactRepair(BinCopy), CompactRepair(BinCopy), CompactRepair(BinCopy)]

  /** Force-close the host, recreate the work directories, fetch the helper
      script when it is missing (and fetching is allowed). */
  function Prepare(helperPresent: bool): (p: seq<Step>)
  {
    [ForceCloseHost, RecreateSourceDir] + (if helperPresent then [] else [DownloadHelper])
  }

  /** Copy the input into bin, repair, strip, repair three times: only when
      the bin file is not reused. */
  function Stage(createNewDb: bool): (p: seq<Step>)
  {
    if createNewDb then [] else [CopyInput, CompactRepair(BinCopy), DeleteOldObjects(BinCopy)] + ThreeRepairs
  }

  const Convert: seq<Step> := [PatchScript, Decompose(Input), ImportQueries(BinCopy), Recombine]

  /** References or clean-up, then the final repairs and the reveal. */
  function Finish(createNewDb: bool): (p: seq<Step>)
  {
    (if createNewDb then [GetReferences(Input), SetReferences(BinCopy)] else [DeleteFilesExcept(BinCopy)]) +
    ThreeRepairs + [RevealResult(BinCopy)]
  }

  /** The steps of a run that completes, in order. */
  function Plan(helperPresent: bool, createNewDb: bool): (p: seq<Step>)
  {
    Prepare(helperPresent) + Stage(createNewDb) + Convert + Finish(createNewDb)
  }

  /** How often a step occurs in each block of the plan. */
  function PrepareCount(helperPresent: bool, s: Step): (n: nat)
  {
    if s == ForceCloseHost || s == RecreateSourceDir || (s == DownloadHelper && !helperPresent)
    then 1 else 0
  }

  function StageCount(createNewDb: bool, s: Step): (n: nat)
  {
    if createNewDb then 0
    else if s == CopyInput || s == DeleteOldObjects(BinCopy) then 1
    else if s == CompactRepair(BinCopy) then 4
    else 0
  }

  function ConvertCount(s: Step): (n: nat)
  {
    if s == PatchScript || s == Decompose(Input) || s == ImportQueries(BinCopy) || s == Recombine then 1 else 0
  }

  function FinishCount(createNewDb: bool, s: Step): (n: nat)
  {
    if s == CompactRepair(BinCopy) then 3
    else if s == RevealResult(BinCopy) then 1
    else if s == GetReferences(Input) || s == SetReferences(BinCopy) then (if createNewDb then 1 else 0)
    else if s == DeleteFilesExcept(BinCopy) then (if createNewDb then 0 else 1)
    else 0
  }

  lemma CountSingle(x: Step, s: Step)
    ensures Count([x], s) == if x == s then 1 else 0
  {
    assert [x][1..] == [];
  }

  lemma CountPair(x: Step, y: Step, s: Step)
    ensures Count([x, y], s) == (if x == s then 1 else 0) + (if y == s then 1 else 0)
  {
    assert [x, y] == [x] + [y];
    CountConcat([x], [y], s);
    CountSingle(x, s);
    CountSingle(y, s);
  }

  lemma ThreeRepairsCounted(s: Step)
    ensures Count(ThreeRepairs, s) == if s == CompactRepair(BinCopy) then 3 else 0
  {
    assert ThreeRepairs == [CompactRepair(BinCopy)] + [CompactRepair(BinCopy), CompactRepair(BinCopy)];
    CountConcat([CompactRepair(BinCopy)], [CompactRepair(BinCopy), CompactRepair(BinCopy)], s);
    CountSingle(CompactRepair(BinCopy), s);
    CountPair(CompactRepair(BinCopy), CompactRepair(BinCopy), s);
  }

  lemma PrepareCounted(helperPresent: bool, s: Step)
    ensures Count(Prepare(helperPresent), s) == PrepareCount(helperPresent, s)
  {
    var rest := if helperPresent then [] else [DownloadHelper];
    CountConcat([ForceCloseHost, RecreateSourceDir], rest, s);
    CountPair(ForceCloseHost, RecreateSourceDir, s);
    if !helperPresent {
      CountSingle(DownloadHelper, s);
    }
  }

  lemma StageCounted(createNewDb: bool, s: Step)
    ensures Count(Stage(createNewDb), s) == StageCount(createNewDb, s)
  {
    if !createNewDb {
      var copied := [CopyInput, CompactRepair(BinCopy), DeleteOldObjects(BinCopy)];
      assert copied == [CopyInput] + [CompactRepair(BinCopy), DeleteOldObjects(BinCopy)];
      CountConcat(copied, ThreeRepairs, s);
      CountConcat([CopyInput], [CompactRepair(BinCopy), DeleteOldObjects(BinCopy)], s);
      CountSingle(CopyInput, s);
      CountPair(CompactRepair(BinCopy), DeleteOldObjects(BinCopy), s);
      ThreeRepairsCounted(s);
    }
  }

  lemma ConvertCounted(s: Step)
    ensures Count(Convert, s) == ConvertCount(s)
  {
    assert Convert == [PatchScript, Decompose(Input)] + [ImportQueries(BinCopy), Recombine];
    CountConcat([PatchScript, Decompose(Input)], [ImportQueries(BinCopy), Recombine], s);
    CountPair(PatchScript, Decompose(Input), s);
    CountPair(ImportQueries(BinCopy), Recombine, s);
  }

  lemma FinishCounted(createNewDb: bool, s: Step)
    ensures Count(Finish(createNewDb), s) == FinishCount(createNewDb, s)
  {
    var refs := if createNewDb then [GetReferences(Input), SetReferences(BinCopy)] else [DeleteFilesExcept(BinCopy)];
    CountConcat(refs + ThreeRepairs, [RevealResult(BinCopy)], s);
    CountConcat(refs, ThreeRepairs, s);
    ThreeRepairsCounted(s);
    CountSingle(RevealResult(BinCopy), s);
    if createNewDb {
      CountPair(GetReferences(Input), SetReferences(BinCopy), s);
    } else {
      CountSingle(DeleteFilesExcept(BinCopy), s);
    }
  }

  /** The count of any step in the plan, block by block. */
  lemma PlanCount(helperPresent: bool, createNewDb: bool, s: Step)
    ensures Count(Plan(helperPresent, createNewDb), s) ==
      PrepareCount(helperPresent, s) + StageCount(createNewDb, s) + ConvertCount(s) +
      FinishCount(createNewDb, s)
  {
    var a, b, d := Prepare(helperPresent), Stage(createNewDb), Finish(createNewDb);
    CountConcat(a + b + Convert, d, s);
    CountConcat(a + b, Convert, s);
    CountConcat(a, b, s);
    PrepareCounted(helperPresent, s);
    StageCounted(createNewDb, s);
    ConvertCounted(s);
    FinishCounted(createNewDb, s);
  }

  /** Seven repairs when the input is copied and stripped first (one after
      the copy, three after the strip, three at the end), three when the bin
      file is reused. */
  lemma PlanRepairCount(helperPresent: bool, createNewDb: bool)
    ensures Count(Plan(helperPresent, createNewDb), CompactRepair(BinCopy)) == if createNewDb then 3 else 7
  {
    PlanCount(helperPresent, createNewDb, CompactRepair(BinCopy));
  }

  /** The input is copied and stripped, and stray files are removed
      afterwards, only when the bin file is not reused. */
  lemma PlanStripsOnlyCopies(helperPresent: bool, createNewDb: bool)
    ensures var p := Plan(helperPresent, createNewDb);
      Count(p, CopyInput) == (if createNewDb then 0 else 1) &&
      Count(p, DeleteOldObjects(BinCopy)) == (if createNewDb then 0 else 1) &&
      Count(p, DeleteFilesExcept(BinCopy)) == (if createNewDb then 0 else 1)
  {
    PlanCount(helperPresent, createNewDb, CopyInput);
    PlanCount(helperPresent, createNewDb, DeleteOldObjects(BinCopy));
    PlanCount(helperPresent, createNewDb, DeleteFilesExcept(BinCopy));
  }

  /** References are read from the input and set on the bin file only when
      the bin file is reused. */
  lemma PlanSyncsOnlyReused(helperPresent: bool, createNewDb: bool)
    ensures var p := Plan(helperPresent, createNewDb);
      Count(p, GetReferences(Input)) == (if createNewDb then 1 else 0) &&
      Count(p, SetReferences(BinCopy)) == (if createNewDb then 1 else 0)
  {
    PlanCount(helperPresent, createNewDb, GetReferences(Input));
    PlanCount(helperPresent, createNewDb, SetReferences(BinCopy));
  }

  /** Steps that change or delete a database file: repair, the deletion of
      objects, the import of queries, setting references, the removal of
      stray files. */
  predicate WritesDatabase(s: Step)
  {
    s.CompactRepair? || s.DeleteOldObjects? || s.ImportQueries? ||
    s.SetReferences? || s.DeleteFilesExcept?
  }

  /** The input database is only ever read (decomposed and asked for its
      references); every step that changes a database acts on the bin copy. */
  lemma PlanLeavesInputAlone(helperPresent: bool, createNewDb: bool)
    ensures var p := Plan(helperPresent, createNewDb);
      forall k | 0 <= k < |p| && WritesDatabase(p[k]) :: p[k].db == BinCopy
    ensures var p := Plan(helperPresent, createNewDb);
      forall k | 0 <= k < |p| && (p[k].Decompose? || p[k].GetReferences?) :: p[k].db == Input
  {
  }

  /** The helper is fetched only when it is missing; the script is patched,
      the original decomposed, the queries imported and the rest recombined
      once each, on either path. */
  lemma PlanConvertsOnce(helperPresent: bool, createNewDb: bool)
    ensures var p := Plan(helperPresent, createNewDb);
      Count(p, DownloadHelper) == (if helperPresent then 0 else 1) &&
      Count(p, PatchScript) == 1 && Count(p, Decompose(Input)) == 1 &&
      Count(p, ImportQueries(BinCopy)) == 1 && Count(p, Recombine) == 1
  {
    PlanCount(helperPresent, createNewDb, DownloadHelper);
    PlanCount(helperPresent, createNewDb, PatchScript);
    PlanCount(helperPresent, createNewDb, Decompose(Input));
    PlanCount(helperPresent, createNewDb, ImportQueries(BinCopy));
    PlanCount(helperPresent, createNewDb, Recombine);
  }

  /** The order of the steps: the host is force-closed first and the result
      revealed last; the copy is stripped before the original is decomposed;
      the script is patched before it decomposes; queries are imported before
      the forms, reports and modules are recombined; references are read
      before they are set, after the recombine. */
  lemma PlanOrder(helperPresent: bool, createNewDb: bool)
    ensures var p := Plan(helperPresent, createNewDb);
      p[0] == ForceCloseHost && p[|p| - 1] == RevealResult(BinCopy) &&
      Before(p, PatchScript, Decompose(Input)) &&
      Before(p, Decompose(Input), ImportQueries(BinCopy)) &&
      Before(p, ImportQueries(BinCopy), Recombine) &&
      (!createNewDb ==> Before(p, CopyInput, DeleteOldObjects(BinCopy)) && Before(p, DeleteOldObjects(BinCopy), Decompose(Input))) &&
      (createNewDb ==> Before(p, Recombine, GetReferences(Input)) && Before(p, GetReferences(Input), SetReferences(BinCopy)))
  {
    var p := Plan(helperPresent, createNewDb);
    var a, b, d := Prepare(helperPresent), Stage(createNewDb), Finish(createNewDb);
    var o := |a| + |b|;
    assert p[o] == PatchScript && p[o + 1] == Decompose(Input);
    assert p[o + 2] == ImportQueries(BinCopy) && p[o + 3] == Recombine;
    if createNewDb {
      assert p[o + 4] == GetReferences(Input) && p[o + 5] == SetReferences(BinCopy);
    } else {
      assert p[|a|] == CopyInput && p[|a| + 2] == DeleteOldObjects(BinCopy);
    }
  }

  /** The `for _ in range(0, 3)` loops of main around
      access_compact_and_repair. */
  method RepairThreeTimes(steps: seq<Step>) returns (after: seq<Step>)
    ensures after == steps + ThreeRepairs
  {
    after := steps;
    for i := 0 to 3
      invariant after == steps + ThreeRepairs[..i]
    {
      after := after + [CompactRepair(BinCopy)];
    }
  }

  /** main: the rebuild of `input` into the bin directory. It stops after
      the force-close when the input does not exist, and after recreating
      the directories when vbac.wsf is missing and may not be fetched.
      Otherwise it performs the plan: with createNewDb false the input is
      copied, repaired, stripped of its non-table objects and repaired three
      more times, and stray files are removed at the end; with it true the
      bin file is reused and receives the input's references instead. Either
      way it ends with three repairs and the reveal. */
  method RunRebuild(inputExists: bool, helperPresent: bool, downloadScript: bool, createNewDb: bool)
    returns (run: Run)
    ensures !inputExists ==> run == Aborted(InputNotFound, [ForceCloseHost])
    ensures inputExists && !helperPresent && !downloadScript ==>
      run == Aborted(HelperToolMissing, [ForceCloseHost, RecreateSourceDir])
    ensures inputExists && (helperPresent || downloadScript) ==>
      run == Completed(Plan(helperPresent, createNewDb))
  {
    var steps: seq<Step> := [ForceCloseHost];
    if !inputExists {
      return Aborted(InputNotFound, steps);
    }
    steps := steps + [RecreateSourceDir];
    if !helperPresent {
      if downloadScript {
        steps := steps + [DownloadHelper];
      } else {
        return Aborted(HelperToolMissing, steps);
      }
    }
    assert steps == Prepare(helperPresent);
    ghost var prepared := steps;
    if !createNewDb {
      steps := steps + [CopyInput];
      steps := steps + [CompactRepair(BinCopy)];
      steps := steps + [DeleteOldObjects(BinCopy)];
      assert steps == prepared + [CopyInput, CompactRepair(BinCopy), DeleteOldObjects(BinCopy)];
      steps := RepairThreeTimes(steps);
    }
    assert steps == prepared + Stage(createNewDb);
    ghost var staged := steps;
    steps := steps + [PatchScript];
    steps := steps + [Decompose(Input)];
    steps := steps + [ImportQueries(BinCopy)];
    steps := steps + [Recombine];
    assert steps == staged + Convert;
    ghost var converted := steps;
    if createNewDb {
      steps := steps + [GetReferences(Input)];
      steps := steps + [SetReferences(BinCopy)];
      assert steps == converted + [GetReferences(Input), SetReferences(BinCopy)];
    } else {
      steps := steps + [DeleteFilesExcept(BinCopy)];
    }
    steps := RepairThreeTimes(steps);
    steps := steps + [RevealResult(BinCopy)];
    assert steps == converted + Finish(createNewDb);
    return Completed(steps);
  }
}
