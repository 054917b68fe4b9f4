/** The database as the host application shows it through automation: the
    object collections of one file and its VBA references, and the
    operations the rebuild runs against them in one session each. */
module Access {
  import opened Strings
  import opened References
  import opened QueryImport

  /** AcCloseSave: what Quit does with pending changes. */
  datatype SaveMode = SavePrompt | SaveYes | SaveNo

  /** AcObjectType. */
  datatype ObjectKind = Table | Query | Form | Report | Macro | Module

  /** A session is open while an operation works on the file, and ends with
      a Quit in some save mode. */
  datatype SessionState = Open | Closed(mode: SaveMode)

  /** What import_query_defs reports: a warning when no file matched, or the
      query names it loaded, in listing order. */
  datatype ImportOutcome = NoQueryDefinitions | Imported(names: seq<string>)

  /** The names in reverse order: the order a walk from the last index to
      the first meets them. */
  function Reverse(s: seq<string>): (r: seq<string>)
  {
    if s == [] then [] else Reverse(s[1..]) + [s[0]]
  }

  /** The objects of `s`, in order, that the host refuses to delete. */
  function Survivors(s: seq<string>, locked: set<string>): (kept: seq<string>)
  {
    if s == [] then []
    else (if s[0] in locked then [s[0]] else []) + Survivors(s[1..], locked)
  }

  /** The reverse walk meets the object at position |s| - 1 - k in its
      k-th step, so it meets every object exactly once. */
  lemma {:induction false} ReverseVisitsEach(s: seq<string>)
    ensures |Reverse(s)| == |s|
    ensures forall k | 0 <= k < |s| :: Reverse(s)[k] == s[|s| - 1 - k]
    ensures multiset(Reverse(s)) == multiset(s)
  {
    if s != [] {
      ReverseVisitsEach(s[1..]);
      assert s == [s[0]] + s[1..];
    }
  }

  /** An object survives the batch exactly when it was there and its delete
      failed. */
  lemma {:induction false} SurvivorsAreLocked(s: seq<string>, locked: set<string>)
    ensures forall x :: x in Survivors(s, locked) <==> x in s && x in locked
    ensures |Survivors(s, locked)| <= |s|
  {
    if s != [] {
      SurvivorsAreLocked(s[1..], locked);
      assert s == [s[0]] + s[1..];
    }
  }

  /** When every delete succeeds, the collection ends empty. */
  lemma {:induction false} AllDeletedWhenNoneLocked(s: seq<string>, locked: set<string>)
    requires forall k | 0 <= k < |s| :: s[k] !in locked
    ensures Survivors(s, locked) == []
  {
    if s != [] {
      AllDeletedWhenNoneLocked(s[1..], locked);
    }
  }

  /** One collection of the current project or data (AllForms, AllReports,
      AllModules, AllQueries, the table definitions). Its indices shift down
      when an earlier element is deleted. */
  class Container {
    const kind: ObjectKind
    /** The object names, in the host's enumeration order. */
    var names: seq<string>
    /** The objects whose deletion the host refuses (open, locked, damaged). */
    var locked: set<string>

    constructor (kind: ObjectKind, names: seq<string>, locked: set<string>)
      ensures this.kind == kind && this.names == names && this.locked == locked
    {
      this.kind := kind;
      this.names := names;
      this.locked := locked;
    }
  }

  /** delete_documents_from_container: walks the collection from its last
      index down to index 0; each object is closed without saving and then
      deleted, and a failure of either is swallowed. `attempted` lists the
      objects in the order they were tried. Names are unique within a kind,
      so deleting by name removes the object at the walked index. */
  method DeleteDocuments(c: Container) returns (attempted: seq<string>)
    modifies c`names
    ensures c.names == Survivors(old(c.names), c.locked)
    ensures attempted == Reverse(old(c.names))
  {
    ghost var original := c.names;
    var i := |c.names|;
    attempted := [];
    while i > 0
      invariant 0 <= i <= |original|
      invariant c.names == original[..i] + Survivors(original[i..], c.locked)
      invariant attempted == Reverse(original[i..])
    {
      i := i - 1;
      var name := c.names[i];
      attempted := attempted + [name];
      // DoCmd.Close(kind, name, acSaveNo): the collection is unchanged and a
      // failure is ignored.
      // DoCmd.DeleteObject(kind, name): fails on a locked object, ignored.
      if name !in c.locked {
        c.names := c.names[..i] + c.names[i + 1..];
      }
      assert original[i..] == [original[i]] + original[i + 1..];
      assert original[..i + 1] == original[..i] + [original[i]];
    }
    assert original[0..] == original;
  }

  /** `after` is `before` followed by names that are new and pairwise
      distinct: a query is created only under a name not yet in use. */
  predicate AddsOnlyNew(before: seq<string>, after: seq<string>)
  {
    before <= after &&
    (forall k | |before| <= k < |after| :: after[k] !in before) &&
    (forall j, k | |before| <= j < k < |after| :: after[j] != after[k])
  }

  lemma AddsOnlyNewAppend(before: seq<string>, after: seq<string>, x: string)
    requires AddsOnlyNew(before, after) && x !in after
    ensures AddsOnlyNew(before, after + [x])
  {
  }

  /** The database file seen through one automation session. */
  class Session {
    const tables: Container
    const queries: Container
    const forms: Container
    const reports: Container
    const modules: Container
    /** FullPath of every VBA reference, in the References collection's order. */
    var references: seq<string>
    var state: SessionState

    /** Each collection holds its own kind, so the five are distinct objects. */
    ghost predicate Valid()
      reads this
    {
      tables.kind == Table && queries.kind == Query && forms.kind == Form &&
      reports.kind == Report && modules.kind == Module
    }

    constructor (tables: Container, queries: Container, forms: Container,
                 reports: Container, modules: Container, references: seq<string>)
      requires tables.kind == Table && queries.kind == Query && forms.kind == Form
      requires reports.kind == Report && modules.kind == Module
      ensures Valid()
      ensures this.tables == tables && this.queries == queries && this.forms == forms
      ensures this.reports == reports && this.modules == modules
      ensures this.references == references && state == Open
    {
      this.tables := tables;
      this.queries := queries;
      this.forms := forms;
      this.reports := reports;
      this.modules := modules;
      this.references := references;
      state := Open;
    }

    /** delete_old_access_objects: forms, reports, modules and queries are
        deleted, in that order, each collection walked in reverse; tables
        are never touched. The session quits saving. */
    method DeleteOldObjects() returns (attempted: seq<string>)
      requires Valid()
      modifies this`state, forms`names, reports`names, modules`names, queries`names
      ensures forms.names == Survivors(old(forms.names), forms.locked)
      ensures reports.names == Survivors(old(reports.names), reports.locked)
      ensures modules.names == Survivors(old(modules.names), modules.locked)
      ensures queries.names == Survivors(old(queries.names), queries.locked)
      ensures tables.names == old(tables.names)
      ensures attempted == Reverse(old(forms.names)) + Reverse(old(reports.names)) +
                           Reverse(old(modules.names)) + Reverse(old(queries.names))
      ensures state == Closed(SaveYes)
    {
      state := Open;
      var f := DeleteDocuments(forms);
      var r := DeleteDocuments(reports);
      var m := DeleteDocuments(modules);
      var q := DeleteDocuments(queries);
      attempted := f + r + m + q;
      state := Closed(SaveYes);
    }

    /** get_vba_references: the FullPath of every reference, in order; the
        session quits without saving. */
    method GetReferences() returns (paths: seq<string>)
      modifies this`state
      ensures paths == references
      ensures state == Closed(SaveNo)
    {
      state := Open;
      paths := [];
      for i := 0 to |references|
        invariant paths == references[..i]
      {
        paths := paths + [references[i]];
      }
      state := Closed(SaveNo);
    }

    /** set_vba_references: each candidate not yet referenced (compared
        case-insensitively against the live, growing list) is added from
        file; the session quits saving. */
    method SetReferences(candidates: seq<string>)
      modifies this`references, this`state
      ensures references == old(references) + Missing(old(references), candidates)
      ensures state == Closed(SaveYes)
    {
      state := Open;
      ghost var existing := references;
      for i := 0 to |candidates|
        invariant references == existing + Missing(existing, candidates[..i])
      {
        var path := candidates[i];
        assert candidates[..i + 1][..i] == candidates[..i];
        SyncCovers(existing, candidates[..i], path);
        if !ReferenceAlreadyExists(references, path) {
          // References.AddFromFile(path)
          references := references + [path];
        }
      }
      assert candidates[..|candidates|] == candidates;
      state := Closed(SaveYes);
    }

    /** import_query_defs: every entry of the source directory whose
        lower-cased name contains ".qry" is loaded as a query named after
        the file without its last extension; loading replaces a query of the
        same name or adds a new one. With no such entry it only warns. Either
        way the session quits saving. */
    method ImportQueries(entries: seq<string>) returns (outcome: ImportOutcome)
      requires Valid()
      modifies this`state, queries`names
      ensures QueryFiles(entries) == [] <==> outcome == NoQueryDefinitions
      ensures outcome.Imported? ==>
        |outcome.names| == |QueryFiles(entries)| &&
        forall k | 0 <= k < |outcome.names| :: outcome.names[k] == Stem(QueryFiles(entries)[k])
      ensures outcome.Imported? ==> forall x | x in outcome.names :: x in queries.names
      ensures outcome == NoQueryDefinitions ==> queries.names == old(queries.names)
      ensures AddsOnlyNew(old(queries.names), queries.names)
      ensures outcome.Imported? ==> forall k | |old(queries.names)| <= k < |queries.names| ::
        queries.names[k] in outcome.names
      ensures state == Closed(SaveYes)
    {
      state := Open;
      var files := QueryFiles(entries);
      if |files| > 0 {
        var loaded: seq<string> := [];
        for i := 0 to |files|
          invariant |loaded| == i
          invariant forall k | 0 <= k < i :: loaded[k] == Stem(files[k])
          invariant forall x | x in loaded :: x in queries.names
          invariant AddsOnlyNew(old(queries.names), queries.names)
          invariant forall k | |old(queries.names)| <= k < |queries.names| ::
            queries.names[k] in loaded
        {
          var queryName := Stem(files[i]);
          // LoadFromText(acQuery, queryName, file)
          if queryName !in queries.names {
            AddsOnlyNewAppend(old(queries.names), queries.names, queryName);
            queries.names := queries.names + [queryName];
          }
          loaded := loaded + [queryName];
        }
        outcome := Imported(loaded);
      } else {
        outcome := NoQueryDefinitions;
      }
      state := Closed(SaveYes);
    }
  }
}
