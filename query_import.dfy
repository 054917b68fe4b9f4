/** Which decomposed files import_query_defs loads as queries, and under
    which query name (the file name without its last extension). */
module QueryImport {
  import opened Strings

  /** The marker of a query definition file, searched in the lower-cased name. */
  const QueryExt: string := ".qry"

  predicate IsQueryFile(name: string)
  {
    Contains(Lower(name), QueryExt)
  }

  /** The directory entries, in listing order, whose lower-cased name
      contains ".qry". */
  function QueryFiles(entries: seq<string>): (r: seq<string>)
    ensures |r| <= |entries|
    ensures forall x :: x in r <==> x in entries && IsQueryFile(x)
  {
    if entries == [] then []
    else (if IsQueryFile(entries[0]) then [entries[0]] else []) + QueryFiles(entries[1..])
  }

  /** Selection keeps the listing order: selecting from two listings one
      after the other gives the two selections one after the other. */
  lemma {:induction false} QueryFilesInOrder(a: seq<string>, b: seq<string>)
    ensures QueryFiles(a + b) == QueryFiles(a) + QueryFiles(b)
  {
    if a == [] {
      assert a + b == b;
    } else {
      assert (a + b)[1..] == a[1..] + b;
      QueryFilesInOrder(a[1..], b);
    }
  }

  /** Index of the last '.' of `s`, or -1 when there is none. */
  function LastDot(s: string): (r: int)
    ensures -1 <= r < |s|
    ensures r >= 0 ==> s[r] == '.'
    ensures forall k | r < k < |s| :: s[k] != '.'
  {
    if s == [] then -1
    else if s[|s| - 1] == '.' then |s| - 1
    else LastDot(s[..|s| - 1])
  }

  predicate HasNonDot(s: string)
  {
    exists k | 0 <= k < |s| :: s[k] != '.'
  }

  /** `os.path.splitext(name)[0]` for a name without directory part: the last
      extension is dropped, unless the only dots before it are leading dots.
      The stem is the name itself or the name with exactly its last extension
      (a '.' followed by no further '.') removed. */
  function Stem(name: string): (stem: string)
    ensures |stem| <= |name| && name[..|stem|] == stem
    ensures stem != name ==>
      HasNonDot(stem) && name[|stem|] == '.' &&
      forall k | |stem| < k < |name| :: name[k] != '.'
    ensures stem == name ==>
      forall j, k | 0 <= j < k < |name| && name[k] == '.' :: name[j] == '.'
  {
    var dot := LastDot(name);
    if dot >= 0 && HasNonDot(name[..dot]) then name[..dot]
    else
      assert forall j | 0 <= j < dot :: name[..dot][j] == name[j];
      name
  }

  /** A name built as base + "." + ext, with no dot in ext and a base that is
      not all dots, is loaded under the query name base. */
  lemma StemOfQueryFile(base: string, ext: string)
    requires HasNonDot(base)
    requires forall k | 0 <= k < |ext| :: ext[k] != '.'
    ensures Stem(base + "." + ext) == base
  {
    var name := base + "." + ext;
    assert name[|base|] == '.';
    forall k | |base| < k < |name|
      ensures name[k] != '.'
    {
      assert name[k] == ext[k - |base| - 1];
    }
    assert LastDot(name) == |base|;
    assert name[..|base|] == base;
  }
}
