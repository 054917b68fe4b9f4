/** VBA library references: the case-insensitive membership test
    (reference_already_exists) and what set_vba_references adds. */
module References {
  import opened Strings

  /** Two reference paths name the same library when they agree lower-cased. */
  predicate SamePath(a: string, b: string)
  {
    Lower(a) == Lower(b)
  }

  /** Some entry of `refs` names the library at `path`. */
  predicate HasRef(refs: seq<string>, path: string)
  {
    exists i | 0 <= i < |refs| :: SamePath(refs[i], path)
  }

  /** reference_already_exists: scans the references in order and answers as
      soon as one matches the candidate. */
  function ReferenceAlreadyExists(refs: seq<string>, path: string): (r: bool)
    ensures r <==> exists i | 0 <= i < |refs| :: Lower(refs[i]) == Lower(path)
  {
    if |refs| == 0 then false
    else if Lower(refs[0]) == Lower(path) then true
    else ReferenceAlreadyExists(refs[1..], path)
  }

  /** The candidates that set_vba_references appends to `existing`, in
      candidate order: each one that matches neither an existing reference
      nor an earlier candidate. */
  function Missing(existing: seq<string>, candidates: seq<string>): (added: seq<string>)
    decreases |candidates|
  {
    if candidates == [] then []
    else
      var n := |candidates| - 1;
      var last := candidates[n];
      Missing(existing, candidates[..n]) +
        (if HasRef(existing, last) || HasRef(candidates[..n], last) then [] else [last])
  }

  lemma HasRefConcat(a: seq<string>, b: seq<string>, path: string)
    ensures HasRef(a + b, path) <==> HasRef(a, path) || HasRef(b, path)
  {
    if HasRef(a + b, path) {
      var i :| 0 <= i < |a + b| && SamePath((a + b)[i], path);
      if i >= |a| { assert b[i - |a|] == (a + b)[i]; }
    }
    if HasRef(a, path) {
      var i :| 0 <= i < |a| && SamePath(a[i], path);
      assert (a + b)[i] == a[i];
    }
    if HasRef(b, path) {
      var i :| 0 <= i < |b| && SamePath(b[i], path);
      assert (a + b)[|a| + i] == b[i];
    }
  }

  lemma HasRefSame(refs: seq<string>, p: string, q: string)
    requires SamePath(p, q)
    ensures HasRef(refs, p) <==> HasRef(refs, q)
  {
  }

  /** Every appended path is one of the candidates. */
  lemma {:induction false} MissingFromCandidates(existing: seq<string>, candidates: seq<string>)
    ensures forall k | 0 <= k < |Missing(existing, candidates)| ::
      Missing(existing, candidates)[k] in candidates
    decreases |candidates|
  {
    if candidates != [] {
      var n := |candidates| - 1;
      MissingFromCandidates(existing, candidates[..n]);
      assert forall x | x in candidates[..n] :: x in candidates;
    }
  }

  /** No appended path was already referenced. */
  lemma {:induction false} MissingIsNew(existing: seq<string>, candidates: seq<string>)
    ensures forall k | 0 <= k < |Missing(existing, candidates)| ::
      !HasRef(existing, Missing(existing, candidates)[k])
    decreases |candidates|
  {
    if candidates != [] {
      MissingIsNew(existing, candidates[..|candidates| - 1]);
    }
  }

  /** No path is appended twice, even when the candidate list repeats it
      (compared case-insensitively). */
  lemma {:induction false} MissingDistinct(existing: seq<string>, candidates: seq<string>)
    ensures forall j, k | 0 <= j < k < |Missing(existing, candidates)| ::
      !SamePath(Missing(existing, candidates)[j], Missing(existing, candidates)[k])
    decreases |candidates|
  {
    if candidates != [] {
      var n := |candidates| - 1;
      var prev := Missing(existing, candidates[..n]);
      MissingDistinct(existing, candidates[..n]);
      MissingFromCandidates(existing, candidates[..n]);
      var m := Missing(existing, candidates);
      forall j, k | 0 <= j < k < |m|
        ensures !SamePath(m[j], m[k])
      {
        if k == |prev| {
          var last := candidates[n];
          assert m[k] == last && m[j] == prev[j];
          assert !HasRef(candidates[..n], last);
          var i :| 0 <= i < n && candidates[..n][i] == prev[j];
          assert !SamePath(candidates[..n][i], last);
        }
      }
    }
  }

  /** After the sync, a path is referenced exactly when it was referenced
      before or is one of the candidates. */
  lemma {:induction false} SyncCovers(existing: seq<string>, candidates: seq<string>, path: string)
    ensures HasRef(existing + Missing(existing, candidates), path)
        <==> HasRef(existing, path) || HasRef(candidates, path)
    decreases |candidates|
  {
    if candidates == [] {
      assert existing + [] == existing;
    } else {
      var n := |candidates| - 1;
      var last := candidates[n];
      var prev := Missing(existing, candidates[..n]);
      var extra := if HasRef(existing, last) || HasRef(candidates[..n], last) then [] else [last];
      assert existing + Missing(existing, candidates) == (existing + prev) + extra;
      HasRefConcat(existing + prev, extra, path);
      HasRefConcat(existing, prev, path);
      SyncCovers(existing, candidates[..n], path);
      assert candidates == candidates[..n] + [last];
      HasRefConcat(candidates[..n], [last], path);
      if SamePath(last, path) {
        HasRefSame(existing, last, path);
        HasRefSame(candidates[..n], last, path);
      }
    }
  }

  /** Candidates that are all referenced already add nothing. */
  lemma {:induction false} MissingNoneWhenCovered(existing: seq<string>, candidates: seq<string>)
    requires forall k | 0 <= k < |candidates| :: HasRef(existing, candidates[k])
    ensures Missing(existing, candidates) == []
    decreases |candidates|
  {
    if candidates != [] {
      MissingNoneWhenCovered(existing, candidates[..|candidates| - 1]);
    }
  }

  /** Synchronising a second time with the same candidates adds nothing. */
  lemma SyncIdempotent(existing: seq<string>, candidates: seq<string>)
    ensures Missing(existing + Missing(existing, candidates), candidates) == []
  {
    var synced := existing + Missing(existing, candidates);
    forall k | 0 <= k < |candidates|
      ensures HasRef(synced, candidates[k])
    {
      SyncCovers(existing, candidates, candidates[k]);
    }
    MissingNoneWhenCovered(synced, candidates);
  }

  /** The appended paths keep the candidates' order: they sit at strictly
      increasing positions of the candidate list. */
  lemma {:induction false} MissingInCandidateOrder(existing: seq<string>, candidates: seq<string>)
    returns (pos: seq<nat>)
    ensures |pos| == |Missing(existing, candidates)|
    ensures forall k | 0 <= k < |pos| ::
      pos[k] < |candidates| && candidates[pos[k]] == Missing(existing, candidates)[k]
    ensures forall j, k | 0 <= j < k < |pos| :: pos[j] < pos[k]
    decreases |candidates|
  {
    if candidates == [] {
      pos := [];
    } else {
      var n := |candidates| - 1;
      var last := candidates[n];
      var prev := Missing(existing, candidates[..n]);
      pos := MissingInCandidateOrder(existing, candidates[..n]);
      forall k | 0 <= k < |pos|
        ensures pos[k] < |candidates| && candidates[pos[k]] == prev[k]
      {
        assert candidates[pos[k]] == candidates[..n][pos[k]];
      }
      if !(HasRef(existing, last) || HasRef(candidates[..n], last)) {
        assert Missing(existing, candidates) == prev + [last];
        pos := pos + [n];
      } else {
        assert Missing(existing, candidates) == prev;
      }
    }
  }
}
