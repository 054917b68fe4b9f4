/** The configuration patch applied to the helper script vbac.wsf so that its
    decompose run also exports queries (update_vbac_script). */
module VbacScript {
  import opened Strings

  /** The setting that keeps queries out of the export. */
  const QueryParam: string := "param.incQuery = false;"

  /** The same setting commented out; its presence means the script is patched. */
  const Marker: string := "//" + QueryParam

  /** The text transform: unless the commented-out setting is already present,
      every occurrence of the setting is commented out. */
  function PatchScript(text: string): (patched: string)
  {
    if Contains(text, Marker) then text else ReplaceAll(text, QueryParam, Marker)
  }

  lemma MarkerHasParam(text: string)
    requires Contains(text, Marker)
    ensures Contains(text, QueryParam)
  {
    ContainsSuffixPart(text, "//", QueryParam);
  }

  /** Patching twice gives the same text as patching once. */
  lemma {:induction false} PatchIdempotent(text: string)
    ensures PatchScript(PatchScript(text)) == PatchScript(text)
  {
    if !Contains(text, Marker) {
      if Contains(text, QueryParam) {
        ReplaceIntroduces(text, QueryParam, Marker);
      } else {
        ReplaceAbsent(text, QueryParam, Marker);
      }
    }
  }

  /** After patching, the script carries the marker exactly when it mentions
      the setting at all (commented out or not). */
  lemma {:induction false} PatchEnablesQueries(text: string)
    ensures Contains(PatchScript(text), Marker) <==> Contains(text, QueryParam)
  {
    if Contains(text, Marker) {
      MarkerHasParam(text);
    } else if Contains(text, QueryParam) {
      ReplaceIntroduces(text, QueryParam, Marker);
    } else {
      ReplaceAbsent(text, QueryParam, Marker);
    }
  }

  /** A script that never mentions the setting is left exactly as it was. */
  lemma {:induction false} PatchLeavesOtherScripts(text: string)
    requires !Contains(text, QueryParam)
    ensures PatchScript(text) == text
  {
    if !Contains(text, Marker) {
      ReplaceAbsent(text, QueryParam, Marker);
    }
  }
}
