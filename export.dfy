/**
 * The name of the downloadable results file:
 * `f"{analysis_title.replace(' ', '_').lower()}_results.txt"`.
 * Lower-casing is ASCII only; every other character is left as it is.
 */
module Export {
  const RESULTS_SUFFIX: string := "_results.txt"

  predicate IsUpper(c: char) {
    'A' <= c <= 'Z'
  }

  function LowerChar(c: char): (d: char)
    ensures IsUpper(c) ==> d as int == c as int + ('a' as int - 'A' as int)
    ensures !IsUpper(c) ==> d == c
  {
    if IsUpper(c) then (c as int + ('a' as int - 'A' as int)) as char else c
  }

  /** `str.replace(' ', '_')`: every space becomes an underscore, nothing else moves. */
  function UnderscoreSpaces(t: string): (r: string)
    ensures |r| == |t|
    ensures forall i :: 0 <= i < |t| ==> r[i] == (if t[i] == ' ' then '_' else t[i])
  {
    if t == [] then [] else UnderscoreSpaces(t[..|t| - 1]) + [if t[|t| - 1] == ' ' then '_' else t[|t| - 1]]
  }

  /** `str.lower()` on ASCII letters. */
  function Lower(t: string): (r: string)
    ensures |r| == |t|
    ensures forall i :: 0 <= i < |t| ==> r[i] == LowerChar(t[i])
  {
    if t == [] then [] else Lower(t[..|t| - 1]) + [LowerChar(t[|t| - 1])]
  }

  function ExportFileName(title: string): (r: string)
    ensures |r| == |title| + |RESULTS_SUFFIX|
    ensures r[|title|..] == RESULTS_SUFFIX
    ensures forall i :: 0 <= i < |title| ==> r[i] == LowerChar(if title[i] == ' ' then '_' else title[i])
  {
    Lower(UnderscoreSpaces(title)) + RESULTS_SUFFIX
  }

  /** The file name holds no space and no upper-case ASCII letter. */
  lemma ExportFileNameClean(title: string)
    ensures forall i :: 0 <= i < |ExportFileName(title)| ==>
      ExportFileName(title)[i] != ' ' && !IsUpper(ExportFileName(title)[i])
  {
    var r := ExportFileName(title);
    forall i | 0 <= i < |r|
      ensures r[i] != ' ' && !IsUpper(r[i])
    {
      if i >= |title| {
        assert r[i] == RESULTS_SUFFIX[i - |title|];
      }
    }
  }
}
