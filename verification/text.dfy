/** Text helpers of the store: ASCII lower-casing (`toLower`), substring
    search (`std::string::find`) and the partial-match test `contiene`, plus
    the yes/no reading of a console answer. */
module Text {

  predicate IsUpper(c: char) {
    'A' <= c <= 'Z'
  }

  /** `tolower` in the "C" locale: only 'A'..'Z' change. */
  function LowerChar(c: char): (r: char)
    ensures !IsUpper(r)
    ensures IsUpper(c) ==> r as int == c as int + 32
    ensures !IsUpper(c) ==> r == c
  {
    if IsUpper(c) then (c as int + 32) as char else c
  }

  /** Lower-cases every character, keeping the length. */
  function Lower(s: string): (r: string)
    ensures |r| == |s|
    ensures forall i :: 0 <= i < |s| ==> r[i] == LowerChar(s[i])
  {
    seq(|s|, i requires 0 <= i < |s| => LowerChar(s[i]))
  }

  /** `pat` appears in `text` starting at position `i`. */
  predicate OccursAt(text: string, pat: string, i: int) {
    0 <= i && i + |pat| <= |text| && text[i..i + |pat|] == pat
  }

  ghost predicate Contains(text: string, pat: string) {
    exists i :: OccursAt(text, pat, i)
  }

  /** `text.find(pat)`: the first position where `pat` occurs, or -1 for
      `npos`. The empty pattern is found at 0. */
  method Find(text: string, pat: string) returns (pos: int)
    ensures pos == -1 <==> !Contains(text, pat)
    ensures pos != -1 ==> OccursAt(text, pat, pos)
    ensures forall j :: 0 <= j < pos ==> !OccursAt(text, pat, j)
  {
    var i := 0;
    while i + |pat| <= |text|
      invariant 0 <= i
      invariant forall j :: 0 <= j < i ==> !OccursAt(text, pat, j)
      decreases |text| - i
    {
      if text[i..i + |pat|] == pat {
        assert OccursAt(text, pat, i);
        return i;
      }
      i := i + 1;
    }
    return -1;
  }

  /** `contiene(campo, filtro)`: the lower-cased field contains the filter.
      The filter itself is NOT lower-cased here; callers do that. */
  method FieldContains(field: string, filter: string) returns (b: bool)
    ensures b <==> Contains(Lower(field), filter)
  {
    var pos := Find(Lower(field), filter);
    b := pos != -1;
  }

  /** A filter holding an upper-case letter never matches a lower-cased
      field, which is why every caller lower-cases the filter first. */
  lemma UpperFilterNeverMatches(field: string, filter: string, k: int)
    requires 0 <= k < |filter| && IsUpper(filter[k])
    ensures !Contains(Lower(field), filter)
  {
  }

  /** Whatever the case of either side, an occurrence of the query in the
      field is found once both are lower-cased, at the same position. */
  lemma OccurrenceSurvivesLowering(field: string, query: string, i: int)
    requires OccursAt(field, query, i)
    ensures OccursAt(Lower(field), Lower(query), i)
  {
  }

  /** A console confirmation: `toupper(answer[0]) == 'S'`. An empty answer
      reads as its terminating NUL and is not a yes. */
  predicate Affirmative(answer: string) {
    |answer| > 0 && (answer[0] == 'S' || answer[0] == 's')
  }
}
