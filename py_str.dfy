/**
 * The Python string operations the transformations use: the substring test
 * `pat in s`, the prefix slice `s[:n]`, `str.capitalize()` and the
 * f-string that follows a value's text with a unit.
 */
module PyStr {
  import opened Wrappers

  /** `pat in s`: `pat` occurs somewhere in `s` as a contiguous substring. */
  predicate Contains(s: string, pat: string)
    decreases |s|
  {
    if |pat| > |s| then false
    else if s[..|pat|] == pat then true
    else |s| > 0 && Contains(s[1..], pat)
  }

  /** `pat` occurs in `s` starting at index `i`. */
  predicate OccursAt(s: string, pat: string, i: int) {
    0 <= i && i + |pat| <= |s| && s[i..i + |pat|] == pat
  }

  /** Each character of an occurrence is the pattern's character. */
  lemma OccursAtChar(s: string, pat: string, i: int, j: int)
    requires OccursAt(s, pat, i) && 0 <= j < |pat|
    ensures 0 <= i + j < |s| && s[i + j] == pat[j]
  {
  }

  /** Contains holds exactly when `pat` occurs at some position of `s`. */
  lemma {:induction false} ContainsIff(s: string, pat: string)
    ensures Contains(s, pat) <==> exists i :: OccursAt(s, pat, i)
  {
    if Contains(s, pat) {
      if s[..|pat|] == pat {
        assert OccursAt(s, pat, 0);
      } else {
        ContainsIff(s[1..], pat);
        var i :| OccursAt(s[1..], pat, i);
        assert s[i + 1..i + 1 + |pat|] == s[1..][i..i + |pat|];
        assert OccursAt(s, pat, i + 1);
      }
    } else if exists i :: OccursAt(s, pat, i) {
      var i :| OccursAt(s, pat, i);
      assert |pat| <= |s| && s[..|pat|] != pat;
      assert i > 0;
      ContainsIff(s[1..], pat);
      assert s[1..][i - 1..i - 1 + |pat|] == s[i..i + |pat|];
      assert OccursAt(s[1..], pat, i - 1);
      assert false;
    }
  }

  /** `s[:n]` for `n >= 0`: Python clips the bound to the string's length. */
  function Take(s: string, n: nat): (r: string)
    ensures r <= s
    ensures |r| == if |s| < n then |s| else n
  {
    if |s| < n then s else s[..n]
  }

  /** ASCII case mapping (`str.upper` / `str.lower` on one character). */
  function Upper(c: char): char {
    if 'a' <= c <= 'z' then (c as int - 32) as char else c
  }

  function Lower(c: char): char {
    if 'A' <= c <= 'Z' then (c as int + 32) as char else c
  }

  predicate IsLower(c: char) { 'a' <= c <= 'z' }

  predicate IsUpper(c: char) { 'A' <= c <= 'Z' }

  function LowerAll(s: string): (r: string)
    ensures |r| == |s|
    ensures forall i :: 0 <= i < |s| ==> r[i] == Lower(s[i])
  {
    if s == [] then [] else [Lower(s[0])] + LowerAll(s[1..])
  }

  /**
   * `s.capitalize()`: the first character upper-cased, every other one
   * lower-cased. The result keeps the length, starts with no lower-case
   * letter, has no upper-case letter after its first character, and differs
   * from `s` only in the case of letters.
   */
  function Capitalize(s: string): (r: string)
    ensures |r| == |s|
    ensures |s| > 0 ==> !IsLower(r[0]) && Lower(r[0]) == Lower(s[0])
    ensures forall i :: 0 < i < |s| ==> !IsUpper(r[i]) && Upper(r[i]) == Upper(s[i])
  {
    if s == [] then [] else [Upper(s[0])] + LowerAll(s[1..])
  }

  /** Capitalising twice is capitalising once. */
  lemma CapitalizeIdempotent(s: string)
    ensures Capitalize(Capitalize(s)) == Capitalize(s)
  {
  }

  /**
   * The f-string `f"{value} °F"` (and its `%` and `miles/hour` variants)
   * once the value has been rendered as `text`; `unit` carries its leading
   * space. The unit can always be stripped off again to give `text` back.
   */
  function WithUnit(text: string, unit: string): (r: string)
    ensures StripUnit(r, unit) == Some(text)
  {
    assert (text + unit)[..|text|] == text;
    text + unit
  }

  /** Reads a display string back: the text before `unit`, if it ends with it. */
  function StripUnit(s: string, unit: string): (r: Option<string>)
    ensures r.Some? ==> |r.value| + |unit| == |s|
  {
    if |unit| <= |s| && s[|s| - |unit|..] == unit then Some(s[..|s| - |unit|]) else None
  }

  /** StripUnit inverts WithUnit, and only a string WithUnit can build reads back. */
  lemma UnitRoundTrip(text: string, unit: string, s: string)
    ensures StripUnit(WithUnit(text, unit), unit) == Some(text)
    ensures StripUnit(s, unit) == Some(text) ==> WithUnit(text, unit) == s
  {
  }

  const Fahrenheit := " °F"
  const Percent := " %"
  const MilesPerHour := " miles/hour"
}
