/** The two string tests the listing uses: `string.IsNullOrWhiteSpace` and
    `string.Contains(value, StringComparison.OrdinalIgnoreCase)`. */
module Text {
  import opened Wrappers

  /** The characters .NET's `char.IsWhiteSpace` accepts: the Unicode space
      separators, the line and paragraph separators, U+0009 to U+000D and
      U+0085. */
  predicate IsWhiteSpace(c: char) {
    c == ' ' || ('\t' <= c <= '\r') || c == '\U{85}' || c == '\U{A0}' ||
    c == '\U{1680}' || ('\U{2000}' <= c <= '\U{200A}') || c == '\U{2028}' ||
    c == '\U{2029}' || c == '\U{202F}' || c == '\U{205F}' || c == '\U{3000}'
  }

  /** A missing string, an empty one, or one made only of white space. */
  function IsNullOrWhiteSpace(s: Option<string>): (blank: bool)
    ensures s.None? ==> blank
    ensures s == Some("") ==> blank
    ensures !blank <==> s.Some? && exists i | 0 <= i < |s.value| :: !IsWhiteSpace(s.value[i])
  {
    s.None? || forall i :: 0 <= i < |s.value| ==> IsWhiteSpace(s.value[i])
  }

  /** Case folding for the ordinal case-insensitive comparison, restricted
      to the ASCII letters. */
  function FoldCase(c: char): (f: char)
    ensures 'a' <= c <= 'z' ==> 'A' <= f <= 'Z' && f as int == c as int - 32
    ensures !('a' <= c <= 'z') ==> f == c
    ensures FoldCase(f) == f
  {
    if 'a' <= c <= 'z' then (c as int - 32) as char else c
  }

  /** Equal up to the case of each character. */
  predicate EqualsIgnoreCase(a: string, b: string) {
    |a| == |b| && forall k :: 0 <= k < |a| ==> FoldCase(a[k]) == FoldCase(b[k])
  }

  /** `needle` occurs in `hay` at position `i`, ignoring case. */
  predicate OccursAt(hay: string, needle: string, i: int) {
    0 <= i <= |hay| - |needle| && EqualsIgnoreCase(hay[i..i + |needle|], needle)
  }

  /** `needle` occurs somewhere in `hay`, ignoring case. */
  function ContainsIgnoreCase(hay: string, needle: string): (found: bool)
    ensures |needle| == 0 ==> found
    ensures found ==> |needle| <= |hay|
    ensures EqualsIgnoreCase(hay, needle) ==> found
  {
    assert |needle| == 0 || EqualsIgnoreCase(hay, needle) ==> OccursAt(hay, needle, 0);
    exists i | 0 <= i <= |hay| - |needle| :: OccursAt(hay, needle, i)
  }

  /** A match at any position is found: whatever precedes and follows it. */
  lemma ContainsInfix(a: string, m: string, b: string, needle: string)
    requires EqualsIgnoreCase(m, needle)
    ensures ContainsIgnoreCase(a + m + b, needle)
  {
    var hay := a + m + b;
    assert hay[|a|..|a| + |m|] == m;
    assert OccursAt(hay, needle, |a|);
  }

  /** Conversely, a text that contains the needle is some text, a match of
      the needle and some more text. */
  lemma FoundIsInfix(hay: string, needle: string)
    requires ContainsIgnoreCase(hay, needle)
    ensures exists a, m, b :: hay == a + m + b && EqualsIgnoreCase(m, needle)
  {
    var i :| 0 <= i <= |hay| - |needle| && OccursAt(hay, needle, i);
    var a, m, b := hay[..i], hay[i..i + |needle|], hay[i + |needle|..];
    assert hay == a + m + b;
  }

  /** The containment test does not see the case of the searched text:
      replacing the needle by any case variant gives the same answer. */
  lemma CaseVariantsFindTheSame(hay: string, needle: string, variant: string)
    requires EqualsIgnoreCase(needle, variant)
    ensures ContainsIgnoreCase(hay, needle) == ContainsIgnoreCase(hay, variant)
  {
    assert |needle| == |variant|;
    if ContainsIgnoreCase(hay, needle) {
      var i :| 0 <= i <= |hay| - |needle| && OccursAt(hay, needle, i);
      var slice := hay[i..i + |needle|];
      assert forall k :: 0 <= k < |slice| ==> FoldCase(slice[k]) == FoldCase(variant[k]);
      assert OccursAt(hay, variant, i);
    }
    if ContainsIgnoreCase(hay, variant) {
      var i :| 0 <= i <= |hay| - |variant| && OccursAt(hay, variant, i);
      var slice := hay[i..i + |variant|];
      assert forall k :: 0 <= k < |slice| ==> FoldCase(slice[k]) == FoldCase(needle[k]);
      assert OccursAt(hay, needle, i);
    }
  }

  /** Every string contains itself and each of its prefixes. */
  lemma ContainsOwnPrefix(hay: string, n: nat)
    requires n <= |hay|
    ensures ContainsIgnoreCase(hay, hay[..n])
  {
    assert OccursAt(hay, hay[..n], 0);
  }
}
