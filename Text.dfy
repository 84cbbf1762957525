/** Character-level helpers standing for .NET's string comparison and
    whitespace classification. */
module Text {

  import opened Wrappers

  /** The case folding used by every ignore-case comparison: a letter is mapped
      to its upper-case form. Only ASCII letters are folded. The general lemmas
      rely only on comparisons going through the fold; the worked examples of
      the genre edits use what it does to particular ASCII characters. */
  function FoldChar(c: char): char {
    if 'a' <= c <= 'z' then (c as int - 32) as char else c
  }

  /** `s` with every character folded. */
  function Fold(s: string): (r: string)
    ensures |r| == |s|
    ensures forall i :: 0 <= i < |s| ==> r[i] == FoldChar(s[i])
  {
    seq(|s|, i requires 0 <= i < |s| => FoldChar(s[i]))
  }

  /** Ignore-case equality: equal once folded, hence an equivalence relation. */
  predicate EqualsIgnoreCase(a: string, b: string) {
    Fold(a) == Fold(b)
  }

  /** `part` occurs in `s` as a contiguous run starting at index `i`. */
  predicate OccursAt(s: string, part: string, i: int) {
    0 <= i <= |s| - |part| && s[i..i + |part|] == part
  }

  /** `part` occurs in `s` as a contiguous run starting somewhere. */
  predicate ContainsSubstring(s: string, part: string) {
    exists i :: 0 <= i <= |s| && OccursAt(s, part, i)
  }

  /** `String.Contains(part, OrdinalIgnoreCase)`: the folded `part` occurs in
      the folded `s`. */
  predicate ContainsIgnoreCase(s: string, part: string) {
    ContainsSubstring(Fold(s), Fold(part))
  }

  /** `char.IsWhiteSpace`: the Unicode space, line and paragraph separators and
      the control characters U+0009 to U+000D and U+0085. */
  predicate IsWhiteSpace(c: char) {
    || '\U{0009}' <= c <= '\U{000D}'
    || c == '\U{0020}' || c == '\U{0085}' || c == '\U{00A0}' || c == '\U{1680}'
    || '\U{2000}' <= c <= '\U{200A}'
    || c == '\U{2028}' || c == '\U{2029}' || c == '\U{202F}' || c == '\U{205F}' || c == '\U{3000}'
  }

  /** `string.IsNullOrWhiteSpace`: absent, empty, or made only of whitespace. */
  predicate IsNullOrWhiteSpace(s: Option<string>) {
    s.None? || forall i :: 0 <= i < |s.value| ==> IsWhiteSpace(s.value[i])
  }

  lemma EqualsIgnoreCaseIsEquivalence(a: string, b: string, c: string)
    ensures EqualsIgnoreCase(a, a)
    ensures EqualsIgnoreCase(a, b) ==> EqualsIgnoreCase(b, a)
    ensures EqualsIgnoreCase(a, b) && EqualsIgnoreCase(b, c) ==> EqualsIgnoreCase(a, c)
  {
  }
}
