/** The functions of Go's `strings` package that the handlers call. */
module GoStrings {
  /** strings.HasPrefix: the comparison is exact, so it is case-sensitive. */
  predicate HasPrefix(s: string, prefix: string) {
    |prefix| <= |s| && s[..|prefix|] == prefix
  }

  /** strings.TrimPrefix: s without a leading prefix, or s itself when it does not start with it. */
  function TrimPrefix(s: string, prefix: string): (r: string)
    ensures HasPrefix(s, prefix) ==> prefix + r == s
    ensures !HasPrefix(s, prefix) ==> r == s
    ensures prefix != [] ==> (r == s <==> !HasPrefix(s, prefix))
  {
    if HasPrefix(s, prefix) then s[|prefix|..] else s
  }

  /** substr occurs in s starting at index i. */
  predicate OccursAt(s: string, substr: string, i: int) {
    0 <= i <= |s| - |substr| && s[i..i + |substr|] == substr
  }

  /** strings.Contains */
  predicate Contains(s: string, substr: string) {
    exists i | 0 <= i <= |s| - |substr| :: OccursAt(s, substr, i)
  }

  /** A text that starts with substr still contains it behind any other text. */
  lemma ContainsAfter(p: string, s: string, substr: string)
    requires HasPrefix(s, substr)
    ensures Contains(p + s, substr)
  {
    var i := |p|;
    assert (p + s)[i..i + |substr|] == s[..|substr|];
    assert OccursAt(p + s, substr, i);
  }
}
