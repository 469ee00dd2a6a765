/** Suffix tests on strings, with the semantics of Python's `str.endswith`
    for a single suffix argument. */
module Strings {

  /** True iff `suffix` is the final segment of `s`. The empty suffix ends
      every string; a suffix longer than `s` ends none. Characters are
      compared exactly, so the test is case-sensitive. */
  function EndsWith(s: string, suffix: string): (r: bool)
    ensures r <==> |suffix| <= |s| && s[|s| - |suffix|..] == suffix
    decreases |suffix|
  {
    if |suffix| == 0 then true
    else if |s| == 0 then false
    else s[|s| - 1] == suffix[|suffix| - 1] && EndsWith(s[..|s| - 1], suffix[..|suffix| - 1])
  }

  /** `EndsWith` agrees with the concatenation view of a suffix: `s` ends
      with `suffix` exactly when `s` is some stem followed by `suffix`. */
  lemma EndsWithIffConcatenation(s: string, suffix: string)
    ensures EndsWith(s, suffix) <==> exists stem :: s == stem + suffix
  {
    if EndsWith(s, suffix) {
      var stem := s[..|s| - |suffix|];
      assert s == stem + suffix;
    }
    forall stem | s == stem + suffix
      ensures EndsWith(s, suffix)
    {
      assert s[|stem|..] == suffix;
    }
  }

  /** Any stem followed by `suffix` ends with `suffix`. */
  lemma EndsWithOwnSuffix(stem: string, suffix: string)
    ensures EndsWith(stem + suffix, suffix)
  {
    EndsWithIffConcatenation(stem + suffix, suffix);
  }

  /** Whether a suffix of length at most `n` ends a string depends only on
      the string's last `n` characters. */
  lemma EndsWithDependsOnTail(s: string, t: string, n: nat, suffix: string)
    requires |suffix| <= n <= |s| && n <= |t|
    requires s[|s| - n..] == t[|t| - n..]
    ensures EndsWith(s, suffix) == EndsWith(t, suffix)
  {
  }
}
