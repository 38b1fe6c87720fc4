/**
 * The ordinal string operations the commands use: `EndsWith`, `Contains`,
 * `LastIndexOf` and `Substring`, on strings as sequences of characters.
 */
module Text {

  /** `s.EndsWith(suffix)`. */
  predicate EndsWith(s: string, suffix: string)
  {
    |suffix| <= |s| && s[|s| - |suffix|..] == suffix
  }

  /** `t` occurs in `s` at index `i`. */
  predicate OccursAt(s: string, t: string, i: nat)
  {
    i + |t| <= |s| && s[i..i + |t|] == t
  }

  /** `s.Contains(t)`: `t` occurs in `s` at some index. */
  predicate Contains(s: string, t: string)
  {
    exists i: nat :: i <= |s| && OccursAt(s, t, i)
  }

  lemma EndsWithAppend(s: string, suffix: string)
    ensures EndsWith(s + suffix, suffix)
  {
    assert (s + suffix)[|s|..] == suffix;
  }

  /** A string that contains `t` as a prefix contains it. */
  lemma ContainsPrefix(t: string, rest: string)
    ensures Contains(t + rest, t)
  {
    assert OccursAt(t + rest, t, 0);
  }

  /**
   * `s.LastIndexOf(c, from)`: the greatest index `i <= from` holding `c`,
   * or -1 when there is none; `from` is -1 for an empty search range.
   * `LastIndexOfFromSpec` states what it finds.
   */
  function LastIndexOfFrom(s: string, c: char, from: int): (r: int)
    requires -1 <= from < |s|
    ensures -1 <= r <= from
    decreases from + 1
  {
    if from < 0 then -1
    else if s[from] == c then from
    else LastIndexOfFrom(s, c, from - 1)
  }

  /** The index found holds `c`, and no index after it up to `from` does. */
  lemma {:induction false} LastIndexOfFromSpec(s: string, c: char, from: int)
    requires -1 <= from < |s|
    ensures var r := LastIndexOfFrom(s, c, from);
      && (r >= 0 ==> s[r] == c)
      && forall j :: r < j <= from ==> s[j] != c
    decreases from + 1
  {
    if from >= 0 && s[from] != c {
      LastIndexOfFromSpec(s, c, from - 1);
    }
  }

  /** `s.LastIndexOf(c)`. */
  function LastIndexOf(s: string, c: char): (r: int)
    ensures -1 <= r < |s|
  {
    LastIndexOfFrom(s, c, |s| - 1)
  }

  /** The last occurrence of `c` in `s`, or -1 when `c` does not occur. */
  lemma LastIndexOfSpec(s: string, c: char)
    ensures var r := LastIndexOf(s, c);
      && (r >= 0 ==> s[r] == c)
      && forall j :: r < j < |s| ==> s[j] != c
  {
    LastIndexOfFromSpec(s, c, |s| - 1);
  }
}
