/**
 * The few operations of the Arduino `String` class that the web-server
 * handlers use, on `string` (a `seq<char>`).
 */
module ArduinoString {

  /** `s.endsWith(suffix)`: false when `suffix` is longer than `s`. */
  predicate EndsWith(s: string, suffix: string) {
    |suffix| <= |s| && s[|s| - |suffix|..] == suffix
  }

  /** `s.startsWith(prefix)`: false when `prefix` is longer than `s`. */
  predicate StartsWith(s: string, prefix: string) {
    |prefix| <= |s| && s[..|prefix|] == prefix
  }

  /**
   * `s.substring(left)`, that is `s.substring(left, s.length())`: the
   * characters from `left` on, and the empty string when `left` is at or
   * past the end.
   */
  function SubstringFrom(s: string, left: nat): (r: string)
    ensures |r| == if left < |s| then |s| - left else 0
    ensures forall i :: 0 <= i < |r| ==> r[i] == s[left + i]
  {
    if left < |s| then s[left..] else ""
  }

  /** Any string ends with what was appended to it. */
  lemma EndsWithAppended(s: string, t: string)
    ensures EndsWith(s + t, t)
  {
    assert (s + t)[|s + t| - |t|..] == t;
  }

  /** When `suffix` is no longer than the appended part, only that part decides. */
  lemma EndsWithConcat(s: string, t: string, suffix: string)
    requires |suffix| <= |t|
    ensures EndsWith(s + t, suffix) <==> EndsWith(t, suffix)
  {
    assert (s + t)[|s + t| - |suffix|..] == t[|t| - |suffix|..];
  }
}
