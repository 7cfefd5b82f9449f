/** Searching character sequences; used by both implementations' name handling. */
module Text {
  import opened Common

  /** The position of the last occurrence of `c` in `s`, if any (C's `strrchr`, Rust's `rsplitn(2, ..)`). */
  function LastIndexOf(s: seq<char>, c: char): (r: Option<nat>)
    ensures r.None? <==> c !in s
    ensures r.Some? ==> r.value < |s| && s[r.value] == c && c !in s[r.value + 1..]
  {
    if s == [] then None
    else if s[|s| - 1] == c then Some(|s| - 1)
    else
      var r := LastIndexOf(s[..|s| - 1], c);
      assert s == s[..|s| - 1] + [s[|s| - 1]];
      r
  }

  /** Any position that holds `c` with no `c` after it is the one LastIndexOf finds. */
  lemma LastIndexOfUnique(s: seq<char>, c: char, i: nat)
    requires i < |s| && s[i] == c && c !in s[i + 1..]
    ensures LastIndexOf(s, c) == Some(i)
  {
  }

  /** Whether `s` ends with `suffix`. */
  predicate EndsWith(s: seq<char>, suffix: seq<char>)
  {
    |suffix| <= |s| && s[|s| - |suffix|..] == suffix
  }
}
