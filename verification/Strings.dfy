/** The string searches of the standard library that the runfiles code uses. */
module Strings {
  import opened Options

  /** find(c, from) */
  function Find(s: string, c: char, from: nat): (i: Option<nat>)
    ensures i.Some? ==> from <= i.value < |s| && s[i.value] == c && forall j | from <= j < i.value :: s[j] != c
    ensures i.None? ==> forall j | from <= j < |s| :: s[j] != c
    decreases |s| - from
  {
    if from >= |s| then None else if s[from] == c then Some(from) else Find(s, c, from + 1)
  }

  lemma FindIs(s: string, c: char, from: nat, i: nat)
    requires from <= i < |s| && s[i] == c && c !in s[from..i]
    ensures Find(s, c, from) == Some(i)
  {
    forall j | from <= j < i ensures s[j] != c {
      assert s[from..i][j - from] == s[j];
    }
  }

  /** find_last_of(c, end - 1) */
  function FindLast(s: string, c: char, end: nat): (i: Option<nat>)
    requires end <= |s|
    ensures i.Some? ==> i.value < end && s[i.value] == c && forall j | i.value < j < end :: s[j] != c
    ensures i.None? ==> forall j | 0 <= j < end :: s[j] != c
  {
    if end == 0 then None else if s[end - 1] == c then Some(end - 1) else FindLast(s, c, end - 1)
  }

  predicate StartsWith(s: string, p: string) {
    |p| <= |s| && s[..|p|] == p
  }

  predicate EndsWith(s: string, p: string) {
    |p| <= |s| && s[|s| - |p|..] == p
  }

  predicate HasAt(s: string, i: nat, p: string) {
    i + |p| <= |s| && s[i..i + |p|] == p
  }

  predicate Contains(s: string, p: string) {
    exists i | 0 <= i <= |s| :: HasAt(s, i, p)
  }
}
