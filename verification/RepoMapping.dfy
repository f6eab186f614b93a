/** The repository-mapping lookup of Runfiles::Rlocation in cc/runfiles/runfiles.cc: one floor search in a map sorted
    by (target, source), in which a source ending in '*' stands for every source with that prefix. */
module RepoMapping {
  import opened Options
  import opened Strings

  /** An entry of the map: its key is (target, source). */
  datatype Entry = Entry(target: string, source: string, value: string)

  // ---------------------------------------------------------------- the order of strings and of keys

  predicate Less(a: string, b: string) {
    if b == "" then false
    else if a == "" then true
    else a[0] < b[0] || (a[0] == b[0] && Less(a[1..], b[1..]))
  }

  predicate KeyLess(t: string, s: string, u: string, r: string) {
    Less(t, u) || (t == u && Less(s, r))
  }

  lemma {:induction false} LessTotal(a: string, b: string)
    ensures Less(a, b) || a == b || Less(b, a)
    ensures !(Less(a, b) && Less(b, a)) && !(Less(a, b) && a == b)
    decreases |a|
  {
    if a != "" && b != "" {
      LessTotal(a[1..], b[1..]);
      assert a == [a[0]] + a[1..] && b == [b[0]] + b[1..];
    }
  }

  lemma {:induction false} LessTransitive(a: string, b: string, c: string)
    requires Less(a, b) && Less(b, c)
    ensures Less(a, c)
    decreases |a|
  {
    if a != "" && a[0] == b[0] == c[0] {
      LessTransitive(a[1..], b[1..], c[1..]);
    }
  }

  /** Strictly increasing keys. */
  ghost predicate Sorted(m: seq<Entry>) {
    forall i, j | 0 <= i < j < |m| :: KeyLess(m[i].target, m[i].source, m[j].target, m[j].source)
  }

  // ---------------------------------------------------------------- the code

  /** The position of the smallest entry that is greater than (t, s). */
  function UpperBound(m: seq<Entry>, t: string, s: string): (i: nat)
    ensures i <= |m|
    ensures forall j | 0 <= j < i :: !KeyLess(t, s, m[j].target, m[j].source)
    ensures i < |m| ==> KeyLess(t, s, m[i].target, m[i].source)
  {
    if m == [] || KeyLess(t, s, m[0].target, m[0].source) then 0
    else
      var rest := UpperBound(m[1..], t, s);
      assert forall j | 0 < j < |m| :: m[j] == m[1..][j - 1];
      1 + rest
  }

  predicate EndsInStar(s: string) {
    s != "" && s[|s| - 1] == '*'
  }

  /** The entry applies to the source by its wildcard. */
  predicate Matches(e: Entry, t: string, s: string) {
    e.target == t && EndsInStar(e.source) && StartsWith(s, e.source[..|e.source| - 1])
  }

  /** The wildcard p* applies to p and to everything that p begins, for its own target; other entries to nothing. */
  lemma MatchesIff(e: Entry, t: string, s: string)
    ensures Matches(e, t, s) <==> e.target == t && exists p, rest :: e.source == p + "*" && s == p + rest
  {
    if Matches(e, t, s) {
      var p := e.source[..|e.source| - 1];
      assert e.source == p + "*" && s == p + s[|p|..];
    }
    if e.target == t && exists p, rest :: e.source == p + "*" && s == p + rest {
      var p, rest :| e.source == p + "*" && s == p + rest;
      assert e.source[..|e.source| - 1] == p && s[..|p|] == p;
    }
  }

  /** The entry that Rlocation uses for an apparent target and a source repository, if any. */
  function Lookup(m: seq<Entry>, t: string, s: string): (i: Option<nat>)
    ensures i.Some? ==> i.value < |m|
  {
    var upper := UpperBound(m, t, s);
    var floor := if upper == 0 then upper else upper - 1;
    if floor == |m| then None
    else if m[floor].target == t && m[floor].source == s then Some(floor)
    else if Matches(m[floor], t, s) then Some(floor)
    else None
  }

  // ---------------------------------------------------------------- the rule

  predicate HasExact(m: seq<Entry>, t: string, s: string) {
    exists i | 0 <= i < |m| :: m[i].target == t && m[i].source == s
  }

  predicate HasMatch(m: seq<Entry>, t: string, s: string) {
    exists i | 0 <= i < |m| :: Matches(m[i], t, s)
  }

  /** Entry i is the exact one or, without one, the wildcard with the longest prefix. */
  predicate Rule(m: seq<Entry>, t: string, s: string, i: nat)
    requires i < |m|
  {
    if HasExact(m, t, s) then m[i].target == t && m[i].source == s
    else Matches(m[i], t, s) && forall j | 0 <= j < |m| && Matches(m[j], t, s) :: |m[j].source| <= |m[i].source|
  }

  /** Some entry for the target lies strictly between the wildcard and the source. */
  predicate Shadowed(m: seq<Entry>, t: string, s: string, i: nat)
    requires i < |m|
  {
    exists j | 0 <= j < |m| :: m[j].target == t && Less(m[i].source, m[j].source) && Less(m[j].source, s)
  }

  /** Names use only characters that sort after the asterisk. */
  predicate NameOk(s: string) {
    forall i | 0 <= i < |s| :: s[i] > '*'
  }

  // ---------------------------------------------------------------- wildcards and the order

  lemma {:induction false} WildcardBefore(p: string, s: string)
    requires NameOk(s) && StartsWith(s, p)
    ensures if p == s then Less(s, p + "*") else Less(p + "*", s)
    decreases |p|
  {
    if p != "" {
      assert (p + "*")[1..] == p[1..] + "*";
      assert s[1..][..|p| - 1] == p[1..];
      WildcardBefore(p[1..], s[1..]);
    }
  }

  /** What lies between a wildcard and a source that it matches starts with the wildcard's prefix. */
  lemma {:induction false} BetweenSharesPrefix(p: string, x: string, s: string)
    requires Less(p + "*", x) && Less(x, s) && StartsWith(s, p)
    ensures StartsWith(x, p)
    decreases |p|
  {
    if p != "" {
      assert (p + "*")[1..] == p[1..] + "*";
      assert s[1..][..|p| - 1] == p[1..];
      assert x != "" && x[0] == p[0];
      BetweenSharesPrefix(p[1..], x[1..], s[1..]);
      assert x[..|p|] == [x[0]] + x[1..][..|p| - 1] && p == [p[0]] + p[1..];
    }
  }

  lemma StarSplits(e: Entry)
    requires EndsInStar(e.source)
    ensures e.source == e.source[..|e.source| - 1] + "*"
  {
  }

  /** Of two wildcards that match the same name, the longer comes later. */
  lemma LongerComesLater(p: string, q: string, s: string)
    requires NameOk(s) && StartsWith(s, p) && StartsWith(s, q) && |p| < |q|
    ensures Less(p + "*", q + "*")
  {
    LongerIsGreater(p, q);
  }

  lemma {:induction false} LongerIsGreater(p: string, q: string)
    requires |p| < |q| && q[..|p|] == p && q[|p|] > '*'
    ensures Less(p + "*", q + "*")
    decreases |p|
  {
    if p != "" {
      assert (p + "*")[1..] == p[1..] + "*" && (q + "*")[1..] == q[1..] + "*";
      assert q[1..][..|p| - 1] == p[1..];
      LongerIsGreater(p[1..], q[1..]);
    }
  }

  // ---------------------------------------------------------------- floor search

  /** An entry not above the key, with none of the entries above it also not above the key, is the floor. */
  lemma FloorIs(m: seq<Entry>, t: string, s: string, i: nat)
    requires Sorted(m) && i < |m|
    requires !KeyLess(t, s, m[i].target, m[i].source)
    requires forall j | i < j < |m| :: KeyLess(t, s, m[j].target, m[j].source)
    ensures UpperBound(m, t, s) == i + 1
  {
    var u := UpperBound(m, t, s);
    if u < i + 1 {
      KeyTransitive(t, s, m[u], m[i]);
    }
  }

  lemma KeyTransitive(t: string, s: string, e: Entry, f: Entry)
    requires KeyLess(t, s, e.target, e.source) && (e == f || KeyLess(e.target, e.source, f.target, f.source))
    ensures KeyLess(t, s, f.target, f.source)
  {
    if e != f {
      if Less(t, e.target) && Less(e.target, f.target) {
        LessTransitive(t, e.target, f.target);
      } else if t == e.target == f.target {
        LessTransitive(s, e.source, f.source);
      }
    }
  }

  lemma KeyOrder(t: string, s: string, e: Entry)
    ensures KeyLess(t, s, e.target, e.source) || KeyLess(e.target, e.source, t, s) || (t == e.target && s == e.source)
    ensures !(KeyLess(t, s, e.target, e.source) && KeyLess(e.target, e.source, t, s))
    ensures t == e.target && s == e.source ==> !KeyLess(t, s, e.target, e.source)
  {
    LessTotal(t, e.target);
    LessTotal(s, e.source);
  }

  lemma ExactIsFound(m: seq<Entry>, t: string, s: string, i: nat)
    requires Sorted(m) && i < |m| && m[i].target == t && m[i].source == s
    ensures Lookup(m, t, s) == Some(i)
  {
    KeyOrder(t, s, m[i]);
    FloorIs(m, t, s, i);
  }

  /** The wildcard with the longest prefix, shorter than the source, is found exactly when nothing shadows it. */
  lemma WildcardFoundIff(m: seq<Entry>, t: string, s: string, i: nat)
    requires Sorted(m) && NameOk(s) && i < |m| && !HasExact(m, t, s) && Rule(m, t, s, i)
    requires m[i].source != s + "*"
    ensures Lookup(m, t, s) == Some(i) <==> !Shadowed(m, t, s, i)
    ensures Shadowed(m, t, s, i) ==> Lookup(m, t, s) == None
  {
    var p := m[i].source[..|m[i].source| - 1];
    StarSplits(m[i]);
    assert p != s;
    WildcardBefore(p, s);
    KeyOrder(t, s, m[i]);
    if Shadowed(m, t, s, i) {
      ShadowHidesWildcard(m, t, s, i);
    } else {
      forall j | i < j < |m| ensures KeyLess(t, s, m[j].target, m[j].source) {
        AboveUnshadowed(m, t, s, i, j);
      }
      FloorIs(m, t, s, i);
    }
  }

  lemma AboveUnshadowed(m: seq<Entry>, t: string, s: string, i: nat, j: nat)
    requires Sorted(m) && i < j < |m| && m[i].target == t && !HasExact(m, t, s) && !Shadowed(m, t, s, i)
    ensures KeyLess(t, s, m[j].target, m[j].source)
  {
    assert KeyLess(m[i].target, m[i].source, m[j].target, m[j].source);
    KeyOrder(t, s, m[j]);
    LessTotal(t, m[j].target);
  }

  lemma ShadowHidesWildcard(m: seq<Entry>, t: string, s: string, i: nat)
    requires Sorted(m) && NameOk(s) && i < |m| && !HasExact(m, t, s) && Rule(m, t, s, i) && Shadowed(m, t, s, i)
    ensures Lookup(m, t, s) == None
  {
    var j :| 0 <= j < |m| && m[j].target == t && Less(m[i].source, m[j].source) && Less(m[j].source, s);
    var u := UpperBound(m, t, s);
    KeyOrder(t, s, m[j]);
    if u <= j {
      if u < j {
        KeyTransitive(t, s, m[u], m[j]);
      }
      assert false;
    }
    var floor := u - 1;
    if floor > j {
      assert KeyLess(m[j].target, m[j].source, m[floor].target, m[floor].source);
      LessTotal(t, m[floor].target);
      if m[floor].target == t {
        LessTransitive(m[i].source, m[j].source, m[floor].source);
      }
    }
    if Matches(m[floor], t, s) {
      NoLaterMatch(m, t, s, i, floor);
    }
  }

  /** An entry above the longest matching wildcard does not match. */
  lemma NoLaterMatch(m: seq<Entry>, t: string, s: string, i: nat, j: nat)
    requires NameOk(s) && i < |m| && j < |m| && !HasExact(m, t, s) && Rule(m, t, s, i)
    requires m[j].target == t && Less(m[i].source, m[j].source)
    ensures !Matches(m[j], t, s)
  {
    if Matches(m[j], t, s) {
      var p, q := m[i].source[..|m[i].source| - 1], m[j].source[..|m[j].source| - 1];
      StarSplits(m[i]);
      StarSplits(m[j]);
      assert |q| <= |p| && s[..|p|] == p && s[..|q|] == q;
      if |q| < |p| {
        LongerComesLater(q, p, s);
      }
      LessTotal(m[i].source, m[j].source);
    }
  }

  /** A wildcard whose prefix is the whole source sorts after it, and is found exactly when it is the very first entry
      of the map: the search then has nothing smaller to fall back on. */
  lemma BareWildcardFoundIff(m: seq<Entry>, t: string, s: string, i: nat)
    requires Sorted(m) && NameOk(s) && i < |m| && !HasExact(m, t, s) && Rule(m, t, s, i)
    requires m[i].source == s + "*"
    ensures Lookup(m, t, s) == Some(i) <==> i == 0
  {
    assert s[..|s|] == s;
    WildcardBefore(s, s);
    KeyOrder(t, s, m[i]);
    assert UpperBound(m, t, s) <= i;
  }

  lemma NoMatchNoEntry(m: seq<Entry>, t: string, s: string)
    requires !HasExact(m, t, s) && !HasMatch(m, t, s)
    ensures Lookup(m, t, s) == None
  {
  }

  /** When the search follows the rule, for every sorted map, target and source name: always if there is an exact
      entry or no wildcard matches; else, for the longest matching wildcard i, if its prefix is shorter than the
      source and nothing shadows it, or if its prefix is the source and it is the first entry. */
  lemma LookupFollowsRuleIff(m: seq<Entry>, t: string, s: string, i: nat)
    requires Sorted(m) && NameOk(s)
    requires HasExact(m, t, s) || HasMatch(m, t, s) ==> i < |m| && Rule(m, t, s, i)
    ensures (Lookup(m, t, s) == if HasExact(m, t, s) || HasMatch(m, t, s) then Some(i) else None) <==>
            (HasExact(m, t, s) || !HasMatch(m, t, s) ||
             (if m[i].source == s + "*" then i == 0 else !Shadowed(m, t, s, i)))
  {
    if HasExact(m, t, s) {
      ExactIsFound(m, t, s, i);
    } else if !HasMatch(m, t, s) {
      NoMatchNoEntry(m, t, s);
    } else if m[i].source == s + "*" {
      BareWildcardFoundIff(m, t, s, i);
    } else {
      WildcardFoundIff(m, t, s, i);
    }
  }

  /** In particular the search follows the rule when no other entry for the target starts with the wildcard's prefix
      and the source is not that prefix itself. */
  lemma LookupFollowsRule(m: seq<Entry>, t: string, s: string, i: nat)
    requires Sorted(m) && NameOk(s) && i < |m| && Rule(m, t, s, i)
    requires !HasExact(m, t, s) ==>
               m[i].source != s + "*" &&
               forall j | 0 <= j < |m| && j != i && m[j].target == t ::
                 !StartsWith(m[j].source, m[i].source[..|m[i].source| - 1])
    ensures Lookup(m, t, s) == Some(i)
  {
    if HasExact(m, t, s) {
      ExactIsFound(m, t, s, i);
    } else {
      StarSplits(m[i]);
      if Shadowed(m, t, s, i) {
        var j :| 0 <= j < |m| && m[j].target == t && Less(m[i].source, m[j].source) && Less(m[j].source, s);
        LessTotal(m[i].source, m[j].source);
        BetweenSharesPrefix(m[i].source[..|m[i].source| - 1], m[j].source, s);
      }
      WildcardFoundIff(m, t, s, i);
    }
  }

  /** A map that hides a wildcard: for the source "e+b", the entry of "e+a" stands between it and "e+*". */
  lemma ShadowingExample()
    ensures var m := [Entry("t", "e+*", "x"), Entry("t", "e+a", "y")];
            Sorted(m) && Rule(m, "t", "e+b", 0) && Lookup(m, "t", "e+b") == None
  {
    var m := [Entry("t", "e+*", "x"), Entry("t", "e+a", "y")];
    assert Less("*", "a") && Less("+*", "+a") && Less("e+*", "e+a");
    assert Less("a", "b") && Less("+a", "+b") && Less("e+a", "e+b");
    assert "e+*"[..2] == "e+" == "e+b"[..2] && Matches(m[0], "t", "e+b") && !Matches(m[1], "t", "e+b");
    LessTotal("t", "t");
    LessTotal("e+*", "e+a");
    ShadowHidesWildcard(m, "t", "e+b", 0);
  }
}
