/** The runfiles library of cc/runfiles/runfiles.cc: escaped manifests, the prefix search of RlocationUnchecked, and
    Rlocation on top of it and of the repository mapping. */
module Runfiles {
  import opened Options
  import RepoMapping
  import RepoMappingFile
  import opened Strings

  // ---------------------------------------------------------------- escaping

  function UnescapeSpec(p: string): string
    decreases |p|
  {
    if p == "" then ""
    else if p[0] == '\\' && |p| > 1 then
      (if p[1] == 's' then " " else if p[1] == 'n' then "\n" else if p[1] == 'b' then "\\" else p[..2]) +
      UnescapeSpec(p[2..])
    else [p[0]] + UnescapeSpec(p[1..])
  }

  /** What one pair or one character contributes. */
  lemma UnescapeStep(path: string, i: nat)
    requires i < |path|
    ensures path[i] == '\\' && i + 1 < |path| ==>
              UnescapeSpec(path[i..]) ==
              (if path[i + 1] == 's' then [' '] else if path[i + 1] == 'n' then ['\n']
               else if path[i + 1] == 'b' then ['\\'] else [path[i], path[i + 1]]) + UnescapeSpec(path[i + 2..])
    ensures !(path[i] == '\\' && i + 1 < |path|) ==>
              UnescapeSpec(path[i..]) == [path[i]] + UnescapeSpec(path[i + 1..])
  {
    var p := path[i..];
    assert p[1..] == path[i + 1..];
    if i + 1 < |path| {
      assert p[2..] == path[i + 2..] && p[..2] == [path[i], path[i + 1]];
    }
  }

  /** Unescape: replaces \s, \n and \b, and keeps any other pair and a lone last backslash. */
  method Unescape(path: string) returns (result: string)
    ensures result == UnescapeSpec(path)
  {
    hide UnescapeSpec;
    result := "";
    var i := 0;
    assert path[0..] == path;
    while i < |path|
      invariant i <= |path|
      invariant UnescapeSpec(path) == result + UnescapeSpec(path[i..])
      decreases |path| - i
    {
      UnescapeStep(path, i);
      if path[i] == '\\' && i + 1 < |path| {
        match path[i + 1] {
          case 's' => result := result + [' '];
          case 'n' => result := result + ['\n'];
          case 'b' => result := result + ['\\'];
          case _ => result := result + [path[i], path[i + 1]];
        }
        i := i + 2;
      } else {
        result := result + [path[i]];
        i := i + 1;
      }
    }
    UnescapeNothing(path[i..]);
  }

  lemma UnescapeNothing(p: string)
    requires |p| == 0
    ensures UnescapeSpec(p) == ""
  {
  }

  function Escape(s: string): string {
    if s == "" then ""
    else
      (if s[0] == ' ' then "\\s" else if s[0] == '\n' then "\\n" else if s[0] == '\\' then "\\b" else [s[0]]) +
      Escape(s[1..])
  }

  /** Unescape inverts the escaping, and escaped text has no spaces or line ends. */
  lemma {:induction false} EscapeRoundTrip(s: string)
    ensures UnescapeSpec(Escape(s)) == s
    ensures ' ' !in Escape(s) && '\n' !in Escape(s)
  {
    if s != "" {
      EscapeRoundTrip(s[1..]);
      var head := if s[0] == ' ' then "\\s" else if s[0] == '\n' then "\\n" else if s[0] == '\\' then "\\b" else [s[0]];
      assert Escape(s) == head + Escape(s[1..]) && (head + Escape(s[1..]))[|head|..] == Escape(s[1..]);
      assert s == [s[0]] + s[1..];
    }
  }

  // ---------------------------------------------------------------- the manifest

  /** One line: None for a bad entry. */
  function ParseLine(line: string): Option<(string, string)>
    requires line != ""
  {
    if line[0] == ' ' then
      match Find(line, ' ', 1)
      case None => None
      case Some(i) => Some((UnescapeSpec(line[1..i]), UnescapeSpec(line[i + 1..])))
    else
      match Find(line, ' ', 0)
      case None => None
      case Some(i) => Some((line[..i], line[i + 1..]))
  }

  /** Lines up to the first empty one; a later line for the same source replaces an earlier one. */
  function ParseSpec(lines: seq<string>, m: map<string, string>): Option<map<string, string>>
    decreases |lines|
  {
    if lines == [] || lines[0] == "" then Some(m)
    else
      match ParseLine(lines[0])
      case None => None
      case Some((source, target)) => ParseSpec(lines[1..], m[source := target])
  }

  /** ParseManifest on the lines of the file. */
  method ParseManifest(lines: seq<string>) returns (result: Option<map<string, string>>)
    ensures result == ParseSpec(lines, map[])
  {
    var m := map[];
    var n := 0;
    while n < |lines| && lines[n] != ""
      invariant n <= |lines|
      invariant ParseSpec(lines, map[]) == ParseSpec(lines[n..], m)
    {
      var line := lines[n];
      var source, target;
      if line[0] == ' ' {
        var idx := Find(line, ' ', 1);
        if idx.None? {
          return None;
        }
        source := Unescape(line[1..idx.value]);
        target := Unescape(line[idx.value + 1..]);
      } else {
        var idx := Find(line, ' ', 0);
        if idx.None? {
          return None;
        }
        source, target := line[..idx.value], line[idx.value + 1..];
      }
      assert lines[n..][1..] == lines[n + 1..];
      m := m[source := target];
      n := n + 1;
    }
    result := Some(m);
  }

  /** An entry as written: escaped, or plain where that is possible. */
  datatype Entry = Entry(source: string, target: string, escaped: bool)

  predicate EntryOk(e: Entry) {
    e.escaped || (e.source != "" && ' ' !in e.source && '\n' !in e.source && '\n' !in e.target)
  }

  function Render(e: Entry): (line: string)
    ensures line != ""
  {
    if e.escaped then " " + Escape(e.source) + " " + Escape(e.target) else e.source + " " + e.target
  }

  lemma LineRoundTrip(e: Entry)
    requires EntryOk(e)
    ensures ParseLine(Render(e)) == Some((e.source, e.target))
    ensures '\n' !in Render(e)
  {
    hide Escape, UnescapeSpec, Find;
    var line := Render(e);
    if e.escaped {
      EscapeRoundTrip(e.source);
      EscapeRoundTrip(e.target);
      var i := 1 + |Escape(e.source)|;
      assert line[1..i] == Escape(e.source) && line[i + 1..] == Escape(e.target);
      FindIs(line, ' ', 1, i);
    } else {
      var i := |e.source|;
      assert line[..i] == e.source && line[i + 1..] == e.target;
      assert line[0] == e.source[0] && e.source[0] in e.source;
      FindIs(line, ' ', 0, i);
    }
  }

  function RenderAll(es: seq<Entry>): (lines: seq<string>)
    ensures |lines| == |es|
  {
    if es == [] then [] else [Render(es[0])] + RenderAll(es[1..])
  }

  function Collect(es: seq<Entry>, m: map<string, string>): map<string, string>
    decreases |es|
  {
    if es == [] then m else Collect(es[1..], m[es[0].source := es[0].target])
  }

  lemma {:induction false} LinesRoundTrip(es: seq<Entry>, rest: seq<string>, m: map<string, string>)
    requires forall e | e in es :: EntryOk(e)
    requires rest == [] || rest[0] == ""
    ensures ParseSpec(RenderAll(es) + rest, m) == Some(Collect(es, m))
    decreases |es|
  {
    hide ParseLine, Render, EntryOk;
    if es == [] {
      assert RenderAll(es) + rest == rest;
    } else {
      assert es[0] in es;
      var lines := RenderAll(es) + rest;
      LineRoundTrip(es[0]);
      assert lines[1..] == RenderAll(es[1..]) + rest;
      LinesRoundTrip(es[1..], rest, m[es[0].source := es[0].target]);
    }
  }

  /** The entries are the map's, each once. */
  predicate Lists(es: seq<Entry>, m: map<string, string>) {
    && (forall i | 0 <= i < |es| :: es[i].source in m && m[es[i].source] == es[i].target)
    && (forall k | k in m :: exists i | 0 <= i < |es| :: es[i].source == k)
  }

  lemma {:induction false} CollectIs(es: seq<Entry>, m: map<string, string>, had: map<string, string>)
    requires forall i | 0 <= i < |es| :: es[i].source in m && m[es[i].source] == es[i].target
    requires forall k | k in had :: k in m && had[k] == m[k]
    requires forall k | k in m :: k in had || exists i | 0 <= i < |es| :: es[i].source == k
    ensures Collect(es, had) == m
    decreases |es|
  {
    if es == [] {
      assert had == m;
    } else {
      var now := had[es[0].source := es[0].target];
      assert forall i | 0 <= i < |es[1..]| :: es[1..][i] == es[i + 1];
      forall k | k in m ensures k in now || exists i | 0 <= i < |es[1..]| :: es[1..][i].source == k {
        if k !in now {
          var i :| 0 <= i < |es| && es[i].source == k;
          assert es[1..][i - 1].source == k;
        }
      }
      CollectIs(es[1..], m, now);
    }
  }

  /** Round trip: every finite map, its entries rendered in any order, each escaped or (where possible) plain, and
      followed by anything after an empty line, parses back to the same map. */
  lemma ManifestRoundTrip(m: map<string, string>, es: seq<Entry>, rest: seq<string>)
    requires Lists(es, m) && (forall e | e in es :: EntryOk(e)) && (rest == [] || rest[0] == "")
    ensures ParseSpec(RenderAll(es) + rest, map[]) == Some(m)
  {
    LinesRoundTrip(es, rest, map[]);
    CollectIs(es, m, map[]);
  }

  // ---------------------------------------------------------------- the prefix search

  /** find_last_of('/', prefix_end - 1): an end of 0 wraps round and searches the whole path. */
  function NextEnd(path: string, end: nat): Option<nat>
    requires end <= |path|
  {
    FindLast(path, '/', if end == 0 then |path| else end)
  }

  /** The longest prefix of path[..end] that is bounded by a slash and listed. */
  function LongestListed(files: map<string, string>, path: string, end: nat): (i: Option<nat>)
    requires end <= |path|
    ensures i.Some? ==> i.value < end && path[i.value] == '/' && path[..i.value] in files
    ensures forall j | 0 <= j < end && path[j] == '/' && path[..j] in files :: i.Some? && j <= i.value
  {
    if end == 0 then None
    else if path[end - 1] == '/' && path[..end - 1] in files then Some(end - 1)
    else LongestListed(files, path, end - 1)
  }

  /** What RlocationUnchecked returns, if it returns. */
  function Located(files: map<string, string>, directory: string, path: string): string {
    if path in files then files[path]
    else
      match LongestListed(files, path, |path|)
      case Some(i) => files[path[..i]] + "/" + path[i + 1..]
      case None => if directory != "" then directory + "/" + path else ""
  }

  /** Exactly when the search ends: a path that starts with a slash must be listed, or have a listed prefix. */
  predicate Ends(files: map<string, string>, path: string) {
    path == "" || path[0] != '/' || path in files || files == map[] || LongestListed(files, path, |path|).Some?
  }

  /** RlocationUnchecked */
  method RlocationUnchecked(path: string, files: map<string, string>, directory: string) returns (r: string)
    requires Ends(files, path)
    ensures r == Located(files, directory, path)
  {
    if path in files {
      return files[path];
    }
    if files != map[] {
      var end := |path|;
      var next := NextEnd(path, end);
      while next.Some?
        invariant 0 <= end <= |path| && next == NextEnd(path, end) && (end == 0 ==> path == "")
        invariant LongestListed(files, path, |path|) == LongestListed(files, path, end)
        decreases end
      {
        SkipsToSlash(files, path, end, next.value);
        end := next.value;
        var prefix := path[..end];
        if prefix in files {
          return files[prefix] + "/" + path[end + 1..];
        }
        next := NextEnd(path, end);
      }
      SkipsAll(files, path, end);
    }
    if directory != "" {
      return directory + "/" + path;
    }
    return "";
  }

  lemma {:induction false} SkipsToSlash(files: map<string, string>, path: string, end: nat, i: nat)
    requires i < end <= |path| && path[i] == '/' && forall j | i < j < end :: path[j] != '/'
    ensures LongestListed(files, path, end) ==
            if path[..i] in files then Some(i) else LongestListed(files, path, i)
    decreases end
  {
    if i < end - 1 {
      SkipsToSlash(files, path, end - 1, i);
    }
  }

  lemma {:induction false} SkipsAll(files: map<string, string>, path: string, end: nat)
    requires end <= |path| && forall j | 0 <= j < end :: path[j] != '/'
    ensures LongestListed(files, path, end) == None
    decreases end
  {
    if end > 0 {
      SkipsAll(files, path, end - 1);
    }
  }

  /** The loop is still running after n iterations from `end`. */
  predicate StillRunning(files: map<string, string>, path: string, end: nat, n: nat)
    requires end <= |path|
    decreases n
  {
    n == 0 ||
    match NextEnd(path, end)
    case None => false
    case Some(i) => path[..i] !in files && StillRunning(files, path, i, n - 1)
  }

  lemma {:induction false} RunsOn(files: map<string, string>, path: string, end: nat, n: nat)
    requires end <= |path| && path != "" && path[0] == '/' && LongestListed(files, path, |path|).None?
    ensures StillRunning(files, path, end, n)
    decreases n
  {
    if n > 0 {
      var i := NextEnd(path, end);
      assert i.Some?;
      RunsOn(files, path, i.value, n - 1);
    }
  }

  lemma {:induction false} RunsOut(files: map<string, string>, path: string, end: nat)
    requires 0 < end <= |path| && (path[0] != '/' || LongestListed(files, path, end).Some?)
    ensures !StillRunning(files, path, end, end + 1)
    decreases end
  {
    var i := NextEnd(path, end);
    if i.Some? {
      SkipsToSlash(files, path, end, i.value);
      if path[..i.value] !in files {
        assert LongestListed(files, path, end) == LongestListed(files, path, i.value);
        RunsOut(files, path, i.value);
        RunsLess(files, path, i.value, i.value + 1, end);
      }
    }
  }

  lemma {:induction false} RunsLess(files: map<string, string>, path: string, end: nat, n: nat, more: nat)
    requires end <= |path| && n <= more && !StillRunning(files, path, end, n)
    ensures !StillRunning(files, path, end, more)
    decreases n
  {
    var i := NextEnd(path, end);
    assert n > 0;
    if i.Some? && path[..i.value] !in files {
      RunsLess(files, path, i.value, n - 1, more - 1);
    }
  }

  /** The search over a path that is not listed runs for ever exactly when the path starts with a slash and no prefix
      of it is listed: at prefix_end 0 the next search starts again from the end. */
  lemma RunsForEverIff(files: map<string, string>, path: string)
    requires path !in files && files != map[]
    ensures (forall n: nat :: StillRunning(files, path, |path|, n)) <==> !Ends(files, path)
  {
    if Ends(files, path) {
      if path == "" {
        assert !StillRunning(files, path, 0, 1);
      } else {
        RunsOut(files, path, |path|);
      }
    } else {
      forall n: nat ensures StillRunning(files, path, |path|, n) {
        RunsOn(files, path, |path|, n);
      }
    }
  }

  // ---------------------------------------------------------------- Rlocation

  /** Paths that Rlocation refuses. */
  predicate Refused(path: string) {
    || path == "" || StartsWith(path, "../") || Contains(path, "/..") || StartsWith(path, "./")
    || Contains(path, "/./") || EndsWith(path, "/.") || Contains(path, "//")
  }

  predicate IsAbsolute(path: string) {
    path != "" &&
    ((path[0] == '/' && (|path| < 2 || path[1] != '/')) ||
     (|path| >= 3 && ('a' <= path[0] <= 'z' || 'A' <= path[0] <= 'Z') && path[1] == ':' &&
      (path[2] == '\\' || path[2] == '/')))
  }

  /** The entry of the mapping that replaces the first part of the path. */
  function Selected(mapping: seq<RepoMapping.Entry>, path: string, source: string): (i: Option<nat>)
    ensures i.Some? ==> i.value < |mapping| && Find(path, '/', 0).Some?
  {
    match Find(path, '/', 0)
    case None => None
    case Some(slash) => RepoMapping.Lookup(mapping, path[..slash], source)
  }

  /** The path that is looked up once the apparent repository name has been replaced. */
  function Resolved(mapping: seq<RepoMapping.Entry>, path: string, source: string): string {
    match Selected(mapping, path, source)
    case None => path
    case Some(i) => mapping[i].value + path[Find(path, '/', 0).value..]
  }

  /** A path that Rlocation does not answer at once does not begin with a slash. */
  lemma SearchedIsRelative(path: string)
    requires !Refused(path) && !IsAbsolute(path)
    ensures path != "" && path[0] != '/'
  {
    if path[0] == '/' {
      assert path[1] == '/';
      assert path[0..2] == "//" && HasAt(path, 0, "//");
      assert Contains(path, "//");
    }
  }

  /** A slash-bounded prefix of the path is listed. */
  predicate HasListedPrefix(files: map<string, string>, path: string) {
    exists j | 0 <= j < |path| && path[j] == '/' :: path[..j] in files
  }

  lemma EndsIff(files: map<string, string>, path: string)
    ensures Ends(files, path) <==>
            path == "" || path[0] != '/' || path in files || files == map[] || HasListedPrefix(files, path)
  {
    var i := LongestListed(files, path, |path|);
    if i.Some? {
      assert path[i.value] == '/' && path[..i.value] in files;
    }
  }

  /** The search that Rlocation begins ends if and only if the mapping does not select an entry for the path, or the
      name in that entry is not empty and does not begin with a slash, or the resolved path or a prefix of it is listed
      (or nothing is listed at all). */
  lemma RlocationEndsIff(files: map<string, string>, mapping: seq<RepoMapping.Entry>, path: string, source: string)
    requires !Refused(path) && !IsAbsolute(path)
    ensures Ends(files, Resolved(mapping, path, source)) <==>
            match Selected(mapping, path, source)
            case None => true
            case Some(i) =>
              || (mapping[i].value != "" && mapping[i].value[0] != '/')
              || files == map[] || Resolved(mapping, path, source) in files
              || HasListedPrefix(files, Resolved(mapping, path, source))
  {
    SearchedIsRelative(path);
    EndsIff(files, Resolved(mapping, path, source));
  }

  /** Such a search: for "t/x", with the line "s,t," in the mapping file and some other file listed. */
  lemma RlocationMayNotEnd(mapping: seq<RepoMapping.Entry>)
    requires RepoMapping.Sorted(mapping)
    requires forall t, s :: RepoMappingFile.Value(mapping, t, s) == RepoMappingFile.LastValue(["s,t,"], t, s)
    ensures !Refused("t/x") && !IsAbsolute("t/x") && Resolved(mapping, "t/x", "s") == "/x"
    ensures !Ends(map["a" := "b"], "/x") && forall n: nat :: StillRunning(map["a" := "b"], "/x", 2, n)
  {
    NotRefused();
    OneLine();
    RepoMappingFile.LastLineIsUsed(["s,t,"], mapping, "t", "s");
    FindIs("t/x", '/', 0, 1);
    assert "t/x"[..1] == "t" && "t/x"[1..] == "/x" && "" + "/x" == "/x";
    assert "/x"[..0] == "" != "a";
    EndsIff(map["a" := "b"], "/x");
    assert "a" in map["a" := "b"] && |"/x"| != |"a"|;
    RunsForEverIff(map["a" := "b"], "/x");
  }

  /** The mapping with just that entry is such a mapping. */
  lemma MappingOfOneLine()
    ensures var mapping := [RepoMapping.Entry("t", "s", "")];
            && RepoMapping.Sorted(mapping)
            && (forall t, s :: RepoMappingFile.Value(mapping, t, s) == RepoMappingFile.LastValue(["s,t,"], t, s))
            && Resolved(mapping, "t/x", "s") == "/x" && !Ends(map["a" := "b"], "/x")
  {
    hide Ends, Resolved, Refused, IsAbsolute, StillRunning;
    var e := RepoMapping.Entry("t", "s", "");
    assert RepoMappingFile.Line(e) == "s,t,";
    RepoMappingFile.LineIsReadIff(e);
    assert ["s,t,"][..0] == [] && [e][1..] == [];
    RlocationMayNotEnd([e]);
  }

  lemma OneLine()
    ensures RepoMappingFile.LastValue(["s,t,"], "t", "s") == Some("")
  {
    var e := RepoMapping.Entry("t", "s", "");
    assert RepoMappingFile.Line(e) == "s,t,";
    RepoMappingFile.LineIsReadIff(e);
  }

  lemma NoPart(path: string, p: string)
    requires |p| > 1 && forall i | 0 <= i <= |path| - |p| :: path[i] != p[0] || path[i + 1] != p[1]
    ensures !Contains(path, p)
  {
    forall i | 0 <= i <= |path| ensures !HasAt(path, i, p) {
      if i + |p| <= |path| {
        assert path[i..i + |p|][0] == path[i] && path[i..i + |p|][1] == path[i + 1];
      }
    }
  }

  lemma NotRefused()
    ensures !Refused("t/x") && !IsAbsolute("t/x")
  {
    var path := "t/x";
    assert path[0] == 't' && path[1] == '/' && path[2] == 'x';
    NoPart(path, "/..");
    NoPart(path, "/./");
    NoPart(path, "//");
    assert path[1..] != "/." by { assert path[1..][1] != "/."[1]; }
    assert path[..2] != "./" by { assert path[..2][0] != "./"[0]; }
    assert path[..3] != "../" by { assert path[..3][0] != "../"[0]; }
  }

  class Runfiles {
    const files: map<string, string>
    const directory: string
    const mapping: seq<RepoMapping.Entry>

    constructor (files: map<string, string>, directory: string, mapping: seq<RepoMapping.Entry>)
      ensures this.files == files && this.directory == directory && this.mapping == mapping
    {
      this.files, this.directory, this.mapping := files, directory, mapping;
    }

    /** Rlocation with an explicit source repository. */
    method Rlocation(path: string, source: string) returns (r: string)
      requires !Refused(path) && !IsAbsolute(path) ==> Ends(files, Resolved(mapping, path, source))
      ensures r == if Refused(path) then "" else if IsAbsolute(path) then path
                   else Located(files, directory, Resolved(mapping, path, source))
    {
      hide Located, Ends, Refused, IsAbsolute, LongestListed, RepoMapping.KeyLess, StartsWith, Find;
      if Refused(path) {
        return "";
      }
      if IsAbsolute(path) {
        return path;
      }
      var slash := Find(path, '/', 0);
      if slash.None? {
        r := RlocationUnchecked(path, files, directory);
        return;
      }
      var target := path[..slash.value];
      var upper := RepoMapping.UpperBound(mapping, target, source);
      var floor := if upper == 0 then upper else upper - 1;
      if floor == |mapping| {
        r := RlocationUnchecked(path, files, directory);
        return;
      }
      var e := mapping[floor];
      if e.target == target && e.source == source {
        r := RlocationUnchecked(e.value + path[slash.value..], files, directory);
        return;
      }
      if e.target == target && RepoMapping.EndsInStar(e.source) &&
         StartsWith(source, e.source[..|e.source| - 1]) {
        r := RlocationUnchecked(e.value + path[slash.value..], files, directory);
        return;
      }
      r := RlocationUnchecked(path, files, directory);
    }

    /** A search started by Rlocation can only fail to end if the mapping names a target that is empty or starts with
        a slash. */
    lemma RlocationEnds(path: string, source: string)
      requires !Refused(path) && !IsAbsolute(path)
      requires forall i | 0 <= i < |mapping| :: mapping[i].value != "" && mapping[i].value[0] != '/'
      ensures Ends(files, Resolved(mapping, path, source))
    {
      SearchedIsRelative(path);
    }
  }
}
