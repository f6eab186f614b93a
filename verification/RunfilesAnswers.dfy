/** What the lookups of cc/runfiles/runfiles.cc answer, said of the parts of the paths. */
module RunfilesAnswers {
  import opened Options
  import opened Strings
  import opened RF = Runfiles
  import RepoMapping

  // ---------------------------------------------------------------- the unchecked lookup

  lemma ListedPathIsAnswered(files: map<string, string>, directory: string, path: string)
    requires path in files
    ensures Located(files, directory, path) == files[path]
  {
  }

  /** The directory q is listed, and no longer one above q/t is. */
  predicate IsLongestAbove(files: map<string, string>, q: string, t: string) {
    q in files && forall j | |q| < j < |q + "/" + t| && (q + "/" + t)[j] == '/' :: (q + "/" + t)[..j] !in files
  }

  /** Below such a directory a path that is not listed itself is looked for there. */
  lemma BelowListedDirectory(files: map<string, string>, directory: string, q: string, t: string)
    requires q + "/" + t !in files && IsLongestAbove(files, q, t)
    ensures Located(files, directory, q + "/" + t) == files[q] + "/" + t
  {
    var path := q + "/" + t;
    assert path[|q|] == '/' && path[..|q|] == q && path[|q| + 1..] == t;
    assert LongestListed(files, path, |path|) == Some(|q|);
  }

  /** A path without anything listed that fits is looked for in the directory, if there is one. */
  lemma NothingListedFits(files: map<string, string>, directory: string, path: string)
    requires path !in files && !HasListedPrefix(files, path)
    ensures Located(files, directory, path) == if directory == "" then "" else directory + "/" + path
  {
    assert LongestListed(files, path, |path|) == None;
  }

  // ---------------------------------------------------------------- names that the mapping replaces

  /** The first part of a path is its name. */
  lemma NameIsReplaced(mapping: seq<RepoMapping.Entry>, name: string, rest: string, source: string)
    requires '/' !in name
    ensures Resolved(mapping, name + "/" + rest, source) ==
            match RepoMapping.Lookup(mapping, name, source)
            case None => name + "/" + rest
            case Some(i) => mapping[i].value + "/" + rest
  {
    var path := name + "/" + rest;
    assert path[..|name|] == name && path[|name|..] == "/" + rest && path[|name|] == '/';
    assert path[0..|name|] == name;
    FindIs(path, '/', 0, |name|);
    var i := RepoMapping.Lookup(mapping, name, source);
    assert Selected(mapping, path, source) == i;
    if i.Some? {
      assert mapping[i.value].value + "/" + rest == mapping[i.value].value + ("/" + rest);
    }
  }

  lemma NoNameNothingReplaced(mapping: seq<RepoMapping.Entry>, path: string, source: string)
    requires '/' !in path
    ensures Resolved(mapping, path, source) == path
  {
    assert Find(path, '/', 0) == None;
  }

  /** What Rlocation answers for a path whose name the mapping replaces by another: the target of that path, of the
      longest listed directory above it with the rest, or the place in the directory. */
  lemma ReplacedNameIsAnswered(files: map<string, string>, directory: string, mapping: seq<RepoMapping.Entry>,
                               name: string, rest: string, source: string, i: nat, q: string, t: string)
    requires '/' !in name && RepoMapping.Lookup(mapping, name, source) == Some(i) && i < |mapping|
    ensures var path := mapping[i].value + "/" + rest;
            var answer := Located(files, directory, Resolved(mapping, name + "/" + rest, source));
            && (path in files ==> answer == files[path])
            && (path !in files && path == q + "/" + t && IsLongestAbove(files, q, t) ==> answer == files[q] + "/" + t)
            && (path !in files && !HasListedPrefix(files, path) ==>
                  answer == if directory == "" then "" else directory + "/" + path)
  {
    hide Located, HasListedPrefix;
    var path := mapping[i].value + "/" + rest;
    NameIsReplaced(mapping, name, rest, source);
    if path in files {
      ListedPathIsAnswered(files, directory, path);
    } else {
      if path == q + "/" + t && IsLongestAbove(files, q, t) {
        BelowListedDirectory(files, directory, q, t);
      }
      if !HasListedPrefix(files, path) {
        NothingListedFits(files, directory, path);
      }
    }
  }

  // ---------------------------------------------------------------- refused and absolute paths

  lemma ContainsIff(s: string, p: string)
    ensures Contains(s, p) <==> exists a, b :: s == a + p + b
    ensures StartsWith(s, p) <==> exists b :: s == p + b
    ensures EndsWith(s, p) <==> exists a :: s == a + p
  {
    if Contains(s, p) {
      var i :| 0 <= i <= |s| && HasAt(s, i, p);
      assert s == s[..i] + p + s[i + |p|..];
    }
    if exists a, b :: s == a + p + b {
      var a, b :| s == a + p + b;
      assert s[|a|..|a| + |p|] == p;
      assert HasAt(s, |a|, p);
    }
    if StartsWith(s, p) {
      assert s == p + s[|p|..];
    }
    if EndsWith(s, p) {
      assert s == s[..|s| - |p|] + p;
    }
  }

  /** A path is refused exactly when it is empty or not in normal form. */
  lemma RefusedIff(path: string)
    ensures Refused(path) <==>
            || path == "" || (exists b :: path == "../" + b) || (exists b :: path == "./" + b)
            || (exists a, b :: path == a + "/.." + b) || (exists a, b :: path == a + "/./" + b)
            || (exists a, b :: path == a + "//" + b) || (exists a :: path == a + "/.")
  {
    hide Contains, StartsWith, EndsWith;
    ContainsIff(path, "../");
    ContainsIff(path, "./");
    ContainsIff(path, "/..");
    ContainsIff(path, "/./");
    ContainsIff(path, "//");
    ContainsIff(path, "/.");
  }

  /** A path is absolute exactly when it begins with one slash, or with a drive letter, a colon and a slash of either
      kind. */
  lemma AbsoluteIff(path: string)
    ensures IsAbsolute(path) <==>
            || (path != "" && path[0] == '/' && !(exists b :: path == "//" + b))
            || exists c, b :: ('a' <= c <= 'z' || 'A' <= c <= 'Z') &&
                              (path == [c] + ":/" + b || path == [c] + ":\\" + b)
  {
    if path != "" && path[0] == '/' && |path| >= 2 && path[1] == '/' {
      assert path == "//" + path[2..];
    }
    if |path| >= 3 && path[1] == ':' {
      if path[2] == '/' {
        assert path == [path[0]] + ":/" + path[3..];
      }
      if path[2] == '\\' {
        assert path == [path[0]] + ":\\" + path[3..];
      }
    }
  }

  // ---------------------------------------------------------------- escapes and bad lines

  /** Any pair that is not an escape, and a backslash at the end, stay as they are. */
  lemma OtherPairsStay(c: char, rest: string)
    ensures c != 's' && c != 'n' && c != 'b' ==> UnescapeSpec(['\\', c] + rest) == ['\\', c] + UnescapeSpec(rest)
    ensures UnescapeSpec("\\") == "\\"
    ensures c != '\\' ==> UnescapeSpec([c] + rest) == [c] + UnescapeSpec(rest)
  {
    var p := ['\\', c] + rest;
    assert p[2..] == rest && p[..2] == ['\\', c];
    assert ([c] + rest)[1..] == rest;
    assert "\\"[1..] == "" && UnescapeSpec("") == "";
  }

  /** A line is bad exactly when it has no space, not counting one at its start. */
  lemma BadLineIff(line: string)
    requires line != ""
    ensures ParseLine(line) == None <==> ' ' !in line[1..]
  {
    var from := if line[0] == ' ' then 1 else 0;
    var i := Find(line, ' ', from);
    if i.Some? {
      assert line[1..][i.value - 1] == ' ';
    } else {
      assert forall j | 0 <= j < |line[1..]| :: line[1..][j] == line[j + 1];
    }
  }

  /** The parser fails exactly when there is such a line before the first empty one. */
  lemma {:induction false} ManifestFailsIff(lines: seq<string>, m: map<string, string>)
    ensures ParseSpec(lines, m) == None <==>
            exists k | 0 <= k < |lines| ::
              lines[k] != "" && ' ' !in lines[k][1..] && forall j | 0 <= j < k :: lines[j] != ""
    decreases |lines|
  {
    hide ParseLine;
    if lines != [] && lines[0] != "" {
      BadLineIff(lines[0]);
      var line := ParseLine(lines[0]);
      if line.Some? {
        ManifestFailsIff(lines[1..], m[line.value.0 := line.value.1]);
        if k :| 0 <= k < |lines| && lines[k] != "" && ' ' !in lines[k][1..] && forall j | 0 <= j < k :: lines[j] != "" {
          assert lines[1..][k - 1] == lines[k];
        }
        if k :| 0 <= k < |lines[1..]| && lines[1..][k] != "" && ' ' !in lines[1..][k][1..] &&
                forall j | 0 <= j < k :: lines[1..][j] != "" {
          assert lines[k + 1] == lines[1..][k];
          assert forall j | 0 < j < k + 1 :: lines[j] == lines[1..][j - 1];
        }
      }
    }
  }
}
