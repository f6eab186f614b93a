/** The parser of a repository mapping in cc/runfiles/runfiles.cc, whose result is the map that the lookup searches. */
module RepoMappingFile {
  import opened Options
  import opened Strings
  import opened RepoMapping

  predicate HasKey(e: Entry, t: string, s: string) {
    e.target == t && e.source == s
  }

  /** What the map holds for a key. */
  function Value(m: seq<Entry>, t: string, s: string): Option<string> {
    if m == [] then None else if HasKey(m[0], t, s) then Some(m[0].value) else Value(m[1..], t, s)
  }

  /** The assignment of an ordered map: in its place in the order, instead of an entry with the same key. */
  function Insert(m: seq<Entry>, e: Entry): seq<Entry> {
    if m == [] then [e]
    else if HasKey(m[0], e.target, e.source) then [e] + m[1..]
    else if KeyLess(e.target, e.source, m[0].target, m[0].source) then [e] + m
    else [m[0]] + Insert(m[1..], e)
  }

  lemma SmallestFirst(e: Entry, m: seq<Entry>)
    requires Sorted(m) && forall f <- m :: KeyLess(e.target, e.source, f.target, f.source)
    ensures Sorted([e] + m)
  {
  }

  lemma RestIsSorted(m: seq<Entry>)
    requires Sorted(m) && m != []
    ensures Sorted(m[1..]) && forall f <- m[1..] :: KeyLess(m[0].target, m[0].source, f.target, f.source)
  {
  }

  lemma {:induction false} InsertKeepsOrder(m: seq<Entry>, e: Entry)
    requires Sorted(m)
    ensures Sorted(Insert(m, e))
    ensures forall f <- Insert(m, e) :: f == e || f in m
    decreases |m|
  {
    hide Sorted, KeyLess;
    if m == [] {
      EmptyIsSorted();
      SmallestFirst(e, []);
      assert [e] + [] == Insert(m, e);
    } else {
      RestIsSorted(m);
      KeyOrder(e.target, e.source, m[0]);
      if HasKey(m[0], e.target, e.source) {
        SmallestFirst(e, m[1..]);
      } else if KeyLess(e.target, e.source, m[0].target, m[0].source) {
        forall f <- m ensures KeyLess(e.target, e.source, f.target, f.source) {
          KeyTransitive(e.target, e.source, m[0], f);
        }
        SmallestFirst(e, m);
      } else {
        InsertKeepsOrder(m[1..], e);
        SmallestFirst(m[0], Insert(m[1..], e));
      }
    }
  }

  lemma EmptyIsSorted()
    ensures Sorted([])
  {
  }

  lemma {:induction false} InsertSets(m: seq<Entry>, e: Entry, t: string, s: string)
    requires Sorted(m)
    ensures Value(Insert(m, e), t, s) == if HasKey(e, t, s) then Some(e.value) else Value(m, t, s)
    decreases |m|
  {
    if m != [] && !HasKey(m[0], e.target, e.source) {
      if KeyLess(e.target, e.source, m[0].target, m[0].source) {
        assert ([e] + m)[1..] == m;
      } else {
        InsertSets(m[1..], e, t, s);
      }
    }
  }

  /** One line: the source up to the first comma, the apparent target up to the second, and the rest. */
  function Fields(line: string): Option<Entry> {
    match Find(line, ',', 0)
    case None => None
    case Some(first) =>
      match Find(line, ',', first + 1)
      case None => None
      case Some(second) => Some(Entry(line[first + 1..second], line[..first], line[second + 1..]))
  }

  function FirstEmpty(lines: seq<string>): (n: nat)
    ensures n <= |lines| && "" !in lines[..n] && (n < |lines| ==> lines[n] == "")
  {
    if lines == [] || lines[0] == "" then 0
    else
      assert lines[..1 + FirstEmpty(lines[1..])] == [lines[0]] + lines[1..][..FirstEmpty(lines[1..])];
      1 + FirstEmpty(lines[1..])
  }

  /** The value in the last of the lines for this key. */
  function LastValue(lines: seq<string>, t: string, s: string): Option<string> {
    if lines == [] then None
    else
      match Fields(lines[|lines| - 1])
      case Some(e) => if HasKey(e, t, s) then Some(e.value) else LastValue(lines[..|lines| - 1], t, s)
      case None => LastValue(lines[..|lines| - 1], t, s)
  }

  /** ParseRepoMapping on the lines of the file: it fails exactly when a line before the first empty one has fewer than
      two commas, and else gives an ordered map in which the last line for a key counts. */
  method ParseRepoMapping(lines: seq<string>) returns (result: Option<seq<Entry>>)
    ensures result == None <==> exists k :: 0 <= k < FirstEmpty(lines) && Fields(lines[k]) == None
    ensures result.Some? ==> Sorted(result.value)
    ensures result.Some? ==> forall t, s :: Value(result.value, t, s) == LastValue(lines[..FirstEmpty(lines)], t, s)
  {
    hide Find, Insert, Value, LastValue, Sorted;
    var m: seq<Entry> := [];
    var n := 0;
    EmptyIsSorted();
    NothingYet(lines);
    while n < |lines| && lines[n] != ""
      invariant n <= FirstEmpty(lines) && Sorted(m)
      invariant forall k | 0 <= k < n :: Fields(lines[k]).Some?
      invariant forall t, s :: Value(m, t, s) == LastValue(lines[..n], t, s)
    {
      var line := lines[n];
      assert line in lines[..n + 1];
      var firstComma := Find(line, ',', 0);
      if firstComma.None? {
        return None;
      }
      var secondComma := Find(line, ',', firstComma.value + 1);
      if secondComma.None? {
        return None;
      }
      var source := line[..firstComma.value];
      var targetApparent := line[firstComma.value + 1..secondComma.value];
      var target := line[secondComma.value + 1..];
      var e := Entry(targetApparent, source, target);
      InsertKeepsOrder(m, e);
      OneMoreLine(lines, n, m, e);
      m := Insert(m, e);
      n := n + 1;
    }
    result := Some(m);
  }

  lemma NothingYet(lines: seq<string>)
    ensures forall t, s :: Value([], t, s) == LastValue(lines[..0], t, s)
  {
  }

  lemma OneMoreLine(lines: seq<string>, n: nat, m: seq<Entry>, e: Entry)
    requires n < |lines| && Sorted(m) && Fields(lines[n]) == Some(e)
    requires forall t, s :: Value(m, t, s) == LastValue(lines[..n], t, s)
    ensures forall t, s :: Value(Insert(m, e), t, s) == LastValue(lines[..n + 1], t, s)
  {
    hide Fields, Insert, Value, Sorted;
    assert lines[..n + 1][..n] == lines[..n];
    forall t, s ensures Value(Insert(m, e), t, s) == LastValue(lines[..n + 1], t, s) {
      InsertSets(m, e, t, s);
    }
  }

  /** A line as the build tool writes it. */
  function Line(e: Entry): string {
    e.source + "," + e.target + "," + e.value
  }

  /** A written entry is read back exactly when neither its source nor its apparent target has a comma. */
  lemma LineIsReadIff(e: Entry)
    ensures Fields(Line(e)) == Some(e) <==> ',' !in e.source && ',' !in e.target
  {
    var line, i := Line(e), |e.source|;
    var j := i + 1 + |e.target|;
    assert line[..i] == e.source && line[i] == ',' && line[i + 1..j] == e.target && line[j] == ',';
    assert line[j + 1..] == e.value;
    if ',' !in e.source && ',' !in e.target {
      FindIs(line, ',', 0, i);
      FindIs(line, ',', i + 1, j);
    }
  }

  /** What the file says last about a target and a source is what the lookup uses. */
  lemma LastLineIsUsed(lines: seq<string>, m: seq<Entry>, t: string, s: string)
    requires Sorted(m) && Value(m, t, s) == LastValue(lines, t, s) != None
    ensures Lookup(m, t, s).Some? && Some(m[Lookup(m, t, s).value].value) == LastValue(lines, t, s)
  {
    var i := PlaceOf(m, t, s);
    ExactIsFound(m, t, s, i);
  }

  lemma {:induction false} PlaceOf(m: seq<Entry>, t: string, s: string) returns (i: nat)
    requires Value(m, t, s) != None
    ensures i < |m| && HasKey(m[i], t, s) && Some(m[i].value) == Value(m, t, s)
    decreases |m|
  {
    if HasKey(m[0], t, s) {
      i := 0;
    } else {
      i := PlaceOf(m[1..], t, s);
      i := i + 1;
    }
  }
}
