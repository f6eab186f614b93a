/** Command lines as their users write them, and what the scanner of compat/getopt.c reads in them: every line has
    such a form, and it is read as what the form means, however the letters are grouped and the arguments placed. */
module CommandLines {
  import opened Options
  import opened Getopt

  datatype Last = NoArg | Attached(letter: char, value: string) | Detached(letter: char, value: string)

  /** One option word: letters without argument, and at most one with, whose argument may be the next word. */
  datatype Piece = Piece(flags: string, last: Last)

  /** What stands after the options: operands, "--" and operands, or a last option whose argument is lacking. */
  datatype Ending = Operands(words: seq<string>) | Dashes(words: seq<string>) | Lacking(flags: string, letter: char)

  predicate AreFlags(opts: string, fs: string) {
    forall c <- fs :: KindOf(opts, c) != TakesArg
  }

  function FirstWord(p: Piece): string {
    "-" + p.flags + match p.last
                    case NoArg => ""
                    case Attached(c, v) => [c] + v
                    case Detached(c, _) => [c]
  }

  function WordsOf(p: Piece): seq<string> {
    [FirstWord(p)] + if p.last.Detached? then [p.last.value] else []
  }

  predicate Proper(opts: string, p: Piece) {
    && IsOption(FirstWord(p))
    && FirstWord(p) != "--"
    && AreFlags(opts, p.flags)
    && (p.last.NoArg? || KindOf(opts, p.last.letter) == TakesArg)
    && (p.last.Attached? ==> p.last.value != "")
  }

  function Singles(opts: string, fs: string): seq<Event> {
    seq(|fs|, i requires 0 <= i < |fs| => Plain(opts, fs[i]))
  }

  function Means(opts: string, p: Piece): seq<Event> {
    Singles(opts, p.flags) + if p.last.NoArg? then [] else [Opt(p.last.letter, Some(p.last.value))]
  }

  function AllWords(ps: seq<Piece>): seq<string> {
    if ps == [] then [] else WordsOf(ps[0]) + AllWords(ps[1..])
  }

  function AllMeans(opts: string, ps: seq<Piece>): seq<Event> {
    if ps == [] then [] else Means(opts, ps[0]) + AllMeans(opts, ps[1..])
  }

  ghost predicate AllProper(opts: string, ps: seq<Piece>) {
    forall p <- ps :: Proper(opts, p)
  }

  function EndWords(e: Ending): seq<string> {
    match e
    case Operands(words) => words
    case Dashes(words) => ["--"] + words
    case Lacking(flags, c) => ["-" + flags + [c]]
  }

  predicate ProperEnd(opts: string, e: Ending) {
    match e
    case Operands(words) => words == [] || !IsOption(words[0])
    case Dashes(_) => true
    case Lacking(flags, c) => "-" + flags + [c] != "--" && AreFlags(opts, flags) && KindOf(opts, c) == TakesArg
  }

  function EndMeans(opts: string, e: Ending): seq<Event> {
    if e.Lacking? then Singles(opts, e.flags) + [Bad(e.letter)] else []
  }

  /** The words of the ending that are not operands. */
  function EndSkips(e: Ending): nat {
    if e.Operands? then 0 else 1
  }

  lemma {:induction false} FlagsAreRead(argv: seq<string>, opts: string, i: nat, k: nat, m: nat)
    requires i < |argv| && 1 <= k <= m <= |argv[i]|
    requires IsOption(argv[i]) && argv[i] != "--" && AreFlags(opts, argv[i][k..m])
    ensures Continue(argv, opts, i, k) == Prepend(Singles(opts, argv[i][k..m]), Continue(argv, opts, i, m))
    decreases m - k
  {
    var w := argv[i];
    if k < m {
      assert w[k] in w[k..m];
      FlagsAreRead(argv, opts, i, k + 1, m);
      assert Singles(opts, w[k..m]) == [Plain(opts, w[k])] + Singles(opts, w[k + 1..m]);
    }
  }

  /** The words stand in argv from place i on. */
  predicate StandsAt(argv: seq<string>, i: nat, ws: seq<string>) {
    i + |ws| <= |argv| && argv[i..i + |ws|] == ws
  }

  lemma StandBoth(argv: seq<string>, i: nat, a: seq<string>, b: seq<string>)
    requires StandsAt(argv, i, a + b)
    ensures StandsAt(argv, i, a) && StandsAt(argv, i + |a|, b)
  {
    assert argv[i..i + |a|] == argv[i..i + |a + b|][..|a|];
    assert argv[i + |a|..i + |a + b|] == argv[i..i + |a + b|][|a|..];
  }

  lemma StandsWord(argv: seq<string>, i: nat, ws: seq<string>, k: nat)
    requires StandsAt(argv, i, ws) && k < |ws|
    ensures argv[i + k] == ws[k]
  {
    assert argv[i..i + |ws|][k] == ws[k];
  }

  function LastMeans(last: Last): seq<Event> {
    if last.NoArg? then [] else [Opt(last.letter, Some(last.value))]
  }

  /** The parts of the word that begins a piece. */
  lemma PartsOf(p: Piece)
    ensures var w, m := FirstWord(p), |p.flags| + 1;
            && |w| >= m && w[1..m] == p.flags
            && (p.last.NoArg? ==> |w| == m)
            && (!p.last.NoArg? ==> |w| > m && w[m] == p.last.letter)
            && (p.last.Attached? ==> w[m + 1..] == p.last.value)
            && (p.last.Detached? ==> |w| == m + 1)
  {
    var w, m := FirstWord(p), |p.flags| + 1;
    assert w[1..m] == p.flags;
    if p.last.Attached? {
      assert w[m + 1..] == p.last.value;
    }
  }

  lemma LastIsRead(argv: seq<string>, opts: string, i: nat, p: Piece)
    requires Proper(opts, p) && StandsAt(argv, i, WordsOf(p))
    ensures i < |argv| && argv[i] == FirstWord(p) && 1 <= |p.flags| + 1 <= |argv[i]|
    ensures Continue(argv, opts, i, |p.flags| + 1) == Prepend(LastMeans(p.last), Parse(argv, opts, i + |WordsOf(p)|, 1))
  {
    hide KindOf, FirstWord, StandsAt;
    StandsWord(argv, i, WordsOf(p), 0);
    PartsOf(p);
    StandsInside(argv, i, WordsOf(p));
    if p.last.Detached? {
      StandsWord(argv, i, WordsOf(p), 1);
    }
  }

  lemma StandsInside(argv: seq<string>, i: nat, ws: seq<string>)
    requires StandsAt(argv, i, ws)
    ensures i + |ws| <= |argv|
  {
  }

  lemma PieceIsRead(argv: seq<string>, opts: string, i: nat, p: Piece)
    requires Proper(opts, p) && StandsAt(argv, i, WordsOf(p))
    ensures Parse(argv, opts, i, 1) == Prepend(Means(opts, p), Parse(argv, opts, i + |WordsOf(p)|, 1))
  {
    hide Parse, FirstWord, StandsAt, WordsOf, KindOf;
    LastIsRead(argv, opts, i, p);
    PartsOf(p);
    FlagsAreRead(argv, opts, i, 1, |p.flags| + 1);
    assert Means(opts, p) == Singles(opts, p.flags) + LastMeans(p.last);
  }

  lemma FirstAndRest(opts: string, ps: seq<Piece>)
    requires AllProper(opts, ps) && ps != []
    ensures Proper(opts, ps[0]) && AllProper(opts, ps[1..])
    ensures AllWords(ps) == WordsOf(ps[0]) + AllWords(ps[1..])
    ensures AllMeans(opts, ps) == Means(opts, ps[0]) + AllMeans(opts, ps[1..])
  {
    hide Proper, WordsOf, Means;
    assert ps[0] in ps && forall p <- ps[1..] :: p in ps;
  }

  lemma PrependTwice(a: seq<Event>, b: seq<Event>, p: Parsed)
    ensures Prepend(a, Prepend(b, p)) == Prepend(a + b, p)
  {
    assert a + (b + p.events) == a + b + p.events;
  }

  lemma {:induction false} PiecesAreRead(argv: seq<string>, opts: string, i: nat, ps: seq<Piece>)
    requires AllProper(opts, ps) && StandsAt(argv, i, AllWords(ps))
    ensures Parse(argv, opts, i, 1) == Prepend(AllMeans(opts, ps), Parse(argv, opts, i + |AllWords(ps)|, 1))
    decreases |ps|, 1
  {
    hide Parse, Proper, AllProper, Means, WordsOf, StandsAt;
    if ps == [] {
      PrependNothing(Parse(argv, opts, i, 1));
    } else {
      FirstAndRest(opts, ps);
      AnotherPieceIsRead(argv, opts, i, ps);
    }
  }

  lemma PrependNothing(p: Parsed)
    ensures Prepend([], p) == p
  {
    assert [] + p.events == p.events;
  }

  lemma {:induction false} AnotherPieceIsRead(argv: seq<string>, opts: string, i: nat, ps: seq<Piece>)
    requires AllProper(opts, ps) && ps != [] && StandsAt(argv, i, AllWords(ps))
    ensures Parse(argv, opts, i, 1) == Prepend(AllMeans(opts, ps), Parse(argv, opts, i + |AllWords(ps)|, 1))
    decreases |ps|, 0
  {
    hide Parse, Proper, AllProper, Means, AllMeans, WordsOf, AllWords, StandsAt, Prepend;
    FirstAndRest(opts, ps);
    var n, rest := |WordsOf(ps[0])|, AllWords(ps[1..]);
    StandBoth(argv, i, WordsOf(ps[0]), rest);
    PieceIsRead(argv, opts, i, ps[0]);
    PiecesAreRead(argv, opts, i + n, ps[1..]);
    PrependTwice(Means(opts, ps[0]), AllMeans(opts, ps[1..]), Parse(argv, opts, i + n + |rest|, 1));
  }

  lemma EndingIsRead(argv: seq<string>, opts: string, i: nat, e: Ending)
    requires ProperEnd(opts, e) && i <= |argv| && argv[i..] == EndWords(e)
    ensures Parse(argv, opts, i, 1) == Parsed(EndMeans(opts, e), i + EndSkips(e))
  {
    match e {
      case Operands(words) =>
        assert words != [] ==> argv[i] == words[0];
      case Dashes(words) =>
        assert argv[i] == argv[i..][0];
      case Lacking(flags, c) =>
        var w, m := argv[i..][0], |flags| + 1;
        assert argv[i] == w && w[1..m] == flags && w[m] == c;
        FlagsAreRead(argv, opts, i, 1, m);
    }
  }

  lemma StandsInMiddle(a: seq<string>, b: seq<string>, c: seq<string>)
    ensures StandsAt(a + b + c, |a|, b) && (a + b + c)[|a| + |b|..] == c
  {
  }

  /** A line of any form is read as what it means, and its operands are found. */
  lemma LineIsRead(opts: string, before: seq<string>, ps: seq<Piece>, e: Ending)
    requires AllProper(opts, ps) && ProperEnd(opts, e)
    ensures Parse(before + AllWords(ps) + EndWords(e), opts, |before|, 1)
         == Parsed(AllMeans(opts, ps) + EndMeans(opts, e), |before| + |AllWords(ps)| + EndSkips(e))
  {
    hide Parse, Proper, ProperEnd, AllWords, AllMeans, EndWords, EndMeans;
    var argv, i, j := before + AllWords(ps) + EndWords(e), |before|, |before| + |AllWords(ps)|;
    StandsInMiddle(before, AllWords(ps), EndWords(e));
    PiecesAreRead(argv, opts, i, ps);
    EndingIsRead(argv, opts, j, e);
  }

  /** The first letter with an argument at or after place k. */
  function FirstTaker(opts: string, w: string, k: nat): (m: nat)
    requires k <= |w|
    ensures k <= m <= |w| && AreFlags(opts, w[k..m])
    ensures m < |w| ==> KindOf(opts, w[m]) == TakesArg
    decreases |w| - k
  {
    if k == |w| || KindOf(opts, w[k]) == TakesArg then k
    else
      var m := FirstTaker(opts, w, k + 1);
      assert w[k..m] == [w[k]] + w[k + 1..m];
      m
  }

  /** The first word of a line that is an option word, with the next if it is the argument, is a piece, unless that
      argument is lacking. */
  lemma FirstPiece(opts: string, line: seq<string>) returns (p: Piece)
    requires line != [] && IsOption(line[0]) && line[0] != "--"
    requires FirstTaker(opts, line[0], 1) + 1 == |line[0]| ==> |line| > 1
    ensures Proper(opts, p) && 0 < |WordsOf(p)| <= |line| && line == WordsOf(p) + line[|WordsOf(p)|..]
  {
    hide KindOf, FirstTaker, AreFlags;
    var w := line[0];
    var m := FirstTaker(opts, w, 1);
    p := Piece(w[1..m], if m == |w| then NoArg
                        else if m + 1 < |w| then Attached(w[m], w[m + 1..]) else Detached(w[m], line[1]));
    assert FirstWord(p) == w;
  }

  lemma OneMorePiece(opts: string, p: Piece, ps: seq<Piece>, ws: seq<string>)
    requires Proper(opts, p) && AllProper(opts, ps)
    ensures AllProper(opts, [p] + ps)
    ensures AllWords([p] + ps) + ws == WordsOf(p) + (AllWords(ps) + ws)
  {
    hide Proper, WordsOf;
    assert ([p] + ps)[1..] == ps;
  }

  /** Every command line has a form. */
  lemma {:induction false} EveryLineHasAForm(opts: string, line: seq<string>) returns (ps: seq<Piece>, e: Ending)
    ensures AllProper(opts, ps) && ProperEnd(opts, e) && line == AllWords(ps) + EndWords(e)
    decreases |line|
  {
    hide KindOf, FirstTaker, AreFlags, Proper, WordsOf;
    if line == [] || !IsOption(line[0]) {
      ps, e := [], Operands(line);
    } else if line[0] == "--" {
      ps, e := [], Dashes(line[1..]);
    } else if FirstTaker(opts, line[0], 1) + 1 == |line[0]| && |line| == 1 {
      var w, m := line[0], |line[0]| - 1;
      ps, e := [], Lacking(w[1..m], w[m]);
      assert w == "-" + w[1..m] + [w[m]];
    } else {
      var p := FirstPiece(opts, line);
      ps, e := EveryLineHasAForm(opts, line[|WordsOf(p)|..]);
      OneMorePiece(opts, p, ps, EndWords(e));
      ps := [p] + ps;
    }
  }

  lemma AllMeansAppend(opts: string, p: Piece, ps: seq<Piece>)
    ensures AllMeans(opts, [p] + ps) == Means(opts, p) + AllMeans(opts, ps)
  {
    assert ([p] + ps)[1..] == ps;
  }

  /** The options read in a line depend on its meaning only. */
  lemma MeaningDecides(opts: string, before: seq<string>, ps: seq<Piece>, qs: seq<Piece>, e: Ending)
    requires AllProper(opts, ps) && AllProper(opts, qs) && ProperEnd(opts, e)
    requires AllMeans(opts, ps) == AllMeans(opts, qs)
    ensures Parse(before + AllWords(ps) + EndWords(e), opts, |before|, 1).events
         == Parse(before + AllWords(qs) + EndWords(e), opts, |before|, 1).events
  {
    hide Parse, AllProper, AllWords, AllMeans, EndWords, ProperEnd;
    LineIsRead(opts, before, ps, e);
    LineIsRead(opts, before, qs, e);
  }

  lemma FirstWordOf(f: string, p: Piece)
    ensures |FirstWord(p)| > 0 && FirstWord(p)[0] == '-'
    ensures FirstWord(Piece(f + p.flags, p.last)) == "-" + f + FirstWord(p)[1..]
    ensures FirstWord(Piece(f, NoArg)) == "-" + f
    ensures "-" + f == "--" <==> f == "-"
  {
    assert ("-" + f)[1..] == f && "--"[1..] == "-";
    assert "--" == "-" + "-";
  }

  lemma JoinedAreFlags(opts: string, f: string, g: string)
    ensures AreFlags(opts, f + g) <==> AreFlags(opts, f) && AreFlags(opts, g)
  {
    hide KindOf;
    if AreFlags(opts, f + g) {
      assert forall c <- f :: c in f + g;
      assert forall c <- g :: c in f + g;
    }
  }

  /** Letters in one word or in two mean the same; and they may stand in two words exactly when they may stand in one
      and each of the two is an option word. */
  lemma GroupedOrSeparate(opts: string, f: string, p: Piece, ps: seq<Piece>)
    ensures AllMeans(opts, [Piece(f + p.flags, p.last)] + ps) == AllMeans(opts, [Piece(f, NoArg)] + ([p] + ps))
    ensures Proper(opts, Piece(f, NoArg)) && Proper(opts, p) <==>
              Proper(opts, Piece(f + p.flags, p.last)) && f != "" && f != "-" &&
              IsOption(FirstWord(p)) && FirstWord(p) != "--"
  {
    hide AllMeans, KindOf, AreFlags, FirstWord;
    FirstWordOf(f, p);
    JoinedAreFlags(opts, f, p.flags);
    AllMeansAppend(opts, Piece(f + p.flags, p.last), ps);
    AllMeansAppend(opts, Piece(f, NoArg), [p] + ps);
    AllMeansAppend(opts, p, ps);
    assert Singles(opts, f + p.flags) == Singles(opts, f) + Singles(opts, p.flags);
  }

  /** A non-empty argument means the same in the word of its option and in the next, and may stand in either. */
  lemma AttachedOrDetached(opts: string, fs: string, c: char, v: string, ps: seq<Piece>)
    ensures AllMeans(opts, [Piece(fs, Attached(c, v))] + ps) == AllMeans(opts, [Piece(fs, Detached(c, v))] + ps)
    ensures Proper(opts, Piece(fs, Attached(c, v))) <==>
              v != "" && (Proper(opts, Piece(fs, Detached(c, v))) || (fs + [c] == "-" && KindOf(opts, c) == TakesArg))
  {
    hide AllMeans, KindOf;
    AllMeansAppend(opts, Piece(fs, Attached(c, v)), ps);
    AllMeansAppend(opts, Piece(fs, Detached(c, v)), ps);
    var w, d := FirstWord(Piece(fs, Attached(c, v))), FirstWord(Piece(fs, Detached(c, v)));
    assert d == "-" + (fs + [c]);
    assert w == d + v;
    assert "--" == "-" + "-" && d[1..] == fs + [c];
  }

  /** A whole line, as its caller sees it: -xa -bv -b w -- -a with a and, taking an argument, b. */
  lemma ExampleLine()
    ensures var line := ["p", "-xa", "-bv", "-b", "w", "--", "-a"];
            && Inside(line, 1, 1)
            && Calls(Parse(line, "ab:", 1, 1).events, None) ==
               [Call('?', 'x', None), Call('a', 'a', None), Call('b', 'b', Some("v")), Call('b', 'b', Some("w"))]
            && Parse(line, "ab:", 1, 1).rest == 6
  {
    hide Parse, IndexOf, KindOf, Proper, AllProper, AllWords, AllMeans, Calls;
    var ps := [Piece("xa", NoArg), Piece("", Attached('b', "v")), Piece("", Detached('b', "w"))];
    ExamplePieces(ps);
    LineIsRead("ab:", ["p"], ps, Dashes(["-a"]));
    assert ["p"] + AllWords(ps) + EndWords(Dashes(["-a"])) == ["p", "-xa", "-bv", "-b", "w", "--", "-a"];
    var es := [Bad('x'), Opt('a', None), Opt('b', Some("v")), Opt('b', Some("w"))];
    assert AllMeans("ab:", ps) + EndMeans("ab:", Dashes(["-a"])) == es;
    CallsOne(es[0], es[1..], None);
    CallsOne(es[1], es[2..], None);
    CallsOne(es[2], es[3..], None);
    CallsOne(es[3], [], Some("v"));
    NoCalls(Some("w"));
    assert es == [es[0]] + es[1..] && es[1..] == [es[1]] + es[2..];
    assert es[2..] == [es[2]] + es[3..] && es[3..] == [es[3]] + [];
  }

  lemma NoCalls(before: Option<string>)
    ensures Calls([], before) == []
  {
  }

  lemma CallsOne(e: Event, rest: seq<Event>, before: Option<string>)
    ensures Calls([e] + rest, before) == [CallOf(e, before)] + Calls(rest, CallOf(e, before).optarg)
  {
    assert ([e] + rest)[1..] == rest;
  }

  lemma ExampleKinds()
    ensures KindOf("ab:", 'a') == Flag && KindOf("ab:", 'b') == TakesArg && KindOf("ab:", 'x') == Illegal
  {
    KindIs("", 'a', "b:");
    KindIs("a", 'b', "");
    KindIs("ab:", 'x', "");
    assert "" + ['a'] + "b:" == "ab:" && "a" + ['b'] + ":" + "" == "ab:";
  }

  lemma ExamplePieces(ps: seq<Piece>)
    requires ps == [Piece("xa", NoArg), Piece("", Attached('b', "v")), Piece("", Detached('b', "w"))]
    ensures AllProper("ab:", ps)
    ensures AllWords(ps) == ["-xa", "-bv", "-b", "w"]
    ensures AllMeans("ab:", ps) == [Bad('x'), Opt('a', None), Opt('b', Some("v")), Opt('b', Some("w"))]
  {
    hide KindOf;
    ExampleKinds();
    assert FirstWord(ps[0]) == "-xa" && FirstWord(ps[1]) == "-bv" && FirstWord(ps[2]) == "-b";
    assert Singles("ab:", "xa") == [Bad('x'), Opt('a', None)] && Singles("ab:", "") == [];
    assert WordsOf(ps[0]) == ["-xa"] && WordsOf(ps[1]) == ["-bv"] && WordsOf(ps[2]) == ["-b", "w"];
    assert Means("ab:", ps[0]) == [Bad('x'), Opt('a', None)];
    assert Means("ab:", ps[1]) == [Opt('b', Some("v"))] && Means("ab:", ps[2]) == [Opt('b', Some("w"))];
    var tail := [ps[2]];
    assert ps[1..] == [ps[1]] + tail && ps[1..][1..] == tail && tail[1..] == [];
    assert AllWords(tail) == WordsOf(ps[2]) + [] && AllWords(ps[1..]) == WordsOf(ps[1]) + AllWords(tail);
    assert AllMeans("ab:", tail) == Means("ab:", ps[2]) + [];
    assert AllMeans("ab:", ps[1..]) == Means("ab:", ps[1]) + AllMeans("ab:", tail);
  }
}
