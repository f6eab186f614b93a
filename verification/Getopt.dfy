/** The option scanner of compat/getopt.c.  Words are strings; the terminating zero of a C string is the end of the
    word, so words and the option letters themselves hold no zero. */
module Getopt {
  import opened Options

  datatype Kind = Illegal | Flag | TakesArg

  /** What one call tells its caller: the letter with its argument, or '?' with the letter it was about in optopt. */
  datatype Event = Opt(letter: char, arg: Option<string>) | Bad(letter: char)

  /** The options from here on, and the index of the first operand. */
  datatype Parsed = Parsed(events: seq<Event>, rest: nat)

  const NUL: char := 0 as char

  predicate NoZero(s: string) {
    NUL !in s
  }

  ghost predicate Words(argv: seq<string>) {
    forall w <- argv :: NoZero(w)
  }

  /** The letter at place k as C reads it: the zero shows the end of a word and nothing else. */
  function At(w: string, k: nat): (c: char)
    requires k <= |w|
    ensures NoZero(w) ==> (c == NUL <==> k == |w|)
  {
    if k < |w| then
      assert w[k] in w;
      w[k]
    else NUL
  }

  /** strchr: the first place of c in opts. */
  function IndexOf(opts: string, c: char): (i: nat)
    ensures i <= |opts| && (i == |opts| <==> c !in opts)
    ensures i < |opts| ==> opts[i] == c && c !in opts[..i]
  {
    if opts == "" || opts[0] == c then 0
    else
      var i := IndexOf(opts[1..], c);
      assert opts == [opts[0]] + opts[1..] && opts[..i + 1] == [opts[0]] + opts[1..][..i];
      i + 1
  }

  function KindOf(opts: string, c: char): Kind {
    var i := IndexOf(opts, c);
    if c == ':' || i == |opts| then Illegal
    else if i + 1 < |opts| && opts[i + 1] == ':' then TakesArg
    else Flag
  }

  lemma {:induction false} FirstPlace(pre: string, c: char, post: string)
    requires c !in pre
    ensures IndexOf(pre + [c] + post, c) == |pre|
  {
    if pre == "" {
      assert (pre + [c] + post)[0] == c;
    } else {
      assert pre[0] in pre && (pre + [c] + post)[0] == pre[0];
      assert (pre + [c] + post)[1..] == pre[1..] + [c] + post;
      FirstPlace(pre[1..], c, post);
    }
  }

  /** A letter takes an argument exactly when a colon follows its first place; a colon itself and a letter that is not
      there are illegal. */
  lemma KindIs(pre: string, c: char, post: string)
    requires c !in pre && c != ':'
    ensures KindOf(pre + [c] + ":" + post, c) == TakesArg
    ensures (post == "" || post[0] != ':') ==> KindOf(pre + [c] + post, c) == Flag
    ensures KindOf(pre, c) == Illegal && KindOf(pre, ':') == Illegal
  {
    hide IndexOf;
    FirstPlace(pre, c, ":" + post);
    assert pre + [c] + ":" + post == pre + [c] + (":" + post);
    FirstPlace(pre, c, post);
  }

  predicate IsOption(w: string) {
    |w| > 1 && w[0] == '-'
  }

  /** A scan stands at the start of a word, or at a later letter of an existing word. */
  predicate Inside(argv: seq<string>, i: nat, k: nat) {
    k == 1 || (k > 1 && i < |argv| && k < |argv[i]|)
  }

  function Prepend(es: seq<Event>, p: Parsed): Parsed {
    Parsed(es + p.events, p.rest)
  }

  /** Everything that is left to be said from letter k of word i on. */
  function Parse(argv: seq<string>, opts: string, i: nat, k: nat): Parsed
    requires Inside(argv, i, k)
    decreases |argv| - i, if i < |argv| then |argv[i]| - k else 0, 0
  {
    if k == 1 && (i >= |argv| || !IsOption(argv[i])) then Parsed([], i)
    else if k == 1 && argv[i] == "--" then Parsed([], i + 1)
    else
      var w := argv[i];
      match KindOf(opts, w[k])
      case TakesArg =>
        if k + 1 < |w| then Prepend([Opt(w[k], Some(w[k + 1..]))], Parse(argv, opts, i + 1, 1))
        else if i + 1 < |argv| then Prepend([Opt(w[k], Some(argv[i + 1]))], Parse(argv, opts, i + 2, 1))
        else Parsed([Bad(w[k])], i + 1)
      case kind => Prepend([Plain(opts, w[k])], Continue(argv, opts, i, k + 1))
  }

  /** At the end of a word the scan goes to the next one. */
  function Continue(argv: seq<string>, opts: string, i: nat, k: nat): Parsed
    requires i < |argv| && 1 <= k <= |argv[i]|
    decreases |argv| - i, |argv[i]| - k, 1
  {
    if k < |argv[i]| then Parse(argv, opts, i, k) else Parse(argv, opts, i + 1, 1)
  }

  /** What a letter without argument says. */
  function Plain(opts: string, c: char): Event {
    if KindOf(opts, c) == Flag then Opt(c, None) else Bad(c)
  }

  /** What the caller of one call sees: the letter returned, optopt and optarg. */
  datatype Call = Call(returned: char, optopt: char, optarg: Option<string>)

  /** A letter that is refused is told by '?' and leaves optarg as it was. */
  function CallOf(e: Event, before: Option<string>): Call {
    match e
    case Opt(c, arg) => Call(c, c, arg)
    case Bad(c) => Call('?', c, before)
  }

  function Calls(es: seq<Event>, before: Option<string>): seq<Call> {
    if es == [] then []
    else
      var call := CallOf(es[0], before);
      [call] + Calls(es[1..], call.optarg)
  }

  /** The globals optind, optopt and optarg and the static sp. */
  class Scanner {
    var optind: nat
    var optopt: char
    var optarg: Option<string>
    var sp: nat

    constructor ()
      ensures optind == 1 && sp == 1 && optarg == None
    {
      optind, sp, optopt, optarg := 1, 1, NUL, None;
    }

    /** One call.  It says the head of what was left and leaves the rest; EOF says that nothing was left. */
    method Next(argv: seq<string>, opts: string) returns (r: Option<char>)
      requires Words(argv) && NoZero(opts) && Inside(argv, optind, sp)
      modifies this
      ensures Inside(argv, optind, sp)
      ensures optind > old(optind) || (optind == old(optind) && sp >= old(sp))
      ensures r == None ==>
                old(Parse(argv, opts, optind, sp)) == Parsed([], optind) && sp == 1 &&
                optopt == old(optopt) && optarg == old(optarg)
      ensures r.Some? ==>
                var was := old(Parse(argv, opts, optind, sp));
                was.events != [] && was == Prepend(was.events[..1], Parse(argv, opts, optind, sp)) &&
                Call(r.value, optopt, optarg) == CallOf(was.events[0], old(optarg))
      ensures r.Some? ==> optind > old(optind) || sp > old(sp)
    {
      hide IndexOf;
      ghost var i, k := optind, sp;
      assert i < |argv| ==> argv[i] in argv;
      if sp == 1 {
        if optind >= |argv| || At(argv[optind], 0) != '-' || At(argv[optind], 1) == NUL {
          return None;
        } else if argv[optind] == "--" {
          optind := optind + 1;
          return None;
        }
      }
      var w := argv[optind];
      var c := w[sp];
      optopt := c;
      assert Parse(argv, opts, i, k).events[0].letter == c;
      var cp := IndexOf(opts, c);
      if c == ':' || cp == |opts| {
        sp := sp + 1;
        if At(w, sp) == NUL {
          optind := optind + 1;
          sp := 1;
        }
        return Some('?');
      }
      if At(opts, cp + 1) == ':' {
        if At(w, sp + 1) != NUL {
          optarg := Some(w[sp + 1..]);
          optind := optind + 1;
        } else {
          optind := optind + 1;
          if optind >= |argv| {
            sp := 1;
            return Some('?');
          }
          optarg := Some(argv[optind]);
          optind := optind + 1;
        }
        sp := 1;
      } else {
        sp := sp + 1;
        if At(w, sp) == NUL {
          sp := 1;
          optind := optind + 1;
        }
        optarg := None;
      }
      return Some(c);
    }

    /** The loop of every caller: call until EOF.  What the calls tell is the parse, and optind is left at its end. */
    method Drain(argv: seq<string>, opts: string) returns (calls: seq<Call>)
      requires Words(argv) && NoZero(opts) && Inside(argv, optind, sp)
      modifies this
      ensures calls == Calls(old(Parse(argv, opts, optind, sp)).events, old(optarg))
      ensures optind == old(Parse(argv, opts, optind, sp)).rest && sp == 1
    {
      ghost var was := Parse(argv, opts, optind, sp);
      calls := [];
      while true
        invariant Inside(argv, optind, sp) && Parse(argv, opts, optind, sp).rest == was.rest
        invariant Calls(was.events, old(optarg)) == calls + Calls(Parse(argv, opts, optind, sp).events, optarg)
        decreases |Parse(argv, opts, optind, sp).events|
      {
        ghost var now := Parse(argv, opts, optind, sp);
        var r := Next(argv, opts);
        if r == None {
          break;
        }
        assert now.events[1..] == Parse(argv, opts, optind, sp).events;
        calls := calls + [Call(r.value, optopt, optarg)];
      }
    }
  }
}
