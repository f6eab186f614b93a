/** The once-only initialisation and finalisation of ddsrt/src/cdtors.c: any number of threads call ddsrt_init
    and ddsrt_fini, one atomic access to `init_status` per step.  The word holds a reference count in its low
    31 bits and "initialised" in its top bit. */
module Cdtors {
  type Tid = nat

  const STATUS_OK := 0x8000_0000
  const WORD_SIZE := 0x1_0000_0000

  /** What an initialisation sets up and a finalisation takes down, in the order of the code. */
  datatype Resource = Mutex | Cond | Random | Atomics

  const SETUP := [Mutex, Cond, Random, Atomics]
  const TEARDOWN := [Cond, Mutex, Random, Atomics]
  const ALL := {Mutex, Cond, Random, Atomics}

  /** Where a call of init or fini is.  `Spinning` is the `goto retry` that never reads the word again. */
  datatype Pc =
    | Idle
    | Waiting
    | Spinning
    | Initialising(k: nat)
    | Live
    | FiniLoad
    | FiniCas(v: nat, nv: nat)
    | Destroying(k: nat)
  {
    /** An init has returned and the matching fini has not yet taken effect. */
    predicate Holds() {
      Live? || FiniLoad? || FiniCas?
    }

    predicate Working() {
      Initialising? || Destroying?
    }
  }

  datatype Event = InitBegins(t: Tid) | InitEnds(t: Tid) | DestroyBegins(t: Tid) | DestroyEnds(t: Tid)

  datatype State = State(word: nat, up: set<Resource>, pcs: map<Tid, Pc>, log: seq<Event>)

  /** `CallFini` may only follow the return of the caller's own init. */
  datatype Label = CallInit(t: Tid) | CallFini(t: Tid) | Access(t: Tid)

  const START := State(0, {}, map[], [])

  function PcOf(s: State, t: Tid): Pc {
    if t in s.pcs then s.pcs[t] else Idle
  }

  // ---------------------------------------------------------------- the code, one atomic access at a time

  /** What init does with the value v it has read: return, initialise, read again later, or jump back to
      the same test with the same value. */
  function Decide(v: nat): Pc {
    if v > STATUS_OK then Live
    else if v == 1 then Initialising(0)
    else if v > 1 && v < STATUS_OK then Waiting
    else Spinning
  }

  function FiniValue(v: nat): nat {
    if v == STATUS_OK + 1 then 1 else (v - 1) % WORD_SIZE
  }

  function Enter(s: State, t: Tid, v: nat): State {
    s.(pcs := s.pcs[t := Decide(v)], log := if Decide(v).Initialising? then s.log + [InitBegins(t)] else s.log)
  }

  predicate Enabled(s: State, l: Label) {
    match l
    case CallInit(t) => PcOf(s, t).Idle?
    case CallFini(t) => PcOf(s, t).Live?
    case Access(t) => !PcOf(s, t).Idle? && !PcOf(s, t).Live?
  }

  function Apply(s: State, l: Label): State {
    match l
    case CallInit(t) =>
      var nv := (s.word + 1) % WORD_SIZE;
      Enter(s.(word := nv), t, nv)
    case CallFini(t) => s.(pcs := s.pcs[t := FiniLoad])
    case Access(t) =>
      match PcOf(s, t)
      case Idle => s
      case Live => s
      case Spinning => s
      case Waiting => Enter(s, t, s.word)
      case Initialising(k) =>
        if k < |SETUP| then
          s.(up := s.up + {SETUP[k]}, pcs := s.pcs[t := Initialising(k + 1)])
        else
          s.(word := if s.word < STATUS_OK then s.word + STATUS_OK else s.word,
             pcs := s.pcs[t := Live], log := s.log + [InitEnds(t)])
      case FiniLoad => s.(pcs := s.pcs[t := FiniCas(s.word, FiniValue(s.word))])
      case FiniCas(v, nv) =>
        if s.word != v then
          s.(pcs := s.pcs[t := FiniLoad])
        else if nv == 1 then
          s.(word := nv, pcs := s.pcs[t := Destroying(0)], log := s.log + [DestroyBegins(t)])
        else
          s.(word := nv, pcs := s.pcs[t := Idle])
      case Destroying(k) =>
        if k < |TEARDOWN| then
          s.(up := s.up - {TEARDOWN[k]}, pcs := s.pcs[t := Destroying(k + 1)])
        else
          s.(word := (s.word - 1) % WORD_SIZE, pcs := s.pcs[t := Idle], log := s.log + [DestroyEnds(t)])
  }

  // ---------------------------------------------------------------- the invariant

  function Active(s: State): set<Tid> {
    set t | t in s.pcs && !s.pcs[t].Idle?
  }

  /** 0: down, 1: being initialised, 2: up, 3: being destroyed. */
  function Phase(s: State): nat {
    |s.log| % 4
  }

  function Owner(s: State): Tid
    requires s.log != []
  {
    s.log[|s.log| - 1].t
  }

  /** Initialisations and destructions never overlap and strictly alternate, each ended by its own thread. */
  predicate Alternates(log: seq<Event>) {
    forall i | 0 <= i < |log| ::
      && (i % 4 == 0 <==> log[i].InitBegins?)
      && (i % 4 == 1 <==> log[i].InitEnds?)
      && (i % 4 == 2 <==> log[i].DestroyBegins?)
      && (i % 4 == 3 <==> log[i].DestroyEnds?)
      && (i % 2 == 1 ==> log[i].t == log[i - 1].t)
  }

  function Prefix(order: seq<Resource>, k: nat): set<Resource> {
    set i | 0 <= i < |order| && i < k :: order[i]
  }

  predicate PcGood(s: State, t: Tid, pc: Pc) {
    match pc
    case Idle => true
    case Waiting => true
    case Spinning => false
    case Initialising(k) => Phase(s) == 1 && Owner(s) == t && k <= 4 && s.up == Prefix(SETUP, k)
    case Live => Phase(s) == 2
    case FiniLoad => Phase(s) == 2
    case FiniCas(v, nv) => Phase(s) == 2 && nv == FiniValue(v)
    case Destroying(k) => Phase(s) == 3 && Owner(s) == t && k <= 4 && s.up == ALL - Prefix(TEARDOWN, k)
  }

  predicate Inv(s: State) {
    && Alternates(s.log)
    && |Active(s)| < STATUS_OK
    && s.word == |Active(s)| + (if Phase(s) == 2 then STATUS_OK else 0)
    && (forall t | t in s.pcs :: PcGood(s, t, s.pcs[t]))
    && (Phase(s) == 0 ==> s.up == {})
    && (Phase(s) == 1 ==> PcOf(s, Owner(s)).Initialising?)
    && (Phase(s) == 2 ==> s.up == ALL && Active(s) != {})
    && (Phase(s) == 3 ==> PcOf(s, Owner(s)).Destroying?)
  }

  /** The count of calls outstanding stays below what 31 bits hold. */
  predicate InRange(s: State, l: Label) {
    l.CallInit? ==> |Active(s)| + 1 < STATUS_OK
  }

  lemma ActiveAfter(s: State, s': State, t: Tid, pc: Pc)
    requires s'.pcs == s.pcs[t := pc]
    ensures pc.Idle? ==> Active(s') == Active(s) - {t}
    ensures !pc.Idle? ==> Active(s') == Active(s) + {t}
    ensures |Active(s')| == |Active(s)| + (if pc.Idle? then 0 else 1) - (if PcOf(s, t).Idle? then 0 else 1)
  {
    var a := Active(s) - {t};
    assert t in Active(s) <==> !PcOf(s, t).Idle?;
    assert |a + {t}| == |a| + 1;
    assert Active(s) == if PcOf(s, t).Idle? then a else a + {t};
    assert Active(s') == if pc.Idle? then a else a + {t};
  }

  lemma LogGrows(log: seq<Event>, e: Event)
    requires Alternates(log)
    requires |log| % 4 == 0 <==> e.InitBegins?
    requires |log| % 4 == 1 <==> e.InitEnds?
    requires |log| % 4 == 2 <==> e.DestroyBegins?
    requires |log| % 4 == 3 <==> e.DestroyEnds?
    requires |log| % 2 == 1 ==> e.t == log[|log| - 1].t
    ensures Alternates(log + [e])
  {
    var grown := log + [e];
    assert forall i | 0 <= i < |log| :: grown[i] == log[i];
  }

  lemma TwoIn(a: set<Tid>, t: Tid, u: Tid)
    requires t != u && t in a && u in a
    ensures |a| >= 2
  {
    assert a == {t, u} + (a - {t, u});
    assert |{t, u} + (a - {t, u})| == |{t, u}| + |a - {t, u}|;
  }

  /** A caller of init, counted in the word v that it has read, goes where it should. */
  lemma EnterKeeps(s: State, t: Tid, v: nat)
    requires Inv(s) && (PcOf(s, t).Idle? || PcOf(s, t).Waiting?)
    requires |Active(s) + {t}| < STATUS_OK
    requires v == |Active(s) + {t}| + (if Phase(s) == 2 then STATUS_OK else 0)
    ensures Inv(Enter(s.(word := v), t, v))
  {
    hide PcGood, Alternates;
    var s', a := Enter(s.(word := v), t, v), Active(s) + {t};
    assert |a| == |a - {t}| + 1;
    if Phase(s) == 1 || Phase(s) == 3 {
      assert Owner(s) in a;
      TwoIn(a, t, Owner(s));
    }
    ActiveAfter(s, s', t, PcOf(s', t));
    EntersWell(s, t, v);
    if Decide(v).Initialising? {
      LogGrows(s.log, InitBegins(t));
    }
  }

  lemma EntersWell(s: State, t: Tid, v: nat)
    requires Inv(s) && (PcOf(s, t).Idle? || PcOf(s, t).Waiting?)
    requires v == |Active(s) + {t}| + (if Phase(s) == 2 then STATUS_OK else 0)
    requires Phase(s) == 1 || Phase(s) == 3 ==> |Active(s) + {t}| >= 2
    requires 1 <= |Active(s) + {t}| < STATUS_OK
    ensures var s' := Enter(s.(word := v), t, v); forall u | u in s'.pcs :: PcGood(s', u, s'.pcs[u])
  {
    var s' := Enter(s.(word := v), t, v);
    assert Prefix(SETUP, 0) == {};
    forall u | u in s'.pcs ensures PcGood(s', u, s'.pcs[u]) {
      if u != t {
        assert PcGood(s, u, s.pcs[u]);
        if u in Active(s) {
          TwoIn(Active(s) + {t}, t, u);
        }
      }
    }
  }

  lemma CallInitKeeps(s: State, t: Tid)
    requires Inv(s) && Enabled(s, CallInit(t)) && InRange(s, CallInit(t))
    ensures Inv(Apply(s, CallInit(t)))
  {
    assert t !in Active(s) && |Active(s) + {t}| == |Active(s)| + 1;
    var nv := (s.word + 1) % WORD_SIZE;
    assert nv == s.word + 1;
    EnterKeeps(s, t, nv);
    assert Apply(s, CallInit(t)) == Enter(s.(word := nv), t, nv);
  }

  lemma WaitingKeeps(s: State, t: Tid)
    requires Inv(s) && PcOf(s, t).Waiting?
    ensures Inv(Apply(s, Access(t)))
  {
    assert Active(s) + {t} == Active(s);
    assert s.(word := s.word) == s;
    EnterKeeps(s, t, s.word);
  }

  lemma InitialisingKeeps(s: State, t: Tid)
    requires Inv(s) && PcOf(s, t).Initialising?
    ensures Inv(Apply(s, Access(t)))
  {
    var s', k := Apply(s, Access(t)), PcOf(s, t).k;
    assert PcGood(s, t, s.pcs[t]);
    ActiveAfter(s, s', t, PcOf(s', t));
    if k < 4 {
      assert Prefix(SETUP, k + 1) == Prefix(SETUP, k) + {SETUP[k]};
    } else {
      assert ALL == Prefix(SETUP, 4) by {
        assert SETUP[0] == Mutex && SETUP[1] == Cond && SETUP[2] == Random && SETUP[3] == Atomics;
      }
      LogGrows(s.log, InitEnds(t));
    }
    forall u | u in s'.pcs ensures PcGood(s', u, s'.pcs[u]) {
      assert PcGood(s, u, s.pcs[u]);
    }
  }

  lemma FiniKeeps(s: State, t: Tid)
    requires Inv(s) && (PcOf(s, t).FiniLoad? || PcOf(s, t).FiniCas?)
    ensures Inv(Apply(s, Access(t)))
  {
    var s', pc := Apply(s, Access(t)), PcOf(s, t);
    assert PcGood(s, t, s.pcs[t]);
    ActiveAfter(s, s', t, PcOf(s', t));
    assert t in Active(s);
    if pc.FiniCas? && s.word == pc.v && pc.nv == 1 {
      LogGrows(s.log, DestroyBegins(t));
      assert Prefix(TEARDOWN, 0) == {};
      forall u | u in s'.pcs ensures PcGood(s', u, s'.pcs[u]) {
        assert PcGood(s, u, s.pcs[u]);
        if u != t && u in Active(s) {
          TwoIn(Active(s), t, u);
        }
      }
    } else {
      forall u | u in s'.pcs ensures PcGood(s', u, s'.pcs[u]) {
        assert PcGood(s, u, s.pcs[u]);
      }
    }
  }

  lemma DestroyingKeeps(s: State, t: Tid)
    requires Inv(s) && PcOf(s, t).Destroying?
    ensures Inv(Apply(s, Access(t)))
  {
    var s', k := Apply(s, Access(t)), PcOf(s, t).k;
    assert PcGood(s, t, s.pcs[t]);
    ActiveAfter(s, s', t, PcOf(s', t));
    if k < 4 {
      assert Prefix(TEARDOWN, k + 1) == Prefix(TEARDOWN, k) + {TEARDOWN[k]};
    } else {
      assert ALL == Prefix(TEARDOWN, 4) by {
        assert TEARDOWN[0] == Cond && TEARDOWN[1] == Mutex && TEARDOWN[2] == Random && TEARDOWN[3] == Atomics;
      }
      assert t in Active(s);
      LogGrows(s.log, DestroyEnds(t));
    }
    forall u | u in s'.pcs ensures PcGood(s', u, s'.pcs[u]) {
      assert PcGood(s, u, s.pcs[u]);
    }
  }

  lemma CallFiniKeeps(s: State, t: Tid)
    requires Inv(s) && Enabled(s, CallFini(t))
    ensures Inv(Apply(s, CallFini(t)))
  {
    var s' := Apply(s, CallFini(t));
    ActiveAfter(s, s', t, FiniLoad);
    assert t in Active(s');
    forall u | u in s'.pcs ensures PcGood(s', u, s'.pcs[u]) {
      assert PcGood(s, u, s.pcs[u]);
    }
  }

  lemma StepKeepsInv(s: State, l: Label)
    requires Inv(s) && Enabled(s, l) && InRange(s, l)
    ensures Inv(Apply(s, l))
  {
    match l
    case CallInit(t) => CallInitKeeps(s, t);
    case CallFini(t) => CallFiniKeeps(s, t);
    case Access(t) =>
      assert PcGood(s, t, s.pcs[t]);
      match PcOf(s, t)
      case Waiting => WaitingKeeps(s, t);
      case Initialising(_) => InitialisingKeeps(s, t);
      case Destroying(_) => DestroyingKeeps(s, t);
      case FiniLoad => FiniKeeps(s, t);
      case FiniCas(_, _) => FiniKeeps(s, t);
      case _ => assert false;
  }

  // ---------------------------------------------------------------- runs

  function Final(s0: State, ls: seq<Label>): State {
    if ls == [] then s0 else Apply(Final(s0, ls[..|ls| - 1]), ls[|ls| - 1])
  }

  predicate Valid(s0: State, ls: seq<Label>) {
    ls == [] ||
    (var s := Final(s0, ls[..|ls| - 1]);
     Valid(s0, ls[..|ls| - 1]) && Enabled(s, ls[|ls| - 1]) && InRange(s, ls[|ls| - 1]))
  }

  lemma {:induction false} RunKeepsInv(s0: State, ls: seq<Label>)
    requires Inv(s0) && Valid(s0, ls)
    ensures Inv(Final(s0, ls))
    decreases |ls|
  {
    if ls != [] {
      RunKeepsInv(s0, ls[..|ls| - 1]);
      StepKeepsInv(Final(s0, ls[..|ls| - 1]), ls[|ls| - 1]);
    }
  }

  function Initialisers(s: State): set<Tid> {
    set t | t in s.pcs && s.pcs[t].Initialising?
  }

  function Waiters(s: State): set<Tid> {
    set t | t in s.pcs && s.pcs[t].Waiting?
  }

  function Holders(s: State): set<Tid> {
    set t | t in s.pcs && s.pcs[t].Holds()
  }

  function Destroyers(s: State): set<Tid> {
    set t | t in s.pcs && s.pcs[t].Destroying?
  }

  /** At most one thread is at work; initialisations and destructions alternate; while any init has returned
      and its fini has not taken effect, everything is set up; nobody spins forever on a value it has read; and
      the low 31 bits count exactly the initialiser, the waiters, the holders and the destroyer. */
  ghost predicate Safe(s: State) {
    && (forall t, u | PcOf(s, t).Working() && PcOf(s, u).Working() :: t == u)
    && Alternates(s.log)
    && (forall t | PcOf(s, t).Holds() :: s.up == ALL && s.word >= STATUS_OK)
    && (forall t :: !PcOf(s, t).Spinning?)
    && s.word % STATUS_OK == |Initialisers(s)| + |Waiters(s)| + |Holders(s)| + |Destroyers(s)|
  }

  /** Every state of every run is safe. */
  lemma RunIsSafe(ls: seq<Label>)
    requires Valid(START, ls)
    ensures Safe(Final(START, ls))
  {
    assert Active(START) == {};
    RunKeepsInv(START, ls);
    InvIsSafe(Final(START, ls));
  }

  lemma InvIsSafe(s: State)
    requires Inv(s)
    ensures Safe(s)
  {
    forall t ensures !PcOf(s, t).Spinning? {
      NobodySpins(s, t);
    }
    forall t | t in s.pcs ensures PcGood(s, t, s.pcs[t]) {
    }
    ActiveSplits(s);
  }

  lemma NobodySpins(s: State, t: Tid)
    requires Inv(s)
    ensures !PcOf(s, t).Spinning?
  {
    if t in s.pcs {
      assert PcGood(s, t, s.pcs[t]);
    }
  }

  lemma ActiveSplits(s: State)
    requires forall t :: !PcOf(s, t).Spinning?
    ensures |Active(s)| == |Initialisers(s)| + |Waiters(s)| + |Holders(s)| + |Destroyers(s)|
  {
    forall t | t in Active(s) ensures t in Initialisers(s) + Waiters(s) + Holders(s) + Destroyers(s) {
      assert !PcOf(s, t).Spinning?;
    }
    assert Active(s) == Initialisers(s) + Waiters(s) + Holders(s) + Destroyers(s);
    DisjointUnion(Initialisers(s), Waiters(s), Holders(s), Destroyers(s));
  }

  lemma DisjointUnion(a: set<Tid>, b: set<Tid>, c: set<Tid>, d: set<Tid>)
    requires a !! b && (a + b) !! c && (a + b + c) !! d
    ensures |a + b + c + d| == |a| + |b| + |c| + |d|
  {
    assert |a + b| == |a| + |b|;
    assert |a + b + c| == |a + b| + |c|;
  }

  /** A resource is set up only while it is down, and taken down only while it is up. */
  lemma ResourcesArePaired(s: State, t: Tid)
    requires Inv(s)
    ensures PcOf(s, t).Initialising? && PcOf(s, t).k < 4 ==> SETUP[PcOf(s, t).k] !in s.up
    ensures PcOf(s, t).Destroying? && PcOf(s, t).k < 4 ==> TEARDOWN[PcOf(s, t).k] in s.up
  {
    if PcOf(s, t).Working() {
      assert PcGood(s, t, s.pcs[t]);
    }
  }

  // ---------------------------------------------------------------- what the range is for

  /** The caller of init that no longer fits in 31 bits, and only it, ends in the loop that never reads the
      word again. */
  lemma SpinsIffOutOfRange(s: State, t: Tid)
    requires Inv(s) && Enabled(s, CallInit(t))
    ensures PcOf(Apply(s, CallInit(t)), t).Spinning? <==> !InRange(s, CallInit(t))
  {
    if InRange(s, CallInit(t)) {
      CallInitKeeps(s, t);
      var s' := Apply(s, CallInit(t));
      assert PcGood(s', t, s'.pcs[t]);
    }
  }

  // ---------------------------------------------------------------- when waiting is for ever

  /** Nobody initialises, destroys or holds, and k callers of init are waiting. */
  predicate Deserted(s: State, k: nat) {
    Inv(s) && Phase(s) == 0 && |Active(s)| == k
  }

  lemma DesertedStep(s: State, k: nat, l: Label)
    requires Deserted(s, k) && k >= 2 && Enabled(s, l) && InRange(s, l)
    ensures Apply(s, l).log == s.log
    ensures Deserted(Apply(s, l), k) || Deserted(Apply(s, l), k + 1)
  {
    var s' := Apply(s, l);
    StepKeepsInv(s, l);
    assert PcGood(s, l.t, PcOf(s, l.t));
    ActiveAfter(s, s', l.t, PcOf(s', l.t));
  }

  /** Two callers waiting after a destruction wait for ever: no continuation of the run initialises anything. */
  lemma {:induction false} TwoWaitersWaitForEver(s: State, k: nat, ls: seq<Label>)
    requires Deserted(s, k) && k >= 2 && Valid(s, ls)
    ensures Final(s, ls).log == s.log
    ensures exists m | m >= 2 :: Deserted(Final(s, ls), m)
    decreases |ls|
  {
    if ls != [] {
      TwoWaitersWaitForEver(s, k, ls[..|ls| - 1]);
      var s1 := Final(s, ls[..|ls| - 1]);
      var m :| m >= 2 && Deserted(s1, m);
      DesertedStep(s1, m, ls[|ls| - 1]);
    }
  }

  /** With at most one caller waiting, its next read (or, with none, the next call) starts an initialisation. */
  lemma LoneWaiterInitialises(s: State, t: Tid)
    requires Deserted(s, 0) || (Deserted(s, 1) && PcOf(s, t).Waiting?)
    ensures var l := if |Active(s)| == 0 then CallInit(t) else Access(t);
            Enabled(s, l) && InRange(s, l) && Apply(s, l).log == s.log + [InitBegins(t)] &&
            PcOf(Apply(s, l), t) == Initialising(0)
  {
    if Deserted(s, 0) {
      assert t !in Active(s);
    }
  }

  ghost predicate CanInitialise(s: State) {
    exists ls :: Valid(s, ls) && |Final(s, ls).log| > |s.log|
  }

  /** Once nobody is at work or holding, the runtime can ever come up again exactly when at most one caller
      is waiting. */
  lemma RecoversIff(s: State, k: nat)
    requires Deserted(s, k)
    ensures CanInitialise(s) <==> k <= 1
  {
    if k <= 1 {
      var t: Tid := 0;
      if k == 1 {
        assert Active(s) != {};
        t :| t in Active(s);
        assert PcGood(s, t, s.pcs[t]);
      }
      LoneWaiterInitialises(s, t);
      var l := if k == 0 then CallInit(t) else Access(t);
      assert Final(s, []) == s && Valid(s, []);
      assert [l][..0] == [];
      assert Valid(s, [l]) && Final(s, [l]) == Apply(s, l);
    } else {
      forall ls | Valid(s, ls) ensures |Final(s, ls).log| <= |s.log| {
        TwoWaitersWaitForEver(s, k, ls);
      }
    }
  }

  ghost predicate Reaches(ls: seq<Label>, s: State) {
    Valid(START, ls) && Final(START, ls) == s
  }

  lemma Go(ls: seq<Label>, s: State, l: Label, s': State) returns (ls': seq<Label>)
    requires Reaches(ls, s) && Enabled(s, l) && InRange(s, l) && Apply(s, l) == s'
    ensures Reaches(ls', s')
  {
    ls' := ls + [l];
    assert ls'[..|ls|] == ls;
  }

  /** One access of thread 0, when it is the only one to change. */
  lemma Go0(ls: seq<Label>, s: State, s': State) returns (ls': seq<Label>)
    requires Reaches(ls, s) && Enabled(s, Access(0))
    requires 0 in s'.pcs && Apply(s, Access(0)) == s'.(pcs := s.pcs[0 := s'.pcs[0]])
    requires s'.pcs == s.pcs[0 := s'.pcs[0]]
    ensures Reaches(ls', s')
  {
    ls' := Go(ls, s, Access(0), s');
  }

  /** Such a state is reachable: two threads call init while a third is destroying. */
  lemma TwoWaitersAreReachable() returns (ls: seq<Label>)
    ensures Valid(START, ls) && Deserted(Final(START, ls), 2)
  {
    ls := FirstHolder();
    ls := LastHolderDestroys(ls);
    ls := TwoCallDuringDestroy(ls);
    ls := FinishDestroy(ls);
    RunKeepsInv(START, ls) by {
      assert Active(START) == {};
    }
    assert Active(Final(START, ls)) == {1, 2};
  }

  const BORN := [InitBegins(0), InitEnds(0)]

  lemma FirstCall() returns (ls: seq<Label>)
    ensures Reaches(ls, State(1, {}, map[0 := Initialising(0)], [InitBegins(0)]))
  {
    assert Active(START) == {} && Reaches([], START);
    ls := Go([], START, CallInit(0), State(1, {}, map[0 := Initialising(0)], [InitBegins(0)]));
  }

  lemma FirstHolder() returns (ls: seq<Label>)
    ensures Reaches(ls, State(STATUS_OK + 1, ALL, map[0 := Live], BORN))
  {
    var log, pcs := [InitBegins(0)], map[0 := Initialising(0)];
    ls := FirstCall();
    ls := Go0(ls, State(1, {}, pcs, log), State(1, {Mutex}, pcs[0 := Initialising(1)], log));
    ls := Go0(ls, State(1, {Mutex}, pcs[0 := Initialising(1)], log),
              State(1, {Mutex, Cond}, pcs[0 := Initialising(2)], log));
    ls := Go0(ls, State(1, {Mutex, Cond}, pcs[0 := Initialising(2)], log),
              State(1, {Mutex, Cond, Random}, pcs[0 := Initialising(3)], log));
    ls := Go0(ls, State(1, {Mutex, Cond, Random}, pcs[0 := Initialising(3)], log),
              State(1, ALL, pcs[0 := Initialising(4)], log));
    ls := Go0(ls, State(1, ALL, pcs[0 := Initialising(4)], log), State(STATUS_OK + 1, ALL, map[0 := Live], BORN));
  }

  lemma LastHolderDestroys(ls0: seq<Label>) returns (ls: seq<Label>)
    requires Reaches(ls0, State(STATUS_OK + 1, ALL, map[0 := Live], BORN))
    ensures Reaches(ls, State(1, ALL, map[0 := Destroying(0)], BORN + [DestroyBegins(0)]))
  {
    var word, cas := STATUS_OK + 1, FiniCas(STATUS_OK + 1, 1);
    assert map[0 := Live][0 := FiniLoad] == map[0 := FiniLoad];
    ls := Go(ls0, State(word, ALL, map[0 := Live], BORN), CallFini(0), State(word, ALL, map[0 := FiniLoad], BORN));
    ls := Go0(ls, State(word, ALL, map[0 := FiniLoad], BORN), State(word, ALL, map[0 := cas], BORN));
    ls := Go0(ls, State(word, ALL, map[0 := cas], BORN),
              State(1, ALL, map[0 := Destroying(0)], BORN + [DestroyBegins(0)]));
  }

  /** A call of init that finds others counted and the status bit clear waits. */
  lemma CallWaits(s: State, t: Tid)
    requires PcOf(s, t).Idle? && 1 <= s.word < STATUS_OK - 1
    ensures Apply(s, CallInit(t)) == s.(word := s.word + 1, pcs := s.pcs[t := Waiting])
  {
  }

  lemma TwoCallDuringDestroy(ls0: seq<Label>) returns (ls: seq<Label>)
    requires Reaches(ls0, State(1, ALL, map[0 := Destroying(0)], BORN + [DestroyBegins(0)]))
    ensures Reaches(ls, State(3, ALL, map[0 := Destroying(0), 1 := Waiting, 2 := Waiting], BORN + [DestroyBegins(0)]))
  {
    hide Reaches, Apply;
    var log := BORN + [DestroyBegins(0)];
    var s := State(1, ALL, map[0 := Destroying(0)], log);
    var s1 := State(2, ALL, map[0 := Destroying(0), 1 := Waiting], log);
    assert Active(s) == {0} && Active(s1) == {0, 1};
    CallWaits(s, 1);
    ls := Go(ls0, s, CallInit(1), s1);
    CallWaits(s1, 2);
    ls := Go(ls, s1, CallInit(2), State(3, ALL, map[0 := Destroying(0), 1 := Waiting, 2 := Waiting], log));
  }

  lemma FinishDestroy(ls0: seq<Label>) returns (ls: seq<Label>)
    requires Reaches(ls0, State(3, ALL, map[0 := Destroying(0), 1 := Waiting, 2 := Waiting], BORN + [DestroyBegins(0)]))
    ensures Reaches(ls, State(2, {}, map[0 := Idle, 1 := Waiting, 2 := Waiting],
                              BORN + [DestroyBegins(0), DestroyEnds(0)]))
  {
    var log, pcs := BORN + [DestroyBegins(0)], map[0 := Destroying(0), 1 := Waiting, 2 := Waiting];
    ls := Go0(ls0, State(3, ALL, pcs, log), State(3, {Mutex, Random, Atomics}, pcs[0 := Destroying(1)], log));
    ls := Go0(ls, State(3, {Mutex, Random, Atomics}, pcs[0 := Destroying(1)], log),
              State(3, {Random, Atomics}, pcs[0 := Destroying(2)], log));
    ls := Go0(ls, State(3, {Random, Atomics}, pcs[0 := Destroying(2)], log),
              State(3, {Atomics}, pcs[0 := Destroying(3)], log));
    ls := Go0(ls, State(3, {Atomics}, pcs[0 := Destroying(3)], log), State(3, {}, pcs[0 := Destroying(4)], log));
    ls := Go0(ls, State(3, {}, pcs[0 := Destroying(4)], log),
              State(2, {}, map[0 := Idle, 1 := Waiting, 2 := Waiting], BORN + [DestroyBegins(0), DestroyEnds(0)]));
  }

  // ---------------------------------------------------------------- the endless retry is reachable

  /** Thread 0 initialises and n - 1 others wait for it. */
  function Crowd(n: nat): (s: State)
    requires n > 0
    ensures s.word == n && forall t | t in s.pcs :: t < n
  {
    if n == 1 then State(1, {}, map[0 := Initialising(0)], [InitBegins(0)])
    else Crowd(n - 1).(word := n, pcs := Crowd(n - 1).pcs[n - 1 := Waiting])
  }

  lemma {:induction false} CrowdActive(n: nat)
    requires n > 0
    ensures |Active(Crowd(n))| == n
  {
    if n == 1 {
      assert Active(Crowd(1)) == {0};
    } else {
      CrowdActive(n - 1);
      ActiveAfter(Crowd(n - 1), Crowd(n), n - 1, Waiting);
    }
  }

  lemma {:induction false} CrowdGathers(n: nat) returns (ls: seq<Label>)
    requires 1 <= n < STATUS_OK
    ensures Reaches(ls, Crowd(n))
    decreases n
  {
    hide Reaches, Apply;
    if n == 1 {
      ls := FirstCall();
    } else {
      var before := CrowdGathers(n - 1);
      CrowdActive(n - 1);
      CallWaits(Crowd(n - 1), n - 1);
      ls := Go(before, Crowd(n - 1), CallInit(n - 1), Crowd(n));
    }
  }

  /** A run within the 31 bits after which the next caller of init retries for ever: nothing that it does from then on
      changes anything. */
  lemma SpinIsReachable() returns (ls: seq<Label>, t: Tid)
    ensures Valid(START, ls) && Enabled(Final(START, ls), CallInit(t))
    ensures var s := Apply(Final(START, ls), CallInit(t)); PcOf(s, t).Spinning? && Apply(s, Access(t)) == s
  {
    t := STATUS_OK - 1;
    ls := CrowdGathers(t);
    CrowdActive(t);
    assert PcOf(Crowd(t), t).Idle?;
    RunKeepsInv(START, ls);
    SpinsIffOutOfRange(Crowd(t), t);
  }
}
