/** What ddsrt_init and ddsrt_fini of ddsrt/src/cdtors.c get done: which calls return at once, which wait, and what a
    thread does that is left to itself. */
module CdtorsProgress {
  import opened Cdtors

  /** n accesses of t with nobody else moving. */
  function Alone(s: State, t: Tid, n: nat): State
    decreases n
  {
    if n == 0 then s else Alone(Apply(s, Access(t)), t, n - 1)
  }

  // ---------------------------------------------------------------- init

  /** What a call of init does, by the phase and by who else is counted. */
  lemma CallInitDoes(s: State, t: Tid)
    requires Inv(s) && Enabled(s, CallInit(t)) && InRange(s, CallInit(t))
    ensures var s' := Apply(s, CallInit(t));
            && (Phase(s) == 2 ==> PcOf(s', t) == Live && s'.log == s.log)
            && (Phase(s) == 0 && Active(s) == {} ==>
                  PcOf(s', t) == Initialising(0) && s'.log == s.log + [InitBegins(t)])
            && (Phase(s) != 2 && Active(s) != {} ==> PcOf(s', t) == Waiting && s'.log == s.log)
            && s'.up == s.up && Active(s') == Active(s) + {t} && |Active(s')| == |Active(s)| + 1
            && forall u | u != t :: PcOf(s', u) == PcOf(s, u)
  {
    hide PcGood, Alternates;
    ActiveAfter(s, Apply(s, CallInit(t)), t, PcOf(Apply(s, CallInit(t)), t));
    WordIsCount(s);
  }

  lemma WordIsCount(s: State)
    requires Inv(s)
    ensures s.word == |Active(s)| + (if Phase(s) == 2 then STATUS_OK else 0) && |Active(s)| < STATUS_OK
    ensures Active(s) == {} <==> |Active(s)| == 0
  {
  }

  /** Init on a runtime that is up returns with its one access. */
  lemma InitReturnsWhenUp(s: State, t: Tid)
    requires Inv(s) && Phase(s) == 2 && Enabled(s, CallInit(t)) && InRange(s, CallInit(t))
    ensures var s' := Apply(s, CallInit(t)); PcOf(s', t) == Live && s'.log == s.log && s'.up == s.up == ALL
  {
    CallInitDoes(s, t);
  }

  /** A waiter returns with its next read exactly when the runtime is up, initialises exactly when it is the only one
      counted, and otherwise its read changes nothing at all. */
  lemma WaiterDoes(s: State, t: Tid)
    requires Inv(s) && PcOf(s, t).Waiting?
    ensures var s' := Apply(s, Access(t));
            && (PcOf(s', t) == Live <==> Phase(s) == 2)
            && (PcOf(s', t) == Initialising(0) <==> Phase(s) != 2 && Active(s) == {t})
            && (Phase(s) == 2 ==> s'.log == s.log && s'.up == s.up == ALL)
            && (Phase(s) != 2 && Active(s) == {t} ==> s'.log == s.log + [InitBegins(t)])
            && (Phase(s) != 2 && Active(s) != {t} ==> s' == s)
  {
    hide PcGood, Alternates;
    WordIsCount(s);
    assert t in Active(s);
    if Active(s) != {t} {
      var u :| u in Active(s) && u != t;
      TwoIn(Active(s), t, u);
      assert s.pcs[t := Waiting] == s.pcs;
    }
  }

  lemma StepInitialises(s: State, t: Tid)
    requires Inv(s) && PcOf(s, t).Initialising?
    ensures PcOf(s, t).k <= 4 && Inv(Apply(s, Access(t)))
    ensures PcOf(s, t).k < 4 ==>
              PcOf(Apply(s, Access(t)), t) == Initialising(PcOf(s, t).k + 1) && Apply(s, Access(t)).log == s.log
    ensures PcOf(s, t).k == 4 ==>
              PcOf(Apply(s, Access(t)), t) == Live && Apply(s, Access(t)).log == s.log + [InitEnds(t)] &&
              Apply(s, Access(t)).up == s.up == ALL
  {
    StepKeepsInv(s, Access(t));
    assert PcGood(s, t, s.pcs[t]);
    if PcOf(s, t).k == 4 {
      assert SETUP[0] == Mutex && SETUP[1] == Cond && SETUP[2] == Random && SETUP[3] == Atomics;
      assert Prefix(SETUP, 4) == ALL;
    }
  }

  /** An initialiser needs nobody to bring the runtime up and to return. */
  lemma {:induction false} InitialiserFinishes(s: State, t: Tid)
    requires Inv(s) && PcOf(s, t).Initialising?
    ensures PcOf(s, t).k <= 4
    ensures var s' := Alone(s, t, 5 - PcOf(s, t).k);
            Inv(s') && PcOf(s', t) == Live && s'.up == ALL && s'.log == s.log + [InitEnds(t)]
    decreases 5 - PcOf(s, t).k
  {
    hide Apply, Inv, Phase;
    StepInitialises(s, t);
    if PcOf(s, t).k < 4 {
      InitialiserFinishes(Apply(s, Access(t)), t);
    } else {
      AloneOnce(s, t);
    }
  }

  lemma AloneOnce(s: State, t: Tid)
    ensures Alone(s, t, 1) == Apply(s, Access(t))
  {
    assert Alone(Apply(s, Access(t)), t, 0) == Apply(s, Access(t));
  }

  /** The first call of all, left to itself. */
  lemma FirstInitBringsUp(s: State, t: Tid)
    requires Inv(s) && Phase(s) == 0 && Active(s) == {}
    ensures var s' := Alone(Apply(s, CallInit(t)), t, 5);
            Inv(s') && PcOf(s', t) == Live && s'.up == ALL && s'.log == s.log + [InitBegins(t), InitEnds(t)]
  {
    hide Apply, PcGood;
    assert t !in Active(s);
    CallInitDoes(s, t);
    StepKeepsInv(s, CallInit(t));
    InitialiserFinishes(Apply(s, CallInit(t)), t);
  }

  // ---------------------------------------------------------------- fini

  /** The load and the swap of a fini that nobody disturbs. */
  lemma FiniUndisturbed(s: State, t: Tid)
    requires Inv(s) && PcOf(s, t).Live?
    ensures var s' := Alone(Apply(s, CallFini(t)), t, 2);
            && Inv(s')
            && (Active(s) != {t} ==>
                  PcOf(s', t) == Idle && s'.log == s.log && s'.up == ALL && Active(s') == Active(s) - {t} &&
                  |Active(s')| == |Active(s)| - 1 && s'.word == s.word - 1)
            && (Active(s) == {t} ==>
                  PcOf(s', t) == Destroying(0) && s'.log == s.log + [DestroyBegins(t)] && s'.up == ALL && s'.word == 1)
  {
    hide PcGood, Alternates;
    var s1 := Apply(s, CallFini(t));
    LiveIsUp(s, t);
    WordIsCount(s);
    StepKeepsInv(s, CallFini(t));
    FiniLoads(s1, t);
    var s2 := Apply(s1, Access(t));
    FiniSwaps(s2, t);
    ActiveAfter(s, s1, t, FiniLoad);
    ActiveAfter(s1, s2, t, PcOf(s2, t));
    assert Active(s2) == Active(s);
    assert Alone(s1, t, 2) == Alone(s2, t, 1);
    AloneOnce(s2, t);
  }

  lemma LiveIsUp(s: State, t: Tid)
    requires Inv(s) && PcOf(s, t).Holds()
    ensures Phase(s) == 2 && s.up == ALL && t in Active(s)
  {
    assert PcGood(s, t, s.pcs[t]);
  }

  lemma FiniLoads(s: State, t: Tid)
    requires Inv(s) && PcOf(s, t).FiniLoad?
    ensures var s' := Apply(s, Access(t));
            && Inv(s') && PcOf(s', t).FiniCas? && PcOf(s', t).v == s.word
            && s' == s.(pcs := s.pcs[t := PcOf(s', t)])
  {
    StepKeepsInv(s, Access(t));
  }

  /** A swap of a fini whose value is current takes effect; one whose value is not makes it load again. */
  lemma FiniSwaps(s: State, t: Tid)
    requires Inv(s) && PcOf(s, t).FiniCas?
    ensures var s' := Apply(s, Access(t));
            && Inv(s')
            && (PcOf(s, t).v != s.word ==> s' == s.(pcs := s.pcs[t := FiniLoad]))
            && (PcOf(s, t).v == s.word && Active(s) != {t} ==>
                  PcOf(s', t) == Idle && s'.log == s.log && s'.up == ALL && s'.word == s.word - 1 &&
                  Active(s') == Active(s) - {t} && |Active(s')| == |Active(s)| - 1)
            && (PcOf(s, t).v == s.word && Active(s) == {t} ==>
                  PcOf(s', t) == Destroying(0) && s'.log == s.log + [DestroyBegins(t)] && s'.up == ALL && s'.word == 1)
  {
    var s' := Apply(s, Access(t));
    StepKeepsInv(s, Access(t));
    assert PcGood(s, t, s.pcs[t]);
    LiveIsUp(s, t);
    WordIsCount(s);
    ActiveAfter(s, s', t, PcOf(s', t));
    if Active(s) != {t} {
      var u :| u in Active(s) && u != t;
      TwoIn(Active(s), t, u);
    }
  }

  lemma StepDestroys(s: State, t: Tid)
    requires Inv(s) && PcOf(s, t).Destroying?
    ensures PcOf(s, t).k <= 4 && Inv(Apply(s, Access(t)))
    ensures var s' := Apply(s, Access(t));
            && (PcOf(s, t).k < 4 ==>
                  PcOf(s', t) == Destroying(PcOf(s, t).k + 1) && s'.log == s.log && Active(s') == Active(s))
            && (PcOf(s, t).k == 4 ==>
                  PcOf(s', t) == Idle && s'.log == s.log + [DestroyEnds(t)] && s'.up == s.up == {} &&
                  Active(s') == Active(s) - {t})
  {
    var s' := Apply(s, Access(t));
    StepKeepsInv(s, Access(t));
    assert PcGood(s, t, s.pcs[t]);
    ActiveAfter(s, s', t, PcOf(s', t));
    assert t in Active(s);
    if PcOf(s, t).k == 4 {
      assert TEARDOWN[0] == Cond && TEARDOWN[1] == Mutex && TEARDOWN[2] == Random && TEARDOWN[3] == Atomics;
      assert Prefix(TEARDOWN, 4) == ALL;
    }
  }

  /** A destroyer needs nobody to take everything down and to return. */
  lemma {:induction false} DestroyerFinishes(s: State, t: Tid)
    requires Inv(s) && PcOf(s, t).Destroying?
    ensures PcOf(s, t).k <= 4
    ensures var s' := Alone(s, t, 5 - PcOf(s, t).k);
            Inv(s') && PcOf(s', t) == Idle && s'.up == {} && s'.log == s.log + [DestroyEnds(t)] &&
            Active(s') == Active(s) - {t}
    decreases 5 - PcOf(s, t).k
  {
    hide Apply, Inv, Active;
    StepDestroys(s, t);
    if PcOf(s, t).k < 4 {
      DestroyerFinishes(Apply(s, Access(t)), t);
    } else {
      AloneOnce(s, t);
    }
  }

  lemma {:induction false} AloneAdds(s: State, t: Tid, m: nat, n: nat)
    ensures Alone(s, t, m + n) == Alone(Alone(s, t, m), t, n)
    decreases m
  {
    hide Apply;
    if m > 0 {
      AloneAdds(Apply(s, Access(t)), t, m - 1, n);
    }
  }

  /** The last holder, left to itself, takes everything down. */
  lemma LastFiniTakesDown(s: State, t: Tid)
    requires Inv(s) && PcOf(s, t).Live? && Active(s) == {t}
    ensures var s' := Alone(Apply(s, CallFini(t)), t, 7);
            Inv(s') && PcOf(s', t) == Idle && s'.up == {} && Active(s') == {} &&
            s'.log == s.log + [DestroyBegins(t), DestroyEnds(t)]
  {
    hide Apply, Inv, Alone, PcGood;
    var s1 := Alone(Apply(s, CallFini(t)), t, 2);
    FiniUndisturbed(s, t);
    DestroyerFinishes(s1, t);
    AloneAdds(Apply(s, CallFini(t)), t, 2, 5);
    OnlyCounted(s1, t);
  }

  lemma OnlyCounted(s: State, t: Tid)
    requires Inv(s) && s.word == 1 && PcOf(s, t).Destroying?
    ensures Active(s) == {t}
  {
    WordIsCount(s);
    assert t in Active(s);
    if u :| u in Active(s) && u != t {
      TwoIn(Active(s), t, u);
    }
  }

  // ---------------------------------------------------------------- the order of the resources

  /** The condition variable is never up without its mutex; while coming up each resource waits for the ones before it,
      and while going down likewise. */
  lemma ResourceOrder(s: State)
    requires Inv(s)
    ensures Cond in s.up ==> Mutex in s.up
    ensures Phase(s) == 1 ==> (Random in s.up ==> Cond in s.up) && (Atomics in s.up ==> Random in s.up)
    ensures Phase(s) == 3 ==> (Random !in s.up ==> Mutex !in s.up) && (Atomics !in s.up ==> Random !in s.up)
  {
    if Phase(s) == 1 || Phase(s) == 3 {
      assert PcGood(s, Owner(s), s.pcs[Owner(s)]);
      assert SETUP[0] == Mutex && SETUP[1] == Cond && SETUP[2] == Random && SETUP[3] == Atomics;
      assert TEARDOWN[0] == Cond && TEARDOWN[1] == Mutex && TEARDOWN[2] == Random && TEARDOWN[3] == Atomics;
    }
  }
}
