/** What the LIFO's counter is for: where every node is, exactly when a pop's compare-and-swap is right, and
    that the bound of fewer than w swaps in the window cannot be relaxed. */
module LifoLimits {
  import opened Lifo
  import WordMath

  // ---------------------------------------------------------------- where the nodes are

  function BeingPushed(s: State): set<Addr> {
    set t, x | t in s.pcs && s.pcs[t].Pushing() && x in s.pcs[t].chain :: x
  }

  /** Every node is on the stack, with the clients or in a push under way. */
  predicate Accounted(s: State, stk: seq<Addr>) {
    s.link.Keys == (set x | x in stk) + s.free + BeingPushed(s)
  }

  lemma OthersKeepPushing(w: nat, s: State, l: Label, t: Tid, x: Addr)
    requires w > 0 && Enabled(s, l) && t in s.pcs && s.pcs[t].Pushing() && x in s.pcs[t].chain
    requires !(l == Access(t) && CasSucceeds(s, l))
    ensures x in BeingPushed(Apply(w, s, l))
  {
    OneEffectPerCall(w, s, l, t);
    var s' := Apply(w, s, l);
    assert t in s'.pcs && s'.pcs[t].Pushing() && x in s'.pcs[t].chain;
  }

  lemma StepAccounts(w: nat, s: State, stk: seq<Addr>, l: Label)
    requires w > 0 && Inv(w, s, stk) && Enabled(s, l) && Timely(w, s, l) && Accounted(s, stk)
    ensures Accounted(Apply(w, s, l), Abstract(s, stk, l))
  {
    var s', stk' := Apply(w, s, l), Abstract(s, stk, l);
    StepKeepsInv(w, s, stk, l);
    StepKeepsNodes(w, s, stk, l);
    EveryNodeHasAPlace(w, s, stk, l);
    PlacesAreNodes(w, s', stk');
  }

  lemma PushKeepsItsPlace(w: nat, s: State, stk: seq<Addr>, l: Label, x: Addr)
    requires w > 0 && Enabled(s, l) && x in BeingPushed(s)
    ensures x in Abstract(s, stk, l) || x in BeingPushed(Apply(w, s, l))
  {
    var t :| t in s.pcs && s.pcs[t].Pushing() && x in s.pcs[t].chain;
    if !(l == Access(t) && CasSucceeds(s, l)) {
      OthersKeepPushing(w, s, l, t, x);
    }
  }

  lemma NodeKeepsAPlace(w: nat, s: State, stk: seq<Addr>, l: Label, x: Addr)
    requires w > 0 && Inv(w, s, stk) && Enabled(s, l)
    requires Effect(s, l).Some? ==> Legal(stk, Effect(s, l).value)
    requires x in stk || x in s.free || x in BeingPushed(s)
    ensures x in Abstract(s, stk, l) || x in Apply(w, s, l).free || x in BeingPushed(Apply(w, s, l))
  {
    hide Chain, NoDuplicates, Linked, PcGood, WordOk;
    var s', stk' := Apply(w, s, l), Abstract(s, stk, l);
    if x in BeingPushed(s) {
      PushKeepsItsPlace(w, s, stk, l, x);
    } else if x in s.free {
      if l.CallPush? && x in l.nodes {
        assert l.t in s'.pcs && s'.pcs[l.t].Pushing() && x in s'.pcs[l.t].chain;
      }
    } else if Effect(s, l).Some? && Effect(s, l).value.Popped? {
      assert stk == [stk[0]] + stk';
    }
  }

  lemma EveryNodeHasAPlace(w: nat, s: State, stk: seq<Addr>, l: Label)
    requires w > 0 && Inv(w, s, stk) && Enabled(s, l) && Timely(w, s, l) && Accounted(s, stk)
    ensures forall x | x in s.link ::
              x in Abstract(s, stk, l) || x in Apply(w, s, l).free || x in BeingPushed(Apply(w, s, l))
  {
    StepKeepsInv(w, s, stk, l);
    forall x | x in s.link
      ensures x in Abstract(s, stk, l) || x in Apply(w, s, l).free || x in BeingPushed(Apply(w, s, l))
    {
      NodeKeepsAPlace(w, s, stk, l, x);
    }
  }

  lemma PlacesAreNodes(w: nat, s: State, stk: seq<Addr>)
    requires w > 0 && Inv(w, s, stk)
    ensures (set x | x in stk) + s.free + BeingPushed(s) <= s.link.Keys
  {
    forall x | x in BeingPushed(s) ensures x in s.link {
      var t :| t in s.pcs && s.pcs[t].Pushing() && x in s.pcs[t].chain;
      assert PcGood(s, stk, s.pcs[t]);
    }
  }

  /** In every reachable state the chain from the head, the clients' nodes and the chains being pushed by
      different threads have no node in common, and together they are all the nodes. */
  lemma {:induction false} RunPartitionsNodes(w: nat, nodes: set<Addr>, ls: seq<Label>, stk: seq<Addr>)
    requires w > 0 && 0 !in nodes
    requires Valid(w, Init(nodes), ls) && AllTimely(w, Init(nodes), ls)
    requires Chain(Final(w, Init(nodes), ls).link, Final(w, Init(nodes), ls).b, stk)
    ensures nodes == (set x | x in stk) + Final(w, Init(nodes), ls).free + BeingPushed(Final(w, Init(nodes), ls))
    ensures forall x | x in stk ::
              x !in Final(w, Init(nodes), ls).free && x !in BeingPushed(Final(w, Init(nodes), ls))
    ensures Final(w, Init(nodes), ls).free !! BeingPushed(Final(w, Init(nodes), ls))
    ensures Inv(w, Final(w, Init(nodes), ls), stk)
    decreases |ls|
  {
    var s := Final(w, Init(nodes), ls);
    RunIsAtomic(w, nodes, ls);
    ChainIsUnique(s.link, s.b, stk, Replay(History(w, Init(nodes), ls)));
    RunAccounts(w, nodes, ls);
    forall x | x in BeingPushed(s) ensures x !in stk && x !in s.free {
      var t :| t in s.pcs && s.pcs[t].Pushing() && x in s.pcs[t].chain;
      assert PcGood(s, stk, s.pcs[t]);
    }
  }

  lemma {:induction false} RunAccounts(w: nat, nodes: set<Addr>, ls: seq<Label>)
    requires w > 0 && 0 !in nodes
    requires Valid(w, Init(nodes), ls) && AllTimely(w, Init(nodes), ls)
    ensures Final(w, Init(nodes), ls).link.Keys == nodes
    ensures Accounted(Final(w, Init(nodes), ls), Replay(History(w, Init(nodes), ls)))
    decreases |ls|
  {
    if ls != [] {
      var before, l := ls[..|ls| - 1], ls[|ls| - 1];
      RunAccounts(w, nodes, before);
      RunIsAtomic(w, nodes, before);
      var s, h := Final(w, Init(nodes), before), History(w, Init(nodes), before);
      StepAccounts(w, s, Replay(h), l);
      StepKeepsNodes(w, s, Replay(h), l);
      if Effect(s, l).Some? {
        HistoryGrows(h, Effect(s, l).value);
      }
    }
  }

  lemma StepKeepsNodes(w: nat, s: State, stk: seq<Addr>, l: Label)
    requires w > 0 && Inv(w, s, stk) && Enabled(s, l)
    ensures Apply(w, s, l).link.Keys == s.link.Keys
  {
    if l.Access? && PcOf(s, l.t).PushLink? {
      assert PcGood(s, stk, s.pcs[l.t]);
      assert Last(s.pcs[l.t].chain) in s.pcs[l.t].chain;
    }
  }

  // ---------------------------------------------------------------- when a pop is right

  /** A pop's successful compare-and-swap leaves the rest of the stack, whatever the counter says, exactly
      when the link it read is still the top node's link. */
  lemma PopIsRightIff(w: nat, s: State, stk: seq<Addr>, t: Tid)
    requires w > 0 && Inv(w, s, stk) && PcOf(s, t).PopCas? && CasSucceeds(s, Access(t))
    ensures stk != [] && stk[0] == PcOf(s, t).b0
    ensures Chain(Apply(w, s, Access(t)).link, Apply(w, s, Access(t)).b, stk[1..]) <==>
            PcOf(s, t).b1 == Load(s, PcOf(s, t).b0)
  {
    assert PcGood(s, stk, s.pcs[t]);
    ChainTail(s.link, s.b, stk);
    assert At(stk[1..], 0) == At(stk, 1);
  }

  // ---------------------------------------------------------------- the bound is tight

  ghost predicate Reaches(w: nat, s0: State, ls: seq<Label>, s: State)
    requires w > 0
  {
    Valid(w, s0, ls) && AllTimely(w, s0, ls) && Final(w, s0, ls) == s
  }

  lemma Extend(w: nat, s0: State, ls: seq<Label>, s: State, l: Label)
    requires w > 0 && Reaches(w, s0, ls, s) && Enabled(s, l) && Timely(w, s, l)
    ensures Reaches(w, s0, ls + [l], Apply(w, s, l))
  {
    assert (ls + [l])[..|ls|] == ls;
  }

  function With(s: State, t: Tid, pc: Pc): State {
    s.(pcs := s.pcs[t := pc])
  }

  /** One access of thread t takes it from pc to pc2 and the rest of the state from s to s2. */
  lemma Advance(w: nat, s0: State, ls: seq<Label>, s: State, t: Tid, pc: Pc, s2: State, pc2: Pc)
    requires w > 0 && Reaches(w, s0, ls, With(s, t, pc)) && !pc.Idle?
    requires Timely(w, With(s, t, pc), Access(t))
    requires s2.pcs == s.pcs && Apply(w, With(s, t, pc), Access(t)) == s2.(pcs := With(s, t, pc).pcs[t := pc2])
    ensures Reaches(w, s0, ls + [Access(t)], With(s2, t, pc2))
  {
    Extend(w, s0, ls, With(s, t, pc), Access(t));
    assert With(s, t, pc).pcs[t := pc2] == s.pcs[t := pc2];
  }

  /** A pop whose swap is still to come. */
  lemma PopUpToCas(w: nat, s0: State, ls: seq<Label>, s: State, t: Tid) returns (ls': seq<Label>)
    requires w > 0 && Reaches(w, s0, ls, s) && PcOf(s, t).Idle? && s.b != 0
    ensures Reaches(w, s0, ls', With(s, t, PopCas(s.a, s.b, Load(s, s.b), s.n)))
  {
    Extend(w, s0, ls, s, CallPop(t));
    ls' := ls + [CallPop(t)];
    Advance(w, s0, ls', s, t, PopReadA, s, PopReadB(s.a, s.n));
    ls' := ls' + [Access(t)];
    Advance(w, s0, ls', s, t, PopReadB(s.a, s.n), s, PopLink(s.a, s.b, s.n));
    ls' := ls' + [Access(t)];
    Advance(w, s0, ls', s, t, PopLink(s.a, s.b, s.n), s, PopCas(s.a, s.b, Load(s, s.b), s.n));
    ls' := ls' + [Access(t)];
  }

  lemma PopAlone(w: nat, s0: State, ls: seq<Label>, s: State, t: Tid) returns (ls': seq<Label>)
    requires w > 0 && Reaches(w, s0, ls, s) && PcOf(s, t).Idle? && s.b != 0
    ensures Reaches(w, s0, ls', With(s.(n := s.n + 1, a := (s.a + 1) % w, b := Load(s, s.b), free := s.free + {s.b}),
                                     t, Idle))
  {
    ls' := PopUpToCas(w, s0, ls, s, t);
    Advance(w, s0, ls', s, t, PopCas(s.a, s.b, Load(s, s.b), s.n),
            s.(n := s.n + 1, a := (s.a + 1) % w, b := Load(s, s.b), free := s.free + {s.b}), Idle);
    ls' := ls' + [Access(t)];
  }

  lemma PushUpToCas(w: nat, s0: State, ls: seq<Label>, s: State, t: Tid, c: seq<Addr>) returns (ls': seq<Label>)
    requires w > 0 && Reaches(w, s0, ls, s) && Enabled(s, CallPush(t, c))
    ensures Reaches(w, s0, ls', With(s.(link := s.link[Last(c) := s.b], free := s.free - (set x | x in c)), t,
                                     PushCas(c, s.a, s.b, s.n)))
  {
    var s1 := s.(free := s.free - (set x | x in c));
    Extend(w, s0, ls, s, CallPush(t, c));
    ls' := ls + [CallPush(t, c)];
    Advance(w, s0, ls', s1, t, PushReadA(c), s1, PushReadB(c, s.a, s.n));
    ls' := ls' + [Access(t)];
    Advance(w, s0, ls', s1, t, PushReadB(c, s.a, s.n), s1, PushLink(c, s.a, s.b, s.n));
    ls' := ls' + [Access(t)];
    Advance(w, s0, ls', s1, t, PushLink(c, s.a, s.b, s.n),
            s1.(link := s.link[Last(c) := s.b]), PushCas(c, s.a, s.b, s.n));
    ls' := ls' + [Access(t)];
  }

  lemma PushAlone(w: nat, s0: State, ls: seq<Label>, s: State, t: Tid, c: seq<Addr>) returns (ls': seq<Label>)
    requires w > 0 && Reaches(w, s0, ls, s) && Enabled(s, CallPush(t, c))
    ensures Reaches(w, s0, ls',
                    With(s.(n := s.n + 1, a := (s.a + 1) % w, b := c[0], link := s.link[Last(c) := s.b],
                            free := s.free - (set x | x in c)), t, Idle))
  {
    ls' := PushUpToCas(w, s0, ls, s, t, c);
    var s2 := s.(link := s.link[Last(c) := s.b], free := s.free - (set x | x in c));
    Advance(w, s0, ls', s2, t, PushCas(c, s.a, s.b, s.n), s2.(n := s.n + 1, a := (s.a + 1) % w, b := c[0]), Idle);
    ls' := ls' + [Access(t)];
  }

  /** Thread 0 is about to swap 2 in for node 1, which it found on top when one swap had succeeded; since then
      n - 1 swaps have, node 1 is the whole stack, and nodes 2 and 3 belong to the clients. */
  function Stale(w: nat, n: nat): State
    requires w > 0
  {
    State(n, n % w, 1, map[1 := 0, 2 := 3, 3 := 0], {2, 3}, map[0 := PopCas(1 % w, 1, 2, 1), 1 := Idle])
  }

  const LINKS: map<Addr, Addr> := map[1 := 2, 2 := 3, 3 := 0]

  /** Node 2 is about to be taken by thread 0 while thread 1 empties the stack. */
  function Draining(w: nat, n: nat, b: Addr, free: set<Addr>): State
    requires w > 0
  {
    State(n, n % w, b, LINKS, free, map[0 := PopCas(1 % w, 1, 2, 1), 1 := Idle])
  }

  lemma DrainOne(w: nat, ls: seq<Label>, n: nat, b: Addr, free: set<Addr>, more: set<Addr>) returns (ls': seq<Label>)
    requires w > 0 && b in LINKS && b != 0 && more == free + {b}
    requires Reaches(w, Init({1, 2, 3}), ls, Draining(w, n, b, free))
    ensures Reaches(w, Init({1, 2, 3}), ls', Draining(w, n + 1, LINKS[b], more))
  {
    hide Reaches, Init;
    WordMath.NextWord(w, n);
    ls' := PopOne(w, Init({1, 2, 3}), ls, Draining(w, n, b, free), Draining(w, n + 1, LINKS[b], more));
  }

  lemma FirstPopUnderWay(w: nat) returns (ls: seq<Label>)
    requires w >= 4
    ensures Reaches(w, Init({1, 2, 3}), ls, Draining(w, 1, 1, {}))
  {
    hide Reaches, Init;
    ls := StackOfThree(w);
    var s := State(1, 1, 1, LINKS, {}, map[1 := Idle]);
    WordMath.RemainderIs(w, 0, 1);
    ls := PopUpToCas(w, Init({1, 2, 3}), ls, s, 0);
    assert With(s, 0, PopCas(1, 1, 2, 1)) == Draining(w, 1, 1, {});
  }

  lemma ReachStale(w: nat) returns (ls: seq<Label>)
    requires w >= 4
    ensures Reaches(w, Init({1, 2, 3}), ls, Stale(w, 5))
  {
    hide Reaches, Init;
    ls := FirstPopUnderWay(w);
    ls := DrainOne(w, ls, 1, 1, {}, {1});
    ls := DrainOne(w, ls, 2, 2, {1}, {1, 2});
    ls := DrainOne(w, ls, 3, 3, {1, 2}, {1, 2, 3});
    ls := PushOne(w, Init({1, 2, 3}), ls, Draining(w, 4, 0, {1, 2, 3}), Stale(w, 5));
  }

  /** A client writes to a node of its own. */
  lemma Write(w: nat, s0: State, ls: seq<Label>, s: State, x: Addr, v: Addr, s': State) returns (ls': seq<Label>)
    requires w > 0 && Reaches(w, s0, ls, s) && x in s.free && s' == s.(link := s.link[x := v])
    ensures Reaches(w, s0, ls', s')
  {
    Extend(w, s0, ls, s, Scribble(x, v));
    ls' := ls + [Scribble(x, v)];
  }

  lemma Start(w: nat, s0: State)
    requires w > 0
    ensures Reaches(w, s0, [], s0)
  {
  }

  lemma LinkThree(w: nat) returns (ls: seq<Label>)
    requires w > 0
    ensures Reaches(w, Init({1, 2, 3}), ls, THREE)
  {
    hide Reaches;
    var s0 := Init({1, 2, 3});
    var s1 := s0.(link := s0.link[1 := 2]);
    Start(w, s0);
    ls := Write(w, s0, [], s0, 1, 2, s1);
    assert s1.link[2 := 3] == LINKS;
    ls := Write(w, s0, ls, s1, 2, 3, THREE);
  }

  const THREE: State := Init({1, 2, 3}).(link := LINKS)

  lemma ThreeCanBePushed()
    ensures Enabled(THREE, CallPush(1, [1, 2, 3]))
  {
  }

  lemma StackOfThree(w: nat) returns (ls: seq<Label>)
    requires w >= 4
    ensures Reaches(w, Init({1, 2, 3}), ls, State(1, 1, 1, LINKS, {}, map[1 := Idle]))
  {
    hide Reaches;
    WordMath.RemainderIs(w, 0, 1);
    ls := LinkThree(w);
    ThreeCanBePushed();
    ls := PushAlone(w, Init({1, 2, 3}), ls, THREE, 1, [1, 2, 3]);
    assert THREE.link[3 := 0] == THREE.link;
    assert THREE.free - (set x | x in [1, 2, 3]) == {};
  }

  lemma PopOne(w: nat, s0: State, ls: seq<Label>, s: State, s': State) returns (ls': seq<Label>)
    requires w > 0 && Reaches(w, s0, ls, s) && 1 in s.pcs && s.pcs[1] == Idle && s.b != 0
    requires s' == s.(n := s.n + 1, a := (s.a + 1) % w, b := Load(s, s.b), free := s.free + {s.b})
    ensures Reaches(w, s0, ls', s')
  {
    ls' := PopAlone(w, s0, ls, s, 1);
    assert s.pcs[1 := Idle] == s.pcs;
  }

  lemma PushOne(w: nat, s0: State, ls: seq<Label>, s: State, s': State) returns (ls': seq<Label>)
    requires w > 0 && Reaches(w, s0, ls, s) && 1 in s.pcs && s.pcs[1] == Idle && 1 in s.free
    requires s' == s.(n := s.n + 1, a := s'.a, b := 1, link := s.link[1 := s.b], free := s.free - {1})
    requires s.a == s.n % w && s'.a == s'.n % w
    ensures Reaches(w, s0, ls', s')
  {
    hide Reaches;
    ls' := PushAlone(w, s0, ls, s, 1, [1]);
    assert s.pcs[1 := Idle] == s.pcs;
    assert s.free - (set x | x in [1]) == s.free - {1};
    WordMath.NextWord(w, s.n);
  }

  lemma {:induction false} ReachStaler(w: nat, k: nat) returns (ls: seq<Label>)
    requires w >= 4
    ensures Reaches(w, Init({1, 2, 3}), ls, Stale(w, 5 + 2 * k))
    decreases k
  {
    if k == 0 {
      ls := ReachStale(w);
    } else {
      var n := 3 + 2 * k;
      ls := ReachStaler(w, k - 1);
      var s := Stale(w, n).(n := n + 1, a := (n + 1) % w, b := 0, free := {1, 2, 3});
      WordMath.NextWord(w, n);
      ls := PopOne(w, Init({1, 2, 3}), ls, Stale(w, n), s);
      ls := PushOne(w, Init({1, 2, 3}), ls, s, Stale(w, n + 2));
    }
  }

  /** The bound is tight: for every even counter size there is a run in which every compare-and-swap but the last
      is within the bound, the last is a pop with exactly w swaps in its window, it succeeds, and it makes the
      head point to a node that belongs to a client. */
  lemma WrappedCounterBreaksPop(w: nat) returns (ls: seq<Label>)
    requires w >= 4 && w % 2 == 0
    ensures Valid(w, Init({1, 2, 3}), ls + [Access(0)]) && AllTimely(w, Init({1, 2, 3}), ls)
    ensures CasSucceeds(Final(w, Init({1, 2, 3}), ls), Access(0))
    ensures PcOf(Final(w, Init({1, 2, 3}), ls), 0).PopCas?
    ensures Final(w, Init({1, 2, 3}), ls).n - PcOf(Final(w, Init({1, 2, 3}), ls), 0).n0 == w
    ensures Final(w, Init({1, 2, 3}), ls + [Access(0)]).b in Final(w, Init({1, 2, 3}), ls + [Access(0)]).free
  {
    ls := ReachStaler(w, (w - 4) / 2);
    assert 5 + 2 * ((w - 4) / 2) == w + 1;
    WordMath.RemainderIs(w, 1, 1);
    WordMath.RemainderIs(w, 0, 1);
    assert (ls + [Access(0)])[..|ls|] == ls;
  }
}
