/** The calls of one thread on the lock-free LIFO, over whole runs: each takes effect once, in order, as called. */
module LifoCalls {
  import opened Options
  import opened Lifo
  import Sequences

  datatype Call = Push(nodes: seq<Addr>) | Pop

  /** The calls that thread t makes in a run. */
  function CallsOf(ls: seq<Label>, t: Tid): seq<Call> {
    if ls == [] then []
    else CallsOf(ls[..|ls| - 1], t) + Called(ls[|ls| - 1], t)
  }

  function Called(l: Label, t: Tid): seq<Call> {
    match l
    case CallPush(u, nodes) => if u == t then [Push(nodes)] else []
    case CallPop(u) => if u == t then [Pop] else []
    case _ => []
  }

  function CallBehind(op: Op): Call {
    if op.Pushed? then Push(op.nodes) else Pop
  }

  /** The calls behind the operations of t in a history. */
  function Done(h: seq<Op>, t: Tid): seq<Call> {
    if h == [] then []
    else Done(h[..|h| - 1], t) + if h[|h| - 1].t == t then [CallBehind(h[|h| - 1])] else []
  }

  /** The call that a thread is in. */
  function Pending(pc: Pc): seq<Call> {
    if pc.Idle? then [] else if pc.Pushing() then [Push(pc.chain)] else [Pop]
  }

  /** How often t returns from a call. */
  function Returns(w: nat, s0: State, ls: seq<Label>, t: Tid): nat
    requires w > 0
  {
    if ls == [] then 0
    else
      var before := ls[..|ls| - 1];
      Returns(w, s0, before, t) +
      if !PcOf(Final(w, s0, before), t).Idle? && PcOf(Final(w, s0, ls), t).Idle? then 1 else 0
  }

  lemma DoneGrows(h: seq<Op>, op: Op, t: Tid)
    ensures Done(h + [op], t) == Done(h, t) + if op.t == t then [CallBehind(op)] else []
  {
    assert (h + [op])[..|h|] == h;
  }

  /** In any run of any number of threads, whatever the counter does: the calls of a thread are exactly its operations
      in the history, one for each, in the order of the calls and with the chains that were called, and then the call
      that it is still in; and it has returned once for each. */
  lemma {:induction false} CallsAreDone(w: nat, nodes: set<Addr>, ls: seq<Label>, t: Tid)
    requires w > 0 && Valid(w, Init(nodes), ls)
    ensures CallsOf(ls, t) == Done(History(w, Init(nodes), ls), t) + Pending(PcOf(Final(w, Init(nodes), ls), t))
    ensures Returns(w, Init(nodes), ls, t) == |Done(History(w, Init(nodes), ls), t)|
    decreases |ls|
  {
    hide Apply, Enabled, Effect, Done;
    if ls == [] {
      NothingDone(t);
    } else {
      var before, l := ls[..|ls| - 1], ls[|ls| - 1];
      CallsAreDone(w, nodes, before, t);
      var s, h := Final(w, Init(nodes), before), History(w, Init(nodes), before);
      StepDoes(w, s, l, t);
      var e := Effect(s, l);
      var done := if e.Some? && e.value.t == t then [CallBehind(e.value)] else [];
      if e.Some? {
        DoneGrows(h, e.value, t);
      }
      assert Done(History(w, Init(nodes), ls), t) == Done(h, t) + done;
      Sequences.Regroup(Done(h, t), Pending(PcOf(s, t)), Called(l, t), done, Pending(PcOf(Apply(w, s, l), t)));
    }
  }

  lemma NothingDone(t: Tid)
    ensures Done([], t) == []
  {
  }

  /** One step: a call begins, ends with its effect, or goes on. */
  lemma StepDoes(w: nat, s: State, l: Label, t: Tid)
    requires w > 0 && Enabled(s, l)
    ensures var e := Effect(s, l);
            var done := if e.Some? && e.value.t == t then [CallBehind(e.value)] else [];
            && Pending(PcOf(s, t)) + Called(l, t) == done + Pending(PcOf(Apply(w, s, l), t))
            && (done != [] <==> !PcOf(s, t).Idle? && PcOf(Apply(w, s, l), t).Idle?)
  {
    OneEffectPerCall(w, s, l, t);
  }
}
