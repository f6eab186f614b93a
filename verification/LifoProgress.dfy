/** Operations on the lock-free LIFO get done: one that is left to itself returns after eight accesses at most. */
module LifoProgress {
  import opened Options
  import opened Lifo
  import opened LifoWindow

  /** n accesses of t with nobody else moving. */
  function Alone(w: nat, s: State, t: Tid, n: nat): State
    requires w > 0
    decreases n
  {
    if n == 0 then s else Alone(w, Apply(w, s, Access(t)), t, n - 1)
  }

  /** How many accesses an operation has still to make at most: four for a try, and four more if what it has read of the
      head may be out of date. */
  function Left(s: State, pc: Pc): nat {
    (match pc
     case Idle => 0
     case PushReadA(_) => 4
     case PopReadA => 4
     case PushReadB(_, _, _) => 3
     case PopReadB(_, _) => 3
     case PushLink(_, _, _, _) => 2
     case PopLink(_, _, _) => 2
     case PushCas(_, _, _, _) => 1
     case PopCas(_, _, _, _) => 1)
    + if pc.InWindow() && pc.n0 != s.n then 4 else 0
  }

  lemma StepGetsOn(w: nat, s: State, t: Tid)
    requires w > 0 && HeadInv(w, s) && !PcOf(s, t).Idle?
    ensures Enabled(s, Access(t))
    ensures Left(Apply(w, s, Access(t)), PcOf(Apply(w, s, Access(t)), t)) < Left(s, PcOf(s, t))
  {
    assert ReadOk(w, s, s.pcs[t]);
  }

  /** From any state of any run, whatever the counter did, an operation that is left to itself returns. */
  lemma {:induction false} FinishesAlone(w: nat, s: State, t: Tid) returns (n: nat)
    requires w > 0 && HeadInv(w, s)
    ensures n <= Left(s, PcOf(s, t)) <= 8 && PcOf(Alone(w, s, t, n), t).Idle? && HeadInv(w, Alone(w, s, t, n))
    decreases Left(s, PcOf(s, t))
  {
    hide HeadInv, Apply;
    if PcOf(s, t).Idle? {
      n := 0;
    } else {
      StepGetsOn(w, s, t);
      StepKeepsHead(w, s, Access(t));
      n := FinishesAlone(w, Apply(w, s, Access(t)), t);
      n := n + 1;
    }
  }

  /** In the state of a run. */
  lemma EveryOperationCanFinish(w: nat, nodes: set<Addr>, ls: seq<Label>, t: Tid) returns (n: nat)
    requires w > 0 && Valid(w, Init(nodes), ls)
    ensures n <= 8 && PcOf(Alone(w, Final(w, Init(nodes), ls), t, n), t).Idle?
  {
    RunKeepsHead(w, nodes, ls);
    n := FinishesAlone(w, Final(w, Init(nodes), ls), t);
  }
}
