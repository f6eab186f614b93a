/** What happens on the lock-free LIFO between a thread's read of the counter and its compare-and-swap. */
module LifoWindow {
  import opened Options
  import opened Lifo
  import WordMath

  function StateAt(w: nat, nodes: set<Addr>, ls: seq<Label>, i: nat): State
    requires w > 0 && i <= |ls|
  {
    Final(w, Init(nodes), ls[..i])
  }

  /** Step i of the run is thread t's read of `a`, and t has been in that window ever since. */
  ghost predicate WindowSince(w: nat, nodes: set<Addr>, ls: seq<Label>, t: Tid, i: nat)
    requires w > 0
  {
    && i < |ls| && ls[i] == Access(t)
    && (PcOf(StateAt(w, nodes, ls, i), t).PushReadA? || PcOf(StateAt(w, nodes, ls, i), t).PopReadA?)
    && forall j | i < j <= |ls| :: PcOf(StateAt(w, nodes, ls, j), t).InWindow()
  }

  lemma {:induction false} RunPrefix(w: nat, nodes: set<Addr>, ls: seq<Label>, i: nat)
    requires w > 0 && i <= |ls| && Valid(w, Init(nodes), ls)
    ensures Valid(w, Init(nodes), ls[..i])
    ensures AllTimely(w, Init(nodes), ls) ==> AllTimely(w, Init(nodes), ls[..i])
    ensures i < |ls| ==> Enabled(StateAt(w, nodes, ls, i), ls[i]) &&
                         StateAt(w, nodes, ls, i + 1) == Apply(w, StateAt(w, nodes, ls, i), ls[i])
    decreases |ls|
  {
    hide Apply, Enabled, Timely, Init;
    if i == |ls| {
      assert ls[..i] == ls;
    } else {
      var before := ls[..|ls| - 1];
      RunPrefix(w, nodes, before, i);
      assert before[..i] == ls[..i];
      assert ls[..i + 1][..i] == ls[..i];
      if i < |before| {
        assert before[..i + 1] == ls[..i + 1];
      } else {
        assert ls[..i + 1] == ls;
      }
    }
  }

  // ---------------------------------------------------------------- what holds of the head in every run

  /** What a thread has read of the head, against the head as it is: it was current when so many swaps had succeeded,
      and it still is if none has since. */
  predicate ReadOk(w: nat, s: State, pc: Pc)
    requires w > 0
  {
    && (pc.InWindow() ==> pc.n0 <= s.n && pc.a0 == pc.n0 % w)
    && ((pc.PushLink? || pc.PushCas? || pc.PopLink? || pc.PopCas?) && pc.n0 == s.n ==> pc.b0 == s.b)
  }

  ghost predicate HeadInv(w: nat, s: State)
    requires w > 0
  {
    s.a == s.n % w && forall t | t in s.pcs :: ReadOk(w, s, s.pcs[t])
  }

  lemma StepKeepsHead(w: nat, s: State, l: Label)
    requires w > 0 && HeadInv(w, s) && Enabled(s, l)
    ensures HeadInv(w, Apply(w, s, l))
  {
    hide NoDuplicates, Linked;
    var s' := Apply(w, s, l);
    WordMath.NextWord(w, s.n);
    forall t | t in s'.pcs ensures ReadOk(w, s', s'.pcs[t]) {
      assert t in s.pcs ==> ReadOk(w, s, s.pcs[t]);
    }
  }

  /** In every run, whatever the counter did. */
  lemma {:induction false} RunKeepsHead(w: nat, nodes: set<Addr>, ls: seq<Label>)
    requires w > 0 && Valid(w, Init(nodes), ls)
    ensures HeadInv(w, Final(w, Init(nodes), ls))
    decreases |ls|
  {
    hide Apply, Enabled, HeadInv;
    if ls == [] {
      StartIsGood(w, nodes);
    } else {
      RunKeepsHead(w, nodes, ls[..|ls| - 1]);
      StepKeepsHead(w, Final(w, Init(nodes), ls[..|ls| - 1]), ls[|ls| - 1]);
    }
  }

  lemma StartIsGood(w: nat, nodes: set<Addr>)
    requires w > 0
    ensures HeadInv(w, Init(nodes))
  {
  }

  // ---------------------------------------------------------------- one window

  lemma StepInWindow(w: nat, s: State, l: Label, t: Tid)
    requires w > 0 && Enabled(s, l) && PcOf(Apply(w, s, l), t).InWindow()
    ensures PcOf(s, t).InWindow() ==> PcOf(Apply(w, s, l), t).n0 == PcOf(s, t).n0
    ensures PcOf(s, t).InWindow() && CasSucceeds(s, l) ==> l.t != t
    ensures !PcOf(s, t).InWindow() ==> PcOf(Apply(w, s, l), t).n0 == s.n && !CasSucceeds(s, l)
  {
  }

  lemma {:induction false} WindowKeepsReading(w: nat, nodes: set<Addr>, ls: seq<Label>, t: Tid, i: nat, j: nat)
    requires w > 0 && i < j <= |ls| && Valid(w, Init(nodes), ls) && WindowSince(w, nodes, ls, t, i)
    ensures PcOf(StateAt(w, nodes, ls, j), t).InWindow()
    ensures PcOf(StateAt(w, nodes, ls, j), t).n0 == StateAt(w, nodes, ls, i).n
    decreases j
  {
    hide Apply, Enabled, Init, Final, CasSucceeds;
    var s := StateAt(w, nodes, ls, j - 1);
    RunPrefix(w, nodes, ls, j - 1);
    StepInWindow(w, s, ls[j - 1], t);
    if i < j - 1 {
      WindowKeepsReading(w, nodes, ls, t, i, j - 1);
    }
  }

  /** The head can only change together with the history variable. */
  lemma QuietStep(w: nat, s: State, l: Label)
    requires w > 0
    ensures Apply(w, s, l).n == if CasSucceeds(s, l) then s.n + 1 else s.n
    ensures !CasSucceeds(s, l) ==> Apply(w, s, l).a == s.a && Apply(w, s, l).b == s.b
  {
  }

  /** Between two states with the same history variable nothing happened to the head; otherwise some
      compare-and-swap succeeded in between. */
  lemma {:induction false} Between(w: nat, nodes: set<Addr>, ls: seq<Label>, i: nat, j: nat)
    requires w > 0 && i <= j <= |ls| && Valid(w, Init(nodes), ls)
    ensures StateAt(w, nodes, ls, i).n <= StateAt(w, nodes, ls, j).n
    ensures StateAt(w, nodes, ls, i).n == StateAt(w, nodes, ls, j).n ==>
              StateAt(w, nodes, ls, i).a == StateAt(w, nodes, ls, j).a &&
              StateAt(w, nodes, ls, i).b == StateAt(w, nodes, ls, j).b
    ensures StateAt(w, nodes, ls, i).n < StateAt(w, nodes, ls, j).n ==>
              exists k :: i <= k < j && CasSucceeds(StateAt(w, nodes, ls, k), ls[k])
    decreases j
  {
    hide Apply, Enabled, CasSucceeds, Final, Init;
    if i < j {
      Between(w, nodes, ls, i, j - 1);
      RunPrefix(w, nodes, ls, j - 1);
      QuietStep(w, StateAt(w, nodes, ls, j - 1), ls[j - 1]);
    }
  }

  /** A compare-and-swap with fewer than w others since its read of `a` succeeds if and only if there were none. */
  lemma SucceedsIffUndisturbed(w: nat, nodes: set<Addr>, ls: seq<Label>, t: Tid, i: nat)
    requires w > 0 && Valid(w, Init(nodes), ls) && WindowSince(w, nodes, ls, t, i)
    requires PcOf(Final(w, Init(nodes), ls), t).PushCas? || PcOf(Final(w, Init(nodes), ls), t).PopCas?
    requires Final(w, Init(nodes), ls).n - StateAt(w, nodes, ls, i).n < w
    ensures CasSucceeds(Final(w, Init(nodes), ls), Access(t)) <==>
            Final(w, Init(nodes), ls).n == StateAt(w, nodes, ls, i).n
  {
    hide Valid, Init, Final, Apply;
    var s, pc := Final(w, Init(nodes), ls), PcOf(Final(w, Init(nodes), ls), t);
    assert ls[..|ls|] == ls;
    WindowKeepsReading(w, nodes, ls, t, i, |ls|);
    RunKeepsHead(w, nodes, ls);
    assert ReadOk(w, s, pc);
    if CasSucceeds(s, Access(t)) {
      WordMath.SameWordInWindow(w, pc.n0, s.n);
    }
  }

  /** A compare-and-swap that succeeds, with fewer than w others since its read of `a`, finds the head as that read left
      it: at every moment since, it was (a0, b0).  Nothing is asked of other operations. */
  lemma SuccessMeansUnchanged(w: nat, nodes: set<Addr>, ls: seq<Label>, t: Tid, i: nat, j: nat)
    requires w > 0 && i < j <= |ls| && Valid(w, Init(nodes), ls) && WindowSince(w, nodes, ls, t, i)
    requires CasSucceeds(Final(w, Init(nodes), ls), Access(t))
    requires Final(w, Init(nodes), ls).n - StateAt(w, nodes, ls, i).n < w
    ensures StateAt(w, nodes, ls, j).n == Final(w, Init(nodes), ls).n
    ensures CasMatches(StateAt(w, nodes, ls, j),
                       PcOf(Final(w, Init(nodes), ls), t).a0, PcOf(Final(w, Init(nodes), ls), t).b0)
  {
    hide Valid, Init, Final, Apply, WindowSince;
    assert ls[..|ls|] == ls;
    SwapsNow(Final(w, Init(nodes), ls), t);
    SucceedsIffUndisturbed(w, nodes, ls, t, i);
    Between(w, nodes, ls, i, j);
    Between(w, nodes, ls, j, |ls|);
  }

  lemma SwapsNow(s: State, t: Tid)
    requires CasSucceeds(s, Access(t))
    ensures PcOf(s, t).PushCas? || PcOf(s, t).PopCas?
    ensures CasMatches(s, PcOf(s, t).a0, PcOf(s, t).b0)
  {
  }

  /** Lock-free progress: when a compare-and-swap fails, another thread's has succeeded since this one's read of `a`.
      This is so in every run, also when the counter has wrapped. */
  lemma FailureMeansProgress(w: nat, nodes: set<Addr>, ls: seq<Label>, t: Tid, i: nat)
    requires w > 0 && Valid(w, Init(nodes), ls) && WindowSince(w, nodes, ls, t, i)
    requires CasFails(Final(w, Init(nodes), ls), Access(t))
    ensures exists k :: i < k < |ls| && CasSucceeds(StateAt(w, nodes, ls, k), ls[k]) && ls[k].t != t
  {
    hide Valid, Init, Final, Apply, CasSucceeds, CasFails;
    assert ls[..|ls|] == ls;
    WindowKeepsReading(w, nodes, ls, t, i, |ls|);
    RunKeepsHead(w, nodes, ls);
    FailureMeansStale(w, Final(w, Init(nodes), ls), t);
    Between(w, nodes, ls, i, |ls|);
    var k :| i <= k < |ls| && CasSucceeds(StateAt(w, nodes, ls, k), ls[k]);
    SuccessIsAnothers(w, nodes, ls, t, i, k);
  }

  lemma FailureMeansStale(w: nat, s: State, t: Tid)
    requires w > 0 && HeadInv(w, s) && CasFails(s, Access(t))
    ensures PcOf(s, t).n0 < s.n
  {
    assert ReadOk(w, s, PcOf(s, t));
  }

  lemma SuccessIsAnothers(w: nat, nodes: set<Addr>, ls: seq<Label>, t: Tid, i: nat, k: nat)
    requires w > 0 && i <= k < |ls| && Valid(w, Init(nodes), ls) && WindowSince(w, nodes, ls, t, i)
    requires CasSucceeds(StateAt(w, nodes, ls, k), ls[k])
    ensures k != i && ls[k].t != t
  {
    hide Valid, Init, Final, Apply, Enabled, CasSucceeds;
    RunPrefix(w, nodes, ls, k);
    WindowKeepsReading(w, nodes, ls, t, i, k + 1);
    StepInWindow(w, StateAt(w, nodes, ls, k), ls[k], t);
  }

  // ---------------------------------------------------------------- the link of the top node

  /** The link of the top node can only change together with the history variable. */
  lemma QuietLink(w: nat, s: State, stk: seq<Addr>, l: Label)
    requires w > 0 && Inv(w, s, stk) && Enabled(s, l) && s.b != 0 && !CasSucceeds(s, l)
    ensures Load(Apply(w, s, l), s.b) == Load(s, s.b)
  {
    hide NoDuplicates, Linked;
    assert stk[0] == s.b;
    if l.Access? && PcOf(s, l.t).PushLink? {
      assert PcGood(s, stk, PcOf(s, l.t));
      assert Last(PcOf(s, l.t).chain) in PcOf(s, l.t).chain;
    }
  }

  lemma {:induction false} LinkBetween(w: nat, nodes: set<Addr>, ls: seq<Label>, i: nat, j: nat)
    requires w > 0 && 0 !in nodes && i <= j <= |ls|
    requires Valid(w, Init(nodes), ls) && AllTimely(w, Init(nodes), ls)
    requires StateAt(w, nodes, ls, i).n == StateAt(w, nodes, ls, j).n && StateAt(w, nodes, ls, i).b != 0
    ensures Load(StateAt(w, nodes, ls, i), StateAt(w, nodes, ls, i).b) ==
            Load(StateAt(w, nodes, ls, j), StateAt(w, nodes, ls, i).b)
    decreases j
  {
    hide Apply, Enabled, CasSucceeds, Final, Init, Inv, Load, AllTimely, Valid;
    if i < j {
      var s := StateAt(w, nodes, ls, j - 1);
      Between(w, nodes, ls, i, j - 1);
      Between(w, nodes, ls, j - 1, j);
      LinkBetween(w, nodes, ls, i, j - 1);
      RunPrefix(w, nodes, ls, j - 1);
      QuietStep(w, s, ls[j - 1]);
      RunIsAtomic(w, nodes, ls[..j - 1]);
      QuietLink(w, s, Replay(History(w, Init(nodes), ls[..j - 1])), ls[j - 1]);
    }
  }

  /** And for a pop, at every moment since its read of `a` the link of the top node was the one it read.  This half
      needs that the other pops of the run succeed in time only, as they could spoil the stack otherwise. */
  lemma SuccessMeansLinkUnchanged(w: nat, nodes: set<Addr>, ls: seq<Label>, t: Tid, i: nat, j: nat)
    requires w > 0 && 0 !in nodes && i < j <= |ls| && Valid(w, Init(nodes), ls) && WindowSince(w, nodes, ls, t, i)
    requires AllTimely(w, Init(nodes), ls)
    requires PcOf(Final(w, Init(nodes), ls), t).PopCas? && CasSucceeds(Final(w, Init(nodes), ls), Access(t))
    requires Final(w, Init(nodes), ls).n - StateAt(w, nodes, ls, i).n < w
    ensures Load(StateAt(w, nodes, ls, j), PcOf(Final(w, Init(nodes), ls), t).b0) ==
            PcOf(Final(w, Init(nodes), ls), t).b1
  {
    hide Valid, Init, Final, Apply, WindowSince, AllTimely, Load, Inv, CasSucceeds;
    assert ls[..|ls|] == ls;
    SuccessMeansUnchanged(w, nodes, ls, t, i, j);
    WindowKeepsReading(w, nodes, ls, t, i, |ls|);
    SwapsNow(Final(w, Init(nodes), ls), t);
    Between(w, nodes, ls, i, |ls|);
    SucceedsIffUndisturbed(w, nodes, ls, t, i);
    RunIsAtomic(w, nodes, ls);
    LinkIsCurrent(w, Final(w, Init(nodes), ls), Replay(History(w, Init(nodes), ls)), t);
    LinkBetween(w, nodes, ls, j, |ls|);
  }

  lemma LinkIsCurrent(w: nat, s: State, stk: seq<Addr>, t: Tid)
    requires w > 0 && Inv(w, s, stk) && PcOf(s, t).PopCas? && PcOf(s, t).n0 == s.n
    ensures PcOf(s, t).b0 != 0 && PcOf(s, t).b1 == Load(s, PcOf(s, t).b0)
  {
    assert PcGood(s, stk, PcOf(s, t));
  }
}
