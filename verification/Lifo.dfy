/** The lock-free LIFO of ddsrt/src/atomics.c: any number of threads run push, pushmany and pop,
    one memory access per step, on a head (a, b) that is replaced by a double-width compare-and-swap.

    Addresses are natural numbers and 0 is NULL.  Every function below takes w, the number of values
    of the counter word `a` (2^32 or 2^64 for a uintptr_t).  The state also carries a history variable
    that no decision reads: `n`, the number of successful compare-and-swaps so far. */
module Lifo {
  import opened Options
  import WordMath

  type Addr = nat
  type Tid = nat

  /** Where a thread is.  `push` is `pushmany` of a one-element chain (the two C functions have the same
      body).  `n0` is the value of the history variable at the read of `a`. */
  datatype Pc =
    | Idle
    | PushReadA(chain: seq<Addr>)
    | PushReadB(chain: seq<Addr>, a0: nat, n0: nat)
    | PushLink(chain: seq<Addr>, a0: nat, b0: Addr, n0: nat)
    | PushCas(chain: seq<Addr>, a0: nat, b0: Addr, n0: nat)
    | PopReadA
    | PopReadB(a0: nat, n0: nat)
    | PopLink(a0: nat, b0: Addr, n0: nat)
    | PopCas(a0: nat, b0: Addr, b1: Addr, n0: nat)
  {
    predicate Pushing() {
      PushReadA? || PushReadB? || PushLink? || PushCas?
    }

    /** The thread is between its read of `a` and its compare-and-swap. */
    predicate InWindow() {
      !Idle? && !PushReadA? && !PopReadA?
    }
  }

  /** `free` holds the nodes that belong to the clients: not on the stack and not part of a push under way. */
  datatype State = State(
    n: nat,
    a: nat,
    b: Addr,
    link: map<Addr, Addr>,
    free: set<Addr>,
    pcs: map<Tid, Pc>)

  /** One step of the system.  `Access(t)` is the next memory access of thread t's code; `Scribble` is a
      client storing anything it likes in the link field of a node it owns. */
  datatype Label =
    | CallPush(t: Tid, nodes: seq<Addr>)
    | CallPop(t: Tid)
    | Access(t: Tid)
    | Scribble(x: Addr, v: Addr)

  /** The operations of the atomic stack. */
  datatype Op =
    | Pushed(t: Tid, nodes: seq<Addr>)
    | Popped(t: Tid, node: Addr)
    | FoundEmpty(t: Tid)

  function PcOf(s: State, t: Tid): Pc {
    if t in s.pcs then s.pcs[t] else Idle
  }

  /** A popper reads the link of a node whoever owns it by then: nodes are never unmapped. */
  function Load(s: State, x: Addr): Addr {
    if x in s.link then s.link[x] else 0
  }

  function Last(chain: seq<Addr>): Addr {
    if chain == [] then 0 else chain[|chain| - 1]
  }

  /** The double-width compare of (a, b). */
  predicate CasMatches(s: State, a0: nat, b0: Addr) {
    s.a == a0 && s.b == b0
  }

  // ---------------------------------------------------------------- the code, one access at a time

  function Init(nodes: set<Addr>): State {
    State(0, 0, 0, map x | x in nodes :: 0, nodes, map[])
  }

  /** What the callers must respect: a thread runs one operation at a time, and pushes a chain of nodes
      it owns whose links, but for the last, lead from each node to the next. */
  ghost predicate Enabled(s: State, l: Label) {
    match l
    case CallPush(t, nodes) =>
      && PcOf(s, t).Idle?
      && nodes != [] && NoDuplicates(nodes)
      && (forall x | x in nodes :: x in s.free)
      && Linked(s.link, nodes)
    case CallPop(t) => PcOf(s, t).Idle?
    case Access(t) => !PcOf(s, t).Idle?
    case Scribble(x, v) => x in s.free
  }

  function Apply(w: nat, s: State, l: Label): State
    requires w > 0
  {
    match l
    case CallPush(t, nodes) => s.(pcs := s.pcs[t := PushReadA(nodes)], free := s.free - set x | x in nodes)
    case CallPop(t) => s.(pcs := s.pcs[t := PopReadA])
    case Scribble(x, v) => s.(link := s.link[x := v])
    case Access(t) =>
      match PcOf(s, t)
      case Idle => s
      case PushReadA(c) => s.(pcs := s.pcs[t := PushReadB(c, s.a, s.n)])
      case PushReadB(c, a0, n0) => s.(pcs := s.pcs[t := PushLink(c, a0, s.b, n0)])
      case PushLink(c, a0, b0, n0) =>
        s.(link := s.link[Last(c) := b0], pcs := s.pcs[t := PushCas(c, a0, b0, n0)])
      case PushCas(c, a0, b0, n0) =>
        if CasMatches(s, a0, b0) then
          s.(n := s.n + 1, a := (a0 + 1) % w, b := if c == [] then 0 else c[0], pcs := s.pcs[t := Idle])
        else
          s.(pcs := s.pcs[t := PushReadA(c)])
      case PopReadA => s.(pcs := s.pcs[t := PopReadB(s.a, s.n)])
      case PopReadB(a0, n0) =>
        if s.b == 0 then s.(pcs := s.pcs[t := Idle])
        else s.(pcs := s.pcs[t := PopLink(a0, s.b, n0)])
      case PopLink(a0, b0, n0) => s.(pcs := s.pcs[t := PopCas(a0, b0, Load(s, b0), n0)])
      case PopCas(a0, b0, b1, n0) =>
        if CasMatches(s, a0, b0) then
          s.(n := s.n + 1, a := (a0 + 1) % w, b := b1, free := s.free + {b0}, pcs := s.pcs[t := Idle])
        else
          s.(pcs := s.pcs[t := PopReadA])
  }

  /** The operation that a step completes, with the value its caller gets. */
  function Effect(s: State, l: Label): Option<Op> {
    if !l.Access? then None
    else
      match PcOf(s, l.t)
      case PushCas(c, a0, b0, _) => if CasMatches(s, a0, b0) then Some(Pushed(l.t, c)) else None
      case PopCas(a0, b0, _, _) => if CasMatches(s, a0, b0) then Some(Popped(l.t, b0)) else None
      case PopReadB(_, _) => if s.b == 0 then Some(FoundEmpty(l.t)) else None
      case _ => None
  }

  /** A step that executes a successful compare-and-swap. */
  predicate CasSucceeds(s: State, l: Label) {
    Effect(s, l).Some? && !Effect(s, l).value.FoundEmpty?
  }

  /** A step that executes a failing compare-and-swap. */
  predicate CasFails(s: State, l: Label) {
    && l.Access?
    && (PcOf(s, l.t).PushCas? || PcOf(s, l.t).PopCas?)
    && Effect(s, l).None?
  }

  /** If this is the successful swap of a pop, fewer than w others have succeeded since it read the counter.  Pushes and
      failing pops need no bound. */
  predicate Timely(w: nat, s: State, l: Label) {
    CasSucceeds(s, l) && PcOf(s, l.t).PopCas? ==> s.n - PcOf(s, l.t).n0 < w
  }

  // ---------------------------------------------------------------- the atomic stack

  predicate Legal(stk: seq<Addr>, op: Op) {
    match op
    case Pushed(_, _) => true
    case Popped(_, x) => stk != [] && stk[0] == x
    case FoundEmpty(_) => stk == []
  }

  function Do(stk: seq<Addr>, op: Op): seq<Addr> {
    match op
    case Pushed(_, nodes) => nodes + stk
    case Popped(_, _) => if stk == [] then [] else stk[1..]
    case FoundEmpty(_) => stk
  }

  function Replay(ops: seq<Op>): seq<Addr> {
    if ops == [] then [] else Do(Replay(ops[..|ops| - 1]), ops[|ops| - 1])
  }

  predicate LegalHistory(ops: seq<Op>) {
    ops == [] || (LegalHistory(ops[..|ops| - 1]) && Legal(Replay(ops[..|ops| - 1]), ops[|ops| - 1]))
  }

  // ---------------------------------------------------------------- chains

  ghost predicate NoDuplicates(c: seq<Addr>) {
    forall i, j | 0 <= i < j < |c| :: c[i] != c[j]
  }

  ghost predicate Linked(link: map<Addr, Addr>, c: seq<Addr>) {
    forall i | 0 <= i < |c| - 1 :: c[i] in link && link[c[i]] == c[i + 1]
  }

  function At(c: seq<Addr>, i: nat): Addr {
    if i < |c| then c[i] else 0
  }

  /** Walking the links from b visits exactly c and then meets NULL. */
  ghost predicate Chain(link: map<Addr, Addr>, b: Addr, c: seq<Addr>) {
    && b == At(c, 0)
    && forall i | 0 <= i < |c| :: c[i] != 0 && c[i] in link && link[c[i]] == At(c, i + 1)
  }

  lemma {:induction false} ChainIsUnique(link: map<Addr, Addr>, b: Addr, c: seq<Addr>, d: seq<Addr>)
    requires Chain(link, b, c) && Chain(link, b, d)
    ensures c == d
    decreases |c|
  {
    if c != [] && d != [] {
      var rest := link[b];
      assert forall i | 0 <= i < |c[1..]| :: c[1..][i] == c[i + 1];
      assert forall i | 0 <= i < |d[1..]| :: d[1..][i] == d[i + 1];
      assert Chain(link, rest, c[1..]) && Chain(link, rest, d[1..]);
      ChainIsUnique(link, rest, c[1..], d[1..]);
      assert c == [b] + c[1..] && d == [b] + d[1..];
    }
  }

  // ---------------------------------------------------------------- the invariant

  ghost predicate PcGood(s: State, stk: seq<Addr>, pc: Pc) {
    && (pc.Pushing() ==>
          && pc.chain != [] && NoDuplicates(pc.chain) && Linked(s.link, pc.chain)
          && forall x | x in pc.chain :: x != 0 && x in s.link && x !in s.free && x !in stk)
    && (pc.PushCas? ==> s.link[Last(pc.chain)] == pc.b0)
    && (pc.InWindow() ==> pc.n0 <= s.n && (pc.n0 == s.n ==> pc.a0 == s.a))
    && ((pc.PushLink? || pc.PushCas? || pc.PopLink? || pc.PopCas?) && pc.n0 == s.n ==> pc.b0 == s.b)
    && ((pc.PopLink? || pc.PopCas?) ==> pc.b0 != 0)
    && (pc.PopCas? && pc.n0 == s.n ==> pc.b1 == Load(s, pc.b0))
  }

  /** The counter word a thread saw is the history variable it saw, modulo w. */
  predicate WordOk(w: nat, pc: Pc)
    requires w > 0
  {
    pc.InWindow() ==> pc.a0 == pc.n0 % w
  }

  ghost predicate Inv(w: nat, s: State, stk: seq<Addr>)
    requires w > 0
  {
    && s.a == s.n % w
    && Chain(s.link, s.b, stk) && NoDuplicates(stk)
    && (forall x | x in stk :: x !in s.free)
    && (forall x | x in s.free :: x in s.link && x != 0)
    && (forall t | t in s.pcs :: PcGood(s, stk, s.pcs[t]) && WordOk(w, s.pcs[t]))
    && (forall t, u, x | t in s.pcs && u in s.pcs && t != u && s.pcs[t].Pushing() && s.pcs[u].Pushing() ::
          x in s.pcs[t].chain ==> x !in s.pcs[u].chain)
  }

  lemma InitInv(w: nat, nodes: set<Addr>)
    requires w > 0 && 0 !in nodes
    ensures Inv(w, Init(nodes), [])
  {
  }

  /** The stack after a step, on the side of the atomic stack. */
  function Abstract(s: State, stk: seq<Addr>, l: Label): seq<Addr> {
    match Effect(s, l)
    case None => stk
    case Some(op) => Do(stk, op)
  }

  /** A thread that only moves on keeps the invariant if its new place is good. */
  lemma MoveKeeps(w: nat, s: State, stk: seq<Addr>, t: Tid, pc: Pc)
    requires w > 0 && Inv(w, s, stk) && t in s.pcs
    requires PcGood(s, stk, pc) && WordOk(w, pc)
    requires pc.Pushing() ==> s.pcs[t].Pushing() && pc.chain == s.pcs[t].chain
    ensures Inv(w, s.(pcs := s.pcs[t := pc]), stk)
  {
    var s' := s.(pcs := s.pcs[t := pc]);
    forall u | u in s'.pcs
      ensures PcGood(s', stk, s'.pcs[u]) && WordOk(w, s'.pcs[u])
    {
      assert u == t || s'.pcs[u] == s.pcs[u];
    }
  }

  lemma JoinedChain(link: map<Addr, Addr>, b: Addr, c: seq<Addr>, stk: seq<Addr>)
    requires Chain(link, b, stk) && c != [] && Linked(link, c)
    requires forall x | x in c :: x != 0 && x in link
    requires link[Last(c)] == b
    ensures Chain(link, c[0], c + stk)
  {
    var d, n := c + stk, |c|;
    forall i | 0 <= i < |d| ensures d[i] != 0 && d[i] in link && link[d[i]] == At(d, i + 1) {
      if i < n - 1 {
        assert d[i] == c[i] && d[i + 1] == c[i + 1];
        assert c[i] in c;
      } else if i == n - 1 {
        assert c[i] in c;
        assert d[i] == c[i] && At(d, n) == At(stk, 0);
      } else {
        assert d[i] == stk[i - n] && At(d, i + 1) == At(stk, i - n + 1);
      }
    }
  }

  lemma JoinedDistinct(c: seq<Addr>, d: seq<Addr>)
    requires NoDuplicates(c) && NoDuplicates(d) && forall x | x in c :: x !in d
    ensures NoDuplicates(c + d)
  {
    forall i, j | 0 <= i < j < |c + d| ensures (c + d)[i] != (c + d)[j] {
      if i < |c| <= j {
        assert c[i] in c && d[j - |c|] in d;
      }
    }
  }

  lemma ChainTail(link: map<Addr, Addr>, b: Addr, stk: seq<Addr>)
    requires Chain(link, b, stk) && NoDuplicates(stk) && b != 0
    ensures stk != [] && stk[0] == b && b in link
    ensures Chain(link, link[b], stk[1..]) && NoDuplicates(stk[1..]) && b !in stk[1..]
  {
    assert forall i | 0 <= i < |stk[1..]| :: stk[1..][i] == stk[i + 1];
  }

  lemma CallPushKeeps(w: nat, s: State, stk: seq<Addr>, t: Tid, nodes: seq<Addr>)
    requires w > 0 && Inv(w, s, stk) && Enabled(s, CallPush(t, nodes))
    ensures Inv(w, Apply(w, s, CallPush(t, nodes)), stk)
  {
  }

  lemma ScribbleKeeps(w: nat, s: State, stk: seq<Addr>, x: Addr, v: Addr)
    requires w > 0 && Inv(w, s, stk) && Enabled(s, Scribble(x, v))
    ensures Inv(w, Apply(w, s, Scribble(x, v)), stk)
  {
  }

  lemma ReadKeeps(w: nat, s: State, stk: seq<Addr>, t: Tid)
    requires w > 0 && Inv(w, s, stk) && PcOf(s, t) != Idle
    requires !PcOf(s, t).PushLink? && !CasSucceeds(s, Access(t))
    ensures Inv(w, Apply(w, s, Access(t)), stk)
    ensures Effect(s, Access(t)).Some? ==> stk == []
  {
    var s' := Apply(w, s, Access(t));
    assert PcGood(s, stk, s.pcs[t]);
    assert stk != [] ==> stk[0] != 0;
    MoveKeeps(w, s, stk, t, s'.pcs[t]);
  }

  lemma LinkKeeps(w: nat, s: State, stk: seq<Addr>, t: Tid)
    requires w > 0 && Inv(w, s, stk) && PcOf(s, t).PushLink?
    ensures Inv(w, Apply(w, s, Access(t)), stk)
  {
    var s', last := Apply(w, s, Access(t)), Last(s.pcs[t].chain);
    assert PcGood(s, stk, s.pcs[t]) && WordOk(w, s.pcs[t]);
    assert last in s.pcs[t].chain;
    assert Chain(s'.link, s.b, stk);
    forall u | u in s'.pcs
      ensures PcGood(s', stk, s'.pcs[u]) && WordOk(w, s'.pcs[u])
    {
      assert PcGood(s, stk, s.pcs[u]) && WordOk(w, s.pcs[u]);
      if u != t && s.pcs[u].Pushing() {
        assert last !in s.pcs[u].chain;
        assert Last(s.pcs[u].chain) in s.pcs[u].chain;
      }
    }
  }

  lemma PushCasKeeps(w: nat, s: State, stk: seq<Addr>, t: Tid)
    requires w > 0 && Inv(w, s, stk) && PcOf(s, t).PushCas? && CasSucceeds(s, Access(t))
    ensures Inv(w, Apply(w, s, Access(t)), PcOf(s, t).chain + stk)
  {
    var c, s' := s.pcs[t].chain, Apply(w, s, Access(t));
    WordMath.NextWord(w, s.n);
    JoinedChain(s.link, s.b, c, stk);
    JoinedDistinct(c, stk);
    forall u | u in s'.pcs
      ensures PcGood(s', c + stk, s'.pcs[u]) && WordOk(w, s'.pcs[u])
    {
      assert PcGood(s, stk, s.pcs[u]) && WordOk(w, s.pcs[u]);
    }
  }

  lemma PopCasKeeps(w: nat, s: State, stk: seq<Addr>, t: Tid)
    requires w > 0 && Inv(w, s, stk) && PcOf(s, t).PopCas? && CasSucceeds(s, Access(t))
    requires Timely(w, s, Access(t))
    ensures stk != [] && stk[0] == PcOf(s, t).b0
    ensures Inv(w, Apply(w, s, Access(t)), stk[1..])
  {
    hide Chain, NoDuplicates, Linked;
    var pc, s' := s.pcs[t], Apply(w, s, Access(t));
    assert PcGood(s, stk, pc) && WordOk(w, pc);
    WordMath.SameWordInWindow(w, pc.n0, s.n);
    WordMath.NextWord(w, s.n);
    ChainTail(s.link, s.b, stk);
    forall u | u in s'.pcs
      ensures PcGood(s', stk[1..], s'.pcs[u]) && WordOk(w, s'.pcs[u])
    {
      assert PcGood(s, stk, s.pcs[u]) && WordOk(w, s.pcs[u]);
    }
  }

  lemma StepKeepsInv(w: nat, s: State, stk: seq<Addr>, l: Label)
    requires w > 0 && Inv(w, s, stk) && Enabled(s, l) && Timely(w, s, l)
    ensures Inv(w, Apply(w, s, l), Abstract(s, stk, l))
    ensures Effect(s, l).Some? ==> Legal(stk, Effect(s, l).value)
  {
    match l
    case CallPush(t, nodes) => CallPushKeeps(w, s, stk, t, nodes);
    case CallPop(t) =>
    case Scribble(x, v) => ScribbleKeeps(w, s, stk, x, v);
    case Access(t) =>
      if CasSucceeds(s, l) {
        if PcOf(s, t).PushCas? {
          PushCasKeeps(w, s, stk, t);
        } else {
          PopCasKeeps(w, s, stk, t);
        }
      } else if PcOf(s, t).PushLink? {
        LinkKeeps(w, s, stk, t);
      } else {
        ReadKeeps(w, s, stk, t);
      }
  }

  // ---------------------------------------------------------------- runs

  function Final(w: nat, s0: State, ls: seq<Label>): State
    requires w > 0
  {
    if ls == [] then s0 else Apply(w, Final(w, s0, ls[..|ls| - 1]), ls[|ls| - 1])
  }

  ghost predicate Valid(w: nat, s0: State, ls: seq<Label>)
    requires w > 0
  {
    ls == [] || (Valid(w, s0, ls[..|ls| - 1]) && Enabled(Final(w, s0, ls[..|ls| - 1]), ls[|ls| - 1]))
  }

  predicate AllTimely(w: nat, s0: State, ls: seq<Label>)
    requires w > 0
  {
    ls == [] || (AllTimely(w, s0, ls[..|ls| - 1]) && Timely(w, Final(w, s0, ls[..|ls| - 1]), ls[|ls| - 1]))
  }

  /** The operations completed in a run, in the order in which they take effect. */
  function History(w: nat, s0: State, ls: seq<Label>): seq<Op>
    requires w > 0
  {
    if ls == [] then []
    else
      var before := ls[..|ls| - 1];
      match Effect(Final(w, s0, before), ls[|ls| - 1])
      case None => History(w, s0, before)
      case Some(op) => History(w, s0, before) + [op]
  }

  lemma HistoryGrows(ops: seq<Op>, op: Op)
    ensures Replay(ops + [op]) == Do(Replay(ops), op)
    ensures LegalHistory(ops + [op]) <==> LegalHistory(ops) && Legal(Replay(ops), op)
  {
    assert (ops + [op])[..|ops|] == ops;
  }

  /** Every run is a run of the atomic stack: the completed operations, in the order of their successful
      compare-and-swaps (for a pop of an empty stack, its read of `b`), form a legal history of a sequential
      stack, and walking the links from the head yields exactly the stack that history builds. */
  lemma {:induction false} RunIsAtomic(w: nat, nodes: set<Addr>, ls: seq<Label>)
    requires w > 0 && 0 !in nodes
    requires Valid(w, Init(nodes), ls) && AllTimely(w, Init(nodes), ls)
    ensures LegalHistory(History(w, Init(nodes), ls))
    ensures Chain(Final(w, Init(nodes), ls).link, Final(w, Init(nodes), ls).b, Replay(History(w, Init(nodes), ls)))
    ensures Inv(w, Final(w, Init(nodes), ls), Replay(History(w, Init(nodes), ls)))
    decreases |ls|
  {
    if ls == [] {
      InitInv(w, nodes);
    } else {
      var before := ls[..|ls| - 1];
      RunIsAtomic(w, nodes, before);
      var s, h := Final(w, Init(nodes), before), History(w, Init(nodes), before);
      StepKeepsInv(w, s, Replay(h), ls[|ls| - 1]);
      if Effect(s, ls[|ls| - 1]).Some? {
        HistoryGrows(h, Effect(s, ls[|ls| - 1]).value);
      }
    }
  }

  // ---------------------------------------------------------------- conservation

  function AllPushed(ops: seq<Op>): multiset<Addr> {
    if ops == [] then multiset{} else AllPushed(ops[..|ops| - 1]) + PushedBy(ops[|ops| - 1])
  }

  function AllPopped(ops: seq<Op>): multiset<Addr> {
    if ops == [] then multiset{} else AllPopped(ops[..|ops| - 1]) + PoppedBy(ops[|ops| - 1])
  }

  lemma {:induction false} HistoryConserves(ops: seq<Op>)
    requires LegalHistory(ops)
    ensures AllPushed(ops) == AllPopped(ops) + multiset(Replay(ops))
  {
    hide Legal, Do, PushedBy, PoppedBy;
    if ops != [] {
      var before, op := ops[..|ops| - 1], ops[|ops| - 1];
      HistoryConserves(before);
      OpConserves(Replay(before), op);
      Exchange(AllPushed(before), AllPopped(before), multiset(Replay(before)), PushedBy(op), PoppedBy(op),
               multiset(Do(Replay(before), op)));
    } else {
      assert Replay(ops) == [];
    }
  }

  lemma Exchange<T>(pushed: multiset<T>, popped: multiset<T>, stk: multiset<T>, more: multiset<T>, less: multiset<T>,
                    now: multiset<T>)
    requires pushed == popped + stk && stk + more == now + less
    ensures pushed + more == popped + less + now
  {
    assert pushed + more == popped + (stk + more);
    assert popped + less + now == popped + (now + less);
  }

  function PushedBy(op: Op): multiset<Addr> {
    if op.Pushed? then multiset(op.nodes) else multiset{}
  }

  function PoppedBy(op: Op): multiset<Addr> {
    if op.Popped? then multiset{op.node} else multiset{}
  }

  lemma OpConserves(stk: seq<Addr>, op: Op)
    requires Legal(stk, op)
    ensures multiset(stk) + PushedBy(op) == multiset(Do(stk, op)) + PoppedBy(op)
  {
    if op.Popped? {
      assert stk == [op.node] + stk[1..];
    }
  }

  /** Nothing is lost and nothing is popped twice: counting repetitions, what was pushed is what was popped
      plus what a walk from the head finds. */
  lemma NothingLostOrDuplicated(w: nat, nodes: set<Addr>, ls: seq<Label>, stk: seq<Addr>)
    requires w > 0 && 0 !in nodes
    requires Valid(w, Init(nodes), ls) && AllTimely(w, Init(nodes), ls)
    requires Chain(Final(w, Init(nodes), ls).link, Final(w, Init(nodes), ls).b, stk)
    ensures NoDuplicates(stk)
    ensures AllPushed(History(w, Init(nodes), ls)) == AllPopped(History(w, Init(nodes), ls)) + multiset(stk)
  {
    var s, h := Final(w, Init(nodes), ls), History(w, Init(nodes), ls);
    RunIsAtomic(w, nodes, ls);
    ChainIsUnique(s.link, s.b, stk, Replay(h));
    HistoryConserves(h);
  }

  // ---------------------------------------------------------------- operations and their effects

  /** An operation takes effect exactly once, at the step at which it returns, and as the operation that was
      called: between call and return a thread keeps its operation and its chain. */
  lemma OneEffectPerCall(w: nat, s: State, l: Label, t: Tid)
    requires w > 0 && Enabled(s, l)
    ensures !PcOf(s, t).Idle? && PcOf(Apply(w, s, l), t).Idle? <==> Effect(s, l).Some? && Effect(s, l).value.t == t
    ensures PcOf(s, t).Idle? && !PcOf(Apply(w, s, l), t).Idle? ==>
              (l == CallPop(t) && PcOf(Apply(w, s, l), t).PopReadA?) ||
              (l.CallPush? && l.t == t && PcOf(Apply(w, s, l), t) == PushReadA(l.nodes))
    ensures !PcOf(s, t).Idle? && !PcOf(Apply(w, s, l), t).Idle? ==>
              PcOf(s, t).Pushing() == PcOf(Apply(w, s, l), t).Pushing() &&
              (PcOf(s, t).Pushing() ==> PcOf(s, t).chain == PcOf(Apply(w, s, l), t).chain)
    ensures Effect(s, l).Some? ==>
              match Effect(s, l).value
              case Pushed(u, c) => PcOf(s, u).Pushing() && PcOf(s, u).chain == c
              case Popped(u, _) => !PcOf(s, u).Pushing()
              case FoundEmpty(u) => !PcOf(s, u).Pushing()
  {
  }
}
