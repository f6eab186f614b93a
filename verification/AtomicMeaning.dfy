/** What the operations of the emulated 64-bit atomics mean, in arithmetic and bit by bit, and that they get done. */
module AtomicMeaning {
  import opened Options
  import opened Atomic64
  import opened Bits

  /** An operation in a legal history, by its value before, its value after and its answer. */
  lemma OperationMeans(m: map<Addr, Word>, d: Done)
    requires Legal(m, d)
    ensures var v: int, v': int, ret: int := m[d.addr], Do(m, d)[d.addr], d.ret;
            match d.op
            case Cas(exp, des) => if v == exp then ret == 1 && v' == des else ret == 0 && v' == v
            case Ld => ret == v && v' == v
            case St(w) => v' == w
            case Rmw(f, x, wantNew) =>
              && ret == (if wantNew then v' else v)
              && match f
                 case Add => v' == v + x || v' == v + x - WORD
                 case Sub => v' == v - x || v' == v - x + WORD
                 case Or => forall k: nat | k < 64 :: IsSet(v', k) <==> IsSet(v, k) || IsSet(x, k)
                 case And => forall k: nat | k < 64 :: IsSet(v', k) <==> IsSet(v, k) && IsSet(x, k)
    ensures Do(m, d).Keys == m.Keys && forall y | y in m && y != d.addr :: Do(m, d)[y] == m[y]
  {
    hide OrBits, AndBits, IsSet;
    if d.op.Rmw? {
      BitwiseMeans(m[d.addr], d.op.v);
    }
  }

  lemma BitwiseMeans(a: Word, b: Word)
    ensures forall k: nat | k < 64 :: IsSet(OrWord(a, b), k) <==> IsSet(a, k) || IsSet(b, k)
    ensures forall k: nat | k < 64 :: IsSet(AndWord(a, b), k) <==> IsSet(a, k) && IsSet(b, k)
  {
    hide OrBits, AndBits, IsSet;
    forall k: nat | k < 64
      ensures IsSet(OrWord(a, b), k) <==> IsSet(a, k) || IsSet(b, k)
      ensures IsSet(AndWord(a, b), k) <==> IsSet(a, k) && IsSet(b, k)
    {
      OrSets(a, b, 64, k);
      AndSets(a, b, 64, k);
    }
  }

  // ---------------------------------------------------------------- variables that are only or-ed, only and-ed

  predicate Only(h: seq<Done>, x: Addr, f: Fun) {
    forall d | d in h && d.addr == x :: d.op.Ld? || (d.op.Rmw? && d.op.f == f)
  }

  /** Bit k is set in some operand. */
  predicate SomeSets(h: seq<Done>, x: Addr, k: nat) {
    exists d | d in h && d.addr == x && d.op.Rmw? :: IsSet(d.op.v, k)
  }

  /** Bit k is set in every operand. */
  predicate AllSet(h: seq<Done>, x: Addr, k: nat) {
    forall d | d in h && d.addr == x && d.op.Rmw? :: IsSet(d.op.v, k)
  }

  lemma SomeSetsGrows(h: seq<Done>, d: Done, x: Addr, k: nat)
    ensures SomeSets(h + [d], x, k) <==> SomeSets(h, x, k) || (d.addr == x && d.op.Rmw? && IsSet(d.op.v, k))
    ensures AllSet(h + [d], x, k) <==> AllSet(h, x, k) && (d.addr == x && d.op.Rmw? ==> IsSet(d.op.v, k))
  {
    hide IsSet;
    assert d in h + [d] && forall e | e in h :: e in h + [d];
  }

  lemma {:induction false} OrsGather(m: map<Addr, Word>, h: seq<Done>, x: Addr, k: nat)
    requires x in m && LegalHistory(m, h) && Only(h, x, Or) && k < 64
    ensures x in Replay(m, h)
    ensures IsSet(Replay(m, h)[x], k) <==> IsSet(m[x], k) || SomeSets(h, x, k)
  {
    hide IsSet, Legal, Do, SomeSets, AllSet;
    if h == [] {
      NothingSets(x, k);
    } else {
      var before, d := h[..|h| - 1], h[|h| - 1];
      assert h == before + [d] && d in h;
      OrsGather(m, before, x, k);
      SomeSetsGrows(before, d, x, k);
      var now := Replay(m, before);
      OperationMeans(now, d);
      if d.addr == x {
        OneBit(now, d, k);
      }
    }
  }

  lemma {:induction false} AndsGather(m: map<Addr, Word>, h: seq<Done>, x: Addr, k: nat)
    requires x in m && LegalHistory(m, h) && Only(h, x, And) && k < 64
    ensures x in Replay(m, h)
    ensures IsSet(Replay(m, h)[x], k) <==> IsSet(m[x], k) && AllSet(h, x, k)
  {
    hide IsSet, Legal, Do, SomeSets, AllSet;
    if h == [] {
      NothingSets(x, k);
    } else {
      var before, d := h[..|h| - 1], h[|h| - 1];
      assert h == before + [d] && d in h;
      AndsGather(m, before, x, k);
      SomeSetsGrows(before, d, x, k);
      var now := Replay(m, before);
      OperationMeans(now, d);
      if d.addr == x {
        OneBit(now, d, k);
      }
    }
  }

  lemma NothingSets(x: Addr, k: nat)
    ensures !SomeSets([], x, k) && AllSet([], x, k)
  {
  }

  lemma OneBit(m: map<Addr, Word>, d: Done, k: nat)
    requires Legal(m, d) && k < 64 && (d.op.Ld? || (d.op.Rmw? && (d.op.f.Or? || d.op.f.And?)))
    ensures d.addr in m && d.addr in Do(m, d)
    ensures d.op.Ld? ==> Do(m, d)[d.addr] == m[d.addr]
    ensures d.op.Rmw? && d.op.f.Or? ==>
              (IsSet(Do(m, d)[d.addr], k) <==> IsSet(m[d.addr], k) || IsSet(d.op.v, k))
    ensures d.op.Rmw? && d.op.f.And? ==>
              (IsSet(Do(m, d)[d.addr], k) <==> IsSet(m[d.addr], k) && IsSet(d.op.v, k))
  {
    hide IsSet;
    OperationMeans(m, d);
  }

  /** When no operation is under way, a variable that was only or-ed and read has exactly the bits set that were set at
      first or in some operand; one that was only and-ed and read, those that were set at first and in every operand. */
  lemma QuiescentBits(m: map<Addr, Word>, ls: seq<Label>, s: State, h: seq<Done>, x: Addr, k: nat)
    requires Valid(Init(m), ls) && s == Final(Init(m), ls) && h == History(Init(m), ls)
    requires x in m && Quiescent(s) && k < 64
    ensures x in s.mem
    ensures Only(h, x, Or) ==> (IsSet(Join(s.mem[x]), k) <==> IsSet(m[x], k) || SomeSets(h, x, k))
    ensures Only(h, x, And) ==> (IsSet(Join(s.mem[x]), k) <==> IsSet(m[x], k) && AllSet(h, x, k))
  {
    hide IsSet, SomeSets, AllSet, Only, Valid, Init, Final, History, Replay, LegalHistory, Inv;
    RunIsAtomic(m, ls);
    KeysStay(m, h);
    QuiescentMemory(s, Replay(m, h), x);
    if Only(h, x, Or) {
      OrsGather(m, h, x, k);
    }
    if Only(h, x, And) {
      AndsGather(m, h, x, k);
    }
  }

  lemma {:induction false} KeysStay(m: map<Addr, Word>, h: seq<Done>)
    ensures Replay(m, h).Keys == m.Keys
  {
    hide NewValue;
    if h != [] {
      KeysStay(m, h[..|h| - 1]);
    }
  }

  /** When no operation is under way the memory is the atomic memory. */
  lemma QuiescentMemory(s: State, m: map<Addr, Word>, x: Addr)
    requires Inv(s, m) && Quiescent(s) && x in m
    ensures x in s.mem && Join(s.mem[x]) == m[x]
  {
    hide LockIndex, NewValue, Answer;
    assert !HalfStored(s, x);
  }

  // ---------------------------------------------------------------- operations get done

  /** n accesses of t with nobody else moving. */
  function Alone(s: State, t: Tid, n: nat): State
    decreases n
  {
    if n == 0 then s else Alone(Apply(s, Access(t)), t, n - 1)
  }

  /** How many accesses an operation has still to make at most. */
  function Left(pc: Pc): nat {
    match pc
    case Idle => 0
    case Locking(_, _) => 6
    case ReadLo(_, _) => 5
    case ReadHi(_, _, _) => 4
    case WriteLo(_, _, _, _) => 3
    case WriteHi(_, _, _, _) => 2
    case Unlocking(_, _, _) => 1
  }

  lemma StepGetsOn(s: State, m: map<Addr, Word>, t: Tid)
    requires Inv(s, m) && !PcOf(s, t).Idle? && Enabled(s, Access(t))
    ensures Left(PcOf(Apply(s, Access(t)), t)) < Left(PcOf(s, t))
    ensures !PcOf(Apply(s, Access(t)), t).Locking?
  {
    hide LockIndex, NewValue, Answer, Combine;
    if PcOf(s, t).ReadHi? {
      ReadSeesWhole(s, m, t);
    } else {
      HasVariable(s, m, t);
    }
  }

  /** An operation that has its mutex, or finds it free, needs nobody to return after six accesses at most. */
  lemma {:induction false} FinishesAlone(s: State, m: map<Addr, Word>, t: Tid) returns (n: nat, m': map<Addr, Word>)
    requires Inv(s, m) && (PcOf(s, t).Locking? ==> Enabled(s, Access(t)))
    ensures n <= Left(PcOf(s, t)) && PcOf(Alone(s, t, n), t).Idle? && Inv(Alone(s, t, n), m')
    decreases Left(PcOf(s, t))
  {
    hide Inv, Apply, LockIndex, Legal, Do;
    if PcOf(s, t).Idle? {
      n, m' := 0, m;
    } else {
      CanMove(s, t);
      assert Enabled(s, Access(t));
      var s', e := Apply(s, Access(t)), Effect(s, Access(t));
      StepGetsOn(s, m, t);
      StepKeepsInv(s, m, Access(t));
      n, m' := FinishesAlone(s', if e.Some? then Do(m, e.value) else m, t);
      n := n + 1;
    }
  }

  lemma CanMove(s: State, t: Tid)
    requires !PcOf(s, t).Idle?
    ensures !PcOf(s, t).Locking? ==> Enabled(s, Access(t))
  {
  }

  /** While an operation is under way some thread can move: the mutexes do not deadlock. */
  lemma NoDeadlock(s: State, m: map<Addr, Word>)
    requires Inv(s, m) && !Quiescent(s)
    ensures exists t :: !PcOf(s, t).Idle? && Enabled(s, Access(t))
  {
    hide LockIndex, PcGood, HalfStored;
    var t :| t in s.pcs && !s.pcs[t].Idle?;
    if !Enabled(s, Access(t)) {
      var u := s.locks[LockIndex(PcOf(s, t).x)];
      assert PcOf(s, u).Critical();
      assert Enabled(s, Access(u));
    }
  }
}
