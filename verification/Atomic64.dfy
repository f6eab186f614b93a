/** The 64-bit atomic operations that ddsrt/src/atomics.c emulates on machines without them: the variable's
    address selects one of 16 mutexes, and the operation reads and writes the variable while holding it.

    On such a machine a 64-bit access is two 32-bit accesses, so memory is modelled as pairs of halves and
    every step below touches at most one half. */
module Atomic64 {
  import opened Options
  import Bits
  import Sequences
  import WordMath

  type Addr = nat
  type Tid = nat

  const HALF := 0x1_0000_0000
  const WORD := 0x1_0000_0000_0000_0000
  const N_MUTEXES := 16

  type Word = x: int | 0 <= x < 0x1_0000_0000_0000_0000
  datatype Cell = Cell(lo: nat, hi: nat)

  datatype Fun = Add | Sub | Or | And

  /** `Rmw` covers add, sub, or, and (with inc and dec as add and sub of 1), returning the old or new value. */
  datatype Op = Cas(exp: Word, des: Word) | Ld | St(v: Word) | Rmw(f: Fun, v: Word, wantNew: bool)

  datatype Pc =
    | Idle
    | Locking(x: Addr, op: Op)
    | ReadLo(x: Addr, op: Op)
    | ReadHi(x: Addr, op: Op, lo: nat)
    | WriteLo(x: Addr, op: Op, nv: Word, ret: Word)
    | WriteHi(x: Addr, op: Op, nv: Word, ret: Word)
    | Unlocking(x: Addr, op: Op, ret: Word)
  {
    predicate Critical() {
      !Idle? && !Locking?
    }
  }

  datatype State = State(mem: map<Addr, Cell>, locks: map<nat, Tid>, pcs: map<Tid, Pc>)

  datatype Label = Call(t: Tid, addr: Addr, op: Op) | Access(t: Tid)

  /** An operation by t on the variable at addr has taken effect and will return ret. */
  datatype Done = Done(t: Tid, addr: Addr, op: Op, ret: Word)

  function PcOf(s: State, t: Tid): Pc {
    if t in s.pcs then s.pcs[t] else Idle
  }

  function Join(c: Cell): nat {
    c.hi * HALF + c.lo
  }

  // ---------------------------------------------------------------- the code

  function LockIndex(x: Addr): (i: nat)
    ensures i < N_MUTEXES
  {
    Scatter(x / 8 % 0x1_0000)
  }

  /** The top four bits of a 32-bit product. */
  function Scatter(u: nat): (i: nat)
    ensures i < N_MUTEXES
  {
    u * 0xb481_7365 % HALF / 0x1000_0000
  }

  function OrWord(a: Word, b: Word): Word {
    Bits.WordBound();
    Bits.OrBits(a, b, 64)
  }

  function AndWord(a: Word, b: Word): Word {
    Bits.WordBound();
    Bits.AndBits(a, b, 64)
  }

  function Combine(f: Fun, a: Word, b: Word): Word {
    match f
    case Add => (a + b) % WORD
    case Sub => (a - b) % WORD
    case Or => OrWord(a, b)
    case And => AndWord(a, b)
  }

  predicate Enabled(s: State, l: Label) {
    match l
    case Call(t, x, _) => PcOf(s, t).Idle? && x in s.mem
    case Access(t) => !PcOf(s, t).Idle? && (PcOf(s, t).Locking? ==> LockIndex(PcOf(s, t).x) !in s.locks)
  }

  /** What the code does after reading the whole variable. */
  function AfterRead(x: Addr, op: Op, cur: Word): Pc {
    match op
    case Cas(exp, des) => if cur == exp then WriteLo(x, op, des, 1) else Unlocking(x, op, 0)
    case Ld => Unlocking(x, op, cur)
    case St(v) => WriteLo(x, op, v, 0)
    case Rmw(f, v, wantNew) =>
      var nv := Combine(f, cur, v);
      WriteLo(x, op, nv, if wantNew then nv else cur)
  }

  function Apply(s: State, l: Label): State {
    match l
    case Call(t, x, op) => s.(pcs := s.pcs[t := Locking(x, op)])
    case Access(t) =>
      match PcOf(s, t)
      case Idle => s
      case Locking(x, op) =>
        s.(locks := s.locks[LockIndex(x) := t],
           pcs := s.pcs[t := if op.St? then WriteLo(x, op, op.v, 0) else ReadLo(x, op)])
      case ReadLo(x, op) =>
        s.(pcs := s.pcs[t := ReadHi(x, op, if x in s.mem then s.mem[x].lo else 0)])
      case ReadHi(x, op, lo) =>
        var cur := if x in s.mem then s.mem[x].hi * HALF + lo else 0;
        s.(pcs := s.pcs[t := if cur < WORD then AfterRead(x, op, cur) else Idle])
      case WriteLo(x, op, nv, ret) =>
        if x !in s.mem then s
        else s.(mem := s.mem[x := s.mem[x].(lo := nv % HALF)], pcs := s.pcs[t := WriteHi(x, op, nv, ret)])
      case WriteHi(x, op, nv, ret) =>
        if x !in s.mem then s
        else s.(mem := s.mem[x := s.mem[x].(hi := nv / HALF)], pcs := s.pcs[t := Unlocking(x, op, ret)])
      case Unlocking(x, op, ret) => s.(locks := s.locks - {LockIndex(x)}, pcs := s.pcs[t := Idle])
  }

  /** An operation takes effect when it stores the second half or, if it stores nothing, when it has read both. */
  function Effect(s: State, l: Label): Option<Done> {
    if !l.Access? then None
    else
      match PcOf(s, l.t)
      case WriteHi(x, op, _, ret) => Some(Done(l.t, x, op, ret))
      case ReadHi(x, op, lo) =>
        var pc := PcOf(Apply(s, l), l.t);
        if pc.Unlocking? then Some(Done(l.t, x, op, pc.ret)) else None
      case _ => None
  }

  // ---------------------------------------------------------------- atomic 64-bit memory

  function NewValue(op: Op, cur: Word): Word {
    match op
    case Cas(exp, des) => if cur == exp then des else cur
    case Ld => cur
    case St(v) => v
    case Rmw(f, v, _) => Combine(f, cur, v)
  }

  function Answer(op: Op, cur: Word): Word {
    match op
    case Cas(exp, _) => if cur == exp then 1 else 0
    case Ld => cur
    case St(_) => 0
    case Rmw(f, v, wantNew) => if wantNew then Combine(f, cur, v) else cur
  }

  predicate Legal(m: map<Addr, Word>, d: Done) {
    d.addr in m && d.ret == Answer(d.op, m[d.addr])
  }

  function Do(m: map<Addr, Word>, d: Done): map<Addr, Word> {
    if d.addr in m then m[d.addr := NewValue(d.op, m[d.addr])] else m
  }

  // ---------------------------------------------------------------- the invariant

  predicate PcGood(s: State, m: map<Addr, Word>, t: Tid, pc: Pc) {
    && (!pc.Idle? ==> pc.x in s.mem)
    && (pc.Critical() ==> LockIndex(pc.x) in s.locks && s.locks[LockIndex(pc.x)] == t)
    && (pc.ReadHi? && pc.x in m ==> pc.lo == m[pc.x] % HALF)
    && ((pc.WriteLo? || pc.WriteHi?) && pc.x in m ==>
          pc.nv == NewValue(pc.op, m[pc.x]) && pc.ret == Answer(pc.op, m[pc.x]))
    && (pc.WriteHi? && pc.x in s.mem && pc.x in m ==>
          s.mem[pc.x].lo == pc.nv % HALF && s.mem[pc.x].hi == m[pc.x] / HALF)
  }

  /** m is the atomic memory: what every variable holds, except that one whose two halves are being stored
      still holds its old value. */
  ghost predicate Inv(s: State, m: map<Addr, Word>) {
    && m.Keys == s.mem.Keys
    && (forall i | i in s.locks ::
          PcOf(s, s.locks[i]).Critical() && LockIndex(PcOf(s, s.locks[i]).x) == i)
    && (forall t | t in s.pcs :: PcGood(s, m, t, s.pcs[t]))
    && (forall x | x in s.mem && !HalfStored(s, x) :: s.mem[x].lo == m[x] % HALF && s.mem[x].hi == m[x] / HALF)
  }

  predicate HalfStored(s: State, x: Addr) {
    var i := LockIndex(x);
    i in s.locks && PcOf(s, s.locks[i]).WriteHi? && PcOf(s, s.locks[i]).x == x
  }

  /** A thread moves on without storing anything. */
  lemma MoveKeeps(s: State, m: map<Addr, Word>, t: Tid, pc: Pc)
    requires Inv(s, m) && PcOf(s, t).Critical() == pc.Critical()
    requires pc.Critical() ==> pc.x == PcOf(s, t).x
    requires PcGood(s, m, t, pc) && !pc.WriteHi? && !PcOf(s, t).WriteHi?
    ensures Inv(s.(pcs := s.pcs[t := pc]), m)
  {
    hide LockIndex, NewValue, Answer, Combine;
    var s' := s.(pcs := s.pcs[t := pc]);
    forall u | u in s'.pcs ensures PcGood(s', m, u, s'.pcs[u]) {
      assert u != t ==> PcGood(s, m, u, s.pcs[u]);
    }
    forall x | x in s'.mem && !HalfStored(s', x)
      ensures s'.mem[x].lo == m[x] % HALF && s'.mem[x].hi == m[x] / HALF
    {
      assert !HalfStored(s, x);
    }
  }

  lemma LockKeeps(s: State, m: map<Addr, Word>, t: Tid)
    requires Inv(s, m) && PcOf(s, t).Locking? && Enabled(s, Access(t))
    ensures Inv(Apply(s, Access(t)), m)
  {
    var s' := Apply(s, Access(t));
    assert PcGood(s, m, t, s.pcs[t]);
    forall u | u in s'.pcs ensures PcGood(s', m, u, s'.pcs[u]) {
      assert u != t ==> PcGood(s, m, u, s.pcs[u]);
    }
    forall x | x in s'.mem && !HalfStored(s', x)
      ensures s'.mem[x].lo == m[x] % HALF && s'.mem[x].hi == m[x] / HALF
    {
      assert !HalfStored(s, x);
    }
  }

  lemma UnlockKeeps(s: State, m: map<Addr, Word>, t: Tid)
    requires Inv(s, m) && PcOf(s, t).Unlocking?
    ensures Inv(Apply(s, Access(t)), m)
  {
    var s' := Apply(s, Access(t));
    assert PcGood(s, m, t, s.pcs[t]);
    forall u | u in s'.pcs ensures PcGood(s', m, u, s'.pcs[u]) {
      assert u != t ==> PcGood(s, m, u, s.pcs[u]);
    }
    forall x | x in s'.mem && !HalfStored(s', x)
      ensures s'.mem[x].lo == m[x] % HALF && s'.mem[x].hi == m[x] / HALF
    {
      assert !HalfStored(s, x);
    }
  }

  /** Under the lock, and before this thread stores, the variable holds its atomic value. */
  lemma LockedValue(s: State, m: map<Addr, Word>, t: Tid)
    requires Inv(s, m) && PcOf(s, t).Critical() && !PcOf(s, t).WriteHi?
    ensures PcOf(s, t).x in m && PcOf(s, t).x in s.mem
    ensures s.mem[PcOf(s, t).x].lo == m[PcOf(s, t).x] % HALF && s.mem[PcOf(s, t).x].hi == m[PcOf(s, t).x] / HALF
  {
    assert PcGood(s, m, t, s.pcs[t]);
    assert !HalfStored(s, PcOf(s, t).x);
  }

  /** Joining the halves that were read one after the other gives the atomic value. */
  lemma ReadSeesWhole(s: State, m: map<Addr, Word>, t: Tid)
    requires Inv(s, m) && PcOf(s, t).ReadHi?
    ensures PcOf(s, t).x in m
    ensures PcOf(Apply(s, Access(t)), t) == AfterRead(PcOf(s, t).x, PcOf(s, t).op, m[PcOf(s, t).x])
  {
    assert PcGood(s, m, t, s.pcs[t]);
    LockedValue(s, m, t);
  }

  lemma ReadHiKeeps(s: State, m: map<Addr, Word>, t: Tid)
    requires Inv(s, m) && PcOf(s, t).ReadHi?
    ensures Effect(s, Access(t)).None? ==> Inv(Apply(s, Access(t)), m)
    ensures Effect(s, Access(t)).Some? ==>
              Legal(m, Effect(s, Access(t)).value) && Inv(Apply(s, Access(t)), Do(m, Effect(s, Access(t)).value))
  {
    var x, op := PcOf(s, t).x, PcOf(s, t).op;
    ReadSeesWhole(s, m, t);
    assert PcGood(s, m, t, s.pcs[t]);
    MoveKeeps(s, m, t, AfterRead(x, op, m[x]));
    if Effect(s, Access(t)).Some? {
      assert NewValue(op, m[x]) == m[x];
      assert m[x := m[x]] == m;
    }
  }

  /** Every variable whose halves are not being stored holds its atomic value. */
  ghost predicate MemGood(s: State, m: map<Addr, Word>) {
    m.Keys == s.mem.Keys &&
    forall x | x in s.mem && !HalfStored(s, x) :: s.mem[x].lo == m[x] % HALF && s.mem[x].hi == m[x] / HALF
  }

  ghost predicate PcsGood(s: State, m: map<Addr, Word>) {
    forall t | t in s.pcs :: PcGood(s, m, t, s.pcs[t])
  }

  ghost predicate LocksGood(s: State) {
    forall i | i in s.locks :: PcOf(s, s.locks[i]).Critical() && LockIndex(PcOf(s, s.locks[i]).x) == i
  }

  lemma InvIs(s: State, m: map<Addr, Word>)
    ensures Inv(s, m) <==> MemGood(s, m) && PcsGood(s, m) && LocksGood(s)
  {
    hide LockIndex, PcGood, HalfStored;
  }

  lemma LocksStay(s: State, s': State, t: Tid)
    requires LocksGood(s) && s'.locks == s.locks && PcOf(s, t).Critical()
    requires t in s'.pcs && s'.pcs == s.pcs[t := s'.pcs[t]]
    requires s'.pcs[t].Critical() && s'.pcs[t].x == PcOf(s, t).x
    ensures LocksGood(s')
  {
    hide LockIndex;
  }

  lemma WriteLoMem(s: State, m: map<Addr, Word>, t: Tid)
    requires Inv(s, m) && PcOf(s, t).WriteLo?
    ensures MemGood(Apply(s, Access(t)), m)
  {
    hide LockIndex, NewValue, Answer, Combine;
    var s', x := Apply(s, Access(t)), PcOf(s, t).x;
    assert PcGood(s, m, t, s.pcs[t]);
    assert HalfStored(s', x);
    forall y | y in s'.mem && !HalfStored(s', y)
      ensures s'.mem[y].lo == m[y] % HALF && s'.mem[y].hi == m[y] / HALF
    {
      assert y != x && !HalfStored(s, y);
    }
  }

  lemma WriteLoPcs(s: State, m: map<Addr, Word>, t: Tid)
    requires Inv(s, m) && PcOf(s, t).WriteLo?
    ensures PcsGood(Apply(s, Access(t)), m)
  {
    hide LockIndex, NewValue, Answer, Combine, HalfStored;
    var s' := Apply(s, Access(t));
    assert PcGood(s, m, t, s.pcs[t]);
    LockedValue(s, m, t);
    forall u | u in s'.pcs ensures PcGood(s', m, u, s'.pcs[u]) {
      assert PcGood(s, m, u, s.pcs[u]);
    }
  }

  lemma WriteLoKeeps(s: State, m: map<Addr, Word>, t: Tid)
    requires Inv(s, m) && PcOf(s, t).WriteLo?
    ensures Inv(Apply(s, Access(t)), m)
  {
    hide Inv, MemGood, PcsGood, LocksGood, LockIndex;
    var s' := Apply(s, Access(t));
    InvIs(s, m);
    HasVariable(s, m, t);
    WriteLoMem(s, m, t);
    WriteLoPcs(s, m, t);
    LocksStay(s, s', t);
    InvIs(s', m);
  }

  lemma HasVariable(s: State, m: map<Addr, Word>, t: Tid)
    requires Inv(s, m) && !PcOf(s, t).Idle?
    ensures PcOf(s, t).x in s.mem && PcOf(s, t).x in m
  {
    hide LockIndex, NewValue, Answer, Combine, HalfStored;
    assert PcGood(s, m, t, s.pcs[t]);
  }

  lemma WriteHiMem(s: State, m: map<Addr, Word>, t: Tid)
    requires Inv(s, m) && PcOf(s, t).WriteHi?
    ensures MemGood(Apply(s, Access(t)), m[PcOf(s, t).x := PcOf(s, t).nv])
  {
    hide LockIndex, NewValue, Answer, Combine;
    var s', x := Apply(s, Access(t)), PcOf(s, t).x;
    assert PcGood(s, m, t, s.pcs[t]);
    forall y | y in s'.mem && !HalfStored(s', y) && y != x
      ensures s'.mem[y].lo == m[y] % HALF && s'.mem[y].hi == m[y] / HALF
    {
      assert !HalfStored(s, y);
    }
  }

  lemma WriteHiPcs(s: State, m: map<Addr, Word>, t: Tid)
    requires Inv(s, m) && PcOf(s, t).WriteHi?
    ensures PcsGood(Apply(s, Access(t)), m[PcOf(s, t).x := PcOf(s, t).nv])
  {
    hide LockIndex, NewValue, Answer, Combine, HalfStored;
    var s', x, nv := Apply(s, Access(t)), PcOf(s, t).x, PcOf(s, t).nv;
    assert PcGood(s, m, t, s.pcs[t]);
    forall u | u in s'.pcs ensures PcGood(s', m[x := nv], u, s'.pcs[u]) {
      assert PcGood(s, m, u, s.pcs[u]);
    }
  }

  lemma WriteHiEffect(s: State, m: map<Addr, Word>, t: Tid)
    requires Inv(s, m) && PcOf(s, t).WriteHi?
    ensures Effect(s, Access(t)).Some? && Legal(m, Effect(s, Access(t)).value)
    ensures Do(m, Effect(s, Access(t)).value) == m[PcOf(s, t).x := PcOf(s, t).nv]
  {
    hide LockIndex, NewValue, Answer, Combine, HalfStored;
    assert PcGood(s, m, t, s.pcs[t]);
  }

  lemma WriteHiKeeps(s: State, m: map<Addr, Word>, t: Tid)
    requires Inv(s, m) && PcOf(s, t).WriteHi?
    ensures Effect(s, Access(t)).Some? && Legal(m, Effect(s, Access(t)).value)
    ensures Inv(Apply(s, Access(t)), Do(m, Effect(s, Access(t)).value))
  {
    hide Inv, MemGood, PcsGood, LocksGood, LockIndex, Legal, Do;
    var s' := Apply(s, Access(t));
    InvIs(s, m);
    HasVariable(s, m, t);
    WriteHiEffect(s, m, t);
    WriteHiMem(s, m, t);
    WriteHiPcs(s, m, t);
    LocksStay(s, s', t);
    InvIs(s', m[PcOf(s, t).x := PcOf(s, t).nv]);
  }

  /** One step of any thread changes the atomic memory by one whole operation, with the right answer, or not
      at all. */
  lemma StepKeepsInv(s: State, m: map<Addr, Word>, l: Label)
    requires Inv(s, m) && Enabled(s, l)
    ensures Effect(s, l).None? ==> Inv(Apply(s, l), m)
    ensures Effect(s, l).Some? ==> Legal(m, Effect(s, l).value) && Inv(Apply(s, l), Do(m, Effect(s, l).value))
  {
    match l
    case Call(t, x, op) => MoveKeeps(s, m, t, Locking(x, op));
    case Access(t) =>
      assert PcGood(s, m, t, s.pcs[t]);
      match PcOf(s, t)
      case Locking(_, _) => LockKeeps(s, m, t);
      case ReadLo(x, op) =>
        LockedValue(s, m, t);
        MoveKeeps(s, m, t, ReadHi(x, op, s.mem[x].lo));
      case ReadHi(_, _, _) => ReadHiKeeps(s, m, t);
      case WriteLo(_, _, _, _) => WriteLoKeeps(s, m, t);
      case WriteHi(_, _, _, _) => WriteHiKeeps(s, m, t);
      case Unlocking(_, _, _) => UnlockKeeps(s, m, t);
  }

  // ---------------------------------------------------------------- calls, effects and locks

  /** An operation takes effect exactly once, as the operation that was called, and what it then returns is the
      answer it had when it took effect. */
  lemma OneEffectPerCall(s: State, m: map<Addr, Word>, l: Label, t: Tid)
    requires Inv(s, m) && Enabled(s, l)
    ensures PcOf(Apply(s, l), t).Unlocking? && !PcOf(s, t).Unlocking? <==>
            Effect(s, l).Some? && Effect(s, l).value.t == t
    ensures Effect(s, l).Some? && Effect(s, l).value.t == t ==>
              PcOf(Apply(s, l), t) == Unlocking(PcOf(s, t).x, PcOf(s, t).op, Effect(s, l).value.ret)
    ensures !PcOf(s, t).Idle? ==>
              if PcOf(Apply(s, l), t).Idle? then PcOf(s, t).Unlocking?
              else PcOf(Apply(s, l), t).x == PcOf(s, t).x && PcOf(Apply(s, l), t).op == PcOf(s, t).op
    ensures PcOf(s, t).Unlocking? && PcOf(Apply(s, l), t).Unlocking? ==> PcOf(Apply(s, l), t) == PcOf(s, t)
    ensures PcOf(s, t).Idle? && !PcOf(Apply(s, l), t).Idle? ==>
              l.Call? && PcOf(Apply(s, l), t) == Locking(l.addr, l.op)
  {
    hide Combine, LockIndex, Join, NewValue, HalfStored;
    if !PcOf(s, t).Idle? {
      assert PcGood(s, m, t, s.pcs[t]);
    }
    if PcOf(s, t).ReadHi? {
      ReadSeesWhole(s, m, t);
    }
  }

  /** Two threads inside their critical sections never use the same mutex, and a thread holds at most one. */
  lemma MutexesExclude(s: State, m: map<Addr, Word>, t: Tid, u: Tid, i: nat, j: nat)
    requires Inv(s, m)
    ensures t != u && PcOf(s, t).Critical() && PcOf(s, u).Critical() ==>
              LockIndex(PcOf(s, t).x) != LockIndex(PcOf(s, u).x)
    ensures i in s.locks && j in s.locks && s.locks[i] == s.locks[j] ==> i == j
    ensures i in s.locks ==> i < N_MUTEXES
  {
    if PcOf(s, t).Critical() && PcOf(s, u).Critical() {
      assert PcGood(s, m, t, s.pcs[t]) && PcGood(s, m, u, s.pcs[u]);
    }
  }

  /** Every byte of a variable selects the same mutex; variables 2^19 bytes apart always share one. */
  lemma OneMutexPerVariable(x: Addr, k: nat)
    requires x % 8 == 0 && k < 8
    ensures LockIndex(x + k) == LockIndex(x) == LockIndex(x + 0x8_0000)
  {
    assert (x + k) / 8 == x / 8;
    assert (x + 0x8_0000) / 8 == x / 8 + 0x1_0000;
    assert (x / 8 + 0x1_0000) % 0x1_0000 == x / 8 % 0x1_0000;
  }

  /** The mutex is what the top four of the lower 32 bits of the product say. */
  lemma HashIs(x: Addr) returns (over: nat, rest: nat)
    ensures x / 8 % 0x1_0000 * 3028382565 == over * 0x1_0000_0000 + LockIndex(x) * 0x1000_0000 + rest
    ensures rest < 0x1000_0000
  {
    over, rest := ScatterIs(x / 8 % 0x1_0000);
  }

  lemma ScatterIs(u: nat) returns (over: nat, rest: nat)
    ensures u * 3028382565 == over * 0x1_0000_0000 + Scatter(u) * 0x1000_0000 + rest
    ensures rest < 0x1000_0000
  {
    over, rest := Splits(u * 3028382565);
  }

  lemma Splits(p: nat) returns (over: nat, rest: nat)
    ensures p == over * 0x1_0000_0000 + p % 0x1_0000_0000 / 0x1000_0000 * 0x1000_0000 + rest
    ensures rest < 0x1000_0000
  {
    over, rest := p / 0x1_0000_0000, p % 0x1_0000_0000 % 0x1000_0000;
  }

  // ---------------------------------------------------------------- runs

  function Final(s0: State, ls: seq<Label>): State {
    if ls == [] then s0 else Apply(Final(s0, ls[..|ls| - 1]), ls[|ls| - 1])
  }

  predicate Valid(s0: State, ls: seq<Label>) {
    ls == [] || (Valid(s0, ls[..|ls| - 1]) && Enabled(Final(s0, ls[..|ls| - 1]), ls[|ls| - 1]))
  }

  function History(s0: State, ls: seq<Label>): seq<Done> {
    if ls == [] then []
    else
      var before := ls[..|ls| - 1];
      match Effect(Final(s0, before), ls[|ls| - 1])
      case None => History(s0, before)
      case Some(d) => History(s0, before) + [d]
  }

  function Replay(m: map<Addr, Word>, h: seq<Done>): map<Addr, Word> {
    if h == [] then m else Do(Replay(m, h[..|h| - 1]), h[|h| - 1])
  }

  predicate LegalHistory(m: map<Addr, Word>, h: seq<Done>) {
    h == [] || (LegalHistory(m, h[..|h| - 1]) && Legal(Replay(m, h[..|h| - 1]), h[|h| - 1]))
  }

  function Init(m: map<Addr, Word>): State {
    State(map x | x in m :: Cell(m[x] % HALF, m[x] / HALF), map[], map[])
  }

  lemma HistoryGrows(m: map<Addr, Word>, h: seq<Done>, d: Done)
    ensures Replay(m, h + [d]) == Do(Replay(m, h), d)
    ensures LegalHistory(m, h + [d]) <==> LegalHistory(m, h) && Legal(Replay(m, h), d)
  {
    assert (h + [d])[..|h|] == h;
  }

  /** Any interleaving is an execution of atomic 64-bit operations, in the order of their effects. */
  lemma {:induction false} RunIsAtomic(m: map<Addr, Word>, ls: seq<Label>)
    requires Valid(Init(m), ls)
    ensures LegalHistory(m, History(Init(m), ls))
    ensures Inv(Final(Init(m), ls), Replay(m, History(Init(m), ls)))
    decreases |ls|
  {
    if ls != [] {
      var before := ls[..|ls| - 1];
      RunIsAtomic(m, before);
      var s, h := Final(Init(m), before), History(Init(m), before);
      StepKeepsInv(s, Replay(m, h), ls[|ls| - 1]);
      if Effect(s, ls[|ls| - 1]).Some? {
        HistoryGrows(m, h, Effect(s, ls[|ls| - 1]).value);
      }
    }
  }

  // ---------------------------------------------------------------- the calls of one thread

  datatype Called = Called(addr: Addr, op: Op)

  function CallIn(l: Label, t: Tid): seq<Called> {
    if l.Call? && l.t == t then [Called(l.addr, l.op)] else []
  }

  function CallsOf(ls: seq<Label>, t: Tid): seq<Called> {
    if ls == [] then [] else CallsOf(ls[..|ls| - 1], t) + CallIn(ls[|ls| - 1], t)
  }

  /** The calls behind the operations of t in a history. */
  function CallsDone(h: seq<Done>, t: Tid): seq<Called> {
    if h == [] then []
    else
      var d := h[|h| - 1];
      CallsDone(h[..|h| - 1], t) + if d.t == t then [Called(d.addr, d.op)] else []
  }

  /** The call that a thread is in, while it has not taken effect. */
  function Pending(pc: Pc): seq<Called> {
    if pc.Idle? || pc.Unlocking? then [] else [Called(pc.x, pc.op)]
  }

  /** What the calls of t return, in order. */
  function Returned(s0: State, ls: seq<Label>, t: Tid): seq<Word> {
    if ls == [] then []
    else
      var pc := PcOf(Final(s0, ls[..|ls| - 1]), t);
      Returned(s0, ls[..|ls| - 1], t) + if pc.Unlocking? && ls[|ls| - 1] == Access(t) then [pc.ret] else []
  }

  /** The answers of the operations of t in a history. */
  function Answers(h: seq<Done>, t: Tid): seq<Word> {
    if h == [] then []
    else Answers(h[..|h| - 1], t) + if h[|h| - 1].t == t then [h[|h| - 1].ret] else []
  }

  function AboutToReturn(pc: Pc): seq<Word> {
    if pc.Unlocking? then [pc.ret] else []
  }

  lemma DoneGrows(h: seq<Done>, d: Done, t: Tid)
    ensures CallsDone(h + [d], t) == CallsDone(h, t) + if d.t == t then [Called(d.addr, d.op)] else []
    ensures Answers(h + [d], t) == Answers(h, t) + if d.t == t then [d.ret] else []
  {
    assert (h + [d])[..|h|] == h;
  }

  lemma HistoryStep(s0: State, ls: seq<Label>, t: Tid)
    requires ls != []
    ensures var before := ls[..|ls| - 1];
            var e, h := Effect(Final(s0, before), ls[|ls| - 1]), History(s0, before);
            var mine := e.Some? && e.value.t == t;
            && CallsDone(History(s0, ls), t) ==
               CallsDone(h, t) + (if mine then [Called(e.value.addr, e.value.op)] else [])
            && Answers(History(s0, ls), t) == Answers(h, t) + (if mine then [e.value.ret] else [])
  {
    hide Apply, Effect, CallsDone, Answers;
    var before := ls[..|ls| - 1];
    var e := Effect(Final(s0, before), ls[|ls| - 1]);
    if e.Some? {
      DoneGrows(History(s0, before), e.value, t);
    }
  }

  lemma NothingDone(t: Tid)
    ensures CallsDone([], t) == [] && Answers([], t) == []
  {
  }

  lemma StepDoes(s: State, m: map<Addr, Word>, l: Label, t: Tid)
    requires Inv(s, m) && Enabled(s, l)
    ensures var e, pc, next := Effect(s, l), PcOf(s, t), PcOf(Apply(s, l), t);
            var mine := e.Some? && e.value.t == t;
            && Pending(pc) + CallIn(l, t) == (if mine then [Called(e.value.addr, e.value.op)] else []) + Pending(next)
            && AboutToReturn(pc) + (if mine then [e.value.ret] else []) ==
               (if pc.Unlocking? && l == Access(t) then [pc.ret] else []) + AboutToReturn(next)
  {
    hide Combine, LockIndex, Inv;
    OneEffectPerCall(s, m, l, t);
    if l.t != t {
      StepTouchesOne(s, l, t);
    }
  }

  lemma StepTouchesOne(s: State, l: Label, t: Tid)
    requires Enabled(s, l) && l.t != t
    ensures PcOf(Apply(s, l), t) == PcOf(s, t)
  {
  }

  /** In any run, the calls of a thread are exactly its operations in the history, one for each and in the order of the
      calls, and then the call that has not taken effect yet; and what its calls have returned are the answers of those
      operations, but for the last if it is about to return. */
  lemma {:induction false} CallsAreDone(m: map<Addr, Word>, ls: seq<Label>, t: Tid)
    requires Valid(Init(m), ls)
    ensures var h, pc := History(Init(m), ls), PcOf(Final(Init(m), ls), t);
            && CallsOf(ls, t) == CallsDone(h, t) + Pending(pc)
            && Answers(h, t) == Returned(Init(m), ls, t) + AboutToReturn(pc)
    decreases |ls|
  {
    hide Apply, Enabled, Effect, CallsDone, Answers, Inv;
    if ls == [] {
      NothingDone(t);
    } else {
      var before, l := ls[..|ls| - 1], ls[|ls| - 1];
      CallsAreDone(m, before, t);
      RunIsAtomic(m, before);
      var s, h := Final(Init(m), before), History(Init(m), before);
      var e, pc, next := Effect(s, l), PcOf(s, t), PcOf(Apply(s, l), t);
      var mine := e.Some? && e.value.t == t;
      var done := if mine then [Called(e.value.addr, e.value.op)] else [];
      var answer, back := if mine then [e.value.ret] else [], if pc.Unlocking? && l == Access(t) then [pc.ret] else [];
      StepDoes(s, Replay(m, h), l, t);
      HistoryStep(Init(m), ls, t);
      Sequences.Regroup(CallsDone(h, t), Pending(pc), CallIn(l, t), done, Pending(next));
      Sequences.Regroup(Returned(Init(m), before, t), AboutToReturn(pc), answer, back, AboutToReturn(next));
    }
  }

  // ---------------------------------------------------------------- counting

  predicate OnlyCounts(h: seq<Done>, x: Addr) {
    forall d | d in h && d.addr == x :: d.op.Ld? || (d.op.Rmw? && (d.op.f.Add? || d.op.f.Sub?))
  }

  function Delta(op: Op): int
    requires op.Rmw?
  {
    var v: int := op.v;
    if op.f.Add? then v else -v
  }

  function Net(h: seq<Done>, x: Addr): int {
    if h == [] then 0
    else
      var d := h[|h| - 1];
      Net(h[..|h| - 1], x) +
      if d.addr == x && d.op.Rmw? then Delta(d.op) else 0
  }

  lemma CountStep(v0: Word, net: int, cur: Word, op: Op)
    requires op.Ld? || (op.Rmw? && (op.f.Add? || op.f.Sub?))
    requires cur == (v0 + net) % WORD
    ensures NewValue(op, cur) == (v0 + net + if op.Rmw? then Delta(op) else 0) % WORD
  {
    if op.Rmw? {
      WordMath.AddModulo(WORD, v0 + net, Delta(op));
    }
  }

  lemma {:induction false} CountsAddUp(m: map<Addr, Word>, h: seq<Done>, x: Addr)
    requires x in m && OnlyCounts(h, x)
    ensures x in Replay(m, h) && Replay(m, h)[x] == (m[x] + Net(h, x)) % WORD
  {
    if h != [] {
      var before, d := h[..|h| - 1], h[|h| - 1];
      assert d in h && forall e | e in before :: e in h;
      CountsAddUp(m, before, x);
      if d.addr == x {
        CountStep(m[x], Net(before, x), Replay(m, before)[x], d.op);
      }
    }
  }

  predicate Quiescent(s: State) {
    forall t | t in s.pcs :: s.pcs[t].Idle?
  }

  lemma QuiescentValue(s: State, m: map<Addr, Word>, h: seq<Done>, x: Addr)
    requires x in m && OnlyCounts(h, x) && Inv(s, Replay(m, h)) && Quiescent(s)
    ensures x in s.mem && Join(s.mem[x]) == (m[x] + Net(h, x)) % WORD
  {
    CountsAddUp(m, h, x);
    assert !HalfStored(s, x);
  }

  /** When no operation is under way, a variable that was only added to and subtracted from (or read) holds its
      initial value plus the sum, modulo 2^64: no update was lost. */
  lemma QuiescentCount(m: map<Addr, Word>, ls: seq<Label>, s: State, h: seq<Done>, x: Addr)
    requires Valid(Init(m), ls) && s == Final(Init(m), ls) && h == History(Init(m), ls)
    requires x in m && OnlyCounts(h, x) && Quiescent(s)
    ensures x in s.mem && Join(s.mem[x]) == (m[x] + Net(h, x)) % WORD
  {
    RunIsAtomic(m, ls);
    QuiescentValue(s, m, h, x);
  }
}
