/** Types, and their sizes and alignments, in examples/dynsub/dynsub.c: the recursive definition that the type
    cache memoises, the layout of a C compiler, and how the two relate. */
module Layout {
  import WordMath

  datatype Prim =
    | Boolean | Char8 | Int16 | Int32 | Int64 | Octet | UInt16 | UInt32 | UInt64 | Float32 | Float64 | String8

  /** `_Alignof` and `sizeof` on the target, for the primitive types and for a sequence. */
  datatype Abi = Abi(alignOf: Prim -> nat, sizeOf: Prim -> nat, seqAlign: nat, seqSize: nat)

  /** A type identifier and a type object.  The numbers stand for the addresses that key the cache; `OtherTi` and
      `OtherTo` are the discriminants the program does not support and aborts on. */
  datatype Ti =
    | Simple(p: Prim)
    | Str
    | PlainSeq(elem: Ti)
    | Complete(id: nat, obj: To)
    | OtherTi
  datatype To =
    | SimpleTo(p: Prim)
    | SeqTo(elem: Ti)
    | Struct(id: nat, members: seq<Member>)
    | OtherTo
  datatype Member = Member(ti: Ti, isKey: bool)

  datatype Extent = Extent(align: nat, size: nat)

  // ---------------------------------------------------------------- rounding up

  /** The next multiple of a. */
  function Up(x: nat, a: nat): (y: nat)
    requires a > 0
    ensures x <= y < x + a && y % a == 0
  {
    if x % a != 0 then
      Rounds(x, a);
      x + (a - x % a)
    else x
  }

  lemma Rounds(x: nat, a: nat)
    requires a > 0
    ensures (x + (a - x % a)) % a == 0
  {
    assert x == a * (x / a) + x % a;
    assert x + (a - x % a) == a * (x / a + 1) + 0;
    WordMath.RemainderIs(a, x / a + 1, 0);
  }

  lemma MultipleIsUp(k: nat, s: nat, a: nat)
    requires a > 0 && s % a == 0
    ensures (k * s) % a == 0 && Up(k * s, a) == k * s
  {
    assert s == a * (s / a);
    assert k * s == a * (k * (s / a)) + 0;
    WordMath.RemainderIs(a, k * (s / a), 0);
  }

  lemma MultipleOfMultiple(x: nat, a: nat, b: nat)
    requires a > 0 && b > 0 && x % a == 0 && a % b == 0
    ensures x % b == 0
  {
    assert x == a * (x / a) && a == b * (a / b);
    assert x == b * ((a / b) * (x / a)) + 0;
    WordMath.RemainderIs(b, (a / b) * (x / a), 0);
  }

  lemma SumOfMultiples(x: nat, y: nat, a: nat)
    requires a > 0 && x % a == 0 && y % a == 0
    ensures (x + y) % a == 0
  {
    assert x == a * (x / a) && y == a * (y / a);
    assert x + y == a * (x / a + y / a) + 0;
    WordMath.RemainderIs(a, x / a + y / a, 0);
  }

  function Max(a: nat, b: nat): nat {
    if a > b then a else b
  }

  // ---------------------------------------------------------------- the builder's recursive definition

  predicate SupportedTi(ti: Ti) {
    match ti
    case Simple(_) => true
    case Str => true
    case PlainSeq(e) => SupportedTi(e)
    case Complete(_, obj) => SupportedTo(obj)
    case OtherTi => false
  }

  predicate SupportedTo(t: To) {
    match t
    case SimpleTo(_) => true
    case SeqTo(e) => SupportedTi(e)
    case Struct(_, ms) => forall i | 0 <= i < |ms| :: SupportedTi(ms[i].ti)
    case OtherTo => false
  }

  predicate AbiOk(abi: Abi) {
    && (forall p: Prim :: abi.alignOf(p) > 0 && abi.sizeOf(p) > 0 && abi.sizeOf(p) % abi.alignOf(p) == 0)
    && abi.seqAlign > 0 && abi.seqSize > 0 && abi.seqSize % abi.seqAlign == 0
  }

  /** How a struct grows by a member. */
  function AddMember(e: Extent, m: Extent): (e': Extent)
    requires m.align > 0
    ensures e'.align > 0
  {
    Extent(Max(e.align, m.align), Up(e.size, m.align) + m.size)
  }

  function Close(e: Extent): (e': Extent)
    requires e.align > 0
    ensures e'.align == e.align && e'.size % e'.align == 0
  {
    Extent(e.align, Up(e.size, e.align))
  }

  /** build_typecache_ti without the cache. */
  function BuildTi(abi: Abi, ti: Ti): (e: Extent)
    requires AbiOk(abi) && SupportedTi(ti)
    ensures e.align > 0
    decreases ti, 1
  {
    match ti
    case Simple(p) => Extent(abi.alignOf(p), abi.sizeOf(p))
    case Str => Extent(abi.alignOf(String8), abi.sizeOf(String8))
    case PlainSeq(_) => Extent(abi.seqAlign, abi.seqSize)
    case Complete(_, obj) => BuildTo(abi, obj)
  }

  /** build_typecache_to without the cache.  A simple type object gets its size and alignment exchanged: the call
      passes the two result pointers in the other order. */
  function BuildTo(abi: Abi, t: To): (e: Extent)
    requires AbiOk(abi) && SupportedTo(t)
    ensures e.align > 0
    decreases t, 1
  {
    match t
    case SimpleTo(p) => Extent(abi.sizeOf(p), abi.alignOf(p))
    case SeqTo(_) => Extent(abi.seqAlign, abi.seqSize)
    case Struct(_, ms) => Close(BuildMembers(abi, t, |ms|))
  }

  /** The loop over the first n members. */
  function BuildMembers(abi: Abi, t: To, n: nat): (e: Extent)
    requires AbiOk(abi) && t.Struct? && n <= |t.members|
    requires forall i | 0 <= i < n :: SupportedTi(t.members[i].ti)
    ensures e.align > 0
    decreases t, 0, n
  {
    if n == 0 then Extent(1, 0)
    else AddMember(BuildMembers(abi, t, n - 1), BuildTi(abi, t.members[n - 1].ti))
  }

  // ---------------------------------------------------------------- the C layout

  function SizeTi(abi: Abi, ti: Ti): (e: Extent)
    requires AbiOk(abi) && SupportedTi(ti)
    ensures e.align > 0 && e.size % e.align == 0
    decreases ti, 1
  {
    match ti
    case Simple(p) => Extent(abi.alignOf(p), abi.sizeOf(p))
    case Str => Extent(abi.alignOf(String8), abi.sizeOf(String8))
    case PlainSeq(_) => Extent(abi.seqAlign, abi.seqSize)
    case Complete(_, obj) => SizeTo(abi, obj)
  }

  function SizeTo(abi: Abi, t: To): (e: Extent)
    requires AbiOk(abi) && SupportedTo(t)
    ensures e.align > 0 && e.size % e.align == 0
    decreases t, 1
  {
    match t
    case SimpleTo(p) => Extent(abi.alignOf(p), abi.sizeOf(p))
    case SeqTo(_) => Extent(abi.seqAlign, abi.seqSize)
    case Struct(_, ms) => Close(SizeMembers(abi, t, |ms|))
  }

  function SizeMembers(abi: Abi, t: To, n: nat): (e: Extent)
    requires AbiOk(abi) && SupportedTo(t) && t.Struct? && n <= |t.members|
    ensures e.align > 0
    decreases t, 0, n
  {
    if n == 0 then Extent(1, 0)
    else AddMember(SizeMembers(abi, t, n - 1), SizeTi(abi, t.members[n - 1].ti))
  }

  /** Where member i starts: the first multiple of its alignment after the members before it. */
  function OffsetOf(abi: Abi, t: To, i: nat): nat
    requires AbiOk(abi) && SupportedTo(t) && t.Struct? && i < |t.members|
  {
    Up(SizeMembers(abi, t, i).size, SizeTi(abi, t.members[i].ti).align)
  }

  /** The layout is a layout: members are aligned, in order without overlap, and inside the struct, whose alignment
      is at least theirs. */
  lemma {:induction false} MembersFit(abi: Abi, t: To, i: nat, n: nat)
    requires AbiOk(abi) && SupportedTo(t) && t.Struct? && i < n <= |t.members|
    ensures OffsetOf(abi, t, i) % SizeTi(abi, t.members[i].ti).align == 0
    ensures OffsetOf(abi, t, i) + SizeTi(abi, t.members[i].ti).size <= SizeMembers(abi, t, n).size
    ensures n < |t.members| ==>
              OffsetOf(abi, t, i) + SizeTi(abi, t.members[i].ti).size <= OffsetOf(abi, t, n)
    ensures SizeTi(abi, t.members[i].ti).align <= SizeMembers(abi, t, n).align
    ensures n == |t.members| ==>
              OffsetOf(abi, t, i) + SizeTi(abi, t.members[i].ti).size <= SizeTo(abi, t).size &&
              SizeTi(abi, t.members[i].ti).align <= SizeTo(abi, t).align
    decreases n
  {
    if i < n - 1 {
      MembersFit(abi, t, i, n - 1);
    }
  }

  /** Where the n-th member ends. */
  function EndOf(abi: Abi, t: To, n: nat): nat
    requires AbiOk(abi) && SupportedTo(t) && t.Struct? && n <= |t.members|
  {
    if n == 0 then 0 else OffsetOf(abi, t, n - 1) + SizeTi(abi, t.members[n - 1].ti).size
  }

  lemma {:induction false} AlignIsSome(abi: Abi, t: To, n: nat)
    requires AbiOk(abi) && SupportedTo(t) && t.Struct? && n <= |t.members|
    ensures SizeMembers(abi, t, n).size == EndOf(abi, t, n)
    ensures SizeMembers(abi, t, n).align == 1 ||
            exists i | 0 <= i < n :: SizeMembers(abi, t, n).align == SizeTi(abi, t.members[i].ti).align
    decreases n
  {
    hide SizeTi, SupportedTi, Up;
    if n > 0 {
      AlignIsSome(abi, t, n - 1);
    }
  }

  /** The layout wastes nothing: the struct is the least multiple of its alignment that holds its members, its alignment
      is that of some member (or 1), the first member is at its start, and each other one follows the one before it at
      the first place that is aligned for it. */
  lemma StructIsTight(abi: Abi, t: To)
    requires AbiOk(abi) && SupportedTo(t) && t.Struct?
    ensures var e, end := SizeTo(abi, t), EndOf(abi, t, |t.members|);
            e.size % e.align == 0 && end <= e.size < end + e.align
    ensures SizeTo(abi, t).align == 1 ||
            exists i | 0 <= i < |t.members| :: SizeTo(abi, t).align == SizeTi(abi, t.members[i].ti).align
    ensures |t.members| > 0 ==> OffsetOf(abi, t, 0) == 0
    ensures forall i | 0 <= i < |t.members| ::
              var a, end := SizeTi(abi, t.members[i].ti).align, EndOf(abi, t, i);
              OffsetOf(abi, t, i) % a == 0 && end <= OffsetOf(abi, t, i) < end + a
  {
    hide SizeTi, SupportedTi;
    AlignIsSome(abi, t, |t.members|);
    forall i | 0 <= i < |t.members|
      ensures var a, end := SizeTi(abi, t.members[i].ti).align, EndOf(abi, t, i);
              OffsetOf(abi, t, i) % a == 0 && end <= OffsetOf(abi, t, i) < end + a
    {
      AlignIsSome(abi, t, i);
    }
  }

  /** What is not a struct is as the target says. */
  lemma LeavesAreTheTargets(abi: Abi, p: Prim, e: Ti, id: nat, t: To)
    requires AbiOk(abi) && SupportedTi(e) && SupportedTo(t)
    ensures SizeTi(abi, Simple(p)) == SizeTo(abi, SimpleTo(p)) == Extent(abi.alignOf(p), abi.sizeOf(p))
    ensures SizeTi(abi, Str) == SizeTi(abi, Simple(String8))
    ensures SizeTi(abi, PlainSeq(e)) == SizeTo(abi, SeqTo(e)) == Extent(abi.seqAlign, abi.seqSize)
    ensures SizeTi(abi, Complete(id, t)) == SizeTo(abi, t)
  {
  }

  // ---------------------------------------------------------------- powers of two

  predicate PowerOfTwo(a: nat) {
    a == 1 || (a > 1 && a % 2 == 0 && PowerOfTwo(a / 2))
  }

  lemma {:induction false} PowersDivide(a: nat, b: nat)
    requires PowerOfTwo(a) && PowerOfTwo(b) && a <= b
    ensures b % a == 0
    decreases a
  {
    if a > 1 {
      PowersDivide(a / 2, b / 2);
      var q := b / 2 / (a / 2);
      assert b / 2 == a / 2 * q;
      assert b == 2 * (b / 2) && a == 2 * (a / 2);
      assert b == a * q + 0;
      WordMath.RemainderIs(a, q, 0);
    }
  }

  predicate PowerAbi(abi: Abi) {
    AbiOk(abi) && (forall p: Prim :: PowerOfTwo(abi.alignOf(p))) && PowerOfTwo(abi.seqAlign)
  }

  lemma {:induction false} AlignsArePowersTi(abi: Abi, ti: Ti)
    requires PowerAbi(abi) && SupportedTi(ti)
    ensures PowerOfTwo(SizeTi(abi, ti).align)
    decreases ti
  {
    if ti.Complete? {
      AlignsArePowersTo(abi, ti.obj);
    }
  }

  lemma {:induction false} AlignsArePowersTo(abi: Abi, t: To)
    requires PowerAbi(abi) && SupportedTo(t)
    ensures PowerOfTwo(SizeTo(abi, t).align)
    decreases t, 1
  {
    if t.Struct? {
      MemberAlignsArePowers(abi, t, |t.members|);
    }
  }

  lemma {:induction false} MemberAlignsArePowers(abi: Abi, t: To, n: nat)
    requires PowerAbi(abi) && SupportedTo(t) && t.Struct? && n <= |t.members|
    ensures PowerOfTwo(SizeMembers(abi, t, n).align)
    decreases t, 0, n
  {
    if n > 0 {
      MemberAlignsArePowers(abi, t, n - 1);
      AlignsArePowersTi(abi, t.members[n - 1].ti);
    }
  }

  /** A member that starts at its offset in a struct that starts at a multiple of the struct's alignment starts at a
      multiple of its own. */
  lemma MemberIsAligned(abi: Abi, t: To, i: nat, base: nat)
    requires PowerAbi(abi) && SupportedTo(t) && t.Struct? && i < |t.members|
    requires base % SizeTo(abi, t).align == 0
    ensures (base + OffsetOf(abi, t, i)) % SizeTi(abi, t.members[i].ti).align == 0
  {
    var a := SizeTi(abi, t.members[i].ti).align;
    MembersFit(abi, t, i, |t.members|);
    AlignsArePowersTi(abi, t.members[i].ti);
    AlignsArePowersTo(abi, t);
    PowersDivide(a, SizeTo(abi, t).align);
    MultipleOfMultiple(base, SizeTo(abi, t).align, a);
    SumOfMultiples(base, OffsetOf(abi, t, i), a);
  }

  // ---------------------------------------------------------------- when the builder is right

  /** Every simple type object in the type is as aligned as it is large. */
  predicate SquareTi(abi: Abi, ti: Ti) {
    match ti
    case PlainSeq(e) => SquareTi(abi, e)
    case Complete(_, obj) => SquareTo(abi, obj)
    case _ => true
  }

  predicate SquareTo(abi: Abi, t: To) {
    match t
    case SimpleTo(p) => abi.alignOf(p) == abi.sizeOf(p)
    case SeqTo(e) => SquareTi(abi, e)
    case Struct(_, ms) => forall i | 0 <= i < |ms| :: SquareTi(abi, ms[i].ti)
    case OtherTo => true
  }

  lemma {:induction false} BuildIsSizeTi(abi: Abi, ti: Ti)
    requires AbiOk(abi) && SupportedTi(ti) && SquareTi(abi, ti)
    ensures BuildTi(abi, ti) == SizeTi(abi, ti)
    decreases ti
  {
    if ti.Complete? {
      BuildIsSizeTo(abi, ti.obj);
    }
  }

  lemma {:induction false} BuildIsSizeTo(abi: Abi, t: To)
    requires AbiOk(abi) && SupportedTo(t) && SquareTo(abi, t)
    ensures BuildTo(abi, t) == SizeTo(abi, t)
    decreases t, 1
  {
    if t.Struct? {
      BuildIsSizeMembers(abi, t, |t.members|);
    }
  }

  lemma {:induction false} BuildIsSizeMembers(abi: Abi, t: To, n: nat)
    requires AbiOk(abi) && SupportedTo(t) && SquareTo(abi, t) && t.Struct? && n <= |t.members|
    ensures BuildMembers(abi, t, n) == SizeMembers(abi, t, n)
    decreases t, 0, n
  {
    if n > 0 {
      BuildIsSizeMembers(abi, t, n - 1);
      BuildIsSizeTi(abi, t.members[n - 1].ti);
    }
  }

  predicate SquareAbi(abi: Abi) {
    forall p: Prim :: abi.alignOf(p) == abi.sizeOf(p)
  }

  lemma {:induction false} SquareAbiTi(abi: Abi, ti: Ti)
    requires SquareAbi(abi)
    ensures SquareTi(abi, ti)
    decreases ti
  {
    match ti
    case PlainSeq(e) => SquareAbiTi(abi, e);
    case Complete(_, obj) => SquareAbiTo(abi, obj);
    case _ =>
  }

  lemma {:induction false} SquareAbiTo(abi: Abi, t: To)
    requires SquareAbi(abi)
    ensures SquareTo(abi, t)
    decreases t
  {
    match t
    case SeqTo(e) => SquareAbiTi(abi, e);
    case Struct(_, ms) =>
      forall i | 0 <= i < |ms| ensures SquareTi(abi, ms[i].ti) {
        SquareAbiTi(abi, ms[i].ti);
      }
    case _ =>
  }

  ghost predicate Right(abi: Abi, ti: Ti)
    requires AbiOk(abi)
  {
    SupportedTi(ti) ==> BuildTi(abi, ti) == SizeTi(abi, ti)
  }

  /** A simple type object gets its size and alignment exchanged. */
  lemma ExchangedExtent(abi: Abi, p: Prim)
    requires AbiOk(abi)
    ensures SupportedTi(Complete(0, SimpleTo(p)))
    ensures BuildTi(abi, Complete(0, SimpleTo(p))) == Extent(abi.sizeOf(p), abi.alignOf(p))
    ensures SizeTi(abi, Complete(0, SimpleTo(p))) == Extent(abi.alignOf(p), abi.sizeOf(p))
  {
    assert SupportedTo(SimpleTo(p));
    assert BuildTo(abi, SimpleTo(p)) == Extent(abi.sizeOf(p), abi.alignOf(p));
    assert SizeTo(abi, SimpleTo(p)) == Extent(abi.alignOf(p), abi.sizeOf(p));
  }

  /** The builder's definition is the C layout of every type exactly on the targets where every primitive type is as
      aligned as it is large: on the others the exchanged arguments show. */
  lemma BuilderIsRightIff(abi: Abi)
    requires AbiOk(abi)
    ensures (forall ti :: Right(abi, ti)) <==> SquareAbi(abi)
  {
    hide BuildTi, SizeTi, SupportedTi, SquareTi;
    if SquareAbi(abi) {
      forall ti ensures Right(abi, ti) {
        SquareAbiTi(abi, ti);
        if SupportedTi(ti) {
          BuildIsSizeTi(abi, ti);
        }
      }
    } else {
      var p :| abi.alignOf(p) != abi.sizeOf(p);
      ExchangedExtent(abi, p);
      assert !Right(abi, Complete(0, SimpleTo(p)));
    }
  }

  // ---------------------------------------------------------------- two targets

  function WidthOf(p: Prim, pointer: nat): nat {
    match p
    case Int16 => 2
    case UInt16 => 2
    case Int32 => 4
    case UInt32 => 4
    case Float32 => 4
    case Int64 => 8
    case UInt64 => 8
    case Float64 => 8
    case String8 => pointer
    case _ => 1
  }

  /** 64-bit x86: everything is as aligned as it is large. */
  const AMD64 := Abi(p => WidthOf(p, 8), p => WidthOf(p, 8), 8, 24)

  /** 32-bit x86: eight bytes in a struct are aligned to four. */
  const I386 := Abi(p => if WidthOf(p, 4) == 8 then 4 else WidthOf(p, 4), p => WidthOf(p, 4), 4, 16)

  lemma TargetsAreOk()
    ensures PowerAbi(AMD64) && SquareAbi(AMD64)
    ensures PowerAbi(I386) && !SquareAbi(I386)
  {
    assert PowerOfTwo(1) && PowerOfTwo(2) && PowerOfTwo(4) && PowerOfTwo(8);
    assert I386.alignOf(Int64) == 4 && I386.sizeOf(Int64) == 8;
  }

  /** So the builder is right on the one and wrong on the other. */
  lemma TargetDecides()
    ensures AbiOk(AMD64) && forall ti :: Right(AMD64, ti)
    ensures AbiOk(I386) && !Right(I386, Complete(0, SimpleTo(Int64)))
  {
    hide WidthOf;
    TargetsAreOk();
    BuilderIsRightIff(AMD64);
    WidthIs();
    ExchangedExtent(I386, Int64);
  }

  lemma WidthIs()
    ensures I386.alignOf(Int64) == 4 && I386.sizeOf(Int64) == 8
  {
  }
}
