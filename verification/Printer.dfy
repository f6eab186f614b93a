/** The offset walk of print_sample1_simple/ti/to in examples/dynsub/dynsub.c, against the C layout. */
module Printer {
  import opened Layout
  import opened Dynsub

  /** A stretch of memory: the sample, or the buffer of the sequence that stands at `off` in another block, with room
      for n elements of type elem. */
  datatype Block = Sample | Buffer(b: Block, off: nat, elem: Ti, n: nat)

  /** The printer takes an object of this alignment and size to be at `off`; `shown` if it prints it. */
  datatype Visit = Visit(block: Block, off: nat, align: nat, size: nat, shown: bool)

  /** The number of elements of the sequence that stands at a place. */
  type Lengths = (Block, nat) -> nat

  // ---------------------------------------------------------------- where the objects are

  function VisitsTi(abi: Abi, lens: Lengths, ti: Ti, b: Block, at: nat, valid: bool, key: bool): seq<Visit>
    requires AbiOk(abi) && SupportedTi(ti)
    decreases ti, 1, 0
  {
    match ti
    case Simple(p) => [Visit(b, at, abi.alignOf(p), abi.sizeOf(p), valid || key)]
    case Str => [Visit(b, at, abi.alignOf(String8), abi.sizeOf(String8), valid || key)]
    case PlainSeq(e) =>
      [Visit(b, at, abi.seqAlign, abi.seqSize, valid || key)] +
      if valid || key then VisitsElems(abi, lens, e, Buffer(b, at, e, lens(b, at)), lens(b, at), valid, key) else []
    case Complete(_, obj) => VisitsTo(abi, lens, obj, b, at, valid, key)
  }

  function VisitsTo(abi: Abi, lens: Lengths, t: To, b: Block, at: nat, valid: bool, key: bool): seq<Visit>
    requires AbiOk(abi) && SupportedTo(t)
    decreases t, 1, 0
  {
    match t
    case SimpleTo(p) => [Visit(b, at, abi.alignOf(p), abi.sizeOf(p), valid || key)]
    case SeqTo(e) =>
      [Visit(b, at, abi.seqAlign, abi.seqSize, true)] +
      VisitsElems(abi, lens, e, Buffer(b, at, e, lens(b, at)), lens(b, at), valid, key)
    case Struct(_, ms) =>
      [Visit(b, at, SizeTo(abi, t).align, SizeTo(abi, t).size, true)] +
      VisitsMembers(abi, lens, t, b, at, |ms|, valid, key)
  }

  /** Element i of a sequence is at i times the element size. */
  function VisitsElems(abi: Abi, lens: Lengths, e: Ti, b: Block, n: nat, valid: bool, key: bool): seq<Visit>
    requires AbiOk(abi) && SupportedTi(e)
    decreases e, 2, n
  {
    if n == 0 then []
    else
      VisitsElems(abi, lens, e, b, n - 1, valid, key) +
      VisitsTi(abi, lens, e, b, (n - 1) * SizeTi(abi, e).size, valid, key)
  }

  /** A member is at the struct's place plus its offset; it is a key field if everything above it is. */
  function VisitsMembers(abi: Abi, lens: Lengths, t: To, b: Block, at: nat, n: nat, valid: bool, key: bool): seq<Visit>
    requires AbiOk(abi) && SupportedTo(t) && t.Struct? && n <= |t.members|
    decreases t, 0, n
  {
    if n == 0 then []
    else
      VisitsMembers(abi, lens, t, b, at, n - 1, valid, key) +
      VisitsTi(abi, lens, t.members[n - 1].ti, b, at + OffsetOf(abi, t, n - 1), valid, key && t.members[n - 1].isKey)
  }

  // ---------------------------------------------------------------- where the printer looks

  /** The extent by which the printer moves on: it takes a struct's from the cache. */
  function HeldTi(abi: Abi, ti: Ti): (e: Extent)
    requires AbiOk(abi) && SupportedTi(ti)
    ensures e.align > 0
  {
    match ti
    case Simple(p) => Extent(abi.alignOf(p), abi.sizeOf(p))
    case Str => Extent(abi.alignOf(String8), abi.sizeOf(String8))
    case PlainSeq(_) => Extent(abi.seqAlign, abi.seqSize)
    case Complete(_, obj) => HeldTo(abi, obj)
  }

  function HeldTo(abi: Abi, t: To): (e: Extent)
    requires AbiOk(abi) && SupportedTo(t)
    ensures e.align > 0
  {
    match t
    case SimpleTo(p) => Extent(abi.alignOf(p), abi.sizeOf(p))
    case SeqTo(_) => Extent(abi.seqAlign, abi.seqSize)
    case Struct(_, _) => BuildTo(abi, t)
  }

  /** The running offset behind the first n elements. */
  function ElemsEnd(abi: Abi, e: Ti, n: nat, rounding: bool): nat
    requires AbiOk(abi) && SupportedTi(e)
  {
    if n == 0 then 0
    else
      var end := Up(ElemsEnd(abi, e, n - 1, rounding), HeldTi(abi, e).align) + HeldTi(abi, e).size;
      if rounding then Up(end, HeldTi(abi, e).align) else end
  }

  /** The running offset behind the first n members. */
  function MembersEnd(abi: Abi, t: To, n: nat): nat
    requires AbiOk(abi) && SupportedTo(t) && t.Struct? && n <= |t.members|
  {
    if n == 0 then 0
    else
      var e := HeldTi(abi, t.members[n - 1].ti);
      Up(MembersEnd(abi, t, n - 1), e.align) + e.size
  }

  function PrintedTi(abi: Abi, lens: Lengths, ti: Ti, b: Block, at: nat, valid: bool, key: bool): seq<Visit>
    requires AbiOk(abi) && SupportedTi(ti)
    decreases ti, 1, 0
  {
    match ti
    case Simple(p) => [Visit(b, at, abi.alignOf(p), abi.sizeOf(p), valid || key)]
    case Str => [Visit(b, at, abi.alignOf(String8), abi.sizeOf(String8), valid || key)]
    case PlainSeq(e) =>
      [Visit(b, at, abi.seqAlign, abi.seqSize, valid || key)] +
      if !valid && !key then []
      else PrintedElems(abi, lens, e, Buffer(b, at, e, lens(b, at)), lens(b, at), false, valid, key)
    case Complete(_, obj) => PrintedTo(abi, lens, obj, b, at, valid, key)
  }

  function PrintedTo(abi: Abi, lens: Lengths, t: To, b: Block, at: nat, valid: bool, key: bool): seq<Visit>
    requires AbiOk(abi) && SupportedTo(t)
    decreases t, 1, 0
  {
    match t
    case SimpleTo(p) => [Visit(b, at, abi.alignOf(p), abi.sizeOf(p), valid || key)]
    case SeqTo(e) =>
      [Visit(b, at, abi.seqAlign, abi.seqSize, true)] +
      PrintedElems(abi, lens, e, Buffer(b, at, e, lens(b, at)), lens(b, at), true, valid, key)
    case Struct(_, ms) =>
      [Visit(b, at, BuildTo(abi, t).align, BuildTo(abi, t).size, true)] +
      PrintedMembers(abi, lens, t, b, at, |ms|, valid, key)
  }

  function PrintedElems(abi: Abi, lens: Lengths, e: Ti, b: Block, n: nat, rounding: bool, valid: bool, key: bool):
      seq<Visit>
    requires AbiOk(abi) && SupportedTi(e)
    decreases e, 2, n
  {
    if n == 0 then []
    else
      PrintedElems(abi, lens, e, b, n - 1, rounding, valid, key) +
      PrintedTi(abi, lens, e, b, Up(ElemsEnd(abi, e, n - 1, rounding), HeldTi(abi, e).align), valid, key)
  }

  lemma NoElems(abi: Abi, lens: Lengths, e: Ti, b: Block, rounding: bool, valid: bool, key: bool)
    requires AbiOk(abi) && SupportedTi(e)
    ensures ElemsEnd(abi, e, 0, rounding) == 0 && PrintedElems(abi, lens, e, b, 0, rounding, valid, key) == []
  {
  }

  lemma ElemsGrow(abi: Abi, lens: Lengths, e: Ti, b: Block, n: nat, rounding: bool, valid: bool, key: bool)
    requires AbiOk(abi) && SupportedTi(e)
    ensures var at := Up(ElemsEnd(abi, e, n, rounding), HeldTi(abi, e).align);
            var end := at + HeldTi(abi, e).size;
            && ElemsEnd(abi, e, n + 1, rounding) == (if rounding then Up(end, HeldTi(abi, e).align) else end)
            && PrintedElems(abi, lens, e, b, n + 1, rounding, valid, key) ==
               PrintedElems(abi, lens, e, b, n, rounding, valid, key) + PrintedTi(abi, lens, e, b, at, valid, key)
  {
  }

  function PrintedMembers(abi: Abi, lens: Lengths, t: To, b: Block, at: nat, n: nat, valid: bool, key: bool): seq<Visit>
    requires AbiOk(abi) && SupportedTo(t) && t.Struct? && n <= |t.members|
    decreases t, 0, n
  {
    if n == 0 then []
    else
      var m := t.members[n - 1];
      PrintedMembers(abi, lens, t, b, at, n - 1, valid, key) +
      PrintedTi(abi, lens, m.ti, b, at + Up(MembersEnd(abi, t, n - 1), HeldTi(abi, m.ti).align), valid, key && m.isKey)
  }

  // ---------------------------------------------------------------- the printer

  class Context {
    var valid: bool
    var key: bool
    var offset: nat
    var maxalign: nat

    constructor (valid: bool, key: bool)
      ensures this.valid == valid && this.key == key && offset == 0 && maxalign == 1
    {
      this.valid, this.key, offset, maxalign := valid, key, 0, 1;
    }

    /** The helper `align`: the place of the next object, past which the offset moves. */
    method Align(align: nat, size: nat) returns (o: nat)
      requires align > 0
      modifies this`offset, this`maxalign
      ensures o == Up(old(offset), align) && offset == o + size
      ensures maxalign == Max(old(maxalign), align)
    {
      if align > maxalign {
        maxalign := align;
      }
      if offset % align != 0 {
        offset := offset + (align - offset % align);
      }
      o := offset;
      offset := offset + size;
    }
  }

  /** What the lookups of the printer find. */
  lemma FoundTi(abi: Abi, env: map<Key, To>, cache: map<Key, Info>, id: nat, obj: To)
    requires AbiOk(abi) && Coherent(abi, env, cache)
    requires KnownTi(env, Complete(id, obj)) && CachedTi(cache, Complete(id, obj))
    ensures TypeId(id) in cache && cache[TypeId(id)].obj == obj && KnownTo(env, obj) && CachedTo(cache, obj)
  {
  }

  lemma FoundTo(abi: Abi, env: map<Key, To>, cache: map<Key, Info>, t: To)
    requires AbiOk(abi) && Coherent(abi, env, cache)
    requires SupportedTo(t) && t.Struct? && KnownTo(env, t) && CachedTo(cache, t)
    ensures TypeObj(t.id) in cache
    ensures Extent(cache[TypeObj(t.id)].align, cache[TypeObj(t.id)].size) == BuildTo(abi, t)
  {
  }

  class JsonPrinter {
    const abi: Abi
    const lens: Lengths
    const cache: map<Key, Info>
    ghost const env: map<Key, To>
    var trace: seq<Visit>

    ghost predicate Valid() {
      AbiOk(abi) && Coherent(abi, env, cache)
    }

    constructor (abi: Abi, lens: Lengths, cache: map<Key, Info>, ghost env: map<Key, To>)
      requires AbiOk(abi) && Coherent(abi, env, cache)
      ensures Valid() && this.abi == abi && this.lens == lens && this.cache == cache && this.env == env && trace == []
    {
      this.abi, this.lens, this.cache, this.env := abi, lens, cache, env;
      trace := [];
    }

    /** print_sample1_simple, and the string case */
    method PrintSimple(b: Block, sample: nat, p: Prim, c: Context)
      requires Valid()
      modifies this`trace, c`offset, c`maxalign
      ensures c.offset == Up(old(c.offset), abi.alignOf(p)) + abi.sizeOf(p)
      ensures c.maxalign == Max(old(c.maxalign), abi.alignOf(p))
      ensures trace == old(trace) + [Visit(b, sample + Up(old(c.offset), abi.alignOf(p)), abi.alignOf(p), abi.sizeOf(p),
                                           c.valid || c.key)]
    {
      var o := c.Align(abi.alignOf(p), abi.sizeOf(p));
      trace := trace + [Visit(b, sample + o, abi.alignOf(p), abi.sizeOf(p), c.valid || c.key)];
    }

    /** print_sample1_ti: every lookup succeeds, and offset and maxalign move by the type alone, shown or not. */
    method PrintTypeId(b: Block, sample: nat, ti: Ti, c: Context)
      requires Valid() && SupportedTi(ti) && KnownTi(env, ti) && CachedTi(cache, ti)
      modifies this`trace, c`offset, c`maxalign
      ensures var e, at := HeldTi(abi, ti), Up(old(c.offset), HeldTi(abi, ti).align);
              && c.offset == at + e.size && c.maxalign == Max(old(c.maxalign), e.align)
              && trace == old(trace) + PrintedTi(abi, lens, ti, b, sample + at, c.valid, c.key)
      decreases ti, 1, 0
    {
      hide Coherent, KnownTo, CachedTo, SupportedTo, HeldTo, Up, PrintedElems, PrintedTo;
      match ti
      case Simple(p) =>
        PrintSimple(b, sample, p, c);
      case Str =>
        PrintSimple(b, sample, String8, c);
      case PlainSeq(elem) =>
        var o := c.Align(abi.seqAlign, abi.seqSize);
        trace := trace + [Visit(b, sample + o, abi.seqAlign, abi.seqSize, c.valid || c.key)];
        if c.key || c.valid {
          var n := lens(b, sample + o);
          PrintElems(Buffer(b, sample + o, elem, n), elem, n, c.valid, c.key, false);
        }
      case Complete(id, obj) =>
        FoundTi(abi, env, cache, id, obj);
        var info := cache[TypeId(id)];
        PrintTypeObj(b, sample, info.obj, c);
    }

    /** The loops over the elements of a sequence; print_sample1_to also rounds the offset up after each. */
    method PrintElems(b: Block, elem: Ti, n: nat, valid: bool, key: bool, rounding: bool)
      requires Valid() && SupportedTi(elem) && KnownTi(env, elem) && CachedTi(cache, elem)
      modifies this`trace
      ensures trace == old(trace) + PrintedElems(abi, lens, elem, b, n, rounding, valid, key)
      decreases elem, 2, n
    {
      hide Coherent, Up, PrintedTi, PrintedElems, ElemsEnd, HeldTi, CachedTi, KnownTi, SupportedTi;
      NoElems(abi, lens, elem, b, rounding, valid, key);
      var c := new Context(valid, key);
      ghost var e := HeldTi(abi, elem);
      for i := 0 to n
        invariant fresh(c) && c.valid == valid && c.key == key
        invariant c.offset == ElemsEnd(abi, elem, i, rounding) && c.maxalign == if i == 0 then 1 else e.align
        invariant trace == old(trace) + PrintedElems(abi, lens, elem, b, i, rounding, valid, key)
      {
        ElemsGrow(abi, lens, elem, b, i, rounding, valid, key);
        PrintTypeId(b, 0, elem, c);
        if rounding {
          c.offset := Up(c.offset, c.maxalign);
        }
      }
    }

    /** print_sample1_to */
    method PrintTypeObj(b: Block, sample: nat, t: To, c: Context)
      requires Valid() && SupportedTo(t) && KnownTo(env, t) && CachedTo(cache, t)
      modifies this`trace, c`offset, c`maxalign
      ensures var e, at := HeldTo(abi, t), Up(old(c.offset), HeldTo(abi, t).align);
              && c.offset == at + e.size && c.maxalign == Max(old(c.maxalign), e.align)
              && trace == old(trace) + PrintedTo(abi, lens, t, b, sample + at, c.valid, c.key)
      decreases t, 1, 0
    {
      hide Coherent, KnownTi, CachedTi, SupportedTi, BuildTo, Up, PrintedElems, PrintedMembers;
      match t
      case SimpleTo(p) =>
        PrintSimple(b, sample, p, c);
      case SeqTo(elem) =>
        var o := c.Align(abi.seqAlign, abi.seqSize);
        trace := trace + [Visit(b, sample + o, abi.seqAlign, abi.seqSize, true)];
        var n := lens(b, sample + o);
        PrintElems(Buffer(b, sample + o, elem, n), elem, n, c.valid, c.key, true);
      case Struct(id, ms) =>
        FoundTo(abi, env, cache, t);
        var info := cache[TypeObj(id)];
        var o := c.Align(info.align, info.size);
        trace := trace + [Visit(b, sample + o, info.align, info.size, true)];
        PrintMembers(b, sample + o, t, c.valid, c.key);
    }

    method PrintMembers(b: Block, sample: nat, t: To, valid: bool, key: bool)
      requires Valid() && SupportedTo(t) && KnownTo(env, t) && CachedTo(cache, t) && t.Struct?
      modifies this`trace
      ensures trace == old(trace) + PrintedMembers(abi, lens, t, b, sample, |t.members|, valid, key)
      decreases t, 0, 0
    {
      hide Coherent, Up, PrintedTi, HeldTi;
      var c := new Context(valid, key);
      for i := 0 to |t.members|
        invariant fresh(c) && c.valid == valid && c.offset == MembersEnd(abi, t, i)
        invariant trace == old(trace) + PrintedMembers(abi, lens, t, b, sample, i, valid, key)
      {
        c.key := key && t.members[i].isKey;
        PrintTypeId(b, sample, t.members[i].ti, c);
      }
    }

    /** print_sample */
    method PrintSample(valid: bool, t: To)
      requires Valid() && SupportedTo(t) && KnownTo(env, t) && CachedTo(cache, t)
      modifies this`trace
      ensures trace == old(trace) + PrintedTo(abi, lens, t, Sample, 0, valid, true)
    {
      var c := new Context(valid, true);
      PrintTypeObj(Sample, 0, t, c);
    }
  }

  // ---------------------------------------------------------------- the printer looks where the objects are

  lemma HeldIsSize(abi: Abi, ti: Ti)
    requires AbiOk(abi) && SupportedTi(ti) && SquareTi(abi, ti)
    ensures HeldTi(abi, ti) == SizeTi(abi, ti)
  {
    if ti.Complete? && ti.obj.Struct? {
      BuildIsSizeTo(abi, ti.obj);
    }
  }

  lemma OneMore(n: nat, s: nat)
    requires n > 0
    ensures (n - 1) * s + s == n * s
  {
  }

  lemma {:induction false} ElemsEndIs(abi: Abi, e: Ti, n: nat, rounding: bool)
    requires AbiOk(abi) && SupportedTi(e) && SquareTi(abi, e)
    ensures ElemsEnd(abi, e, n, rounding) == n * SizeTi(abi, e).size
    ensures Up(ElemsEnd(abi, e, n, rounding), HeldTi(abi, e).align) == n * SizeTi(abi, e).size
    decreases n
  {
    hide AbiOk, Up, SizeTi, HeldTi, SquareTi, SupportedTi, ElemsEnd;
    var s := SizeTi(abi, e);
    HeldIsSize(abi, e);
    MultipleIsUp(n, s.size, s.align);
    ElemsEndStep(abi, e, n, rounding);
    if n > 0 {
      ElemsEndIs(abi, e, n - 1, rounding);
      OneMore(n, s.size);
    }
  }

  lemma ElemsEndStep(abi: Abi, e: Ti, n: nat, rounding: bool)
    requires AbiOk(abi) && SupportedTi(e)
    ensures var a, s := HeldTi(abi, e).align, HeldTi(abi, e).size;
            && (n == 0 ==> ElemsEnd(abi, e, n, rounding) == 0)
            && (n > 0 ==> var end := Up(ElemsEnd(abi, e, n - 1, rounding), a) + s;
                          ElemsEnd(abi, e, n, rounding) == if rounding then Up(end, a) else end)
  {
    hide AbiOk, HeldTi, SupportedTi, Up;
  }

  lemma {:induction false} MembersEndIs(abi: Abi, t: To, n: nat)
    requires AbiOk(abi) && SupportedTo(t) && SquareTo(abi, t) && t.Struct? && n <= |t.members|
    ensures MembersEnd(abi, t, n) == SizeMembers(abi, t, n).size
    decreases n
  {
    hide Up, SizeTi, HeldTi;
    if n > 0 {
      MembersEndIs(abi, t, n - 1);
      HeldIsSize(abi, t.members[n - 1].ti);
    }
  }

  lemma {:induction false} PrintedIsVisitsTi(abi: Abi, lens: Lengths, ti: Ti, b: Block, at: nat, valid: bool, key: bool)
    requires AbiOk(abi) && SupportedTi(ti) && SquareTi(abi, ti)
    ensures PrintedTi(abi, lens, ti, b, at, valid, key) == VisitsTi(abi, lens, ti, b, at, valid, key)
    decreases ti, 1, 0
  {
    hide PrintedElems, VisitsElems;
    match ti
    case PlainSeq(e) =>
      PrintedIsVisitsElems(abi, lens, e, Buffer(b, at, e, lens(b, at)), lens(b, at), false, valid, key);
    case Complete(_, obj) => PrintedIsVisitsTo(abi, lens, obj, b, at, valid, key);
    case _ =>
  }

  lemma {:induction false} PrintedIsVisitsTo(abi: Abi, lens: Lengths, t: To, b: Block, at: nat, valid: bool, key: bool)
    requires AbiOk(abi) && SupportedTo(t) && SquareTo(abi, t)
    ensures PrintedTo(abi, lens, t, b, at, valid, key) == VisitsTo(abi, lens, t, b, at, valid, key)
    decreases t, 1, 0
  {
    hide PrintedElems, VisitsElems, PrintedMembers, VisitsMembers;
    match t
    case SimpleTo(_) =>
    case SeqTo(e) => PrintedIsVisitsElems(abi, lens, e, Buffer(b, at, e, lens(b, at)), lens(b, at), true, valid, key);
    case Struct(_, ms) =>
      BuildIsSizeTo(abi, t);
      PrintedIsVisitsMembers(abi, lens, t, b, at, |ms|, valid, key);
  }

  lemma {:induction false} PrintedIsVisitsElems(abi: Abi, lens: Lengths, e: Ti, b: Block, n: nat, rounding: bool,
                                                valid: bool, key: bool)
    requires AbiOk(abi) && SupportedTi(e) && SquareTi(abi, e)
    ensures PrintedElems(abi, lens, e, b, n, rounding, valid, key) == VisitsElems(abi, lens, e, b, n, valid, key)
    decreases e, 2, n
  {
    hide PrintedTi, VisitsTi, SizeTi, HeldTi, Up;
    if n > 0 {
      ElemsEndIs(abi, e, n - 1, rounding);
      PrintedIsVisitsElems(abi, lens, e, b, n - 1, rounding, valid, key);
      PrintedIsVisitsTi(abi, lens, e, b, (n - 1) * SizeTi(abi, e).size, valid, key);
    }
  }

  lemma {:induction false} PrintedIsVisitsMembers(abi: Abi, lens: Lengths, t: To, b: Block, at: nat, n: nat,
                                                  valid: bool, key: bool)
    requires AbiOk(abi) && SupportedTo(t) && SquareTo(abi, t) && t.Struct? && n <= |t.members|
    ensures PrintedMembers(abi, lens, t, b, at, n, valid, key) == VisitsMembers(abi, lens, t, b, at, n, valid, key)
    decreases t, 0, n
  {
    hide PrintedTi, VisitsTi, SizeTi, HeldTi, Up;
    if n > 0 {
      var m := t.members[n - 1];
      MembersEndIs(abi, t, n - 1);
      HeldIsSize(abi, m.ti);
      PrintedIsVisitsMembers(abi, lens, t, b, at, n - 1, valid, key);
      PrintedIsVisitsTi(abi, lens, m.ti, b, at + OffsetOf(abi, t, n - 1), valid, key && m.isKey);
    }
  }

  ghost predicate PrinterIsRight(abi: Abi)
    requires AbiOk(abi)
  {
    forall t, lens, valid | SupportedTo(t) ::
      PrintedTo(abi, lens, t, Sample, 0, valid, true) == VisitsTo(abi, lens, t, Sample, 0, valid, true)
  }

  /** The printer looks, with the right extents, where the objects are, in samples of every supported type, exactly on
      the targets where every primitive type is as aligned as it is large. */
  lemma PrinterIsRightIff(abi: Abi)
    requires AbiOk(abi)
    ensures PrinterIsRight(abi) <==> SquareAbi(abi)
  {
    if SquareAbi(abi) {
      forall t, lens, valid | SupportedTo(t)
        ensures PrintedTo(abi, lens, t, Sample, 0, valid, true) == VisitsTo(abi, lens, t, Sample, 0, valid, true)
      {
        SquareAbiTo(abi, t);
        PrintedIsVisitsTo(abi, lens, t, Sample, 0, valid, true);
      }
    } else {
      var p :| abi.alignOf(p) != abi.sizeOf(p);
      var t := Struct(0, [Member(Complete(1, SimpleTo(p)), true)]);
      ExchangedShows(abi, p, t);
      var lens: Lengths := (_, _) => 0;
      assert PrintedTo(abi, lens, t, Sample, 0, true, true)[0].align == BuildTo(abi, t).align;
      assert VisitsTo(abi, lens, t, Sample, 0, true, true)[0].align == SizeTo(abi, t).align;
    }
  }

  lemma TargetDecidesPrinter()
    ensures AbiOk(AMD64) && PrinterIsRight(AMD64)
    ensures AbiOk(I386) && !PrinterIsRight(I386)
  {
    hide PrinterIsRight, SquareAbi;
    TargetsAreOk();
    PrinterIsRightIff(AMD64);
    PrinterIsRightIff(I386);
  }

  /** A struct of one simple type object is taken to be as aligned as that is large. */
  lemma ExchangedShows(abi: Abi, p: Prim, t: To)
    requires AbiOk(abi) && t == Struct(0, [Member(Complete(1, SimpleTo(p)), true)])
    ensures SupportedTo(t) && BuildTo(abi, t).align == abi.sizeOf(p) && SizeTo(abi, t).align == abi.alignOf(p)
  {
    assert SupportedTi(t.members[0].ti);
    assert BuildMembers(abi, t, 1) == AddMember(BuildMembers(abi, t, 0), BuildTi(abi, t.members[0].ti));
    assert SizeMembers(abi, t, 1) == AddMember(SizeMembers(abi, t, 0), SizeTi(abi, t.members[0].ti));
  }

  /** Building the cache for a type and then printing a sample of it: the build fails exactly on unsupported types;
      otherwise no lookup fails, and every object is found where the C layout puts it if simple type objects are as
      aligned as they are large. */
  method BuildAndPrint(abi: Abi, lens: Lengths, ghost env: map<Key, To>, t: To, valid: bool)
    returns (ok: bool, trace: seq<Visit>)
    requires AbiOk(abi) && KnownTo(env, t)
    ensures ok <==> SupportedTo(t)
    ensures ok ==> trace == PrintedTo(abi, lens, t, Sample, 0, valid, true)
    ensures ok && SquareTo(abi, t) ==> trace == VisitsTo(abi, lens, t, Sample, 0, valid, true)
  {
    var types := new TypeCache(abi, env);
    var align, size;
    ok, align, size := types.BuildTypeObj(t);
    trace := [];
    if ok {
      var printer := new JsonPrinter(abi, lens, types.cache, env);
      printer.PrintSample(valid, t);
      trace := printer.trace;
      if SquareTo(abi, t) {
        PrintedIsVisitsTo(abi, lens, t, Sample, 0, valid, true);
      }
    }
  }

  // ---------------------------------------------------------------- what is shown

  ghost predicate AllShown(vs: seq<Visit>) {
    forall v <- vs :: v.shown
  }

  /** Of a valid sample, and of key fields, everything is shown, down to any depth. */
  lemma {:induction false} ValidIsShownTi(abi: Abi, lens: Lengths, ti: Ti, b: Block, at: nat, key: bool)
    requires AbiOk(abi) && SupportedTi(ti)
    ensures AllShown(VisitsTi(abi, lens, ti, b, at, true, key))
    decreases ti, 1, 0
  {
    hide VisitsElems;
    match ti
    case PlainSeq(e) => ValidIsShownElems(abi, lens, e, Buffer(b, at, e, lens(b, at)), lens(b, at), key);
    case Complete(_, obj) => ValidIsShownTo(abi, lens, obj, b, at, key);
    case _ =>
  }

  lemma {:induction false} ValidIsShownTo(abi: Abi, lens: Lengths, t: To, b: Block, at: nat, key: bool)
    requires AbiOk(abi) && SupportedTo(t)
    ensures AllShown(VisitsTo(abi, lens, t, b, at, true, key))
    decreases t, 1, 0
  {
    hide VisitsElems, VisitsMembers;
    match t
    case SimpleTo(_) =>
    case SeqTo(e) => ValidIsShownElems(abi, lens, e, Buffer(b, at, e, lens(b, at)), lens(b, at), key);
    case Struct(_, ms) => ValidIsShownMembers(abi, lens, t, b, at, |ms|, key);
  }

  lemma {:induction false} ValidIsShownElems(abi: Abi, lens: Lengths, e: Ti, b: Block, n: nat, key: bool)
    requires AbiOk(abi) && SupportedTi(e)
    ensures AllShown(VisitsElems(abi, lens, e, b, n, true, key))
    decreases e, 2, n
  {
    hide VisitsTi, SizeTi;
    if n > 0 {
      ValidIsShownElems(abi, lens, e, b, n - 1, key);
      ValidIsShownTi(abi, lens, e, b, (n - 1) * SizeTi(abi, e).size, key);
    }
  }

  lemma {:induction false} ValidIsShownMembers(abi: Abi, lens: Lengths, t: To, b: Block, at: nat, n: nat, key: bool)
    requires AbiOk(abi) && SupportedTo(t) && t.Struct? && n <= |t.members|
    ensures AllShown(VisitsMembers(abi, lens, t, b, at, n, true, key))
    decreases t, 0, n
  {
    hide VisitsTi, SizeTi, OffsetOf;
    if n > 0 {
      var m := t.members[n - 1];
      ValidIsShownMembers(abi, lens, t, b, at, n - 1, key);
      ValidIsShownTi(abi, lens, m.ti, b, at + OffsetOf(abi, t, n - 1), key && m.isKey);
    }
  }

  // ---------------------------------------------------------------- every object is aligned and inside its block

  function Depth(b: Block): nat {
    if b.Sample? then 0 else 1 + Depth(b.b)
  }

  /** The object is inside the buffer that it belongs to, which has the elements of the sequence at its place. */
  ghost predicate InBuffer(abi: Abi, lens: Lengths, v: Visit)
    requires AbiOk(abi)
  {
    && v.block.Buffer? && SupportedTi(v.block.elem) && v.block.n == lens(v.block.b, v.block.off)
    && v.off + v.size <= v.block.n * SizeTi(abi, v.block.elem).size
  }

  /** Every object is aligned; those in block b are within [lo, hi), and the others in their own, deeper, buffers. */
  ghost predicate Sound(abi: Abi, lens: Lengths, vs: seq<Visit>, b: Block, lo: nat, hi: nat)
    requires AbiOk(abi)
  {
    forall v <- vs ::
      && v.align > 0 && v.off % v.align == 0
      && (if v.block == b then lo <= v.off && v.off + v.size <= hi
          else Depth(v.block) > Depth(b) && InBuffer(abi, lens, v))
  }

  lemma SoundJoins(abi: Abi, lens: Lengths, u: seq<Visit>, v: seq<Visit>, b: Block,
                   lo: nat, mid: nat, from: nat, hi: nat)
    requires AbiOk(abi) && mid <= hi && lo <= from
    requires Sound(abi, lens, u, b, lo, mid) && Sound(abi, lens, v, b, from, hi)
    ensures Sound(abi, lens, u + v, b, lo, hi)
  {
  }

  lemma SoundHead(abi: Abi, lens: Lengths, v: Visit, u: seq<Visit>, lo: nat, hi: nat)
    requires AbiOk(abi) && v.align > 0 && v.off % v.align == 0 && lo <= v.off && v.off + v.size <= hi
    requires Sound(abi, lens, u, v.block, lo, hi)
    ensures Sound(abi, lens, [v] + u, v.block, lo, hi)
  {
  }

  /** What is sound in a whole buffer is sound seen from the block of its sequence. */
  lemma SoundBelow(abi: Abi, lens: Lengths, u: seq<Visit>, b: Block, off: nat, e: Ti, n: nat, lo: nat, hi: nat)
    requires AbiOk(abi) && SupportedTi(e) && n == lens(b, off)
    requires Sound(abi, lens, u, Buffer(b, off, e, n), 0, n * SizeTi(abi, e).size)
    ensures Sound(abi, lens, u, b, lo, hi)
  {
    hide SizeTi, SupportedTi, AbiOk;
    var inner := Buffer(b, off, e, n);
    assert Depth(inner) == 1 + Depth(b);
    forall v | v in u
      ensures v.block != b && Depth(v.block) > Depth(b) && InBuffer(abi, lens, v)
    {
      assert v.block == inner || Depth(v.block) > Depth(inner);
    }
  }

  lemma {:induction false} VisitsTiSound(abi: Abi, lens: Lengths, ti: Ti, b: Block, at: nat, valid: bool, key: bool)
    requires PowerAbi(abi) && SupportedTi(ti) && at % SizeTi(abi, ti).align == 0
    ensures Sound(abi, lens, VisitsTi(abi, lens, ti, b, at, valid, key), b, at, at + SizeTi(abi, ti).size)
    decreases ti, 1, 0
  {
    hide PowerOfTwo, VisitsElems;
    match ti
    case PlainSeq(e) =>
      if valid || key {
        SequenceSound(abi, lens, e, b, at, valid, key, true);
      }
    case Complete(_, obj) => VisitsToSound(abi, lens, obj, b, at, valid, key);
    case _ =>
  }

  lemma {:induction false} SequenceSound(abi: Abi, lens: Lengths, e: Ti, b: Block, at: nat, valid: bool, key: bool,
                                         shown: bool)
    requires PowerAbi(abi) && SupportedTi(e) && at % abi.seqAlign == 0
    ensures Sound(abi, lens, [Visit(b, at, abi.seqAlign, abi.seqSize, shown)] +
                       VisitsElems(abi, lens, e, Buffer(b, at, e, lens(b, at)), lens(b, at), valid, key),
                  b, at, at + abi.seqSize)
    decreases e, 3, 0
  {
    hide Sound, SizeTi, SupportedTi, PowerOfTwo, VisitsElems;
    var n := lens(b, at);
    var elems := VisitsElems(abi, lens, e, Buffer(b, at, e, n), n, valid, key);
    VisitsElemsSound(abi, lens, e, Buffer(b, at, e, n), n, valid, key);
    SoundBelow(abi, lens, elems, b, at, e, n, at, at + abi.seqSize);
    SoundHead(abi, lens, Visit(b, at, abi.seqAlign, abi.seqSize, shown), elems, at, at + abi.seqSize);
  }

  lemma {:induction false} VisitsToSound(abi: Abi, lens: Lengths, t: To, b: Block, at: nat, valid: bool, key: bool)
    requires PowerAbi(abi) && SupportedTo(t) && at % SizeTo(abi, t).align == 0
    ensures Sound(abi, lens, VisitsTo(abi, lens, t, b, at, valid, key), b, at, at + SizeTo(abi, t).size)
    decreases t, 1, 0
  {
    hide PowerOfTwo, VisitsElems, VisitsMembers;
    match t
    case SimpleTo(_) =>
    case SeqTo(e) => SequenceSound(abi, lens, e, b, at, valid, key, true);
    case Struct(_, _) => StructSound(abi, lens, t, b, at, valid, key);
  }

  lemma {:induction false} StructSound(abi: Abi, lens: Lengths, t: To, b: Block, at: nat, valid: bool, key: bool)
    requires PowerAbi(abi) && SupportedTo(t) && t.Struct? && at % SizeTo(abi, t).align == 0
    ensures Sound(abi, lens, [Visit(b, at, SizeTo(abi, t).align, SizeTo(abi, t).size, true)] +
                       VisitsMembers(abi, lens, t, b, at, |t.members|, valid, key), b, at, at + SizeTo(abi, t).size)
    decreases t, 0, |t.members| + 1
  {
    hide PowerOfTwo, VisitsMembers, SizeMembers, SupportedTo, Depth, InBuffer;
    var e, parts := SizeTo(abi, t), VisitsMembers(abi, lens, t, b, at, |t.members|, valid, key);
    VisitsMembersSound(abi, lens, t, b, at, |t.members|, valid, key);
    assert SizeMembers(abi, t, |t.members|).size <= e.size;
    assert Sound(abi, lens, parts, b, at, at + e.size);
    SoundHead(abi, lens, Visit(b, at, e.align, e.size, true), parts, at, at + e.size);
  }

  lemma {:induction false} VisitsElemsSound(abi: Abi, lens: Lengths, e: Ti, b: Block, n: nat, valid: bool, key: bool)
    requires PowerAbi(abi) && SupportedTi(e)
    ensures Sound(abi, lens, VisitsElems(abi, lens, e, b, n, valid, key), b, 0, n * SizeTi(abi, e).size)
    decreases e, 2, n
  {
    hide PowerOfTwo, VisitsTi, SizeTi, SupportedTi, Up, InBuffer, Depth;
    if n > 0 {
      var s := SizeTi(abi, e).size;
      VisitsElemsSound(abi, lens, e, b, n - 1, valid, key);
      MultipleIsUp(n - 1, s, SizeTi(abi, e).align);
      VisitsTiSound(abi, lens, e, b, (n - 1) * s, valid, key);
      OneMore(n, s);
      SoundJoins(abi, lens, VisitsElems(abi, lens, e, b, n - 1, valid, key),
                 VisitsTi(abi, lens, e, b, (n - 1) * s, valid, key), b, 0, (n - 1) * s, (n - 1) * s, n * s);
    }
  }

  lemma {:induction false} VisitsMembersSound(abi: Abi, lens: Lengths, t: To, b: Block, at: nat, n: nat, valid: bool,
                                              key: bool)
    requires PowerAbi(abi) && SupportedTo(t) && t.Struct? && n <= |t.members| && at % SizeTo(abi, t).align == 0
    ensures Sound(abi, lens, VisitsMembers(abi, lens, t, b, at, n, valid, key), b, at, at + SizeMembers(abi, t, n).size)
    decreases t, 0, n
  {
    hide PowerOfTwo, VisitsTi, SizeTi, SupportedTi, Up, InBuffer, Depth;
    if n > 0 {
      var m, off := t.members[n - 1], OffsetOf(abi, t, n - 1);
      VisitsMembersSound(abi, lens, t, b, at, n - 1, valid, key);
      MemberIsAligned(abi, t, n - 1, at);
      VisitsTiSound(abi, lens, m.ti, b, at + off, valid, key && m.isKey);
      SoundJoins(abi, lens, VisitsMembers(abi, lens, t, b, at, n - 1, valid, key),
                 VisitsTi(abi, lens, m.ti, b, at + off, valid, key && m.isKey), b,
                 at, at + SizeMembers(abi, t, n - 1).size, at + off, at + SizeMembers(abi, t, n).size);
    }
  }

  /** The room in a block of a sample of type t. */
  function Room(abi: Abi, t: To, b: Block): nat
    requires AbiOk(abi) && SupportedTo(t) && (b.Buffer? ==> SupportedTi(b.elem))
  {
    if b.Sample? then SizeTo(abi, t).size else b.n * SizeTi(abi, b.elem).size
  }

  /** Every object of a sample, at any depth and through any number of sequences, is aligned and inside the sample or
      the buffer that it belongs to. */
  lemma EveryObjectIsInside(abi: Abi, lens: Lengths, t: To, valid: bool)
    requires PowerAbi(abi) && SupportedTo(t)
    ensures forall v <- VisitsTo(abi, lens, t, Sample, 0, valid, true) ::
              && v.align > 0 && v.off % v.align == 0
              && (v.block.Buffer? ==> SupportedTi(v.block.elem) && v.block.n == lens(v.block.b, v.block.off))
              && v.off + v.size <= Room(abi, t, v.block)
  {
    VisitsToSound(abi, lens, t, Sample, 0, valid, true);
  }
}
