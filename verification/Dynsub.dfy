/** The type cache of examples/dynsub/dynsub.c: the builder memoises the layout computation. */
module Dynsub {
  import opened Layout

  /** The cache is keyed by the address of a type identifier or of a struct's type object. */
  datatype Key = TypeId(id: nat) | TypeObj(id: nat)

  datatype Info = Info(obj: To, align: nat, size: nat)

  // ---------------------------------------------------------------- addresses identify types

  /** `env` says what lives at each address: the object a complete type identifier resolves to, and the structs. */
  ghost predicate KnownTi(env: map<Key, To>, ti: Ti) {
    match ti
    case PlainSeq(e) => KnownTi(env, e)
    case Complete(id, obj) => TypeId(id) in env && env[TypeId(id)] == obj && KnownTo(env, obj)
    case _ => true
  }

  ghost predicate KnownTo(env: map<Key, To>, t: To) {
    match t
    case SeqTo(e) => KnownTi(env, e)
    case Struct(id, ms) =>
      TypeObj(id) in env && env[TypeObj(id)] == t && forall i | 0 <= i < |ms| :: KnownTi(env, ms[i].ti)
    case _ => true
  }

  // ---------------------------------------------------------------- what is in the cache

  /** Every struct object and complete type identifier reachable from the type is in the cache. */
  predicate CachedTi(cache: map<Key, Info>, ti: Ti) {
    match ti
    case PlainSeq(e) => CachedTi(cache, e)
    case Complete(id, obj) => TypeId(id) in cache && CachedTo(cache, obj)
    case _ => true
  }

  predicate CachedTo(cache: map<Key, Info>, t: To) {
    match t
    case SeqTo(e) => CachedTi(cache, e)
    case Struct(id, ms) => TypeObj(id) in cache && forall i | 0 <= i < |ms| :: CachedTi(cache, ms[i].ti)
    case _ => true
  }

  /** The cache is closed under reachability, and every entry holds what building its type afresh would give. */
  ghost predicate Coherent(abi: Abi, env: map<Key, To>, cache: map<Key, Info>)
    requires AbiOk(abi)
  {
    forall k | k in cache ::
      && k in env && cache[k].obj == env[k] && KnownTo(env, cache[k].obj)
      && SupportedTo(cache[k].obj) && CachedTo(cache, cache[k].obj)
      && Extent(cache[k].align, cache[k].size) == BuildTo(abi, cache[k].obj)
      && (k.TypeObj? ==> cache[k].obj.Struct? && cache[k].obj.id == k.id)
  }

  predicate Grows(cache: map<Key, Info>, more: map<Key, Info>) {
    forall k | k in cache :: k in more && more[k] == cache[k]
  }

  lemma {:induction false} CachedStaysTi(cache: map<Key, Info>, more: map<Key, Info>, ti: Ti)
    requires Grows(cache, more) && CachedTi(cache, ti)
    ensures CachedTi(more, ti)
    decreases ti
  {
    match ti
    case PlainSeq(e) => CachedStaysTi(cache, more, e);
    case Complete(_, obj) => CachedStaysTo(cache, more, obj);
    case _ =>
  }

  lemma {:induction false} CachedStaysTo(cache: map<Key, Info>, more: map<Key, Info>, t: To)
    requires Grows(cache, more) && CachedTo(cache, t)
    ensures CachedTo(more, t)
    decreases t
  {
    match t
    case SeqTo(e) => CachedStaysTi(cache, more, e);
    case Struct(_, ms) =>
      forall i | 0 <= i < |ms| ensures CachedTi(more, ms[i].ti) {
        CachedStaysTi(cache, more, ms[i].ti);
      }
    case _ =>
  }

  /** Adding an entry for a type whose parts are cached keeps the cache coherent. */
  lemma AddKeepsCoherent(abi: Abi, env: map<Key, To>, cache: map<Key, Info>, k: Key, t: To)
    requires AbiOk(abi) && Coherent(abi, env, cache) && k !in cache && k in env && env[k] == t
    requires KnownTo(env, t) && SupportedTo(t)
    requires k.TypeObj? ==> t.Struct? && t.id == k.id
    requires var e := BuildTo(abi, t); CachedTo(cache[k := Info(t, e.align, e.size)], t)
    ensures var e := BuildTo(abi, t); Coherent(abi, env, cache[k := Info(t, e.align, e.size)])
  {
    var e := BuildTo(abi, t);
    var more := cache[k := Info(t, e.align, e.size)];
    forall j | j in cache ensures CachedTo(more, cache[j].obj) {
      CachedStaysTo(cache, more, cache[j].obj);
    }
  }

  // ---------------------------------------------------------------- nothing is added twice

  function HeightTi(ti: Ti): nat
    decreases ti, 1
  {
    match ti
    case PlainSeq(e) => 1 + HeightTi(e)
    case Complete(_, obj) => 1 + HeightTo(obj)
    case _ => 0
  }

  function HeightTo(t: To): nat
    decreases t, 1
  {
    match t
    case SeqTo(e) => 1 + HeightTi(e)
    case Struct(_, ms) => 1 + HeightMembers(t, |ms|)
    case _ => 0
  }

  function HeightMembers(t: To, n: nat): (h: nat)
    requires t.Struct? && n <= |t.members|
    ensures forall i | 0 <= i < n :: HeightTi(t.members[i].ti) <= h
    decreases t, 0, n
  {
    if n == 0 then 0 else Max(HeightMembers(t, n - 1), HeightTi(t.members[n - 1].ti))
  }

  function HeightOf(k: Key, t: To): nat {
    if k.TypeId? then 1 + HeightTo(t) else HeightTo(t)
  }

  /** The entries that are new are for types at most that high. */
  predicate NewUpTo(cache: map<Key, Info>, more: map<Key, Info>, h: nat) {
    forall k | k in more && k !in cache :: HeightOf(k, more[k].obj) <= h
  }

  // ---------------------------------------------------------------- the builder

  lemma KnownMember(env: map<Key, To>, t: To, i: nat)
    requires KnownTo(env, t) && t.Struct? && i < |t.members|
    ensures KnownTi(env, t.members[i].ti)
  {
  }

  lemma KnownStruct(env: map<Key, To>, t: To)
    requires KnownTo(env, t) && t.Struct?
    ensures TypeObj(t.id) in env && env[TypeObj(t.id)] == t
  {
  }

  /** Building the members of a struct, which are all less high, does not add the struct itself. */
  lemma NotAddedYet(abi: Abi, env: map<Key, To>, before: map<Key, Info>, cache: map<Key, Info>, t: To)
    requires AbiOk(abi) && Coherent(abi, env, cache) && KnownTo(env, t) && t.Struct? && TypeObj(t.id) !in before
    requires NewUpTo(before, cache, HeightMembers(t, |t.members|))
    ensures TypeObj(t.id) !in cache
  {
    hide BuildTo, HeightMembers;
    KnownStruct(env, t);
  }

  lemma AllMembers(cache: map<Key, Info>, t: To)
    requires t.Struct? && forall j | 0 <= j < |t.members| :: SupportedTi(t.members[j].ti)
    ensures SupportedTo(t)
    ensures TypeObj(t.id) in cache && (forall j | 0 <= j < |t.members| :: CachedTi(cache, t.members[j].ti)) ==>
              CachedTo(cache, t)
  {
    hide SupportedTi, CachedTi;
  }

  class TypeCache {
    const abi: Abi
    ghost const env: map<Key, To>
    var cache: map<Key, Info>

    ghost predicate Valid()
      reads this
    {
      AbiOk(abi) && Coherent(abi, env, cache)
    }

    constructor (abi: Abi, ghost env: map<Key, To>)
      requires AbiOk(abi)
      ensures Valid() && this.abi == abi && this.env == env && cache == map[]
    {
      this.abi, this.env := abi, env;
      cache := map[];
    }

    /** build_typecache_simple: the C layout of the primitive, of which any number can be packed. */
    method BuildSimple(p: Prim) returns (align: nat, size: nat)
      requires AbiOk(abi)
      ensures Extent(align, size) == SizeTi(abi, Simple(p)) == SizeTo(abi, SimpleTo(p))
      ensures align > 0 && size % align == 0
    {
      align, size := abi.alignOf(p), abi.sizeOf(p);
    }

    /** build_typecache_ti; `ok` is false when the program aborts. */
    method BuildTypeId(ti: Ti) returns (ok: bool, align: nat, size: nat)
      requires Valid() && KnownTi(env, ti)
      modifies this
      ensures Valid() && Grows(old(cache), cache) && NewUpTo(old(cache), cache, HeightTi(ti))
      ensures ok <==> SupportedTi(ti)
      ensures ok ==> CachedTi(cache, ti) && Extent(align, size) == BuildTi(abi, ti)
      decreases ti, 1
    {
      ok, align, size := true, 0, 0;
      match ti
      case Simple(p) =>
        align, size := BuildSimple(p);
      case Str =>
        align, size := BuildSimple(String8);
      case PlainSeq(elem) =>
        var a, s;
        ok, a, s := BuildTypeId(elem);
        align, size := abi.seqAlign, abi.seqSize;
      case Complete(id, obj) =>
        if TypeId(id) in cache {
          align, size := cache[TypeId(id)].align, cache[TypeId(id)].size;
        } else {
          ok, align, size := BuildTypeObj(obj);
          if ok {
            CachedStaysTo(cache, cache[TypeId(id) := Info(obj, align, size)], obj);
            AddKeepsCoherent(abi, env, cache, TypeId(id), obj);
            cache := cache[TypeId(id) := Info(obj, align, size)];
          }
        }
      case OtherTi =>
        ok := false;
    }

    /** build_typecache_to */
    method BuildTypeObj(t: To) returns (ok: bool, align: nat, size: nat)
      requires Valid() && KnownTo(env, t)
      modifies this
      ensures Valid() && Grows(old(cache), cache) && NewUpTo(old(cache), cache, HeightTo(t))
      ensures ok <==> SupportedTo(t)
      ensures ok ==> CachedTo(cache, t) && Extent(align, size) == BuildTo(abi, t)
      decreases t, 1
    {
      ok, align, size := true, 0, 0;
      match t
      case SimpleTo(p) =>
        size, align := BuildSimple(p);
      case SeqTo(elem) =>
        var a, s;
        ok, a, s := BuildTypeId(elem);
        align, size := abi.seqAlign, abi.seqSize;
      case Struct(id, ms) =>
        if TypeObj(id) in cache {
          align, size := cache[TypeObj(id)].align, cache[TypeObj(id)].size;
        } else {
          ok, align, size := BuildStruct(t);
        }
      case OtherTo =>
        ok := false;
    }

    method BuildStruct(t: To) returns (ok: bool, align: nat, size: nat)
      requires Valid() && KnownTo(env, t) && t.Struct? && TypeObj(t.id) !in cache
      modifies this
      ensures Valid() && Grows(old(cache), cache) && NewUpTo(old(cache), cache, HeightTo(t))
      ensures ok <==> SupportedTo(t)
      ensures ok ==> CachedTo(cache, t) && Extent(align, size) == BuildTo(abi, t)
      decreases t, 0
    {
      hide BuildTi, SupportedTi, CachedTi, KnownTi, HeightTi, Coherent, KnownTo;
      ok, align, size := true, 1, 0;
      for i := 0 to |t.members|
        invariant Valid() && Grows(old(cache), cache)
        invariant NewUpTo(old(cache), cache, HeightMembers(t, |t.members|))
        invariant forall j | 0 <= j < i :: SupportedTi(t.members[j].ti) && CachedTi(cache, t.members[j].ti)
        invariant align > 0 && Extent(align, size) == BuildMembers(abi, t, i)
      {
        ghost var before := cache;
        KnownMember(env, t, i);
        var a, s;
        ok, a, s := BuildTypeId(t.members[i].ti);
        if !ok {
          assert !SupportedTi(t.members[i].ti);
          return;
        }
        forall j | 0 <= j < i ensures CachedTi(cache, t.members[j].ti) {
          CachedStaysTi(before, cache, t.members[j].ti);
        }
        if a > align {
          align := a;
        }
        if size % a != 0 {
          size := size + (a - size % a);
        }
        size := size + s;
      }
      if size % align != 0 {
        size := size + (align - size % align);
      }
      NotAddedYet(abi, env, old(cache), cache, t);
      KnownStruct(env, t);
      ghost var more := cache[TypeObj(t.id) := Info(t, align, size)];
      forall j | 0 <= j < |t.members| ensures CachedTi(more, t.members[j].ti) {
        CachedStaysTi(cache, more, t.members[j].ti);
      }
      AllMembers(more, t);
      AddKeepsCoherent(abi, env, cache, TypeObj(t.id), t);
      cache := cache[TypeObj(t.id) := Info(t, align, size)];
    }
  }
}
