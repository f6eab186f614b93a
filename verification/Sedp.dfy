/** The PL_CDR parameter lists of SEDP announcements: decode_sedp in inspector.cpp up to the registration, and a
    reference encoder (section 9.4.2.11 of DDSI-RTPS 2.3). */
module Sedp {
  import opened Options
  import opened Wire

  const PID_SENTINEL := 0x0001
  const PID_TOPIC_NAME := 0x0005
  const PID_TYPE_NAME := 0x0007
  const PID_ENDPOINT_GUID := 0x005A

  /** The local variables of the decoder: topic, type name and the GUID if one was given. */
  datatype Fields = Fields(topic: seq<Byte>, typeName: seq<Byte>, guid: Option<seq<Byte>>)

  const NOTHING := Fields([], [], None)

  // ---------------------------------------------------------------- the decoder

  /** One parameter with identifier pid and body [off, end). */
  function Absorb(f: Fields, pl: seq<Byte>, pid: nat, off: nat, end: nat, le: bool): (f': Fields)
    requires off <= end <= |pl|
    ensures f.guid.Some? && |f.guid.value| == 16 ==> f'.guid.Some? && |f'.guid.value| == 16
    ensures f.guid.None? && f'.guid.Some? ==> |f'.guid.value| == 16
  {
    if pid == PID_TOPIC_NAME then f.(topic := CdrString(pl, end, off, le))
    else if pid == PID_TYPE_NAME then f.(typeName := CdrString(pl, end, off, le))
    else if pid == PID_ENDPOINT_GUID && end - off >= 16 then f.(guid := Some(pl[off..off + 16]))
    else f
  }

  function Walk(f: Fields, pl: seq<Byte>, off: nat, le: bool): (f': Fields)
    requires f.guid.Some? ==> |f.guid.value| == 16
    ensures f'.guid.Some? ==> |f'.guid.value| == 16
    decreases |pl| - off
  {
    if off + 4 > |pl| then f
    else
      var pid, end := U16(pl, off, le), off + 4 + U16(pl, off + 2, le);
      if pid == PID_SENTINEL || end > |pl| then f
      else Walk(Absorb(f, pl, pid, off + 4, end, le), pl, end, le)
  }

  /** Bit 0 of the second byte of the representation identifier selects the byte order. */
  function Decode(pl: seq<Byte>): (f: Fields)
    ensures f.guid.Some? ==> |f.guid.value| == 16
  {
    if |pl| < 4 then NOTHING else Walk(NOTHING, pl, 4, pl[1] % 2 == 1)
  }

  /** The loop of decode_sedp.  Every iteration moves on by at least four bytes and stays inside the payload. */
  method DecodeFields(pl: seq<Byte>) returns (f: Fields)
    ensures f == Decode(pl)
  {
    f := NOTHING;
    if |pl| < 4 {
      return;
    }
    var le := pl[1] % 2 == 1;
    var off := 4;
    while off + 4 <= |pl|
      invariant 4 <= off <= |pl|
      invariant f.guid.Some? ==> |f.guid.value| == 16
      invariant Decode(pl) == Walk(f, pl, off, le)
      decreases |pl| - off
    {
      var pid := U16(pl, off, le);
      var plen := U16(pl, off + 2, le);
      off := off + 4;
      if pid == PID_SENTINEL {
        return;
      }
      var end := off + plen;
      if end > |pl| {
        return;
      }
      f := Absorb(f, pl, pid, off, end, le);
      off := end;
    }
  }

  // ---------------------------------------------------------------- the encoder

  /** `Unknown` is any parameter that the decoder should pass over. */
  datatype Param =
    | Topic(name: seq<Byte>)
    | TypeName(name: seq<Byte>)
    | EndpointGuid(guid: seq<Byte>, extra: seq<Byte>)
    | Unknown(pid: nat, bytes: seq<Byte>)

  predicate ParamOk(p: Param) {
    match p
    case Topic(name) => |name| <= 0xFFF0
    case TypeName(name) => |name| <= 0xFFF0
    case EndpointGuid(guid, extra) => |guid| == 16 && |extra| <= 0xFFE0
    case Unknown(pid, bytes) =>
      && pid < 0x1_0000 && |bytes| < 0x1_0000
      && pid != PID_SENTINEL && pid != PID_TOPIC_NAME && pid != PID_TYPE_NAME
      && (pid == PID_ENDPOINT_GUID ==> |bytes| < 16)
  }

  function Pid(p: Param): (pid: nat)
    requires ParamOk(p)
    ensures pid < 0x1_0000 && pid != PID_SENTINEL
  {
    match p
    case Topic(_) => PID_TOPIC_NAME
    case TypeName(_) => PID_TYPE_NAME
    case EndpointGuid(_, _) => PID_ENDPOINT_GUID
    case Unknown(pid, _) => pid
  }

  function Body(p: Param, le: bool): (b: seq<Byte>)
    requires ParamOk(p)
    ensures |b| < 0x1_0000
  {
    match p
    case Topic(name) => PaddedString(name, le)
    case TypeName(name) => PaddedString(name, le)
    case EndpointGuid(guid, extra) => guid + extra
    case Unknown(_, bytes) => bytes
  }

  function PaddedString(s: seq<Byte>, le: bool): (b: seq<Byte>)
    requires |s| <= 0xFFF0
    ensures |b| < 0x1_0000
  {
    assert |PutCdrString(s, le)| == |s| + 8 - |s| % 4;
    PutCdrString(s, le)
  }

  function PutParam(p: Param, le: bool): seq<Byte>
    requires ParamOk(p)
  {
    Put16(Pid(p), le) + Put16(|Body(p, le)|, le) + Body(p, le)
  }

  function PutParams(ps: seq<Param>, le: bool): seq<Byte>
    requires forall p | p in ps :: ParamOk(p)
  {
    if ps == [] then [] else PutParam(ps[0], le) + PutParams(ps[1..], le)
  }

  /** A parameter list up to and including its sentinel. */
  function PutList(ps: seq<Param>, le: bool): seq<Byte>
    requires forall p | p in ps :: ParamOk(p)
  {
    PutParams(ps, le) + (Put16(PID_SENTINEL, le) + Put16(0, le))
  }

  /** A payload: representation identifier with any other bits, options, parameters, sentinel, anything. */
  function Encode(le: bool, id0: Byte, idHi: nat, o0: Byte, o1: Byte, ps: seq<Param>, rest: seq<Byte>): seq<Byte>
    requires idHi < 128 && forall p | p in ps :: ParamOk(p)
  {
    var id1: Byte := 2 * idHi + if le then 1 else 0;
    [id0, id1, o0, o1] + PutList(ps, le) + rest
  }

  // ---------------------------------------------------------------- what a parameter list says

  function Note(f: Fields, p: Param): Fields
    requires ParamOk(p)
  {
    match p
    case Topic(name) => f.(topic := name)
    case TypeName(name) => f.(typeName := name)
    case EndpointGuid(guid, _) => f.(guid := Some(guid))
    case Unknown(_, _) => f
  }

  function NoteAll(f: Fields, ps: seq<Param>): Fields
    requires forall p | p in ps :: ParamOk(p)
    decreases |ps|
  {
    if ps == [] then f else NoteAll(Note(f, ps[0]), ps[1..])
  }

  /** Whatever order they come in, and whatever stands between them, the parameters say f: every topic
      parameter names f's topic, and f's topic, if not empty, is named; likewise type name and GUID. */
  ghost predicate Says(ps: seq<Param>, f: Fields) {
    && (forall p | p in ps :: ParamOk(p))
    && (forall p | p in ps && p.Topic? :: p.name == f.topic)
    && (forall p | p in ps && p.TypeName? :: p.name == f.typeName)
    && (forall p | p in ps && p.EndpointGuid? :: Some(p.guid) == f.guid)
    && (f.topic != [] ==> Topic(f.topic) in ps)
    && (f.typeName != [] ==> TypeName(f.typeName) in ps)
    && (f.guid.Some? ==> exists p | p in ps :: p.EndpointGuid?)
  }

  lemma {:induction false} OrderDoesNotMatter(f0: Fields, ps: seq<Param>, f: Fields)
    requires forall p | p in ps :: ParamOk(p)
    requires forall p | p in ps && p.Topic? :: p.name == f.topic
    requires forall p | p in ps && p.TypeName? :: p.name == f.typeName
    requires forall p | p in ps && p.EndpointGuid? :: Some(p.guid) == f.guid
    requires f0.topic == f.topic || Topic(f.topic) in ps
    requires f0.typeName == f.typeName || TypeName(f.typeName) in ps
    requires f0.guid == f.guid || exists p | p in ps :: p.EndpointGuid?
    ensures NoteAll(f0, ps) == f
    decreases |ps|
  {
    if ps != [] {
      assert ps == [ps[0]] + ps[1..];
      assert forall p | p in ps :: p == ps[0] || p in ps[1..];
      assert ps[0] in ps && forall p | p in ps[1..] :: p in ps;
      OrderDoesNotMatter(Note(f0, ps[0]), ps[1..], f);
    }
  }

  // ---------------------------------------------------------------- round trip

  lemma AbsorbsParam(f: Fields, pl: seq<Byte>, off: nat, p: Param, le: bool)
    requires ParamOk(p) && Holds(pl, off, Body(p, le))
    ensures Absorb(f, pl, Pid(p), off, off + |Body(p, le)|, le) == Note(f, p)
  {
    match p
    case Topic(name) => CdrStringRoundTrip(pl, off + |Body(p, le)|, off, name, le);
    case TypeName(name) => CdrStringRoundTrip(pl, off + |Body(p, le)|, off, name, le);
    case EndpointGuid(guid, extra) => HoldsBoth(pl, off, guid, extra);
    case Unknown(_, _) =>
  }

  predicate ParamAt(pl: seq<Byte>, off: nat, p: Param, le: bool)
    requires ParamOk(p)
  {
    && off + 4 <= |pl|
    && U16(pl, off, le) == Pid(p) && U16(pl, off + 2, le) == |Body(p, le)|
    && Holds(pl, off + 4, Body(p, le))
  }

  lemma ReadsParam(pl: seq<Byte>, off: nat, p: Param, le: bool)
    requires ParamOk(p) && Holds(pl, off, PutParam(p, le))
    ensures ParamAt(pl, off, p, le)
  {
    var pid, len := Put16(Pid(p), le), Put16(|Body(p, le)|, le);
    HoldsBoth(pl, off, pid + len, Body(p, le));
    HoldsBoth(pl, off, pid, len);
    Reads16(pl, off, Pid(p), le);
    Reads16(pl, off + 2, |Body(p, le)|, le);
  }

  lemma WalkStep(f: Fields, pl: seq<Byte>, off: nat, le: bool, end: nat, f': Fields)
    requires (f.guid.Some? ==> |f.guid.value| == 16) && off + 4 <= end <= |pl|
    requires U16(pl, off, le) != PID_SENTINEL && end == off + 4 + U16(pl, off + 2, le)
    requires f' == Absorb(f, pl, U16(pl, off, le), off + 4, end, le)
    ensures Walk(f, pl, off, le) == Walk(f', pl, end, le)
  {
    hide U16, Absorb;
  }

  lemma WalksOne(f: Fields, pl: seq<Byte>, off: nat, p: Param, le: bool, end: nat)
    requires (f.guid.Some? ==> |f.guid.value| == 16) && ParamOk(p) && ParamAt(pl, off, p, le)
    requires end == off + 4 + |Body(p, le)|
    ensures Walk(f, pl, off, le) == Walk(Note(f, p), pl, end, le)
  {
    var f' := Note(f, p);
    assert end <= |pl| && U16(pl, off, le) != PID_SENTINEL && end == off + 4 + U16(pl, off + 2, le);
    assert f' == Absorb(f, pl, U16(pl, off, le), off + 4, end, le) by {
      AbsorbsParam(f, pl, off + 4, p, le);
    }
    WalkStep(f, pl, off, le, end, f');
  }

  lemma ListGrows(ps: seq<Param>, le: bool)
    requires ps != [] && forall p | p in ps :: ParamOk(p)
    ensures PutList(ps, le) == PutParam(ps[0], le) + PutList(ps[1..], le)
    ensures |PutParam(ps[0], le)| == 4 + |Body(ps[0], le)|
  {
  }

  lemma ListHead(pl: seq<Byte>, off: nat, ps: seq<Param>, le: bool)
    requires ps != [] && (forall p | p in ps :: ParamOk(p)) && Holds(pl, off, PutList(ps, le))
    ensures ParamAt(pl, off, ps[0], le)
    ensures Holds(pl, off + 4 + |Body(ps[0], le)|, PutList(ps[1..], le))
  {
    hide PutList, PutParam, Body, Holds, ParamAt, ParamOk;
    assert ps[0] in ps;
    ListGrows(ps, le);
    HoldsBoth(pl, off, PutParam(ps[0], le), PutList(ps[1..], le));
    ReadsParam(pl, off, ps[0], le);
  }

  lemma WalksEnd(f: Fields, pl: seq<Byte>, off: nat, le: bool)
    requires (f.guid.Some? ==> |f.guid.value| == 16) && Holds(pl, off, PutList([], le))
    ensures Walk(f, pl, off, le) == f
  {
    HoldsBoth(pl, off, [], Put16(PID_SENTINEL, le) + Put16(0, le));
    HoldsBoth(pl, off, Put16(PID_SENTINEL, le), Put16(0, le));
    Reads16(pl, off, PID_SENTINEL, le);
  }

  lemma {:induction false} WalksParams(f: Fields, pl: seq<Byte>, off: nat, ps: seq<Param>, le: bool)
    requires (f.guid.Some? ==> |f.guid.value| == 16) && forall p | p in ps :: ParamOk(p)
    requires Holds(pl, off, PutList(ps, le))
    ensures Walk(f, pl, off, le) == NoteAll(f, ps)
    decreases |ps|
  {
    hide Walk, Holds, ParamAt, PutList, Body;
    if ps == [] {
      WalksEnd(f, pl, off, le);
    } else {
      var end := off + 4 + |Body(ps[0], le)|;
      ListHead(pl, off, ps, le);
      WalksOne(f, pl, off, ps[0], le, end);
      WalksParams(Note(f, ps[0]), pl, end, ps[1..], le);
    }
  }

  /** Round trip: in either byte order, in any order of the parameters, with unknown ones in between and
      arbitrary bytes after the sentinel, the decoder recovers what the announcement says. */
  lemma SedpRoundTrip(le: bool, id0: Byte, idHi: nat, o0: Byte, o1: Byte, ps: seq<Param>, rest: seq<Byte>, f: Fields)
    requires idHi < 128 && Says(ps, f)
    ensures Decode(Encode(le, id0, idHi, o0, o1, ps, rest)) == f
  {
    var pl := Encode(le, id0, idHi, o0, o1, ps, rest);
    var list := PutList(ps, le);
    assert pl == [id0, pl[1], o0, o1] + list + rest;
    assert pl[1] % 2 == if le then 1 else 0;
    assert pl[4..4 + |list|] == list;
    WalksParams(NOTHING, pl, 4, ps, le);
    OrderDoesNotMatter(NOTHING, ps, f);
  }

  // ---------------------------------------------------------------- lists that end otherwise

  /** The parameters ps stand in pl from off to end. */
  predicate ParamsAt(pl: seq<Byte>, off: nat, ps: seq<Param>, le: bool, end: nat)
    requires forall p | p in ps :: ParamOk(p)
    decreases |ps|
  {
    if ps == [] then off == end
    else ParamAt(pl, off, ps[0], le) && ParamsAt(pl, off + 4 + |Body(ps[0], le)|, ps[1..], le, end)
  }

  /** Nothing more is read at off: a sentinel, no room for a header, or a length beyond the payload. */
  predicate StopsAt(pl: seq<Byte>, off: nat, le: bool) {
    off + 4 > |pl| || U16(pl, off, le) == 1 || off + 4 + U16(pl, off + 2, le) > |pl|
  }

  /** Whatever ends the list, sentinel or not, the decoder has what the parameters before it say. */
  lemma {:induction false} ListIsRead(f: Fields, pl: seq<Byte>, off: nat, ps: seq<Param>, le: bool, end: nat)
    requires (f.guid.Some? ==> |f.guid.value| == 16) && forall p | p in ps :: ParamOk(p)
    requires ParamsAt(pl, off, ps, le, end) && StopsAt(pl, end, le)
    ensures Walk(f, pl, off, le) == NoteAll(f, ps)
    decreases |ps|
  {
    hide Body, ParamAt, ParamOk, U16, Absorb;
    if ps != [] {
      assert ps[0] in ps;
      WalksOne(f, pl, off, ps[0], le, off + 4 + |Body(ps[0], le)|);
      NoteKeepsGuid(f, ps[0]);
      ListIsRead(Note(f, ps[0]), pl, off + 4 + |Body(ps[0], le)|, ps[1..], le, end);
    }
  }

  lemma NoteKeepsGuid(f: Fields, p: Param)
    requires ParamOk(p) && (f.guid.Some? ==> |f.guid.value| == 16)
    ensures Note(f, p).guid.Some? ==> |Note(f, p).guid.value| == 16
  {
  }
}
