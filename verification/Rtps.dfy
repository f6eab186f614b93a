/** The submessage walk of handle_rtps in inspector.cpp, as a function from the bytes of a message to the items it
    finds, with a reference encoder (sections 9.4.5.1 and 9.4.5.3 of DDSI-RTPS 2.3). */
module Rtps {
  import opened Options
  import opened Wire

  const SM_DATA := 0x15
  const SM_HEARTBEAT := 0x07
  const PID_SENTINEL := 0x0001
  const HEADER_SIZE := 20
  const MAGIC: seq<Byte> := [0x52, 0x54, 0x50, 0x53]

  /** What the walk hands on: a DATA with its two entity ids, sequence number, D flag and payload; a HEARTBEAT's
      writer; or nothing of interest. */
  datatype Item =
    | Data(reader: seq<Byte>, writer: seq<Byte>, seqNo: int, hasData: bool, payload: seq<Byte>)
    | Heartbeat(writer: seq<Byte>)
    | Other

  // ---------------------------------------------------------------- the decoder

  predicate Flag(flags: Byte, bit: nat)
    requires bit in {1, 2, 4}
  {
    flags / bit % 2 == 1
  }

  /** End of the inline QoS parameter list at q: after the sentinel, or as far as whole headers fit in `limit`. */
  function SkipQos(data: seq<Byte>, q: nat, limit: nat, le: bool): (end: nat)
    requires limit <= |data|
    ensures end >= q && (q + 4 <= limit ==> end >= q + 4)
    decreases limit - q
  {
    if q + 4 > limit then q
    else
      var next := q + 4 + U16(data, q + 2, le);
      if U16(data, q, le) == PID_SENTINEL then next else SkipQos(data, next, limit, le)
  }

  /** The end of the submessage at off: a zero length means the end of the message. */
  function NextOff(data: seq<Byte>, off: nat): (next: nat)
    requires off + 4 <= |data|
    ensures off + 4 <= next <= |data|
  {
    var len := U16(data, off + 2, Flag(data[off + 1], 1));
    if len == 0 || off + 4 + len > |data| then |data| else off + 4 + len
  }

  /** A submessage ends where its length word says, or with the message if that is zero or too much. */
  lemma EndsWithTheMessageIff(data: seq<Byte>, off: nat)
    requires off + 4 <= |data|
    ensures var little := data[off + 1] % 2 == 1;
            var lo: int, hi: int := data[off + if little then 2 else 3], data[off + if little then 3 else 2];
            var len := lo + 256 * hi;
            && (NextOff(data, off) == |data| <==> len == 0 || off + 4 + len >= |data|)
            && (NextOff(data, off) != |data| ==> NextOff(data, off) == off + 4 + len)
  {
  }

  function PayloadOff(data: seq<Byte>, off: nat): nat
    requires off + 24 <= |data|
  {
    var flags, body := data[off + 1], off + 4;
    var qos := body + 4 + U16(data, body + 2, Flag(flags, 1));
    if Flag(flags, 2) && qos + 4 <= NextOff(data, off) then SkipQos(data, qos, NextOff(data, off), Flag(flags, 1))
    else qos
  }

  function SeqNo(data: seq<Byte>, off: nat, le: bool): int
    requires off + 8 <= |data|
  {
    Signed32(U32(data, off, le)) * 0x1_0000_0000 + U32(data, off + 4, le)
  }

  /** The item at off.  The fixed fields of a DATA need only fit in the message, its payload in the submessage. */
  function ItemAt(data: seq<Byte>, off: nat): Item
    requires off + 4 <= |data|
  {
    var flags, body, next := data[off + 1], off + 4, NextOff(data, off);
    if data[off] == SM_DATA then
      if body + 20 > |data| then Other
      else
        var pl := PayloadOff(data, off);
        Data(data[body + 4..body + 8], data[body + 8..body + 12], SeqNo(data, body + 12, Flag(flags, 1)),
             Flag(flags, 4), if pl < next then data[pl..next] else [])
    else if data[off] == SM_HEARTBEAT && body + 28 <= |data| then Heartbeat(data[body + 4..body + 8])
    else Other
  }

  function Items(data: seq<Byte>, off: nat): seq<Item>
    decreases |data| - off
  {
    if off + 4 > |data| then [] else [ItemAt(data, off)] + Items(data, NextOff(data, off))
  }

  /** The test for an RTPS message. */
  predicate HasHeader(data: seq<Byte>) {
    |data| >= HEADER_SIZE && data[..4] == MAGIC
  }

  // ---------------------------------------------------------------- bounds

  /** Whatever the bytes, the payload handed on lies inside its submessage, and its submessage inside the message. */
  lemma PayloadInsideSubmessage(data: seq<Byte>, off: nat)
    requires off + 4 <= |data| && ItemAt(data, off).Data? && ItemAt(data, off).payload != []
    ensures exists pl :: off + 8 <= pl < NextOff(data, off) <= |data| &&
                         ItemAt(data, off).payload == data[pl..NextOff(data, off)]
  {
    var pl := PayloadOff(data, off);
    assert off + 8 <= pl < NextOff(data, off);
  }

  /** The fixed fields of a DATA can be read past the end of its submessage: the test is against the message. */
  lemma FixedFieldsInsideSubmessageIff(data: seq<Byte>, off: nat)
    requires off + 4 <= |data| && ItemAt(data, off).Data?
    ensures off + 24 <= |data|
    ensures off + 24 <= NextOff(data, off) <==>
            var len := U16(data, off + 2, Flag(data[off + 1], 1)); len == 0 || len >= 20
  {
  }

  /** For example in a DATA that declares one byte, followed by 23 bytes of something else. */
  lemma FixedFieldsMayOverrun()
    ensures var data: seq<Byte> := [SM_DATA, 1, 1, 0] + Zeros(24);
            ItemAt(data, 0).Data? && NextOff(data, 0) == 5
  {
    var data: seq<Byte> := [SM_DATA, 1, 1, 0] + Zeros(24);
    assert data[0] == SM_DATA && data[1] == 1 && data[2] == 1 && data[3] == 0;
  }

  // ---------------------------------------------------------------- the encoder

  datatype QosParam = QosParam(pid: nat, bytes: seq<Byte>)

  /** `hi` is the upper five flag bits, `extra` what an extended DATA puts before its inline QoS, and `open` a
      DATA whose length field is zero because it runs to the end of the message. */
  datatype Sub =
    | DataSub(le: bool, hi: nat, extraFlags: nat, extra: seq<Byte>, reader: seq<Byte>, writer: seq<Byte>, seqNo: int,
              qos: Option<seq<QosParam>>, hasData: bool, payload: seq<Byte>, open: bool)
    | HeartbeatSub(le: bool, hi: nat, head: seq<Byte>, writer: seq<Byte>, tail: seq<Byte>)
    | OtherSub(id: Byte, le: bool, hi: nat, bytes: seq<Byte>)

  predicate QosOk(qs: seq<QosParam>) {
    forall q | q in qs :: q.pid < 0x1_0000 && q.pid != PID_SENTINEL && |q.bytes| < 0x1_0000
  }

  /** The fields fit where they are written. */
  predicate FieldsOk(s: Sub) {
    match s
    case DataSub(_, hi, extraFlags, extra, reader, writer, seqNo, qos, _, _, _) =>
      && hi < 32 && extraFlags < 0x1_0000 && |extra| < 0xFFF0 && |reader| == 4 && |writer| == 4
      && -0x8000_0000_0000_0000 <= seqNo < 0x8000_0000_0000_0000
      && (qos.Some? ==> QosOk(qos.value))
    case HeartbeatSub(_, hi, head, writer, tail) =>
      hi < 32 && |head| == 4 && |writer| == 4 && |tail| >= 20
    case OtherSub(id, _, hi, bytes) =>
      id != SM_DATA && id != SM_HEARTBEAT && hi < 128
  }

  predicate SubOk(s: Sub) {
    FieldsOk(s) && ((s.DataSub? && s.open) || |BodyOf(s)| < 0x1_0000)
  }

  function PutQosParams(qs: seq<QosParam>, le: bool): seq<Byte>
    requires QosOk(qs)
  {
    if qs == [] then []
    else Put16(qs[0].pid, le) + Put16(|qs[0].bytes|, le) + qs[0].bytes + PutQosParams(qs[1..], le)
  }

  function PutQos(qs: seq<QosParam>, le: bool): seq<Byte>
    requires QosOk(qs)
  {
    PutQosParams(qs, le) + (Put16(PID_SENTINEL, le) + Put16(0, le))
  }

  /** A signed 64-bit sequence number: high word first, each in the submessage's byte order. */
  function PutSeqNo(n: int, le: bool): (p: seq<Byte>)
    requires -0x8000_0000_0000_0000 <= n < 0x8000_0000_0000_0000
    ensures |p| == 8
  {
    Put32(n / 0x1_0000_0000 % 0x1_0000_0000, le) + Put32(n % 0x1_0000_0000, le)
  }

  /** The twenty fixed bytes of a DATA. */
  function PutFixed(s: Sub): (p: seq<Byte>)
    requires s.DataSub? && FieldsOk(s)
    ensures |p| == 20
  {
    Put16(s.extraFlags, s.le) + Put16(16 + |s.extra|, s.le) + s.reader + s.writer + PutSeqNo(s.seqNo, s.le)
  }

  function QosPart(s: Sub): seq<Byte>
    requires s.DataSub? && FieldsOk(s)
  {
    if s.qos.Some? then PutQos(s.qos.value, s.le) else []
  }

  function BodyOf(s: Sub): seq<Byte>
    requires FieldsOk(s)
  {
    match s
    case DataSub(_, _, _, _, _, _, _, _, _, _, _) =>
      PutFixed(s) + (s.extra + (QosPart(s) + s.payload))
    case HeartbeatSub(_, _, head, writer, tail) => head + writer + tail
    case OtherSub(_, _, _, bytes) => bytes
  }

  function FlagsOf(s: Sub): Byte
    requires SubOk(s)
  {
    match s
    case DataSub(le, hi, _, _, _, _, _, qos, hasData, _, _) =>
      8 * hi + (if hasData then 4 else 0) + (if qos.Some? then 2 else 0) + (if le then 1 else 0)
    case HeartbeatSub(le, hi, _, _, _) => 2 * hi + (if le then 1 else 0)
    case OtherSub(_, le, hi, _) => 2 * hi + (if le then 1 else 0)
  }

  function IdOf(s: Sub): Byte {
    match s
    case DataSub(_, _, _, _, _, _, _, _, _, _, _) => SM_DATA
    case HeartbeatSub(_, _, _, _, _) => SM_HEARTBEAT
    case OtherSub(id, _, _, _) => id
  }

  function LengthField(s: Sub): (len: nat)
    requires SubOk(s)
    ensures len < 0x1_0000
  {
    if s.DataSub? && s.open then 0 else |BodyOf(s)|
  }

  function PutSub(s: Sub): seq<Byte>
    requires SubOk(s)
  {
    [IdOf(s), FlagsOf(s)] + Put16(LengthField(s), s.le) + BodyOf(s)
  }

  function PutSubs(ss: seq<Sub>): seq<Byte>
    requires forall s | s in ss :: SubOk(s)
  {
    if ss == [] then [] else PutSub(ss[0]) + PutSubs(ss[1..])
  }

  function Encode(versionVendor: seq<Byte>, prefix: seq<Byte>, ss: seq<Sub>): seq<Byte>
    requires |versionVendor| == 4 && |prefix| == 12 && forall s | s in ss :: SubOk(s)
  {
    MAGIC + versionVendor + prefix + PutSubs(ss)
  }

  // ---------------------------------------------------------------- what a message says

  function ItemOf(s: Sub): Item {
    match s
    case DataSub(_, _, _, _, reader, writer, seqNo, _, hasData, payload, _) =>
      Data(reader, writer, seqNo, hasData, payload)
    case HeartbeatSub(_, _, _, writer, _) => Heartbeat(writer)
    case OtherSub(_, _, _, _) => Other
  }

  /** The submessage's length field is zero, which the walk reads as "to the end of the message". */
  predicate EndsWalk(s: Sub)
    requires SubOk(s)
  {
    LengthField(s) == 0
  }

  /** The items up to and including the first submessage that ends the walk. */
  function Said(ss: seq<Sub>): seq<Item>
    requires forall s | s in ss :: SubOk(s)
  {
    if ss == [] then [] else [ItemOf(ss[0])] + if EndsWalk(ss[0]) then [] else Said(ss[1..])
  }

  /** Only the last submessage may be open. */
  predicate MessageOk(ss: seq<Sub>) {
    && (forall s | s in ss :: SubOk(s))
    && (forall i | 0 <= i < |ss| - 1 :: !(ss[i].DataSub? && ss[i].open))
  }

  // ---------------------------------------------------------------- round trip

  /** The two words of a signed 64-bit number. */
  lemma HalvesOf(n: int)
    requires -0x8000_0000_0000_0000 <= n < 0x8000_0000_0000_0000
    ensures Signed32(n / 0x1_0000_0000 % 0x1_0000_0000) == n / 0x1_0000_0000
    ensures n / 0x1_0000_0000 * 0x1_0000_0000 + n % 0x1_0000_0000 == n
  {
    var q := n / 0x1_0000_0000;
    assert -0x8000_0000 <= q < 0x8000_0000;
  }

  lemma SeqNoRoundTrip(data: seq<Byte>, off: nat, n: int, le: bool)
    requires -0x8000_0000_0000_0000 <= n < 0x8000_0000_0000_0000
    requires Holds(data, off, PutSeqNo(n, le))
    ensures SeqNo(data, off, le) == n
  {
    hide Put32, U32, Signed32, Holds;
    var hi, lo := n / 0x1_0000_0000 % 0x1_0000_0000, n % 0x1_0000_0000;
    HoldsBoth(data, off, Put32(hi, le), Put32(lo, le));
    HoldsInside(data, off, PutSeqNo(n, le));
    Reads32(data, off, hi, le);
    Reads32(data, off + 4, lo, le);
    HalvesOf(n);
  }

  lemma HoldsInside(data: seq<Byte>, off: nat, piece: seq<Byte>)
    requires Holds(data, off, piece)
    ensures off + |piece| <= |data|
  {
  }

  predicate QosAt(data: seq<Byte>, q: nat, p: QosParam, le: bool)
    requires p.pid < 0x1_0000 && |p.bytes| < 0x1_0000
  {
    q + 4 + |p.bytes| <= |data| && U16(data, q, le) == p.pid && U16(data, q + 2, le) == |p.bytes|
  }

  lemma FourParts(data: seq<Byte>, off: nat, a: seq<Byte>, b: seq<Byte>, c: seq<Byte>, d: seq<Byte>)
    requires Holds(data, off, a + (b + (c + d)))
    ensures Holds(data, off, a) && Holds(data, off + |a|, b)
    ensures Holds(data, off + |a| + |b|, c) && Holds(data, off + |a| + |b| + |c|, d)
  {
    HoldsBoth(data, off, a, b + (c + d));
    HoldsBoth(data, off + |a|, b, c + d);
    HoldsBoth(data, off + |a| + |b|, c, d);
  }

  lemma QosHead(data: seq<Byte>, q: nat, qs: seq<QosParam>, le: bool)
    requires qs != [] && QosOk(qs) && Holds(data, q, PutQos(qs, le))
    ensures QosAt(data, q, qs[0], le)
    ensures Holds(data, q + 4 + |qs[0].bytes|, PutQos(qs[1..], le))
    ensures |PutQos(qs, le)| == 4 + |qs[0].bytes| + |PutQos(qs[1..], le)|
  {
    hide Put16, U16, Holds, PutQos, PutQosParams;
    var pid, len, bytes, rest := Put16(qs[0].pid, le), Put16(|qs[0].bytes|, le), qs[0].bytes, PutQos(qs[1..], le);
    QosSplits(qs, le);
    FourParts(data, q, pid, len, bytes, rest);
    Reads16(data, q, qs[0].pid, le);
    Reads16(data, q + 2, |bytes|, le);
    HoldsInside(data, q + 4, bytes);
  }

  lemma QosSplits(qs: seq<QosParam>, le: bool)
    requires qs != [] && QosOk(qs)
    ensures PutQos(qs, le) ==
            Put16(qs[0].pid, le) + (Put16(|qs[0].bytes|, le) + (qs[0].bytes + PutQos(qs[1..], le)))
  {
    hide Put16;
  }

  /** The bytes from q to end are the parameter list qs and its sentinel. */
  predicate QosListAt(data: seq<Byte>, q: nat, qs: seq<QosParam>, le: bool, end: nat)
    requires QosOk(qs)
    decreases |qs|
  {
    if qs == [] then
      end == q + 4 <= |data| && U16(data, q, le) == PID_SENTINEL && U16(data, q + 2, le) == 0
    else
      QosAt(data, q, qs[0], le) && QosListAt(data, q + 4 + |qs[0].bytes|, qs[1..], le, end)
  }

  lemma QosEnd(data: seq<Byte>, q: nat, le: bool)
    requires Holds(data, q, PutQos([], le))
    ensures |PutQos([], le)| == 4 && QosListAt(data, q, [], le, q + 4)
  {
    HoldsBoth(data, q, [], Put16(PID_SENTINEL, le) + Put16(0, le));
    HoldsBoth(data, q, Put16(PID_SENTINEL, le), Put16(0, le));
    Reads16(data, q, PID_SENTINEL, le);
    Reads16(data, q + 2, 0, le);
  }

  lemma {:induction false} ReadsQos(data: seq<Byte>, q: nat, qs: seq<QosParam>, le: bool)
    requires QosOk(qs) && Holds(data, q, PutQos(qs, le))
    ensures QosListAt(data, q, qs, le, q + |PutQos(qs, le)|)
    decreases |qs|
  {
    if qs == [] {
      QosEnd(data, q, le);
    } else {
      QosHead(data, q, qs, le);
      ReadsQos(data, q + 4 + |qs[0].bytes|, qs[1..], le);
    }
  }

  lemma {:induction false} SkipsQos(data: seq<Byte>, q: nat, qs: seq<QosParam>, le: bool, end: nat, limit: nat)
    requires QosOk(qs) && QosListAt(data, q, qs, le, end) && end <= limit <= |data|
    ensures q + 4 <= end && SkipQos(data, q, limit, le) == end
    decreases |qs|
  {
    if qs != [] {
      SkipsQos(data, q + 4 + |qs[0].bytes|, qs[1..], le, end, limit);
    }
  }

  /** The submessage header and body as the walk reads them. */
  predicate SubAt(data: seq<Byte>, off: nat, s: Sub)
    requires SubOk(s)
  {
    && off + 4 <= |data| && data[off] == IdOf(s) && data[off + 1] == FlagsOf(s)
    && U16(data, off + 2, s.le) == LengthField(s)
    && Holds(data, off + 4, BodyOf(s))
  }

  lemma ReadsSub(data: seq<Byte>, off: nat, s: Sub)
    requires SubOk(s) && Holds(data, off, PutSub(s))
    ensures SubAt(data, off, s) && |PutSub(s)| == 4 + |BodyOf(s)|
  {
    var ids, len := [IdOf(s), FlagsOf(s)], Put16(LengthField(s), s.le);
    HoldsBoth(data, off, ids + len, BodyOf(s));
    HoldsBoth(data, off, ids, len);
    HoldsAt(data, off, ids, 0);
    HoldsAt(data, off, ids, 1);
    Reads16(data, off + 2, LengthField(s), s.le);
  }

  lemma FlagBits(hi: nat, d: nat, q: nat, e: nat)
    requires d <= 1 && q <= 1 && e <= 1
    ensures (8 * hi + 4 * d + 2 * q + e) % 2 == e
    ensures (8 * hi + 4 * d + 2 * q + e) / 2 % 2 == q
    ensures (8 * hi + 4 * d + 2 * q + e) / 4 % 2 == d
  {
    var f := 8 * hi + 4 * d + 2 * q + e;
    assert f / 2 == 4 * hi + 2 * d + q && f / 4 == 2 * hi + d;
  }

  lemma ReadsFlags(s: Sub)
    requires SubOk(s)
    ensures Flag(FlagsOf(s), 1) == s.le
    ensures s.DataSub? ==> Flag(FlagsOf(s), 2) == s.qos.Some? && Flag(FlagsOf(s), 4) == s.hasData
  {
    if s.DataSub? {
      FlagBits(s.hi, if s.hasData then 1 else 0, if s.qos.Some? then 1 else 0, if s.le then 1 else 0);
    }
  }

  lemma ReadsFixed(data: seq<Byte>, body: nat, s: Sub)
    requires s.DataSub? && FieldsOk(s) && Holds(data, body, PutFixed(s))
    ensures U16(data, body + 2, s.le) == 16 + |s.extra|
    ensures data[body + 4..body + 8] == s.reader && data[body + 8..body + 12] == s.writer
    ensures SeqNo(data, body + 12, s.le) == s.seqNo
  {
    var flags, len, sn := Put16(s.extraFlags, s.le), Put16(16 + |s.extra|, s.le), PutSeqNo(s.seqNo, s.le);
    HoldsBoth(data, body, flags + len + s.reader + s.writer, sn);
    HoldsBoth(data, body, flags + len + s.reader, s.writer);
    HoldsBoth(data, body, flags + len, s.reader);
    HoldsBoth(data, body, flags, len);
    Reads16(data, body + 2, 16 + |s.extra|, s.le);
    SeqNoRoundTrip(data, body + 12, s.seqNo, s.le);
  }

  lemma NextAfter(data: seq<Byte>, off: nat, s: Sub)
    requires SubOk(s) && SubAt(data, off, s)
    requires s.DataSub? && s.open ==> off + 4 + |BodyOf(s)| == |data|
    ensures NextOff(data, off) == if EndsWalk(s) then |data| else off + 4 + |BodyOf(s)|
    ensures s.DataSub? ==> NextOff(data, off) == off + 4 + |BodyOf(s)|
  {
    ReadsFlags(s);
  }

  lemma DataParts(data: seq<Byte>, body: nat, s: Sub)
    requires s.DataSub? && FieldsOk(s) && Holds(data, body, BodyOf(s))
    ensures |BodyOf(s)| == 20 + |s.extra| + |QosPart(s)| + |s.payload|
    ensures Holds(data, body, PutFixed(s)) && Holds(data, body + 20 + |s.extra|, QosPart(s))
    ensures Holds(data, body + 20 + |s.extra| + |QosPart(s)|, s.payload)
  {
    FourParts(data, body, PutFixed(s), s.extra, QosPart(s), s.payload);
  }

  /** A DATA submessage at off as the walk reads it, with its payload at pl. */
  predicate DataAt(data: seq<Byte>, off: nat, s: Sub, pl: nat)
    requires s.DataSub?
  {
    && off + 24 <= |data| && data[off] == SM_DATA
    && Flag(data[off + 1], 1) == s.le && Flag(data[off + 1], 2) == s.qos.Some? && Flag(data[off + 1], 4) == s.hasData
    && U16(data, off + 6, s.le) == 16 + |s.extra|
    && data[off + 8..off + 12] == s.reader && data[off + 12..off + 16] == s.writer
    && SeqNo(data, off + 16, s.le) == s.seqNo
    && (if s.qos.Some? then QosOk(s.qos.value) && QosListAt(data, off + 24 + |s.extra|, s.qos.value, s.le, pl)
        else pl == off + 24 + |s.extra|)
    && Holds(data, pl, s.payload) && pl + |s.payload| == NextOff(data, off)
  }

  lemma ReadsData(data: seq<Byte>, off: nat, s: Sub) returns (pl: nat)
    requires SubOk(s) && s.DataSub? && SubAt(data, off, s)
    requires NextOff(data, off) == off + 4 + |BodyOf(s)|
    ensures DataAt(data, off, s, pl)
  {
    hide PutFixed, PutQos, FlagsOf, BodyOf, U16, SeqNo;
    pl := off + 24 + |s.extra| + |QosPart(s)|;
    DataParts(data, off + 4, s);
    ReadsFixed(data, off + 4, s);
    ReadsFlags(s);
    if s.qos.Some? {
      ReadsQos(data, off + 24 + |s.extra|, s.qos.value, s.le);
    }
  }

  lemma ItemIsData(data: seq<Byte>, off: nat, s: Sub, pl: nat)
    requires s.DataSub? && DataAt(data, off, s, pl)
    ensures ItemAt(data, off) == ItemOf(s)
  {
    hide U16, SeqNo, Flag, NextOff;
    if s.qos.Some? {
      SkipsQos(data, off + 24 + |s.extra|, s.qos.value, s.le, pl, NextOff(data, off));
    }
    assert PayloadOff(data, off) == pl;
  }

  lemma SubRoundTrip(data: seq<Byte>, off: nat, s: Sub)
    requires SubOk(s) && SubAt(data, off, s)
    requires s.DataSub? && s.open ==> off + 4 + |BodyOf(s)| == |data|
    ensures ItemAt(data, off) == ItemOf(s)
    ensures NextOff(data, off) == if EndsWalk(s) then |data| else off + 4 + |BodyOf(s)|
  {
    NextAfter(data, off, s);
    if s.DataSub? {
      var pl := ReadsData(data, off, s);
      ItemIsData(data, off, s, pl);
    } else if s.HeartbeatSub? {
      HoldsBoth(data, off + 4, s.head + s.writer, s.tail);
      HoldsBoth(data, off + 4, s.head, s.writer);
    }
  }

  /** The submessages ss stand in data from off to its end. */
  predicate SubsAt(data: seq<Byte>, off: nat, ss: seq<Sub>)
    requires forall s | s in ss :: SubOk(s)
    decreases |ss|
  {
    if ss == [] then off == |data|
    else
      && SubAt(data, off, ss[0])
      && (ss[0].DataSub? && ss[0].open ==> off + 4 + |BodyOf(ss[0])| == |data|)
      && SubsAt(data, off + 4 + |BodyOf(ss[0])|, ss[1..])
  }

  lemma {:induction false} ReadsSubs(data: seq<Byte>, off: nat, ss: seq<Sub>)
    requires MessageOk(ss) && Holds(data, off, PutSubs(ss)) && off + |PutSubs(ss)| == |data|
    ensures SubsAt(data, off, ss)
    decreases |ss|
  {
    hide SubAt, PutSub, BodyOf;
    if ss != [] {
      assert ss[0] in ss && forall i | 0 <= i < |ss[1..]| :: ss[1..][i] == ss[i + 1];
      HoldsBoth(data, off, PutSub(ss[0]), PutSubs(ss[1..]));
      ReadsSub(data, off, ss[0]);
      ReadsSubs(data, off + |PutSub(ss[0])|, ss[1..]);
    }
  }

  lemma FirstSub(data: seq<Byte>, off: nat, ss: seq<Sub>)
    requires (forall s | s in ss :: SubOk(s)) && ss != [] && SubsAt(data, off, ss)
    ensures SubOk(ss[0]) && FieldsOk(ss[0]) && (forall s | s in ss[1..] :: SubOk(s))
    ensures SubAt(data, off, ss[0]) && SubsAt(data, off + 4 + |BodyOf(ss[0])|, ss[1..])
    ensures ss[0].DataSub? && ss[0].open ==> off + 4 + |BodyOf(ss[0])| == |data|
  {
    hide BodyOf, SubAt;
  }

  lemma WalkStep(data: seq<Byte>, off: nat)
    requires off + 4 <= |data|
    ensures Items(data, off) == [ItemAt(data, off)] + Items(data, NextOff(data, off))
  {
    hide ItemAt, NextOff;
  }

  lemma {:induction false} WalkRoundTrip(data: seq<Byte>, off: nat, ss: seq<Sub>)
    requires (forall s | s in ss :: SubOk(s)) && SubsAt(data, off, ss)
    ensures Items(data, off) == Said(ss)
    decreases |ss|
  {
    hide ItemAt, NextOff, BodyOf, SubAt, ItemOf, EndsWalk, SubOk, Items, SubsAt;
    if ss == [] {
      WalkEnds(data, off);
    } else {
      FirstSub(data, off, ss);
      SubRoundTrip(data, off, ss[0]);
      HasHeaderAt(data, off, ss[0]);
      WalkStep(data, off);
      if EndsWalk(ss[0]) {
        WalkIsOver(data);
      } else {
        WalkRoundTrip(data, off + 4 + |BodyOf(ss[0])|, ss[1..]);
      }
    }
  }

  lemma WalkEnds(data: seq<Byte>, off: nat)
    requires SubsAt(data, off, [])
    ensures Items(data, off) == []
  {
  }

  lemma WalkIsOver(data: seq<Byte>)
    ensures Items(data, |data|) == []
  {
  }

  lemma HasHeaderAt(data: seq<Byte>, off: nat, s: Sub)
    requires SubOk(s) && SubAt(data, off, s)
    ensures off + 4 <= |data|
  {
  }

  /** Round trip over whole messages, with either byte order in every submessage: the walk recovers the items up to
      and including the first submessage whose length field is zero, in order. */
  lemma MessageRoundTrip(versionVendor: seq<Byte>, prefix: seq<Byte>, ss: seq<Sub>)
    requires |versionVendor| == 4 && |prefix| == 12 && MessageOk(ss)
    ensures HasHeader(Encode(versionVendor, prefix, ss))
    ensures Encode(versionVendor, prefix, ss)[8..20] == prefix
    ensures Items(Encode(versionVendor, prefix, ss), HEADER_SIZE) == Said(ss)
  {
    var data := Encode(versionVendor, prefix, ss);
    assert data[..4] == MAGIC && data[8..20] == prefix && data[20..20 + |PutSubs(ss)|] == PutSubs(ss);
    ReadsSubs(data, HEADER_SIZE, ss);
    WalkRoundTrip(data, HEADER_SIZE, ss);
  }

  function AllItems(ss: seq<Sub>): seq<Item> {
    if ss == [] then [] else [ItemOf(ss[0])] + AllItems(ss[1..])
  }

  /** Nothing sent is missed exactly when no submessage but the last has a zero length field. */
  lemma {:induction false} NothingMissedIff(ss: seq<Sub>)
    requires forall s | s in ss :: SubOk(s)
    ensures Said(ss) == AllItems(ss) <==> forall i | 0 <= i < |ss| - 1 :: !EndsWalk(ss[i])
    ensures |Said(ss)| <= |AllItems(ss)| == |ss|
    decreases |ss|
  {
    if ss != [] {
      NothingMissedIff(ss[1..]);
      assert forall i | 0 <= i < |ss[1..]| :: ss[1..][i] == ss[i + 1];
      if EndsWalk(ss[0]) {
        assert |ss| > 1 ==> |Said(ss)| == 1 < |AllItems(ss)|;
      } else {
        assert Said(ss)[1..] == Said(ss[1..]) && AllItems(ss)[1..] == AllItems(ss[1..]);
        assert (forall i | 0 <= i < |ss| - 1 :: !EndsWalk(ss[i])) ==>
            forall i | 0 <= i < |ss[1..]| - 1 :: !EndsWalk(ss[1..][i]);
        if forall i | 0 <= i < |ss[1..]| - 1 :: !EndsWalk(ss[1..][i]) {
          forall i | 0 <= i < |ss| - 1 ensures !EndsWalk(ss[i]) {
            assert i > 0 ==> ss[1..][i - 1] == ss[i];
          }
        }
      }
    }
  }

  /** For example a PAD of length zero hides everything that stands behind it in its message. */
  lemma PadHidesTheRest(versionVendor: seq<Byte>, prefix: seq<Byte>, ss: seq<Sub>)
    requires |versionVendor| == 4 && |prefix| == 12 && ss != [] && MessageOk([PAD] + ss)
    ensures Items(Encode(versionVendor, prefix, [PAD] + ss), HEADER_SIZE) == [Other]
    ensures |AllItems([PAD] + ss)| > 1
  {
    MessageRoundTrip(versionVendor, prefix, [PAD] + ss);
    NothingMissedIff([PAD] + ss);
    assert ([PAD] + ss)[0] == PAD && EndsWalk(PAD);
  }

  const PAD := OtherSub(0x01, true, 0, [])

  /** A DATA of a user's writer with a payload of four bytes. */
  const PING := DataSub(true, 0, 0, [], [0, 0, 0, 0], [0, 0, 1, 3], 1, None, true, [0, 1, 0, 0], false)

  lemma PingIsOk()
    ensures SubOk(PING) && MessageOk([PING]) && |BodyOf(PING)| == 24 && ItemOf(PING).Data? && !EndsWalk(PING)
  {
    assert FieldsOk(PING) && |BodyOf(PING)| == 24;
  }

  /** A DATA stands behind it. */
  lemma PadHidesData()
    ensures MessageOk([PAD, PING]) && ItemOf(PING).Data? && Said([PAD, PING]) == [Other]
  {
    PingIsOk();
    assert FieldsOk(PAD) && BodyOf(PAD) == [];
    assert EndsWalk(PAD);
  }
}
