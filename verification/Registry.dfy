/** What inspector.cpp does with the items of RTPS messages: the GUID-to-endpoint registry and the events shown,
    as a fold over the items of a whole capture. */
module Registry {
  import opened Options
  import opened Wire
  import Sedp
  import Rtps

  const EID_SPDP_WRITER: seq<Byte> := [0x00, 0x01, 0x00, 0xC2]
  const EID_SEDP_PUB_WRITER: seq<Byte> := [0x00, 0x00, 0x03, 0xC2]
  const EID_SEDP_SUB_WRITER: seq<Byte> := [0x00, 0x00, 0x04, 0xC2]

  datatype PrintMode = Both | Reannounce | Traffic

  datatype EndpointInfo = EndpointInfo(topic: seq<Byte>, typeName: seq<Byte>, isWriter: bool)

  /** How a user payload is shown. */
  datatype Shown = TooShort | Value(v: int) | Text(s: seq<Byte>) | HexDump(hex: string, more: bool)

  /** What is printed, in order. */
  datatype Event =
    | Participant(prefix: string)
    | Announced(isPub: bool, again: bool, guid: string, topic: seq<Byte>, typeName: seq<Byte>)
    | UserData(writer: string, reader: string, known: Option<seq<Byte>>, seqNo: int, shown: Shown)
    | DiscoveryMissed

  datatype State = State(
    endpoints: map<string, EndpointInfo>,
    rtps: nat,
    sedp: nat,
    data: nat,
    events: seq<Event>)

  const EMPTY := State(map[], 0, 0, 0, [])

  // ---------------------------------------------------------------- payloads

  /** The comparison of a string of bytes with a literal. */
  predicate IsText(b: seq<Byte>, s: string) {
    |b| == |s| && forall i | 0 <= i < |b| :: (b[i] as int) == (s[i] as int)
  }

  function HexOf(pl: seq<Byte>): string {
    if pl == [] then "" else HexOf(pl[..|pl| - 1]) + Hex(pl[|pl| - 1])
  }

  /** decode_payload: an int32, a string, or the first 24 bytes in hexadecimal. */
  function Show(topic: seq<Byte>, pl: seq<Byte>): Shown {
    if IsText(topic, "PingPongTopic") || IsText(topic, "PongBazTopic") then
      if |pl| < 8 then TooShort else Value(Signed32(U32(pl, 4, pl[1] % 2 == 1)))
    else if IsText(topic, "BazPongTopic") then
      if |pl| < 8 then TooShort else Text(CdrString(pl, |pl|, 4, pl[1] % 2 == 1))
    else HexDump(HexOf(if |pl| < 24 then pl else pl[..24]), |pl| > 24)
  }

  // ---------------------------------------------------------------- one item

  predicate IsSedp(writer: seq<Byte>) {
    writer == EID_SEDP_PUB_WRITER || writer == EID_SEDP_SUB_WRITER
  }

  predicate IsUserData(item: Rtps.Item) {
    item.Data? && item.hasData && item.payload != [] && !IsSedp(item.writer) && item.writer != EID_SPDP_WRITER
  }

  /** The GUID of a decoded announcement: the one it carries, else the sender's prefix with the writer's id. */
  function GuidOf(f: Sedp.Fields, prefix: seq<Byte>, writer: seq<Byte>): (g: seq<Byte>)
    requires |prefix| == 12 && |writer| == 4 && (f.guid.Some? ==> |f.guid.value| == 16)
    ensures |g| == 16
  {
    if f.guid.Some? then f.guid.value else prefix + writer
  }

  function Register(mode: PrintMode, s: State, guid: seq<Byte>, info: EndpointInfo): State
    requires |guid| == 16
  {
    var key := FmtGuid(guid);
    var event := Announced(info.isWriter, key in s.endpoints, key, info.topic, info.typeName);
    s.(endpoints := s.endpoints[key := info], events := if mode.Traffic? then s.events else s.events + [event])
  }

  function Topic(s: State, guid: string): Option<seq<Byte>> {
    if guid in s.endpoints then Some(s.endpoints[guid].topic) else None
  }

  predicate ItemOk(item: Rtps.Item) {
    match item
    case Data(reader, writer, _, _, _) => |reader| == 4 && |writer| == 4
    case Heartbeat(writer) => |writer| == 4
    case Other => true
  }

  /** One item of a message from the participant `prefix`. */
  function Handle(mode: PrintMode, s: State, prefix: seq<Byte>, item: Rtps.Item): State
    requires |prefix| == 12 && ItemOk(item)
  {
    match item
    case Other => s
    case Heartbeat(writer) =>
      if IsSedp(writer) && s.endpoints == map[] && !mode.Traffic? then s.(events := s.events + [DiscoveryMissed]) else s
    case Data(reader, writer, seqNo, hasData, pl) =>
      if writer == EID_SPDP_WRITER then
        if mode.Traffic? then s else s.(events := s.events + [Participant(FmtPrefix(prefix))])
      else if !hasData || pl == [] then s
      else if IsSedp(writer) then
        var f := Sedp.Decode(pl);
        var s1 := s.(sedp := s.sedp + 1);
        if f.topic == [] then s1
        else Register(mode, s1, GuidOf(f, prefix, writer),
                      EndpointInfo(f.topic, f.typeName, writer == EID_SEDP_PUB_WRITER))
      else
        var s1 := s.(data := s.data + 1);
        if mode.Reannounce? then s1
        else
          var key := FmtGuid(prefix + writer);
          var topic := Topic(s, key);
          s1.(events := s1.events + [UserData(key, FmtEntity(reader), topic, seqNo,
                                              Show(if topic.Some? then topic.value else [], pl))])
  }

  predicate ItemsOk(items: seq<Rtps.Item>) {
    forall item | item in items :: ItemOk(item)
  }

  function HandleAll(mode: PrintMode, s: State, prefix: seq<Byte>, items: seq<Rtps.Item>): State
    requires |prefix| == 12 && ItemsOk(items)
    decreases |items|
  {
    if items == [] then s else HandleAll(mode, Handle(mode, s, prefix, items[0]), prefix, items[1..])
  }

  lemma {:induction false} WalkYieldsOkItems(data: seq<Byte>, off: nat)
    ensures ItemsOk(Rtps.Items(data, off))
    decreases |data| - off
  {
    if off + 4 <= |data| {
      WalkYieldsOkItems(data, Rtps.NextOff(data, off));
    }
  }

  /** The effect of one message. */
  function HandleMessage(mode: PrintMode, s: State, data: seq<Byte>): State {
    if !Rtps.HasHeader(data) then s
    else
      WalkYieldsOkItems(data, Rtps.HEADER_SIZE);
      HandleAll(mode, s.(rtps := s.rtps + 1), data[8..20], Rtps.Items(data, Rtps.HEADER_SIZE))
  }

  function HandleCapture(mode: PrintMode, s: State, messages: seq<seq<Byte>>): State
    decreases |messages|
  {
    if messages == [] then s
    else HandleMessage(mode, HandleCapture(mode, s, messages[..|messages| - 1]), messages[|messages| - 1])
  }

  // ---------------------------------------------------------------- the announcements of a capture

  datatype Announcement = Announcement(guid: seq<Byte>, info: EndpointInfo)

  /** The endpoint that an item announces, if any. */
  function Announces(prefix: seq<Byte>, item: Rtps.Item): (a: Option<Announcement>)
    requires |prefix| == 12 && ItemOk(item)
    ensures a.Some? ==> |a.value.guid| == 16
  {
    if item.Data? && item.hasData && item.payload != [] && IsSedp(item.writer) && Sedp.Decode(item.payload).topic != []
    then
      var f := Sedp.Decode(item.payload);
      Some(Announcement(GuidOf(f, prefix, item.writer),
                        EndpointInfo(f.topic, f.typeName, item.writer == EID_SEDP_PUB_WRITER)))
    else None
  }

  function AnnouncedBy(prefix: seq<Byte>, items: seq<Rtps.Item>): (anns: seq<Announcement>)
    requires |prefix| == 12 && ItemsOk(items)
    ensures forall a | a in anns :: |a.guid| == 16
  {
    if items == [] then []
    else
      (if Announces(prefix, items[0]).Some? then [Announces(prefix, items[0]).value] else []) +
      AnnouncedBy(prefix, items[1..])
  }

  function AnnouncedIn(messages: seq<seq<Byte>>): (anns: seq<Announcement>)
    ensures forall a | a in anns :: |a.guid| == 16
    decreases |messages|
  {
    if messages == [] then []
    else
      var before, data := AnnouncedIn(messages[..|messages| - 1]), messages[|messages| - 1];
      if !Rtps.HasHeader(data) then before
      else
        WalkYieldsOkItems(data, Rtps.HEADER_SIZE);
        before + AnnouncedBy(data[8..20], Rtps.Items(data, Rtps.HEADER_SIZE))
  }

  /** The last announcement of a GUID. */
  function Latest(anns: seq<Announcement>, guid: seq<Byte>): Option<EndpointInfo> {
    if anns == [] then None
    else if anns[|anns| - 1].guid == guid then Some(anns[|anns| - 1].info)
    else Latest(anns[..|anns| - 1], guid)
  }

  /** The registry says of every GUID what its latest announcement said. */
  ghost predicate Agrees(endpoints: map<string, EndpointInfo>, anns: seq<Announcement>) {
    && (forall g: seq<Byte> | |g| == 16 ::
          Latest(anns, g) == if FmtGuid(g) in endpoints then Some(endpoints[FmtGuid(g)]) else None)
    && (forall k | k in endpoints :: exists a | a in anns :: |a.guid| == 16 && FmtGuid(a.guid) == k)
  }

  lemma NothingAnnounced()
    ensures Agrees(map[], [])
  {
  }

  lemma RegisterAgrees(endpoints: map<string, EndpointInfo>, anns: seq<Announcement>, a: Announcement)
    requires Agrees(endpoints, anns) && |a.guid| == 16
    ensures Agrees(endpoints[FmtGuid(a.guid) := a.info], anns + [a])
  {
    hide FmtGuid;
    var now, more := endpoints[FmtGuid(a.guid) := a.info], anns + [a];
    assert more[..|anns|] == anns;
    forall g: seq<Byte> | |g| == 16
      ensures Latest(more, g) == if FmtGuid(g) in now then Some(now[FmtGuid(g)]) else None
    {
      if FmtGuid(g) == FmtGuid(a.guid) {
        GuidTextInjective(g, a.guid);
      }
    }
    forall k | k in now ensures exists b | b in more :: |b.guid| == 16 && FmtGuid(b.guid) == k {
      if k == FmtGuid(a.guid) {
        assert a in more;
      } else {
        var b :| b in anns && |b.guid| == 16 && FmtGuid(b.guid) == k;
        assert b in more;
      }
    }
  }

  lemma HandleAgrees(mode: PrintMode, s: State, prefix: seq<Byte>, item: Rtps.Item, anns: seq<Announcement>)
    requires |prefix| == 12 && ItemOk(item) && Agrees(s.endpoints, anns)
    ensures var a := Announces(prefix, item);
            Agrees(Handle(mode, s, prefix, item).endpoints, if a.Some? then anns + [a.value] else anns)
  {
    hide FmtGuid, Agrees, Latest, Show, FmtEntity, FmtPrefix, Sedp.Decode;
    var a := Announces(prefix, item);
    if a.Some? {
      RegisterAgrees(s.endpoints, anns, a.value);
    }
  }

  /** The registry after some more announcements. */
  function RegisterAll(endpoints: map<string, EndpointInfo>, anns: seq<Announcement>): map<string, EndpointInfo>
    requires forall a | a in anns :: |a.guid| == 16
    decreases |anns|
  {
    if anns == [] then endpoints
    else RegisterAll(endpoints[FmtGuid(anns[0].guid) := anns[0].info], anns[1..])
  }

  /** Handling items changes the registry by what they announce, and by nothing else. */
  lemma {:induction false} HandleAllRegisters(mode: PrintMode, s: State, prefix: seq<Byte>, items: seq<Rtps.Item>)
    requires |prefix| == 12 && ItemsOk(items)
    ensures HandleAll(mode, s, prefix, items).endpoints == RegisterAll(s.endpoints, AnnouncedBy(prefix, items))
    decreases |items|
  {
    hide Handle, Announces, FmtGuid;
    if items != [] {
      var a, rest := Announces(prefix, items[0]), AnnouncedBy(prefix, items[1..]);
      HandleRegisters(mode, s, prefix, items[0]);
      HandleAllRegisters(mode, Handle(mode, s, prefix, items[0]), prefix, items[1..]);
      if a.Some? {
        assert ([a.value] + rest)[1..] == rest;
      } else {
        assert [] + rest == rest;
      }
    }
  }

  lemma HandleRegisters(mode: PrintMode, s: State, prefix: seq<Byte>, item: Rtps.Item)
    requires |prefix| == 12 && ItemOk(item)
    ensures var a := Announces(prefix, item);
            Handle(mode, s, prefix, item).endpoints ==
            if a.Some? then s.endpoints[FmtGuid(a.value.guid) := a.value.info] else s.endpoints
  {
    hide FmtGuid, Show, FmtEntity, FmtPrefix, Sedp.Decode;
  }

  lemma {:induction false} HandleAllAgrees(mode: PrintMode, s: State, prefix: seq<Byte>, items: seq<Rtps.Item>,
                                           anns: seq<Announcement>)
    requires |prefix| == 12 && ItemsOk(items) && Agrees(s.endpoints, anns)
    ensures Agrees(HandleAll(mode, s, prefix, items).endpoints, anns + AnnouncedBy(prefix, items))
    decreases |items|
  {
    hide Agrees, Handle, Announces;
    if items == [] {
      assert anns + [] == anns;
    } else {
      var a := Announces(prefix, items[0]);
      var head := if a.Some? then [a.value] else [];
      HandleAgrees(mode, s, prefix, items[0], anns);
      assert anns + [] == anns;
      HandleAllAgrees(mode, Handle(mode, s, prefix, items[0]), prefix, items[1..], anns + head);
      assert anns + head + AnnouncedBy(prefix, items[1..]) == anns + (head + AnnouncedBy(prefix, items[1..]));
    }
  }

  /** After any sequence of messages, in any print mode, the registry maps each GUID to its latest announcement
      with a topic, and holds nothing else. */
  lemma {:induction false} RegistryIsLatest(mode: PrintMode, messages: seq<seq<Byte>>)
    ensures Agrees(HandleCapture(mode, EMPTY, messages).endpoints, AnnouncedIn(messages))
    decreases |messages|
  {
    hide Agrees, HandleAll, AnnouncedBy, Rtps.Items;
    NothingAnnounced();
    if messages != [] {
      var before, data := messages[..|messages| - 1], messages[|messages| - 1];
      RegistryIsLatest(mode, before);
      if Rtps.HasHeader(data) {
        var s := HandleCapture(mode, EMPTY, before);
        WalkYieldsOkItems(data, Rtps.HEADER_SIZE);
        HandleAllAgrees(mode, s.(rtps := s.rtps + 1), data[8..20], Rtps.Items(data, Rtps.HEADER_SIZE),
                        AnnouncedIn(before));
      }
    }
  }

  /** What one more item shows, against the announcements so far: an announcement is flagged as repeated exactly
      when its GUID has been announced before. */
  lemma RepeatFlagIsTrue(mode: PrintMode, s: State, prefix: seq<Byte>, item: Rtps.Item, anns: seq<Announcement>,
                         a: Announcement)
    requires |prefix| == 12 && ItemOk(item) && Agrees(s.endpoints, anns)
    requires Announces(prefix, item) == Some(a)
    ensures Handle(mode, s, prefix, item).events ==
            s.events + if mode.Traffic? then []
                       else [Announced(a.info.isWriter, exists b | b in anns :: b.guid == a.guid, FmtGuid(a.guid),
                                       a.info.topic, a.info.typeName)]
  {
    hide FmtGuid, Latest, Show, Sedp.Decode;
    LatestIffAnnounced(anns, a.guid);
  }

  /** The topic by which a writer is known. */
  function KnownTopic(anns: seq<Announcement>, guid: seq<Byte>): Option<seq<Byte>> {
    match Latest(anns, guid)
    case None => None
    case Some(info) => Some(info.topic)
  }

  /** User data is labelled with its writer's latest announced topic, and decoded accordingly. */
  lemma UserDataIsLabelled(mode: PrintMode, s: State, prefix: seq<Byte>, item: Rtps.Item, anns: seq<Announcement>)
    requires |prefix| == 12 && ItemOk(item) && Agrees(s.endpoints, anns) && IsUserData(item)
    ensures var known := KnownTopic(anns, prefix + item.writer);
            Handle(mode, s, prefix, item).events ==
            s.events + if mode.Reannounce? then []
                       else [UserData(FmtGuid(prefix + item.writer), FmtEntity(item.reader), known, item.seqNo,
                                      Show(if known.Some? then known.value else [], item.payload))]
  {
    hide FmtGuid, FmtEntity, Latest, Show, Sedp.Decode;
    assert |prefix + item.writer| == 16;
  }

  /** The warning that discovery was missed is shown exactly when nothing has been announced. */
  lemma WarnsIffNothingAnnounced(mode: PrintMode, s: State, prefix: seq<Byte>, item: Rtps.Item,
                                 anns: seq<Announcement>)
    requires |prefix| == 12 && ItemOk(item) && Agrees(s.endpoints, anns) && forall a | a in anns :: |a.guid| == 16
    requires item.Heartbeat? && IsSedp(item.writer)
    ensures Handle(mode, s, prefix, item).events ==
            s.events + if anns == [] && !mode.Traffic? then [DiscoveryMissed] else []
  {
    hide FmtGuid, Latest;
    if anns == [] {
      assert s.endpoints.Keys == {};
    } else {
      assert anns[0] in anns;
      LatestIffAnnounced(anns, anns[0].guid);
      assert FmtGuid(anns[0].guid) in s.endpoints;
    }
  }

  lemma {:induction false} LatestIffAnnounced(anns: seq<Announcement>, guid: seq<Byte>)
    ensures Latest(anns, guid).Some? <==> exists a | a in anns :: a.guid == guid
  {
    if anns != [] {
      LatestIffAnnounced(anns[..|anns| - 1], guid);
      assert anns == anns[..|anns| - 1] + [anns[|anns| - 1]];
    }
  }
}
