/** The program state of inspector.cpp, updated in place by the packet handler. */
module Inspector {
  import opened Options
  import opened Wire
  import opened Registry
  import opened Output
  import opened Frames
  import Sedp
  import Rtps

  // ---------------------------------------------------------------- the item at an offset, case by case

  lemma DataItem(msg: seq<Byte>, off: nat, pl: nat)
    requires off + 24 <= |msg| && msg[off] == Rtps.SM_DATA
    requires var qos, next := off + 8 + U16(msg, off + 6, Rtps.Flag(msg[off + 1], 1)), Rtps.NextOff(msg, off);
             pl == if Rtps.Flag(msg[off + 1], 2) && qos + 4 <= next
                   then Rtps.SkipQos(msg, qos, next, Rtps.Flag(msg[off + 1], 1)) else qos
    ensures var next := Rtps.NextOff(msg, off);
            Rtps.ItemAt(msg, off) ==
            Rtps.Data(msg[off + 8..off + 12], msg[off + 12..off + 16],
                      Rtps.SeqNo(msg, off + 16, Rtps.Flag(msg[off + 1], 1)), Rtps.Flag(msg[off + 1], 4),
                      if pl < next then msg[pl..next] else [])
    ensures ItemOk(Rtps.ItemAt(msg, off))
  {
    hide U16, Rtps.SkipQos, Rtps.SeqNo, Rtps.NextOff;
    assert pl == Rtps.PayloadOff(msg, off);
  }

  lemma HeartbeatItem(mode: PrintMode, s: State, prefix: seq<Byte>, msg: seq<Byte>, off: nat)
    requires |prefix| == 12 && off + 32 <= |msg| && msg[off] == Rtps.SM_HEARTBEAT
    ensures ItemOk(Rtps.ItemAt(msg, off))
    ensures Handle(mode, s, prefix, Rtps.ItemAt(msg, off)) ==
            if IsSedp(msg[off + 8..off + 12]) && s.endpoints == map[] && !mode.Traffic?
            then s.(events := s.events + [DiscoveryMissed]) else s
  {
    hide Rtps.NextOff;
  }

  lemma OtherItem(mode: PrintMode, s: State, prefix: seq<Byte>, msg: seq<Byte>, off: nat)
    requires |prefix| == 12 && off + 4 <= |msg|
    requires if msg[off] == Rtps.SM_DATA then off + 24 > |msg|
             else msg[off] != Rtps.SM_HEARTBEAT || off + 32 > |msg|
    ensures ItemOk(Rtps.ItemAt(msg, off)) && Handle(mode, s, prefix, Rtps.ItemAt(msg, off)) == s
  {
    hide Rtps.NextOff;
  }

  // ---------------------------------------------------------------- the program's state

  /** The globals of the program.  `output` is what it prints. */
  class Inspector {
    const mode: PrintMode
    var endpoints: map<string, EndpointInfo>
    var captured: nat
    var rtps: nat
    var sedp: nat
    var data: nat
    var output: seq<Event>

    constructor (mode: PrintMode)
      ensures this.mode == mode && captured == 0 && Now() == EMPTY
    {
      this.mode := mode;
      endpoints, captured, rtps, sedp, data, output := map[], 0, 0, 0, 0, [];
    }

    ghost function Now(): State
      reads this
    {
      State(endpoints, rtps, sedp, data, output)
    }

    method DecodePayload(topic: seq<Byte>, pl: seq<Byte>) returns (shown: Shown)
      ensures shown == Show(topic, pl)
    {
      hide IsText, U32, CdrString, Hex;
      if IsText(topic, "PingPongTopic") || IsText(topic, "PongBazTopic") {
        return if |pl| < 8 then TooShort else Value(Signed32(U32(pl, 4, pl[1] % 2 == 1)));
      }
      if IsText(topic, "BazPongTopic") {
        return if |pl| < 8 then TooShort else Text(CdrString(pl, |pl|, 4, pl[1] % 2 == 1));
      }
      var hex := "";
      var show := if |pl| < 24 then |pl| else 24;
      for i := 0 to show
        invariant hex == HexOf(pl[..i])
      {
        assert pl[..i + 1][..i] == pl[..i];
        hex := hex + Hex(pl[i]);
      }
      assert |pl| < 24 ==> pl[..show] == pl;
      shown := HexDump(hex, |pl| > 24);
    }

    /** decode_sedp */
    method DecodeSedp(prefix: seq<Byte>, writer: seq<Byte>, pl: seq<Byte>, isPub: bool)
      requires |prefix| == 12 && |writer| == 4
      modifies this
      ensures captured == old(captured)
      ensures var f := Sedp.Decode(pl);
              Now() == if f.topic == [] then old(Now())
                       else Register(mode, old(Now()), GuidOf(f, prefix, writer),
                                     EndpointInfo(f.topic, f.typeName, isPub))
    {
      hide FmtGuid, Sedp.Decode;
      var f := Sedp.DecodeFields(pl);
      if f.topic == [] {
        return;
      }
      var guid := FmtGuid(if f.guid.Some? then f.guid.value else prefix + writer);
      var again := guid in endpoints;
      endpoints := endpoints[guid := EndpointInfo(f.topic, f.typeName, isPub)];
      if !mode.Traffic? {
        output := output + [Announced(isPub, again, guid, f.topic, f.typeName)];
      }
    }

    /** The inner loop over the inline QoS. */
    method SkipInlineQos(data: seq<Byte>, qos: nat, limit: nat, le: bool) returns (q: nat)
      requires limit <= |data|
      ensures q == Rtps.SkipQos(data, qos, limit, le)
    {
      q := qos;
      while q + 4 <= limit
        invariant Rtps.SkipQos(data, qos, limit, le) == Rtps.SkipQos(data, q, limit, le)
        decreases limit - q
      {
        var pid := U16(data, q, le);
        var plen := U16(data, q + 2, le);
        q := q + 4 + plen;
        if pid == Rtps.PID_SENTINEL {
          return;
        }
      }
    }

    /** The branches of handle_rtps on a DATA whose fields have been read. */
    method HandleData(prefix: seq<Byte>, reader: seq<Byte>, writer: seq<Byte>, seqNo: int, hasData: bool, pl: seq<Byte>)
      requires |prefix| == 12 && |reader| == 4 && |writer| == 4
      modifies this
      ensures captured == old(captured)
      ensures Now() == Handle(mode, old(Now()), prefix, Rtps.Data(reader, writer, seqNo, hasData, pl))
    {
      hide FmtGuid, FmtEntity, FmtPrefix, Show, Sedp.Decode;
      var isSpdp := writer == EID_SPDP_WRITER;
      var isSedpPub := writer == EID_SEDP_PUB_WRITER;
      var isSedpSub := writer == EID_SEDP_SUB_WRITER;
      if isSpdp {
        if !mode.Traffic? {
          output := output + [Participant(FmtPrefix(prefix))];
        }
      } else if (isSedpPub || isSedpSub) && hasData && |pl| > 0 {
        sedp := sedp + 1;
        DecodeSedp(prefix, writer, pl, isSedpPub);
      } else if !isSedpPub && !isSedpSub && hasData && |pl| > 0 {
        data := data + 1;
        if !mode.Reannounce? {
          var guid := FmtGuid(prefix + writer);
          var known := if guid in endpoints then Some(endpoints[guid].topic) else None;
          var shown := DecodePayload(if known.Some? then known.value else [], pl);
          output := output + [UserData(guid, FmtEntity(reader), known, seqNo, shown)];
        }
      }
    }

    /** One iteration of the submessage loop. */
    method HandleSubmessage(prefix: seq<Byte>, msg: seq<Byte>, off: nat) returns (next: nat)
      requires |prefix| == 12 && off + 4 <= |msg|
      modifies this
      ensures captured == old(captured)
      ensures next == Rtps.NextOff(msg, off)
      ensures ItemOk(Rtps.ItemAt(msg, off)) && Now() == Handle(mode, old(Now()), prefix, Rtps.ItemAt(msg, off))
    {
      hide Handle, Rtps.ItemAt, Rtps.PayloadOff, Rtps.SkipQos, U16, Rtps.SeqNo;
      var id, flags := msg[off], msg[off + 1];
      var le := Rtps.Flag(flags, 1);
      var len := U16(msg, off + 2, le);
      var body := off + 4;
      next := if len == 0 then |msg| else off + 4 + len;
      if next > |msg| {
        next := |msg|;
      }
      if id == Rtps.SM_DATA {
        if body + 20 > |msg| {
          OtherItem(mode, Now(), prefix, msg, off);
          return;
        }
        var pl := body + 4 + U16(msg, body + 2, le);
        if Rtps.Flag(flags, 2) && pl + 4 <= next {
          pl := SkipInlineQos(msg, pl, next, le);
        }
        DataItem(msg, off, pl);
        HandleData(prefix, msg[body + 4..body + 8], msg[body + 8..body + 12], Rtps.SeqNo(msg, body + 12, le),
                   Rtps.Flag(flags, 4), if pl < next then msg[pl..next] else []);
      } else if id == Rtps.SM_HEARTBEAT && body + 28 <= |msg| {
        var writer := msg[body + 4..body + 8];
        var fromSedp := writer == EID_SEDP_PUB_WRITER || writer == EID_SEDP_SUB_WRITER;
        HeartbeatItem(mode, Now(), prefix, msg, off);
        if fromSedp && endpoints == map[] && !mode.Traffic? {
          output := output + [DiscoveryMissed];
        }
      } else {
        OtherItem(mode, Now(), prefix, msg, off);
      }
    }

    /** handle_rtps: the one-pass loop does what parsing the message and folding over its items does. */
    method HandleRtps(msg: seq<Byte>)
      modifies this
      ensures captured == old(captured)
      ensures Now() == HandleMessage(mode, old(Now()), msg)
    {
      if |msg| < 20 || msg[..4] != Rtps.MAGIC {
        return;
      }
      rtps := rtps + 1;
      var prefix := msg[8..20];
      var off := Rtps.HEADER_SIZE;
      WalkYieldsOkItems(msg, off);
      ghost var goal := HandleAll(mode, Now(), prefix, Rtps.Items(msg, off));
      while off + 4 <= |msg|
        invariant captured == old(captured)
        invariant ItemsOk(Rtps.Items(msg, off))
        invariant goal == HandleAll(mode, Now(), prefix, Rtps.Items(msg, off))
        decreases |msg| - off
      {
        ghost var rest := Rtps.Items(msg, Rtps.NextOff(msg, off));
        assert Rtps.Items(msg, off) == [Rtps.ItemAt(msg, off)] + rest;
        assert forall item | item in rest :: item in Rtps.Items(msg, off);
        off := HandleSubmessage(prefix, msg, off);
      }
    }

    /** The first half of packet_handler. */
    method StripLink(link: Link, hostLe: bool, pkt: seq<Byte>) returns (ip: Option<seq<Byte>>)
      ensures ip == IpPart(link, hostLe, pkt)
    {
      ip := None;
      if link == Ethernet {
        if |pkt| < 14 {
          return;
        }
        var etype, off := U16(pkt, 12, false), 14;
        if etype == ETHERTYPE_VLAN && |pkt| >= 18 {
          etype, off := U16(pkt, 16, false), 18;
        }
        if etype != ETHERTYPE_IPV4 {
          return;
        }
        ip := Some(pkt[off..]);
      } else if link == BsdNull || link == BsdLoop {
        if |pkt| < 4 || U32(pkt, 0, link == BsdNull && hostLe) != AF_INET {
          return;
        }
        ip := Some(pkt[4..]);
      }
    }

    /** The second half: IPv4 and UDP headers, the smaller of declared and captured length. */
    method StripUdp(ip: seq<Byte>) returns (m: Option<seq<Byte>>)
      ensures m == UdpPart(ip)
    {
      m := None;
      if |ip| < 20 || ip[0] / 16 != 4 {
        return;
      }
      var ihl := ip[0] % 16 * 4;
      if ihl < 20 || ihl > |ip| || ip[9] != IPPROTO_UDP {
        return;
      }
      var udp := ip[ihl..];
      if |udp| < 8 {
        return;
      }
      var len := U16(udp, 4, false);
      if len < 8 {
        return;
      }
      var n := if len - 8 < |udp| - 8 then len - 8 else |udp| - 8;
      assert udp[8..8 + n] == if len < |udp| then udp[8..len] else udp[8..];
      m := Some(udp[8..8 + n]);
    }

    /** packet_handler */
    method HandlePacket(link: Link, hostLe: bool, pkt: seq<Byte>)
      modifies this
      ensures var m := Message(link, hostLe, pkt);
              if m.None? then captured == old(captured) && Now() == old(Now())
              else captured == old(captured) + 1 && Now() == HandleMessage(mode, old(Now()), m.value)
    {
      var ip := StripLink(link, hostLe, pkt);
      if ip.None? {
        return;
      }
      var m := StripUdp(ip.value);
      if m.None? {
        return;
      }
      captured := captured + 1;
      HandleRtps(m.value);
    }

    /** The loop of the program over the packets of its interfaces.  From the start, the registry is the latest
        announcement of each GUID, and exactly what the messages show has been printed, whatever the packets. */
    method HandlePackets(hostLe: bool, packets: seq<Packet>)
      modifies this
      ensures captured == old(captured) + |MessagesOf(hostLe, packets)|
      ensures Now() == HandleCapture(mode, old(Now()), MessagesOf(hostLe, packets))
      ensures old(Now()) == EMPTY ==>
                Agrees(endpoints, AnnouncedIn(MessagesOf(hostLe, packets))) &&
                output == ShowsCapture(mode, MessagesOf(hostLe, packets))
    {
      hide HandleMessage, Agrees, AnnouncedIn, ShowsCapture;
      for i := 0 to |packets|
        invariant captured == old(captured) + |MessagesOf(hostLe, packets[..i])|
        invariant Now() == HandleCapture(mode, old(Now()), MessagesOf(hostLe, packets[..i]))
      {
        assert packets[..i + 1][..i] == packets[..i];
        HandlePacket(packets[i].link, hostLe, packets[i].bytes);
      }
      assert packets[..|packets|] == packets;
      RegistryIsLatest(mode, MessagesOf(hostLe, packets));
      CaptureShows(mode, MessagesOf(hostLe, packets));
    }
  }
}
