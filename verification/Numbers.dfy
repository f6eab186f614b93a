/** The numbers on the wire that inspector.cpp knows: what an encoder writes, byte by byte, and what is handed on. */
module Numbers {
  import opened Options
  import opened Wire
  import opened Registry
  import opened Frames
  import Sedp
  import Rtps

  // ---------------------------------------------------------------- parameter lists

  function Number16(n: nat, le: bool): seq<Byte>
    requires n < 256
  {
    if le then [n, 0] else [0, n]
  }

  /** A parameter begins with 5 for a topic, 7 for a type and 90 for a GUID, and a list ends with 1. */
  lemma ParameterNumbers(p: Sedp.Param, le: bool)
    requires Sedp.ParamOk(p)
    ensures p.Topic? ==> Sedp.PutParam(p, le)[..2] == Number16(5, le)
    ensures p.TypeName? ==> Sedp.PutParam(p, le)[..2] == Number16(7, le)
    ensures p.EndpointGuid? ==> Sedp.PutParam(p, le)[..2] == Number16(90, le)
    ensures Sedp.PutList([], le)[..2] == Number16(1, le)
  {
    hide Sedp.Body;
  }

  // ---------------------------------------------------------------- submessages

  /** A message begins with the letters RTPS; its participant stands in bytes 8 to 19. */
  lemma HeaderNumbers(versionVendor: seq<Byte>, prefix: seq<Byte>, ss: seq<Rtps.Sub>)
    requires |versionVendor| == 4 && |prefix| == 12 && forall s | s in ss :: Rtps.SubOk(s)
    ensures IsText(Rtps.Encode(versionVendor, prefix, ss)[..4], "RTPS")
    ensures Rtps.Encode(versionVendor, prefix, ss)[8..20] == prefix
  {
    hide Rtps.PutSubs;
    var message := Rtps.Encode(versionVendor, prefix, ss);
    assert message[..4] == Rtps.MAGIC;
    assert 'R' as int == 0x52 && 'T' as int == 0x54 && 'P' as int == 0x50 && 'S' as int == 0x53;
  }

  /** A DATA is 21 and a HEARTBEAT 7; bit 0 of the flags is the byte order, bit 1 of a DATA inline QoS, bit 2 data. */
  lemma SubmessageNumbers(s: Rtps.Sub)
    requires Rtps.SubOk(s)
    ensures |Rtps.PutSub(s)| >= 4
    ensures s.DataSub? <==> Rtps.PutSub(s)[0] == 21
    ensures s.HeartbeatSub? <==> Rtps.PutSub(s)[0] == 7
    ensures Rtps.PutSub(s)[1] % 2 == if s.le then 1 else 0
    ensures s.DataSub? ==> Rtps.PutSub(s)[1] / 2 % 2 == if s.qos.Some? then 1 else 0
    ensures s.DataSub? ==> Rtps.PutSub(s)[1] / 4 % 2 == if s.hasData then 1 else 0
  {
    hide Rtps.BodyOf, Put16;
    Rtps.ReadsFlags(s);
  }

  /** The writers of discovery data are 000003c2 for publications and 000004c2 for subscriptions, of participants
      000100c2; a publication makes its endpoint a writer. */
  lemma WriterNumbers(prefix: seq<Byte>, item: Rtps.Item)
    requires |prefix| == 12 && ItemOk(item) && item.Data?
    ensures IsSedp(item.writer) <==> item.writer == [0, 0, 3, 0xC2] || item.writer == [0, 0, 4, 0xC2]
    ensures IsUserData(item) ==> !IsSedp(item.writer) && item.writer != [0, 1, 0, 0xC2]
    ensures item.hasData && item.payload != [] && !IsSedp(item.writer) && item.writer != [0, 1, 0, 0xC2] ==>
              IsUserData(item)
    ensures Announces(prefix, item).Some? ==>
              (Announces(prefix, item).value.info.isWriter <==> item.writer == [0, 0, 3, 0xC2])
  {
    hide Sedp.Decode;
  }

  // ---------------------------------------------------------------- link layer, IPv4, UDP

  /** What is handed on of a frame: IPv4 is 0x0800 in an Ethernet frame, behind a tag 0x8100 or not, and the family 2 of
      the BSD loopbacks, in the order of the host or the network. */
  lemma LinkNumbers(hostLe: bool, pkt: seq<Byte>)
    ensures IpPart(Ethernet, hostLe, pkt) ==
            if |pkt| >= 18 && pkt[12] == 0x81 && pkt[13] == 0 then
              if pkt[16] == 8 && pkt[17] == 0 then Some(pkt[18..]) else None
            else if |pkt| >= 14 && pkt[12] == 8 && pkt[13] == 0 then Some(pkt[14..]) else None
    ensures IpPart(BsdLoop, hostLe, pkt) == if |pkt| >= 4 && pkt[..4] == [0, 0, 0, 2] then Some(pkt[4..]) else None
    ensures IpPart(BsdNull, hostLe, pkt) ==
            if |pkt| >= 4 && pkt[..4] == (if hostLe then [2, 0, 0, 0] else [0, 0, 0, 2]) then Some(pkt[4..]) else None
    ensures IpPart(Unsupported, hostLe, pkt) == None
  {
    hide U32;
    if |pkt| >= 4 {
      FamilyIsTwo(pkt, hostLe);
      FamilyIsTwo(pkt, false);
    }
  }

  lemma FamilyIsTwo(pkt: seq<Byte>, le: bool)
    requires |pkt| >= 4
    ensures U32(pkt, 0, le) == 2 <==> pkt[..4] == if le then [2, 0, 0, 0] else [0, 0, 0, 2]
  {
    BytesOf32(pkt, 0, le);
    assert pkt[..4] == [pkt[0], pkt[1], pkt[2], pkt[3]];
  }

  /** What is handed on of an IPv4 packet: protocol 17, the header length in words in the first byte, the declared
      length in bytes 4 and 5 of the UDP header, cut to what was captured. */
  lemma UdpNumbers(ip: seq<Byte>)
    ensures UdpPart(ip) ==
            if |ip| < 20 || !(0x45 <= ip[0] <= 0x4F) || ip[9] != 17 then None
            else
              var at: nat := 4 * (ip[0] - 0x40);
              if at + 8 > |ip| then None
              else
                var hi: nat, lo: nat := ip[at + 4], ip[at + 5];
                var end := at + 256 * hi + lo;
                if end < at + 8 then None else if end < |ip| then Some(ip[at + 8..end]) else Some(ip[at + 8..])
  {
    if |ip| >= 20 && ip[0] / 16 == 4 {
      var at := ip[0] % 16 * 4;
      if 20 <= at <= |ip| {
        SuffixReads(ip, at);
      }
    }
  }

  lemma SuffixReads(ip: seq<Byte>, at: nat)
    requires at <= |ip|
    ensures var udp := ip[at..];
            && |udp| == |ip| - at
            && (|udp| >= 8 ==> udp[4] == ip[at + 4] && udp[5] == ip[at + 5] && udp[8..] == ip[at + 8..])
            && forall n | 8 <= n <= |udp| :: udp[8..n] == ip[at + 8..at + n]
  {
    var udp := ip[at..];
    forall n | 8 <= n <= |udp| ensures udp[8..n] == ip[at + 8..at + n] {
      SliceOfSuffix(ip, at, 8, n);
    }
  }

  /** A datagram of which only the first part was captured is handed on as far as it was. */
  lemma CutDatagram(h: Headers, message: seq<Byte>, n: nat)
    requires HeadersOk(h) && |message| + 8 < 0x1_0000 && n <= |message|
    ensures 8 + n <= |PutUdp(h, message)|
    ensures UdpPart(PutIp(h) + PutUdp(h, message)[..8 + n]) == Some(message[..n])
  {
    hide Put16;
    var udp := PutUdp(h, message);
    var whole := udp + [];
    UdpHeaderReads(h, message, []);
    assert whole == udp;
    var cut := udp[..8 + n];
    IpHeaderReads(h, cut);
    var ip := PutIp(h) + cut;
    assert ip[10 + |h.options|..] == cut;
    assert cut[8..] == udp[8..|message| + 8][..n] == message[..n];
    SameLength(udp, 8 + n);
  }

  lemma SameLength(udp: seq<Byte>, n: nat)
    requires 8 <= n <= |udp|
    ensures U16(udp[..n], 4, false) == U16(udp, 4, false)
  {
  }
}
