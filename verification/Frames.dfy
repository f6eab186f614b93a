/** From captured packet to RTPS message in inspector.cpp: link layer, IPv4 and UDP, with a reference encoder; and what
    a whole capture of such packets registers and prints. */
module Frames {
  import opened Options
  import opened Wire
  import opened Registry
  import opened Output
  import Sedp
  import Rtps

  // ---------------------------------------------------------------- link layer, IPv4, UDP

  datatype Link = Ethernet | BsdNull | BsdLoop | Unsupported

  const AF_INET := 2
  const ETHERTYPE_IPV4 := 0x0800
  const ETHERTYPE_VLAN := 0x8100
  const IPPROTO_UDP := 17

  /** The IPv4 packet in a frame.  `hostLe` is the byte order of the capturing host. */
  function IpPart(link: Link, hostLe: bool, pkt: seq<Byte>): Option<seq<Byte>> {
    match link
    case Ethernet =>
      if |pkt| < 14 then None
      else if U16(pkt, 12, false) == ETHERTYPE_VLAN && |pkt| >= 18 then
        if U16(pkt, 16, false) == ETHERTYPE_IPV4 then Some(pkt[18..]) else None
      else if U16(pkt, 12, false) == ETHERTYPE_IPV4 then Some(pkt[14..])
      else None
    case BsdNull => if |pkt| >= 4 && U32(pkt, 0, hostLe) == AF_INET then Some(pkt[4..]) else None
    case BsdLoop => if |pkt| >= 4 && U32(pkt, 0, false) == AF_INET then Some(pkt[4..]) else None
    case Unsupported => None
  }

  /** The UDP payload of an IPv4 packet, cut to what was captured. */
  function UdpPart(ip: seq<Byte>): Option<seq<Byte>> {
    if |ip| < 20 || ip[0] / 16 != 4 then None
    else
      var ihl := ip[0] % 16 * 4;
      if ihl < 20 || ihl > |ip| || ip[9] != IPPROTO_UDP || |ip| - ihl < 8 then None
      else
        var udp := ip[ihl..];
        var len := U16(udp, 4, false);
        if len < 8 then None else Some(if len < |udp| then udp[8..len] else udp[8..])
  }

  function Message(link: Link, hostLe: bool, pkt: seq<Byte>): Option<seq<Byte>> {
    match IpPart(link, hostLe, pkt)
    case None => None
    case Some(ip) => UdpPart(ip)
  }

  /** Whatever the bytes and the link type, the message is a stretch of the captured bytes. */
  lemma MessageInsidePacket(link: Link, hostLe: bool, pkt: seq<Byte>)
    requires Message(link, hostLe, pkt).Some?
    ensures exists i, j | 0 <= i <= j <= |pkt| :: Message(link, hostLe, pkt).value == pkt[i..j]
  {
    hide U16, U32, UdpPart;
    var ip := IpPart(link, hostLe, pkt).value;
    var start := |pkt| - |ip|;
    assert ip == pkt[start..];
    var i, j := MessageInsideIp(ip);
    SliceOfSuffix(pkt, start, i, j);
  }

  lemma SliceOfSuffix(pkt: seq<Byte>, start: nat, i: nat, j: nat)
    requires start <= |pkt| && i <= j <= |pkt| - start
    ensures pkt[start..][i..j] == pkt[start + i..start + j]
  {
  }

  lemma MessageInsideIp(ip: seq<Byte>) returns (i: nat, j: nat)
    requires UdpPart(ip).Some?
    ensures i <= j <= |ip| && UdpPart(ip).value == ip[i..j]
  {
    hide U16;
    i := ip[0] % 16 * 4 + 8;
    j := i + |UdpPart(ip).value|;
  }

  // ---------------------------------------------------------------- a reference encoder for frames

  /** The header bytes that the handler does not look at. */
  datatype Headers = Headers(macs: seq<Byte>, vlan: Option<seq<Byte>>, tos: seq<Byte>, options: seq<Byte>,
                             ports: seq<Byte>, checksum: seq<Byte>)

  predicate HeadersOk(h: Headers) {
    && |h.macs| == 12 && (h.vlan.Some? ==> |h.vlan.value| == 2) && |h.tos| == 8
    && 10 <= |h.options| <= 50 && (|h.options| + 10) % 4 == 0
    && |h.ports| == 4 && |h.checksum| == 2
  }

  function PutLink(link: Link, hostLe: bool, h: Headers): seq<Byte>
    requires HeadersOk(h)
  {
    match link
    case Ethernet =>
      h.macs + (if h.vlan.Some? then Put16(ETHERTYPE_VLAN, false) + h.vlan.value else []) + Put16(ETHERTYPE_IPV4, false)
    case BsdNull => Put32(AF_INET, hostLe)
    case BsdLoop => Put32(AF_INET, false)
    case Unsupported => []
  }

  /** `options` are the bytes of the IPv4 header after the protocol number. */
  function PutIp(h: Headers): (p: seq<Byte>)
    requires HeadersOk(h)
    ensures |p| == 10 + |h.options|
  {
    var words := (|h.options| + 10) / 4;
    [64 + words] + h.tos + [IPPROTO_UDP] + h.options
  }

  function PutUdp(h: Headers, message: seq<Byte>): seq<Byte>
    requires HeadersOk(h) && |message| + 8 < 0x1_0000
  {
    h.ports + (Put16(|message| + 8, false) + (h.checksum + message))
  }

  lemma LinkRoundTrip(link: Link, hostLe: bool, h: Headers, ip: seq<Byte>)
    requires HeadersOk(h) && !link.Unsupported?
    ensures IpPart(link, hostLe, PutLink(link, hostLe, h) + ip) == Some(ip)
  {
    var pkt := PutLink(link, hostLe, h) + ip;
    assert pkt[|PutLink(link, hostLe, h)|..] == ip;
    match link
    case Ethernet => EthernetRoundTrip(hostLe, h, ip);
    case BsdNull => Reads32(pkt, 0, AF_INET, hostLe);
    case BsdLoop => Reads32(pkt, 0, AF_INET, false);
  }

  lemma EthernetRoundTrip(hostLe: bool, h: Headers, ip: seq<Byte>)
    requires HeadersOk(h)
    ensures IpPart(Ethernet, hostLe, PutLink(Ethernet, hostLe, h) + ip) == Some(ip)
  {
    var pkt := PutLink(Ethernet, hostLe, h) + ip;
    if h.vlan.Some? {
      assert pkt[12..14] == Put16(ETHERTYPE_VLAN, false) && pkt[16..18] == Put16(ETHERTYPE_IPV4, false);
      Reads16(pkt, 12, ETHERTYPE_VLAN, false);
      Reads16(pkt, 16, ETHERTYPE_IPV4, false);
      assert pkt[18..] == ip;
    } else {
      assert pkt[12..14] == Put16(ETHERTYPE_IPV4, false);
      Reads16(pkt, 12, ETHERTYPE_IPV4, false);
      assert pkt[14..] == ip;
    }
  }

  lemma UdpRoundTrip(h: Headers, message: seq<Byte>, padding: seq<Byte>)
    requires HeadersOk(h) && |message| + 8 < 0x1_0000
    ensures UdpPart(PutIp(h) + (PutUdp(h, message) + padding)) == Some(message)
  {
    var ihl, udp := 10 + |h.options|, PutUdp(h, message) + padding;
    var ip := PutIp(h) + udp;
    assert ip[ihl..] == udp && |udp| >= 8 + |message|;
    IpHeaderReads(h, udp);
    UdpHeaderReads(h, message, padding);
    assert |message| + 8 == |udp| ==> udp[8..] == udp[8..|message| + 8];
  }

  lemma IpHeaderReads(h: Headers, udp: seq<Byte>)
    requires HeadersOk(h)
    ensures var ip := PutIp(h) + udp;
            ip[0] / 16 == 4 && ip[0] % 16 * 4 == 10 + |h.options| && ip[9] == IPPROTO_UDP
  {
    var words := (|h.options| + 10) / 4;
    assert (PutIp(h) + udp)[0] == 64 + words && 5 <= words <= 15;
  }

  lemma UdpHeaderReads(h: Headers, message: seq<Byte>, padding: seq<Byte>)
    requires HeadersOk(h) && |message| + 8 < 0x1_0000
    ensures var udp := PutUdp(h, message) + padding;
            |udp| >= 8 + |message| && U16(udp, 4, false) == |message| + 8 && udp[8..|message| + 8] == message
  {
    var udp := PutUdp(h, message) + padding;
    assert udp[4..6] == Put16(|message| + 8, false);
    Reads16(udp, 4, |message| + 8, false);
  }

  /** Round trip through every supported link type, with or without a VLAN tag, with any IPv4 options and any
      padding after the datagram. */
  lemma FrameRoundTrip(link: Link, hostLe: bool, h: Headers, message: seq<Byte>, padding: seq<Byte>)
    requires HeadersOk(h) && !link.Unsupported? && |message| + 8 < 0x1_0000
    ensures Message(link, hostLe, PutLink(link, hostLe, h) + (PutIp(h) + (PutUdp(h, message) + padding)))
         == Some(message)
  {
    LinkRoundTrip(link, hostLe, h, PutIp(h) + (PutUdp(h, message) + padding));
    UdpRoundTrip(h, message, padding);
  }

  // ---------------------------------------------------------------- what a frame brings

  /** A whole RTPS message in its frame. */
  datatype Frame = Frame(link: Link, h: Headers, versionVendor: seq<Byte>, prefix: seq<Byte>, ss: seq<Rtps.Sub>,
                         padding: seq<Byte>)

  ghost predicate FrameOk(f: Frame) {
    && HeadersOk(f.h) && !f.link.Unsupported? && |f.versionVendor| == 4 && |f.prefix| == 12 && Rtps.MessageOk(f.ss)
    && |Rtps.Encode(f.versionVendor, f.prefix, f.ss)| + 8 < 0x1_0000
  }

  datatype Packet = Packet(link: Link, bytes: seq<Byte>)

  function MessageIn(f: Frame): seq<Byte>
    requires FrameOk(f)
  {
    Rtps.Encode(f.versionVendor, f.prefix, f.ss)
  }

  function Send(hostLe: bool, f: Frame): Packet
    requires FrameOk(f)
  {
    Packet(f.link, PutLink(f.link, hostLe, f.h) + (PutIp(f.h) + (PutUdp(f.h, MessageIn(f)) + f.padding)))
  }

  lemma {:induction false} SaidAreOk(ss: seq<Rtps.Sub>)
    requires forall s | s in ss :: Rtps.SubOk(s)
    ensures ItemsOk(Rtps.Said(ss))
    decreases |ss|
  {
    if ss != [] {
      assert Rtps.SubOk(ss[0]);
      assert ItemOk(Rtps.ItemOf(ss[0]));
      SaidAreOk(ss[1..]);
    }
  }

  /** The items of the frame's message that the walk reaches. */
  function ItemsIn(f: Frame): (items: seq<Rtps.Item>)
    requires FrameOk(f)
    ensures ItemsOk(items)
  {
    SaidAreOk(f.ss);
    Rtps.Said(f.ss)
  }

  lemma FrameArrives(hostLe: bool, f: Frame)
    requires FrameOk(f)
    ensures Message(f.link, hostLe, Send(hostLe, f).bytes) == Some(MessageIn(f))
    ensures Rtps.HasHeader(MessageIn(f)) && MessageIn(f)[8..20] == f.prefix
    ensures Rtps.Items(MessageIn(f), Rtps.HEADER_SIZE) == ItemsIn(f)
  {
    hide Rtps.Items, Rtps.Encode, Message, PutLink, PutIp, PutUdp, HeadersOk, Rtps.MessageOk;
    FrameRoundTrip(f.link, hostLe, f.h, MessageIn(f), f.padding);
    Rtps.MessageRoundTrip(f.versionVendor, f.prefix, f.ss);
  }

  lemma {:induction false} LastRegistrationStands(endpoints: map<string, EndpointInfo>, prefix: seq<Byte>,
                                                  items: seq<Rtps.Item>, k: nat, a: Announcement)
    requires |prefix| == 12 && ItemsOk(items) && k < |items| && Announces(prefix, items[k]) == Some(a)
    requires forall j | k < j < |items| && Announces(prefix, items[j]).Some? ::
               Announces(prefix, items[j]).value.guid != a.guid
    ensures var now := RegisterAll(endpoints, AnnouncedBy(prefix, items));
            FmtGuid(a.guid) in now && now[FmtGuid(a.guid)] == a.info
    decreases |items|
  {
    hide Announces, FmtGuid;
    var b, rest := Announces(prefix, items[0]), items[1..];
    var now := if b.Some? then endpoints[FmtGuid(b.value.guid) := b.value.info] else endpoints;
    RegisterOne(endpoints, prefix, items);
    if k == 0 {
      OthersLeaveItAlone(now, prefix, rest, a.guid);
    } else {
      LastRegistrationStands(now, prefix, rest, k - 1, a);
    }
  }

  lemma RegisterOne(endpoints: map<string, EndpointInfo>, prefix: seq<Byte>, items: seq<Rtps.Item>)
    requires |prefix| == 12 && ItemsOk(items) && items != []
    ensures var b := Announces(prefix, items[0]);
            RegisterAll(endpoints, AnnouncedBy(prefix, items)) ==
            RegisterAll(if b.Some? then endpoints[FmtGuid(b.value.guid) := b.value.info] else endpoints,
                        AnnouncedBy(prefix, items[1..]))
  {
    hide Announces, FmtGuid;
    var b, more := Announces(prefix, items[0]), AnnouncedBy(prefix, items[1..]);
    if b.Some? {
      assert ([b.value] + more)[1..] == more;
    } else {
      assert [] + more == more;
    }
  }

  lemma {:induction false} OthersLeaveItAlone(endpoints: map<string, EndpointInfo>, prefix: seq<Byte>,
                                              items: seq<Rtps.Item>, guid: seq<Byte>)
    requires |prefix| == 12 && ItemsOk(items) && |guid| == 16 && FmtGuid(guid) in endpoints
    requires forall j | 0 <= j < |items| && Announces(prefix, items[j]).Some? ::
               Announces(prefix, items[j]).value.guid != guid
    ensures var now := RegisterAll(endpoints, AnnouncedBy(prefix, items));
            FmtGuid(guid) in now && now[FmtGuid(guid)] == endpoints[FmtGuid(guid)]
    decreases |items|
  {
    hide Announces, FmtGuid;
    if items != [] {
      var b := Announces(prefix, items[0]);
      var now := if b.Some? then endpoints[FmtGuid(b.value.guid) := b.value.info] else endpoints;
      RegisterOne(endpoints, prefix, items);
      if b.Some? && FmtGuid(b.value.guid) == FmtGuid(guid) {
        GuidTextInjective(b.value.guid, guid);
      }
      OthersLeaveItAlone(now, prefix, items[1..], guid);
    }
  }

  /** Whatever submessages it has, the framed message changes the registry by the announcements that the walk reaches
      in it, in their order, and by nothing else. */
  lemma MessageArrives(mode: PrintMode, s: State, hostLe: bool, f: Frame)
    requires FrameOk(f)
    ensures var m := Message(f.link, hostLe, Send(hostLe, f).bytes);
            |f.prefix| == 12 && m.Some? &&
            HandleMessage(mode, s, m.value).endpoints == RegisterAll(s.endpoints, AnnouncedBy(f.prefix, ItemsIn(f)))
  {
    hide FrameOk, Announces, Rtps.Items, Message, FmtGuid, Send, MessageIn, ItemsIn, AnnouncedBy, RegisterAll;
    FrameArrives(hostLe, f);
    PrefixOf(f);
    HandleAllRegisters(mode, s.(rtps := s.rtps + 1), f.prefix, ItemsIn(f));
  }

  lemma {:induction false} SaidAt(ss: seq<Rtps.Sub>, k: nat)
    requires (forall s | s in ss :: Rtps.SubOk(s)) && k < |Rtps.Said(ss)|
    ensures k < |ss| && Rtps.Said(ss)[k] == Rtps.ItemOf(ss[k])
    decreases |ss|
  {
    if k > 0 {
      SaidAt(ss[1..], k - 1);
    }
  }

  /** The choices of a sender of an announcement. */
  datatype Form = Form(le: bool, id0: Byte, idHi: nat, o0: Byte, o1: Byte, ps: seq<Sedp.Param>, rest: seq<Byte>)

  ghost predicate WrittenAs(payload: seq<Byte>, g: Sedp.Fields, w: Form) {
    && w.idHi < 128 && Sedp.Says(w.ps, g)
    && payload == Sedp.Encode(w.le, w.id0, w.idHi, w.o0, w.o1, w.ps, w.rest)
  }

  /** The submessage is a DATA of a discovery writer whose payload announces g in some PL_CDR form. */
  ghost predicate Carries(sub: Rtps.Sub, g: Sedp.Fields) {
    sub.DataSub? && IsSedp(sub.writer) && sub.hasData && exists w :: WrittenAs(sub.payload, g, w)
  }

  /** What such a submessage of the participant `prefix` announces. */
  function AnnouncementOf(prefix: seq<Byte>, sub: Rtps.Sub, g: Sedp.Fields): Announcement
    requires sub.DataSub?
  {
    Announcement(if g.guid.Some? then g.guid.value else prefix + sub.writer,
                 EndpointInfo(g.topic, g.typeName, sub.writer == EID_SEDP_PUB_WRITER))
  }

  /** End to end, whatever other submessages stand beside it: an announcement with a topic, put into a PL_CDR list in
      any form, a DATA, a message and a frame ends up in the registry under its own GUID, if it is the last of that
      GUID in the message. */
  lemma AnnouncementArrives(mode: PrintMode, s: State, hostLe: bool, f: Frame, k: nat, g: Sedp.Fields)
    requires FrameOk(f) && k < |ItemsIn(f)| && k < |f.ss| && |f.prefix| == 12
    requires Carries(f.ss[k], g) && g.topic != []
    requires forall j | k < j < |ItemsIn(f)| && Announces(f.prefix, ItemsIn(f)[j]).Some? ::
               Announces(f.prefix, ItemsIn(f)[j]).value.guid != AnnouncementOf(f.prefix, f.ss[k], g).guid
    ensures var m, a := Message(f.link, hostLe, Send(hostLe, f).bytes), AnnouncementOf(f.prefix, f.ss[k], g);
            && m.Some? && |a.guid| == 16
            && var now := HandleMessage(mode, s, m.value).endpoints;
               FmtGuid(a.guid) in now && now[FmtGuid(a.guid)] == a.info
  {
    hide Announces, Rtps.Items, Message, FmtGuid, Send, MessageIn, AnnouncedBy, RegisterAll, Sedp.Says, Sedp.Encode;
    MessageArrives(mode, s, hostLe, f);
    SaidAt(f.ss, k);
    CarriedIsAnnounced(f.prefix, f.ss[k], g);
    LastRegistrationStands(s.endpoints, f.prefix, ItemsIn(f), k, AnnouncementOf(f.prefix, f.ss[k], g));
  }

  lemma AnnouncesWhatItSays(prefix: seq<Byte>, sub: Rtps.Sub, w: Form, g: Sedp.Fields)
    requires |prefix| == 12 && Rtps.FieldsOk(sub) && sub.DataSub? && IsSedp(sub.writer) && sub.hasData
    requires WrittenAs(sub.payload, g, w) && g.topic != []
    ensures ItemOk(Rtps.ItemOf(sub)) && Announces(prefix, Rtps.ItemOf(sub)) == Some(AnnouncementOf(prefix, sub, g))
  {
    hide Sedp.Decode, Sedp.Says;
    Sedp.SedpRoundTrip(w.le, w.id0, w.idHi, w.o0, w.o1, w.ps, w.rest, g);
  }

  lemma CarriedIsAnnounced(prefix: seq<Byte>, sub: Rtps.Sub, g: Sedp.Fields)
    requires |prefix| == 12 && Rtps.SubOk(sub) && Carries(sub, g) && g.topic != []
    ensures ItemOk(Rtps.ItemOf(sub)) && Announces(prefix, Rtps.ItemOf(sub)) == Some(AnnouncementOf(prefix, sub, g))
  {
    hide Announces, WrittenAs;
    var w :| WrittenAs(sub.payload, g, w);
    AnnouncesWhatItSays(prefix, sub, w, g);
  }

  lemma PrefixOf(f: Frame)
    requires FrameOk(f)
    ensures |f.prefix| == 12
  {
  }

  // ---------------------------------------------------------------- whole captures

  /** The messages in a capture of any packets. */
  function MessagesOf(hostLe: bool, packets: seq<Packet>): seq<seq<Byte>>
    decreases |packets|
  {
    if packets == [] then []
    else
      var before, p := MessagesOf(hostLe, packets[..|packets| - 1]), packets[|packets| - 1];
      match Message(p.link, hostLe, p.bytes)
      case None => before
      case Some(m) => before + [m]
  }

  function Sent(hostLe: bool, fs: seq<Frame>): (packets: seq<Packet>)
    requires forall f <- fs :: FrameOk(f)
    ensures |packets| == |fs|
    decreases |fs|
  {
    if fs == [] then [] else Sent(hostLe, fs[..|fs| - 1]) + [Send(hostLe, fs[|fs| - 1])]
  }

  function Contents(fs: seq<Frame>): (messages: seq<seq<Byte>>)
    requires forall f <- fs :: FrameOk(f)
    ensures |messages| == |fs|
    decreases |fs|
  {
    if fs == [] then [] else Contents(fs[..|fs| - 1]) + [MessageIn(fs[|fs| - 1])]
  }

  /** The handler gets exactly the messages that were sent. */
  lemma {:induction false} MessagesAreRead(hostLe: bool, fs: seq<Frame>)
    requires forall f <- fs :: FrameOk(f)
    ensures MessagesOf(hostLe, Sent(hostLe, fs)) == Contents(fs)
    decreases |fs|
  {
    hide FrameOk, Message, Send, MessageIn, ItemsIn;
    if fs != [] {
      var n := |fs| - 1;
      MessagesAreRead(hostLe, fs[..n]);
      FrameArrives(hostLe, fs[n]);
      SendsOn(hostLe, fs[n]);
      assert Sent(hostLe, fs)[..n] == Sent(hostLe, fs[..n]);
    }
  }

  lemma SendsOn(hostLe: bool, f: Frame)
    requires FrameOk(f)
    ensures Send(hostLe, f).link == f.link
  {
  }

  /** What a sequence of frames announces. */
  function SaidBy(fs: seq<Frame>): seq<Announcement>
    requires forall f <- fs :: FrameOk(f)
    decreases |fs|
  {
    if fs == [] then []
    else
      var f := fs[|fs| - 1];
      PrefixOf(f);
      SaidBy(fs[..|fs| - 1]) + AnnouncedBy(f.prefix, ItemsIn(f))
  }

  /** What it shows. */
  function ShownBy(mode: PrintMode, fs: seq<Frame>): seq<Event>
    requires forall f <- fs :: FrameOk(f)
    decreases |fs|
  {
    if fs == [] then []
    else
      var f := fs[|fs| - 1];
      PrefixOf(f);
      ShownBy(mode, fs[..|fs| - 1]) + ShowsAll(mode, f.prefix, ItemsIn(f), SaidBy(fs[..|fs| - 1]))
  }

  lemma {:induction false} ContentsAreRead(mode: PrintMode, fs: seq<Frame>)
    requires forall f <- fs :: FrameOk(f)
    ensures AnnouncedIn(Contents(fs)) == SaidBy(fs)
    ensures ShowsCapture(mode, Contents(fs)) == ShownBy(mode, fs)
    decreases |fs|
  {
    hide FrameOk, Rtps.Items, Message, Send, MessageIn, ItemsIn, AnnouncedBy, ShowsAll, Rtps.HasHeader;
    if fs != [] {
      var n := |fs| - 1;
      ContentsAreRead(mode, fs[..n]);
      FrameArrives(true, fs[n]);
      assert Contents(fs)[..n] == Contents(fs[..n]);
    }
  }

  /** A capture of frames, each from its own participant over its own link: the registry holds the latest of what the
      frames say about each GUID, and exactly what they say has been printed. */
  lemma CaptureArrives(mode: PrintMode, hostLe: bool, fs: seq<Frame>)
    requires forall f <- fs :: FrameOk(f)
    ensures var s := HandleCapture(mode, EMPTY, MessagesOf(hostLe, Sent(hostLe, fs)));
            Agrees(s.endpoints, SaidBy(fs)) && s.events == ShownBy(mode, fs)
  {
    hide FrameOk, Agrees, SaidBy, ShownBy, Sent, MessagesOf, HandleCapture, AnnouncedIn, ShowsCapture, Contents;
    RegistryIsLatest(mode, Contents(fs));
    CaptureShows(mode, Contents(fs));
    MessagesAreRead(hostLe, fs);
    ContentsAreRead(mode, fs);
  }
}
