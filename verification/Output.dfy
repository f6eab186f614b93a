/** What inspector.cpp prints, as a function of the messages alone: the events of a capture in every print mode. */
module Output {
  import opened Options
  import opened Wire
  import opened Registry
  import Sedp
  import Rtps

  /** What an item shows after the announcements anns. */
  function Shows(mode: PrintMode, prefix: seq<Byte>, item: Rtps.Item, anns: seq<Announcement>): seq<Event>
    requires |prefix| == 12 && ItemOk(item)
  {
    match item
    case Other => []
    case Heartbeat(writer) => if IsSedp(writer) && anns == [] && !mode.Traffic? then [DiscoveryMissed] else []
    case Data(reader, writer, seqNo, _, payload) =>
      if writer == EID_SPDP_WRITER then if mode.Traffic? then [] else [Participant(FmtPrefix(prefix))]
      else if IsUserData(item) then
        var known := KnownTopic(anns, prefix + writer);
        if mode.Reannounce? then []
        else [UserData(FmtGuid(prefix + writer), FmtEntity(reader), known, seqNo,
                       Show(if known.Some? then known.value else [], payload))]
      else
        match Announces(prefix, item)
        case None => []
        case Some(a) =>
          if mode.Traffic? then []
          else [Announced(a.info.isWriter, exists b | b in anns :: b.guid == a.guid, FmtGuid(a.guid),
                          a.info.topic, a.info.typeName)]
  }

  /** What an item adds to the announcements before it. */
  function More(prefix: seq<Byte>, item: Rtps.Item): (anns: seq<Announcement>)
    requires |prefix| == 12 && ItemOk(item)
    ensures forall a | a in anns :: |a.guid| == 16
  {
    match Announces(prefix, item)
    case None => []
    case Some(a) => [a]
  }

  function ShowsAll(mode: PrintMode, prefix: seq<Byte>, items: seq<Rtps.Item>, anns: seq<Announcement>): seq<Event>
    requires |prefix| == 12 && ItemsOk(items)
    decreases |items|
  {
    if items == [] then []
    else
      Shows(mode, prefix, items[0], anns) + ShowsAll(mode, prefix, items[1..], anns + More(prefix, items[0]))
  }

  function ShowsMessage(mode: PrintMode, data: seq<Byte>, anns: seq<Announcement>): seq<Event> {
    if !Rtps.HasHeader(data) then []
    else
      WalkYieldsOkItems(data, Rtps.HEADER_SIZE);
      ShowsAll(mode, data[8..20], Rtps.Items(data, Rtps.HEADER_SIZE), anns)
  }

  function ShowsCapture(mode: PrintMode, messages: seq<seq<Byte>>): seq<Event>
    decreases |messages|
  {
    if messages == [] then []
    else
      var before := messages[..|messages| - 1];
      ShowsCapture(mode, before) + ShowsMessage(mode, messages[|messages| - 1], AnnouncedIn(before))
  }

  lemma ItemShows(mode: PrintMode, s: State, prefix: seq<Byte>, item: Rtps.Item, anns: seq<Announcement>)
    requires |prefix| == 12 && ItemOk(item) && Agrees(s.endpoints, anns) && forall a | a in anns :: |a.guid| == 16
    ensures Handle(mode, s, prefix, item).events == s.events + Shows(mode, prefix, item, anns)
  {
    hide FmtGuid, FmtEntity, FmtPrefix, Show, Agrees, KnownTopic, Sedp.Decode;
    if item.Heartbeat? && IsSedp(item.writer) {
      WarnsIffNothingAnnounced(mode, s, prefix, item, anns);
    } else if IsUserData(item) {
      UserDataIsLabelled(mode, s, prefix, item, anns);
    } else if item.Data? && Announces(prefix, item).Some? {
      RepeatFlagIsTrue(mode, s, prefix, item, anns, Announces(prefix, item).value);
    }
  }

  lemma {:induction false} ItemsShow(mode: PrintMode, s: State, prefix: seq<Byte>, items: seq<Rtps.Item>,
                                     anns: seq<Announcement>)
    requires |prefix| == 12 && ItemsOk(items) && Agrees(s.endpoints, anns) && forall a | a in anns :: |a.guid| == 16
    ensures HandleAll(mode, s, prefix, items).events == s.events + ShowsAll(mode, prefix, items, anns)
    decreases |items|
  {
    hide Agrees, Handle, Announces, Shows;
    if items != [] {
      var s', more := Handle(mode, s, prefix, items[0]), anns + More(prefix, items[0]);
      ItemShows(mode, s, prefix, items[0], anns);
      HandleAgrees(mode, s, prefix, items[0], anns);
      assert anns + [] == anns;
      ItemsShow(mode, s', prefix, items[1..], more);
      assert s.events + Shows(mode, prefix, items[0], anns) + ShowsAll(mode, prefix, items[1..], more) ==
             s.events + (Shows(mode, prefix, items[0], anns) + ShowsAll(mode, prefix, items[1..], more));
    }
  }

  /** After any sequence of messages, in any print mode, exactly this has been printed: every announcement flagged by
      what was announced before it, and every piece of user data labelled by its writer's latest announcement. */
  lemma {:induction false} CaptureShows(mode: PrintMode, messages: seq<seq<Byte>>)
    ensures HandleCapture(mode, EMPTY, messages).events == ShowsCapture(mode, messages)
    decreases |messages|
  {
    hide Agrees, HandleAll, ShowsAll, Rtps.Items;
    if messages != [] {
      var before, data := messages[..|messages| - 1], messages[|messages| - 1];
      CaptureShows(mode, before);
      RegistryIsLatest(mode, before);
      if Rtps.HasHeader(data) {
        var s := HandleCapture(mode, EMPTY, before);
        WalkYieldsOkItems(data, Rtps.HEADER_SIZE);
        ItemsShow(mode, s.(rtps := s.rtps + 1), data[8..20], Rtps.Items(data, Rtps.HEADER_SIZE), AnnouncedIn(before));
      }
    }
  }

  // ---------------------------------------------------------------- the print modes

  /** The events about user data (or, if not, the other events), in order. */
  function Select(user: bool, events: seq<Event>): seq<Event> {
    if events == [] then [] else (if events[0].UserData? == user then [events[0]] else []) + Select(user, events[1..])
  }

  lemma {:induction false} SelectJoins(user: bool, a: seq<Event>, b: seq<Event>)
    ensures Select(user, a + b) == Select(user, a) + Select(user, b)
    decreases |a|
  {
    if a == [] {
      assert a + b == b;
    } else {
      var first := if a[0].UserData? == user then [a[0]] else [];
      SelectJoins(user, a[1..], b);
      assert (a + b)[0] == a[0] && (a + b)[1..] == a[1..] + b;
      assert Select(user, a + b) == first + Select(user, a[1..] + b);
      assert first + (Select(user, a[1..]) + Select(user, b)) == first + Select(user, a[1..]) + Select(user, b);
    }
  }

  lemma ItemSplits(prefix: seq<Byte>, item: Rtps.Item, anns: seq<Announcement>)
    requires |prefix| == 12 && ItemOk(item)
    ensures Shows(Traffic, prefix, item, anns) == Select(true, Shows(Both, prefix, item, anns))
    ensures Shows(Reannounce, prefix, item, anns) == Select(false, Shows(Both, prefix, item, anns))
  {
    hide FmtGuid, FmtEntity, FmtPrefix, Show, KnownTopic, Announces;
    var both := Shows(Both, prefix, item, anns);
    assert |both| <= 1 && (both != [] ==> both[1..] == []);
  }

  lemma {:induction false} ItemsSplit(prefix: seq<Byte>, items: seq<Rtps.Item>, anns: seq<Announcement>)
    requires |prefix| == 12 && ItemsOk(items)
    ensures ShowsAll(Traffic, prefix, items, anns) == Select(true, ShowsAll(Both, prefix, items, anns))
    ensures ShowsAll(Reannounce, prefix, items, anns) == Select(false, ShowsAll(Both, prefix, items, anns))
    decreases |items|
  {
    hide Shows, More, Select;
    if items == [] {
      NothingSelected();
    } else {
      var more := anns + More(prefix, items[0]);
      ItemSplits(prefix, items[0], anns);
      ItemsSplit(prefix, items[1..], more);
      SelectJoins(true, Shows(Both, prefix, items[0], anns), ShowsAll(Both, prefix, items[1..], more));
      SelectJoins(false, Shows(Both, prefix, items[0], anns), ShowsAll(Both, prefix, items[1..], more));
    }
  }

  lemma NothingSelected()
    ensures Select(true, []) == [] && Select(false, []) == []
  {
  }

  /** The traffic mode prints of a capture just the user data that the mode for both prints, and the reannounce mode
      just the rest, each in order. */
  lemma {:induction false} ModesSplit(messages: seq<seq<Byte>>)
    ensures HandleCapture(Traffic, EMPTY, messages).events ==
            Select(true, HandleCapture(Both, EMPTY, messages).events)
    ensures HandleCapture(Reannounce, EMPTY, messages).events ==
            Select(false, HandleCapture(Both, EMPTY, messages).events)
  {
    hide HandleCapture, ShowsCapture;
    CaptureShows(Traffic, messages);
    CaptureShows(Reannounce, messages);
    CaptureShows(Both, messages);
    ShowsSplit(messages);
  }

  lemma {:induction false} ShowsSplit(messages: seq<seq<Byte>>)
    ensures ShowsCapture(Traffic, messages) == Select(true, ShowsCapture(Both, messages))
    ensures ShowsCapture(Reannounce, messages) == Select(false, ShowsCapture(Both, messages))
    decreases |messages|
  {
    hide ShowsAll, Select, Rtps.Items, AnnouncedIn;
    NothingSelected();
    if messages != [] {
      var before, data := messages[..|messages| - 1], messages[|messages| - 1];
      var anns := AnnouncedIn(before);
      ShowsSplit(before);
      SelectJoins(true, ShowsCapture(Both, before), ShowsMessage(Both, data, anns));
      SelectJoins(false, ShowsCapture(Both, before), ShowsMessage(Both, data, anns));
      if Rtps.HasHeader(data) {
        WalkYieldsOkItems(data, Rtps.HEADER_SIZE);
        ItemsSplit(data[8..20], Rtps.Items(data, Rtps.HEADER_SIZE), anns);
      }
    }
  }

  // ---------------------------------------------------------------- is user data always printed?

  function UserDataIn(events: seq<Event>): nat {
    if events == [] then 0
    else UserDataIn(events[..|events| - 1]) + if events[|events| - 1].UserData? then 1 else 0
  }

  /** The pieces of user data among the items of a message. */
  function UserItems(items: seq<Rtps.Item>): nat {
    if items == [] then 0 else (if IsUserData(items[0]) then 1 else 0) + UserItems(items[1..])
  }

  /** The pieces of user data in a capture. */
  function UserDataSent(messages: seq<seq<Byte>>): nat
    decreases |messages|
  {
    if messages == [] then 0
    else
      var data := messages[|messages| - 1];
      UserDataSent(messages[..|messages| - 1]) +
      if Rtps.HasHeader(data) then UserItems(Rtps.Items(data, Rtps.HEADER_SIZE)) else 0
  }

  /** What a state of the program says of n pieces of user data. */
  predicate Tells(mode: PrintMode, s: State, n: nat) {
    s.data == n && UserDataIn(s.events) == if mode.Reannounce? then 0 else n
  }

  lemma OneMoreEvent(events: seq<Event>, e: Event)
    ensures UserDataIn(events + [e]) == UserDataIn(events) + if e.UserData? then 1 else 0
  {
    assert (events + [e])[..|events|] == events;
  }

  lemma ItemPrints(mode: PrintMode, s: State, prefix: seq<Byte>, item: Rtps.Item, n: nat)
    requires |prefix| == 12 && ItemOk(item) && Tells(mode, s, n)
    ensures Tells(mode, Handle(mode, s, prefix, item), n + if IsUserData(item) then 1 else 0)
  {
    hide FmtGuid, FmtEntity, FmtPrefix, Show, Sedp.Decode, UserDataIn;
    var s' := Handle(mode, s, prefix, item);
    if s'.events != s.events {
      OneMoreEvent(s.events, s'.events[|s.events|]);
      assert s'.events == s.events + [s'.events[|s.events|]];
    }
  }

  lemma {:induction false} ItemsPrint(mode: PrintMode, s: State, prefix: seq<Byte>, items: seq<Rtps.Item>, n: nat)
    requires |prefix| == 12 && ItemsOk(items) && Tells(mode, s, n)
    ensures Tells(mode, HandleAll(mode, s, prefix, items), n + UserItems(items))
    decreases |items|
  {
    hide Handle, Tells, IsUserData;
    if items != [] {
      ItemPrints(mode, s, prefix, items[0], n);
      ItemsPrint(mode, Handle(mode, s, prefix, items[0]), prefix, items[1..],
                 n + if IsUserData(items[0]) then 1 else 0);
    }
  }

  /** Over any capture every piece of user data is counted, and printed except in the reannounce mode. */
  lemma {:induction false} CapturePrints(mode: PrintMode, messages: seq<seq<Byte>>)
    ensures Tells(mode, HandleCapture(mode, EMPTY, messages), UserDataSent(messages))
    decreases |messages|
  {
    hide HandleAll, Rtps.Items, UserItems;
    if messages != [] {
      var before, data := messages[..|messages| - 1], messages[|messages| - 1];
      CapturePrints(mode, before);
      if Rtps.HasHeader(data) {
        var s := HandleCapture(mode, EMPTY, before);
        WalkYieldsOkItems(data, Rtps.HEADER_SIZE);
        ItemsPrint(mode, s.(rtps := s.rtps + 1), data[8..20], Rtps.Items(data, Rtps.HEADER_SIZE),
                   UserDataSent(before));
      }
    }
  }

  /** All user data of a capture is printed exactly when the mode is not the reannounce mode or there is none in it. */
  lemma AllUserDataIsPrintedIff(mode: PrintMode, messages: seq<seq<Byte>>)
    ensures UserDataIn(HandleCapture(mode, EMPTY, messages).events) == UserDataSent(messages) <==>
            !mode.Reannounce? || UserDataSent(messages) == 0
    ensures HandleCapture(mode, EMPTY, messages).data == UserDataSent(messages)
  {
    CapturePrints(mode, messages);
  }

  /** A message with one piece of user data, which the reannounce mode does not print. */
  lemma UserDataIsLeftOut() returns (message: seq<Byte>)
    ensures UserDataSent([message]) == 1
    ensures UserDataIn(HandleCapture(Reannounce, EMPTY, [message]).events) == 0
    ensures UserDataIn(HandleCapture(Both, EMPTY, [message]).events) == 1
  {
    var data := Rtps.PING;
    Rtps.PingIsOk();
    message := Rtps.Encode(Zeros(4), Zeros(12), [data]);
    Rtps.MessageRoundTrip(Zeros(4), Zeros(12), [data]);
    OneUserItem();
    assert [message][..0] == [];
    CapturePrints(Reannounce, [message]);
    CapturePrints(Both, [message]);
  }

  lemma OneUserItem()
    ensures Rtps.SubOk(Rtps.PING) && UserItems(Rtps.Said([Rtps.PING])) == 1
  {
    Rtps.PingIsOk();
    var item := Rtps.ItemOf(Rtps.PING);
    assert item.writer[0] == 0 && item.writer[2] == 1 && item.writer[3] == 3;
    assert IsUserData(item);
    assert Rtps.Said([Rtps.PING]) == [item];
    assert [item][1..] == [];
  }
}
