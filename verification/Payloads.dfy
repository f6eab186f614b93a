/** What decode_payload of inspector.cpp shows of the payloads of the repository's programs, and of all others. */
module Payloads {
  import opened Wire
  import opened Registry

  /** The representation identifier and options before a payload; the last bit of the second byte is the byte order. */
  datatype Head = Head(id0: Byte, idHi: nat, o0: Byte, o1: Byte)

  function PutHead(h: Head, le: bool): (p: seq<Byte>)
    requires h.idHi < 128
    ensures |p| == 4 && (p[1] % 2 == 1 <==> le)
  {
    var id1: Byte := 2 * h.idHi + if le then 1 else 0;
    [h.id0, id1, h.o0, h.o1]
  }

  /** A 32-bit number as it is written. */
  function PutInt32(v: int, le: bool): (p: seq<Byte>)
    requires -0x8000_0000 <= v < 0x8000_0000
    ensures |p| == 4
  {
    Put32(v % 0x1_0000_0000, le)
  }

  lemma HeadIsRead(h: Head, le: bool, body: seq<Byte>, rest: seq<Byte>)
    requires h.idHi < 128
    ensures var pl := PutHead(h, le) + (body + rest);
            |pl| == 4 + |body| + |rest| && (pl[1] % 2 == 1 <==> le) && Holds(pl, 4, body)
  {
    var pl := PutHead(h, le) + (body + rest);
    assert pl[1] == PutHead(h, le)[1];
    assert pl[4..4 + |body|] == body;
  }

  /** A number sent on one of the two number topics is shown, in either byte order and with anything behind it. */
  lemma NumberIsShown(topic: seq<Byte>, h: Head, le: bool, v: int, rest: seq<Byte>)
    requires IsText(topic, "PingPongTopic") || IsText(topic, "PongBazTopic")
    requires h.idHi < 128 && -0x8000_0000 <= v < 0x8000_0000
    ensures Show(topic, PutHead(h, le) + (PutInt32(v, le) + rest)) == Value(v)
  {
    hide IsText, U32, Put32, PutHead, Holds;
    HeadIsRead(h, le, PutInt32(v, le), rest);
    Reads32(PutHead(h, le) + (PutInt32(v, le) + rest), 4, v % 0x1_0000_0000, le);
    SignIsKept(v);
  }

  lemma SignIsKept(v: int)
    requires -0x8000_0000 <= v < 0x8000_0000
    ensures Signed32(v % 0x1_0000_0000) == v
  {
  }

  lemma DifferentTexts(topic: seq<Byte>)
    requires IsText(topic, "BazPongTopic")
    ensures !IsText(topic, "PingPongTopic") && !IsText(topic, "PongBazTopic")
  {
    assert (topic[0] as int) == ("BazPongTopic"[0] as int) != ("PongBazTopic"[0] as int);
  }

  /** A text sent on the text topic is shown. */
  lemma TextIsShown(topic: seq<Byte>, h: Head, le: bool, s: seq<Byte>, rest: seq<Byte>)
    requires IsText(topic, "BazPongTopic") && h.idHi < 128 && |s| < 0xFFFF_FFFF
    ensures Show(topic, PutHead(h, le) + (PutCdrString(s, le) + rest)) == Text(s)
  {
    hide IsText, CdrString, PutCdrString, PutHead, Holds;
    var pl := PutHead(h, le) + (PutCdrString(s, le) + rest);
    DifferentTexts(topic);
    HeadIsRead(h, le, PutCdrString(s, le), rest);
    CdrStringRoundTrip(pl, |pl|, 4, s, le);
  }

  lemma {:induction false} HexLength(pl: seq<Byte>)
    ensures |HexOf(pl)| == 2 * |pl|
    decreases |pl|
  {
    if pl != [] {
      HexLength(pl[..|pl| - 1]);
    }
  }

  /** Two digits for each byte, and different bytes have different digits. */
  lemma {:induction false} HexIsInjective(a: seq<Byte>, b: seq<Byte>)
    requires HexOf(a) == HexOf(b)
    ensures a == b
    decreases |a|
  {
    hide Hex;
    HexLength(a);
    HexLength(b);
    if a != [] {
      var m, n := HexOf(a[..|a| - 1]), HexOf(b[..|b| - 1]);
      var x, y := a[|a| - 1], b[|b| - 1];
      HexLength(a[..|a| - 1]);
      HexLength(b[..|b| - 1]);
      assert m == (m + Hex(x))[..|m|] == (n + Hex(y))[..|n|] == n;
      assert Hex(x) == (m + Hex(x))[|m|..] == (n + Hex(y))[|n|..] == Hex(y);
      HexInjective(x, y);
      HexIsInjective(a[..|a| - 1], b[..|b| - 1]);
      assert a == a[..|a| - 1] + [x] && b == b[..|b| - 1] + [y];
    }
  }

  /** The dump shows byte i in digits 2i and 2i + 1. */
  lemma {:induction false} HexReadsAll(pl: seq<Byte>, i: nat)
    requires i < |pl|
    ensures |HexOf(pl)| == 2 * |pl| && ByteAt(HexOf(pl), 2 * i) == pl[i]
    decreases |pl|
  {
    hide Hex, DigitValue;
    var n := |pl| - 1;
    HexLength(pl);
    HexLength(pl[..n]);
    HexReads(pl[n]);
    if i < n {
      HexReadsAll(pl[..n], i);
    }
  }

  predicate IsKnown(topic: seq<Byte>) {
    IsText(topic, "PingPongTopic") || IsText(topic, "PongBazTopic") || IsText(topic, "BazPongTopic")
  }

  /** On any other topic, what is shown tells the first 24 bytes and whether there are more. */
  lemma DumpTellsTheBytes(topic: seq<Byte>, a: seq<Byte>, b: seq<Byte>)
    requires !IsKnown(topic)
    ensures Show(topic, a) == Show(topic, b) <==>
            (if |a| <= 24 then a == b else |b| > 24 && a[..24] == b[..24])
  {
    hide IsText, HexOf;
    var x, y := if |a| < 24 then a else a[..24], if |b| < 24 then b else b[..24];
    if HexOf(x) == HexOf(y) {
      HexIsInjective(x, y);
    }
    assert a[..|a|] == a && b[..|b|] == b;
  }
}
