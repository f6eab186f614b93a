/** Byte-level reading in inspector.cpp (u16, u32, cdr_string, the GUID text) and the matching encoders. */
module Wire {
  type Byte = x: int | 0 <= x < 256

  // ---------------------------------------------------------------- byte order

  function U16(p: seq<Byte>, off: nat, le: bool): (v: nat)
    requires off + 2 <= |p|
    ensures v < 0x1_0000
  {
    var first: int, second: int := p[off], p[off + 1];
    if le then first + 256 * second else 256 * first + second
  }

  function U32(p: seq<Byte>, off: nat, le: bool): (v: nat)
    requires off + 4 <= |p|
    ensures v < 0x1_0000_0000
  {
    if le then U16(p, off, le) + 0x1_0000 * U16(p, off + 2, le)
    else 0x1_0000 * U16(p, off, le) + U16(p, off + 2, le)
  }

  /** A 32-bit word read as a signed number. */
  function Signed32(v: nat): int
    requires v < 0x1_0000_0000
  {
    if v < 0x8000_0000 then v else v - 0x1_0000_0000
  }

  function Put16(v: nat, le: bool): (p: seq<Byte>)
    requires v < 0x1_0000
    ensures |p| == 2
  {
    if le then [v % 256, v / 256] else [v / 256, v % 256]
  }

  function Put32(v: nat, le: bool): (p: seq<Byte>)
    requires v < 0x1_0000_0000
    ensures |p| == 4
  {
    if le then Put16(v % 0x1_0000, le) + Put16(v / 0x1_0000, le)
    else Put16(v / 0x1_0000, le) + Put16(v % 0x1_0000, le)
  }

  // ---------------------------------------------------------------- pieces of a buffer

  /** The bytes of `piece` stand in `data` at `off`. */
  predicate Holds(data: seq<Byte>, off: nat, piece: seq<Byte>) {
    off + |piece| <= |data| && data[off..off + |piece|] == piece
  }

  lemma HoldsBoth(data: seq<Byte>, off: nat, a: seq<Byte>, b: seq<Byte>)
    requires Holds(data, off, a + b)
    ensures Holds(data, off, a) && Holds(data, off + |a|, b)
  {
    assert data[off..off + |a|] == (a + b)[..|a|];
    assert data[off + |a|..off + |a| + |b|] == (a + b)[|a|..];
  }

  lemma HoldsAt(data: seq<Byte>, off: nat, piece: seq<Byte>, i: nat)
    requires Holds(data, off, piece) && i < |piece|
    ensures data[off + i] == piece[i]
  {
    assert data[off..off + |piece|][i] == piece[i];
  }

  lemma Reads16(data: seq<Byte>, off: nat, v: nat, le: bool)
    requires v < 0x1_0000 && Holds(data, off, Put16(v, le))
    ensures U16(data, off, le) == v
  {
    HoldsAt(data, off, Put16(v, le), 0);
    HoldsAt(data, off, Put16(v, le), 1);
  }

  /** What either byte order writes, the same byte order reads. */
  lemma Reads32(data: seq<Byte>, off: nat, v: nat, le: bool)
    requires v < 0x1_0000_0000 && Holds(data, off, Put32(v, le))
    ensures U32(data, off, le) == v
  {
    var lo, hi := v % 0x1_0000, v / 0x1_0000;
    HoldsBoth(data, off, Put16(if le then lo else hi, le), Put16(if le then hi else lo, le));
    Reads16(data, off, if le then lo else hi, le);
    Reads16(data, off + 2, if le then hi else lo, le);
  }

  // ---------------------------------------------------------------- CDR strings

  /** cdr_string: a 4-byte length that counts the terminating NUL, then the characters; empty on any error.
      `limit` is the end of the enclosing parameter or payload. */
  function CdrString(buf: seq<Byte>, limit: nat, off: nat, le: bool): (s: seq<Byte>)
    requires limit <= |buf|
    ensures s == [] || (off + 4 + |s| < limit && s == buf[off + 4..off + 4 + |s|])
  {
    if off + 4 > limit then []
    else
      var slen := U32(buf, off, le);
      if slen == 0 || off + 4 + slen > limit then [] else buf[off + 4..off + 4 + slen - 1]
  }

  /** Exactly when the string is read: its length word, and so many bytes behind it, are before the limit, and it is not
      empty; then it is those bytes but for the last. */
  lemma CdrStringIs(buf: seq<Byte>, limit: nat, off: nat, le: bool)
    requires limit <= |buf|
    ensures CdrString(buf, limit, off, le) ==
            if off + 4 <= limit && U32(buf, off, le) > 1 && off + 4 + U32(buf, off, le) <= limit
            then buf[off + 4..off + 3 + U32(buf, off, le)] else []
  {
    hide U32;
  }

  function Zeros(n: nat): (z: seq<Byte>)
    ensures |z| == n
  {
    if n == 0 then [] else [0] + Zeros(n - 1)
  }

  function PutCdrString(s: seq<Byte>, le: bool): (p: seq<Byte>)
    requires |s| < 0xFFFF_FFFF
    ensures |p| % 4 == 0 && |p| >= |s| + 5
  {
    Put32(|s| + 1, le) + s + [0] + Zeros(3 - |s| % 4)
  }

  lemma CdrStringRoundTrip(buf: seq<Byte>, limit: nat, off: nat, s: seq<Byte>, le: bool)
    requires |s| < 0xFFFF_FFFF && limit <= |buf|
    requires Holds(buf, off, PutCdrString(s, le)) && off + |PutCdrString(s, le)| <= limit
    ensures CdrString(buf, limit, off, le) == s
  {
    hide Put32, U32;
    var len, tail := Put32(|s| + 1, le), [0] + Zeros(3 - |s| % 4);
    assert PutCdrString(s, le) == len + (s + tail);
    HoldsBoth(buf, off, len, s + tail);
    HoldsBoth(buf, off + 4, s, tail);
    Reads32(buf, off, |s| + 1, le);
  }

  // ---------------------------------------------------------------- the GUID text

  function HexDigit(n: nat): char
    requires n < 16
  {
    "0123456789abcdef"[n]
  }

  function Hex(b: Byte): (s: string)
    ensures |s| == 2
  {
    [HexDigit(b / 16), HexDigit(b % 16)]
  }

  function Hex4(p: seq<Byte>): (s: string)
    requires |p| == 4
    ensures |s| == 8
  {
    Hex(p[0]) + Hex(p[1]) + Hex(p[2]) + Hex(p[3])
  }

  function FmtPrefix(p: seq<Byte>): (s: string)
    requires |p| == 12
    ensures |s| == 26
  {
    Hex4(p[..4]) + ":" + Hex4(p[4..8]) + ":" + Hex4(p[8..])
  }

  function FmtEntity(e: seq<Byte>): (s: string)
    requires |e| == 4
    ensures |s| == 9
  {
    Hex(e[0]) + Hex(e[1]) + Hex(e[2]) + "|" + Hex(e[3])
  }

  /** The registry's key for a GUID: 12 bytes of prefix, 4 of entity id. */
  function FmtGuid(g: seq<Byte>): (s: string)
    requires |g| == 16
    ensures |s| == 36
  {
    FmtPrefix(g[..12]) + ":" + FmtEntity(g[12..])
  }

  lemma EqualParts(a: seq<Byte>, b: seq<Byte>, m: nat)
    requires |a| == |b| && m <= |a| && a[..m] == b[..m] && a[m..] == b[m..]
    ensures a == b
  {
    assert a == a[..m] + a[m..] && b == b[..m] + b[m..];
  }

  lemma HexInjective(a: Byte, b: Byte)
    requires Hex(a) == Hex(b)
    ensures a == b
  {
    assert Hex(a)[0] == Hex(b)[0] && Hex(a)[1] == Hex(b)[1];
    DigitInjective(a / 16, b / 16);
    DigitInjective(a % 16, b % 16);
  }

  lemma DigitInjective(m: nat, n: nat)
    requires m < 16 && n < 16 && HexDigit(m) == HexDigit(n)
    ensures m == n
  {
  }

  lemma Hex4Injective(a: seq<Byte>, b: seq<Byte>)
    requires |a| == 4 && |b| == 4 && Hex4(a) == Hex4(b)
    ensures a == b
  {
    var f, g := Hex4(a), Hex4(b);
    assert f[0..2] == Hex(a[0]) && f[2..4] == Hex(a[1]) && f[4..6] == Hex(a[2]) && f[6..8] == Hex(a[3]);
    assert g[0..2] == Hex(b[0]) && g[2..4] == Hex(b[1]) && g[4..6] == Hex(b[2]) && g[6..8] == Hex(b[3]);
    HexInjective(a[0], b[0]);
    HexInjective(a[1], b[1]);
    HexInjective(a[2], b[2]);
    HexInjective(a[3], b[3]);
  }

  lemma EntityInjective(a: seq<Byte>, b: seq<Byte>)
    requires |a| == 4 && |b| == 4 && FmtEntity(a) == FmtEntity(b)
    ensures a == b
  {
    var f, g := FmtEntity(a), FmtEntity(b);
    assert f[0..2] == Hex(a[0]) && f[2..4] == Hex(a[1]) && f[4..6] == Hex(a[2]) && f[7..9] == Hex(a[3]);
    assert g[0..2] == Hex(b[0]) && g[2..4] == Hex(b[1]) && g[4..6] == Hex(b[2]) && g[7..9] == Hex(b[3]);
    HexInjective(a[0], b[0]);
    HexInjective(a[1], b[1]);
    HexInjective(a[2], b[2]);
    HexInjective(a[3], b[3]);
  }

  lemma PrefixInjective(a: seq<Byte>, b: seq<Byte>)
    requires |a| == 12 && |b| == 12 && FmtPrefix(a) == FmtPrefix(b)
    ensures a == b
  {
    var f, g := FmtPrefix(a), FmtPrefix(b);
    assert f[0..8] == Hex4(a[..4]) && f[9..17] == Hex4(a[4..8]) && f[18..26] == Hex4(a[8..]);
    assert g[0..8] == Hex4(b[..4]) && g[9..17] == Hex4(b[4..8]) && g[18..26] == Hex4(b[8..]);
    Hex4Injective(a[..4], b[..4]);
    Hex4Injective(a[4..8], b[4..8]);
    Hex4Injective(a[8..], b[8..]);
    assert a[..8][..4] == a[..4] && a[..8][4..] == a[4..8];
    assert b[..8][..4] == b[..4] && b[..8][4..] == b[4..8];
    EqualParts(a[..8], b[..8], 4);
    EqualParts(a, b, 8);
  }

  /** Different GUIDs have different keys. */
  lemma GuidTextInjective(a: seq<Byte>, b: seq<Byte>)
    requires |a| == 16 && |b| == 16 && FmtGuid(a) == FmtGuid(b)
    ensures a == b
  {
    var f, g := FmtGuid(a), FmtGuid(b);
    assert f[0..26] == FmtPrefix(a[..12]) && f[27..36] == FmtEntity(a[12..]);
    assert g[0..26] == FmtPrefix(b[..12]) && g[27..36] == FmtEntity(b[12..]);
    PrefixInjective(a[..12], b[..12]);
    EntityInjective(a[12..], b[12..]);
    EqualParts(a, b, 12);
  }

  // ---------------------------------------------------------------- reading the numbers and the texts

  /** Which byte is which: in little-endian order the first is the lowest, in big-endian order the last. */
  lemma BytesOf16(p: seq<Byte>, off: nat, le: bool)
    requires off + 2 <= |p|
    ensures U16(p, off, le) % 256 == p[if le then off else off + 1]
    ensures U16(p, off, le) / 256 == p[if le then off + 1 else off]
  {
  }

  lemma BytesOf32(p: seq<Byte>, off: nat, le: bool)
    requires off + 4 <= |p|
    ensures var a: int, b: int, c: int, d: int := p[off], p[off + 1], p[off + 2], p[off + 3];
            U32(p, off, le) == if le then a + 0x100 * b + 0x1_0000 * c + 0x100_0000 * d
                               else 0x100_0000 * a + 0x1_0000 * b + 0x100 * c + d
  {
  }

  /** The value of a hexadecimal digit. */
  function DigitValue(c: char): nat {
    if '0' <= c <= '9' then c as nat - '0' as nat
    else if 'a' <= c <= 'f' then c as nat - 'a' as nat + 10
    else 16
  }

  lemma DigitReads(n: nat)
    requires n < 16
    ensures DigitValue(HexDigit(n)) == n
  {
  }

  /** The byte that stands at place i of a text, high digit first. */
  function ByteAt(s: string, i: nat): nat
    requires i + 2 <= |s|
  {
    16 * DigitValue(s[i]) + DigitValue(s[i + 1])
  }

  lemma HexReads(b: Byte)
    ensures ByteAt(Hex(b), 0) == b
  {
    hide HexDigit, DigitValue;
    DigitReads(b / 16);
    DigitReads(b % 16);
  }

  lemma ByteInside(s: string, i: nat, b: Byte)
    requires i + 2 <= |s| && s[i..i + 2] == Hex(b)
    ensures ByteAt(s, i) == b
  {
    HexReads(b);
    assert s[i] == s[i..i + 2][0] && s[i + 1] == s[i..i + 2][1];
  }

  lemma Hex4Reads(p: seq<Byte>, s: string, i: nat)
    requires |p| == 4 && i + 8 <= |s| && s[i..i + 8] == Hex4(p)
    ensures forall k | 0 <= k < 4 :: ByteAt(s, i + 2 * k) == p[k]
  {
    hide Hex, ByteAt;
    forall k | 0 <= k < 4 ensures ByteAt(s, i + 2 * k) == p[k] {
      SliceOfSlice(s, i, i + 8, 2 * k, 2 * k + 2);
      Hex4Part(p, k);
      ByteInside(s, i + 2 * k, p[k]);
    }
  }

  lemma SliceOfSlice(s: string, i: nat, j: nat, m: nat, n: nat)
    requires i <= j <= |s| && m <= n <= j - i
    ensures s[i..j][m..n] == s[i + m..i + n]
  {
    var a, b := s[i..j][m..n], s[i + m..i + n];
    assert |a| == |b|;
    forall q | 0 <= q < n - m ensures a[q] == b[q] {
      assert a[q] == s[i..j][m + q];
    }
  }

  lemma Hex4Part(p: seq<Byte>, k: nat)
    requires |p| == 4 && k < 4
    ensures Hex4(p)[2 * k..2 * k + 2] == Hex(p[k])
  {
    hide Hex;
    var s := Hex4(p);
    assert s[0..2] == Hex(p[0]) && s[2..4] == Hex(p[1]) && s[4..6] == Hex(p[2]) && s[6..8] == Hex(p[3]);
    if k == 0 {
    } else if k == 1 {
    } else if k == 2 {
    } else {
      assert k == 3;
    }
  }

  /** The prefix of a participant is shown as its bytes in order, in groups of four between colons. */
  lemma PrefixReads(p: seq<Byte>)
    requires |p| == 12
    ensures var s := FmtPrefix(p);
            && s[8] == ':' && s[17] == ':'
            && forall i | 0 <= i < 12 :: ByteAt(s, 2 * i + i / 4) == p[i]
  {
    hide Hex4, ByteAt;
    var s := FmtPrefix(p);
    assert s[..8] == Hex4(p[..4]) && s[9..17] == Hex4(p[4..8]) && s[18..26] == Hex4(p[8..]);
    Hex4Reads(p[..4], s, 0);
    Hex4Reads(p[4..8], s, 9);
    Hex4Reads(p[8..], s, 18);
    forall i | 0 <= i < 12 ensures ByteAt(s, 2 * i + i / 4) == p[i] {
      if i < 4 {
        assert ByteAt(s, 0 + 2 * i) == p[..4][i];
      } else if i < 8 {
        assert ByteAt(s, 9 + 2 * (i - 4)) == p[4..8][i - 4];
      } else {
        assert ByteAt(s, 18 + 2 * (i - 8)) == p[8..][i - 8];
      }
    }
  }

  /** An entity is shown as three bytes, a bar and the fourth. */
  lemma EntityReads(e: seq<Byte>)
    requires |e| == 4
    ensures var s := FmtEntity(e);
            && s[6] == '|'
            && ByteAt(s, 0) == e[0] && ByteAt(s, 2) == e[1] && ByteAt(s, 4) == e[2] && ByteAt(s, 7) == e[3]
  {
    hide Hex, ByteAt;
    var s := FmtEntity(e);
    assert s[0..2] == Hex(e[0]) && s[2..4] == Hex(e[1]) && s[4..6] == Hex(e[2]) && s[7..9] == Hex(e[3]);
    ByteInside(s, 0, e[0]);
    ByteInside(s, 2, e[1]);
    ByteInside(s, 4, e[2]);
    ByteInside(s, 7, e[3]);
  }

  /** The text of a GUID is read back: its sixteen bytes in order, with colons after the fourth, eighth and twelfth and
      a bar before the last. */
  lemma GuidReads(g: seq<Byte>)
    requires |g| == 16
    ensures var s := FmtGuid(g);
            && s[8] == ':' && s[17] == ':' && s[26] == ':' && s[33] == '|'
            && forall i | 0 <= i < 16 :: ByteAt(s, GuidPlace(i)) == g[i]
  {
    hide FmtPrefix, FmtEntity, DigitValue;
    var s, p, e := FmtGuid(g), FmtPrefix(g[..12]), FmtEntity(g[12..]);
    PrefixReads(g[..12]);
    EntityReads(g[12..]);
    assert forall i | 0 <= i < 26 :: s[i] == p[i];
    assert forall i | 27 <= i < 36 :: s[i] == e[i - 27];
    forall i | 0 <= i < 16 ensures ByteAt(s, GuidPlace(i)) == g[i] {
      if i < 12 {
        assert ByteAt(p, 2 * i + i / 4) == g[..12][i] == g[i];
        assert s[2 * i + i / 4] == p[2 * i + i / 4] && s[2 * i + i / 4 + 1] == p[2 * i + i / 4 + 1];
      } else {
        assert g[12..][i - 12] == g[i];
      }
    }
  }

  /** Where byte i of a GUID is shown. */
  function GuidPlace(i: nat): (k: nat)
    ensures i < 16 ==> k + 2 <= 36
  {
    2 * i + i / 4 + if i < 15 then 0 else 1
  }
}
