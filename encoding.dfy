/**
 * The byte encodings the SASL PLAIN exchange goes through:
 * `String.toByteArray(Charsets.UTF_8)` (UTF-8 as in RFC 3629) and
 * `Base64.encodeToString(bytes, NO_WRAP)` (the base64 alphabet of section 4
 * of RFC 4648, with '=' padding and no line breaks).
 */
module Encoding {
  import opened Wrappers

  newtype byte = x: int | 0 <= x < 256

  // --- UTF-8 ---

  /** The UTF-8 bytes of one Unicode scalar value: its bits cut into 6-bit groups from the low end. */
  function Utf8Char(c: char): (bs: seq<byte>)
    ensures 1 <= |bs| <= 4
    ensures c == '\0' <==> 0 in bs
    ensures |bs| == 1 <==> (c as int) < 0x80
  {
    var n := c as int;
    var q1, r1 := n / 64, n % 64;
    var q2, r2 := q1 / 64, q1 % 64;
    var q3, r3 := q2 / 64, q2 % 64;
    if n < 0x80 then [n as byte]
    else if n < 0x800 then [(0xC0 + q1) as byte, (0x80 + r1) as byte]
    else if n < 0x1_0000 then [(0xE0 + q2) as byte, (0x80 + r2) as byte, (0x80 + r1) as byte]
    else [(0xF0 + q3) as byte, (0x80 + r3) as byte, (0x80 + r2) as byte, (0x80 + r1) as byte]
  }

  /** `toByteArray(Charsets.UTF_8)`. */
  function Utf8(s: string): seq<byte> {
    if s == [] then [] else Utf8Char(s[0]) + Utf8(s[1..])
  }

  lemma {:induction false} Utf8Append(a: string, b: string)
    ensures Utf8(a + b) == Utf8(a) + Utf8(b)
    decreases |a|
  {
    if a != [] {
      assert (a + b)[0] == a[0] && (a + b)[1..] == a[1..] + b;
      Utf8Append(a[1..], b);
      calc {
        Utf8(a + b);
        Utf8Char(a[0]) + Utf8(a[1..] + b);
        Utf8Char(a[0]) + (Utf8(a[1..]) + Utf8(b));
        (Utf8Char(a[0]) + Utf8(a[1..])) + Utf8(b);
      }
    } else {
      assert a + b == b;
    }
  }

  /** The zero byte appears in the encoding exactly where the string holds a NUL. */
  lemma {:induction false} Utf8ZeroFree(s: string)
    ensures 0 in Utf8(s) <==> '\0' in s
    decreases |s|
  {
    if s != [] {
      Utf8ZeroFree(s[1..]);
      assert s == [s[0]] + s[1..];
    }
  }

  predicate IsContinuation(b: byte) {
    0x80 <= b < 0xC0
  }

  /** The 6 payload bits of a continuation byte. */
  function Low6(b: byte): int {
    b as int - 0x80
  }

  /** The scalar value a well-formed sequence of 1 to 4 bytes starts with, and its length. */
  function DecodeChar(bs: seq<byte>): (r: Option<(char, nat)>)
    ensures r.Some? ==> 1 <= r.value.1 <= |bs|
  {
    if bs == [] then None
    else
      var b0 := bs[0] as int;
      if b0 < 0x80 then Some((b0 as char, 1))
      else if 0xC0 <= b0 < 0xE0 && |bs| >= 2 && IsContinuation(bs[1]) then
        var n := (b0 - 0xC0) * 64 + Low6(bs[1]);
        if 0x80 <= n then Some((n as char, 2)) else None
      else if 0xE0 <= b0 < 0xF0 && |bs| >= 3 && IsContinuation(bs[1]) && IsContinuation(bs[2]) then
        var n := ((b0 - 0xE0) * 64 + Low6(bs[1])) * 64 + Low6(bs[2]);
        if 0x800 <= n && !(0xD800 <= n < 0xE000) then Some((n as char, 3)) else None
      else if 0xF0 <= b0 < 0xF8 && |bs| >= 4 && IsContinuation(bs[1]) && IsContinuation(bs[2]) && IsContinuation(bs[3]) then
        var n := (((b0 - 0xF0) * 64 + Low6(bs[1])) * 64 + Low6(bs[2])) * 64 + Low6(bs[3]);
        if 0x1_0000 <= n < 0x11_0000 then Some((n as char, 4)) else None
      else None
  }

  /** Reading a whole byte sequence as UTF-8; `None` when it is not well formed. */
  function Utf8Decode(bs: seq<byte>): Option<string>
    decreases |bs|
  {
    if bs == [] then Some([])
    else
      match DecodeChar(bs)
      case None => None
      case Some((c, k)) =>
        match Utf8Decode(bs[k..])
        case None => None
        case Some(rest) => Some([c] + rest)
  }

  /** Cutting `n` into a quotient and a 6-bit remainder, and putting it back. */
  lemma Cut6(n: int)
    requires n >= 0
    ensures 0 <= n % 64 < 64 && n / 64 >= 0 && (n / 64) * 64 + n % 64 == n
  {
  }

  /** The first character's bytes decode to that character, whatever follows. */
  lemma DecodeCharOf(c: char, rest: seq<byte>)
    ensures DecodeChar(Utf8Char(c) + rest) == Some((c, |Utf8Char(c)|))
  {
    var n := c as int;
    var q1, r1 := n / 64, n % 64;
    var q2, r2 := q1 / 64, q1 % 64;
    var q3, r3 := q2 / 64, q2 % 64;
    Cut6(n);
    Cut6(q1);
    Cut6(q2);
    var bs := Utf8Char(c) + rest;
    if n < 0x80 {
    } else if n < 0x800 {
      assert bs[0] as int == 0xC0 + q1 && Low6(bs[1]) == r1;
    } else if n < 0x1_0000 {
      assert bs[0] as int == 0xE0 + q2 && Low6(bs[1]) == r2 && Low6(bs[2]) == r1;
    } else {
      assert bs[0] as int == 0xF0 + q3 && Low6(bs[1]) == r3 && Low6(bs[2]) == r2 && Low6(bs[3]) == r1;
    }
  }

  /** UTF-8 decoding inverts the encoding. */
  lemma {:induction false} Utf8RoundTrip(s: string)
    ensures Utf8Decode(Utf8(s)) == Some(s)
    decreases |s|
  {
    if s != [] {
      var head := Utf8Char(s[0]);
      var rest := Utf8(s[1..]);
      DecodeCharOf(s[0], rest);
      assert (head + rest)[|head|..] == rest;
      Utf8RoundTrip(s[1..]);
      assert [s[0]] + s[1..] == s;
    }
  }

  // --- base64 ---

  /** The alphabet of section 4 of RFC 4648: A-Z, a-z, 0-9, '+', '/'. */
  function Base64Char(v: nat): (c: char)
    requires v < 64
    ensures c != '='
  {
    if v < 26 then ('A' as int + v) as char
    else if v < 52 then ('a' as int + v - 26) as char
    else if v < 62 then ('0' as int + v - 52) as char
    else if v == 62 then '+'
    else '/'
  }

  /** The 6-bit value of an alphabet character. */
  function Base64Value(c: char): (r: Option<nat>)
    ensures r.Some? ==> r.value < 64 && Base64Char(r.value) == c
  {
    if 'A' <= c <= 'Z' then Some(c as int - 'A' as int)
    else if 'a' <= c <= 'z' then Some(c as int - 'a' as int + 26)
    else if '0' <= c <= '9' then Some(c as int - '0' as int + 52)
    else if c == '+' then Some(62)
    else if c == '/' then Some(63)
    else None
  }

  lemma Base64ValueOfChar(v: nat)
    requires v < 64
    ensures Base64Value(Base64Char(v)) == Some(v)
  {
  }

  /** Three bytes as four 6-bit values, high bits first. */
  function EncodeBlock(b0: byte, b1: byte, b2: byte): string {
    var x0, y0 := b0 as int / 4, b0 as int % 4;
    var x1, y1 := b1 as int / 16, b1 as int % 16;
    var x2, y2 := b2 as int / 64, b2 as int % 64;
    [Base64Char(x0), Base64Char(y0 * 16 + x1), Base64Char(y1 * 4 + x2), Base64Char(y2)]
  }

  /** `Base64.encodeToString(bytes, NO_WRAP)`: four characters per three bytes, the last group padded with '='. */
  function Base64Encode(bs: seq<byte>): (s: string)
    ensures |s| % 4 == 0
    decreases |bs|
  {
    if |bs| == 0 then ""
    else if |bs| == 1 then EncodeBlock(bs[0], 0, 0)[..2] + "=="
    else if |bs| == 2 then EncodeBlock(bs[0], bs[1], 0)[..3] + "="
    else EncodeBlock(bs[0], bs[1], bs[2]) + Base64Encode(bs[3..])
  }

  /** Four characters back to the (up to) three bytes they carry; `None` for a malformed group. */
  function DecodeBlock(g: string, last: bool): (r: Option<seq<byte>>)
    requires |g| == 4
  {
    var v0 := Base64Value(g[0]);
    var v1 := Base64Value(g[1]);
    var v2 := Base64Value(g[2]);
    var v3 := Base64Value(g[3]);
    if v0.None? || v1.None? then None
    else if last && g[2] == '=' && g[3] == '=' then
      if v1.value % 16 != 0 then None
      else Some([(v0.value * 4 + v1.value / 16) as byte])
    else if last && v2.Some? && g[3] == '=' then
      if v2.value % 4 != 0 then None
      else Some([(v0.value * 4 + v1.value / 16) as byte, (v1.value % 16 * 16 + v2.value / 4) as byte])
    else if v2.Some? && v3.Some? then
      Some([(v0.value * 4 + v1.value / 16) as byte, (v1.value % 16 * 16 + v2.value / 4) as byte,
            (v2.value % 4 * 64 + v3.value) as byte])
    else None
  }

  /** Reading base64 text back to bytes; `None` when it is not canonical base64. */
  function Base64Decode(s: string): Option<seq<byte>>
    decreases |s|
  {
    if |s| == 0 then Some([])
    else if |s| < 4 then None
    else
      match DecodeBlock(s[..4], |s| == 4)
      case None => None
      case Some(bs) =>
        if |bs| < 3 && |s| > 4 then None
        else
          match Base64Decode(s[4..])
          case None => None
          case Some(rest) => Some(bs + rest)
  }

  /** A quotient and remainder put side by side, and read back. */
  lemma Pack16(hi: int, lo: int)
    requires 0 <= lo < 16
    ensures (hi * 16 + lo) / 16 == hi && (hi * 16 + lo) % 16 == lo
  {
  }

  lemma Pack4(hi: int, lo: int)
    requires 0 <= lo < 4
    ensures (hi * 4 + lo) / 4 == hi && (hi * 4 + lo) % 4 == lo
  {
  }

  lemma FullBlockRoundTrip(b0: byte, b1: byte, b2: byte, last: bool)
    ensures DecodeBlock(EncodeBlock(b0, b1, b2), last) == Some([b0, b1, b2])
  {
    var x0, y0 := b0 as int / 4, b0 as int % 4;
    var x1, y1 := b1 as int / 16, b1 as int % 16;
    var x2, y2 := b2 as int / 64, b2 as int % 64;
    Base64ValueOfChar(x0);
    Base64ValueOfChar(y0 * 16 + x1);
    Base64ValueOfChar(y1 * 4 + x2);
    Base64ValueOfChar(y2);
    Pack16(y0, x1);
    Pack4(y1, x2);
  }

  lemma OneByteRoundTrip(b0: byte)
    ensures DecodeBlock(EncodeBlock(b0, 0, 0)[..2] + "==", true) == Some([b0])
  {
    var x0, y0 := b0 as int / 4, b0 as int % 4;
    Base64ValueOfChar(x0);
    Base64ValueOfChar(y0 * 16);
    Pack16(y0, 0);
  }

  lemma TwoByteRoundTrip(b0: byte, b1: byte)
    ensures DecodeBlock(EncodeBlock(b0, b1, 0)[..3] + "=", true) == Some([b0, b1])
  {
    var x0, y0 := b0 as int / 4, b0 as int % 4;
    var x1, y1 := b1 as int / 16, b1 as int % 16;
    Base64ValueOfChar(x0);
    Base64ValueOfChar(y0 * 16 + x1);
    Base64ValueOfChar(y1 * 4);
    Pack16(y0, x1);
    Pack4(y1, 0);
  }

  /** A group of four characters in front of more text decodes to its three bytes. */
  lemma GroupStep(g: string, rest: string, b: seq<byte>)
    requires |g| == 4 && |rest| > 0 && DecodeBlock(g, false) == Some(b) && |b| == 3
    ensures Base64Decode(g + rest) ==
      match Base64Decode(rest) case None => None case Some(r) => Some(b + r)
  {
    assert (g + rest)[..4] == g && (g + rest)[4..] == rest;
  }

  /** The final group decodes on its own. */
  lemma LastGroup(g: string, b: seq<byte>)
    requires |g| == 4 && DecodeBlock(g, true) == Some(b)
    ensures Base64Decode(g) == Some(b)
  {
    assert g[..4] == g && g[4..] == [];
    assert Base64Decode(g[4..]) == Some([]);
    assert b + [] == b;
  }

  /** One or two bytes make a single padded group that decodes back to them. */
  lemma ShortRoundTrip(bs: seq<byte>)
    requires 1 <= |bs| <= 2
    ensures Base64Decode(Base64Encode(bs)) == Some(bs)
  {
    if |bs| == 1 {
      OneByteRoundTrip(bs[0]);
      LastGroup(Base64Encode(bs), [bs[0]]);
      assert [bs[0]] == bs;
    } else {
      TwoByteRoundTrip(bs[0], bs[1]);
      LastGroup(Base64Encode(bs), [bs[0], bs[1]]);
      assert [bs[0], bs[1]] == bs;
    }
  }

  /** Three bytes make one unpadded group that decodes back to them. */
  lemma OneGroupRoundTrip(bs: seq<byte>)
    requires |bs| == 3
    ensures Base64Decode(Base64Encode(bs)) == Some(bs)
  {
    FullBlockRoundTrip(bs[0], bs[1], bs[2], true);
    assert Base64Encode(bs) == EncodeBlock(bs[0], bs[1], bs[2]);
    LastGroup(Base64Encode(bs), [bs[0], bs[1], bs[2]]);
    assert [bs[0], bs[1], bs[2]] == bs;
  }

  /** A full leading group decodes to its three bytes in front of whatever the rest decodes to. */
  lemma LeadingGroup(bs: seq<byte>)
    requires |bs| > 3
    ensures Base64Decode(Base64Encode(bs[3..])) == Some(bs[3..]) ==> Base64Decode(Base64Encode(bs)) == Some(bs)
  {
    var g := EncodeBlock(bs[0], bs[1], bs[2]);
    var head := [bs[0], bs[1], bs[2]];
    assert head + bs[3..] == bs;
    FullBlockRoundTrip(bs[0], bs[1], bs[2], false);
    GroupStep(g, Base64Encode(bs[3..]), head);
  }

  /** Base64 decoding inverts the encoding. */
  lemma {:induction false} Base64RoundTrip(bs: seq<byte>)
    ensures Base64Decode(Base64Encode(bs)) == Some(bs)
    decreases |bs|
  {
    if 1 <= |bs| <= 2 {
      ShortRoundTrip(bs);
    } else if |bs| == 3 {
      OneGroupRoundTrip(bs);
    } else if |bs| > 3 {
      Base64RoundTrip(bs[3..]);
      LeadingGroup(bs);
    }
  }
}
