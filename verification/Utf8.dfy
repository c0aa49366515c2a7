/** UTF-8 as section 3 of RFC 3629 lays it out: encoding, strict decoding, and cutting. */
module Utf8 {
  import opened Prelude

  type byte = b: int | 0 <= b < 256

  /** How many bytes a character takes. */
  function CharSize(c: char): (n: nat)
    ensures 1 <= n <= 4
  {
    if c as int < 0x80 then 1
    else if c as int < 0x800 then 2
    else if c as int < 0x1_0000 then 3
    else 4
  }

  function EncodeChar(c: char): (b: seq<byte>)
    ensures |b| == CharSize(c)
  {
    var v := c as int;
    if v < 0x80 then [v]
    else if v < 0x800 then [0xC0 + v / 64, 0x80 + v % 64]
    else if v < 0x1_0000 then [0xE0 + v / 4096, 0x80 + v / 64 % 64, 0x80 + v % 64]
    else [0xF0 + v / 0x4_0000, 0x80 + v / 4096 % 64, 0x80 + v / 64 % 64, 0x80 + v % 64]
  }

  function Encode(s: string): (b: seq<byte>)
    ensures |b| >= |s|
  {
    if s == "" then [] else EncodeChar(s[0]) + Encode(s[1..])
  }

  /** len(s.encode("utf-8")) */
  function Size(s: string): nat {
    |Encode(s)|
  }

  predicate Tail(b: byte) {
    0x80 <= b < 0xC0
  }

  predicate IsScalar(v: int) {
    0 <= v < 0xD800 || 0xE000 <= v < 0x11_0000
  }

  function Two(b: seq<byte>): int
    requires |b| >= 2
  {
    (b[0] as int - 0xC0) * 64 + (b[1] as int - 0x80)
  }

  function Three(b: seq<byte>): int
    requires |b| >= 3
  {
    (b[0] as int - 0xE0) * 4096 + (b[1] as int - 0x80) * 64 + (b[2] as int - 0x80)
  }

  function Four(b: seq<byte>): int
    requires |b| >= 4
  {
    (b[0] as int - 0xF0) * 0x4_0000 + (b[1] as int - 0x80) * 4096
    + (b[2] as int - 0x80) * 64 + (b[3] as int - 0x80)
  }

  /** The scalar value at the front of b. Overlong forms, surrogates, values past
      U+10FFFF, stray tail bytes and cut-off sequences are all errors. */
  function DecodeChar(b: seq<byte>): Option<char> {
    if |b| >= 1 && b[0] < 0x80 then Some(b[0] as char)
    else if |b| >= 2 && 0xC2 <= b[0] < 0xE0 && Tail(b[1]) then Some(Two(b) as char)
    else if |b| >= 3 && 0xE0 <= b[0] < 0xF0 && Tail(b[1]) && Tail(b[2]) then
      if Three(b) >= 0x800 && IsScalar(Three(b)) then Some(Three(b) as char) else None
    else if |b| >= 4 && 0xF0 <= b[0] < 0xF5 && Tail(b[1]) && Tail(b[2]) && Tail(b[3]) then
      if Four(b) >= 0x1_0000 && IsScalar(Four(b)) then Some(Four(b) as char) else None
    else None
  }

  /** bytes.decode("utf-8"); None stands for UnicodeDecodeError. */
  function Decode(b: seq<byte>): Option<string> {
    if b == [] then Some("")
    else match DecodeChar(b)
      case None => None
      case Some(c) =>
        if CharSize(c) > |b| then None
        else match Decode(b[CharSize(c)..])
          case None => None
          case Some(s) => Some([c] + s)
  }

  /** The bit layout of RFC 3629, section 3: lead and tail bytes, and the value they hold. */
  lemma EncodingIsStandard(c: char)
    ensures var v, b := c as int, EncodeChar(c);
      if v < 0x80 then b == [v]
      else if v < 0x800 then
        |b| == 2 && b[0] as int / 32 == 6 && b[1] as int / 64 == 2 && b[0] as int % 32 * 64 + b[1] as int % 64 == v
      else if v < 0x1_0000 then
        |b| == 3 && b[0] as int / 16 == 14 && b[1] as int / 64 == 2 && b[2] as int / 64 == 2
        && (b[0] as int % 16 * 64 + b[1] as int % 64) * 64 + b[2] as int % 64 == v
      else
        |b| == 4 && b[0] as int / 8 == 30 && b[1] as int / 64 == 2 && b[2] as int / 64 == 2 && b[3] as int / 64 == 2
        && ((b[0] as int % 8 * 64 + b[1] as int % 64) * 64 + b[2] as int % 64) * 64 + b[3] as int % 64 == v
  {
    var v := c as int;
    assert v == v / 64 * 64 + v % 64 && v / 64 == v / 4096 * 64 + v / 64 % 64;
    assert v / 4096 == v / 0x4_0000 * 64 + v / 4096 % 64;
  }

  lemma DecodeCharOfEncodeChar(c: char, rest: seq<byte>)
    ensures DecodeChar(EncodeChar(c) + rest) == Some(c)
  {
    hide DecodeChar, EncodeChar;
    var v := c as int;
    if v < 0x800 {
      DecodeOfShort(c, rest);
    } else if v < 0x1_0000 {
      DecodeOfThree(c, rest);
    } else {
      DecodeOfFour(c, rest);
    }
  }

  lemma DecodeOfShort(c: char, rest: seq<byte>)
    requires c as int < 0x800
    ensures DecodeChar(EncodeChar(c) + rest) == Some(c)
  {
  }

  lemma DecodeOfThree(c: char, rest: seq<byte>)
    requires 0x800 <= c as int < 0x1_0000
    ensures DecodeChar(EncodeChar(c) + rest) == Some(c)
  {
    var v := c as int;
    assert v == v / 64 * 64 + v % 64 && v / 64 == v / 4096 * 64 + v / 64 % 64;
  }

  lemma DecodeOfFour(c: char, rest: seq<byte>)
    requires 0x1_0000 <= c as int
    ensures DecodeChar(EncodeChar(c) + rest) == Some(c)
  {
    var v := c as int;
    assert v == v / 64 * 64 + v % 64 && v / 64 == v / 4096 * 64 + v / 64 % 64;
    assert v / 4096 == v / 0x4_0000 * 64 + v / 4096 % 64;
  }

  lemma SixBits(high: int, low: int)
    requires 0 <= low < 64
    ensures (high * 64 + low) / 64 == high && (high * 64 + low) % 64 == low
  {
  }

  lemma TwoBytes(b: seq<byte>)
    requires |b| >= 2 && 0xC2 <= b[0] < 0xE0 && Tail(b[1])
    ensures EncodeChar(Two(b) as char) == b[..2]
  {
    SixBits(b[0] as int - 0xC0, b[1] as int - 0x80);
  }

  lemma ThreeBytes(b: seq<byte>)
    requires |b| >= 3 && 0xE0 <= b[0] < 0xF0 && Tail(b[1]) && Tail(b[2])
    requires Three(b) >= 0x800 && IsScalar(Three(b))
    ensures EncodeChar(Three(b) as char) == b[..3]
  {
    var top := (b[0] as int - 0xE0) * 64 + (b[1] as int - 0x80);
    SixBits(b[0] as int - 0xE0, b[1] as int - 0x80);
    SixBits(top, b[2] as int - 0x80);
    assert Three(b) == top * 64 + (b[2] as int - 0x80);
    assert Three(b) / 4096 == top / 64;
  }

  lemma FourBytes(b: seq<byte>)
    requires |b| >= 4 && 0xF0 <= b[0] < 0xF5 && Tail(b[1]) && Tail(b[2]) && Tail(b[3])
    requires Four(b) >= 0x1_0000 && IsScalar(Four(b))
    ensures EncodeChar(Four(b) as char) == b[..4]
  {
    var top := (b[0] as int - 0xF0) * 64 + (b[1] as int - 0x80);
    var mid := top * 64 + (b[2] as int - 0x80);
    SixBits(b[0] as int - 0xF0, b[1] as int - 0x80);
    SixBits(top, b[2] as int - 0x80);
    SixBits(mid, b[3] as int - 0x80);
    assert Four(b) == mid * 64 + (b[3] as int - 0x80);
    assert Four(b) / 4096 == mid / 64 && Four(b) / 0x4_0000 == mid / 64 / 64;
  }

  lemma EncodeCharOfDecodeChar(b: seq<byte>)
    requires DecodeChar(b).Some?
    ensures EncodeChar(DecodeChar(b).value) <= b
  {
    hide EncodeChar;
    var c := DecodeChar(b).value;
    if b[0] < 0x80 {
      assert EncodeChar(c) == b[..1] by {
        OneByte(b);
      }
    } else if b[0] < 0xE0 {
      TwoBytes(b);
    } else if b[0] < 0xF0 {
      ThreeBytes(b);
    } else {
      FourBytes(b);
    }
  }

  lemma OneByte(b: seq<byte>)
    requires |b| >= 1 && b[0] < 0x80
    ensures EncodeChar(b[0] as char) == b[..1]
  {
  }

  lemma {:induction false} DecodeOfEncode(s: string)
    ensures Decode(Encode(s)) == Some(s)
  {
    if s != "" {
      hide EncodeChar, DecodeChar;
      DecodeCharOfEncodeChar(s[0], Encode(s[1..]));
      DecodeOfEncode(s[1..]);
      assert Encode(s)[CharSize(s[0])..] == Encode(s[1..]);
      assert [s[0]] + s[1..] == s;
    }
  }

  /** A decoder accepts exactly the byte strings that encode some text. */
  lemma {:induction false} EncodeOfDecode(b: seq<byte>)
    requires Decode(b).Some?
    ensures Encode(Decode(b).value) == b
  {
    if b != [] {
      hide EncodeChar, DecodeChar;
      var c := DecodeChar(b).value;
      EncodeCharOfDecodeChar(b);
      var rest := b[CharSize(c)..];
      assert b == EncodeChar(c) + rest;
      EncodeOfDecode(rest);
      EncodeCons(c, Decode(rest).value);
    }
  }

  lemma EncodeCons(c: char, s: string)
    ensures Encode([c] + s) == EncodeChar(c) + Encode(s)
  {
    assert ([c] + s)[1..] == s;
  }

  lemma {:induction false} EncodeAppend(s: string, t: string)
    ensures Encode(s + t) == Encode(s) + Encode(t)
  {
    if s == "" {
      assert s + t == t;
    } else {
      assert (s + t)[1..] == s[1..] + t;
      EncodeAppend(s[1..], t);
    }
  }

  /** UTF-8 is a prefix code: a valid cut of an encoding is a cut between characters. */
  lemma {:induction false} CutsFallBetweenChars(s: string, w: string)
    requires Encode(s) <= Encode(w)
    ensures s <= w
  {
    if s != "" {
      hide Encode;
      SameFirstChar(s, w);
      CutsFallBetweenChars(s[1..], w[1..]);
    }
  }

  lemma SameFirstChar(s: string, w: string)
    requires s != "" && Encode(s) <= Encode(w)
    ensures w != "" && w[0] == s[0] && Encode(s[1..]) <= Encode(w[1..])
  {
    hide EncodeChar, DecodeChar, CharSize;
    var m := CharSize(s[0]);
    assert Encode(w) == EncodeChar(s[0]) + Encode(w)[m..] by {
      assert Encode(s)[..m] == EncodeChar(s[0]);
    }
    DecodeCharOfEncodeChar(s[0], Encode(w)[m..]);
    DecodeCharOfEncodeChar(w[0], Encode(w[1..]));
    assert Encode(s)[m..] == Encode(s[1..]) && Encode(w)[m..] == Encode(w[1..]);
  }
}
