/** Python text and UTF-8: `encode("utf8")` and `decode("utf8", "replace")`. */
module Utf8Text {
  import opened Bytes
  import Utf8

  function EncodeChar(c: char): (b: seq<byte>)
    ensures 1 <= |b| <= 4
  {
    var v := c as int;
    if v < 0x80 then [v]
    else if v < 0x800 then [0xC0 + v / 0x40, 0x80 + v % 0x40]
    else if v < 0x1_0000 then [0xE0 + v / 0x1000, 0x80 + v / 0x40 % 0x40, 0x80 + v % 0x40]
    else [0xF0 + v / 0x4_0000, 0x80 + v / 0x1000 % 0x40, 0x80 + v / 0x40 % 0x40, 0x80 + v % 0x40]
  }

  function Encode(s: string): seq<byte> {
    if s == "" then [] else EncodeChar(s[0]) + Encode(s[1..])
  }

  /** The code point of a well-formed sequence. */
  function ScalarOf(b: seq<byte>): (v: int)
    requires Utf8.SequenceLength(b) > 0
    ensures 0 <= v < 0xD800 || 0xE000 <= v < 0x11_0000
  {
    var n := Utf8.SequenceLength(b);
    if n == 1 then b[0] as int
    else if n == 2 then (b[0] as int - 0xC0) * 0x40 + (b[1] as int - 0x80)
    else if n == 3 then (b[0] as int - 0xE0) * 0x1000 + (b[1] as int - 0x80) * 0x40 + (b[2] as int - 0x80)
    else (b[0] as int - 0xF0) * 0x4_0000 + (b[1] as int - 0x80) * 0x1000 + (b[2] as int - 0x80) * 0x40
         + (b[3] as int - 0x80)
  }

  /** How many bytes of an ill-formed sequence one replacement character stands for. */
  function BadLength(b: seq<byte>): (n: nat)
    requires b != [] && Utf8.SequenceLength(b) == 0
    ensures 1 <= n <= |b|
  {
    if |b| < 2 || !(0xE0 <= b[0] < 0xF5) then 1
    else
      var lo := if b[0] == 0xE0 then 0xA0 else if b[0] == 0xF0 then 0x90 else 0x80;
      var hi := if b[0] == 0xED then 0xA0 else if b[0] == 0xF4 then 0x90 else 0xC0;
      if !(lo <= b[1] < hi) then 1
      else if b[0] >= 0xF0 && |b| >= 3 && Utf8.Continuation(b[2]) then 3
      else 2
  }

  const REPLACEMENT := '\U{FFFD}'

  function DecodeReplacing(b: seq<byte>): string
    decreases |b|
  {
    if b == [] then ""
    else if Utf8.SequenceLength(b) > 0 then [ScalarOf(b) as char] + DecodeReplacing(b[Utf8.SequenceLength(b)..])
    else [REPLACEMENT] + DecodeReplacing(b[BadLength(b)..])
  }

  lemma CharReads(c: char, rest: seq<byte>)
    ensures Utf8.SequenceLength(EncodeChar(c) + rest) == |EncodeChar(c)|
    ensures ScalarOf(EncodeChar(c) + rest) as char == c
  {
    var v := c as int;
    var b := EncodeChar(c) + rest;
    if v < 0x80 {
    } else if v < 0x800 {
      assert v == v / 0x40 * 0x40 + v % 0x40;
    } else if v < 0x1_0000 {
      assert v / 0x1000 == v / 0x40 / 0x40;
      assert v == v / 0x1000 * 0x1000 + v / 0x40 % 0x40 * 0x40 + v % 0x40;
    } else {
      assert v / 0x1000 == v / 0x40 / 0x40 && v / 0x4_0000 == v / 0x1000 / 0x40;
      assert v == v / 0x4_0000 * 0x4_0000 + v / 0x1000 % 0x40 * 0x1000 + v / 0x40 % 0x40 * 0x40 + v % 0x40;
    }
  }

  /** Encoding then decoding gives the text back, whatever the text. */
  lemma {:induction false} TextRoundTrip(s: string)
    ensures DecodeReplacing(Encode(s)) == s
    decreases |s|
  {
    hide EncodeChar, ScalarOf, BadLength;
    if s != "" {
      CharReads(s[0], Encode(s[1..]));
      TextRoundTrip(s[1..]);
      var b := Encode(s);
      assert b[|EncodeChar(s[0])|..] == Encode(s[1..]);
    }
  }

  lemma {:induction false} AsciiDecodes(b: seq<byte>)
    requires Utf8.Ascii(b)
    ensures Encode(DecodeReplacing(b)) == b && |DecodeReplacing(b)| == |b|
    ensures forall i :: 0 <= i < |b| ==> DecodeReplacing(b)[i] as int == b[i]
  {
    if b != [] {
      AsciiDecodes(b[1..]);
      var s := DecodeReplacing(b);
      assert s[1..] == DecodeReplacing(b[1..]);
      assert b == [b[0]] + b[1..];
    }
  }

  /** Text without NUL encodes without NUL. */
  lemma {:induction false} NulFree(s: string)
    requires forall i :: 0 <= i < |s| ==> s[i] != '\0'
    ensures forall i :: 0 <= i < |Encode(s)| ==> Encode(s)[i] != 0
  {
    if s != "" {
      NulFree(s[1..]);
      CharNulFree(s[0]);
    }
  }

  lemma CharNulFree(c: char)
    requires c != '\0'
    ensures forall i :: 0 <= i < |EncodeChar(c)| ==> EncodeChar(c)[i] != 0
  {
    assert c as int != 0;
  }

  // ---------- what decoding means ----------

  /** A well-formed sequence is the encoding of its code point. */
  lemma SequenceEncodes(b: seq<byte>)
    requires Utf8.SequenceLength(b) > 0
    ensures EncodeChar(ScalarOf(b) as char) == b[..Utf8.SequenceLength(b)]
  {
    var n := Utf8.SequenceLength(b);
    if n == 2 {
      TwoBytes(b[0], b[1]);
    } else if n == 3 {
      ThreeBytes(b[0], b[1], b[2]);
    } else if n == 4 {
      FourBytes(b[0], b[1], b[2], b[3]);
    }
  }

  lemma Last64(hi: int, lo: int)
    requires 0 <= lo < 0x40
    ensures (hi * 0x40 + lo) / 0x40 == hi && (hi * 0x40 + lo) % 0x40 == lo
  {
  }

  lemma TwoBytes(a: int, b: int)
    requires 0xC2 <= a < 0xE0 && 0x80 <= b < 0xC0
    ensures var v := (a - 0xC0) * 0x40 + (b - 0x80);
            0x80 <= v < 0x800 && v / 0x40 == a - 0xC0 && v % 0x40 == b - 0x80
  {
  }

  lemma ThreeBytes(a: int, b: int, c: int)
    requires 0xE0 <= a < 0xF0 && 0x80 <= b < 0xC0 && 0x80 <= c < 0xC0 && (a == 0xE0 ==> b >= 0xA0)
    ensures var v := (a - 0xE0) * 0x1000 + (b - 0x80) * 0x40 + (c - 0x80);
            0x800 <= v < 0x1_0000 && v / 0x1000 == a - 0xE0 && v / 0x40 % 0x40 == b - 0x80 && v % 0x40 == c - 0x80
  {
    var top := (a - 0xE0) * 0x40 + (b - 0x80);
    Last64(a - 0xE0, b - 0x80);
    Last64(top, c - 0x80);
    assert (top * 0x40 + (c - 0x80)) / 0x1000 == (top * 0x40 + (c - 0x80)) / 0x40 / 0x40;
  }

  lemma FourBytes(a: int, b: int, c: int, d: int)
    requires 0xF0 <= a < 0xF5 && 0x80 <= b < 0xC0 && 0x80 <= c < 0xC0 && 0x80 <= d < 0xC0 && (a == 0xF0 ==> b >= 0x90)
    ensures var v := (a - 0xF0) * 0x4_0000 + (b - 0x80) * 0x1000 + (c - 0x80) * 0x40 + (d - 0x80);
            v >= 0x1_0000 && v / 0x4_0000 == a - 0xF0 && v / 0x1000 % 0x40 == b - 0x80
            && v / 0x40 % 0x40 == c - 0x80 && v % 0x40 == d - 0x80
  {
    var high := (a - 0xF0) * 0x40 + (b - 0x80);
    var mid := high * 0x40 + (c - 0x80);
    Last64(a - 0xF0, b - 0x80);
    Last64(high, c - 0x80);
    Last64(mid, d - 0x80);
    Quarters(mid * 0x40 + (d - 0x80));
  }

  lemma Quarters(v: int)
    requires v >= 0
    ensures v / 0x1000 == v / 0x40 / 0x40 && v / 0x4_0000 == v / 0x40 / 0x40 / 0x40
  {
    assert v / 0x4_0000 == v / 0x1000 / 0x40;
  }

  /** Valid bytes are the encoding of their text. */
  lemma {:induction false} ValidEncodes(b: seq<byte>)
    requires Utf8.Valid(b)
    ensures Encode(DecodeReplacing(b)) == b
    decreases |b|
  {
    hide ScalarOf, BadLength, EncodeChar, Utf8.SequenceLength;
    if b != [] {
      var n := Utf8.SequenceLength(b);
      SequenceEncodes(b);
      ValidEncodes(b[n..]);
      var t := DecodeReplacing(b);
      assert t[1..] == DecodeReplacing(b[n..]) && t[0] == ScalarOf(b) as char;
      assert b == b[..n] + b[n..];
    }
  }

  /** Some character's encoding begins with these bytes. */
  ghost predicate BeginsACharacter(b: seq<byte>) { exists c: char :: b <= EncodeChar(c) }

  /** Python replaces the longest run that begins some character's encoding by one replacement character,
      and a single byte where none does. */
  lemma BadLengthIsLongest(b: seq<byte>)
    requires b != [] && Utf8.SequenceLength(b) == 0
    ensures BadLength(b) > 1 ==> BeginsACharacter(b[..BadLength(b)])
    ensures forall n :: BadLength(b) < n <= |b| ==> !BeginsACharacter(b[..n])
  {
    var n := BadLength(b);
    if n > 1 {
      var e: seq<byte> := b[..n] + (if b[0] >= 0xF0 && n == 2 then [0x80, 0x80] else [0x80]);
      SequenceEncodes(e);
      assert b[..n] <= EncodeChar(ScalarOf(e) as char);
    }
    forall m | n < m <= |b| ensures !BeginsACharacter(b[..m]) {
      forall c: char ensures !(b[..m] <= EncodeChar(c)) {
        if b[..m] <= EncodeChar(c) { NotLonger(b, m, c); }
      }
    }
  }

  lemma WholeSequence(b: seq<byte>, e: seq<byte>)
    requires e <= b && Utf8.SequenceLength(e) == |e| > 0
    ensures Utf8.SequenceLength(b) == |e|
  {
    assert forall k :: 0 <= k < |e| ==> b[k] == e[k];
  }

  lemma NotLonger(b: seq<byte>, m: nat, c: char)
    requires b != [] && Utf8.SequenceLength(b) == 0 && m <= |b| && b[..m] <= EncodeChar(c)
    ensures m <= BadLength(b)
  {
    var e := EncodeChar(c);
    var none: seq<byte> := [];
    CharReads(c, none);
    assert e + none == e;
    hide EncodeChar;
    assert m > 0 ==> b[0] == e[0];
    assert (m > 1 ==> b[1] == e[1]) && (m > 2 ==> b[2] == e[2]);
    if m == |e| {
      assert e == b[..m];
      WholeSequence(b, e);
    }
  }
}
