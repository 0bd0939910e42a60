/** The strict UTF-8 check a Python `decode("utf-8")` performs (Table 3-7 of the Unicode Standard). */
module Utf8 {
  import opened Bytes

  predicate Continuation(b: byte) { 0x80 <= b < 0xC0 }

  /** Length of the well-formed sequence `s` starts with, 0 when it starts with none. */
  function SequenceLength(s: seq<byte>): (n: nat)
    ensures n <= |s| && n <= 4
  {
    if |s| == 0 then 0
    else if s[0] < 0x80 then 1
    else if 0xC2 <= s[0] < 0xE0 then
      if |s| >= 2 && Continuation(s[1]) then 2 else 0
    else if 0xE0 <= s[0] < 0xF0 then
      var lo := if s[0] == 0xE0 then 0xA0 else 0x80;
      var hi := if s[0] == 0xED then 0xA0 else 0xC0;
      if |s| >= 3 && lo <= s[1] < hi && Continuation(s[2]) then 3 else 0
    else if 0xF0 <= s[0] < 0xF5 then
      var lo := if s[0] == 0xF0 then 0x90 else 0x80;
      var hi := if s[0] == 0xF4 then 0x90 else 0xC0;
      if |s| >= 4 && lo <= s[1] < hi && Continuation(s[2]) && Continuation(s[3]) then 4 else 0
    else 0
  }

  predicate Valid(s: seq<byte>) {
    s == [] || (SequenceLength(s) > 0 && Valid(s[SequenceLength(s)..]))
  }

  predicate Ascii(s: seq<byte>) {
    forall i :: 0 <= i < |s| ==> s[i] < 0x80
  }

  lemma {:induction false} AsciiIsValid(s: seq<byte>)
    requires Ascii(s)
    ensures Valid(s)
  {
    if s != [] {
      AsciiIsValid(s[1..]);
    }
  }
}
