/** One dt_fixup pass is a normaliser: exactly when a second pass reproduces the first pass's bytes. */
module DtFixupProofs {
  import opened Results
  import opened Bytes
  import Utf8
  import opened Utf8Text
  import opened DtFixup

  /** What is used of Python's int(text, 0): it reads hex() back, rejects the empty text, and four
      characters cannot spell a large number. */
  ghost predicate PythonLiterals(lit: Literal) {
    && (forall n: nat :: lit(Hex(n)) == Some(n))
    && lit("") == None
    && (forall s: string :: |s| <= 4 && lit(s).Some? ==> lit(s).value < 0x1_0000)
  }

  predicate Reserved(s: string) {
    StartsWith(s, U32_PREFIX) || StartsWith(s, U64_PREFIX) || s == NULL_TEXT
  }

  predicate AsciiText(s: string) {
    forall i :: 0 <= i < |s| ==> 0 < s[i] as int < 0x80
  }

  predicate PrintableText(s: string) {
    |s| >= 3 && forall i :: 0 <= i < |s| ==> 0x20 <= s[i] as int < 0x7F
  }

  // ---------- text and bytes ----------

  function AsciiBytes(s: string): (b: seq<byte>)
    requires AsciiText(s)
    ensures |b| == |s| && forall i :: 0 <= i < |s| ==> b[i] == s[i] as int
  {
    seq(|s|, i requires 0 <= i < |s| => s[i] as int as byte)
  }

  lemma {:induction false} AsciiEncodes(s: string)
    requires AsciiText(s)
    ensures Encode(s) == AsciiBytes(s)
  {
    if s != "" {
      AsciiEncodes(s[1..]);
      assert EncodeChar(s[0]) == [s[0] as int];
    }
  }

  function Nuls(n: nat): string { seq(n, _ => '\0') }

  lemma {:induction false} EncodeNuls(n: nat)
    ensures Encode(Nuls(n)) == Zeros(n)
  {
    if n > 0 {
      EncodeNuls(n - 1);
      assert Nuls(n)[1..] == Nuls(n - 1);
      assert EncodeChar('\0') == [0];
      assert Zeros(n) == [0] + Zeros(n - 1);
    }
  }

  lemma {:induction false} EncodeConcat(a: string, b: string)
    ensures Encode(a + b) == Encode(a) + Encode(b)
  {
    if a == "" {
      assert a + b == b;
    } else {
      assert (a + b)[1..] == a[1..] + b;
      EncodeConcat(a[1..], b);
    }
  }

  lemma {:induction false} EncodedIsValid(s: string)
    ensures Utf8.Valid(Encode(s))
  {
    hide EncodeChar;
    if s != "" {
      CharReads(s[0], Encode(s[1..]));
      EncodedIsValid(s[1..]);
      assert Encode(s)[|EncodeChar(s[0])|..] == Encode(s[1..]);
    }
  }

  lemma {:induction false} UpToNulIs(a: string, n: nat)
    requires forall i :: 0 <= i < |a| ==> a[i] != '\0'
    ensures UpToNul(a + Nuls(n)) == a
  {
    if a == "" {
      assert a + Nuls(n) == Nuls(n);
    } else {
      assert (a + Nuls(n))[1..] == a[1..] + Nuls(n);
      UpToNulIs(a[1..], n);
    }
  }

  /** Padded text reads back as that text. */
  lemma PaddedReads(s: string, n: nat)
    requires forall i :: 0 <= i < |s| ==> s[i] != '\0'
    ensures NullTerminated(Encode(s) + Zeros(n)) == Ok(s)
  {
    hide Encode, DecodeReplacing, UpToNul, Utf8.Valid;
    EncodeNuls(n);
    EncodeConcat(s, Nuls(n));
    EncodedIsValid(s + Nuls(n));
    TextRoundTrip(s + Nuls(n));
    UpToNulIs(s, n);
  }

  lemma {:induction false} FirstNulIs(b: seq<byte>, n: nat)
    requires n <= |b| && (forall i :: 0 <= i < n ==> b[i] != 0) && (n < |b| ==> b[n] == 0)
    ensures FirstNul(b) == n
  {
    if n > 0 {
      FirstNulIs(b[1..], n - 1);
    }
  }

  // ---------- single values ----------

  /** Little-endian digits, both ways. */
  lemma LeNumber4(b: seq<byte>)
    requires |b| == 4
    ensures Le32(U32(b, 0)) == b
  {
    Le32At(b, 0);
    assert b[0..4] == b;
  }

  lemma LeNumber8(b: seq<byte>)
    requires |b| == 8
    ensures U64(b, 0) < WORD_LIMIT * WORD_LIMIT && Le64(U64(b, 0)) == b
  {
    hide Le32, U32;
    Le32At(b, 0);
    Le32At(b, 4);
    TwoWords(U32(b, 0), U32(b, 4));
    assert b == b[0..4] + b[4..8];
  }

  lemma TwoWords(lo: nat, hi: nat)
    requires lo < 0x1_0000_0000 && hi < 0x1_0000_0000
    ensures (lo + 0x1_0000_0000 * hi) % 0x1_0000_0000 == lo && (lo + 0x1_0000_0000 * hi) / 0x1_0000_0000 == hi
    ensures lo + 0x1_0000_0000 * hi < 0x1_0000_0000 * 0x1_0000_0000
  {
  }

  lemma HexText(prefix: string, n: nat, lit: Literal)
    requires PythonLiterals(lit) && |prefix| == 4
    ensures lit((prefix + Hex(n))[4..]) == Some(n)
  {
    assert (prefix + Hex(n))[4..] == Hex(n);
  }

  lemma Prefixes(n: nat)
    ensures StartsWith(U32_PREFIX + Hex(n), U32_PREFIX)
    ensures StartsWith(U64_PREFIX + Hex(n), U64_PREFIX) && !StartsWith(U64_PREFIX + Hex(n), U32_PREFIX)
    ensures !StartsWith(NULL_TEXT, U32_PREFIX) && !StartsWith(NULL_TEXT, U64_PREFIX)
  {
    assert (U64_PREFIX + Hex(n))[1] == '6' && U32_PREFIX[1] == '3';
    assert NULL_TEXT[0] == '<' && U32_PREFIX[0] == 'u' && U64_PREFIX[0] == 'u';
  }

  /** A plain text: not reserved and, unless it is a name, what the string test accepts. */
  predicate Plain(name: string, s: string) {
    !Reserved(s) && (name == NAME || PrintableText(s))
  }

  lemma PlainEntry(s: string, lit: Literal)
    requires !Reserved(s) && AsciiText(s)
    ensures ParseEntry(Text(s), lit) == Ok((|s| + 1, AsciiBytes(s) + Zeros(Aligned(|s| + 1) - |s|)))
  {
    AsciiEncodes(s);
  }

  /** Text that was accepted for writing is followed by at least one NUL. */
  lemma TextEntry(s: string, lit: Literal) returns (n: nat)
    requires !Reserved(s) && NulFreeText(s) && ParseEntry(Text(s), lit).Ok?
    ensures ParseEntry(Text(s), lit) == Ok((|s| + 1, Encode(s) + Zeros(n)))
    ensures n > 0 && |Encode(s)| + n == Aligned(|s| + 1)
  {
    hide Encode;
    var b := Encode(s);
    NulFree(s);
    n := |Padded(b, Aligned(|s| + 1))| - |b|;
    NoPadding(b, n);
  }

  lemma NoPadding(b: seq<byte>, n: nat)
    ensures n == 0 ==> b + Zeros(n) == b
  {
  }

  lemma PlainRereads(name: string, s: string, n: nat)
    requires NulFreeText(s) && (name == NAME || PrintableText(s))
    ensures DecodeValue(name, Encode(s) + Zeros(n)) == Ok(Text(s))
  {
    hide NullTerminated, Encode;
    PaddedReads(s, n);
    if name != NAME {
      AsciiEncodes(s);
      FirstNulIs(AsciiBytes(s) + Zeros(n), |s|);
    }
  }

  predicate ReadAsText(name: string, b: seq<byte>) { name == NAME || ProbablyString(b) }

  /** The text of eight or four bytes that keep their length through a text: all but the last are ASCII. */
  predicate KeepsLength(b: seq<byte>)
    requires |b| >= 1
  {
    FirstNul(b) == |b| - 1 && Utf8.Ascii(b) && NullTerminated(b).Ok? && !Reserved(NullTerminated(b).value)
  }

  /** The values the second pass writes as the first did: conditions on the value alone. */
  predicate Settled(name: string, v: Value, lit: Literal) {
    match v
    case Raw(b) => true
    case Text(s) =>
      if StartsWith(s, U32_PREFIX) then
        lit(s[4..]).Some? && 0 <= lit(s[4..]).value < WORD_LIMIT
        && (ReadAsText(name, Le32(lit(s[4..]).value)) ==> KeepsLength(Le32(lit(s[4..]).value)))
      else if StartsWith(s, U64_PREFIX) then
        lit(s[4..]).Some? && 0 <= lit(s[4..]).value < WORD_LIMIT * WORD_LIMIT
        && (ReadAsText(name, Le64(lit(s[4..]).value)) ==> KeepsLength(Le64(lit(s[4..]).value)))
      else s == NULL_TEXT ==> name != NAME
  }

  predicate NulFreeText(s: string) {
    forall i :: 0 <= i < |s| ==> s[i] != '\0'
  }

  /** What the first pass can produce from a whole record. */
  predicate Produced(name: string, v: Value) {
    match v
    case Raw(b) => |b| % 4 == 0 && |b| != 0 && |b| != 4 && |b| != 8 && |b| < FLAG_BIT && !ReadAsText(name, b)
    case Text(s) => NulFreeText(s) && (Reserved(s) || (Plain(name, s) && |s| < FLAG_BIT - 1))
  }

  /** The value read back from what was written for `v`. */
  function Reread(name: string, v: Value, lit: Literal): Outcome<Value> {
    var (length, bytes) :- ParseEntry(v, lit);
    DecodeValue(name, bytes)
  }

  /** Writing, reading and writing again gives the same length word and bytes. */
  predicate Stable(name: string, v: Value, lit: Literal) {
    && ParseEntry(v, lit).Ok? && Reread(name, v, lit).Ok?
    && ParseEntry(Reread(name, v, lit).value, lit) == ParseEntry(v, lit)
  }

  /** Bytes read as text and written again. */
  lemma TextOfBytes(name: string, b: seq<byte>, lit: Literal)
    requires PythonLiterals(lit) && (|b| == 4 || |b| == 8) && ReadAsText(name, b)
    ensures KeepsLength(b) ==> DecodeValue(name, b).Ok? && ParseEntry(DecodeValue(name, b).value, lit) == Ok((|b|, b))
    ensures !KeepsLength(b) && DecodeValue(name, b).Ok? && ParseEntry(DecodeValue(name, b).value, lit).Ok? ==>
              ParseEntry(DecodeValue(name, b).value, lit).value.0 != |b|
              || ParseEntry(DecodeValue(name, b).value, lit).value.1 != b
  {
    hide DecodeReplacing, UpToNul, Utf8.Valid, Encode, Le32, NullTerminated;
    if KeepsLength(b) {
      KeptEntry(b, lit);
    } else if DecodeValue(name, b).Ok? && ParseEntry(DecodeValue(name, b).value, lit) == Ok((|b|, b)) {
      NotKept(b, lit);
    }
  }

  lemma KeptEntry(b: seq<byte>, lit: Literal)
    requires (|b| == 4 || |b| == 8) && KeepsLength(b)
    ensures ParseEntry(Text(NullTerminated(b).value), lit) == Ok((|b|, b))
  {
    hide NullTerminated, Reserved, Utf8.Valid, Encode;
    KeptText(b);
    var s := NullTerminated(b).value;
    PlainEntry(s, lit);
    assert b == AsciiBytes(s) + Zeros(1);
  }

  lemma KeptText(b: seq<byte>)
    requires |b| >= 1 && KeepsLength(b)
    ensures var s := NullTerminated(b).value;
            AsciiText(s) && |s| == |b| - 1 && AsciiBytes(s) == b[..|b| - 1] && b[|b| - 1] == 0
  {
    hide Utf8.Valid, Encode, Reserved;
    AsciiDecodes(b);
    var t := DecodeReplacing(b);
    CutAtNul(t, FirstNul(b));
  }

  lemma {:induction false} CutAtNul(t: string, n: nat)
    requires n <= |t| && (forall i :: 0 <= i < n ==> t[i] != '\0') && (n < |t| ==> t[n] == '\0')
    ensures UpToNul(t) == t[..n]
  {
    if n > 0 {
      var rest := t[1..];
      assert forall i :: 0 <= i < |rest| ==> rest[i] == t[i + 1];
      CutAtNul(rest, n - 1);
      assert UpToNul(t) == [t[0]] + UpToNul(rest);
      assert t[..n] == [t[0]] + rest[..n - 1];
    }
  }

  /** The text up to the NUL has at most as many characters as bytes, and as many only when they are ASCII. */
  lemma {:induction false} TextShape(b: seq<byte>)
    requires Utf8.Valid(b)
    ensures |UpToNul(DecodeReplacing(b))| <= FirstNul(b)
    ensures |UpToNul(DecodeReplacing(b))| == FirstNul(b) ==> Utf8.Ascii(b[..FirstNul(b)])
    decreases |b|
  {
    hide ScalarOf, BadLength, Utf8.SequenceLength;
    if b != [] && b[0] != 0 {
      var k := Utf8.SequenceLength(b);
      TextShape(b[k..]);
      SkipSequence(b, k);
      FirstChar(b);
      if |UpToNul(DecodeReplacing(b))| == FirstNul(b) {
        AsciiCons(b);
      }
    } else {
      NulFirst(b);
    }
  }

  lemma NulFirst(b: seq<byte>)
    requires b == [] || b[0] == 0
    ensures UpToNul(DecodeReplacing(b)) == ""
  {
  }

  lemma FirstChar(b: seq<byte>)
    requires b != [] && b[0] != 0 && Utf8.SequenceLength(b) > 0
    ensures |UpToNul(DecodeReplacing(b))| <= 1 + |UpToNul(DecodeReplacing(b[Utf8.SequenceLength(b)..]))|
    ensures Utf8.SequenceLength(b) == 1 ==> b[0] < 0x80
  {
    hide ScalarOf, BadLength;
    var t := DecodeReplacing(b);
    assert t[1..] == DecodeReplacing(b[Utf8.SequenceLength(b)..]);
  }

  lemma AsciiCons(b: seq<byte>)
    requires b != [] && b[0] != 0 && b[0] < 0x80 && Utf8.Ascii(b[1..][..FirstNul(b[1..])]) && FirstNul(b) == 1 + FirstNul(b[1..])
    ensures Utf8.Ascii(b[..FirstNul(b)])
  {
    var n := FirstNul(b);
    forall i | 0 <= i < n
      ensures b[i] < 0x80
    {
      if i > 0 {
        assert b[1..][..n - 1][i - 1] == b[i];
      }
    }
  }

  lemma SkipSequence(b: seq<byte>, k: nat)
    requires b != [] && b[0] != 0 && k == Utf8.SequenceLength(b) > 0
    ensures FirstNul(b) == k + FirstNul(b[k..])
  {
    var n := k + FirstNul(b[k..]);
    forall i | 0 <= i < n
      ensures b[i] != 0
    {
      if i >= k {
        assert b[i] == b[k..][i - k];
      }
    }
    FirstNulIs(b, n);
  }

  lemma NotKept(b: seq<byte>, lit: Literal)
    requires PythonLiterals(lit) && (|b| == 4 || |b| == 8) && NullTerminated(b).Ok?
    requires ParseEntry(Text(NullTerminated(b).value), lit) == Ok((|b|, b))
    ensures KeepsLength(b)
  {
    hide DecodeReplacing, UpToNul, Utf8.Valid, Encode, Le32;
    var s := NullTerminated(b).value;
    TextShape(b);
    if StartsWith(s, U32_PREFIX) {
      U32TextIsLong(s, lit);
    } else if StartsWith(s, U64_PREFIX) {
      U64TextIsLong(s, lit);
    }
  }

  lemma U32TextIsLong(s: string, lit: Literal)
    requires PythonLiterals(lit) && StartsWith(s, U32_PREFIX) && ParseEntry(Text(s), lit).Ok?
    ensures |s| > 4
  {
    DropFour(s);
  }

  lemma DropFour(s: string)
    ensures |s| == 4 ==> s[4..] == ""
  {
  }

  lemma U64TextIsLong(s: string, lit: Literal)
    requires PythonLiterals(lit) && StartsWith(s, U64_PREFIX) && !StartsWith(s, U32_PREFIX) && ParseEntry(Text(s), lit).Ok?
    ensures |s| > 8 || (|ParseEntry(Text(s), lit).value.1| == 8 && FirstNul(ParseEntry(Text(s), lit).value.1) <= 2)
  {
    if |s| <= 8 {
      SmallWord(lit(s[4..]).value);
    }
  }

  lemma SmallWord(n: nat)
    requires n < 0x1_0000
    ensures Le64(n)[2] == 0
  {
  }

  lemma NumberRereads(name: string, s: string, b: seq<byte>, lit: Literal)
    requires PythonLiterals(lit) && (|b| == 4 || |b| == 8) && ParseEntry(Text(s), lit) == Ok((|b|, b))
    ensures Stable(name, Text(s), lit) <==> (ReadAsText(name, b) ==> KeepsLength(b))
  {
    hide Le32, U32, ProbablyString, NullTerminated, KeepsLength, Hex;
    if ReadAsText(name, b) {
      TextOfBytes(name, b, lit);
    } else if |b| == 4 {
      LeNumber4(b);
      Prefixes(U32(b, 0));
      HexText(U32_PREFIX, U32(b, 0), lit);
    } else {
      LeNumber8(b);
      Prefixes(U64(b, 0));
      HexText(U64_PREFIX, U64(b, 0), lit);
    }
  }

  /** A produced value is written the same way twice if and only if it is settled. */
  lemma ValueStableIff(name: string, v: Value, lit: Literal)
    requires PythonLiterals(lit) && Produced(name, v) && ParseEntry(v, lit).Ok?
    ensures Stable(name, v, lit) <==> Settled(name, v, lit)
  {
    hide Le32, Le64, KeepsLength, Encode, NullTerminated, AsciiBytes;
    match v
    case Raw(b) => RawRereads(name, b, lit);
    case Text(s) =>
      if StartsWith(s, U32_PREFIX) {
        NumberRereads(name, s, Le32(lit(s[4..]).value), lit);
      } else if StartsWith(s, U64_PREFIX) {
        NumberRereads(name, s, Le64(lit(s[4..]).value), lit);
      } else if s == NULL_TEXT {
        NullRereads(name, lit);
      } else {
        var n := TextEntry(s, lit);
        PlainRereads(name, s, n);
      }
  }

  lemma RawRereads(name: string, b: seq<byte>, lit: Literal)
    requires Produced(name, Raw(b))
    ensures ParseEntry(Raw(b), lit) == Ok((|b|, b)) && DecodeValue(name, b) == Ok(Raw(b))
  {
    assert Zeros(0) == [];
    assert b + [] == b;
  }

  lemma NullRereads(name: string, lit: Literal)
    ensures Stable(name, Text(NULL_TEXT), lit) <==> name != NAME
  {
    Prefixes(0);
    assert ParseEntry(Text(NULL_TEXT), lit) == Ok((0, []));
    EmptyName(lit);
  }

  lemma EmptyName(lit: Literal)
    ensures NullTerminated([]) == Ok("") && ParseEntry(Text(""), lit) == Ok((1, Zeros(4)))
  {
    assert Encode("") == [];
    assert Padded([], 4) == Zeros(4);
  }

  /** Entries are as long as their length word says, rounded up. */
  lemma EntrySized(v: Value, lit: Literal)
    requires ParseEntry(v, lit).Ok? && (v.Text? ==> NulFreeText(v.s))
    ensures |ParseEntry(v, lit).value.1| == Aligned(ParseEntry(v, lit).value.0)
  {
    hide Encode, Le32;
    if v.Text? && !Reserved(v.s) {
      var n := TextEntry(v.s, lit);
    }
  }

  // ---------- the first pass ----------

  predicate UniqueKeys(ps: seq<(string, Value)>) {
    forall i, j :: 0 <= i < j < |ps| ==> ps[i].0 != ps[j].0
  }

  predicate GoodProp(p: (string, Value)) {
    NulFreeText(p.0) && Produced(p.0, p.1)
  }

  predicate GoodProps(ps: seq<(string, Value)>) {
    forall i :: 0 <= i < |ps| ==> GoodProp(ps[i])
  }

  lemma AsciiPrefix(b: seq<byte>)
    requires ProbablyString(b)
    ensures Utf8.Ascii(b) && NullTerminated(b).Ok? && PrintableText(NullTerminated(b).value)
    ensures |NullTerminated(b).value| == FirstNul(b)
  {
    hide Utf8.Valid, DecodeReplacing;
    var n := FirstNul(b);
    assert Utf8.Ascii(b) by {
      forall i | 0 <= i < |b|
        ensures b[i] < 0x80
      {
        if i >= n {
          assert b[i] == 0;
        }
      }
    }
    AsciiDecodes(b);
    Utf8.AsciiIsValid(b);
    CutAtNul(DecodeReplacing(b), n);
  }

  lemma TextLength(b: seq<byte>)
    requires NullTerminated(b).Ok?
    ensures |NullTerminated(b).value| <= |b| && NulFreeText(NullTerminated(b).value)
  {
    hide DecodeReplacing, Utf8.Valid;
    TextShape(b);
  }

  /** What one whole value decodes to. */
  lemma DecodedValue(name: string, b: seq<byte>)
    requires DecodeValue(name, b).Ok? && |b| % 4 == 0 && |b| < FLAG_BIT - 1
    ensures Produced(name, DecodeValue(name, b).value)
  {
    hide NullTerminated, ProbablyString, HexDigits;
    if ReadAsText(name, b) {
      TextLength(b);
      if name != NAME {
        AsciiPrefix(b);
      }
    } else if |b| == 4 {
      Prefixes(U32(b, 0));
      HexHasNoNul(U32(b, 0));
    } else if |b| == 8 {
      Prefixes(U64(b, 0));
      U64Range(b);
      HexHasNoNul(U64(b, 0));
    }
  }

  lemma U64Range(b: seq<byte>)
    requires |b| >= 8
    ensures U64(b, 0) < WORD_LIMIT * WORD_LIMIT
  {
  }

  lemma {:induction false} HexHasNoNul(n: nat)
    ensures NulFreeText(HexDigits(n))
  {
    if n >= 16 {
      HexHasNoNul(n / 16);
    }
  }
}
