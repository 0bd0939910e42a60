/** Trees of one text property: exactly when a second pass keeps them, and two that it does not keep. */
module DtFixupWitness {
  import opened Results
  import opened Bytes
  import opened Utf8Text
  import opened DtFixup
  import opened DtFixupProofs
  import opened DtFixupTree

  /** One node with one text property, as a device tree stores it. */
  function TextTree(name: string, s: string): seq<byte>
    requires |s| < FLAG_BIT - 4
  {
    Le32(1) + Le32(0) + (Padded(Encode(name), 32) + Le32(|s| + 1) + Padded(Encode(s), Aligned(|s| + 1)))
  }

  /** Texts the first pass reads as they stand. */
  predicate Readable(name: string, s: string) {
    && NulFreeText(name) && NulFreeText(s) && |Encode(name)| < 32 && |name| < 32
    && |s| < 1000 && |Encode(s)| == |s| && (name == NAME || PrintableText(s))
  }

  lemma TextFields(name: string, s: string)
    requires Readable(name, s)
    ensures var dt := TextTree(name, s);
            && |dt| == 44 + Aligned(|s| + 1) && U32(dt, 0) == 1 && U32(dt, 4) == 0 && U32(dt, 40) == |s| + 1
            && At(dt, 8, Padded(Encode(name), 32)) && At(dt, 44, Padded(Encode(s), Aligned(|s| + 1)))
  {
    hide Encode, Le32, U32, Padded, PrintableText;
    var dt := TextTree(name, s);
    var field, bytes := Padded(Encode(name), 32), Padded(Encode(s), Aligned(|s| + 1));
    assert dt[0..|dt|] == dt;
    AtConcat(dt, 0, Le32(1) + Le32(0), field + Le32(|s| + 1) + bytes);
    AtConcat(dt, 0, Le32(1), Le32(0));
    AtConcat(dt, 8, field + Le32(|s| + 1), bytes);
    AtConcat(dt, 8, field, Le32(|s| + 1));
    U32At(dt, 0, 1);
    U32At(dt, 4, 0);
    U32At(dt, 40, |s| + 1);
  }

  lemma TextDecodes(name: string, s: string)
    requires Readable(name, s)
    ensures DecodeNode(TextTree(name, s), 0) == Ok((Node([(name, Text(s))], []), |TextTree(name, s)|))
  {
    hide Encode, U32, NullTerminated, DecodeValue, PrintableText, TextTree, Clip;
    var dt := TextTree(name, s);
    var n := Aligned(|s| + 1);
    TextFields(name, s);
    ClipAt(dt, 8, Padded(Encode(name), 32));
    ClipAt(dt, 44, Padded(Encode(s), n));
    PaddedReads(name, 32 - |Encode(name)|);
    PlainRereads(name, s, n - |s|);
    assert Padded(Encode(name), 32) == Encode(name) + Zeros(32 - |Encode(name)|);
    assert Padded(Encode(s), n) == Encode(s) + Zeros(n - |s|);
    assert DecodeProp(dt, 8) == Ok((name, Text(s), |dt|));
    assert DecodeProps(dt, |dt|, 0, [(name, Text(s))]) == Ok(([(name, Text(s))], |dt|));
    assert DecodeProps(dt, 8, 1, []) == Ok(([(name, Text(s))], |dt|));
    assert DecodeChildren(dt, |dt|, 0) == Ok(([], |dt|));
  }

  lemma TextPasses(name: string, s: string, lit: Literal)
    requires Readable(name, s) && EncodeProp(name, Text(s), lit).Ok?
    ensures Pass(TextTree(name, s), lit).Ok?
  {
    hide EncodeProp, TextTree, Encode;
    TextDecodes(name, s);
    var d := Node([(name, Text(s))], []);
    assert d.props[1..] == [];
    assert EncodeProps([], lit) == Ok([]) && EncodeProps(d.props, lit).Ok?;
    assert EncodeNodes([], lit) == Ok([]);
  }

  /** A second pass keeps a one-text tree if and only if the text is settled under its key. */
  lemma OneTextIff(name: string, s: string, lit: Literal)
    requires PythonLiterals(lit) && Readable(name, s) && EncodeProp(name, Text(s), lit).Ok?
    ensures Pass(TextTree(name, s), lit).Ok?
    ensures var c := Pass(TextTree(name, s), lit).value; Pass(c, lit) == Ok(c) <==> Settled(name, Text(s), lit)
  {
    hide PythonLiterals, TextTree, Settled, Pass, EncodeProp, DecodeNode, Encode;
    TextPasses(name, s, lit);
    TextDecodes(name, s);
    TextSmall(name, s);
    SecondPassIff(TextTree(name, s), Pass(TextTree(name, s), lit).value, lit);
    OneSettled(name, s, lit);
  }

  lemma TextSmall(name: string, s: string)
    requires Readable(name, s)
    ensures |TextTree(name, s)| < FLAG_BIT - 1
  {
    hide TextTree, Encode;
    TextFields(name, s);
  }

  lemma OneSettled(name: string, s: string, lit: Literal)
    ensures SettledNode(Node([(name, Text(s))], []), lit) <==> Settled(name, Text(s), lit)
  {
    hide Settled;
    var d := Node([(name, Text(s))], []);
    assert d.props[0] == (name, Text(s));
  }

  // ---------- two trees that do not stay ----------

  /** A node that is named like nothing: the first pass writes no bytes, the second an empty text. */
  lemma NamedNothing(lit: Literal)
    requires PythonLiterals(lit)
    ensures Pass(TextTree(NAME, NULL_TEXT), lit).Ok?
    ensures var c := Pass(TextTree(NAME, NULL_TEXT), lit).value; Pass(c, lit) != Ok(c)
  {
    hide PythonLiterals, Pass, TextTree, NulFreeText;
    NothingIsReadable();
    NothingEncodes(lit);
    OneTextIff(NAME, NULL_TEXT, lit);
    assert !StartsWith(NULL_TEXT, U32_PREFIX) && !StartsWith(NULL_TEXT, U64_PREFIX) by { Prefixes(0); }
  }

  lemma NothingIsReadable()
    ensures Readable(NAME, NULL_TEXT)
  {
    AsciiEncodes(NAME);
    AsciiEncodes(NULL_TEXT);
  }

  lemma NothingEncodes(lit: Literal)
    ensures EncodeProp(NAME, Text(NULL_TEXT), lit).Ok?
  {
    hide Encode, Le32;
    AsciiEncodes(NAME);
    Prefixes(0);
  }

  /** A text that looks like a number whose bytes look like a text: 0x41414141 is written as four letters, which the second
      pass reads as such and ends with a NUL. */
  lemma NumberOfLetters(lit: Literal)
    requires PythonLiterals(lit)
    ensures var s := U32_PREFIX + Hex(0x4141_4141);
            |s| < 1000 && Pass(TextTree("key", s), lit).Ok?
            && var c := Pass(TextTree("key", s), lit).value; Pass(c, lit) != Ok(c)
  {
    hide Pass, TextTree, NulFreeText, Hex, Settled, PrintableText;
    var s := U32_PREFIX + Hex(0x4141_4141);
    LettersAreReadable();
    LettersEncode(lit);
    OneTextIff("key", s, lit);
    LettersUnsettled(lit);
  }

  lemma {:induction false} HexIsPlain(n: nat)
    ensures |HexDigits(n)| >= 1 && forall i :: 0 <= i < |HexDigits(n)| ==> 0x20 <= HexDigits(n)[i] as int < 0x7F
    ensures n < 0x1_0000_0000 ==> |HexDigits(n)| <= 8
    decreases n
  {
    HexLength(n, 8);
    if n >= 16 {
      HexIsPlain(n / 16);
    }
  }

  lemma {:induction false} HexLength(n: nat, w: nat)
    requires w > 0
    ensures n < Sixteen(w) ==> |HexDigits(n)| <= w
    ensures Sixteen(8) == 0x1_0000_0000
  {
    assert Sixteen(4) == 0x1_0000;
    if n >= 16 && w > 1 {
      HexLength(n / 16, w - 1);
    }
  }

  function Sixteen(w: nat): nat { if w == 0 then 1 else 16 * Sixteen(w - 1) }

  lemma LettersAreReadable()
    ensures Readable("key", U32_PREFIX + Hex(0x4141_4141))
  {
    hide HexDigits, Encode;
    var s := U32_PREFIX + Hex(0x4141_4141);
    HexIsPlain(0x4141_4141);
    assert forall i :: 0 <= i < |s| ==> 0x20 <= s[i] as int < 0x7F;
    AsciiEncodes("key");
    AsciiEncodes(s);
  }

  lemma LettersEncode(lit: Literal)
    requires PythonLiterals(lit)
    ensures EncodeProp("key", Text(U32_PREFIX + Hex(0x4141_4141)), lit).Ok?
  {
    hide Encode, Hex, Le32;
    AsciiEncodes("key");
    HexText(U32_PREFIX, 0x4141_4141, lit);
    Prefixes(0x4141_4141);
  }

  lemma LettersUnsettled(lit: Literal)
    requires PythonLiterals(lit)
    ensures !Settled("key", Text(U32_PREFIX + Hex(0x4141_4141)), lit)
  {
    hide Hex, NullTerminated;
    HexText(U32_PREFIX, 0x4141_4141, lit);
    Prefixes(0x4141_4141);
    var b := Le32(0x4141_4141);
    assert b == [0x41, 0x41, 0x41, 0x41];
    FirstNulIs(b, 4);
  }
}
