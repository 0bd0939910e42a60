/** Round trips of the dt_patch codec, its agreement with the strict parser, and the reach of one edit. */
module DtPatchProofs {
  import opened Results
  import opened Bytes
  import Utf8
  import opened Utf8Text
  import opened DtPatch
  import PP = PowerPassthrough
  import PPP = PowerPassthroughProofs

  // ---------- decode after encode ----------

  /** Names without NUL that fit the 32-byte field, and lengths that fit below the flag bit. */
  predicate WfProp(p: Prop) {
    |p.name| < 32 && |Encode(p.name)| <= 32 && (forall i :: 0 <= i < |p.name| ==> p.name[i] != '\0')
    && |p.value| < FLAG_BIT
  }

  predicate AllWfProps(ps: seq<Prop>) {
    forall i :: 0 <= i < |ps| ==> WfProp(ps[i])
  }

  predicate WfTree(t: Tree) {
    |t.props| < WORD_LIMIT && |t.children| < WORD_LIMIT && AllWfProps(t.props) && AllWfTrees(t.children)
  }

  predicate AllWfTrees(ts: seq<Tree>) {
    ts == [] || (WfTree(ts[0]) && AllWfTrees(ts[1..]))
  }

  lemma {:induction false} UpToNulIs(a: seq<byte>, b: seq<byte>)
    requires (forall i :: 0 <= i < |a| ==> a[i] != 0) && (b == [] || b[0] == 0)
    ensures UpToNul(a + b) == a
  {
    if a == [] {
      assert a + b == b;
    } else {
      assert (a + b)[1..] == a[1..] + b;
      UpToNulIs(a[1..], b);
    }
  }

  lemma NameFieldReads(name: string)
    requires |Encode(name)| <= 32 && forall i :: 0 <= i < |name| ==> name[i] != '\0'
    ensures |NameField(name)| == 32 && DecodeReplacing(UpToNul(NameField(name))) == name
  {
    hide Encode, DecodeReplacing;
    NulFree(name);
    var b := Encode(name);
    UpToNulIs(b, Zeros(32 - |b|));
    TextRoundTrip(name);
  }

  lemma FlagWord(p: Prop)
    requires |p.value| < FLAG_BIT
    ensures LengthWord(p) < WORD_LIMIT && LengthWord(p) % FLAG_BIT == |p.value| && (LengthWord(p) >= FLAG_BIT <==> p.flagged)
  {
  }

  /** The four pieces of one record. */
  lemma RecordPieces(buf: seq<byte>, off: nat, name: seq<byte>, word: seq<byte>, value: seq<byte>, pad: seq<byte>)
    requires At(buf, off, name + word + value + pad) && |name| == 32 && |word| == 4
    ensures buf[off..off + 32] == name && At(buf, off + 32, word) && At(buf, off + 36, value)
    ensures off + 36 + |value| + |pad| <= |buf|
  {
    AtConcat(buf, off, name + word + value, pad);
    AtConcat(buf, off, name + word, value);
    AtConcat(buf, off, name, word);
  }

  lemma WfPropDecodes(buf: seq<byte>, off: nat, p: Prop)
    requires WfProp(p) && EncodeProp(p).Ok? && At(buf, off, EncodeProp(p).value)
    ensures DecodeProp(buf, off) == Ok((p, off + |EncodeProp(p).value|))
    ensures off + |EncodeProp(p).value| <= |buf|
  {
    hide NameField, Le32, Encode, DecodeReplacing, U32, LengthWord;
    NameFieldReads(p.name);
    FlagWord(p);
    RecordPieces(buf, off, NameField(p.name), Le32(LengthWord(p)), p.value, Zeros(Aligned(|p.value|) - |p.value|));
    U32At(buf, off + 32, LengthWord(p));
    assert Slice(buf, off + 36, off + 36 + |p.value|) == p.value;
  }

  lemma {:induction false} WfPropsDecode(buf: seq<byte>, off: nat, ps: seq<Prop>)
    requires AllWfProps(ps) && EncodeProps(ps).Ok? && At(buf, off, EncodeProps(ps).value)
    ensures DecodeProps(buf, off, |ps|) == Ok((ps, off + |EncodeProps(ps).value|))
    decreases |ps|
  {
    hide EncodeProp, DecodeProp, WfProp;
    if ps != [] {
      var first, rest := EncodeProp(ps[0]).value, EncodeProps(ps[1..]).value;
      AtConcat(buf, off, first, rest);
      WfPropDecodes(buf, off, ps[0]);
      WfPropsDecode(buf, off + |first|, ps[1..]);
      assert [ps[0]] + ps[1..] == ps;
    }
  }

  lemma HeaderPieces(buf: seq<byte>, off: nat, a: seq<byte>, b: seq<byte>, props: seq<byte>, kids: seq<byte>)
    requires At(buf, off, a + b + props + kids) && |a| == 4 && |b| == 4
    ensures At(buf, off, a) && At(buf, off + 4, b) && At(buf, off + 8, props) && At(buf, off + 8 + |props|, kids)
  {
    AtConcat(buf, off, a + b + props, kids);
    AtConcat(buf, off, a + b, props);
    AtConcat(buf, off, a, b);
  }

  /** Decoding an encoded tree, wherever it lies, gives the tree back with its flags and exact lengths. */
  lemma {:induction false} WfTreeDecodes(buf: seq<byte>, off: nat, t: Tree)
    requires WfTree(t) && EncodeTree(t).Ok? && At(buf, off, EncodeTree(t).value)
    ensures Decode(buf, off) == Ok((t, off + |EncodeTree(t).value|))
    decreases t
  {
    hide Le32, U32, EncodeProps, DecodeProps, WfProp;
    var props, kids := EncodeProps(t.props).value, EncodeTrees(t.children).value;
    HeaderPieces(buf, off, Le32(|t.props|), Le32(|t.children|), props, kids);
    U32At(buf, off, |t.props|);
    U32At(buf, off + 4, |t.children|);
    WfPropsDecode(buf, off + 8, t.props);
    WfTreesDecode(buf, off + 8 + |props|, t.children);
  }

  lemma {:induction false} WfTreesDecode(buf: seq<byte>, off: nat, ts: seq<Tree>)
    requires AllWfTrees(ts) && EncodeTrees(ts).Ok? && At(buf, off, EncodeTrees(ts).value)
    ensures DecodeChildren(buf, off, |ts|) == Ok((ts, off + |EncodeTrees(ts).value|))
    decreases ts
  {
    hide EncodeTree, Decode, WfTree;
    if ts != [] {
      var first, rest := EncodeTree(ts[0]).value, EncodeTrees(ts[1..]).value;
      AtConcat(buf, off, first, rest);
      WfTreeDecodes(buf, off, ts[0]);
      WfTreesDecode(buf, off + |first|, ts[1..]);
      assert [ts[0]] + ts[1..] == ts;
    }
  }

  lemma {:induction false} WfPropsEncode(ps: seq<Prop>)
    requires AllWfProps(ps)
    ensures EncodeProps(ps).Ok?
  {
    if ps != [] {
      WfPropsEncode(ps[1..]);
    }
  }

  lemma {:induction false} WfTreeEncodes(t: Tree)
    requires WfTree(t)
    ensures EncodeTree(t).Ok?
    decreases t
  {
    WfPropsEncode(t.props);
    WfTreesEncode(t.children);
  }

  lemma {:induction false} WfTreesEncode(ts: seq<Tree>)
    requires AllWfTrees(ts)
    ensures EncodeTrees(ts).Ok?
    decreases ts
  {
    if ts != [] {
      WfTreeEncodes(ts[0]);
      WfTreesEncode(ts[1..]);
    }
  }

  /** decode(encode(t)) gives back every well-formed tree. */
  lemma DecodeEncode(t: Tree)
    requires WfTree(t)
    ensures EncodeTree(t).Ok? && Decode(EncodeTree(t).value, 0) == Ok((t, |EncodeTree(t).value|))
  {
    WfTreeEncodes(t);
    var buf := EncodeTree(t).value;
    assert buf[0..|buf|] == buf;
    WfTreeDecodes(buf, 0, t);
  }

  // ---------- encode after decode, on what the strict parser accepts ----------

  /** The strict parser's record as this codec reads it. */
  function ViewProp(p: PP.Property): Prop
    requires |p.raw| >= 36
  {
    var length := PP.PayloadLength(p.raw, 0);
    Prop(DecodeReplacing(p.name), U32(p.raw, 32) >= FLAG_BIT, Slice(p.raw, 36, 36 + length))
  }

  function ViewProps(ps: seq<PP.Property>): seq<Prop>
    requires PPP.AllWfProperties(ps)
  {
    seq(|ps|, i requires 0 <= i < |ps| => ViewProp(ps[i]))
  }

  function View(n: PP.Node): Tree
    requires PPP.Wf(n)
  {
    Tree(ViewProps(n.properties), ViewAll(n.children))
  }

  function ViewAll(ns: seq<PP.Node>): (ts: seq<Tree>)
    requires PPP.AllWf(ns)
    ensures |ts| == |ns|
  {
    if ns == [] then [] else [View(ns[0])] + ViewAll(ns[1..])
  }

  /** Nothing but zeros behind the name and behind the value. */
  predicate CleanProp(p: PP.Property)
    requires |p.raw| >= 36
  {
    && (forall i :: |p.name| <= i < 32 ==> p.raw[i] == 0)
    && (forall i :: 36 + PP.PayloadLength(p.raw, 0) <= i < |p.raw| ==> p.raw[i] == 0)
  }

  predicate CleanProps(ps: seq<PP.Property>)
    requires PPP.AllWfProperties(ps)
  {
    forall i :: 0 <= i < |ps| ==> CleanProp(ps[i])
  }

  predicate Clean(n: PP.Node)
    requires PPP.Wf(n)
  {
    CleanProps(n.properties) && AllClean(n.children)
  }

  predicate AllClean(ns: seq<PP.Node>)
    requires PPP.AllWf(ns)
  {
    ns == [] || (Clean(ns[0]) && AllClean(ns[1..]))
  }

  /** The name of a strict record: its field up to the NUL, ASCII. */
  lemma StrictName(p: PP.Property)
    requires PPP.WfProperty(p)
    ensures |p.name| < 32 && p.name == p.raw[..|p.name|] && p.name == UpToNul(p.raw[..32]) && Utf8.Ascii(p.name)
  {
    hide UpToNul, PP.FirstNul, U32, PP.PayloadLength, Utf8.Ascii;
    var field := p.raw[..32];
    var n := PP.FirstNul(field);
    assert field[..n] == p.raw[..n];
    UpToNulIs(field[..n], field[n..]);
    assert field == field[..n] + field[n..];
  }

  /** Printing the view of a record gives a record of the same length; the same bytes if and only if it is clean. */
  lemma ViewPropEncodes(p: PP.Property)
    requires PPP.WfProperty(p)
    ensures EncodeProp(ViewProp(p)).Ok? && |EncodeProp(ViewProp(p)).value| == |p.raw|
    ensures EncodeProp(ViewProp(p)).value == p.raw <==> CleanProp(p)
  {
    hide Le32, U32, DecodeReplacing, Encode, LengthWord, NameField, Slice, Zeros, Utf8.Ascii, PP.PayloadLength;
    ViewFields(p);
    Le32At(p.raw, 32);
    CleanRecord(p.raw, p.name, Le32(U32(p.raw, 32)), PP.PayloadLength(p.raw, 0));
  }

  /** The four fields of the view's record. */
  lemma ViewFields(p: PP.Property)
    requires PPP.WfProperty(p)
    ensures var v := ViewProp(p);
            var length := PP.PayloadLength(p.raw, 0);
            && |p.raw| == 36 + Aligned(length) && |v.name| < 32 && |p.name| < 32 && p.name == p.raw[..|p.name|]
            && NameField(v.name) == p.name + Zeros(32 - |p.name|)
            && v.value == p.raw[36..36 + length] && |v.value| == length < WORD_LIMIT
            && LengthWord(v) == U32(p.raw, 32)
  {
    hide Le32, DecodeReplacing, Encode, Utf8.Ascii, UpToNul, PP.DecodeName, U32, LengthWord, Zeros;
    StrictName(p);
    AsciiDecodes(p.name);
    WordOfView(U32(p.raw, 32), ViewProp(p));
  }

  /** A length word is its flag and its length. */
  lemma WordOfView(word: nat, v: Prop)
    requires word < WORD_LIMIT && |v.value| == word % FLAG_BIT && v.flagged == (word >= FLAG_BIT)
    ensures LengthWord(v) == word
  {
  }

  lemma CleanRecord(raw: seq<byte>, name: seq<byte>, word: seq<byte>, length: nat)
    requires |raw| == 36 + Aligned(length) && |name| < 32 && name == raw[..|name|] && |word| == 4 && At(raw, 32, word)
    ensures |name + Zeros(32 - |name|) + word + raw[36..36 + length] + Zeros(Aligned(length) - length)| == |raw|
    ensures name + Zeros(32 - |name|) + word + raw[36..36 + length] + Zeros(Aligned(length) - length) == raw <==>
            (forall i :: |name| <= i < 32 ==> raw[i] == 0) && (forall i :: 36 + length <= i < |raw| ==> raw[i] == 0)
  {
    var printed := name + Zeros(32 - |name|) + word + raw[36..36 + length] + Zeros(Aligned(length) - length);
    forall i | 0 <= i < |raw|
      ensures printed[i] == if |name| <= i < 32 || 36 + length <= i then 0 else raw[i]
    {
      if 32 <= i < 36 {
        assert raw[32..36][i - 32] == word[i - 32];
      }
    }
    if printed == raw {
      assert forall i :: |name| <= i < 32 ==> raw[i] == printed[i];
      assert forall i :: 36 + length <= i < |raw| ==> raw[i] == printed[i];
    }
  }

  lemma ConcatEqual(a: seq<byte>, b: seq<byte>, c: seq<byte>, d: seq<byte>)
    requires |a| == |c|
    ensures a + b == c + d <==> a == c && b == d
  {
    if a + b == c + d {
      assert a == (a + b)[..|a|] && c == (c + d)[..|c|];
      assert b == (a + b)[|a|..] && d == (c + d)[|c|..];
    }
  }

  lemma {:induction false} ViewPropsEncode(ps: seq<PP.Property>)
    requires PPP.AllWfProperties(ps)
    ensures EncodeProps(ViewProps(ps)).Ok? && |EncodeProps(ViewProps(ps)).value| == |PP.EncodeProperties(ps)|
    ensures EncodeProps(ViewProps(ps)).value == PP.EncodeProperties(ps) <==> CleanProps(ps)
    decreases |ps|
  {
    hide EncodeProp, ViewProp, CleanProp, PPP.WfProperty;
    if ps != [] {
      RestWf(ps);
      ViewPropEncodes(ps[0]);
      ViewPropsEncode(ps[1..]);
      assert ViewProps(ps)[1..] == ViewProps(ps[1..]);
      ConcatEqual(EncodeProp(ViewProp(ps[0])).value, EncodeProps(ViewProps(ps[1..])).value, ps[0].raw,
                  PP.EncodeProperties(ps[1..]));
      CleanCons(ps);
    }
  }

  lemma RestWf(ps: seq<PP.Property>)
    requires PPP.AllWfProperties(ps) && ps != []
    ensures PPP.WfProperty(ps[0]) && PPP.AllWfProperties(ps[1..]) && |ps[0].raw| >= 36
  {
  }

  lemma CleanCons(ps: seq<PP.Property>)
    requires PPP.AllWfProperties(ps) && ps != [] && PPP.AllWfProperties(ps[1..]) && |ps[0].raw| >= 36
    ensures CleanProps(ps) <==> CleanProp(ps[0]) && CleanProps(ps[1..])
  {
    if CleanProp(ps[0]) && CleanProps(ps[1..]) {
      forall i | 0 <= i < |ps|
        ensures CleanProp(ps[i])
      {
        if i > 0 {
          assert ps[1..][i - 1] == ps[i];
        }
      }
    }
    if CleanProps(ps) {
      forall i | 0 <= i < |ps[1..]|
        ensures CleanProp(ps[1..][i])
      {
        assert ps[1..][i] == ps[i + 1];
      }
    }
  }

  /** Printing the view of a strict tree gives as many bytes; the same bytes if and only if it is clean. */
  lemma {:induction false} ViewEncodes(n: PP.Node)
    requires PPP.Wf(n) && PP.Packable(n)
    ensures EncodeTree(View(n)).Ok? && |EncodeTree(View(n)).value| == |PP.EncodeNode(n)|
    ensures EncodeTree(View(n)).value == PP.EncodeNode(n) <==> Clean(n)
    decreases n
  {
    hide Le32, EncodeProps, PP.EncodeProperties, ViewProps, CleanProps;
    ViewPropsEncode(n.properties);
    ViewAllEncode(n.children);
    assert |View(n).props| == |n.properties| by { assert |ViewProps(n.properties)| == |n.properties| by { ViewLength(n.properties); } }
    var head := Le32(|n.properties|) + Le32(|n.children|);
    var ps, ps' := EncodeProps(ViewProps(n.properties)).value, PP.EncodeProperties(n.properties);
    ConcatEqual(head + ps, EncodeTrees(ViewAll(n.children)).value, head + ps', PP.EncodeNodes(n.children));
    ConcatEqual(head, ps, head, ps');
  }

  lemma ViewLength(ps: seq<PP.Property>)
    requires PPP.AllWfProperties(ps)
    ensures |ViewProps(ps)| == |ps|
  {
  }

  lemma {:induction false} ViewAllEncode(ns: seq<PP.Node>)
    requires PPP.AllWf(ns) && PP.AllPackable(ns)
    ensures EncodeTrees(ViewAll(ns)).Ok? && |EncodeTrees(ViewAll(ns)).value| == |PP.EncodeNodes(ns)|
    ensures EncodeTrees(ViewAll(ns)).value == PP.EncodeNodes(ns) <==> AllClean(ns)
    decreases ns
  {
    hide EncodeTree, PP.EncodeNode, View, Clean, PPP.Wf, PP.Packable;
    if ns != [] {
      ViewEncodes(ns[0]);
      ViewAllEncode(ns[1..]);
      assert ([View(ns[0])] + ViewAll(ns[1..]))[1..] == ViewAll(ns[1..]);
      ConcatEqual(EncodeTree(View(ns[0])).value, EncodeTrees(ViewAll(ns[1..])).value, PP.EncodeNode(ns[0]),
                  PP.EncodeNodes(ns[1..]));
    }
  }

  /** One record: the strict parser and this codec read the same name, flag and value and stop at the same byte. */
  lemma StrictPropDecodes(data: seq<byte>, off: nat)
    requires PP.ParseProperty(data, off).Ok?
    ensures var (p, end) := PP.ParseProperty(data, off).value;
            PPP.WfProperty(p) && DecodeProp(data, off) == Ok((ViewProp(p), end))
  {
    hide DecodeReplacing, UpToNul, Utf8.Ascii, U32, PPP.WfProperty, Slice;
    var (p, end) := PP.ParseProperty(data, off).value;
    PPP.ParsedProperty(data, off);
    RawRecord(data, off);
    StrictName(p);
    assert |p.raw| >= 36 && PP.PayloadLength(p.raw, 0) == PP.PayloadLength(data, off);
  }

  /** The fields of the record in the buffer are those of the record cut out. */
  lemma RawRecord(data: seq<byte>, off: nat)
    requires PP.ParseProperty(data, off).Ok?
    ensures var (p, end) := PP.ParseProperty(data, off).value; var length := PP.PayloadLength(data, off);
            && p.raw == data[off..end] && p.raw[..32] == data[off..off + 32] && U32(p.raw, 32) == U32(data, off + 32)
            && end == off + 36 + Aligned(length) && end <= |data|
            && Slice(p.raw, 36, 36 + length) == Slice(data, off + 36, off + 36 + length)
  {
    hide PP.DecodeName;
    var (p, end) := PP.ParseProperty(data, off).value;
    assert p.raw == data[off..end];
    assert p.raw[..32] == data[off..off + 32];
    assert U32(p.raw, 32) == U32(data, off + 32);
    SliceOfSlice(data, off, end, 36, 36 + PP.PayloadLength(data, off));
  }

  lemma {:induction false} StrictPropsDecode(data: seq<byte>, off: nat, count: nat)
    requires PP.ParseProperties(data, off, count).Ok?
    ensures var (ps, end) := PP.ParseProperties(data, off, count).value;
            PPP.AllWfProperties(ps) && DecodeProps(data, off, count) == Ok((ViewProps(ps), end))
    decreases count
  {
    hide PP.ParseProperty, DecodeProp, PPP.WfProperty;
    if count > 0 {
      var (p, next) := PP.ParseProperty(data, off).value;
      StrictPropDecodes(data, off);
      StrictPropsDecode(data, next, count - 1);
      var (rest, end) := PP.ParseProperties(data, next, count - 1).value;
      ConsView(p, rest);
    } else {
      assert ViewProps([]) == [];
    }
  }

  lemma ConsView(p: PP.Property, rest: seq<PP.Property>)
    requires PPP.WfProperty(p) && PPP.AllWfProperties(rest)
    ensures PPP.AllWfProperties([p] + rest) && ViewProps([p] + rest) == [ViewProp(p)] + ViewProps(rest)
  {
    hide ViewProp, PP.DecodeName, PP.PayloadLength, Aligned;
  }

  /** The two parsers agree on everything the strict one accepts. */
  lemma {:induction false} StrictNodeDecodes(data: seq<byte>, off: nat)
    requires PP.ParseNode(data, off).Ok?
    ensures var (n, end) := PP.ParseNode(data, off).value;
            PPP.Wf(n) && PP.Packable(n) && Decode(data, off) == Ok((View(n), end))
    decreases |data| - off, 0
  {
    hide PP.ParseProperties, DecodeProps, U32, ViewProps;
    PPP.ParsedNode(data, off);
    var (ps, next) := PP.ParseProperties(data, off + 8, U32(data, off)).value;
    StrictPropsDecode(data, off + 8, U32(data, off));
    StrictChildrenDecode(data, next, U32(data, off + 4));
  }

  lemma {:induction false} StrictChildrenDecode(data: seq<byte>, off: nat, count: nat)
    requires off <= |data| && PP.ParseChildren(data, off, count).Ok?
    ensures var (ns, end) := PP.ParseChildren(data, off, count).value;
            PPP.AllWf(ns) && DecodeChildren(data, off, count) == Ok((ViewAll(ns), end))
    decreases |data| - off, count + 1
  {
    hide PP.ParseNode, Decode, View, PPP.Wf;
    if count > 0 {
      var (c, next) := PP.ParseNode(data, off).value;
      StrictNodeDecodes(data, off);
      StrictChildrenDecode(data, next, count - 1);
      var (rest, end) := PP.ParseChildren(data, next, count - 1).value;
      assert ([c] + rest)[1..] == rest;
    }
  }

  /** encode(decode(b)) has the length of every buffer the strict parser accepts, and is that buffer if and
      only if its name tails and paddings are zero. */
  lemma EncodeDecodeIff(b: seq<byte>)
    requires PP.ParseTree(b).Ok?
    ensures Decode(b, 0).Ok? && Decode(b, 0).value.1 == |b| && EncodeTree(Decode(b, 0).value.0).Ok?
    ensures PPP.Wf(PP.ParseTree(b).value)
    ensures EncodeTree(Decode(b, 0).value.0) == Ok(b) <==> Clean(PP.ParseTree(b).value)
  {
    hide Decode, EncodeTree, View, Clean, PP.ParseNode;
    var n := PP.ParseTree(b).value;
    StrictNodeDecodes(b, 0);
    PPP.CodecIsLossless(b, n);
    ViewEncodes(n);
  }
}
