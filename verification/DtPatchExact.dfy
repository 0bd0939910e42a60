/** Exactly which trees come back from encode and decode: those whose names fit their 32-byte field. */
module DtPatchExact {
  import opened Results
  import opened Bytes
  import Utf8
  import opened Utf8Text
  import opened DtPatch
  import opened DtPatchProofs
  import PP = PowerPassthrough
  import PPP = PowerPassthroughProofs

  // ---------- what a decoded tree can hold ----------

  /** Names without NUL, and values below the flag bit. */
  predicate Readable(ps: seq<Prop>) {
    forall i :: 0 <= i < |ps| ==> ReadableProp(ps[i])
  }

  predicate ReadableProp(p: Prop) {
    (forall k :: 0 <= k < |p.name| ==> p.name[k] != '\0') && |p.value| < FLAG_BIT
  }

  lemma ScalarOfNonZero(b: seq<byte>)
    requires Utf8.SequenceLength(b) > 0 && b[0] != 0
    ensures ScalarOf(b) != 0
  {
  }

  lemma {:induction false} NonZeroDecodes(b: seq<byte>)
    requires forall i :: 0 <= i < |b| ==> b[i] != 0
    ensures forall k :: 0 <= k < |DecodeReplacing(b)| ==> DecodeReplacing(b)[k] != '\0'
    decreases |b|
  {
    hide ScalarOf, BadLength, Utf8.SequenceLength;
    if b != [] {
      if Utf8.SequenceLength(b) > 0 {
        ScalarOfNonZero(b);
        NonZeroDecodes(b[Utf8.SequenceLength(b)..]);
      } else {
        NonZeroDecodes(b[BadLength(b)..]);
      }
    }
  }

  /** A decoded record is readable; unless it reaches past the buffer it spans its header and its padded value. */
  lemma PropSpan(buf: seq<byte>, off: nat)
    requires DecodeProp(buf, off).Ok?
    ensures var (p, next) := DecodeProp(buf, off).value;
            && ReadableProp(p) && (next <= |buf| ==> next == off + 36 + Aligned(|p.value|))
            && (next > |buf| ==> |buf| <= off + 36 + Aligned(|p.value|))
  {
    hide DecodeReplacing, U32, UpToNul;
    NonZeroDecodes(UpToNul(buf[off..off + 32]));
  }

  /** The bytes of the records when every name takes exactly 32. */
  function PropsSpan(ps: seq<Prop>): nat {
    if ps == [] then 0 else 36 + Aligned(|ps[0].value|) + PropsSpan(ps[1..])
  }

  function Span(t: Tree): nat { 8 + PropsSpan(t.props) + Spans(t.children) }

  function Spans(ts: seq<Tree>): nat {
    if ts == [] then 0 else Span(ts[0]) + Spans(ts[1..])
  }

  lemma {:induction false} PropsSpanned(buf: seq<byte>, off: nat, count: nat)
    requires DecodeProps(buf, off, count).Ok?
    ensures var (ps, end) := DecodeProps(buf, off, count).value;
            && Readable(ps) && (end <= |buf| ==> end == off + PropsSpan(ps))
            && (off <= |buf| < end ==> |buf| <= off + PropsSpan(ps))
    decreases count
  {
    hide DecodeProp, ReadableProp;
    if count > 0 {
      var (p, next) := DecodeProp(buf, off).value;
      PropSpan(buf, off);
      PropsSpanned(buf, next, count - 1);
      var rest := DecodeProps(buf, next, count - 1).value.0;
      assert ([p] + rest)[1..] == rest;
    }
  }

  predicate ReadableTree(t: Tree) { Readable(t.props) && ReadableTrees(t.children) }

  predicate ReadableTrees(ts: seq<Tree>) {
    ts == [] || (ReadableTree(ts[0]) && ReadableTrees(ts[1..]))
  }

  lemma {:induction false} TreeSpanned(buf: seq<byte>, off: nat)
    requires Decode(buf, off).Ok?
    ensures var (t, end) := Decode(buf, off).value;
            && ReadableTree(t) && (end <= |buf| ==> end == off + Span(t)) && (end > |buf| ==> |buf| <= off + Span(t))
    decreases Left(buf, off), 0
  {
    hide DecodeProps, Readable, U32;
    var (props, next) := DecodeProps(buf, off + 8, U32(buf, off)).value;
    PropsSpanned(buf, off + 8, U32(buf, off));
    TreesSpanned(buf, next, U32(buf, off + 4));
  }

  lemma {:induction false} TreesSpanned(buf: seq<byte>, off: nat, count: nat)
    requires DecodeChildren(buf, off, count).Ok?
    ensures var (ts, end) := DecodeChildren(buf, off, count).value;
            && ReadableTrees(ts) && (end <= |buf| ==> end == off + Spans(ts))
            && (off <= |buf| < end ==> |buf| <= off + Spans(ts))
    decreases Left(buf, off), count + 1
  {
    hide Decode;
    if count > 0 {
      var (c, next) := Decode(buf, off).value;
      TreeSpanned(buf, off);
      TreesSpanned(buf, next, count - 1);
      var rest := DecodeChildren(buf, next, count - 1).value.0;
      assert ([c] + rest)[1..] == rest;
    }
  }

  // ---------- what a printed tree takes ----------

  predicate NamesFit(ps: seq<Prop>) {
    forall i :: 0 <= i < |ps| ==> |Encode(ps[i].name)| <= 32
  }

  lemma PropPrint(p: Prop)
    requires EncodeProp(p).Ok?
    ensures |p.name| < 32 && |EncodeProp(p).value| >= 36 + Aligned(|p.value|)
    ensures |EncodeProp(p).value| == 36 + Aligned(|p.value|) <==> |Encode(p.name)| <= 32
  {
    hide Encode, Le32;
  }

  lemma {:induction false} PropsPrint(ps: seq<Prop>)
    requires EncodeProps(ps).Ok?
    ensures |EncodeProps(ps).value| >= PropsSpan(ps)
    ensures |EncodeProps(ps).value| == PropsSpan(ps) <==> NamesFit(ps)
    ensures forall i :: 0 <= i < |ps| ==> |ps[i].name| < 32
  {
    hide EncodeProp, Encode, Aligned;
    if ps != [] {
      PropPrint(ps[0]);
      PropsPrint(ps[1..]);
      assert forall i :: 0 < i < |ps| ==> ps[i] == ps[1..][i - 1];
      assert NamesFit(ps) <==> |Encode(ps[0].name)| <= 32 && NamesFit(ps[1..]) by {
        if NamesFit(ps) {
          assert forall i :: 0 <= i < |ps[1..]| ==> ps[1..][i] == ps[i + 1];
        }
      }
    }
  }

  lemma WfPropsParts(ps: seq<Prop>)
    requires EncodeProps(ps).Ok?
    ensures AllWfProps(ps) <==> Readable(ps) && NamesFit(ps)
  {
    hide Encode, EncodeProps;
    PropsPrint(ps);
    if AllWfProps(ps) {
      assert forall i :: 0 <= i < |ps| ==> WfProp(ps[i]);
    }
    if Readable(ps) {
      assert forall i :: 0 <= i < |ps| ==> ReadableProp(ps[i]);
    }
  }

  /** The print is never shorter than the records; a readable tree takes exactly that if and only if its names fit. */
  lemma {:induction false} TreePrint(t: Tree)
    requires EncodeTree(t).Ok? && ReadableTree(t)
    ensures |EncodeTree(t).value| >= Span(t)
    ensures |EncodeTree(t).value| == Span(t) <==> WfTree(t)
    decreases t
  {
    hide EncodeProps, PropsSpan, AllWfProps, Readable, NamesFit;
    PropsPrint(t.props);
    WfPropsParts(t.props);
    TreesPrint(t.children);
  }

  lemma {:induction false} TreesPrint(ts: seq<Tree>)
    requires EncodeTrees(ts).Ok? && ReadableTrees(ts)
    ensures |EncodeTrees(ts).value| >= Spans(ts)
    ensures |EncodeTrees(ts).value| == Spans(ts) <==> AllWfTrees(ts)
    decreases ts
  {
    hide EncodeTree, Span, WfTree, ReadableTree;
    if ts != [] {
      TreePrint(ts[0]);
      TreesPrint(ts[1..]);
    }
  }

  /** A printable tree comes back whole, ending where its print ends, if and only if its names hold no NUL and fit
      32 bytes and its values stay below the flag bit. */
  lemma DecodeEncodeIff(t: Tree)
    requires EncodeTree(t).Ok?
    ensures Decode(EncodeTree(t).value, 0) == Ok((t, |EncodeTree(t).value|)) <==> WfTree(t)
  {
    hide EncodeTree, Decode, Span, WfTree, ReadableTree;
    var buf := EncodeTree(t).value;
    if WfTree(t) {
      DecodeEncode(t);
    } else if Decode(buf, 0) == Ok((t, |buf|)) {
      TreeSpanned(buf, 0);
      TreePrint(t);
    }
  }

  // ---------- what does not come back ----------

  /** A tree decoded from a buffer that ends too early never encodes to that buffer. */
  lemma TruncatedIsLost(b: seq<byte>)
    requires Decode(b, 0).Ok? && Decode(b, 0).value.1 > |b|
    ensures EncodeTree(Decode(b, 0).value.0) != Ok(b)
  {
    hide EncodeTree, Decode, Span, WfTree, ReadableTree;
    var t := Decode(b, 0).value.0;
    TreeSpanned(b, 0);
    if EncodeTree(t) == Ok(b) {
      TreePrint(t);
      DecodeEncodeIff(t);
    }
  }

  /** A record whose name field holds a byte behind the NUL: both parsers read the name before it. */
  function DirtyField(): (f: seq<byte>)
    ensures |f| == 32
  {
    [0x6E, 0, 1] + Zeros(29)
  }

  function DirtyNode(): PP.Node { PP.Node([PP.Property([0x6E], DirtyField() + Le32(0))], []) }

  lemma DirtyIsStrict()
    ensures PPP.Wf(DirtyNode()) && !Clean(DirtyNode())
  {
    hide Le32, U32;
    var p := DirtyNode().properties[0];
    assert p.raw[..32] == DirtyField() && p.raw[32..36] == Le32(0);
    U32At(p.raw, 32, 0);
    assert p.raw[2] == DirtyField()[2];
    DirtyNameReads();
    assert PPP.WfProperty(p);
    assert !CleanProp(p);
  }

  lemma DirtyNameReads()
    ensures PP.DecodeName(DirtyField()) == Ok([0x6E])
  {
    var f := DirtyField();
    assert f[1] == 0 && f[0] == 0x6E;
    assert PP.FirstNul(f) == 1;
    assert f[..1] == [0x6E];
  }

  /** The strict parser takes it, and re-encoding does not give it back. */
  lemma DirtyNameIsLost()
    ensures PP.Packable(DirtyNode())
    ensures var b := PP.EncodeNode(DirtyNode());
            && PP.ParseTree(b) == Ok(DirtyNode()) && Decode(b, 0).Ok? && EncodeTree(Decode(b, 0).value.0) != Ok(b)
  {
    hide PP.EncodeNode, PP.ParseTree, PP.Packable, PPP.Wf, Clean, Decode, EncodeTree;
    DirtyIsStrict();
    PPP.WfPackable(DirtyNode());
    PPP.CodecIsLossless(PP.EncodeNode(DirtyNode()), DirtyNode());
    EncodeDecodeIff(PP.EncodeNode(DirtyNode()));
  }
}
