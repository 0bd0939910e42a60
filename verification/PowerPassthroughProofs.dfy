/** What power_passthrough_dt.py promises: a lossless codec, and an output that differs from the
    input by one counter word and one inserted leaf. */
module PowerPassthroughProofs {
  import opened Results
  import opened Bytes
  import Utf8
  import opened PowerPassthrough

  // ---------- the codec is lossless in both directions ----------

  predicate WfProperty(p: Property) {
    |p.raw| >= 36 && DecodeName(p.raw[..32]) == Ok(p.name) && |p.raw| == 36 + Aligned(PayloadLength(p.raw, 0))
  }

  predicate AllWfProperties(ps: seq<Property>) {
    forall i :: 0 <= i < |ps| ==> WfProperty(ps[i])
  }

  /** The trees the printer can be handed: packable counts and self-consistent records. */
  predicate Wf(n: Node) {
    |n.properties| < WORD_LIMIT && |n.children| < WORD_LIMIT && AllWfProperties(n.properties) && AllWf(n.children)
  }

  predicate AllWf(ns: seq<Node>) {
    ns == [] || (Wf(ns[0]) && AllWf(ns[1..]))
  }

  lemma WfPackable(n: Node)
    requires Wf(n)
    ensures Packable(n)
  {
    AllWfPackable(n.children);
  }

  lemma AllWfPackable(ns: seq<Node>)
    requires AllWf(ns)
    ensures AllPackable(ns)
  {
    if ns != [] {
      WfPackable(ns[0]);
      AllWfPackable(ns[1..]);
    }
  }

  lemma ParsedProperty(data: seq<byte>, off: nat)
    requires ParseProperty(data, off).Ok?
    ensures var (p, end) := ParseProperty(data, off).value;
            WfProperty(p) && At(data, off, p.raw) && end == off + |p.raw|
  {
    var (p, end) := ParseProperty(data, off).value;
    assert p.raw[..32] == data[off..off + 32];
    assert p.raw[32] == data[off + 32] && p.raw[33] == data[off + 33] && p.raw[34] == data[off + 34]
        && p.raw[35] == data[off + 35];
  }

  lemma {:induction false} ParsedProperties(data: seq<byte>, off: nat, count: nat)
    requires off <= |data| && ParseProperties(data, off, count).Ok?
    ensures var (ps, end) := ParseProperties(data, off, count).value;
            |ps| == count && AllWfProperties(ps) && At(data, off, EncodeProperties(ps))
            && end == off + |EncodeProperties(ps)|
    decreases count
  {
    hide WfProperty, ParseProperty, Aligned, U32;
    if count > 0 {
      var (p, next) := ParseProperty(data, off).value;
      ParsedProperty(data, off);
      ParsedProperties(data, next, count - 1);
      var (rest, end) := ParseProperties(data, next, count - 1).value;
      assert ([p] + rest)[1..] == rest;
      AtConcat(data, off, p.raw, EncodeProperties(rest));
    }
  }

  /** Printing what was parsed gives back the very bytes that were read. */
  lemma {:induction false} ParsedNode(data: seq<byte>, off: nat)
    requires ParseNode(data, off).Ok?
    ensures var (n, end) := ParseNode(data, off).value;
            Wf(n) && Packable(n) && At(data, off, EncodeNode(n)) && end == off + |EncodeNode(n)|
    decreases |data| - off, 0
  {
    hide Le32, U32, WfProperty, Aligned, ParseNode, ParseProperties, ParseChildren, EncodeNode, EncodeNodes, EncodeProperties,
         AllWf, AllPackable, AllWfProperties, At;
    var (n, end) := ParseNode(data, off).value;
    var next := NodeParts(data, off);
    ParsedProperties(data, off + 8, U32(data, off));
    ParsedChildren(data, next, U32(data, off + 4));
    WfPackable(n);
    Le32At(data, off);
    Le32At(data, off + 4);
    HeaderAt(data, off, n);
    NodeLength(n);
  }

  lemma NodeParts(data: seq<byte>, off: nat) returns (next: nat)
    requires ParseNode(data, off).Ok?
    ensures off + 8 <= |data| && off + 8 <= next <= |data|
    ensures var (n, end) := ParseNode(data, off).value;
            && ParseProperties(data, off + 8, U32(data, off)) == Ok((n.properties, next))
            && ParseChildren(data, next, U32(data, off + 4)) == Ok((n.children, end))
  {
    hide ParseProperties, ParseChildren, U32;
    next := ParseProperties(data, off + 8, U32(data, off)).value.1;
  }

  lemma NodeLength(n: Node)
    requires Packable(n)
    ensures |EncodeNode(n)| == 8 + |EncodeProperties(n.properties)| + |EncodeNodes(n.children)|
  {
    hide EncodeProperties, EncodeNodes, Le32;
  }

  lemma HeaderAt(data: seq<byte>, off: nat, n: Node)
    requires Packable(n)
    ensures At(data, off, EncodeNode(n)) <==>
            At(data, off, Le32(|n.properties|)) && At(data, off + 4, Le32(|n.children|))
            && At(data, off + 8, EncodeProperties(n.properties))
            && At(data, off + 8 + |EncodeProperties(n.properties)|, EncodeNodes(n.children))
  {
    var a, b, c, d := Le32(|n.properties|), Le32(|n.children|), EncodeProperties(n.properties), EncodeNodes(n.children);
    AtConcat(data, off, a, b);
    AtConcat(data, off, a + b, c);
    AtConcat(data, off, a + b + c, d);
  }

  lemma {:induction false} ParsedChildren(data: seq<byte>, off: nat, count: nat)
    requires off <= |data| && ParseChildren(data, off, count).Ok?
    ensures var (ns, end) := ParseChildren(data, off, count).value;
            |ns| == count && AllWf(ns) && AllPackable(ns) && At(data, off, EncodeNodes(ns))
            && end == off + |EncodeNodes(ns)|
    decreases |data| - off, count + 1
  {
    if count > 0 {
      var (c, next) := ParseNode(data, off).value;
      ParsedNode(data, off);
      ParsedChildren(data, next, count - 1);
      var (rest, end) := ParseChildren(data, next, count - 1).value;
      assert ([c] + rest)[1..] == rest;
      AtConcat(data, off, EncodeNode(c), EncodeNodes(rest));
    }
  }

  lemma WfPropertyParses(data: seq<byte>, off: nat, p: Property)
    requires WfProperty(p) && At(data, off, p.raw)
    ensures ParseProperty(data, off) == Ok((p, off + |p.raw|))
  {
    hide Aligned, PayloadLength, DecodeName;
    SameLength(data, off, p.raw);
    assert p.raw[..32] == data[off..off + 32];
  }

  lemma SameLength(data: seq<byte>, off: nat, raw: seq<byte>)
    requires At(data, off, raw) && |raw| >= 36
    ensures PayloadLength(data, off) == PayloadLength(raw, 0)
  {
    assert raw[32] == data[off + 32] && raw[33] == data[off + 33] && raw[34] == data[off + 34] && raw[35] == data[off + 35];
  }

  lemma {:induction false} WfPropertiesParse(data: seq<byte>, off: nat, ps: seq<Property>)
    requires AllWfProperties(ps) && At(data, off, EncodeProperties(ps))
    ensures ParseProperties(data, off, |ps|) == Ok((ps, off + |EncodeProperties(ps)|))
    decreases |ps|
  {
    hide WfProperty, ParseProperty;
    if ps != [] {
      AtConcat(data, off, ps[0].raw, EncodeProperties(ps[1..]));
      WfPropertyParses(data, off, ps[0]);
      WfPropertiesParse(data, off + |ps[0].raw|, ps[1..]);
      assert [ps[0]] + ps[1..] == ps;
    }
  }

  /** Parsing a printed tree gives back that tree, wherever it lies in the data. */
  lemma {:induction false} WfNodeParses(data: seq<byte>, off: nat, n: Node)
    requires Wf(n) && Packable(n) && At(data, off, EncodeNode(n))
    ensures ParseNode(data, off) == Ok((n, off + |EncodeNode(n)|))
    decreases n
  {
    hide Le32, U32, WfProperty, EncodeProperties, ParseProperties;
    HeaderAt(data, off, n);
    U32At(data, off, |n.properties|);
    U32At(data, off + 4, |n.children|);
    WfPropertiesParse(data, off + 8, n.properties);
    WfNodesParse(data, off + 8 + |EncodeProperties(n.properties)|, n.children);
  }

  lemma {:induction false} WfNodesParse(data: seq<byte>, off: nat, ns: seq<Node>)
    requires AllWf(ns) && AllPackable(ns) && At(data, off, EncodeNodes(ns))
    ensures ParseChildren(data, off, |ns|) == Ok((ns, off + |EncodeNodes(ns)|))
    decreases ns
  {
    hide EncodeNode, Wf, Packable, ParseNode;
    if ns != [] {
      AtConcat(data, off, EncodeNode(ns[0]), EncodeNodes(ns[1..]));
      WfNodeParses(data, off, ns[0]);
      WfNodesParse(data, off + |EncodeNode(ns[0])|, ns[1..]);
      assert [ns[0]] + ns[1..] == ns;
    }
  }

  /** The parser and the printer are inverse: `data` is the print of `root` exactly when it parses to it. */
  lemma CodecIsLossless(data: seq<byte>, root: Node)
    ensures ParseTree(data) == Ok(root) <==> Wf(root) && Packable(root) && EncodeNode(root) == data
  {
    if ParseTree(data) == Ok(root) {
      ParsedNode(data, 0);
      assert data[0..|data|] == data;
    }
    if Wf(root) && Packable(root) && EncodeNode(root) == data {
      assert data[0..|data|] == data;
      WfNodeParses(data, 0, root);
    }
  }

  // ---------- the inserted leaf ----------

  lemma {:induction false} FirstNulAt(s: seq<byte>, k: nat)
    requires k <= |s| && (forall i :: 0 <= i < k ==> s[i] != 0) && (k < |s| ==> s[k] == 0)
    ensures FirstNul(s) == k
  {
    if k > 0 {
      FirstNulAt(s[1..], k - 1);
    }
  }

  lemma PaddedNameReads(name: seq<byte>)
    requires |name| < 32 && Utf8.Ascii(name) && forall i :: 0 <= i < |name| ==> name[i] != 0
    ensures DecodeName(name + Zeros(32 - |name|)) == Ok(name)
  {
    var field := name + Zeros(32 - |name|);
    FirstNulAt(field, |name|);
    assert field[..|name|] == name;
  }

  lemma RecordCut(field: seq<byte>, length: nat, body: seq<byte>)
    requires |field| == 32 && length < FLAG_BIT
    ensures var raw := field + Le32(length) + body;
            |raw| == 36 + |body| && raw[..32] == field && raw[36..] == body && PayloadLength(raw, 0) == length
  {
    var raw := field + Le32(length) + body;
    AtSplice(field, Le32(length), body);
    U32At(raw, 32, length);
  }

  /** A record built from ASCII text reads back as that text under that name. */
  lemma StringPropertyReads(name: seq<byte>, value: seq<byte>)
    requires |name| < 32 && |value| + 1 < FLAG_BIT
    requires Utf8.Ascii(name) && Utf8.Valid(value) && forall i :: 0 <= i < |name| ==> name[i] != 0
    ensures WfProperty(StringProperty(name, value))
    ensures DecodeString(StringProperty(name, value).raw) == Ok(value)
  {
    hide Le32, PayloadLength, DecodeName, Utf8.Valid, Utf8.Ascii;
    var length := |value| + 1;
    var raw := StringProperty(name, value).raw;
    var body := value + Zeros(Aligned(length) - |value|);
    PaddedNameReads(name);
    RecordCut(name + Zeros(32 - |name|), length, body);
    assert raw == name + Zeros(32 - |name|) + Le32(length) + body;
    assert body[..length - 1] == value && body[length - 1] == 0;
    assert raw[36..36 + length - 1] == raw[36..][..length - 1];
    assert raw[36 + length - 1] == raw[36..][length - 1];
  }

  lemma LeafProperties()
    ensures ProviderLeaf().children == [] && |ProviderLeaf().properties| == 2
    ensures var ps := ProviderLeaf().properties;
            WfProperty(ps[0]) && WfProperty(ps[1]) && ps[0].name == NAME && ps[1].name == DEVICE_TYPE
            && DecodeString(ps[0].raw) == Ok(PROVIDER) && DecodeString(ps[1].raw) == Ok(PROVIDER)
  {
    hide StringProperty, WfProperty, DecodeString, Utf8.Valid;
    Utf8.AsciiIsValid(PROVIDER);
    StringPropertyReads(NAME, PROVIDER);
    StringPropertyReads(DEVICE_TYPE, PROVIDER);
    assert StringProperty(NAME, PROVIDER).name == NAME by { NameOfStringProperty(NAME, PROVIDER); }
    assert StringProperty(DEVICE_TYPE, PROVIDER).name == DEVICE_TYPE by { NameOfStringProperty(DEVICE_TYPE, PROVIDER); }
  }

  lemma NameOfStringProperty(name: seq<byte>, value: seq<byte>)
    requires |name| < 32 && |value| + 1 < FLAG_BIT
    ensures StringProperty(name, value).name == name
  {
  }

  lemma FirstNamedOfTwo(ps: seq<Property>, name: seq<byte>)
    requires |ps| == 2
    ensures FirstNamed(ps, name) ==
            if ps[0].name == name then Some(ps[0]) else if ps[1].name == name then Some(ps[1]) else None
  {
    assert ps[1..][1..] == [];
    assert FirstNamed(ps[1..][1..], name).None?;
    assert FirstNamed(ps[1..], name) == if ps[1].name == name then Some(ps[1]) else None;
  }

  lemma LeafReads()
    ensures Wf(ProviderLeaf()) && Packable(ProviderLeaf())
    ensures NodeName(ProviderLeaf()) == Ok(PROVIDER)
  {
    hide ProviderLeaf, WfProperty, DecodeString;
    LeafProperties();
    var ps := ProviderLeaf().properties;
    FirstNamedOfTwo(ps, NAME);
    assert AllWfProperties(ps);
    assert ProviderLeaf() == Node(ps, []);
    assert AllWf([]) && AllPackable([]);
  }

  lemma LeafPassesContract(before: Node, after: Node)
    requires after.children == before.children + [ProviderLeaf()]
    ensures CompareLeaf(before, after) == Ok(())
  {
    hide ProviderLeaf, WfProperty, DecodeString, NodeName;
    LeafReads();
    LeafProperties();
    var ps := ProviderLeaf().properties;
    assert after.children[..|after.children| - 1] == before.children;
    assert PropertyNames(ps) == [NAME, DEVICE_TYPE];
    assert |NAME| == 4 && |DEVICE_TYPE| == 11 && |COMPATIBLE| == 10 && |REG| == 3 && |INTERRUPTS| == 10;
    FirstNamedOfTwo(ps, DEVICE_TYPE);
    FirstNamedOfTwo(ps, COMPATIBLE);
    FirstNamedOfTwo(ps, REG);
    FirstNamedOfTwo(ps, INTERRUPTS);
  }

  // ---------- where the bytes go ----------

  lemma {:induction false} EncodeNodesConcat(a: seq<Node>, b: seq<Node>)
    ensures AllPackable(a + b) <==> AllPackable(a) && AllPackable(b)
    ensures AllPackable(a + b) ==> EncodeNodes(a + b) == EncodeNodes(a) + EncodeNodes(b)
  {
    if a == [] {
      assert a + b == b;
    } else {
      assert (a + b)[1..] == a[1..] + b;
      EncodeNodesConcat(a[1..], b);
    }
  }

  lemma {:induction false} AllWfConcat(a: seq<Node>, b: seq<Node>)
    ensures AllWf(a + b) <==> AllWf(a) && AllWf(b)
  {
    if a == [] {
      assert a + b == b;
    } else {
      assert (a + b)[1..] == a[1..] + b;
      AllWfConcat(a[1..], b);
    }
  }

  lemma AllWfAt(ns: seq<Node>, k: nat)
    requires AllWf(ns) && k < |ns|
    ensures Wf(ns[k]) && AllWf(ns[..k]) && AllWf(ns[k + 1..])
  {
    assert ns == ns[..k] + ([ns[k]] + ns[k + 1..]);
    AllWfConcat(ns[..k], [ns[k]] + ns[k + 1..]);
    AllWfConcat([ns[k]], ns[k + 1..]);
    assert [ns[k]][0] == ns[k];
  }

  lemma AllWfReplaced(ns: seq<Node>, k: nat, n: Node)
    requires AllWf(ns) && k < |ns| && Wf(n)
    ensures AllWf(ns[k := n])
  {
    hide Wf;
    AllWfAt(ns, k);
    AllWfConcat([n], ns[k + 1..]);
    AllWfConcat(ns[..k], [n] + ns[k + 1..]);
    assert ns[k := n] == ns[..k] + ([n] + ns[k + 1..]);
  }

  lemma WithLeafWf(root: Node, k: nat)
    requires Wf(root) && k < |root.children| && |root.children[k].children| + 1 < WORD_LIMIT
    ensures Wf(WithLeaf(root, k))
  {
    hide ProviderLeaf, AllWf, AllWfProperties, Packable;
    var armIo := root.children[k];
    AllWfAt(root.children, k);
    LeafReads();
    assert AllWf([ProviderLeaf()]) by { SingletonWf(ProviderLeaf()); }
    AllWfConcat(armIo.children, [ProviderLeaf()]);
    AllWfReplaced(root.children, k, armIo.(children := armIo.children + [ProviderLeaf()]));
  }

  lemma SingletonWf(n: Node)
    requires Wf(n)
    ensures AllWf([n])
  {
  }

  lemma OverflowingLeafNotPackable(root: Node, k: nat)
    requires k < |root.children| && Packable(WithLeaf(root, k))
    ensures |root.children[k].children| + 1 < WORD_LIMIT
  {
    var ns := WithLeaf(root, k).children;
    assert ns == ns[..k] + ([ns[k]] + ns[k + 1..]);
    EncodeNodesConcat(ns[..k], [ns[k]] + ns[k + 1..]);
    assert ([ns[k]] + ns[k + 1..])[0] == ns[k];
  }

  lemma HeaderCut(head: seq<byte>, word: seq<byte>, rest: seq<byte>)
    requires |head| == 4 && |word| == 4
    ensures (head + word + rest)[..4] == head && (head + word + rest)[8..] == rest && At(head + word + rest, 4, word)
  {
  }

  lemma GrownCut(head: seq<byte>, word: seq<byte>, rest: seq<byte>, grown: seq<byte>, more: seq<byte>)
    requires |head| == 4 && |word| == 4
    ensures var whole := head + word + rest;
            head + grown + (rest + more) == whole[..4] + grown + whole[8..] + more && At(whole, 4, word)
  {
    HeaderCut(head, word, rest);
  }

  lemma SingletonPrint(n: Node)
    requires Packable(n)
    ensures AllPackable([n]) && EncodeNodes([n]) == EncodeNode(n)
  {
    hide EncodeNode, Packable;
    assert [n][1..] == [];
  }

  function Body(n: Node): seq<byte>
    requires AllPackable(n.children)
  {
    EncodeProperties(n.properties) + EncodeNodes(n.children)
  }

  lemma NodePrint(n: Node)
    requires Packable(n)
    ensures EncodeNode(n) == Le32(|n.properties|) + Le32(|n.children|) + Body(n)
  {
    hide Le32, EncodeProperties, EncodeNodes;
  }

  lemma GrownBody(armIo: Node, leaf: Node)
    requires AllPackable(armIo.children) && Packable(leaf)
    ensures AllPackable(armIo.children + [leaf])
    ensures Body(armIo.(children := armIo.children + [leaf])) == Body(armIo) + EncodeNode(leaf)
  {
    hide EncodeNode, EncodeNodes, EncodeProperties, AllPackable, Packable;
    SingletonPrint(leaf);
    EncodeNodesConcat(armIo.children, [leaf]);
  }

  /** One node's print, cut at its counter word and at its end. */
  lemma GrownNodePrint(armIo: Node)
    requires Packable(armIo) && |armIo.children| + 1 < WORD_LIMIT
    ensures var grown := armIo.(children := armIo.children + [ProviderLeaf()]);
            Packable(grown) && |EncodeNode(armIo)| >= 8 && Packable(ProviderLeaf())
            && EncodeNode(grown) == EncodeNode(armIo)[..4] + Le32(|armIo.children| + 1) + EncodeNode(armIo)[8..]
                                  + EncodeNode(ProviderLeaf())
            && At(EncodeNode(armIo), 4, Le32(|armIo.children|))
  {
    hide ProviderLeaf, EncodeNode, Packable, Le32, At;
    LeafReads();
    GrownPrint(armIo, ProviderLeaf());
  }

  lemma GrownPrint(armIo: Node, leaf: Node)
    requires Packable(armIo) && Packable(leaf) && |armIo.children| + 1 < WORD_LIMIT
    ensures var grown := armIo.(children := armIo.children + [leaf]);
            Packable(grown) && |EncodeNode(armIo)| >= 8
            && EncodeNode(grown) == EncodeNode(armIo)[..4] + Le32(|armIo.children| + 1) + EncodeNode(armIo)[8..]
                                  + EncodeNode(leaf)
            && At(EncodeNode(armIo), 4, Le32(|armIo.children|))
  {
    hide Le32, EncodeNode, Body, AllPackable, At;
    var grown := armIo.(children := armIo.children + [leaf]);
    GrownBody(armIo, leaf);
    assert Packable(grown);
    NodePrint(armIo);
    NodePrint(grown);
    GrownCut(Le32(|armIo.properties|), Le32(|armIo.children|), Body(armIo), Le32(|armIo.children| + 1), EncodeNode(leaf));
  }

  /** `out` is `source` with the counter word of the node at `p` incremented and `leaf` put in at `q`. */
  predicate OneLeafInserted(source: seq<byte>, out: seq<byte>, p: nat, q: nat, leaf: seq<byte>) {
    && p + 8 <= q <= |source|
    && U32(source, p + 4) + 1 < WORD_LIMIT
    && out == source[..p + 4] + Le32(U32(source, p + 4) + 1) + source[p + 8..q] + leaf + source[q..]
  }

  lemma SplitAtChild(root: Node, k: nat)
    requires Packable(root) && k < |root.children|
    ensures Packable(root.children[k]) && AllPackable(root.children[..k]) && AllPackable(root.children[k + 1..])
    ensures EncodeNode(root) == Le32(|root.properties|) + Le32(|root.children|) + EncodeProperties(root.properties)
              + EncodeNodes(root.children[..k]) + EncodeNode(root.children[k]) + EncodeNodes(root.children[k + 1..])
  {
    hide Le32, EncodeProperties;
    var ns := root.children;
    assert ns == ns[..k] + ([ns[k]] + ns[k + 1..]);
    EncodeNodesConcat(ns[..k], [ns[k]] + ns[k + 1..]);
    assert ([ns[k]] + ns[k + 1..])[1..] == ns[k + 1..];
  }

  /** The bytes in front of the k-th child. */
  function Prefix(root: Node, k: nat): seq<byte>
    requires Packable(root) && k < |root.children| && AllPackable(root.children[..k])
  {
    Le32(|root.properties|) + Le32(|root.children|) + EncodeProperties(root.properties) + EncodeNodes(root.children[..k])
  }

  lemma ReplacedPackable(ns: seq<Node>, k: nat, n: Node)
    requires AllPackable(ns) && k < |ns| && Packable(n)
    ensures AllPackable(ns[k := n])
  {
    hide Packable;
    assert ns == ns[..k] + ([ns[k]] + ns[k + 1..]);
    EncodeNodesConcat(ns[..k], [ns[k]] + ns[k + 1..]);
    EncodeNodesConcat([ns[k]], ns[k + 1..]);
    SingletonPrint(n);
    EncodeNodesConcat([n], ns[k + 1..]);
    EncodeNodesConcat(ns[..k], [n] + ns[k + 1..]);
    assert ns[k := n] == ns[..k] + ([n] + ns[k + 1..]);
  }

  /** Growing one child changes the print only inside that child. */
  lemma ReplacedChildPrint(root: Node, k: nat, n: Node)
    requires Packable(root) && k < |root.children| && Packable(n)
    ensures var out := root.(children := root.children[k := n]);
            && Packable(out) && Packable(root.children[k])
            && AllPackable(root.children[..k]) && AllPackable(root.children[k + 1..])
            && EncodeNode(root) == Prefix(root, k) + EncodeNode(root.children[k]) + EncodeNodes(root.children[k + 1..])
            && EncodeNode(out) == Prefix(root, k) + EncodeNode(n) + EncodeNodes(root.children[k + 1..])
  {
    hide Le32, EncodeProperties, EncodeNode, EncodeNodes, AllPackable;
    var out := root.(children := root.children[k := n]);
    ReplacedPackable(root.children, k, n);
    SplitAtChild(root, k);
    SplitAtChild(out, k);
    assert out.children[..k] == root.children[..k] && out.children[k + 1..] == root.children[k + 1..];
  }

  lemma CutSpliced(pre: seq<byte>, mid: seq<byte>, post: seq<byte>)
    requires |mid| >= 8
    ensures var s := pre + mid + post;
            s[..|pre| + 4] == pre + mid[..4] && s[|pre| + 8..|pre| + |mid|] == mid[8..] && s[|pre| + |mid|..] == post
            && At(s, |pre|, mid)
  {
  }

  lemma AtWithin(s: seq<byte>, p: nat, mid: seq<byte>, i: nat, piece: seq<byte>)
    requires At(s, p, mid) && At(mid, i, piece)
    ensures At(s, p + i, piece)
  {
    forall j | 0 <= j < |piece|
      ensures s[p + i + j] == piece[j]
    {
      assert s[p..p + |mid|][i + j] == mid[i + j];
      assert mid[i..i + |piece|][j] == piece[j];
    }
  }

  lemma SurgeryOnPrint(root: Node, k: nat) returns (p: nat, q: nat)
    requires Packable(root) && k < |root.children| && |root.children[k].children| + 1 < WORD_LIMIT
    ensures Packable(WithLeaf(root, k)) && Packable(root.children[k]) && Packable(ProviderLeaf())
    ensures OneLeafInserted(EncodeNode(root), EncodeNode(WithLeaf(root, k)), p, q, EncodeNode(ProviderLeaf()))
    ensures At(EncodeNode(root), p, EncodeNode(root.children[k])) && q == p + |EncodeNode(root.children[k])|
  {
    hide Le32, U32, ProviderLeaf, EncodeNode, EncodeNodes, Packable, AllPackable, At, Prefix;
    var armIo := root.children[k];
    var grown := armIo.(children := armIo.children + [ProviderLeaf()]);
    PackableChild(root, k);
    GrownNodePrint(armIo);
    ReplacedChildPrint(root, k, grown);
    var pre, mid, post := Prefix(root, k), EncodeNode(armIo), EncodeNodes(root.children[k + 1..]);
    p, q := |pre|, |pre| + |mid|;
    CutSpliced(pre, mid, post);
    AtWithin(EncodeNode(root), p, mid, 4, Le32(|armIo.children|));
    U32At(EncodeNode(root), p + 4, |armIo.children|);
  }

  lemma PackableChild(root: Node, k: nat)
    requires Packable(root) && k < |root.children|
    ensures Packable(root.children[k])
  {
    SplitAtChild(root, k);
  }

  // ---------- the self-checks never fail but for names ----------

  /** Every node strictly below `n` has a readable name. */
  predicate NamesBelow(n: Node) {
    forall i :: 0 <= i < |n.children| ==> NodeName(n.children[i]).Ok? && NamesBelow(n.children[i])
  }

  /** What a caller can check on the source before running the tool. */
  predicate Acceptable(source: seq<byte>) {
    && ParseTree(source).Ok?
    && var root := ParseTree(source).value;
    && ArmIoIndex(root).Ok?
    && var k := ArmIoIndex(root).value;
    && RejectExistingProvider(root.children[k]).Ok?
    && |root.children[k].children| + 1 < WORD_LIMIT
    && forall i :: 0 <= i < |root.children| && i != k ==> NamesBelow(root.children[i])
  }

  lemma {:induction false} CompareSame(n: Node)
    ensures Compare(n, n, Elsewhere).Ok? <==> NamesBelow(n)
    decreases n, 1, 0
  {
    CompareChildrenSame(n, 0);
  }

  lemma {:induction false} CompareChildrenSame(n: Node, i: nat)
    requires i <= |n.children|
    ensures CompareChildren(n, n, Elsewhere, i).Ok? <==>
            forall j :: i <= j < |n.children| ==> NodeName(n.children[j]).Ok? && NamesBelow(n.children[j])
    decreases n, 0, |n.children| - i
  {
    if i < |n.children| {
      CompareSame(n.children[i]);
      CompareChildrenSame(n, i + 1);
    }
  }

  lemma LeafKeepsName(armIo: Node)
    ensures NodeName(armIo.(children := armIo.children + [ProviderLeaf()])) == NodeName(armIo)
  {
  }

  lemma {:induction false} CompareGrown(root: Node, k: nat, i: nat)
    requires k < |root.children| && i <= |root.children|
    requires forall j :: 0 <= j < |root.children| ==> NodeName(root.children[j]).Ok?
    ensures CompareChildren(root, WithLeaf(root, k), Child(k), i).Ok? <==>
            forall j :: i <= j < |root.children| && j != k ==> NamesBelow(root.children[j])
    decreases |root.children| - i
  {
    hide ProviderLeaf, NodeName, CompareLeaf, NamesBelow;
    if i < |root.children| {
      LeafKeepsName(root.children[k]);
      if i == k {
        LeafPassesContract(root.children[k], WithLeaf(root, k).children[k]);
      } else {
        CompareSame(root.children[i]);
      }
      CompareGrown(root, k, i + 1);
    }
  }

  lemma {:induction false} FindUnderGrowth(root: Node, k: nat, i: nat)
    requires k < |root.children| && i <= |root.children|
    ensures FindDirectChild(WithLeaf(root, k).children, ARM_IO, i) == FindDirectChild(root.children, ARM_IO, i)
    decreases |root.children| - i
  {
    hide ProviderLeaf, NodeName;
    if i < |root.children| {
      LeafKeepsName(root.children[k]);
      FindUnderGrowth(root, k, i + 1);
    }
  }

  lemma GrownConflicts(armIo: Node)
    requires RejectExistingProvider(armIo).Ok?
    ensures RejectExistingProvider(armIo.(children := armIo.children + [ProviderLeaf()])) == Err(ProviderConflict)
  {
    LeafReads();
    var grown := armIo.children + [ProviderLeaf()];
    var found := FindDirectChild(armIo.children, PROVIDER, 0);
    var again := FindDirectChild(grown, PROVIDER, 0);
    assert forall j :: 0 <= j < |grown| ==> NodeName(grown[j]).Ok?;
    assert again.Ok?;
    assert NodeName(grown[|armIo.children|]) == Ok(PROVIDER);
    assert |armIo.children| in again.value;
  }

  lemma ContractOnGrown(root: Node, k: nat)
    requires ArmIoIndex(root) == Ok(k) && RejectExistingProvider(root.children[k]).Ok?
    ensures ArmIoIndex(WithLeaf(root, k)) == Ok(k)
    ensures AssertOutputContract(root, WithLeaf(root, k)).Ok? <==>
            forall i :: 0 <= i < |root.children| && i != k ==> NamesBelow(root.children[i])
  {
    hide NodeName, NamesBelow, ProviderLeaf, CompareChildren, FindDirectChild, RejectExistingProvider, CompareLeaf;
    ArmIoNames(root);
    FindUnderGrowth(root, k, 0);
    CompareGrown(root, k, 0);
    GrownConflicts(root.children[k]);
  }

  lemma ArmIoNames(root: Node)
    requires ArmIoIndex(root).Ok?
    ensures forall j :: 0 <= j < |root.children| ==> NodeName(root.children[j]).Ok?
  {
  }

  /** Growing succeeds in printing and reparsing exactly when the child count still fits its word. */
  lemma GrownReparses(root: Node, k: nat)
    requires Wf(root) && k < |root.children|
    ensures Packable(WithLeaf(root, k)) <==> |root.children[k].children| + 1 < WORD_LIMIT
    ensures Packable(WithLeaf(root, k)) ==> ParseTree(EncodeNode(WithLeaf(root, k))) == Ok(WithLeaf(root, k))
  {
    hide EncodeNode, WithLeaf, Wf, Packable, ParseTree;
    var grown := WithLeaf(root, k);
    if Packable(grown) {
      OverflowingLeafNotPackable(root, k);
    }
    if |root.children[k].children| + 1 < WORD_LIMIT {
      WithLeafWf(root, k);
      WfPackable(grown);
      CodecIsLossless(EncodeNode(grown), grown);
    }
  }

  /** Up to the name checks, the run is determined: the output is the print of the grown tree. */
  lemma GenerateUnfolds(source: seq<byte>)
    requires ParseTree(source).Ok? && ArmIoIndex(ParseTree(source).value).Ok?
    ensures var root := ParseTree(source).value;
            var k := ArmIoIndex(root).value;
            var grown := WithLeaf(root, k);
            && (Generate(source).Ok? <==> Acceptable(source))
            && (Generate(source).Ok? ==> Wf(root) && Packable(root) && EncodeNode(root) == source
                                         && Packable(grown) && Generate(source) == Ok(EncodeNode(grown))
                                         && ParseTree(EncodeNode(grown)) == Ok(grown))
  {
    hide EncodeNode, WithLeaf, Wf, Packable, ParseTree, ArmIoIndex, RejectExistingProvider, AssertOutputContract, NamesBelow;
    var root := ParseTree(source).value;
    var k := ArmIoIndex(root).value;
    CodecIsLossless(source, root);
    GrownReparses(root, k);
    if RejectExistingProvider(root.children[k]).Ok? {
      ContractOnGrown(root, k);
    }
  }

  /** The tool accepts exactly the acceptable sources: its round-trip and contract checks on its own
      output can fail only because some node outside arm-io has no readable name. */
  lemma GenerateAcceptsIff(source: seq<byte>)
    ensures Generate(source).Ok? <==> Acceptable(source)
  {
    if ParseTree(source).Ok? && ArmIoIndex(ParseTree(source).value).Ok? {
      GenerateUnfolds(source);
    }
  }

  /** The output is the input with arm-io's child count incremented and the leaf put in exactly at the
      end of arm-io's encoded subtree; every other byte is the input's, in order. */
  lemma GenerateIsSurgical(source: seq<byte>) returns (p: nat, q: nat)
    requires Generate(source).Ok?
    ensures Packable(ProviderLeaf())
    ensures OneLeafInserted(source, Generate(source).value, p, q, EncodeNode(ProviderLeaf()))
    ensures ParseTree(source).Ok? && ArmIoIndex(ParseTree(source).value).Ok?
    ensures ParseNode(source, p) == Ok((ParseTree(source).value.children[ArmIoIndex(ParseTree(source).value).value], q))
  {
    hide EncodeNode, ProviderLeaf, Acceptable, ParseNode, ParseTree, ArmIoIndex, Generate, WithLeaf, OneLeafInserted,
         Wf, AllWf, Packable;
    GenerateAcceptsIff(source);
    AcceptableRoom(source);
    var root := ParseTree(source).value;
    var k := ArmIoIndex(root).value;
    GenerateUnfolds(source);
    p, q := SurgeryOnPrint(root, k);
    WfChild(root, k);
    WfNodeParses(source, p, root.children[k]);
  }

  lemma AcceptableRoom(source: seq<byte>)
    requires Acceptable(source)
    ensures ParseTree(source).Ok? && ArmIoIndex(ParseTree(source).value).Ok?
    ensures |ParseTree(source).value.children[ArmIoIndex(ParseTree(source).value).value].children| + 1 < WORD_LIMIT
  {
  }

  lemma WfChild(root: Node, k: nat)
    requires Wf(root) && k < |root.children|
    ensures Wf(root.children[k]) && Packable(root.children[k])
  {
    AllWfAt(root.children, k);
    WfPackable(root.children[k]);
  }

  /** A second run on the output always ends in the conflict. */
  lemma GenerateTwiceConflicts(source: seq<byte>)
    requires Generate(source).Ok?
    ensures Generate(Generate(source).value) == Err(ProviderConflict)
  {
    var root := ParseTree(source).value;
    var k := ArmIoIndex(root).value;
    GenerateUnfolds(source);
    ContractOnGrown(root, k);
    GrownConflicts(root.children[k]);
  }
}
