/** dt_fixup on whole trees: what a first pass yields, how it reads back, and when a second pass repeats it. */
module DtFixupTree {
  import opened Results
  import opened Bytes
  import opened Utf8Text
  import opened DtFixup
  import opened DtFixupProofs

  predicate SettledProps(ps: seq<(string, Value)>, lit: Literal) {
    forall i :: 0 <= i < |ps| ==> Settled(ps[i].0, ps[i].1, lit)
  }

  predicate StableProps(ps: seq<(string, Value)>, lit: Literal) {
    forall i :: 0 <= i < |ps| ==> Stable(ps[i].0, ps[i].1, lit)
  }

  predicate SettledNode(d: Node, lit: Literal) {
    SettledProps(d.props, lit) && SettledNodes(d.children, lit)
  }

  predicate SettledNodes(ds: seq<Node>, lit: Literal) {
    ds == [] || (SettledNode(ds[0], lit) && SettledNodes(ds[1..], lit))
  }

  predicate ProducedNode(d: Node) {
    UniqueKeys(d.props) && GoodProps(d.props) && ProducedNodes(d.children)
  }

  predicate ProducedNodes(ds: seq<Node>) {
    ds == [] || (ProducedNode(ds[0]) && ProducedNodes(ds[1..]))
  }

  // ---------- the first pass ----------

  /** No text of the record list looks like one of the encodings of a number or of nothing. */
  predicate OrdinaryProps(dt: seq<byte>, off: nat, count: nat)
    decreases count
  {
    count == 0 || (match DecodeProp(dt, off)
                   case Err(_) => false
                   case Ok((name, v, next)) =>
                     (ReadAsText(name, Clip(dt, off + 36, next)) && v.Text? ==> !Reserved(v.s))
                     && OrdinaryProps(dt, next, count - 1))
  }

  predicate OrdinaryNode(dt: seq<byte>, off: nat)
    decreases Left(dt, off), 0
  {
    && off + 8 <= |dt| && OrdinaryProps(dt, off + 8, U32(dt, off))
    && DecodeProps(dt, off + 8, U32(dt, off), []).Ok?
    && OrdinaryNodes(dt, DecodeProps(dt, off + 8, U32(dt, off), []).value.1, U32(dt, off + 4))
  }

  predicate OrdinaryNodes(dt: seq<byte>, off: nat, count: nat)
    decreases Left(dt, off), count + 1
  {
    count == 0
    || (OrdinaryNode(dt, off) && DecodeNode(dt, off).Ok? && OrdinaryNodes(dt, DecodeNode(dt, off).value.1, count - 1))
  }

  lemma {:induction false} PutKeeps(ps: seq<(string, Value)>, key: string, value: Value, lit: Literal)
    requires UniqueKeys(ps) && GoodProps(ps) && GoodProp((key, value))
    ensures UniqueKeys(Put(ps, key, value)) && GoodProps(Put(ps, key, value))
    ensures SettledProps(ps, lit) && Settled(key, value, lit) ==> SettledProps(Put(ps, key, value), lit)
    ensures forall i :: 0 <= i < |Put(ps, key, value)| ==>
              Put(ps, key, value)[i].0 == key || exists j :: 0 <= j < |ps| && ps[j].0 == Put(ps, key, value)[i].0
  {
    hide GoodProp, Settled;
    if ps != [] && ps[0].0 != key {
      PutKeeps(ps[1..], key, value, lit);
    }
  }

  /** A value that is not text, or is ordinary text, is written back as it was read. */
  lemma OrdinaryValueSettles(name: string, b: seq<byte>, lit: Literal)
    requires PythonLiterals(lit) && DecodeValue(name, b).Ok?
    requires ReadAsText(name, b) && DecodeValue(name, b).value.Text? ==> !Reserved(DecodeValue(name, b).value.s)
    ensures Settled(name, DecodeValue(name, b).value, lit)
  {
    hide Le32, U32, NullTerminated, KeepsLength, Hex, ProbablyString;
    if !ReadAsText(name, b) && |b| == 4 {
      LeNumber4(b);
      Prefixes(U32(b, 0));
      HexText(U32_PREFIX, U32(b, 0), lit);
    } else if !ReadAsText(name, b) && |b| == 8 {
      LeNumber8(b);
      Prefixes(U64(b, 0));
      HexText(U64_PREFIX, U64(b, 0), lit);
    } else {
      Prefixes(0);
    }
  }

  lemma RecordProduced(dt: seq<byte>, off: nat, lit: Literal)
    requires PythonLiterals(lit) && DecodeProp(dt, off).Ok? && DecodeProp(dt, off).value.2 <= |dt| < FLAG_BIT - 1
    ensures var (name, v, next) := DecodeProp(dt, off).value;
            GoodProp((name, v)) && ((ReadAsText(name, Clip(dt, off + 36, next)) && v.Text? ==> !Reserved(v.s)) ==> Settled(name, v, lit))
  {
    hide DecodeValue, ReadAsText, Produced, Settled, NullTerminated;
    var (name, v, next) := DecodeProp(dt, off).value;
    TextLength(Clip(dt, off, off + 32));
    var b := Clip(dt, off + 36, next);
    DecodedValue(name, b);
    if ReadAsText(name, b) && v.Text? ==> !Reserved(v.s) {
      OrdinaryValueSettles(name, b, lit);
    }
  }

  lemma {:induction false} PropsProduced(dt: seq<byte>, off: nat, count: nat, props: seq<(string, Value)>, lit: Literal)
    requires PythonLiterals(lit) && UniqueKeys(props) && GoodProps(props)
    requires DecodeProps(dt, off, count, props).Ok? && DecodeProps(dt, off, count, props).value.1 <= |dt| < FLAG_BIT - 1
    ensures UniqueKeys(DecodeProps(dt, off, count, props).value.0) && GoodProps(DecodeProps(dt, off, count, props).value.0)
    ensures OrdinaryProps(dt, off, count) && SettledProps(props, lit) ==>
              SettledProps(DecodeProps(dt, off, count, props).value.0, lit)
    decreases count
  {
    hide DecodeProp, Settled, GoodProp, UniqueKeys, GoodProps, SettledProps, ReadAsText, Put, PythonLiterals;
    if count > 0 {
      var (name, v, next) := DecodeProp(dt, off).value;
      RecordProduced(dt, off, lit);
      PutKeeps(props, name, v, lit);
      PropsProduced(dt, next, count - 1, Put(props, name, v), lit);
    }
  }

  /** A pass over whole records yields a tree of unique keys and produced values. */
  lemma {:induction false} FirstPassProduces(dt: seq<byte>, off: nat, lit: Literal)
    requires PythonLiterals(lit) && DecodeNode(dt, off).Ok? && DecodeNode(dt, off).value.1 <= |dt| < FLAG_BIT - 1
    ensures ProducedNode(DecodeNode(dt, off).value.0)
    ensures OrdinaryNode(dt, off) ==> SettledNode(DecodeNode(dt, off).value.0, lit)
    decreases Left(dt, off), 0
  {
    hide DecodeProps, OrdinaryProps, UniqueKeys, GoodProps, PythonLiterals;
    var n, k := U32(dt, off), U32(dt, off + 4);
    var (props, next) := DecodeProps(dt, off + 8, n, []).value;
    EmptyProps(lit);
    PropsProduced(dt, off + 8, n, [], lit);
    ChildrenProduced(dt, next, k, lit);
  }

  lemma EmptyProps(lit: Literal)
    ensures UniqueKeys([]) && GoodProps([]) && SettledProps([], lit)
  {
  }

  lemma {:induction false} ChildrenProduced(dt: seq<byte>, off: nat, count: nat, lit: Literal)
    requires PythonLiterals(lit) && DecodeChildren(dt, off, count).Ok? && DecodeChildren(dt, off, count).value.1 <= |dt| < FLAG_BIT - 1
    ensures ProducedNodes(DecodeChildren(dt, off, count).value.0)
    ensures OrdinaryNodes(dt, off, count) ==> SettledNodes(DecodeChildren(dt, off, count).value.0, lit)
    decreases Left(dt, off), count + 1
  {
    hide DecodeProps, OrdinaryProps, PythonLiterals;
    if count > 0 {
      var (c, next) := DecodeNode(dt, off).value;
      FirstPassProduces(dt, off, lit);
      ChildrenProduced(dt, next, count - 1, lit);
      var rest := DecodeChildren(dt, next, count - 1).value.0;
      assert ([c] + rest)[1..] == rest;
    }
  }

  // ---------- reading back what was written ----------

  function RereadProps(ps: seq<(string, Value)>, lit: Literal): Outcome<seq<(string, Value)>> {
    if ps == [] then Ok([])
    else
      var v :- Reread(ps[0].0, ps[0].1, lit);
      var rest :- RereadProps(ps[1..], lit);
      Ok([(ps[0].0, v)] + rest)
  }

  function RereadNode(d: Node, lit: Literal): Outcome<Node> {
    var props :- RereadProps(d.props, lit);
    var children :- RereadNodes(d.children, lit);
    Ok(Node(props, children))
  }

  function RereadNodes(ds: seq<Node>, lit: Literal): Outcome<seq<Node>> {
    if ds == [] then Ok([])
    else
      var first :- RereadNode(ds[0], lit);
      var rest :- RereadNodes(ds[1..], lit);
      Ok([first] + rest)
  }

  /** The field of an accepted name is 32 bytes and gives the name back. */
  lemma NameField(name: string, v: Value, lit: Literal)
    requires NulFreeText(name) && EncodeProp(name, v, lit).Ok?
    ensures |Padded(Encode(name), 32)| == 32 && NullTerminated(Padded(Encode(name), 32)) == Ok(name)
  {
    hide Encode, NullTerminated, ParseEntry;
    var b := Encode(name);
    NulFreeName(name);
    WidePadding(b, 32);
    if |b| < 32 {
      PaddedReads(name, 32 - |b|);
    }
  }

  lemma WidePadding(b: seq<byte>, n: nat)
    ensures n <= |b| ==> Padded(b, n) == b
  {
  }

  lemma NulFreeName(name: string)
    requires NulFreeText(name)
    ensures forall i :: 0 <= i < |Encode(name)| ==> Encode(name)[i] != 0
  {
    NulFree(name);
  }

  lemma EntryLength(name: string, v: Value, lit: Literal)
    requires Produced(name, v) && ParseEntry(v, lit).Ok?
    ensures ParseEntry(v, lit).value.0 < FLAG_BIT && |ParseEntry(v, lit).value.1| == Aligned(ParseEntry(v, lit).value.0)
  {
    hide Encode, Le32, ReadAsText, PrintableText;
    EntrySized(v, lit);
  }

  lemma {:induction false} PutAppends(ps: seq<(string, Value)>, key: string, value: Value)
    requires forall i :: 0 <= i < |ps| ==> ps[i].0 != key
    ensures Put(ps, key, value) == ps + [(key, value)]
  {
    if ps != [] {
      PutAppends(ps[1..], key, value);
      assert ps == [ps[0]] + ps[1..];
    }
  }

  lemma RecordReads(dt: seq<byte>, off: nat, name: string, v: Value, lit: Literal)
    requires GoodProp((name, v)) && EncodeProp(name, v, lit).Ok? && At(dt, off, EncodeProp(name, v, lit).value)
    ensures DecodeProp(dt, off).Ok? <==> Reread(name, v, lit).Ok?
    ensures DecodeProp(dt, off).Ok? ==>
              DecodeProp(dt, off).value == (name, Reread(name, v, lit).value, off + |EncodeProp(name, v, lit).value|)
  {
    hide Encode, ParseEntry, NullTerminated, DecodeValue, Produced, U32, Le32, Clip, Padded;
    var field := Padded(Encode(name), 32);
    var (length, bytes) := ParseEntry(v, lit).value;
    NameField(name, v, lit);
    EntryLength(name, v, lit);
    AtConcat(dt, off, field + Le32(length), bytes);
    AtConcat(dt, off, field, Le32(length));
    U32At(dt, off + 32, length);
    ClipAt(dt, off, field);
    ClipAt(dt, off + 36, bytes);
  }

  lemma ClipAt(dt: seq<byte>, off: nat, piece: seq<byte>)
    requires At(dt, off, piece)
    ensures Clip(dt, off, off + |piece|) == piece
  {
  }

  predicate Agrees<T(==)>(got: Outcome<(T, nat)>, want: Outcome<T>, end: nat) {
    match want
    case Ok(x) => got == Ok((x, end))
    case Err(_) => got.Err?
  }

  predicate NewKeys(acc: seq<(string, Value)>, ps: seq<(string, Value)>) {
    forall i, j :: 0 <= i < |acc| && 0 <= j < |ps| ==> acc[i].0 != ps[j].0
  }

  function Appended(acc: seq<(string, Value)>, more: Outcome<seq<(string, Value)>>): Outcome<seq<(string, Value)>> {
    match more
    case Ok(ps) => Ok(acc + ps)
    case Err(e) => Err(e)
  }

  lemma {:induction false} PropsRead(dt: seq<byte>, off: nat, ps: seq<(string, Value)>, acc: seq<(string, Value)>, lit: Literal)
    requires UniqueKeys(ps) && GoodProps(ps) && NewKeys(acc, ps) && EncodeProps(ps, lit).Ok?
    requires At(dt, off, EncodeProps(ps, lit).value)
    ensures Agrees(DecodeProps(dt, off, |ps|, acc), Appended(acc, RereadProps(ps, lit)), off + |EncodeProps(ps, lit).value|)
    decreases |ps|
  {
    hide EncodeProp, DecodeProp, Reread, GoodProp, At, Put;
    if ps == [] {
      assert acc + [] == acc;
    } else {
      var (name, v) := ps[0];
      var first, rest := EncodeProp(name, v, lit).value, EncodeProps(ps[1..], lit).value;
      AtConcat(dt, off, first, rest);
      RecordReads(dt, off, name, v, lit);
      if Reread(name, v, lit).Ok? {
        var w := Reread(name, v, lit).value;
        PutAppends(acc, name, w);
        NewKeysGrow(acc, ps, w);
        PropsRead(dt, off + |first|, ps[1..], acc + [(name, w)], lit);
        AppendedCons(acc, (name, w), RereadProps(ps[1..], lit));
      }
    }
  }

  lemma NewKeysGrow(acc: seq<(string, Value)>, ps: seq<(string, Value)>, w: Value)
    requires ps != [] && UniqueKeys(ps) && NewKeys(acc, ps)
    ensures NewKeys(acc + [(ps[0].0, w)], ps[1..]) && UniqueKeys(ps[1..])
  {
  }

  lemma AppendedCons(acc: seq<(string, Value)>, p: (string, Value), more: Outcome<seq<(string, Value)>>)
    ensures more.Ok? ==> acc + [p] + more.value == acc + ([p] + more.value)
  {
  }

  /** Reading an encoded subtree, wherever it lies, takes exactly its encoded length. */
  lemma {:induction false} EncodedNodeReads(dt: seq<byte>, off: nat, d: Node, lit: Literal)
    requires ProducedNode(d) && EncodeNode(d, lit).Ok? && At(dt, off, EncodeNode(d, lit).value)
    ensures Agrees(DecodeNode(dt, off), RereadNode(d, lit), off + |EncodeNode(d, lit).value|)
    decreases d
  {
    hide EncodeProps, DecodeProps, RereadProps, UniqueKeys, GoodProps, U32, Le32;
    var n, k := |d.props|, |d.children|;
    var props, children := EncodeProps(d.props, lit).value, EncodeNodes(d.children, lit).value;
    AtConcat(dt, off, Le32(n) + Le32(k) + props, children);
    AtConcat(dt, off, Le32(n) + Le32(k), props);
    AtConcat(dt, off, Le32(n), Le32(k));
    U32At(dt, off, n);
    U32At(dt, off + 4, k);
    PropsRead(dt, off + 8, d.props, [], lit);
    EmptyAppended(RereadProps(d.props, lit));
    EncodedNodesRead(dt, off + 8 + |props|, d.children, lit);
  }

  lemma EmptyAppended(more: Outcome<seq<(string, Value)>>)
    ensures Appended([], more) == more
  {
    if more.Ok? {
      assert [] + more.value == more.value;
    }
  }

  /** The encoded siblings lie at `off`. */
  predicate NodesAt(dt: seq<byte>, off: nat, ds: seq<Node>, lit: Literal) {
    EncodeNodes(ds, lit).Ok? && At(dt, off, EncodeNodes(ds, lit).value)
  }

  /** Reading them takes exactly their encoded length. */
  predicate NodesRead(dt: seq<byte>, off: nat, ds: seq<Node>, lit: Literal)
    requires EncodeNodes(ds, lit).Ok?
  {
    Agrees(DecodeChildren(dt, off, |ds|), RereadNodes(ds, lit), off + |EncodeNodes(ds, lit).value|)
  }

  lemma {:induction false} EncodedNodesRead(dt: seq<byte>, off: nat, ds: seq<Node>, lit: Literal)
    requires ProducedNodes(ds) && NodesAt(dt, off, ds, lit)
    ensures NodesRead(dt, off, ds, lit)
    decreases ds
  {
    hide At, EncodeNode, DecodeNode, RereadNode, ProducedNode;
    if ds != [] {
      var first, rest := EncodeNode(ds[0], lit).value, EncodeNodes(ds[1..], lit).value;
      AtConcat(dt, off, first, rest);
      EncodedNodeReads(dt, off, ds[0], lit);
      EncodedNodesRead(dt, off + |first|, ds[1..], lit);
    }
  }

  // ---------- the second pass ----------

  lemma {:induction false} PropsStableIff(ps: seq<(string, Value)>, lit: Literal)
    requires PythonLiterals(lit) && GoodProps(ps) && EncodeProps(ps, lit).Ok?
    ensures StableProps(ps, lit) <==> SettledProps(ps, lit)
  {
    hide Stable, Settled, Produced, NulFreeText, PythonLiterals;
    forall i | 0 <= i < |ps|
      ensures Stable(ps[i].0, ps[i].1, lit) <==> Settled(ps[i].0, ps[i].1, lit)
    {
      PartEncodes(ps, i, lit);
      ValueStableIff(ps[i].0, ps[i].1, lit);
    }
  }

  lemma {:induction false} PartEncodes(ps: seq<(string, Value)>, i: nat, lit: Literal)
    requires i < |ps| && EncodeProps(ps, lit).Ok?
    ensures ParseEntry(ps[i].1, lit).Ok?
  {
    hide ParseEntry;
    if i > 0 {
      PartEncodes(ps[1..], i - 1, lit);
    }
  }

  /** Stable values read back to a list that is written in the same bytes. */
  lemma {:induction false} StablePropsRewrite(ps: seq<(string, Value)>, lit: Literal)
    requires StableProps(ps, lit) && EncodeProps(ps, lit).Ok?
    ensures RereadProps(ps, lit).Ok? && |RereadProps(ps, lit).value| == |ps|
    ensures EncodeProps(RereadProps(ps, lit).value, lit) == EncodeProps(ps, lit)
  {
    hide Reread, ParseEntry;
    if ps != [] {
      assert Stable(ps[0].0, ps[0].1, lit);
      StablePropsRewrite(ps[1..], lit);
      var qs := RereadProps(ps, lit).value;
      assert qs[1..] == RereadProps(ps[1..], lit).value;
    }
  }

  /** Two lists under the same keys whose encodings start at the same place have the same entries. */
  lemma {:induction false} PropsForced(dt: seq<byte>, off: nat, ps: seq<(string, Value)>, lit: Literal)
    requires GoodProps(ps) && EncodeProps(ps, lit).Ok? && RereadProps(ps, lit).Ok?
    requires EncodeProps(RereadProps(ps, lit).value, lit).Ok?
    requires At(dt, off, EncodeProps(ps, lit).value)
    requires At(dt, off, EncodeProps(RereadProps(ps, lit).value, lit).value)
    ensures StableProps(ps, lit) && |EncodeProps(RereadProps(ps, lit).value, lit).value| == |EncodeProps(ps, lit).value|
    decreases |ps|
  {
    hide Reread, ParseEntry, At, GoodProp, EncodeProp, Stable;
    if ps != [] {
      var (name, v) := ps[0];
      var w := Reread(name, v, lit).value;
      var qs := RereadProps(ps, lit).value;
      assert qs[0] == (name, w) && qs[1..] == RereadProps(ps[1..], lit).value;
      AtConcat(dt, off, EncodeProp(name, v, lit).value, EncodeProps(ps[1..], lit).value);
      AtConcat(dt, off, EncodeProp(name, w, lit).value, EncodeProps(qs[1..], lit).value);
      RecordForced(dt, off, name, v, lit);
      PropsForced(dt, off + |EncodeProp(name, v, lit).value|, ps[1..], lit);
    }
  }

  lemma RecordForced(dt: seq<byte>, off: nat, name: string, v: Value, lit: Literal)
    requires GoodProp((name, v)) && EncodeProp(name, v, lit).Ok? && Reread(name, v, lit).Ok?
    requires EncodeProp(name, Reread(name, v, lit).value, lit).Ok?
    requires At(dt, off, EncodeProp(name, v, lit).value) && At(dt, off, EncodeProp(name, Reread(name, v, lit).value, lit).value)
    ensures Stable(name, v, lit) && |EncodeProp(name, Reread(name, v, lit).value, lit).value| == |EncodeProp(name, v, lit).value|
  {
    hide Encode, ParseEntry, DecodeValue, NulFreeText, Produced, U32, Le32;
    var w := Reread(name, v, lit).value;
    var field := Padded(Encode(name), 32);
    var (length, bytes) := ParseEntry(v, lit).value;
    var (length', bytes') := ParseEntry(w, lit).value;
    EntryLength(name, v, lit);
    ReadTextHasNoNul(name, bytes);
    EntrySized(w, lit);
    AtConcat(dt, off, field + Le32(length), bytes);
    AtConcat(dt, off, field, Le32(length));
    AtConcat(dt, off, field + Le32(length'), bytes');
    AtConcat(dt, off, field, Le32(length'));
    U32At(dt, off + |field|, length);
    U32At(dt, off + |field|, length');
  }

  lemma ReadTextHasNoNul(name: string, b: seq<byte>)
    requires DecodeValue(name, b).Ok?
    ensures DecodeValue(name, b).value.Text? ==> NulFreeText(DecodeValue(name, b).value.s)
  {
    hide NullTerminated, HexDigits, ProbablyString;
    if ReadAsText(name, b) {
      TextLength(b);
    } else if |b| == 4 {
      HexHasNoNul(U32(b, 0));
    } else if |b| == 8 {
      HexHasNoNul(U64(b, 0));
    }
  }

  lemma {:induction false} SettledRewrites(d: Node, lit: Literal)
    requires PythonLiterals(lit) && ProducedNode(d) && SettledNode(d, lit) && EncodeNode(d, lit).Ok?
    ensures RereadNode(d, lit).Ok? && EncodeNode(RereadNode(d, lit).value, lit) == EncodeNode(d, lit)
  {
    hide EncodeProps, RereadProps, UniqueKeys, GoodProps, PythonLiterals, SettledProps, StableProps;
    PropsStableIff(d.props, lit);
    StablePropsRewrite(d.props, lit);
    SettledAllRewrite(d.children, lit);
  }

  lemma {:induction false} SettledAllRewrite(ds: seq<Node>, lit: Literal)
    requires PythonLiterals(lit) && ProducedNodes(ds) && SettledNodes(ds, lit) && EncodeNodes(ds, lit).Ok?
    ensures RereadNodes(ds, lit).Ok? && |RereadNodes(ds, lit).value| == |ds|
    ensures EncodeNodes(RereadNodes(ds, lit).value, lit) == EncodeNodes(ds, lit)
  {
    hide PythonLiterals;
    if ds != [] {
      SettledRewrites(ds[0], lit);
      SettledAllRewrite(ds[1..], lit);
      assert RereadNodes(ds, lit).value[1..] == RereadNodes(ds[1..], lit).value;
    }
  }

  /** Where the rewritten tree starts with the same bytes, every value in it is settled. */
  lemma {:induction false} NodeForced(dt: seq<byte>, off: nat, d: Node, lit: Literal)
    requires PythonLiterals(lit) && ProducedNode(d) && EncodeNode(d, lit).Ok? && RereadNode(d, lit).Ok?
    requires EncodeNode(RereadNode(d, lit).value, lit).Ok?
    requires At(dt, off, EncodeNode(d, lit).value) && At(dt, off, EncodeNode(RereadNode(d, lit).value, lit).value)
    ensures SettledNode(d, lit) && |EncodeNode(RereadNode(d, lit).value, lit).value| == |EncodeNode(d, lit).value|
    decreases d
  {
    hide EncodeProps, RereadProps, UniqueKeys, GoodProps, PythonLiterals, SettledProps, StableProps, At, Le32;
    var e := RereadNode(d, lit).value;
    var props, children := EncodeProps(d.props, lit).value, EncodeNodes(d.children, lit).value;
    var props', children' := EncodeProps(e.props, lit).value, EncodeNodes(e.children, lit).value;
    var head, head' := Le32(|d.props|) + Le32(|d.children|), Le32(|e.props|) + Le32(|e.children|);
    AtConcat(dt, off, head + props, children);
    AtConcat(dt, off, head, props);
    AtConcat(dt, off, head' + props', children');
    AtConcat(dt, off, head', props');
    PropsForced(dt, off + 8, d.props, lit);
    PropsStableIff(d.props, lit);
    NodesForced(dt, off + 8 + |props|, d.children, lit);
  }

  lemma {:induction false} NodesForced(dt: seq<byte>, off: nat, ds: seq<Node>, lit: Literal)
    requires PythonLiterals(lit) && ProducedNodes(ds) && EncodeNodes(ds, lit).Ok? && RereadNodes(ds, lit).Ok?
    requires EncodeNodes(RereadNodes(ds, lit).value, lit).Ok?
    requires At(dt, off, EncodeNodes(ds, lit).value) && At(dt, off, EncodeNodes(RereadNodes(ds, lit).value, lit).value)
    ensures SettledNodes(ds, lit) && |EncodeNodes(RereadNodes(ds, lit).value, lit).value| == |EncodeNodes(ds, lit).value|
    decreases ds
  {
    hide PythonLiterals, At;
    if ds != [] {
      var es := RereadNodes(ds, lit).value;
      assert es[0] == RereadNode(ds[0], lit).value && es[1..] == RereadNodes(ds[1..], lit).value;
      AtConcat(dt, off, EncodeNode(ds[0], lit).value, EncodeNodes(ds[1..], lit).value);
      AtConcat(dt, off, EncodeNode(es[0], lit).value, EncodeNodes(es[1..], lit).value);
      NodeForced(dt, off, ds[0], lit);
      NodesForced(dt, off + |EncodeNode(ds[0], lit).value|, ds[1..], lit);
    }
  }

  /** A second pass reproduces the first pass's bytes if and only if every decoded value is settled. */
  lemma SecondPassIff(dt: seq<byte>, c: seq<byte>, lit: Literal)
    requires PythonLiterals(lit) && DecodeNode(dt, 0).Ok? && DecodeNode(dt, 0).value.1 <= |dt| < FLAG_BIT - 1
    requires Pass(dt, lit) == Ok(c)
    ensures Pass(c, lit) == Ok(c) <==> SettledNode(DecodeNode(dt, 0).value.0, lit)
    ensures DecodeNode(c, 0).Ok? ==> DecodeNode(c, 0).value.1 == |c|
  {
    hide DecodeNode, EncodeNode, RereadNode, ProducedNode, SettledNode, OrdinaryNode, PythonLiterals;
    var d := DecodeNode(dt, 0).value.0;
    FirstPassProduces(dt, 0, lit);
    assert c[0..|c|] == c;
    EncodedNodeReads(c, 0, d, lit);
    if SettledNode(d, lit) {
      SettledRewrites(d, lit);
    }
    if Pass(c, lit) == Ok(c) {
      NodeForced(c, 0, d, lit);
    }
  }

  /** The promise as the tool makes it: without reserved texts, a second pass changes nothing. */
  lemma OrdinaryTreesAreNormalised(dt: seq<byte>, c: seq<byte>, lit: Literal)
    requires PythonLiterals(lit) && DecodeNode(dt, 0).Ok? && DecodeNode(dt, 0).value.1 <= |dt| < FLAG_BIT - 1
    requires OrdinaryNode(dt, 0) && Pass(dt, lit) == Ok(c)
    ensures Pass(c, lit) == Ok(c)
  {
    hide DecodeNode, EncodeNode, ProducedNode, SettledNode, OrdinaryNode, PythonLiterals;
    SecondPassIff(dt, c, lit);
    FirstPassProduces(dt, 0, lit);
  }
}
