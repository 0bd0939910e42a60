/** tools/re/power_passthrough_dt.py: the lossless device-tree codec and its one-leaf mutation. */
module PowerPassthrough {
  import opened Results
  import opened Bytes
  import Utf8

  /** `name` holds the ASCII codes of the decoded name; `raw` is the whole record. */
  datatype Property = Property(name: seq<byte>, raw: seq<byte>)

  datatype Node = Node(properties: seq<Property>, children: seq<Node>)

  datatype Error =
    | TruncatedHeader
    | TruncatedProperty
    | BadName             // a property name without NUL or not ASCII
    | NoName              // a node without a `name` property
    | BadString           // a string property of the wrong length, without NUL, or not UTF-8
    | TrailingBytes
    | ArmIoCount
    | ProviderConflict
    | PackOverflow        // struct.error: a count does not fit in four bytes
    | RoundTrip
    | Contract

  type Outcome<+T> = Result<T, Error>

  const NAME: seq<byte> := [110, 97, 109, 101]
  const DEVICE_TYPE: seq<byte> := [100, 101, 118, 105, 99, 101, 95, 116, 121, 112, 101]
  const ARM_IO: seq<byte> := [97, 114, 109, 45, 105, 111]
  const PROVIDER: seq<byte> := [99, 104, 97, 114, 103, 101, 114, 44, 112, 97, 115, 115, 116, 104, 114, 111,
                                117, 103, 104]
  const COMPATIBLE: seq<byte> := [99, 111, 109, 112, 97, 116, 105, 98, 108, 101]
  const REG: seq<byte> := [114, 101, 103]
  const INTERRUPTS: seq<byte> := [105, 110, 116, 101, 114, 114, 117, 112, 116, 115]

  // ---------- parsing ----------

  function FirstNul(s: seq<byte>): (n: nat)
    ensures n <= |s|
    ensures forall i :: 0 <= i < n ==> s[i] != 0
    ensures n < |s| ==> s[n] == 0
  {
    if s == [] || s[0] == 0 then 0 else 1 + FirstNul(s[1..])
  }

  function DecodeName(field: seq<byte>): Outcome<seq<byte>> {
    var n := FirstNul(field);
    if n == |field| || !Utf8.Ascii(field[..n]) then Err(BadName) else Ok(field[..n])
  }

  /** The payload length of a record: the length word without its flag bit. */
  function PayloadLength(data: seq<byte>, off: nat): (n: nat)
    requires off + 36 <= |data|
  {
    U32(data, off + 32) % FLAG_BIT
  }

  function ParseProperty(data: seq<byte>, off: nat): (r: Outcome<(Property, nat)>)
    ensures r.Ok? ==> off + 36 <= r.value.1 <= |data|
  {
    if |data| < off + 36 then Err(TruncatedProperty)
    else
      var name :- DecodeName(data[off..off + 32]);
      var end := off + 36 + Aligned(PayloadLength(data, off));
      if end > |data| then Err(TruncatedProperty)
      else Ok((Property(name, data[off..end]), end))
  }

  function ParseProperties(data: seq<byte>, off: nat, count: nat): (r: Outcome<(seq<Property>, nat)>)
    ensures r.Ok? ==> off <= r.value.1 && (off <= |data| ==> r.value.1 <= |data|)
    decreases count
  {
    if count == 0 then Ok(([], off))
    else
      var (p, next) :- ParseProperty(data, off);
      var (rest, end) :- ParseProperties(data, next, count - 1);
      Ok(([p] + rest, end))
  }

  function ParseNode(data: seq<byte>, off: nat): (r: Outcome<(Node, nat)>)
    ensures r.Ok? ==> off + 8 <= r.value.1 <= |data|
    decreases |data| - off, 0
  {
    if |data| < off + 8 then Err(TruncatedHeader)
    else
      var (properties, next) :- ParseProperties(data, off + 8, U32(data, off));
      var (children, end) :- ParseChildren(data, next, U32(data, off + 4));
      Ok((Node(properties, children), end))
  }

  function ParseChildren(data: seq<byte>, off: nat, count: nat): (r: Outcome<(seq<Node>, nat)>)
    requires off <= |data|
    ensures r.Ok? ==> off <= r.value.1 <= |data|
    decreases |data| - off, count + 1
  {
    if count == 0 then Ok(([], off))
    else
      var (c, next) :- ParseNode(data, off);
      var (rest, end) :- ParseChildren(data, next, count - 1);
      Ok(([c] + rest, end))
  }

  function ParseTree(data: seq<byte>): Outcome<Node> {
    var (root, end) :- ParseNode(data, 0);
    if end != |data| then Err(TrailingBytes) else Ok(root)
  }

  // ---------- encoding ----------

  /** struct.pack accepts both counts of every node. */
  predicate Packable(n: Node) {
    |n.properties| < WORD_LIMIT && |n.children| < WORD_LIMIT && AllPackable(n.children)
  }

  predicate AllPackable(ns: seq<Node>) {
    ns == [] || (Packable(ns[0]) && AllPackable(ns[1..]))
  }

  function EncodeProperties(ps: seq<Property>): seq<byte> {
    if ps == [] then [] else ps[0].raw + EncodeProperties(ps[1..])
  }

  function EncodeNode(n: Node): seq<byte>
    requires Packable(n)
  {
    Le32(|n.properties|) + Le32(|n.children|) + EncodeProperties(n.properties) + EncodeNodes(n.children)
  }

  function EncodeNodes(ns: seq<Node>): seq<byte>
    requires AllPackable(ns)
  {
    if ns == [] then [] else EncodeNode(ns[0]) + EncodeNodes(ns[1..])
  }

  // ---------- the mutation ----------

  function GetProperty(n: Node, name: seq<byte>): Option<Property> {
    FirstNamed(n.properties, name)
  }

  function FirstNamed(ps: seq<Property>, name: seq<byte>): Option<Property> {
    if ps == [] then None else if ps[0].name == name then Some(ps[0]) else FirstNamed(ps[1..], name)
  }

  function DecodeString(raw: seq<byte>): Outcome<seq<byte>> {
    if |raw| < 36 then Err(BadString)
    else
      var length := PayloadLength(raw, 0);
      if |raw| != 36 + Aligned(length) then Err(BadString)
      else if length == 0 || raw[36 + length - 1] != 0 then Err(BadString)
      else if !Utf8.Valid(raw[36..36 + length - 1]) then Err(BadString)
      else Ok(raw[36..36 + length - 1])
  }

  /** The `name` accessor; text is held as its UTF-8 bytes. */
  function NodeName(n: Node): Outcome<seq<byte>> {
    match GetProperty(n, NAME)
    case None => Err(NoName)
    case Some(p) => DecodeString(p.raw)
  }

  function StringProperty(name: seq<byte>, value: seq<byte>): Property
    requires |name| < 32 && |value| + 1 < FLAG_BIT
  {
    var length := |value| + 1;
    Property(name, name + Zeros(32 - |name|) + Le32(length) + value + Zeros(Aligned(length) - |value|))
  }

  function ProviderLeaf(): Node {
    Node([StringProperty(NAME, PROVIDER), StringProperty(DEVICE_TYPE, PROVIDER)], [])
  }

  /** Positions of the children with this name; fails at the first child whose name fails. */
  function FindDirectChild(ns: seq<Node>, name: seq<byte>, i: nat): (r: Outcome<seq<nat>>)
    requires i <= |ns|
    ensures r.Ok? ==> forall k :: k in r.value ==> i <= k < |ns| && NodeName(ns[k]) == Ok(name)
    ensures r.Ok? ==> forall k :: i <= k < |ns| && k !in r.value ==> NodeName(ns[k]).Ok? && NodeName(ns[k]).value != name
    ensures r.Ok? <==> forall k :: i <= k < |ns| ==> NodeName(ns[k]).Ok?
    decreases |ns| - i
  {
    if i == |ns| then Ok([])
    else
      var n :- NodeName(ns[i]);
      var rest :- FindDirectChild(ns, name, i + 1);
      Ok((if n == name then [i] else []) + rest)
  }

  function ArmIoIndex(root: Node): (r: Outcome<nat>)
    ensures r.Ok? ==> r.value < |root.children| && NodeName(root.children[r.value]) == Ok(ARM_IO)
  {
    var matches :- FindDirectChild(root.children, ARM_IO, 0);
    if |matches| != 1 then Err(ArmIoCount) else assert matches[0] in matches; Ok(matches[0])
  }

  function RejectExistingProvider(armIo: Node): Outcome<()> {
    var matches :- FindDirectChild(armIo.children, PROVIDER, 0);
    if matches != [] then Err(ProviderConflict) else Ok(())
  }

  function WithLeaf(root: Node, k: nat): Node
    requires k < |root.children|
  {
    var armIo := root.children[k];
    root.(children := root.children[k := armIo.(children := armIo.children + [ProviderLeaf()])])
  }

  function AddProvider(root: Node): Outcome<Node> {
    var k :- ArmIoIndex(root);
    var _ :- RejectExistingProvider(root.children[k]);
    Ok(WithLeaf(root, k))
  }

  // ---------- the output contract ----------

  /** Where the original arm-io object sits relative to the node being compared. */
  datatype ArmIoAt = Here | Child(k: nat) | Elsewhere

  function CompareLeaf(before: Node, after: Node): Outcome<()> {
    var kept := if after.children == [] then [] else after.children[..|after.children| - 1];
    if kept != before.children then Err(Contract)
    else if after.children == [] then Err(Contract)
    else
      var leaf := after.children[|after.children| - 1];
      var name :- NodeName(leaf);
      if name != PROVIDER || leaf.children != [] then Err(Contract)
      else if PropertyNames(leaf.properties) != [NAME, DEVICE_TYPE] then Err(Contract)
      else if GetProperty(leaf, COMPATIBLE).Some? || GetProperty(leaf, REG).Some?
              || GetProperty(leaf, INTERRUPTS).Some? then Err(Contract)
      else if GetProperty(leaf, DEVICE_TYPE).None? then Err(Contract)
      else
        var deviceType :- DecodeString(GetProperty(leaf, DEVICE_TYPE).value.raw);
        if deviceType != PROVIDER then Err(Contract) else Ok(())
  }

  function PropertyNames(ps: seq<Property>): seq<seq<byte>> {
    seq(|ps|, i requires 0 <= i < |ps| => ps[i].name)
  }

  function Compare(before: Node, after: Node, armIo: ArmIoAt): Outcome<()>
    decreases before, 1, 0
  {
    if before.properties != after.properties then Err(Contract)
    else if armIo.Here? then CompareLeaf(before, after)
    else if |before.children| != |after.children| then Err(Contract)
    else CompareChildren(before, after, armIo, 0)
  }

  function CompareChildren(before: Node, after: Node, armIo: ArmIoAt, i: nat): Outcome<()>
    requires i <= |before.children| == |after.children|
    decreases before, 0, |before.children| - i
  {
    if i == |before.children| then Ok(())
    else
      var b :- NodeName(before.children[i]);
      var a :- NodeName(after.children[i]);
      if b != a then Err(Contract)
      else
        var _ :- Compare(before.children[i], after.children[i], if armIo == Child(i) then Here else Elsewhere);
        CompareChildren(before, after, armIo, i + 1)
  }

  function AssertOutputContract(original: Node, output: Node): Outcome<()> {
    var k :- ArmIoIndex(original);
    var k' :- ArmIoIndex(output);
    var _ :- Compare(original, output, Child(k));
    var conflict := RejectExistingProvider(output.children[k']);
    if conflict == Err(ProviderConflict) then Ok(())
    else if conflict.Err? then conflict
    else Err(Contract)
  }

  function Generate(source: seq<byte>): Outcome<seq<byte>> {
    var original :- ParseTree(source);
    var output :- AddProvider(original);
    if !Packable(output) then Err(PackOverflow)
    else
      var encoded := EncodeNode(output);
      var reparsed :- ParseTree(encoded);
      if !Packable(reparsed) then Err(PackOverflow)
      else if EncodeNode(reparsed) != encoded then Err(RoundTrip)
      else
        var _ :- AssertOutputContract(original, reparsed);
        Ok(encoded)
  }
}
