/** What the output contract of power_passthrough_dt.py accepts, over every pair of trees, and what the leaf is in
    its bytes. */
module PowerPassthroughContract {
  import opened Results
  import opened Bytes
  import Utf8
  import opened PowerPassthrough
  import opened PowerPassthroughProofs

  // ---------- the names ----------

  predicate AsciiText(s: string) { forall i :: 0 <= i < |s| ==> s[i] as int < 0x80 }

  function Codes(s: string): seq<byte>
    requires AsciiText(s)
  {
    seq(|s|, i requires 0 <= i < |s| => s[i] as int)
  }

  lemma NamesAreSpelled()
    ensures NAME == Codes("name") && DEVICE_TYPE == Codes("device_type") && ARM_IO == Codes("arm-io")
    ensures PROVIDER == Codes("charger,passthrough")
  {
  }

  lemma HardwareNamesAreSpelled()
    ensures COMPATIBLE == Codes("compatible") && REG == Codes("reg") && INTERRUPTS == Codes("interrupts")
  {
  }

  // ---------- the leaf ----------

  /** A node with nothing but the provider's name and device type. */
  predicate IsProvider(leaf: Node) {
    leaf.children == [] && |leaf.properties| == 2
    && leaf.properties[0].name == Codes("name") && leaf.properties[1].name == Codes("device_type")
    && DecodeString(leaf.properties[0].raw) == Ok(Codes("charger,passthrough"))
    && DecodeString(leaf.properties[1].raw) == Ok(Codes("charger,passthrough"))
  }

  predicate LastIsProvider(before: Node, after: Node) {
    |after.children| == |before.children| + 1 && after.children[..|before.children|] == before.children
    && IsProvider(after.children[|before.children|])
  }

  lemma LeafNames(ps: seq<Property>)
    ensures PropertyNames(ps) == [NAME, DEVICE_TYPE] <==>
              |ps| == 2 && ps[0].name == NAME && ps[1].name == DEVICE_TYPE
  {
    if PropertyNames(ps) == [NAME, DEVICE_TYPE] {
      assert PropertyNames(ps)[0] == NAME && PropertyNames(ps)[1] == DEVICE_TYPE;
    }
  }

  lemma NamesDiffer()
    ensures NAME != DEVICE_TYPE && COMPATIBLE != NAME && COMPATIBLE != DEVICE_TYPE && REG != NAME && REG != DEVICE_TYPE
         && INTERRUPTS != NAME && INTERRUPTS != DEVICE_TYPE
  {
    assert |NAME| == 4 && |DEVICE_TYPE| == 11 && |COMPATIBLE| == 10 && |REG| == 3 && |INTERRUPTS| == 10;
  }

  lemma LeafOfTwo(leaf: Node)
    requires |leaf.properties| == 2 && leaf.properties[0].name == NAME && leaf.properties[1].name == DEVICE_TYPE
    ensures NodeName(leaf) == DecodeString(leaf.properties[0].raw)
    ensures GetProperty(leaf, DEVICE_TYPE) == Some(leaf.properties[1])
    ensures GetProperty(leaf, COMPATIBLE).None? && GetProperty(leaf, REG).None? && GetProperty(leaf, INTERRUPTS).None?
  {
    hide DecodeString, FirstNamed;
    NamesDiffer();
    FirstNamedOfTwo(leaf.properties, NAME);
    FirstNamedOfTwo(leaf.properties, DEVICE_TYPE);
    FirstNamedOfTwo(leaf.properties, COMPATIBLE);
    FirstNamedOfTwo(leaf.properties, REG);
    FirstNamedOfTwo(leaf.properties, INTERRUPTS);
  }

  /** The checks on the grown node: its children are the old ones and one provider leaf behind them. */
  lemma CompareLeafIff(before: Node, after: Node)
    ensures CompareLeaf(before, after).Ok? <==> LastIsProvider(before, after)
  {
    hide DecodeString, Codes, NodeName, PropertyNames, GetProperty;
    NamesAreSpelled();
    if after.children != [] {
      var n := |after.children| - 1;
      var leaf := after.children[n];
      LeafNames(leaf.properties);
      if |leaf.properties| == 2 && leaf.properties[0].name == NAME && leaf.properties[1].name == DEVICE_TYPE {
        LeafOfTwo(leaf);
      }
    }
  }

  /** One record of the leaf: the property's name in its field, the length twenty, the text and its NUL. */
  function LeafRecord(name: string): seq<byte>
    requires AsciiText(name) && |name| < 32
  {
    Codes(name) + Zeros(32 - |name|) + [20, 0, 0, 0] + Codes("charger,passthrough") + [0]
  }

  /** The leaf's bytes: two properties and no children, the name and the device type. */
  lemma LeafBytes()
    ensures Packable(ProviderLeaf())
    ensures EncodeNode(ProviderLeaf()) == [2, 0, 0, 0] + [0, 0, 0, 0] + LeafRecord("name") + LeafRecord("device_type")
  {
    hide StringProperty, LeafRecord, EncodeNode, ProviderLeaf, Packable;
    LeafReads();
    RecordBytes(NAME, "name");
    RecordBytes(DEVICE_TYPE, "device_type");
    var leaf := LeafIs();
    TwoPropertiesPrint(leaf, StringProperty(NAME, PROVIDER), StringProperty(DEVICE_TYPE, PROVIDER));
  }

  lemma LeafIs() returns (leaf: Node)
    ensures leaf == ProviderLeaf() == Node([StringProperty(NAME, PROVIDER), StringProperty(DEVICE_TYPE, PROVIDER)], [])
  {
    leaf := ProviderLeaf();
  }

  lemma TwoPropertiesPrint(n: Node, a: Property, b: Property)
    requires n == Node([a, b], [])
    ensures Packable(n) && EncodeNode(n) == [2, 0, 0, 0] + [0, 0, 0, 0] + a.raw + b.raw
  {
    var ps := [a, b];
    assert ps[1..] == [b] && [b][1..] == [];
    assert EncodeProperties([b]) == b.raw + EncodeProperties([]);
    assert EncodeProperties(ps) == a.raw + EncodeProperties([b]);
    assert Le32(2) == [2, 0, 0, 0] && Le32(0) == [0, 0, 0, 0];
    hide Le32;
  }

  lemma RecordBytes(name: seq<byte>, text: string)
    requires (name == NAME && text == "name") || (name == DEVICE_TYPE && text == "device_type")
    ensures AsciiText(text) && |name| == |text| < 32 && StringProperty(name, PROVIDER).raw == LeafRecord(text)
  {
    NamesAreSpelled();
    assert |NAME| == 4 && |DEVICE_TYPE| == 11 && |PROVIDER| == 19;
    hide Codes, Zeros;
    LengthBytes();
  }

  lemma LengthBytes()
    ensures Le32(20) == [20, 0, 0, 0] && Aligned(20) == 20 && Zeros(1) == [0]
  {
  }

  // ---------- the comparison ----------

  lemma {:induction false} CompareMeansEqual(a: Node, b: Node)
    requires Compare(a, b, Elsewhere).Ok?
    ensures a == b
    decreases a, 1, 0
  {
    hide NodeName;
    ChildrenMeanEqual(a, b, 0);
    assert a.children == b.children;
  }

  lemma {:induction false} ChildrenMeanEqual(a: Node, b: Node, i: nat)
    requires i <= |a.children| == |b.children| && CompareChildren(a, b, Elsewhere, i).Ok?
    ensures forall j :: i <= j < |a.children| ==> a.children[j] == b.children[j]
    decreases a, 0, |a.children| - i
  {
    hide NodeName;
    if i < |a.children| {
      CompareMeansEqual(a.children[i], b.children[i]);
      ChildrenMeanEqual(a, b, i + 1);
    }
  }

  lemma ElsewhereIff(a: Node, b: Node)
    ensures Compare(a, b, Elsewhere).Ok? <==> a == b && NamesBelow(a)
  {
    hide Compare, NamesBelow;
    CompareSame(a);
    if Compare(a, b, Elsewhere).Ok? { CompareMeansEqual(a, b); }
  }

  /** One child of the root, before and after. */
  predicate ChildKept(before: Node, after: Node, grows: bool) {
    if grows then before.properties == after.properties && LastIsProvider(before, after)
    else before == after && NamesBelow(before)
  }

  lemma ChildIff(before: Node, after: Node, grows: bool)
    ensures Compare(before, after, if grows then Here else Elsewhere).Ok? <==> ChildKept(before, after, grows)
  {
    hide LastIsProvider, NamesBelow, CompareLeaf;
    ElsewhereIff(before, after);
    CompareLeafIff(before, after);
  }

  lemma {:induction false} RootChildrenIff(o: Node, out: Node, k: nat, i: nat)
    requires i <= |o.children| == |out.children|
    requires forall j :: 0 <= j < |o.children| ==> NodeName(o.children[j]).Ok?
    ensures CompareChildren(o, out, Child(k), i).Ok? <==>
            forall j :: i <= j < |o.children| ==> ChildKept(o.children[j], out.children[j], j == k)
    decreases |o.children| - i
  {
    hide NodeName, ChildKept, Compare;
    if i < |o.children| {
      RootChildrenIff(o, out, k, i + 1);
      ChildIff(o.children[i], out.children[i], i == k);
      if ChildKept(o.children[i], out.children[i], i == k) { KeptName(o.children[i], out.children[i], i == k); }
    }
  }

  lemma KeptName(before: Node, after: Node, grows: bool)
    requires ChildKept(before, after, grows)
    ensures NodeName(after) == NodeName(before)
  {
    hide LastIsProvider, NamesBelow, DecodeString;
  }

  // ---------- the contract ----------

  /** The tree with this leaf behind the children of root child `k`. */
  function Grown(o: Node, k: nat, leaf: Node): Node
    requires k < |o.children|
  {
    var armIo := o.children[k];
    o.(children := o.children[k := armIo.(children := armIo.children + [leaf])])
  }

  predicate NamesReadable(ns: seq<Node>) { forall i :: 0 <= i < |ns| ==> NodeName(ns[i]).Ok? }

  /** The output is the original with one provider leaf at the end of arm-io, and every name that is compared reads. */
  predicate OnlyGrown(o: Node, k: nat, out: Node)
    requires k < |o.children|
  {
    out.properties == o.properties && |out.children| == |o.children|
    && (forall i :: 0 <= i < |o.children| ==> ChildKept(o.children[i], out.children[i], i == k))
    && NamesReadable(o.children[k].children)
  }

  lemma OnlyGrownIs(o: Node, k: nat, out: Node) returns (leaf: Node)
    requires k < |o.children| && OnlyGrown(o, k, out)
    ensures IsProvider(leaf) && out == Grown(o, k, leaf)
    ensures forall i :: 0 <= i < |o.children| && i != k ==> NamesBelow(o.children[i])
  {
    hide IsProvider, NamesBelow, NamesReadable;
    assert ChildKept(o.children[k], out.children[k], true);
    leaf := out.children[k].children[|o.children[k].children|];
    assert out.children[k].children == o.children[k].children + [leaf];
    forall i | 0 <= i < |o.children| ensures out.children[i] == Grown(o, k, leaf).children[i] {
      assert ChildKept(o.children[i], out.children[i], i == k);
    }
    assert out.children == Grown(o, k, leaf).children;
  }

  /** An accepted output is the original with one provider leaf at the end of its one arm-io. */
  lemma AcceptedIsGrown(o: Node, out: Node) returns (k: nat, leaf: Node)
    requires AssertOutputContract(o, out).Ok?
    ensures ArmIoIndex(o) == Ok(k) && k < |o.children| && IsProvider(leaf) && out == Grown(o, k, leaf)
  {
    hide IsProvider, OnlyGrown, AssertOutputContract, Grown, ArmIoIndex;
    ContractIff(o, out);
    k := ArmIoIndex(o).value;
    IndexInside(o);
    leaf := OnlyGrownIs(o, k, out);
  }

  lemma IndexInside(o: Node)
    ensures ArmIoIndex(o).Ok? ==> ArmIoIndex(o).value < |o.children|
  {
  }

  lemma {:induction false} FindKept(a: seq<Node>, b: seq<Node>, name: seq<byte>, i: nat)
    requires i <= |a| == |b| && forall j :: 0 <= j < |a| ==> NodeName(a[j]) == NodeName(b[j])
    ensures FindDirectChild(a, name, i) == FindDirectChild(b, name, i)
    decreases |a| - i
  {
    hide NodeName;
    if i < |a| { FindKept(a, b, name, i + 1); }
  }

  /** A second provider is refused exactly when the names before it read. */
  lemma ConflictIff(o: Node, out: Node)
    requires LastIsProvider(o, out)
    ensures RejectExistingProvider(out) == Err(ProviderConflict) <==> NamesReadable(o.children)
    ensures RejectExistingProvider(out).Err?
  {
    hide NodeName, FindDirectChild, Codes, DecodeString;
    NamesAreSpelled();
    var n := |o.children|;
    LeafOfTwo(out.children[n]);
    var found := FindDirectChild(out.children, PROVIDER, 0);
    assert forall j :: 0 <= j < n ==> out.children[j] == o.children[j];
    if found.Ok? {
      assert n in found.value;
    }
    FindErrors(out.children, PROVIDER, 0);
  }

  lemma {:induction false} FindErrors(ns: seq<Node>, name: seq<byte>, i: nat)
    requires i <= |ns|
    ensures FindDirectChild(ns, name, i) != Err(ProviderConflict)
    decreases |ns| - i
  {
    hide DecodeString;
    if i < |ns| {
      FindErrors(ns, name, i + 1);
      NameErrors(ns[i]);
    }
  }

  lemma NameErrors(n: Node)
    ensures NodeName(n) != Err(ProviderConflict)
  {
  }

  /** For every two trees: the contract accepts the output exactly when the original has one arm-io and the output
      is the original with one provider leaf at the end of it, nothing else changed anywhere, and the names that
      are compared or searched read. */
  lemma ContractIff(o: Node, out: Node)
    ensures AssertOutputContract(o, out).Ok? <==> ArmIoIndex(o).Ok? && OnlyGrown(o, ArmIoIndex(o).value, out)
  {
    hide NodeName, FindDirectChild, CompareChildren, ChildKept, NamesReadable, RejectExistingProvider;
    if ArmIoIndex(o).Ok? {
      var k := ArmIoIndex(o).value;
      ArmIoNames(o);
      if |out.children| == |o.children| {
        RootChildrenIff(o, out, k, 0);
        if forall i :: 0 <= i < |o.children| ==> ChildKept(o.children[i], out.children[i], i == k) {
          KeptArmIo(o, out, k);
          ArmIoGrew(o, out, k);
        }
      }
    }
  }

  lemma ArmIoGrew(o: Node, out: Node, k: nat)
    requires k < |o.children| == |out.children| && ChildKept(o.children[k], out.children[k], k == k)
    ensures RejectExistingProvider(out.children[k]) == Err(ProviderConflict) <==> NamesReadable(o.children[k].children)
    ensures RejectExistingProvider(out.children[k]).Err?
  {
    hide NodeName, NamesReadable, RejectExistingProvider, LastIsProvider;
    ConflictIff(o.children[k], out.children[k]);
  }

  lemma KeptArmIo(o: Node, out: Node, k: nat)
    requires ArmIoIndex(o) == Ok(k) && |out.children| == |o.children|
    requires forall i :: 0 <= i < |o.children| ==> ChildKept(o.children[i], out.children[i], i == k)
    ensures ArmIoIndex(out) == Ok(k)
  {
    hide NodeName, FindDirectChild, ChildKept;
    forall i | 0 <= i < |o.children| ensures NodeName(o.children[i]) == NodeName(out.children[i]) {
      KeptName(o.children[i], out.children[i], i == k);
    }
    FindKept(o.children, out.children, ARM_IO, 0);
  }
}
