/** A device tree the tool refuses although it could be extended: one node beside arm-io has no name. */
module PowerPassthroughRejected {
  import opened Results
  import opened Bytes
  import Utf8
  import opened PowerPassthrough
  import opened PowerPassthroughProofs

  function Named(name: seq<byte>): Node
    requires |name| + 1 < FLAG_BIT
  {
    Node([StringProperty(NAME, name)], [])
  }

  lemma NamedReads(name: seq<byte>)
    requires |name| + 1 < FLAG_BIT && Utf8.Ascii(name)
    ensures Wf(Named(name)) && Packable(Named(name)) && NodeName(Named(name)) == Ok(name)
  {
    hide StringProperty, WfProperty, DecodeString, Utf8.Valid;
    Utf8.AsciiIsValid(name);
    StringPropertyReads(NAME, name);
    NameOfStringProperty(NAME, name);
    var ps := Named(name).properties;
    assert ps[1..] == [] && FirstNamed(ps, NAME) == Some(ps[0]);
    WfPackable(Named(name));
  }

  /** arm-io, and beside it a node whose only child has no name. */
  function NamelessBranch(): Node {
    Node([], [Named(ARM_IO), Named(PROVIDER).(children := [Node([], [])])])
  }

  /** The provider can be added, and every byte of the other branch would be kept; yet the tool refuses the source. */
  lemma NamelessBranchIsRejected()
    ensures Packable(NamelessBranch())
    ensures var source := EncodeNode(NamelessBranch());
            && ParseTree(source) == Ok(NamelessBranch()) && AddProvider(NamelessBranch()).Ok?
            && Generate(source).Err?
  {
    hide Named, NodeName, WfProperty, Wf, Packable, EncodeNode, ParseTree, ArmIoIndex, RejectExistingProvider, Generate;
    var root := NamelessBranch();
    NamedReads(ARM_IO);
    NamedReads(PROVIDER);
    BranchShape(root);
    WfPackable(root);
    var source := EncodeNode(root);
    CodecIsLossless(source, root);
    GenerateAcceptsIff(source);
    assert NodeName(root.children[1].children[0]).Err? by { NoProperties(); }
    assert !NamesBelow(root.children[1]);
  }

  lemma NoProperties()
    ensures NodeName(Node([], [])) == Err(NoName)
  {
  }

  lemma TwoChildrenWf(a: Node, b: Node)
    requires Wf(a) && Wf(b)
    ensures Wf(Node([], [a, b])) && Wf(b.(children := [Node([], [])]))
  {
    hide WfProperty;
    assert [a, b][1..] == [b] && [b][1..] == [] && AllWf([b]);
    var empty := Node([], []);
    assert [empty][1..] == [] && Wf(empty) && AllWf([empty]);
  }

  lemma FirstOfTwo(a: Node, b: Node, name: seq<byte>)
    requires NodeName(a) == Ok(name) && NodeName(b).Ok? && NodeName(b).value != name
    ensures ArmIoName(name) ==> ArmIoIndex(Node([], [a, b])) == Ok(0)
  {
    hide NodeName;
    var ns := [a, b];
    var none: seq<nat> := [];
    assert FindDirectChild(ns, name, 2) == Ok(none);
    assert none + none == none && [0] + none == [0];
    assert FindDirectChild(ns, name, 1) == Ok(none);
    assert FindDirectChild(ns, name, 0) == Ok([0]);
  }

  predicate ArmIoName(name: seq<byte>) { name == ARM_IO }

  lemma BranchShape(root: Node)
    requires root == NamelessBranch()
    requires Wf(Named(ARM_IO)) && Wf(Named(PROVIDER))
    requires NodeName(Named(ARM_IO)) == Ok(ARM_IO) && NodeName(Named(PROVIDER)) == Ok(PROVIDER)
    ensures Wf(root) && ArmIoIndex(root) == Ok(0) && RejectExistingProvider(root.children[0]).Ok?
    ensures |root.children| == 2 && root.children[1].children == [Node([], [])]
  {
    hide StringProperty, Wf, FindDirectChild, ArmIoIndex, FirstNamed, DecodeString;
    var (a, b) := (root.children[0], root.children[1]);
    TwoChildrenWf(a, Named(PROVIDER));
    TwoChildrenWf(a, b);
    assert NodeName(b) == NodeName(Named(PROVIDER));
    assert |ARM_IO| != |PROVIDER|;
    FirstOfTwo(a, b, ARM_IO);
    NothingFound();
  }

  lemma NothingFound()
    ensures FindDirectChild([], PROVIDER, 0) == Ok([])
  {
  }
}
