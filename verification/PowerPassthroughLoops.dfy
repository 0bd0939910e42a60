/** The loops of power_passthrough_dt.py as the tool runs them, each equal to its specification. */
module PowerPassthroughLoops {
  import opened Results
  import opened Bytes
  import opened PowerPassthrough
  import opened PowerPassthroughProofs

  /** What a loop that has already collected `acc` makes of the outcome of the rest. */
  function After<T>(acc: seq<T>, rest: Outcome<(seq<T>, nat)>): Outcome<(seq<T>, nat)> {
    if rest.Err? then rest else Ok((acc + rest.value.0, rest.value.1))
  }

  lemma AfterNone<T>(rest: Outcome<(seq<T>, nat)>)
    ensures After([], rest) == rest
  {
    if rest.Ok? {
      assert [] + rest.value.0 == rest.value.0;
    }
  }

  lemma AfterOne<T>(acc: seq<T>, x: T, rest: Outcome<(seq<T>, nat)>)
    ensures After(acc + [x], rest) == After(acc, After([x], rest))
  {
    if rest.Ok? {
      assert acc + [x] + rest.value.0 == acc + ([x] + rest.value.0);
    }
  }

  lemma AfterAll<T>(acc: seq<T>, end: nat)
    ensures After(acc, Ok(([], end))) == Ok((acc, end))
  {
    assert acc + [] == acc;
  }

  method ReadNode(data: seq<byte>, start: nat) returns (r: Outcome<(Node, nat)>)
    ensures r == ParseNode(data, start)
    decreases |data| - start, 1
  {
    hide ParseProperties, ParseChildren, U32;
    if |data| < start + 8 {
      return Err(TruncatedHeader);
    }
    var properties := ReadProperties(data, start + 8, U32(data, start));
    if properties.Err? {
      return Err(properties.error);
    }
    var children := ReadChildren(data, properties.value.1, U32(data, start + 4));
    if children.Err? {
      return Err(children.error);
    }
    r := Ok((Node(properties.value.0, children.value.0), children.value.1));
  }

  method ReadProperties(data: seq<byte>, start: nat, count: nat) returns (r: Outcome<(seq<Property>, nat)>)
    requires start <= |data|
    ensures r == ParseProperties(data, start, count)
  {
    hide ParseProperty;
    var offset, properties := start, [];
    AfterNone(ParseProperties(data, start, count));
    for i := 0 to count
      invariant start <= offset <= |data|
      invariant ParseProperties(data, start, count) == After(properties, ParseProperties(data, offset, count - i))
    {
      var p := ParseProperty(data, offset);
      if p.Err? {
        return Err(p.error);
      }
      AfterOne(properties, p.value.0, ParseProperties(data, p.value.1, count - i - 1));
      properties := properties + [p.value.0];
      offset := p.value.1;
    }
    AfterAll(properties, offset);
    r := Ok((properties, offset));
  }

  method ReadChildren(data: seq<byte>, start: nat, count: nat) returns (r: Outcome<(seq<Node>, nat)>)
    requires start <= |data|
    ensures r == ParseChildren(data, start, count)
    decreases |data| - start, 2
  {
    hide ParseNode;
    var offset, children := start, [];
    AfterNone(ParseChildren(data, start, count));
    for i := 0 to count
      invariant start <= offset <= |data|
      invariant ParseChildren(data, start, count) == After(children, ParseChildren(data, offset, count - i))
    {
      var c := ReadNode(data, offset);
      if c.Err? {
        return Err(c.error);
      }
      AfterOne(children, c.value.0, ParseChildren(data, c.value.1, count - i - 1));
      children := children + [c.value.0];
      offset := c.value.1;
    }
    AfterAll(children, offset);
    r := Ok((children, offset));
  }

  method WriteNode(n: Node) returns (out: seq<byte>)
    requires Packable(n)
    ensures out == EncodeNode(n)
    decreases n
  {
    out := Le32(|n.properties|) + Le32(|n.children|);
    ghost var head := out;
    for i := 0 to |n.properties|
      invariant out + EncodeProperties(n.properties[i..]) == head + EncodeProperties(n.properties)
    {
      assert n.properties[i..][1..] == n.properties[i + 1..];
      out := out + n.properties[i].raw;
    }
    assert out == head + EncodeProperties(n.properties);
    head := out;
    for i := 0 to |n.children|
      invariant AllPackable(n.children[i..]) && out + EncodeNodes(n.children[i..]) == head + EncodeNodes(n.children)
    {
      assert n.children[i..][1..] == n.children[i + 1..];
      var c := WriteNode(n.children[i]);
      out := out + c;
    }
  }

  /** Parse, mutate, print, reparse, check: the whole tool on one input. */
  method Run(source: seq<byte>) returns (r: Outcome<seq<byte>>)
    ensures r == Generate(source)
  {
    var original := ReadTree(source);
    if original.Err? {
      return Err(original.error);
    }
    var output := AddProvider(original.value);
    if output.Err? {
      return Err(output.error);
    }
    if !Packable(output.value) {
      return Err(PackOverflow);
    }
    var encoded := WriteNode(output.value);
    var reparsed := ReadTree(encoded);
    if reparsed.Err? {
      return Err(reparsed.error);
    }
    if !Packable(reparsed.value) {
      return Err(PackOverflow);
    }
    var again := WriteNode(reparsed.value);
    if again != encoded {
      return Err(RoundTrip);
    }
    var checked := AssertOutputContract(original.value, reparsed.value);
    r := if checked.Err? then Err(checked.error) else Ok(encoded);
  }

  method ReadTree(data: seq<byte>) returns (r: Outcome<Node>)
    ensures r == ParseTree(data)
  {
    var parsed := ReadNode(data, 0);
    if parsed.Err? {
      return Err(parsed.error);
    }
    r := if parsed.value.1 != |data| then Err(TrailingBytes) else Ok(parsed.value.0);
  }
}
