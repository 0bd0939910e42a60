/** decode_node and encode_node as dt_fixup.py runs them: loops that shorten `dt` and grow a size, a dict and a buffer. */
module DtFixupLoops {
  import opened Results
  import opened Bytes
  import opened DtFixup

  /** Reading at an offset is reading the rest of the buffer from its start. */
  lemma ClipRest(dt: seq<byte>, off: nat, a: nat, b: nat)
    requires off <= |dt| && a <= b
    ensures Clip(dt[off..], a, b) == Clip(dt, off + a, off + b)
  {
    hide Aligned;
    var got, want := Clip(dt[off..], a, b), Clip(dt, off + a, off + b);
    assert |got| == |want|;
    forall i | 0 <= i < |got|
      ensures got[i] == want[i]
    {
      assert dt[off..][a + i] == dt[off + (a + i)];
    }
  }

  lemma WordRest(dt: seq<byte>, off: nat, a: nat)
    requires off + a + 4 <= |dt|
    ensures U32(dt[off..], a) == U32(dt, off + a)
  {
  }

  /** `dt = dt[n:]`, which Python clips at the end. */
  function Tail(dt: seq<byte>, n: nat): (r: seq<byte>)
    ensures |r| == Left(dt, n)
  {
    if n <= |dt| then dt[n..] else []
  }

  lemma TailTail(dt: seq<byte>, a: nat, b: nat)
    ensures Tail(Tail(dt, a), b) == Tail(dt, a + b)
  {
  }

  lemma PropRest(dt: seq<byte>, off: nat)
    requires off <= |dt|
    ensures DecodeProp(dt, off).Ok? == DecodeProp(dt[off..], 0).Ok?
    ensures DecodeProp(dt, off).Ok? ==>
              DecodeProp(dt, off).value ==
              (DecodeProp(dt[off..], 0).value.0, DecodeProp(dt[off..], 0).value.1, off + DecodeProp(dt[off..], 0).value.2)
    ensures DecodeProp(dt, off).Err? ==> DecodeProp(dt, off) == DecodeProp(dt[off..], 0)
  {
    hide DecodeValue, NullTerminated, Clip, U32, Aligned;
    ClipRest(dt, off, 0, 32);
    if off + 36 <= |dt| {
      WordRest(dt, off, 32);
      var length := Aligned(U32(dt, off + 32) % FLAG_BIT);
      ClipRest(dt, off, 36, 36 + length);
    }
  }

  /** Past the end a record is too short, like the empty rest. */
  lemma PropPastEnd(dt: seq<byte>, off: nat)
    requires off >= |dt|
    ensures DecodeProp(dt, off) == DecodeProp([], 0)
  {
    assert Clip(dt, off, off + 32) == Clip([], 0, 32);
  }

  /** One record off the front. */
  lemma PropStep(whole: seq<byte>, off: nat, count: nat, props: seq<(string, Value)>)
    requires count > 0
    ensures var dt := Tail(whole, off);
            match DecodeProp(dt, 0)
            case Err(e) => DecodeProps(whole, off, count, props) == Err(e)
            case Ok((name, v, size)) =>
              DecodeProps(whole, off, count, props) == DecodeProps(whole, off + size, count - 1, Put(props, name, v))
  {
    hide DecodeProp, Put;
    if off <= |whole| {
      PropRest(whole, off);
    } else {
      PropPastEnd(whole, off);
    }
  }

  /** The property loop: what it returns and how far it moved is what the specification says. */
  method ReadProps(whole: seq<byte>, start: nat, count: nat) returns (r: Outcome<(seq<(string, Value)>, nat)>)
    ensures r == DecodeProps(whole, start, count, [])
  {
    hide DecodeProp, Put, Tail;
    var dt := Tail(whole, start);
    var props: seq<(string, Value)> := [];
    var size := 0;
    for i := 0 to count
      invariant dt == Tail(whole, start + size)
      invariant DecodeProps(whole, start, count, []) == DecodeProps(whole, start + size, count - i, props)
    {
      PropStep(whole, start + size, count - i, props);
      var step := DecodeProp(dt, 0);
      if step.Err? {
        return Err(step.error);
      }
      var (name, v, n) := step.value;
      props := Put(props, name, v);
      TailTail(whole, start + size, n);
      dt := Tail(dt, n);
      size := size + n;
    }
    r := Ok((props, start + size));
  }

  /** decode_node: the node and the size it takes, whatever lies behind it. */
  method ReadNode(whole: seq<byte>, start: nat) returns (r: Outcome<(Node, nat)>)
    ensures r == DecodeNode(whole, start)
    decreases Left(whole, start), 0
  {
    hide DecodeProps;
    if start + 8 > |whole| {
      return Err(TooSmall);
    }
    var count := U32(whole, start + 4);
    var records := ReadProps(whole, start + 8, U32(whole, start));
    if records.Err? {
      return Err(records.error);
    }
    var (props, next) := records.value;
    var children, off := [], next;
    NothingDone(DecodeChildren(whole, next, count));
    for i := 0 to count
      invariant start + 8 <= next <= off
      invariant match DecodeChildren(whole, off, count - i)
                case Ok((rest, end)) => DecodeChildren(whole, next, count) == Ok((children + rest, end))
                case Err(e) => DecodeChildren(whole, next, count) == Err(e)
    {
      var child := ReadNode(whole, off);
      if child.Err? {
        return Err(child.error);
      }
      Regroup(children, child.value.0, DecodeChildren(whole, child.value.1, count - i - 1));
      children := children + [child.value.0];
      off := child.value.1;
    }
    assert children + [] == children;
    r := Ok((Node(props, children), off));
  }

  lemma NothingDone(rest: Outcome<(seq<Node>, nat)>)
    ensures rest.Ok? ==> [] + rest.value.0 == rest.value.0
  {
  }

  lemma Regroup(done: seq<Node>, c: Node, rest: Outcome<(seq<Node>, nat)>)
    ensures rest.Ok? ==> done + ([c] + rest.value.0) == (done + [c]) + rest.value.0
  {
  }

  /** encode_node: one buffer grows by header, records and children, in that order. */
  method WriteNode(d: Node, lit: Literal) returns (r: Outcome<seq<byte>>)
    ensures r == EncodeNode(d, lit)
    decreases d
  {
    hide EncodeProp;
    if |d.props| >= WORD_LIMIT || |d.children| >= WORD_LIMIT {
      return Err(PackOverflow);
    }
    var head := Le32(|d.props|) + Le32(|d.children|);
    var out := head;
    for i := 0 to |d.props|
      invariant match EncodeProps(d.props[i..], lit)
                case Ok(rest) => EncodeProps(d.props, lit).Ok? && out + rest == head + EncodeProps(d.props, lit).value
                case Err(e) => EncodeProps(d.props, lit) == Err(e)
    {
      assert d.props[i..][1..] == d.props[i + 1..];
      var record := EncodeProp(d.props[i].0, d.props[i].1, lit);
      if record.Err? {
        return Err(record.error);
      }
      Grow(out, record.value, EncodeProps(d.props[i + 1..], lit));
      out := out + record.value;
    }
    assert out + [] == out;
    var records := out;
    for i := 0 to |d.children|
      invariant EncodeProps(d.props, lit).Ok? && records == head + EncodeProps(d.props, lit).value
      invariant match EncodeNodes(d.children[i..], lit)
                case Ok(rest) => EncodeNodes(d.children, lit).Ok? && out + rest == records + EncodeNodes(d.children, lit).value
                case Err(e) => EncodeNodes(d.children, lit) == Err(e)
    {
      assert d.children[i..][1..] == d.children[i + 1..];
      var child := WriteNode(d.children[i], lit);
      if child.Err? {
        return Err(child.error);
      }
      Grow(out, child.value, EncodeNodes(d.children[i + 1..], lit));
      out := out + child.value;
    }
    assert out + [] == out;
    r := Ok(out);
  }

  lemma Grow(out: seq<byte>, piece: seq<byte>, rest: Outcome<seq<byte>>)
    ensures rest.Ok? ==> out + (piece + rest.value) == (out + piece) + rest.value
  {
  }
}
