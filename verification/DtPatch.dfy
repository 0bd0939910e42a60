/** tools/dt_patch.py: the flag-preserving device-tree codec and its keyed edits, on values. */
module DtPatch {
  import opened Results
  import opened Bytes
  import opened Utf8Text

  /** (name, flags, raw_bytes); `flagged` is the placeholder bit of the length word. */
  datatype Prop = Prop(name: string, flagged: bool, value: seq<byte>)

  datatype Tree = Tree(props: seq<Prop>, children: seq<Tree>)

  datatype Error = ShortBuffer | LongName | PackOverflow | NoNode

  type Outcome<+T> = Result<T, Error>

  const KEY_NAME := "name"

  /** buf[a:b] with Python's clipping. */
  function Slice(buf: seq<byte>, a: nat, b: nat): seq<byte>
    requires a <= b
  {
    var hi := if b < |buf| then b else |buf|;
    if a >= hi then [] else buf[a..hi]
  }

  function UpToNul(s: seq<byte>): (r: seq<byte>)
    ensures r <= s && forall i :: 0 <= i < |r| ==> r[i] != 0
    ensures |r| == |s| || s[|r|] == 0
  {
    if s == [] || s[0] == 0 then [] else [s[0]] + UpToNul(s[1..])
  }

  // ---------- decode ----------

  function DecodeProp(buf: seq<byte>, off: nat): Outcome<(Prop, nat)> {
    if off + 36 > |buf| then Err(ShortBuffer)
    else
      var word := U32(buf, off + 32);
      var length := word % FLAG_BIT;
      var value := Slice(buf, off + 36, off + 36 + length);
      Ok((Prop(DecodeReplacing(UpToNul(buf[off..off + 32])), word >= FLAG_BIT, value), off + 36 + Aligned(length)))
  }

  function DecodeProps(buf: seq<byte>, off: nat, count: nat): (r: Outcome<(seq<Prop>, nat)>)
    ensures r.Ok? ==> off <= r.value.1
    decreases count
  {
    if count == 0 then Ok(([], off))
    else
      var (p, next) :- DecodeProp(buf, off);
      var (rest, end) :- DecodeProps(buf, next, count - 1);
      Ok(([p] + rest, end))
  }

  function Left(buf: seq<byte>, off: nat): nat { if off <= |buf| then |buf| - off else 0 }

  function Decode(buf: seq<byte>, off: nat): (r: Outcome<(Tree, nat)>)
    ensures r.Ok? ==> off + 8 <= |buf| && off + 8 <= r.value.1
    decreases Left(buf, off), 0
  {
    if off + 8 > |buf| then Err(ShortBuffer)
    else
      var (props, next) :- DecodeProps(buf, off + 8, U32(buf, off));
      var (children, end) :- DecodeChildren(buf, next, U32(buf, off + 4));
      Ok((Tree(props, children), end))
  }

  function DecodeChildren(buf: seq<byte>, off: nat, count: nat): (r: Outcome<(seq<Tree>, nat)>)
    ensures r.Ok? ==> off <= r.value.1
    decreases Left(buf, off), count + 1
  {
    if count == 0 then Ok(([], off))
    else
      var (c, next) :- Decode(buf, off);
      var (rest, end) :- DecodeChildren(buf, next, count - 1);
      Ok(([c] + rest, end))
  }

  // ---------- encode ----------

  /** name.encode("utf8").ljust(32, b"\0") */
  function NameField(name: string): seq<byte> {
    var b := Encode(name);
    b + Zeros(if |b| < 32 then 32 - |b| else 0)
  }

  /** len(val) | flags */
  function LengthWord(p: Prop): nat {
    if p.flagged && |p.value| < FLAG_BIT then |p.value| + FLAG_BIT else |p.value|
  }

  function EncodeProp(p: Prop): Outcome<seq<byte>> {
    if |p.name| >= 32 then Err(LongName)
    else if |p.value| >= WORD_LIMIT then Err(PackOverflow)
    else Ok(NameField(p.name) + Le32(LengthWord(p)) + p.value + Zeros(Aligned(|p.value|) - |p.value|))
  }

  function EncodeProps(ps: seq<Prop>): Outcome<seq<byte>> {
    if ps == [] then Ok([])
    else
      var first :- EncodeProp(ps[0]);
      var rest :- EncodeProps(ps[1..]);
      Ok(first + rest)
  }

  function EncodeTree(t: Tree): Outcome<seq<byte>> {
    if |t.props| >= WORD_LIMIT || |t.children| >= WORD_LIMIT then Err(PackOverflow)
    else
      var props :- EncodeProps(t.props);
      var children :- EncodeTrees(t.children);
      Ok(Le32(|t.props|) + Le32(|t.children|) + props + children)
  }

  function EncodeTrees(ts: seq<Tree>): Outcome<seq<byte>> {
    if ts == [] then Ok([])
    else
      var first :- EncodeTree(ts[0]);
      var rest :- EncodeTrees(ts[1..]);
      Ok(first + rest)
  }

  // ---------- lookups and edits ----------

  function FindKey(ps: seq<Prop>, key: string): (i: nat)
    ensures i <= |ps| && (i < |ps| ==> ps[i].name == key)
    ensures forall k :: 0 <= k < i ==> ps[k].name != key
  {
    if ps == [] || ps[0].name == key then 0 else 1 + FindKey(ps[1..], key)
  }

  function Get(ps: seq<Prop>, key: string): Option<seq<byte>> {
    var i := FindKey(ps, key);
    if i < |ps| then Some(ps[i].value) else None
  }

  /** Node.set: replace the value of the first property of that name, else append one without flags. */
  function SetProp(ps: seq<Prop>, key: string, value: seq<byte>): seq<Prop> {
    var i := FindKey(ps, key);
    if i < |ps| then ps[i := ps[i].(value := value)] else ps + [Prop(key, false, value)]
  }

  /** Node.delete, without its answer. */
  function DeleteProp(ps: seq<Prop>, key: string): seq<Prop> {
    var i := FindKey(ps, key);
    if i < |ps| then ps[..i] + ps[i + 1..] else ps
  }

  function NodeName(t: Tree): Option<string> {
    var v :- Get(t.props, KEY_NAME);
    Some(DecodeReplacing(UpToNul(v)))
  }

  /** Position of the first child with this name. */
  function ChildIndex(ts: seq<Tree>, name: string): (i: nat)
    ensures i <= |ts| && (i < |ts| ==> NodeName(ts[i]) == Some(name))
    ensures forall k :: 0 <= k < i ==> NodeName(ts[k]) != Some(name)
  {
    if ts == [] || NodeName(ts[0]) == Some(name) then 0 else 1 + ChildIndex(ts[1..], name)
  }

  /** find(root, path) as the child positions it follows. */
  function Locate(t: Tree, parts: seq<string>): (r: Outcome<seq<nat>>)
    ensures r.Ok? ==> |r.value| == |parts| && ValidPath(t, r.value)
    decreases |parts|
  {
    if parts == [] then Ok([])
    else
      var i := ChildIndex(t.children, parts[0]);
      if i == |t.children| then Err(NoNode)
      else
        var rest :- Locate(t.children[i], parts[1..]);
        assert ([i] + rest)[1..] == rest;
        Ok([i] + rest)
  }

  predicate ValidPath(t: Tree, path: seq<nat>)
    decreases |path|
  {
    path == [] || (path[0] < |t.children| && ValidPath(t.children[path[0]], path[1..]))
  }

  function NodeAt(t: Tree, path: seq<nat>): Tree
    requires ValidPath(t, path)
    decreases |path|
  {
    if path == [] then t else NodeAt(t.children[path[0]], path[1..])
  }

  /** The tree after the node at `path` got these properties. */
  function WithProps(t: Tree, path: seq<nat>, props: seq<Prop>): Tree
    requires ValidPath(t, path)
    decreases |path|
  {
    if path == [] then t.(props := props)
    else t.(children := t.children[path[0] := WithProps(t.children[path[0]], path[1..], props)])
  }
}
