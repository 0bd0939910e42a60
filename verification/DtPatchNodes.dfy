/** The node objects of tools/dt_patch.py, edited in place, and the loops of its codec over them. */
module DtPatchNodes {
  import opened Results
  import opened Bytes
  import opened Utf8Text
  import opened DtPatch
  import opened DtPatchPaths

  class Node {
    var props: seq<Prop>
    var children: seq<Node>

    constructor ()
      ensures props == [] && children == []
    {
      props, children := [], [];
    }

    method Lookup(key: string) returns (v: Option<seq<byte>>)
      ensures v == Get(props, key)
    {
      for i := 0 to |props|
        invariant FindKey(props, key) >= i
      {
        if props[i].name == key {
          return Some(props[i].value);
        }
      }
      v := None;
    }

    method Set(key: string, value: seq<byte>)
      modifies this`props
      ensures props == SetProp(old(props), key, value)
    {
      for i := 0 to |props|
        invariant FindKey(props, key) >= i && props == old(props)
      {
        if props[i].name == key {
          props := props[i := props[i].(value := value)];
          return;
        }
      }
      props := props + [Prop(key, false, value)];
    }

    method Delete(key: string) returns (found: bool)
      modifies this`props
      ensures props == DeleteProp(old(props), key) && found == (FindKey(old(props), key) < |old(props)|)
    {
      for i := 0 to |props|
        invariant FindKey(props, key) >= i && props == old(props)
      {
        if props[i].name == key {
          props := props[..i] + props[i + 1..];
          return true;
        }
      }
      found := false;
    }

    method Name() returns (name: Option<string>)
      ensures name == NameOf(props)
    {
      var v := Lookup(KEY_NAME);
      name := if v.None? then None else Some(DecodeReplacing(UpToNul(v.value)));
    }
  }

  function NameOf(props: seq<Prop>): Option<string> {
    NodeName(Tree(props, []))
  }

  // ---------- which objects make up a tree ----------

  datatype Shape = Shape(node: Node, kids: seq<Shape>)

  ghost function Objects(s: Shape): set<Node>
    decreases s, 1
  {
    {s.node} + ObjectsOf(s.kids)
  }

  ghost function ObjectsOf(ss: seq<Shape>): set<Node>
    decreases ss, 0
  {
    if ss == [] then {} else ObjectsOf(ss[..|ss| - 1]) + Objects(ss[|ss| - 1])
  }

  /** No object occurs twice. */
  ghost predicate Distinct(s: Shape)
    decreases s, 1
  {
    s.node !in ObjectsOf(s.kids) && AllDistinct(s.kids)
  }

  ghost predicate AllDistinct(ss: seq<Shape>)
    decreases ss, 0
  {
    ss == [] || (var n := |ss| - 1;
                 AllDistinct(ss[..n]) && Distinct(ss[n]) && ObjectsOf(ss[..n]) !! Objects(ss[n]))
  }

  /** The child references are those of the shape. */
  ghost predicate Links(s: Shape)
    reads Objects(s)`children
    decreases s, 1
  {
    AllLinks(s.node.children, s.kids)
  }

  ghost predicate AllLinks(ns: seq<Node>, ss: seq<Shape>)
    reads ObjectsOf(ss)`children
    decreases ss, 0
  {
    |ns| == |ss| && (ss == [] || (var n := |ss| - 1;
                                  ns[n] == ss[n].node && Links(ss[n]) && AllLinks(ns[..n], ss[..n])))
  }

  /** The tree value the objects hold. */
  ghost function Value(s: Shape): Tree
    reads Objects(s)`props
    decreases s, 1
  {
    Tree(s.node.props, Values(s.kids))
  }

  ghost function Values(ss: seq<Shape>): (ts: seq<Tree>)
    reads ObjectsOf(ss)`props
    ensures |ts| == |ss|
    decreases ss, 0
  {
    if ss == [] then [] else Values(ss[..|ss| - 1]) + [Value(ss[|ss| - 1])]
  }

  lemma {:induction false} ValuesAt(ss: seq<Shape>, i: nat)
    requires i < |ss|
    ensures Objects(ss[i]) <= ObjectsOf(ss) && Values(ss)[i] == Value(ss[i])
    decreases |ss|
  {
    if i < |ss| - 1 {
      ValuesAt(ss[..|ss| - 1], i);
    }
  }

  lemma {:induction false} LinksAt(ns: seq<Node>, ss: seq<Shape>, i: nat)
    requires AllLinks(ns, ss) && i < |ss|
    ensures ns[i] == ss[i].node && Links(ss[i])
    decreases |ss|
  {
    if i < |ss| - 1 {
      LinksAt(ns[..|ss| - 1], ss[..|ss| - 1], i);
    }
  }

  lemma {:induction false} DistinctAt(ss: seq<Shape>, i: nat)
    requires AllDistinct(ss) && i < |ss|
    ensures Distinct(ss[i])
    decreases |ss|
  {
    if i < |ss| - 1 {
      DistinctAt(ss[..|ss| - 1], i);
    }
  }

  ghost predicate ValidShape(s: Shape, path: seq<nat>)
    decreases |path|
  {
    path == [] || (path[0] < |s.kids| && ValidShape(s.kids[path[0]], path[1..]))
  }

  ghost function ShapeAt(s: Shape, path: seq<nat>): Shape
    requires ValidShape(s, path)
    decreases |path|
  {
    if path == [] then s else ShapeAt(s.kids[path[0]], path[1..])
  }

  lemma {:induction false} ShapeAtInside(s: Shape, path: seq<nat>)
    requires ValidShape(s, path)
    ensures ShapeAt(s, path).node in Objects(s)
    decreases |path|
  {
    if path != [] {
      ShapeAtInside(s.kids[path[0]], path[1..]);
      ValuesAt(s.kids, path[0]);
    }
  }

  lemma {:induction false} PathsAgree(s: Shape, path: seq<nat>)
    ensures ValidShape(s, path) <==> ValidPath(Value(s), path)
    ensures ValidShape(s, path) ==> NodeAt(Value(s), path) == Value(ShapeAt(s, path))
    decreases |path|
  {
    if path != [] && path[0] < |s.kids| {
      ValuesAt(s.kids, path[0]);
      PathsAgree(s.kids[path[0]], path[1..]);
    }
  }

  // ---------- one object changes, one node of the value changes ----------

  /** The tree value under a snapshot of the properties of all objects. */
  ghost function ValueIn(s: Shape, m: map<Node, seq<Prop>>): Tree
    requires Objects(s) <= m.Keys
    decreases s, 1
  {
    Tree(m[s.node], ValuesIn(s.kids, m))
  }

  ghost function ValuesIn(ss: seq<Shape>, m: map<Node, seq<Prop>>): (ts: seq<Tree>)
    requires ObjectsOf(ss) <= m.Keys
    ensures |ts| == |ss|
    decreases ss, 0
  {
    if ss == [] then [] else ValuesIn(ss[..|ss| - 1], m) + [ValueIn(ss[|ss| - 1], m)]
  }

  /** The snapshot shows the current properties of the objects of this shape. */
  ghost predicate Snapshot(objects: set<Node>, m: map<Node, seq<Prop>>)
    reads objects`props
  {
    objects <= m.Keys && forall n :: n in objects ==> m[n] == n.props
  }

  lemma {:induction false} SnapshotValue(s: Shape, m: map<Node, seq<Prop>>)
    requires Snapshot(Objects(s), m)
    ensures ValueIn(s, m) == Value(s)
    decreases s, 1
  {
    SnapshotValues(s.kids, m);
  }

  lemma {:induction false} SnapshotValues(ss: seq<Shape>, m: map<Node, seq<Prop>>)
    requires Snapshot(ObjectsOf(ss), m)
    ensures ValuesIn(ss, m) == Values(ss)
    decreases ss, 0
  {
    if ss != [] {
      SnapshotValues(ss[..|ss| - 1], m);
      SnapshotValue(ss[|ss| - 1], m);
    }
  }

  lemma {:induction false} Unchanged(s: Shape, m: map<Node, seq<Prop>>, n: Node, props: seq<Prop>)
    requires Objects(s) <= m.Keys && n !in Objects(s)
    ensures ValueIn(s, m[n := props]) == ValueIn(s, m)
    decreases s, 1
  {
    AllUnchanged(s.kids, m, n, props);
  }

  lemma {:induction false} AllUnchanged(ss: seq<Shape>, m: map<Node, seq<Prop>>, n: Node, props: seq<Prop>)
    requires ObjectsOf(ss) <= m.Keys && n !in ObjectsOf(ss)
    ensures ValuesIn(ss, m[n := props]) == ValuesIn(ss, m)
    decreases ss, 0
  {
    if ss != [] {
      AllUnchanged(ss[..|ss| - 1], m, n, props);
      Unchanged(ss[|ss| - 1], m, n, props);
    }
  }

  /** Changing the properties of the object at a path changes the value at that path. */
  lemma {:induction false} OneChanged(s: Shape, path: seq<nat>, m: map<Node, seq<Prop>>, props: seq<Prop>)
    requires ValidShape(s, path) && Distinct(s) && Objects(s) <= m.Keys
    ensures ValidPath(ValueIn(s, m), path)
    ensures ValueIn(s, m[ShapeAt(s, path).node := props]) == WithProps(ValueIn(s, m), path, props)
    decreases |path|, 0
  {
    if path == [] {
      AllUnchanged(s.kids, m, s.node, props);
    } else {
      ShapeAtInside(s.kids[path[0]], path[1..]);
      ValuesAt(s.kids, path[0]);
      OneKidChanged(s.kids, path[0], path[1..], m, props);
    }
  }

  lemma {:induction false} OneKidChanged(ss: seq<Shape>, i: nat, path: seq<nat>, m: map<Node, seq<Prop>>, props: seq<Prop>)
    requires i < |ss| && ValidShape(ss[i], path) && AllDistinct(ss) && ObjectsOf(ss) <= m.Keys
    ensures ValidPath(ValuesIn(ss, m)[i], path)
    ensures ValuesIn(ss, m[ShapeAt(ss[i], path).node := props])
         == ValuesIn(ss, m)[i := WithProps(ValuesIn(ss, m)[i], path, props)]
    decreases |path|, |ss| + 1
  {
    var n := |ss| - 1;
    var target := ShapeAt(ss[i], path).node;
    ShapeAtInside(ss[i], path);
    if i == n {
      AllUnchanged(ss[..n], m, target, props);
      OneChanged(ss[n], path, m, props);
    } else {
      ValuesAt(ss[..n], i);
      Unchanged(ss[n], m, target, props);
      OneKidChanged(ss[..n], i, path, m, props);
    }
  }

  // ---------- find, then edit in place ----------

  method FindNode(root: Node, parts: seq<string>, ghost s: Shape, ghost repr: set<Node>) returns (r: Outcome<Node>)
    requires s.node == root && Objects(s) <= repr && Links(s)
    ensures match Locate(Value(s), parts)
            case Err(e) => r == Err(e)
            case Ok(path) => ValidShape(s, path) && r == Ok(ShapeAt(s, path).node)
    ensures forall path :: SpelledBy(Value(s), path, parts) ==> ValidShape(s, path) && r == Ok(ShapeAt(s, path).node)
    ensures (forall path :: !SpelledBy(Value(s), path, parts)) ==> r == Err(NoNode)
    decreases |parts|
  {
    hide Links, Objects, ChildIndex, Values, SpelledBy;
    AllPaths(Value(s), parts);
    if parts == [] {
      return Ok(root);
    }
    var i := ChildNamed(root, parts[0], s, repr);
    ChildCount(s);
    if i == |root.children| {
      return Err(NoNode);
    }
    ChildOf(s, i);
    r := FindNode(root.children[i], parts[1..], s.kids[i], repr);
  }

  lemma AllPaths(t: Tree, parts: seq<string>)
    ensures forall path :: SpelledBy(t, path, parts) <==> Locate(t, parts) == Ok(path)
    ensures Locate(t, parts).Ok? || Locate(t, parts) == Err(NoNode)
    ensures Locate(t, parts).Ok? <==> exists path :: SpelledBy(t, path, parts)
  {
    hide SpelledBy, Locate;
    forall path ensures SpelledBy(t, path, parts) <==> Locate(t, parts) == Ok(path) {
      LocateIff(t, parts, path);
    }
    NoNodeIff(t, parts);
    if Locate(t, parts).Ok? { assert SpelledBy(t, Locate(t, parts).value, parts); }
  }

  lemma ChildCount(s: Shape)
    requires Links(s)
    ensures |s.node.children| == |s.kids| == |Value(s).children|
  {
    hide AllLinks, ObjectsOf;
    assert AllLinks(s.node.children, s.kids);
    AllLinksLength(s.node.children, s.kids);
  }

  lemma AllLinksLength(ns: seq<Node>, ss: seq<Shape>)
    requires AllLinks(ns, ss)
    ensures |ns| == |ss|
  {
  }

  lemma ChildOf(s: Shape, i: nat)
    requires Links(s) && i < |s.kids|
    ensures |s.node.children| == |s.kids| && s.node.children[i] == s.kids[i].node && Links(s.kids[i])
    ensures Value(s).children[i] == Value(s.kids[i]) && Objects(s.kids[i]) <= Objects(s)
  {
    hide AllLinks, Distinct;
    ChildCount(s);
    LinksAt(s.node.children, s.kids, i);
    ValuesAt(s.kids, i);
  }

  /** Position of the first child of this name, reading each child's properties in turn. */
  method ChildNamed(n: Node, name: string, ghost s: Shape, ghost repr: set<Node>) returns (i: nat)
    requires s.node == n && Objects(s) <= repr && Links(s)
    ensures i == ChildIndex(Value(s).children, name)
  {
    hide Links, Value, Objects;
    ChildCount(s);
    i := 0;
    while i < |n.children|
      invariant i <= |n.children| == |Value(s).children| && ChildIndex(Value(s).children, name) >= i
    {
      ChildCount(s);
      ChildOf(s, i);
      RootProps(s.kids[i]);
      var childName := n.children[i].Name();
      if childName == Some(name) {
        return;
      }
      i := i + 1;
    }
  }

  lemma RootProps(s: Shape)
    ensures NodeName(Value(s)) == NameOf(s.node.props)
  {
    hide Values;
  }

  /** find(root, path).set(key, value): the one object that changes is one node of the tree. */
  method SetAtPath(root: Node, parts: seq<string>, key: string, value: seq<byte>, ghost s: Shape, ghost repr: set<Node>)
    returns (r: Outcome<()>)
    requires s.node == root && Objects(s) == repr && Links(s) && Distinct(s)
    modifies repr`props
    ensures Links(s)
    ensures match Locate(old(Value(s)), parts)
            case Err(e) => r == Err(e) && Value(s) == old(Value(s))
            case Ok(path) =>
              r == Ok(()) && Value(s) == WithProps(old(Value(s)), path, SetProp(NodeAt(old(Value(s)), path).props, key, value))
    ensures forall path :: SpelledBy(old(Value(s)), path, parts) ==>
              ValidPath(old(Value(s)), path) && r == Ok(())
              && Value(s) == WithProps(old(Value(s)), path, SetProp(NodeAt(old(Value(s)), path).props, key, value))
    ensures (forall path :: !SpelledBy(old(Value(s)), path, parts)) ==> r == Err(NoNode) && Value(s) == old(Value(s))
  {
    hide Links, Objects, Distinct, Locate, SetProp, SpelledBy;
    AllPaths(Value(s), parts);
    var found := FindNode(root, parts, s, repr);
    if found.Err? {
      return Err(found.error);
    }
    ghost var path := Locate(Value(s), parts).value;
    ghost var m := map n | n in repr :: n.props;
    Located(s, path, m);
    found.value.Set(key, value);
    SnapshotValue(s, m[found.value := found.value.props]);
    OneChanged(s, path, m, found.value.props);
    r := Ok(());
  }

  lemma Located(s: Shape, path: seq<nat>, m: map<Node, seq<Prop>>)
    requires ValidShape(s, path) && Snapshot(Objects(s), m)
    ensures ShapeAt(s, path).node in Objects(s) && ValueIn(s, m) == Value(s)
    ensures ValidPath(Value(s), path) && NodeAt(Value(s), path).props == ShapeAt(s, path).node.props
  {
    ShapeAtInside(s, path);
    PathsAgree(s, path);
    SnapshotValue(s, m);
  }

  // ---------- the codec loops ----------

  ghost function Following(kids: seq<Tree>, rest: Outcome<(seq<Tree>, nat)>): Outcome<(seq<Tree>, nat)> {
    if rest.Err? then rest else Ok((kids + rest.value.0, rest.value.1))
  }

  ghost function FollowingProps(props: seq<Prop>, rest: Outcome<(seq<Prop>, nat)>): Outcome<(seq<Prop>, nat)> {
    if rest.Err? then rest else Ok((props + rest.value.0, rest.value.1))
  }

  method ReadProps(buf: seq<byte>, start: nat, count: nat) returns (r: Outcome<(seq<Prop>, nat)>)
    ensures r == DecodeProps(buf, start, count)
  {
    hide DecodeProp;
    var off, props := start, [];
    assert FollowingProps([], DecodeProps(buf, start, count)) == DecodeProps(buf, start, count) by {
      NoPropsBefore(DecodeProps(buf, start, count));
    }
    for i := 0 to count
      invariant DecodeProps(buf, start, count) == FollowingProps(props, DecodeProps(buf, off, count - i))
    {
      var p := DecodeProp(buf, off);
      if p.Err? {
        return Err(p.error);
      }
      OnePropBefore(props, p.value.0, DecodeProps(buf, p.value.1, count - i - 1));
      props, off := props + [p.value.0], p.value.1;
    }
    assert props + [] == props;
    r := Ok((props, off));
  }

  lemma NoPropsBefore(rest: Outcome<(seq<Prop>, nat)>)
    ensures FollowingProps([], rest) == rest
  {
    if rest.Ok? {
      assert [] + rest.value.0 == rest.value.0;
    }
  }

  lemma OnePropBefore(props: seq<Prop>, p: Prop, rest: Outcome<(seq<Prop>, nat)>)
    ensures FollowingProps(props + [p], rest) == FollowingProps(props, FollowingProps([p], rest))
  {
    if rest.Ok? {
      assert props + [p] + rest.value.0 == props + ([p] + rest.value.0);
    }
  }

  lemma NoneBefore(rest: Outcome<(seq<Tree>, nat)>)
    ensures Following([], rest) == rest
  {
    if rest.Ok? {
      assert [] + rest.value.0 == rest.value.0;
    }
  }

  lemma OneBefore(kids: seq<Tree>, t: Tree, rest: Outcome<(seq<Tree>, nat)>)
    ensures Following(kids + [t], rest) == Following(kids, Following([t], rest))
  {
    if rest.Ok? {
      assert kids + [t] + rest.value.0 == kids + ([t] + rest.value.0);
    }
  }

  lemma PushKid(ns: seq<Node>, kids: seq<Shape>, c: Node, s: Shape)
    requires AllLinks(ns, kids) && AllDistinct(kids) && s.node == c && Links(s) && Distinct(s)
    requires ObjectsOf(kids) !! Objects(s)
    ensures AllLinks(ns + [c], kids + [s]) && AllDistinct(kids + [s])
    ensures ObjectsOf(kids + [s]) == ObjectsOf(kids) + Objects(s) && Values(kids + [s]) == Values(kids) + [Value(s)]
  {
    hide Links, Distinct, Value, Objects;
    AllLinksLength(ns, kids);
    assert (kids + [s])[..|kids|] == kids;
    assert (ns + [c])[..|ns|] == ns;
  }

  /** decode: builds fresh objects holding the decoded tree. */
  method ReadNode(buf: seq<byte>, start: nat) returns (r: Outcome<(Node, nat)>, ghost s: Shape, ghost repr: set<Node>)
    ensures fresh(repr)
    ensures match Decode(buf, start)
            case Err(e) => r == Err(e)
            case Ok((t, end)) =>
              && r.Ok? && r.value.1 == end && s.node == r.value.0 && Objects(s) == repr && Distinct(s) && Links(s)
              && Value(s) == t
    decreases Left(buf, start), 1
  {
    hide AllDistinct, AllLinks, ObjectsOf, DecodeProps, DecodeChildren;
    var n := new Node();
    s := Shape(n, []);
    repr := {};
    if start + 8 > |buf| {
      return Err(ShortBuffer), s, repr;
    }
    var props := ReadProps(buf, start + 8, U32(buf, start));
    if props.Err? {
      return Err(props.error), s, repr;
    }
    n.props := props.value.0;
    var children; ghost var kids; ghost var below;
    children, kids, below := ReadChildren(buf, props.value.1, U32(buf, start + 4));
    if children.Err? {
      return Err(children.error), s, repr;
    }
    n.children := children.value.0;
    s := Shape(n, kids);
    repr := {n} + below;
    r := Ok((n, children.value.1));
  }

  method ReadChildren(buf: seq<byte>, start: nat, count: nat)
    returns (r: Outcome<(seq<Node>, nat)>, ghost kids: seq<Shape>, ghost repr: set<Node>)
    ensures fresh(repr)
    ensures match DecodeChildren(buf, start, count)
            case Err(e) => r == Err(e)
            case Ok((ts, end)) =>
              && r.Ok? && r.value.1 == end && ObjectsOf(kids) == repr && AllDistinct(kids) && AllLinks(r.value.0, kids)
              && Values(kids) == ts
    decreases Left(buf, start), 2
  {
    hide Decode, Links, Distinct, Value, Objects, AllLinks, AllDistinct, ObjectsOf, Values;
    var off, nodes := start, [];
    kids, repr := [], {};
    NothingYet();
    NoneBefore(DecodeChildren(buf, start, count));
    for i := 0 to count
      invariant off >= start && fresh(repr)
      invariant ObjectsOf(kids) == repr && AllDistinct(kids) && AllLinks(nodes, kids)
      invariant DecodeChildren(buf, start, count) == Following(Values(kids), DecodeChildren(buf, off, count - i))
    {
      var c; ghost var cs; ghost var cr;
      c, cs, cr := ReadNode(buf, off);
      if c.Err? {
        return Err(c.error), kids, repr;
      }
      OneBefore(Values(kids), Value(cs), DecodeChildren(buf, c.value.1, count - i - 1));
      PushKid(nodes, kids, c.value.0, cs);
      kids, repr, nodes := kids + [cs], repr + cr, nodes + [c.value.0];
      off := c.value.1;
    }
    assert Values(kids) + [] == Values(kids);
    r := Ok((nodes, off));
  }

  lemma NothingYet()
    ensures ObjectsOf([]) == {} && AllDistinct([]) && AllLinks([], []) && Values([]) == []
  {
  }

  ghost function Behind(out: seq<byte>, rest: Outcome<seq<byte>>): Outcome<seq<byte>> {
    if rest.Err? then rest else Ok(out + rest.value)
  }

  lemma BehindOne(out: seq<byte>, x: seq<byte>, rest: Outcome<seq<byte>>)
    ensures Behind(out + x, rest) == Behind(out, Behind(x, rest))
  {
    if rest.Ok? {
      assert out + x + rest.value == out + (x + rest.value);
    }
  }

  /** encode: the header, the records and the children appended in turn. */
  method WriteNode(n: Node, ghost s: Shape, ghost repr: set<Node>) returns (r: Outcome<seq<byte>>)
    requires s.node == n && Objects(s) <= repr && Links(s)
    ensures r == EncodeTree(Value(s))
    decreases s
  {
    hide EncodeProp, Objects, Links, Values;
    ChildCount(s);
    if |n.props| >= WORD_LIMIT || |n.children| >= WORD_LIMIT {
      return Err(PackOverflow);
    }
    var head := Le32(|n.props|) + Le32(|n.children|);
    var records := WriteProps(n.props);
    if records.Err? {
      return records;
    }
    var out := [];
    ghost var ts := Value(s).children;
    assert ts[0..] == ts;
    assert Behind([], EncodeTrees(ts)) == EncodeTrees(ts) by { NothingBehind(EncodeTrees(ts)); }
    for i := 0 to |n.children|
      invariant EncodeTrees(ts) == Behind(out, EncodeTrees(ts[i..]))
    {
      ChildOf(s, i);
      assert ts[i..][1..] == ts[i + 1..] && ts[i..][0] == ts[i];
      var c := WriteNode(n.children[i], s.kids[i], repr);
      if c.Err? {
        return c;
      }
      BehindOne(out, c.value, EncodeTrees(ts[i + 1..]));
      out := out + c.value;
    }
    assert ts[|ts|..] == [];
    assert out + [] == out;
    r := Ok(head + records.value + out);
  }

  lemma NothingBehind(rest: Outcome<seq<byte>>)
    ensures Behind([], rest) == rest
  {
    if rest.Ok? {
      assert [] + rest.value == rest.value;
    }
  }

  method WriteProps(ps: seq<Prop>) returns (r: Outcome<seq<byte>>)
    ensures r == EncodeProps(ps)
  {
    hide EncodeProp;
    var out := [];
    assert ps[0..] == ps;
    NothingBehind(EncodeProps(ps));
    for i := 0 to |ps|
      invariant EncodeProps(ps) == Behind(out, EncodeProps(ps[i..]))
    {
      assert ps[i..][1..] == ps[i + 1..];
      var record := EncodeProp(ps[i]);
      if record.Err? {
        return record;
      }
      BehindOne(out, record.value, EncodeProps(ps[i + 1..]));
      out := out + record.value;
    }
    assert ps[|ps|..] == [];
    assert out + [] == out;
    r := Ok(out);
  }
}
