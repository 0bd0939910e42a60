/** How far one keyed edit on one path reaches, before and after encoding. */
module DtPatchEdits {
  import opened Results
  import opened Bytes
  import opened Utf8Text
  import opened DtPatch
  import opened DtPatchProofs
  import opened DtPatchPaths

  /** Setting a property touches the first property of that name only: its flag, every other property
      and their order stay; a missing name is appended last, without flags. */
  lemma SetTouchesFirst(ps: seq<Prop>, key: string, value: seq<byte>)
    ensures var i := FindKey(ps, key);
            var ps' := SetProp(ps, key, value);
            && FindKey(ps', key) == i && i < |ps'| && ps'[i].value == value && ps'[i].name == key
            && ps'[i].flagged == (i < |ps| && ps[i].flagged)
            && |ps'| == (if i < |ps| then |ps| else |ps| + 1)
            && forall k :: 0 <= k < |ps| && k != i ==> ps'[k] == ps[k]
    ensures forall other :: other != key ==> Get(SetProp(ps, key, value), other) == Get(ps, other)
  {
    var i := FindKey(ps, key);
    var ps' := SetProp(ps, key, value);
    FirstIs(ps', key, i);
    forall other | other != key
      ensures Get(ps', other) == Get(ps, other)
    {
      var j := FindKey(ps, other);
      if j < |ps| {
        FirstIs(ps', other, j);
      } else {
        FirstIs(ps', other, |ps'|);
      }
    }
  }

  /** Deleting drops the first property of that name and moves the later ones up by one. */
  lemma DeleteDropsFirst(ps: seq<Prop>, key: string)
    ensures var i := FindKey(ps, key);
            var ps' := DeleteProp(ps, key);
            && |ps'| == (if i < |ps| then |ps| - 1 else |ps|)
            && (forall k :: 0 <= k < i ==> ps'[k] == ps[k])
            && forall k :: i < k < |ps| ==> ps'[k - 1] == ps[k]
    ensures forall other :: other != key ==> Get(DeleteProp(ps, key), other) == Get(ps, other)
  {
    DeleteMoves(ps, key);
    forall other | other != key
      ensures Get(DeleteProp(ps, key), other) == Get(ps, other)
    {
      DeleteKeepsOther(ps, key, other);
    }
  }

  lemma DeleteMoves(ps: seq<Prop>, key: string)
    ensures var i := FindKey(ps, key);
            var ps' := DeleteProp(ps, key);
            && |ps'| == (if i < |ps| then |ps| - 1 else |ps|)
            && (forall k :: 0 <= k < i ==> ps'[k] == ps[k])
            && forall k :: i < k < |ps| ==> ps'[k - 1] == ps[k]
  {
  }

  lemma DeleteKeepsOther(ps: seq<Prop>, key: string, other: string)
    requires other != key
    ensures Get(DeleteProp(ps, key), other) == Get(ps, other)
  {
    var i, j, ps' := FindKey(ps, key), FindKey(ps, other), DeleteProp(ps, key);
    DeleteMoves(ps, key);
    hide DeleteProp, FindKey;
    if i < |ps| {
      var j' := if j < i then j else j - 1;
      forall k | 0 <= k < j' ensures ps'[k].name != other {
        if k >= i { assert ps'[k + 1 - 1] == ps[k + 1]; }
      }
      FirstIs(ps', other, j');
    }
  }

  lemma {:induction false} FirstIs(ps: seq<Prop>, key: string, i: nat)
    requires i <= |ps| && (i < |ps| ==> ps[i].name == key) && forall k :: 0 <= k < i ==> ps[k].name != key
    ensures FindKey(ps, key) == i
  {
    if i > 0 {
      FirstIs(ps[1..], key, i - 1);
    }
  }

  /** Setting twice is setting once; setting then deleting a key that was absent restores the list. */
  lemma SetLaws(ps: seq<Prop>, key: string, v: seq<byte>, w: seq<byte>)
    ensures SetProp(SetProp(ps, key, v), key, w) == SetProp(ps, key, w)
    ensures FindKey(ps, key) == |ps| ==> DeleteProp(SetProp(ps, key, v), key) == ps
  {
    SetTouchesFirst(ps, key, v);
    assert FindKey(ps, key) == |ps| ==> (ps + [Prop(key, false, v)])[..|ps|] == ps;
  }

  /** An edit at one path leaves the properties of every other node, and the shape of the whole tree. */
  lemma {:induction false} EditIsLocal(t: Tree, path: seq<nat>, props: seq<Prop>, other: seq<nat>)
    requires ValidPath(t, path)
    ensures ValidPath(WithProps(t, path, props), other) <==> ValidPath(t, other)
    ensures ValidPath(t, other) ==>
              && NodeAt(WithProps(t, path, props), other).props == (if other == path then props else NodeAt(t, other).props)
              && |NodeAt(WithProps(t, path, props), other).children| == |NodeAt(t, other).children|
    decreases |other|
  {
    if other != [] && path != [] && other[0] == path[0] {
      EditIsLocal(t.children[path[0]], path[1..], props, other[1..]);
      assert path == [path[0]] + path[1..] && other == [other[0]] + other[1..];
    }
  }

  lemma SetKeepsWf(ps: seq<Prop>, key: string, value: seq<byte>)
    requires AllWfProps(ps) && WfProp(Prop(key, false, value)) && |ps| + 1 < WORD_LIMIT
    ensures AllWfProps(SetProp(ps, key, value)) && |SetProp(ps, key, value)| < WORD_LIMIT
  {
    hide Encode;
    var i := FindKey(ps, key);
    if i < |ps| {
      assert WfProp(ps[i].(value := value));
    }
  }

  lemma {:induction false} WfAt(t: Tree, path: seq<nat>)
    requires WfTree(t) && ValidPath(t, path)
    ensures WfTree(NodeAt(t, path))
    decreases |path|
  {
    if path != [] {
      WfChild(t.children, path[0]);
      WfAt(t.children[path[0]], path[1..]);
    }
  }

  lemma {:induction false} WfChild(ts: seq<Tree>, i: nat)
    requires AllWfTrees(ts) && i < |ts|
    ensures WfTree(ts[i])
    decreases |ts|
  {
    if i > 0 {
      WfChild(ts[1..], i - 1);
    }
  }

  lemma {:induction false} WfReplace(ts: seq<Tree>, i: nat, t: Tree)
    requires AllWfTrees(ts) && i < |ts| && WfTree(t)
    ensures AllWfTrees(ts[i := t])
    decreases |ts|
  {
    var ts' := ts[i := t];
    if i == 0 {
      assert ts'[1..] == ts[1..];
    } else {
      WfReplace(ts[1..], i - 1, t);
      assert ts'[1..] == ts[1..][i - 1 := t];
    }
  }

  lemma {:induction false} EditKeepsWf(t: Tree, path: seq<nat>, props: seq<Prop>)
    requires WfTree(t) && ValidPath(t, path) && AllWfProps(props) && |props| < WORD_LIMIT
    ensures WfTree(WithProps(t, path, props))
    decreases |path|
  {
    hide WfProp;
    if path != [] {
      WfChild(t.children, path[0]);
      EditKeepsWf(t.children[path[0]], path[1..], props);
      WfReplace(t.children, path[0], WithProps(t.children[path[0]], path[1..], props));
    }
  }

  /** A path edit, encoded and decoded again, shows the one change and nothing else. */
  lemma EditSurvivesRoundTrip(t: Tree, parts: seq<string>, path: seq<nat>, key: string, value: seq<byte>, other: seq<nat>)
    requires WfTree(t) && SpelledBy(t, path, parts) && ValidPath(t, path) && WfProp(Prop(key, false, value))
    requires |NodeAt(t, path).props| + 1 < WORD_LIMIT && ValidPath(t, other)
    ensures Locate(t, parts) == Ok(path)
    ensures var edited := WithProps(t, path, SetProp(NodeAt(t, path).props, key, value));
            && EncodeTree(edited).Ok? && Decode(EncodeTree(edited).value, 0) == Ok((edited, |EncodeTree(edited).value|))
            && ValidPath(edited, other)
            && |NodeAt(edited, other).children| == |NodeAt(t, other).children|
            && (other != path ==> NodeAt(edited, other).props == NodeAt(t, other).props)
            && (other == path ==> NodeAt(edited, other).props == SetProp(NodeAt(t, path).props, key, value))
  {
    hide EncodeTree, Decode, SetProp, Locate;
    LocateIff(t, parts, path);
    var props := SetProp(NodeAt(t, path).props, key, value);
    WfAt(t, path);
    SetKeepsWf(NodeAt(t, path).props, key, value);
    EditKeepsWf(t, path, props);
    DecodeEncode(WithProps(t, path, props));
    EditIsLocal(t, path, props, other);
  }

  // ---------- where the length check counts characters instead of bytes ----------

  /** Eleven replacement characters: eleven characters, thirty-three bytes. */
  const WIDE := "\U{FFFD}\U{FFFD}\U{FFFD}\U{FFFD}\U{FFFD}\U{FFFD}\U{FFFD}\U{FFFD}\U{FFFD}\U{FFFD}\U{FFFD}"

  lemma {:induction false} ThreeBytesEach(s: string)
    requires forall i :: 0 <= i < |s| ==> s[i] == REPLACEMENT
    ensures |Encode(s)| == 3 * |s|
  {
    if s != "" {
      ThreeBytesEach(s[1..]);
    }
  }

  /** `len(name) < 32` counts characters, so a name whose UTF-8 exceeds 32 bytes passes and shifts every
      byte behind it: the printed tree is one byte longer than its records, and reading it back runs off. */
  lemma WideNameShiftsTheRecord()
    ensures |WIDE| < 32 && EncodeProp(Prop(WIDE, false, [])).Ok?
    ensures |EncodeProp(Prop(WIDE, false, [])).value| % 4 == 1
    ensures var t := Tree([Prop(WIDE, false, [])], []);
            EncodeTree(t).Ok? && Decode(EncodeTree(t).value, 0) != Ok((t, |EncodeTree(t).value|))
  {
    hide Decode, Encode;
    ThreeBytesEach(WIDE);
    var p := Prop(WIDE, false, []);
    OnePropPrints(p);
    EndsAligned(EncodeTree(Tree([p], [])).value, 0);
  }

  lemma OnePropPrints(p: Prop)
    requires EncodeProp(p).Ok?
    ensures EncodeTree(Tree([p], [])).Ok? && |EncodeTree(Tree([p], [])).value| == 8 + |EncodeProp(p).value|
  {
    hide EncodeProp, Le32;
    assert [p][1..] == [];
    assert EncodeProps([]) == Ok([]) && EncodeTrees([]) == Ok([]);
    assert EncodeProps([p]).Ok? && |EncodeProps([p]).value| == |EncodeProp(p).value|;
  }

  /** Decoding always stops a multiple of four behind where it started. */
  lemma {:induction false} EndsAligned(buf: seq<byte>, off: nat)
    ensures Decode(buf, off).Ok? ==> (Decode(buf, off).value.1 - off) % 4 == 0
    decreases Left(buf, off), 0
  {
    hide DecodeProp, DecodeProps, DecodeChildren;
    if Decode(buf, off).Ok? {
      var (props, next) := DecodeProps(buf, off + 8, U32(buf, off)).value;
      PropsEndAligned(buf, off + 8, U32(buf, off));
      ChildrenEndAligned(buf, next, U32(buf, off + 4));
    }
  }

  lemma PropEndsAligned(buf: seq<byte>, off: nat)
    ensures DecodeProp(buf, off).Ok? ==> DecodeProp(buf, off).value.1 >= off && (DecodeProp(buf, off).value.1 - off) % 4 == 0
  {
    hide DecodeReplacing, UpToNul, Slice, U32;
  }

  lemma {:induction false} PropsEndAligned(buf: seq<byte>, off: nat, count: nat)
    ensures DecodeProps(buf, off, count).Ok? ==> (DecodeProps(buf, off, count).value.1 - off) % 4 == 0
    decreases count
  {
    hide DecodeProp;
    if count > 0 && DecodeProps(buf, off, count).Ok? {
      PropEndsAligned(buf, off);
      PropsEndAligned(buf, DecodeProp(buf, off).value.1, count - 1);
    }
  }

  lemma {:induction false} ChildrenEndAligned(buf: seq<byte>, off: nat, count: nat)
    ensures DecodeChildren(buf, off, count).Ok? ==> (DecodeChildren(buf, off, count).value.1 - off) % 4 == 0
    decreases Left(buf, off), count + 1
  {
    hide Decode;
    if count > 0 && DecodeChildren(buf, off, count).Ok? {
      EndsAligned(buf, off);
      ChildrenEndAligned(buf, Decode(buf, off).value.1, count - 1);
    }
  }
}
