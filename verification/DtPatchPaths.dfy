/** Which node a path of names means, said of the nodes along the way. */
module DtPatchPaths {
  import opened Results
  import opened Bytes
  import opened Utf8Text
  import opened DtPatch

  /** The first property called `name` reads, up to its first zero byte, as this name. */
  predicate IsNamed(t: Tree, name: string) {
    exists i :: 0 <= i < |t.props| && t.props[i].name == KEY_NAME
                && (forall k :: 0 <= k < i ==> t.props[k].name != KEY_NAME)
                && ReadsAs(t.props[i].value, name)
  }

  predicate ReadsAs(value: seq<byte>, name: string) {
    exists n :: 0 <= n <= |value| && (n == |value| || value[n] == 0)
                && (forall k :: 0 <= k < n ==> value[k] != 0) && DecodeReplacing(value[..n]) == name
  }

  predicate FirstNamed(ts: seq<Tree>, i: nat, name: string) {
    i < |ts| && IsNamed(ts[i], name) && forall k :: 0 <= k < i ==> !IsNamed(ts[k], name)
  }

  /** Each node on the path is the first child of that name of the node before it. */
  predicate SpelledBy(t: Tree, path: seq<nat>, parts: seq<string>) {
    |path| == |parts|
    && forall i :: 0 <= i < |parts| ==>
         ValidPath(t, path[..i]) && FirstNamed(NodeAt(t, path[..i]).children, path[i], parts[i])
  }

  /** Each node on the path is some child of that name of the node before it. */
  predicate Spells(t: Tree, path: seq<nat>, parts: seq<string>)
    decreases |path|
  {
    if path == [] || parts == [] then path == [] && parts == []
    else path[0] < |t.children| && IsNamed(t.children[path[0]], parts[0])
         && Spells(t.children[path[0]], path[1..], parts[1..])
  }

  lemma ReadsAsIff(value: seq<byte>, name: string)
    ensures ReadsAs(value, name) <==> DecodeReplacing(UpToNul(value)) == name
  {
    var n := |UpToNul(value)|;
    assert value[..n] == UpToNul(value);
    assert forall k :: 0 <= k < n ==> value[k] == UpToNul(value)[k] && value[k] != 0;
    if ReadsAs(value, name) {
      var m :| 0 <= m <= |value| && (m == |value| || value[m] == 0)
               && (forall k :: 0 <= k < m ==> value[k] != 0) && DecodeReplacing(value[..m]) == name;
      assert m == n;
    }
  }

  lemma IsNamedIff(t: Tree, name: string)
    ensures IsNamed(t, name) <==> NodeName(t) == Some(name)
  {
    hide ReadsAs, UpToNul;
    var i := FindKey(t.props, KEY_NAME);
    if i < |t.props| { ReadsAsIff(t.props[i].value, name); }
  }

  lemma FirstNamedIff(ts: seq<Tree>, i: nat, name: string)
    ensures FirstNamed(ts, i, name) <==> i < |ts| && ChildIndex(ts, name) == i
  {
    hide IsNamed, NodeName;
    forall k | 0 <= k < |ts| ensures IsNamed(ts[k], name) <==> NodeName(ts[k]) == Some(name) {
      IsNamedIff(ts[k], name);
    }
  }

  /** One step down a spelled path. */
  lemma SpelledStep(t: Tree, path: seq<nat>, parts: seq<string>)
    requires |path| == |parts| > 0
    ensures SpelledBy(t, path, parts) <==>
              FirstNamed(t.children, path[0], parts[0]) && SpelledBy(t.children[path[0]], path[1..], parts[1..])
  {
    hide FirstNamed;
    assert path[..0] == [] && NodeAt(t, []) == t;
    if SpelledBy(t, path, parts) {
      assert FirstNamed(t.children, path[0], parts[0]);
      assert path[0] < |t.children| by { FirstInside(t.children, path[0], parts[0]); }
      forall i | 0 <= i < |parts| - 1
        ensures ValidPath(t.children[path[0]], path[1..][..i])
                && FirstNamed(NodeAt(t.children[path[0]], path[1..][..i]).children, path[1..][i], parts[1..][i])
      {
        assert path[..i + 1][1..] == path[1..][..i] && path[..i + 1] != [];
        assert ValidPath(t, path[..i + 1]);
      }
    }
    if FirstNamed(t.children, path[0], parts[0]) {
      FirstInside(t.children, path[0], parts[0]);
      if SpelledBy(t.children[path[0]], path[1..], parts[1..]) { SpelledDown(t, path, parts); }
    }
  }

  lemma SpelledDown(t: Tree, path: seq<nat>, parts: seq<string>)
    requires |path| == |parts| > 0 && path[0] < |t.children|
    requires FirstNamed(t.children, path[0], parts[0]) && SpelledBy(t.children[path[0]], path[1..], parts[1..])
    ensures SpelledBy(t, path, parts)
  {
    hide FirstNamed;
    forall i | 0 <= i < |parts|
      ensures ValidPath(t, path[..i]) && FirstNamed(NodeAt(t, path[..i]).children, path[i], parts[i])
    {
      if i > 0 {
        assert path[..i][1..] == path[1..][..i - 1];
        assert FirstNamed(NodeAt(t.children[path[0]], path[1..][..i - 1]).children, path[1..][i - 1], parts[1..][i - 1]);
      }
    }
  }

  lemma FirstInside(ts: seq<Tree>, i: nat, name: string)
    requires FirstNamed(ts, i, name)
    ensures i < |ts|
  {
  }

  /** `find` answers a node exactly when its path is the one the names spell through first children. */
  lemma {:induction false} LocateIff(t: Tree, parts: seq<string>, path: seq<nat>)
    ensures Locate(t, parts) == Ok(path) <==> SpelledBy(t, path, parts)
    decreases |parts|
  {
    hide ChildIndex, FirstNamed;
    if |path| == |parts| && parts != [] {
      FirstNamedIff(t.children, path[0], parts[0]);
      SpelledStep(t, path, parts);
      if path[0] < |t.children| { LocateIff(t.children[path[0]], parts[1..], path[1..]); }
      assert [path[0]] + path[1..] == path;
    }
  }

  /** A path of names means at most one node. */
  lemma SpelledOnce(t: Tree, parts: seq<string>, a: seq<nat>, b: seq<nat>)
    requires SpelledBy(t, a, parts) && SpelledBy(t, b, parts)
    ensures a == b && ValidPath(t, a)
  {
    hide SpelledBy, Locate;
    LocateIff(t, parts, a);
    LocateIff(t, parts, b);
    assert Locate(t, parts) == Ok(a) && Locate(t, parts) == Ok(b);
  }

  /** `find` gives up exactly where the names spelled so far reach a node none of whose children bears
      the next name. */
  ghost predicate StuckAt(t: Tree, parts: seq<string>, stem: seq<nat>) {
    |stem| < |parts| && SpelledBy(t, stem, parts[..|stem|]) && ValidPath(t, stem)
    && forall k :: 0 <= k < |NodeAt(t, stem).children| ==> !IsNamed(NodeAt(t, stem).children[k], parts[|stem|])
  }

  lemma {:induction false} NoNodeIff(t: Tree, parts: seq<string>)
    ensures Locate(t, parts) == Err(NoNode) <==> exists stem :: StuckAt(t, parts, stem)
    ensures Locate(t, parts).Ok? || Locate(t, parts) == Err(NoNode)
    decreases |parts|
  {
    hide StuckAt;
    if parts == [] {
      NeverStuck(t);
    } else {
      var i := ChildIndex(t.children, parts[0]);
      if i == |t.children| {
        StuckHere(t, parts);
      } else {
        FirstNamedIff(t.children, i, parts[0]);
        NoNodeIff(t.children[i], parts[1..]);
        StuckBelow(t, parts, i);
      }
    }
  }

  lemma NeverStuck(t: Tree)
    ensures forall stem :: !StuckAt(t, [], stem)
  {
  }

  lemma StuckHere(t: Tree, parts: seq<string>)
    requires parts != [] && ChildIndex(t.children, parts[0]) == |t.children|
    ensures StuckAt(t, parts, [])
  {
    hide IsNamed;
    NoneNamed(t.children, parts[0]);
    assert NodeAt(t, []) == t;
  }

  lemma StuckBelow(t: Tree, parts: seq<string>, i: nat)
    requires parts != [] && FirstNamed(t.children, i, parts[0]) && i < |t.children|
    ensures (exists stem :: StuckAt(t, parts, stem)) <==> exists stem :: StuckAt(t.children[i], parts[1..], stem)
  {
    hide StuckAt, FirstNamed;
    if stem :| StuckAt(t.children[i], parts[1..], stem) {
      StuckStep(t, parts, i, stem);
    }
    if stem :| StuckAt(t, parts, stem) {
      StuckStarts(t, parts, i, stem);
      StuckStep(t, parts, i, stem[1..]);
      assert [i] + stem[1..] == stem;
    }
  }

  lemma NoneNamed(ts: seq<Tree>, name: string)
    requires ChildIndex(ts, name) == |ts|
    ensures forall k :: 0 <= k < |ts| ==> !IsNamed(ts[k], name)
  {
    hide IsNamed, NodeName;
    forall k | 0 <= k < |ts| ensures !IsNamed(ts[k], name) { IsNamedIff(ts[k], name); }
  }

  lemma StuckStep(t: Tree, parts: seq<string>, i: nat, stem: seq<nat>)
    requires parts != [] && FirstNamed(t.children, i, parts[0]) && i < |t.children|
    ensures StuckAt(t, parts, [i] + stem) <==> StuckAt(t.children[i], parts[1..], stem)
  {
    hide SpelledBy, FirstNamed, IsNamed;
    var path := [i] + stem;
    assert path[1..] == stem && path[0] == i;
    if |path| < |parts| {
      var spelled := parts[..|path|];
      SpelledStep(t, path, spelled);
      assert spelled[1..] == parts[1..][..|stem|] && spelled[0] == parts[0];
      assert parts[1..][|stem|] == parts[|path|];
      assert ValidPath(t, path) <==> ValidPath(t.children[i], stem);
      assert ValidPath(t, path) ==> NodeAt(t, path) == NodeAt(t.children[i], stem);
    }
  }

  lemma StuckStarts(t: Tree, parts: seq<string>, i: nat, stem: seq<nat>)
    requires parts != [] && FirstNamed(t.children, i, parts[0]) && i < |t.children| && StuckAt(t, parts, stem)
    ensures stem != [] && stem[0] == i
  {
    hide IsNamed, FirstNamed;
    if stem == [] {
      StuckRoot(t, parts, i);
    } else {
      SpelledStep(t, stem, parts[..|stem|]);
      assert parts[..|stem|][0] == parts[0];
      assert FirstNamed(t.children, stem[0], parts[0]);
      OneFirst(t.children, i, stem[0], parts[0]);
    }
  }

  lemma StuckRoot(t: Tree, parts: seq<string>, i: nat)
    requires parts != [] && StuckAt(t, parts, [])
    ensures !FirstNamed(t.children, i, parts[0])
  {
    hide IsNamed;
    assert NodeAt(t, []) == t;
  }

  lemma OneFirst(ts: seq<Tree>, i: nat, j: nat, name: string)
    requires FirstNamed(ts, i, name) && FirstNamed(ts, j, name)
    ensures i == j
  {
    hide IsNamed;
  }

  /** There may be a node that bears the names all the same: `find` misses it exactly when a later
      sibling of the same name as a node on its way leads on to it. */
  ghost predicate Overlooked(t: Tree, parts: seq<string>) {
    exists stem: seq<nat>, k: nat, rest: seq<nat> ::
      |stem| < |parts| && SpelledBy(t, stem, parts[..|stem|]) && LeadsOn(t, parts, stem, k, rest)
  }

  ghost predicate LeadsOn(t: Tree, parts: seq<string>, stem: seq<nat>, k: nat, rest: seq<nat>) {
    |stem| < |parts| && ValidPath(t, stem)
    && var ts := NodeAt(t, stem).children; var name := parts[|stem|];
       k < |ts| && IsNamed(ts[k], name) && !FirstNamed(ts, k, name) && Spells(ts[k], rest, parts[|stem| + 1..])
  }

  lemma MissedIff(t: Tree, parts: seq<string>)
    requires Locate(t, parts) == Err(NoNode)
    ensures (exists path :: Spells(t, path, parts)) <==> Overlooked(t, parts)
  {
    hide SpelledBy, Spells, LeadsOn, Locate;
    if path :| Spells(t, path, parts) {
      var stem, k, rest := MissedBy(t, parts, path);
      assert Overlooked(t, parts);
    }
    if Overlooked(t, parts) {
      var stem: seq<nat>, k: nat, rest: seq<nat> :|
        |stem| < |parts| && SpelledBy(t, stem, parts[..|stem|]) && LeadsOn(t, parts, stem, k, rest);
      OverlookedSpells(t, parts, stem, k, rest);
      assert Spells(t, stem + [k] + rest, parts);
    }
  }

  lemma {:induction false} MissedBy(t: Tree, parts: seq<string>, path: seq<nat>)
    returns (stem: seq<nat>, k: nat, rest: seq<nat>)
    requires Locate(t, parts) == Err(NoNode) && Spells(t, path, parts)
    ensures |stem| < |parts| && SpelledBy(t, stem, parts[..|stem|]) && LeadsOn(t, parts, stem, k, rest)
    decreases |parts|
  {
    hide IsNamed, FirstNamed, ChildIndex;
    FirstNamedIff(t.children, path[0], parts[0]);
    if ChildIndex(t.children, parts[0]) == path[0] {
      var below := t.children[path[0]];
      var s;
      s, k, rest := MissedBy(below, parts[1..], path[1..]);
      stem := [path[0]] + s;
      LeadsOnStep(t, parts, path[0], s, k, rest);
      SpelledStep(t, stem, parts[..|stem|]);
      assert stem[1..] == s && parts[..|stem|][1..] == parts[1..][..|s|];
    } else {
      stem, k, rest := [], path[0], path[1..];
      assert parts[0 + 1..] == parts[1..] && NodeAt(t, stem) == t;
    }
  }

  lemma LeadsOnStep(t: Tree, parts: seq<string>, i: nat, stem: seq<nat>, k: nat, rest: seq<nat>)
    requires parts != [] && i < |t.children|
    ensures LeadsOn(t, parts, [i] + stem, k, rest) <==> LeadsOn(t.children[i], parts[1..], stem, k, rest)
  {
    hide IsNamed, FirstNamed, Spells;
    var path := [i] + stem;
    assert path[1..] == stem;
    if |path| < |parts| {
      assert parts[1..][|stem|] == parts[|path|] && parts[1..][|stem| + 1..] == parts[|path| + 1..];
      assert ValidPath(t, path) ==> NodeAt(t, path) == NodeAt(t.children[i], stem);
    }
  }

  lemma {:induction false} OverlookedSpells(t: Tree, parts: seq<string>, stem: seq<nat>, k: nat, rest: seq<nat>)
    requires |stem| < |parts| && SpelledBy(t, stem, parts[..|stem|]) && LeadsOn(t, parts, stem, k, rest)
    ensures Spells(t, stem + [k] + rest, parts)
    decreases |stem|
  {
    hide IsNamed;
    var path := stem + [k] + rest;
    if stem == [] {
      assert path[1..] == rest && NodeAt(t, stem) == t && parts[0 + 1..] == parts[1..];
    } else {
      SpelledStep(t, stem, parts[..|stem|]);
      assert [stem[0]] + stem[1..] == stem;
      LeadsOnStep(t, parts, stem[0], stem[1..], k, rest);
      assert parts[..|stem|][1..] == parts[1..][..|stem| - 1] && parts[..|stem|][0] == parts[0];
      OverlookedSpells(t.children[stem[0]], parts[1..], stem[1..], k, rest);
      assert path[1..] == stem[1..] + [k] + rest && path[0] == stem[0];
    }
  }

  /** A node of this name. */
  function Called(name: string, children: seq<Tree>): Tree {
    Tree([Prop(KEY_NAME, false, Encode(name) + [0])], children)
  }

  lemma CalledIsNamed(name: string, children: seq<Tree>, other: string)
    requires forall i :: 0 <= i < |name| ==> name[i] != '\0'
    ensures IsNamed(Called(name, children), other) <==> other == name
  {
    hide Encode, DecodeReplacing;
    NulFree(name);
    TextRoundTrip(name);
    var value := Encode(name) + [0];
    ReadsAsIff(value, other);
    assert value[..|Encode(name)|] == Encode(name);
    assert ReadsAs(value, name);
    ReadsAsIff(value, name);
    assert Called(name, children).props[0].value == value;
  }

  /** With two siblings of one name, `find` follows the first into a dead end and gives up, although the
      second leads to a node of the names asked for. */
  lemma FirstSiblingHides()
    ensures var t := Tree([], [Called("a", []), Called("a", [Called("b", [])])]);
            Locate(t, ["a", "b"]) == Err(NoNode) && Spells(t, [1, 0], ["a", "b"])
  {
    hide Called, IsNamed;
    var last := Called("b", []);
    var one, two := Called("a", []), Called("a", [last]);
    var t := Tree([], [one, two]);
    CalledIsNamed("a", [], "a");
    CalledIsNamed("a", [last], "a");
    CalledIsNamed("b", [], "b");
    CalledChildren("a", []);
    CalledChildren("a", [last]);
    var parts := ["a", "b"];
    assert parts[1..] == ["b"] && [1, 0][1..] == [0] && ["b"][1..] == [] && [0][1..] == [];
    assert Spells(last, [], []);
    assert Spells(two, [0], ["b"]);
    assert FirstNamed(t.children, 0, "a");
    assert t.children[0] == one;
    SpelledStep(t, [0], ["a"]);
    assert StuckAt(t, parts, [0]) by {
      assert parts[..1] == ["a"] && SpelledBy(one, [0][1..], ["a"][1..]);
      assert NodeAt(t, [0]) == one;
    }
    NoNodeIff(t, parts);
  }

  lemma CalledChildren(name: string, children: seq<Tree>)
    ensures Called(name, children).children == children
  {
  }
}
