/** add_provider on nodes as objects: the leaf is appended to arm-io's children in place. */
module PowerPassthroughNodes {
  import opened Results
  import opened Bytes
  import opened PowerPassthrough

  class TreeNode {
    const properties: seq<Property>
    var children: seq<TreeNode>
    /** The nodes of this subtree. */
    ghost var repr: set<TreeNode>

    ghost predicate Valid()
      reads this, repr
      decreases repr
    {
      && this in repr
      && (forall i :: 0 <= i < |children| ==> children[i] in repr && children[i].repr <= repr - {this} && children[i].Valid())
      && (forall i, j :: 0 <= i < j < |children| ==> children[i].repr !! children[j].repr)
    }

    /** The tree as a value. */
    ghost function View(): Node
      requires Valid()
      reads this, repr
      decreases repr, |children| + 1
    {
      Node(properties, Views(|children|))
    }

    ghost function Views(n: nat): (vs: seq<Node>)
      requires Valid() && n <= |children|
      ensures |vs| == n && forall i :: 0 <= i < n ==> vs[i] == children[i].View()
      reads this, repr
      decreases repr, n
    {
      if n == 0 then [] else Views(n - 1) + [children[n - 1].View()]
    }

    constructor (properties: seq<Property>)
      ensures Valid() && fresh(repr) && View() == Node(properties, [])
    {
      this.properties, children, repr := properties, [], {this};
    }

    /** The name accessor reads the properties only. */
    method Name() returns (r: Outcome<seq<byte>>)
      requires Valid()
      ensures r == NodeName(View())
    {
      r := NodeName(Node(properties, []));
    }

    /** [c for c in children if c.name == name] */
    method Find(name: seq<byte>) returns (r: Outcome<seq<nat>>)
      requires Valid()
      ensures r == FindDirectChild(View().children, name, 0)
    {
      hide FindDirectChild, NodeName, Prepended;
      ghost var vs := View().children;
      var matches: seq<nat> := [];
      NothingFound(FindDirectChild(vs, name, 0));
      for i := 0 to |children|
        invariant FindDirectChild(vs, name, 0) == Prepended(matches, FindDirectChild(vs, name, i))
      {
        var n := children[i].Name();
        FindUnfolds(vs, name, i);
        if n.Err? {
          FoundError(matches, n.error);
          return Err(n.error);
        }
        var here := if n.value == name then [i] else [];
        PrependedTwice(matches, here, FindDirectChild(vs, name, i + 1));
        matches := matches + here;
      }
      FindUnfolds(vs, name, |children|);
      FoundAll(matches);
      r := Ok(matches);
    }

    /** The leaf becomes the last child; the rest of the subtree is as it was. */
    method Append(leaf: TreeNode)
      requires Valid() && leaf.Valid() && repr !! leaf.repr
      modifies this
      ensures Valid() && repr == old(repr) + leaf.repr
      ensures View() == Node(properties, old(View()).children + [leaf.View()])
    {
      ghost var before, last := View().children, leaf.View();
      children := children + [leaf];
      repr := repr + leaf.repr;
      assert Valid();
      forall i | 0 <= i < |children|
        ensures children[i].View() == (before + [last])[i]
      {
      }
      assert Views(|children|) == before + [last];
    }
  }

  ghost function Prepended(first: seq<nat>, rest: Outcome<seq<nat>>): Outcome<seq<nat>> {
    if rest.Err? then rest else Ok(first + rest.value)
  }

  lemma NothingFound(rest: Outcome<seq<nat>>)
    ensures Prepended([], rest) == rest
  {
    if rest.Ok? {
      assert [] + rest.value == rest.value;
    }
  }

  lemma FoundError(first: seq<nat>, e: Error)
    ensures Prepended(first, Err(e)) == Err(e)
  {
  }

  lemma FoundAll(first: seq<nat>)
    ensures Prepended(first, Ok([])) == Ok(first)
  {
    assert first + [] == first;
  }

  lemma PrependedTwice(a: seq<nat>, b: seq<nat>, rest: Outcome<seq<nat>>)
    ensures Prepended(a, Prepended(b, rest)) == Prepended(a + b, rest)
  {
    if rest.Ok? {
      assert a + (b + rest.value) == a + b + rest.value;
    }
  }

  lemma FindUnfolds(ns: seq<Node>, name: seq<byte>, i: nat)
    requires i <= |ns|
    ensures i == |ns| ==> FindDirectChild(ns, name, i) == Ok([])
    ensures i < |ns| ==>
              FindDirectChild(ns, name, i) ==
              (if NodeName(ns[i]).Err? then Err(NodeName(ns[i]).error)
               else Prepended(if NodeName(ns[i]).value == name then [i] else [], FindDirectChild(ns, name, i + 1)))
  {
    hide NodeName;
  }

  /** arm_io_node and reject_existing_provider: where the leaf goes. */
  ghost function Place(tree: Node): Outcome<nat> {
    var k :- ArmIoIndex(tree);
    var _ :- RejectExistingProvider(tree.children[k]);
    Ok(k)
  }

  lemma PlaceIsAddProvider(tree: Node)
    ensures match Place(tree)
            case Err(e) => AddProvider(tree) == Err(e)
            case Ok(k) => k < |tree.children| && AddProvider(tree) == Ok(WithLeaf(tree, k))
  {
    hide ArmIoIndex, RejectExistingProvider, WithLeaf;
  }

  method FindPlace(root: TreeNode) returns (r: Outcome<nat>)
    requires root.Valid()
    ensures r == Place(root.View())
  {
    hide FindDirectChild, NodeName;
    var matches := root.Find(ARM_IO);
    if matches.Err? {
      return Err(matches.error);
    }
    if |matches.value| != 1 {
      return Err(ArmIoCount);
    }
    var k := matches.value[0];
    assert k in matches.value;
    ChildOf(root, k);
    var providers := root.children[k].Find(PROVIDER);
    if providers.Err? {
      return Err(providers.error);
    }
    if providers.value != [] {
      return Err(ProviderConflict);
    }
    r := Ok(k);
  }

  /** add_provider: the tree in memory becomes the tree the specification gives, or stays as it was. */
  method AddProviderInPlace(root: TreeNode) returns (r: Outcome<()>)
    requires root.Valid()
    modifies root.repr
    ensures root.Valid() && fresh(root.repr - old(root.repr))
    ensures match AddProvider(old(root.View()))
            case Err(e) => r == Err(e) && root.View() == old(root.View())
            case Ok(tree) => r == Ok(()) && root.View() == tree
  {
    hide AddProvider, Place, ProviderLeaf, WithLeaf;
    PlaceIsAddProvider(root.View());
    var place := FindPlace(root);
    if place.Err? {
      return Err(place.error);
    }
    ChildOf(root, place.value);
    var leaf := NewLeaf();
    Graft(root, place.value, leaf);
    r := Ok(());
  }

  lemma ChildOf(root: TreeNode, k: nat)
    requires root.Valid() && k < |root.children|
    ensures root.children[k].Valid() && root.View().children[k] == root.children[k].View()
    ensures root.children[k] in root.repr
  {
  }

  method NewLeaf() returns (leaf: TreeNode)
    ensures leaf.Valid() && fresh(leaf.repr) && leaf.View() == ProviderLeaf()
  {
    leaf := new TreeNode([StringProperty(NAME, PROVIDER), StringProperty(DEVICE_TYPE, PROVIDER)]);
  }

  /** Children of one node: each a tree of its own, all within `all`. */
  ghost predicate Forest(kids: seq<TreeNode>, all: set<TreeNode>)
    reads all
  {
    && (forall i :: 0 <= i < |kids| ==> kids[i] in all && kids[i].repr <= all && kids[i].Valid())
    && (forall i, j :: 0 <= i < j < |kids| ==> kids[i].repr !! kids[j].repr)
  }

  /** arm_io.children.append(leaf), seen from its siblings. */
  method AppendTo(kids: seq<TreeNode>, k: nat, leaf: TreeNode, ghost all: set<TreeNode>)
    requires Forest(kids, all) && k < |kids| && leaf.Valid() && all !! leaf.repr
    modifies kids[k]
    ensures Forest(kids, all + leaf.repr) && forall i :: 0 <= i < |kids| ==>
              kids[i].repr == old(kids[i].repr) + (if i == k then leaf.repr else {})
              && kids[i].View() == (if i == k then Node(kids[k].properties, old(kids[k].View()).children + [old(leaf.View())])
                                    else old(kids[i].View()))
  {
    kids[k].Append(leaf);
    forall i | 0 <= i < |kids|
      ensures kids[i].Valid()
    {
      if i != k {
        assert kids[k] in old(kids[k].repr);
      }
    }
  }

  lemma TreeOf(root: TreeNode, vs: seq<Node>)
    requires root in root.repr && Forest(root.children, root.repr - {root}) && |vs| == |root.children|
    requires forall i :: 0 <= i < |vs| ==> root.children[i].View() == vs[i]
    ensures root.Valid() && root.View() == Node(root.properties, vs)
  {
    assert root.Valid();
    assert root.Views(|vs|) == vs;
  }

  /** arm_io.children.append(leaf), seen from the root. */
  method Graft(root: TreeNode, k: nat, leaf: TreeNode)
    requires root.Valid() && k < |root.children| && leaf.Valid() && root.repr !! leaf.repr && leaf.View() == ProviderLeaf()
    modifies root, root.children[k]
    ensures root.Valid() && root.repr == old(root.repr) + leaf.repr && root.View() == WithLeaf(old(root.View()), k)
  {
    hide ProviderLeaf;
    ghost var before := root.View().children;
    var kids := root.children;
    ghost var grown := before[k := Node(before[k].properties, before[k].children + [ProviderLeaf()])];
    AppendTo(kids, k, leaf, root.repr - {root});
    root.repr := root.repr + leaf.repr;
    assert root.repr - {root} == old(root.repr) - {root} + leaf.repr;
    TreeOf(root, grown);
  }
}
