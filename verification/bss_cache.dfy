/** The order of MAC addresses: the first differing byte decides. */
module MacOrder {
  import opened RedBlack

  function Compare(a: Key, b: Key): int {
    if a == [] && b == [] then 0
    else if a == [] then -1
    else if b == [] then 1
    else if a[0] < b[0] then -1
    else if a[0] > b[0] then 1
    else Compare(a[1..], b[1..])
  }

  /** a comes before b: at the first place where they differ, a has the lower byte, or a ends there. */
  ghost predicate Lower(a: Key, b: Key) {
    || (exists k :: 0 <= k < |a| && k < |b| && a[..k] == b[..k] && a[k] < b[k])
    || (|a| < |b| && a == b[..|a|])
  }

  /** The comparison is negative exactly for the lower of two addresses. */
  lemma {:induction false} CompareIsLower(a: Key, b: Key)
    ensures Compare(a, b) < 0 <==> Lower(a, b)
  {
    if a != [] && b != [] {
      CompareIsLower(a[1..], b[1..]);
      LowerStep(a, b);
    }
  }

  lemma LowerStep(a: Key, b: Key)
    requires a != [] && b != []
    ensures Lower(a, b) <==> a[0] < b[0] || (a[0] == b[0] && Lower(a[1..], b[1..]))
  {
    PrefixStep(a, b);
    if a[0] < b[0] { assert a[..0] == b[..0]; }
    if k :| 0 <= k < |a| && k < |b| && a[..k] == b[..k] && a[k] < b[k] {
      if k > 0 { DiffersInRest(a, b, k); }
    }
    if k :| a[0] == b[0] && 0 <= k < |a[1..]| && k < |b[1..]| && a[1..][..k] == b[1..][..k] && a[1..][k] < b[1..][k] {
      DiffersInWhole(a, b, k);
    }
  }

  lemma DiffersInRest(a: Key, b: Key, k: nat)
    requires 0 < k < |a| && k < |b| && a[..k] == b[..k] && a[k] < b[k]
    ensures a[0] == b[0] && Lower(a[1..], b[1..])
  {
    assert a[..k][0] == b[..k][0];
    assert a[1..][..k - 1] == a[..k][1..] && b[1..][..k - 1] == b[..k][1..];
    assert a[1..][k - 1] < b[1..][k - 1];
  }

  lemma DiffersInWhole(a: Key, b: Key, k: nat)
    requires a != [] && b != [] && a[0] == b[0] && k < |a[1..]| && k < |b[1..]|
    requires a[1..][..k] == b[1..][..k] && a[1..][k] < b[1..][k]
    ensures Lower(a, b)
  {
    assert a[..k + 1] == [a[0]] + a[1..][..k] && b[..k + 1] == [b[0]] + b[1..][..k];
    assert a[k + 1] < b[k + 1];
  }

  lemma PrefixStep(a: Key, b: Key)
    requires a != [] && b != []
    ensures |a| < |b| && a == b[..|a|] <==> a[0] == b[0] && |a[1..]| < |b[1..]| && a[1..] == b[1..][..|a[1..]|]
  {
    if |a| < |b| {
      assert b[..|a|][1..] == b[1..][..|a[1..]|] && b[..|a|] == [b[0]] + b[..|a|][1..];
      assert a == [a[0]] + a[1..];
    }
  }

  lemma SignsAreOrder(a: Key, b: Key)
    ensures (Compare(a, b) < 0 <==> Lower(a, b)) && (Compare(a, b) == 0 <==> a == b) && (Compare(a, b) > 0 <==> Lower(b, a))
  {
    hide Compare, Lower;
    CompareIsLower(a, b);
    CompareIsLower(b, a);
    CompareFlips(a, b);
    CompareEqual(a, b);
  }

  method CompareBytes(a: array<int>, b: array<int>) returns (r: int)
    requires a.Length == b.Length
    ensures r == Compare(a[..], b[..])
    ensures (r < 0 <==> Lower(a[..], b[..])) && (r == 0 <==> a[..] == b[..]) && (r > 0 <==> Lower(b[..], a[..]))
  {
    hide Lower;
    SignsAreOrder(a[..], b[..]);
    for i := 0 to a.Length
      invariant Compare(a[i..], b[i..]) == Compare(a[..], b[..])
    {
      if a[i] < b[i] {
        return -1;
      }
      if a[i] > b[i] {
        return 1;
      }
    }
    return 0;
  }

  lemma {:induction false} CompareEqual(a: Key, b: Key)
    ensures Compare(a, b) == 0 <==> a == b
  {
    if a != [] && b != [] {
      CompareEqual(a[1..], b[1..]);
      assert a == [a[0]] + a[1..] && b == [b[0]] + b[1..];
    }
  }

  lemma {:induction false} CompareFlips(a: Key, b: Key)
    ensures Compare(a, b) == -Compare(b, a) && -1 <= Compare(a, b) <= 1
  {
    if a != [] && b != [] { CompareFlips(a[1..], b[1..]); }
  }

  lemma {:induction false} CompareTransitive(a: Key, b: Key, c: Key)
    requires Compare(a, b) <= 0 && Compare(b, c) <= 0
    ensures Compare(a, c) <= 0
  {
    if a != [] && b != [] && c != [] && a[0] == b[0] == c[0] { CompareTransitive(a[1..], b[1..], c[1..]); }
  }

  lemma CompareIsTotalOrder()
    ensures TotalOrder(Compare)
  {
    forall a, b ensures -1 <= Compare(a, b) <= 1 && Compare(a, b) == -Compare(b, a) { CompareFlips(a, b); }
    forall a, b, c | Compare(a, b) <= 0 && Compare(b, c) <= 0 ensures Compare(a, c) <= 0 { CompareTransitive(a, b, c); }
  }
}

/** The cache of access points, indexed by MAC address, and the references it keeps on them. */
module BssCaches {
  import opened RedBlack
  import opened RbTrees
  import opened MacOrder

  class AccessPoint {
    const mac: Key
    const node: Node
    var refcount: int
    var inactive: bool        // freed by the last release
    ghost var holders: nat    // references handed out and not yet released

    constructor (mac: Key)
      ensures this.mac == mac && refcount == 1 && holders == 1 && !inactive
      ensures fresh(node) && node.key == mac
    {
      this.mac := mac;
      var n := new Node(mac);
      node := n;
      refcount := 1;
      holders := 1;
      inactive := false;
    }

    method Hold()
      modifies `refcount
      ensures refcount == old(refcount) + 1
    {
      refcount := refcount + 1;
    }

    method Release()
      requires refcount > 0
      modifies `refcount, `inactive
      ensures refcount == old(refcount) - 1
      ensures inactive == (old(inactive) || refcount == 0)
    {
      refcount := refcount - 1;
      if refcount == 0 {
        inactive := true;
      }
    }
  }

  lemma AscendingInsert(s: seq<Node>, k: nat, node: Node)
    requires Ascending(s, Compare) && k <= |s|
    requires forall i :: 0 <= i < k ==> Compare(s[i].key, node.key) < 0
    requires forall i :: k <= i < |s| ==> Compare(node.key, s[i].key) < 0
    ensures Ascending(s[..k] + [node] + s[k..], Compare)
  {
  }

  lemma AscendingWithout(s: seq<Node>, i: nat)
    requires Ascending(s, Compare) && i < |s|
    ensures Ascending(s[..i] + s[i + 1..], Compare)
  {
    var r := s[..i] + s[i + 1..];
    assert forall j :: 0 <= j < |r| ==> r[j] == s[if j < i then j else j + 1];
  }

  lemma SplitsForKey(s: seq<Node>, key: Key)
    requires Ascending(s, Compare)
    ensures Ordered(s, Compare, key) && Splits(s, GoesAfter(Compare, key))
  {
    CompareIsTotalOrder();
    AscendingIsOrdered(s, Compare, key);
  }

  lemma InsertKeepsAscending(t: Tree, node: Node)
    requires Ascending(InOrder(t), Compare)
    requires forall i :: 0 <= i < |InOrder(t)| ==> InOrder(t)[i].key != node.key
    ensures var t' := RedBlack.Insert(t, node, GoesAfter(Compare, node.key));
      Ascending(InOrder(t'), Compare) && |InOrder(t')| == |InOrder(t)| + 1
  {
    var before, s := GoesAfter(Compare, node.key), InOrder(t);
    SplitsForKey(s, node.key);
    var k := InsertInOrder(t, node, before);
    forall i | 0 <= i < |s|
      ensures if i < k then Compare(s[i].key, node.key) < 0 else Compare(node.key, s[i].key) < 0
    {
      CompareEqual(node.key, s[i].key);
      CompareFlips(node.key, s[i].key);
      assert if i < k then before(s[..k][i]) else !before(s[k..][i - k]);
    }
    AscendingInsert(s, k, node);
  }

  /** A set of linked nodes, with the access points they are part of, means a map by address. */
  ghost predicate Means(nodes: set<Node>, container: map<Node, AccessPoint>, contents: map<Key, AccessPoint>) {
    && container.Keys == nodes
    && (forall n :: n in container ==> container[n].node == n && container[n].mac == n.key)
    && (forall n :: n in container ==> n.key in contents && contents[n.key] == container[n])
    && (forall k :: k in contents ==> contents[k].node in container && contents[k].node.key == k)
  }

  lemma MeansInsert(nodes: set<Node>, container: map<Node, AccessPoint>, contents: map<Key, AccessPoint>, ap: AccessPoint)
    requires Means(nodes, container, contents) && ap.mac !in contents && ap.node.key == ap.mac
    ensures Means(nodes + {ap.node}, container[ap.node := ap], contents[ap.mac := ap])
  {
  }

  /** Live, with this many references from the cache besides those handed out. */
  ghost predicate Counted(ap: AccessPoint, cached: nat)
    reads ap
  {
    ap.refcount == cached + ap.holders && !ap.inactive
  }

  /** Out of the cache: freed exactly when no references are left. */
  ghost predicate Counted'(ap: AccessPoint, holders: nat)
    reads ap
  {
    ap.refcount == holders && (ap.inactive <==> holders == 0)
  }

  class BssCache {
    const tree: RbTree
    var entryCount: nat
    var container: map<Node, AccessPoint>     // container_of, for the nodes in the tree
    ghost var contents: map<Key, AccessPoint> // what the cache means

    ghost predicate Valid()
      reads this, tree, Nodes(tree.tree), container.Values
    {
      && tree.Valid()
      && Ascending(InOrder(tree.tree), Compare)
      && Means(Nodes(tree.tree), container, contents)
      && entryCount == |InOrder(tree.tree)|
      && forall n :: n in container ==> Counted(container[n], 1)
    }

    constructor ()
      ensures Valid() && fresh(tree) && contents == map[] && entryCount == 0
    {
      tree := new RbTree();
      entryCount := 0;
      container := map[];
      contents := map[];
    }

    /** Nodes are found by key: lookup in the tree is lookup in the contents. */
    method Search(mac: Key) returns (node: Node?)
      requires Valid()
      ensures node == null <==> mac !in contents
      ensures node != null ==> node in container && container[node] == contents[mac]
    {
      ghost var s := InOrder(tree.tree);
      SplitsForKey(s, mac);
      NodesAreInOrder(tree.tree);
      ghost var steps;
      node, steps := tree.Lookup(mac, Compare);
      if node != null {
        CompareEqual(mac, node.key);
      } else if mac in contents {
        ghost var n := contents[mac].node;
        assert n in s;
        CompareEqual(mac, n.key);
      }
    }

    lemma KeysAreContents(mac: Key)
      requires Valid()
      ensures mac in contents <==> exists i :: 0 <= i < |InOrder(tree.tree)| && InOrder(tree.tree)[i].key == mac
    {
      var s := InOrder(tree.tree);
      NodesAreInOrder(tree.tree);
      if mac in contents {
        assert contents[mac].node in s;
      }
      if i :| 0 <= i < |s| && s[i].key == mac {
        assert s[i] in container;
      }
    }

    method Insert(ap: AccessPoint)
      requires Valid() && ap.node.key == ap.mac
      requires Counted(ap, if ap.mac in contents && contents[ap.mac] == ap then 1 else 0)
      modifies this, tree, tree.region, ap.node, ap`refcount
      ensures Valid()
      ensures contents == if ap.mac in old(contents) then old(contents) else old(contents)[ap.mac := ap]
      ensures ap.refcount == old(ap.refcount) + if ap.mac in old(contents) then 0 else 1
    {
      var node := Search(ap.mac);
      if node != null {
        return;
      }
      LinkNode(ap.node);
      Record(ap);
    }

    method Record(ap: AccessPoint)
      requires tree.Valid() && Ascending(InOrder(tree.tree), Compare) && |InOrder(tree.tree)| == entryCount + 1
      requires Nodes(tree.tree) == container.Keys + {ap.node} && Means(container.Keys, container, contents)
      requires ap.mac !in contents && ap.node.key == ap.mac && Counted(ap, 0)
      requires forall n :: n in container ==> Counted(container[n], 1)
      modifies this, ap`refcount
      ensures Valid() && contents == old(contents)[ap.mac := ap] && ap.refcount == old(ap.refcount) + 1
    {
      hide RbTree.Valid, InOrder, Nodes;
      MeansInsert(container.Keys, container, contents, ap);
      ap.Hold();
      container := container[ap.node := ap];
      contents := contents[ap.mac := ap];
      entryCount := entryCount + 1;
    }

    method LinkNode(node: Node)
      requires Valid() && node.key !in contents
      modifies tree, tree.region, node
      ensures tree.Valid() && Ascending(InOrder(tree.tree), Compare)
      ensures Nodes(tree.tree) == old(Nodes(tree.tree)) + {node} && |InOrder(tree.tree)| == old(|InOrder(tree.tree)|) + 1
    {
      KeysAreContents(node.key);
      InsertKeepsAscending(tree.tree, node);
      InsertNodes(tree.tree, node, GoesAfter(Compare, node.key));
      ghost var steps := tree.Insert(node, Compare);
    }

    /** Hand out a reference to a cached access point. */
    method Give(node: Node) returns (ap: AccessPoint)
      requires Valid() && node in container
      modifies container[node]
      ensures Valid() && ap == container[node] && ap.holders == old(ap.holders) + 1
    {
      hide RbTree.Valid, InOrder, Nodes;
      ap := container[node];
      ap.Hold();
      ap.holders := ap.holders + 1;
    }

    method Find(mac: Key) returns (ap: AccessPoint?)
      requires Valid()
      modifies container.Values
      ensures Valid()
      ensures if mac in contents then ap == contents[mac] && ap.holders == old(contents[mac].holders) + 1 else ap == null
      ensures forall k :: k in contents && k != mac ==> unchanged(contents[k])
    {
      var node := Search(mac);
      if node == null {
        return null;
      }
      ap := Give(node);
    }

    /** A holder gives back its reference to a cached access point: the cache still has its own. */
    method GiveBack(ap: AccessPoint)
      requires Valid() && ap in container.Values && ap.holders > 0
      modifies ap
      ensures Valid() && ap.holders == old(ap.holders) - 1 && !ap.inactive
    {
      hide RbTree.Valid, InOrder, Nodes, Ascending;
      ReleaseHeld(ap, 1);
    }

    /** Take one node out: the tree, the count, and then the cache's reference. */
    method Drop(node: Node) returns (ap: AccessPoint)
      requires Valid() && node in container
      modifies this, tree, tree.region, container[node]
      ensures Valid() && ap == old(container[node]) && container == old(container) - {node}
      ensures contents == old(contents) - {node.key}
      ensures InOrder(tree.tree) == Without(old(InOrder(tree.tree)), node)
      ensures Counted'(ap, old(ap.holders)) && ap.holders == old(ap.holders)
      ensures tree.region == old(tree.region)
    {
      ap := container[node];
      UnlinkNode(node);
      Forget(node, ap);
    }

    method UnlinkNode(node: Node)
      requires Valid() && node in container
      modifies tree, tree.region
      ensures tree.Valid() && Ascending(InOrder(tree.tree), Compare) && tree.region == old(tree.region)
      ensures InOrder(tree.tree) == Without(old(InOrder(tree.tree)), node)
      ensures Nodes(tree.tree) == old(Nodes(tree.tree)) - {node} && |InOrder(tree.tree)| == old(|InOrder(tree.tree)|) - 1
    {
      ghost var s := InOrder(tree.tree);
      NodesAreInOrder(tree.tree);
      ghost var i :| 0 <= i < |s| && s[i] == node;
      DistinctInOrder(tree.tree);
      WithoutAt(s, i);
      AscendingWithout(s, i);
      tree.Remove(node);
    }

    method Forget(node: Node, ap: AccessPoint)
      requires tree.Valid() && Ascending(InOrder(tree.tree), Compare) && |InOrder(tree.tree)| == entryCount - 1
      requires node in container && ap == container[node]
      requires Nodes(tree.tree) == container.Keys - {node} && Means(container.Keys, container, contents)
      requires forall n :: n in container ==> Counted(container[n], 1)
      modifies this, ap
      ensures Valid() && container == old(container) - {node} && contents == old(contents) - {node.key}
      ensures Counted'(ap, old(ap.holders)) && ap.holders == old(ap.holders)
    {
      hide RbTree.Valid, InOrder, Nodes;
      entryCount := entryCount - 1;
      container := container - {node};
      contents := contents - {node.key};
      ap.Release();
    }

    method Remove(mac: Key)
      requires Valid()
      modifies this, tree, tree.region, container.Values
      ensures Valid() && contents == old(contents) - {mac}
      ensures mac in old(contents) ==>
        var ap := old(contents)[mac]; Counted'(ap, old(ap.holders)) && ap.holders == old(ap.holders)
      ensures forall k :: k in old(contents) && k != mac ==> unchanged(old(contents)[k])
    {
      var node := Search(mac);
      if node == null {
        return;
      }
      var ap := Drop(node);
    }

    method FirstNode() returns (node: Node?)
      requires Valid()
      ensures node == At(InOrder(tree.tree), 0)
    {
      LeafOrNot();
      if tree.root == null {
        node := null;
      } else {
        node := tree.FirstNode();
      }
    }

    lemma LeafOrNot()
      requires Valid()
      ensures tree.root == null <==> InOrder(tree.tree) == []
    {
    }

    method Successor(node: Node, ghost i: nat) returns (next: Node?)
      requires Valid() && i < |InOrder(tree.tree)| && InOrder(tree.tree)[i] == node
      ensures node in container && next == At(InOrder(tree.tree), i + 1)
    {
      NodesAreInOrder(tree.tree);
      assert node in InOrder(tree.tree);
      next := tree.Successor(node);
      DistinctInOrder(tree.tree);
      FollowsUnique(InOrder(tree.tree), i, next);
    }

    lemma ContainerIsOrder()
      requires Valid()
      ensures (forall n :: n in container <==> n in InOrder(tree.tree)) && entryCount == |InOrder(tree.tree)|
    {
      NodesAreInOrder(tree.tree);
    }

    lemma OrderIsDistinct()
      requires Valid()
      ensures NoDuplicates(InOrder(tree.tree))
    {
      DistinctInOrder(tree.tree);
    }

    /** What holds during a purge of the access points `all`, given the reference counts they had:
        one is gone from the cache only if its count was 1, and then it has been freed. */
    ghost predicate Purging(all: map<Node, AccessPoint>, counts: map<Node, int>)
      reads this, all.Values
    {
      && counts.Keys == all.Keys && (forall n :: n in all ==> all[n].node == n)
      && (forall n :: n in container ==> n in all && container[n] == all[n] && all[n].refcount == counts[n])
      && (forall n :: n in all && n !in container ==> counts[n] == 1 && Counted'(all[n], 0))
    }

    method DropIfUnused(current: Node, ghost all: map<Node, AccessPoint>, ghost counts: map<Node, int>) returns (ghost kept: bool)
      requires Valid() && Purging(all, counts) && current in container
      modifies this, tree, tree.region, container[current]
      ensures Valid() && Purging(all, counts) && tree.region == old(tree.region)
      ensures kept == (counts[current] != 1)
      ensures InOrder(tree.tree) == if kept then old(InOrder(tree.tree)) else Without(old(InOrder(tree.tree)), current)
    {
      hide RbTree.Valid, InOrder, Nodes;
      var ap := container[current];
      kept := ap.refcount != 1;
      if ap.refcount == 1 {
        ap := Drop(current);
        assert forall n :: n in all && n != current ==> all[n] != ap;
      }
    }

    static ghost predicate Survivors(s: seq<Node>, i: nat, counts: map<Node, int>) {
      i <= |s| && forall j :: 0 <= j < i ==> s[j] in counts && counts[s[j]] != 1
    }

    /** The node after the current one is still next, whether the current one stays or goes. */
    static lemma PurgeMovesOn(s: seq<Node>, i: nat, counts: map<Node, int>, kept: bool)
      requires i < |s| && Survivors(s, i, counts) && NoDuplicates(s) && s[i] in counts && kept == (counts[s[i]] != 1)
      ensures var s', j := if kept then s else Without(s, s[i]), if kept then i + 1 else i;
        At(s', j) == At(s, i + 1) && Survivors(s', j, counts) && |s'| - j < |s| - i
    {
      WithoutAt(s, i);
    }

    /** One turn of the purge: the successor is fetched first, then the node is dropped if only the
        cache refers to its access point.  Either way the walk goes on where the successor now is. */
    method PurgeStep(current: Node, ghost i: nat, ghost all: map<Node, AccessPoint>, ghost counts: map<Node, int>)
      returns (next: Node?, ghost j: nat)
      requires Valid() && Purging(all, counts) && At(InOrder(tree.tree), i) == current && Survivors(InOrder(tree.tree), i, counts)
      modifies this, tree, tree.region, container.Values
      ensures Valid() && Purging(all, counts) && tree.region == old(tree.region)
      ensures At(InOrder(tree.tree), j) == next && Survivors(InOrder(tree.tree), j, counts)
      ensures |InOrder(tree.tree)| - j < old(|InOrder(tree.tree)|) - i
    {
      hide RbTree.Valid, InOrder, Nodes, Without, Survivors;
      OrderIsDistinct();
      ghost var s := InOrder(tree.tree);
      next := Successor(current, i);
      ghost var kept := DropIfUnused(current, all, counts);
      j := if kept then i + 1 else i;
      PurgeMovesOn(s, i, counts, kept);
    }

    method PurgeAll(ghost all: map<Node, AccessPoint>, ghost counts: map<Node, int>)
      requires Valid() && Purging(all, counts) && container == all
      modifies this, tree, tree.region, container.Values
      ensures Valid() && Purging(all, counts) && forall n :: n in container ==> counts[n] != 1
    {
      hide RbTree.Valid, InOrder, Nodes, Ascending;
      ghost var i := PurgeWalk(all, counts);
      ContainerIsOrder();
    }

    /** The walk leaves survivors up to where it ends, which is the end. */
    method PurgeWalk(ghost all: map<Node, AccessPoint>, ghost counts: map<Node, int>) returns (ghost i: nat)
      requires Valid() && Purging(all, counts) && container == all
      modifies this, tree, tree.region, container.Values
      ensures Valid() && Purging(all, counts) && Survivors(InOrder(tree.tree), i, counts) && At(InOrder(tree.tree), i) == null
    {
      hide RbTree.Valid, InOrder, Nodes, Survivors;
      i := 0;
      var current := FirstNode();
      NothingSurvivesYet(InOrder(tree.tree), counts);
      while current != null
        invariant Valid() && Purging(all, counts) && tree.region == old(tree.region)
        invariant At(InOrder(tree.tree), i) == current && Survivors(InOrder(tree.tree), i, counts)
        decreases |InOrder(tree.tree)| - i
      {
        current, i := PurgeStep(current, i, all, counts);
      }
    }

    static lemma NothingSurvivesYet(s: seq<Node>, counts: map<Node, int>)
      ensures Survivors(s, 0, counts)
    {
    }

    /** Drop every access point that only the cache refers to, and no other. */
    method Purge()
      requires Valid()
      modifies this, tree, tree.region, container.Values
      ensures Valid()
      ensures forall n :: n in container <==> n in old(container) && old(container[n].refcount) != 1
      ensures forall n :: n in old(container) ==>
        var ap := old(container)[n];
        if n in container then container[n] == ap && ap.refcount == old(ap.refcount) else Counted'(ap, 0)
      ensures forall k :: k in contents <==> k in old(contents) && old(contents[k].refcount) != 1
      ensures forall k :: k in contents ==> contents[k] == old(contents)[k]
    {
      hide RbTree.Valid, InOrder, Nodes, Ascending;
      PurgeAll(container, map n | n in container :: container[n].refcount);
    }

    ghost predicate Draining(all: map<Node, AccessPoint>, holders: map<Node, nat>)
      reads this, all.Values
    {
      && holders.Keys == all.Keys && (forall n :: n in all ==> all[n].node == n && all[n].holders == holders[n])
      && (forall n :: n in container ==> n in all && container[n] == all[n])
      && (forall n :: n in all && n !in container ==> Counted'(all[n], holders[n]))
    }

    method DrainOne(current: Node, ghost all: map<Node, AccessPoint>, ghost holders: map<Node, nat>)
      requires Valid() && Draining(all, holders) && current in container
      modifies this, tree, tree.region, container[current]
      ensures Valid() && Draining(all, holders) && tree.region == old(tree.region)
      ensures InOrder(tree.tree) == Without(old(InOrder(tree.tree)), current)
    {
      hide RbTree.Valid, InOrder, Nodes, Ascending, Means;
      var ap := Drop(current);
      assert forall n :: n in all && n != current ==> all[n] != ap;
    }

    static lemma FirstGone(s: seq<Node>)
      requires s != [] && NoDuplicates(s)
      ensures At(Without(s, s[0]), 0) == At(s, 1) && |Without(s, s[0])| < |s|
    {
      WithoutAt(s, 0);
    }

    method DrainStep(current: Node, ghost all: map<Node, AccessPoint>, ghost holders: map<Node, nat>) returns (next: Node?)
      requires Valid() && Draining(all, holders) && At(InOrder(tree.tree), 0) == current
      modifies this, tree, tree.region, container.Values
      ensures Valid() && Draining(all, holders) && tree.region == old(tree.region)
      ensures next == At(InOrder(tree.tree), 0) && |InOrder(tree.tree)| < old(|InOrder(tree.tree)|)
    {
      hide RbTree.Valid, InOrder, Nodes;
      OrderIsDistinct();
      FirstGone(InOrder(tree.tree));
      next := Successor(current, 0);
      DrainOne(current, all, holders);
    }

    method DrainAll(ghost all: map<Node, AccessPoint>, ghost holders: map<Node, nat>)
      requires Valid() && Draining(all, holders) && container == all
      modifies this, tree, tree.region, container.Values
      ensures Valid() && Draining(all, holders) && InOrder(tree.tree) == []
    {
      hide RbTree.Valid, InOrder, Nodes;
      var current := FirstNode();
      while current != null
        invariant Valid() && Draining(all, holders) && tree.region == old(tree.region)
        invariant At(InOrder(tree.tree), 0) == current
        decreases |InOrder(tree.tree)|
      {
        current := DrainStep(current, all, holders);
      }
    }

    /** Empty the cache; each access point loses the cache's reference once. */
    method Deinit()
      requires Valid()
      modifies this, tree, tree.region, container.Values
      ensures Valid() && contents == map[] && entryCount == 0
      ensures forall n :: n in old(container) ==>
        var ap := old(container)[n]; Counted'(ap, old(ap.holders)) && ap.holders == old(ap.holders)
    {
      DrainAll(container, map n | n in container :: container[n].holders);
      NodesAreInOrder(tree.tree);
      tree.root := null;
    }

    /** The first access points of s are in the buffer, each with one more reference handed out. */
    ghost predicate HandedOut(s: seq<Node>, buffer: seq<AccessPoint?>, count: nat, holders: map<Node, nat>)
      reads this, container.Values
      requires count <= |s| && count <= |buffer|
    {
      && holders.Keys == container.Keys
      && (forall i :: 0 <= i < count ==> s[i] in container && buffer[i] == container[s[i]])
      && (forall n :: n in container ==> container[n].holders == holders[n] + if n in s[..count] then 1 else 0)
    }

    method HandOut(node: Node, ghost s: seq<Node>, ghost buffer: seq<AccessPoint?>, ghost count: nat, ghost holders: map<Node, nat>)
      returns (ap: AccessPoint)
      requires Valid() && node in container && count < |s| && count < |buffer| && s[count] == node && NoDuplicates(s)
      requires HandedOut(s, buffer, count, holders)
      modifies container[node]
      ensures Valid() && ap == container[node] && HandedOut(s, buffer[count := ap], count + 1, holders)
    {
      hide RbTree.Valid, InOrder, Nodes;
      assert s[..count + 1] == s[..count] + [node];
      ap := Give(node);
    }

    method GetNext(current: Node, buffer: array<AccessPoint?>, count: nat, ghost holders: map<Node, nat>) returns (next: Node?)
      requires Valid() && count < buffer.Length && current == At(InOrder(tree.tree), count)
      requires HandedOut(InOrder(tree.tree), buffer[..], count, holders)
      modifies buffer, container.Values
      ensures Valid() && count + 1 <= |InOrder(tree.tree)| && next == At(InOrder(tree.tree), count + 1)
      ensures HandedOut(InOrder(tree.tree), buffer[..], count + 1, holders)
    {
      hide RbTree.Valid, InOrder, Nodes, Ascending;
      ContainerIsOrder();
      OrderIsDistinct();
      var ap := HandOut(current, InOrder(tree.tree), buffer[..], count, holders);
      Store(buffer, count, ap);
      next := Successor(current, count);
    }

    method Store(buffer: array<AccessPoint?>, i: nat, ap: AccessPoint)
      requires Valid() && i < buffer.Length
      modifies buffer
      ensures Valid() && buffer[..] == old(buffer[..])[i := ap]
    {
      hide RbTree.Valid, InOrder, Nodes;
      buffer[i] := ap;
    }

    method CopyAps(buffer: array<AccessPoint?>, ghost holders: map<Node, nat>) returns (count: nat)
      requires Valid() && HandedOut(InOrder(tree.tree), buffer[..], 0, holders)
      modifies buffer, container.Values
      ensures Valid() && count == if buffer.Length < |InOrder(tree.tree)| then buffer.Length else |InOrder(tree.tree)|
      ensures HandedOut(InOrder(tree.tree), buffer[..], count, holders)
    {
      hide RbTree.Valid, InOrder, Nodes, Ascending;
      count := 0;
      ghost var s := InOrder(tree.tree);
      var current := FirstNode();
      while current != null && count < buffer.Length
        invariant Valid() && count <= |s| && count <= buffer.Length
        invariant current == At(s, count) && HandedOut(s, buffer[..], count, holders)
      {
        current := GetNext(current, buffer, count, holders);
        count := count + 1;
      }
    }

    /** Copy out the access points in ascending address order, as far as the buffer goes, each with
        a reference for the caller: those with the lowest addresses, and no other. */
    method GetAps(buffer: array<AccessPoint?>) returns (count: nat)
      requires Valid()
      modifies buffer, container.Values
      ensures Valid() && count == if buffer.Length < |contents| then buffer.Length else |contents|
      ensures Lowest(buffer[..], count)
      ensures forall k :: k in contents ==>
        contents[k].holders == old(contents[k].holders) + if contents[k] in buffer[..count] then 1 else 0
    {
      hide RbTree.Valid, InOrder, Nodes, Ascending;
      ghost var holders := map n | n in container :: container[n].holders;
      count := CopyAps(buffer, holders);
      CountIsSize();
      ContainerIsOrder();
      CopiedAreLowest(buffer[..], count, holders);
      CopiedAreCounted(buffer[..], count, holders);
    }

    /** The first of these are cached access points in ascending order, with none in between left out. */
    ghost predicate Lowest(b: seq<AccessPoint?>, count: nat)
      reads this
    {
      && count <= |b|
      && (forall i :: 0 <= i < count ==> b[i] != null && b[i].mac in contents && contents[b[i].mac] == b[i])
      && (forall i, j :: 0 <= i < j < count ==> b[i] != null && b[j] != null && Lower(b[i].mac, b[j].mac))
      && (forall i, k :: 0 <= i < count && k in contents && contents[k] !in b[..count] ==> b[i] != null && Lower(b[i].mac, k))
    }

    lemma CopiedTogether(b: seq<AccessPoint?>, count: nat, holders: map<Node, nat>, k: Key)
      requires Valid() && count <= |InOrder(tree.tree)| && count <= |b| && HandedOut(InOrder(tree.tree), b, count, holders)
      requires k in contents
      ensures contents[k].node in InOrder(tree.tree)[..count] <==> contents[k] in b[..count]
    {
      hide RbTree.Valid, InOrder, Nodes, Ascending;
      var s := InOrder(tree.tree);
      if contents[k].node in s[..count] {
        var i :| 0 <= i < count && s[i] == contents[k].node;
        assert b[..count][i] == contents[k];
      }
      if contents[k] in b[..count] {
        var i :| 0 <= i < count && b[i] == contents[k];
        assert s[..count][i] == s[i];
      }
    }

    lemma CopiedAreCounted(b: seq<AccessPoint?>, count: nat, holders: map<Node, nat>)
      requires Valid() && count <= |InOrder(tree.tree)| && count <= |b| && HandedOut(InOrder(tree.tree), b, count, holders)
      ensures forall k :: k in contents ==>
        (contents[k].node in holders
        && contents[k].holders == holders[contents[k].node] + if contents[k] in b[..count] then 1 else 0)
    {
      hide RbTree.Valid, InOrder, Nodes, Compare;
      forall k | k in contents
        ensures contents[k].node in InOrder(tree.tree)[..count] <==> contents[k] in b[..count]
      {
        CopiedTogether(b, count, holders, k);
      }
    }

    lemma OthersAreHigher(b: seq<AccessPoint?>, count: nat, holders: map<Node, nat>, i: nat, k: Key)
      requires Valid() && count <= |InOrder(tree.tree)| && count <= |b| && HandedOut(InOrder(tree.tree), b, count, holders)
      requires i < count && k in contents && contents[k] !in b[..count]
      ensures Lower(InOrder(tree.tree)[i].key, k)
    {
      hide RbTree.Valid, InOrder, Nodes, Compare, HandedOut, Lower;
      var s := InOrder(tree.tree);
      CompareIsLower(s[i].key, k);
      ContainerIsOrder();
      CopiedTogether(b, count, holders, k);
      assert forall i :: 0 <= i < count ==> s[i] == s[..count][i];
      var j :| 0 <= j < |s| && s[j] == contents[k].node;
    }

    lemma CopiedAreLowest(b: seq<AccessPoint?>, count: nat, holders: map<Node, nat>)
      requires Valid() && count <= |InOrder(tree.tree)| && count <= |b| && HandedOut(InOrder(tree.tree), b, count, holders)
      ensures Lowest(b, count)
    {
      hide RbTree.Valid, InOrder, Nodes, Compare, Lower;
      var s := InOrder(tree.tree);
      forall i, k | 0 <= i < count && k in contents && contents[k] !in b[..count]
        ensures Lower(s[i].key, k)
      {
        OthersAreHigher(b, count, holders, i, k);
      }
      forall i, j | 0 <= i < j < count
        ensures Lower(s[i].key, s[j].key)
      {
        CompareIsLower(s[i].key, s[j].key);
      }
    }

    method GetCount() returns (count: nat)
      requires Valid()
      ensures count == |contents|
    {
      count := entryCount;
      CountIsSize();
    }

    lemma CountIsSize()
      requires Valid()
      ensures |contents| == entryCount
    {
      NodesAreInOrder(tree.tree);
      DistinctInOrder(tree.tree);
      SetSize(InOrder(tree.tree));
      assert |container| == entryCount;
      SameSize(container.Keys, contents.Keys);
    }
  }

  lemma {:induction false} SetSize(s: seq<Node>)
    requires NoDuplicates(s)
    ensures |set n | n in s| == |s|
  {
    if s != [] {
      SetSize(s[1..]);
      assert (set n | n in s) == {s[0]} + set n | n in s[1..];
    }
  }

  lemma {:induction false} SameSize(nodes: set<Node>, keys: set<Key>)
    requires forall n :: n in nodes ==> n.key in keys
    requires forall k :: k in keys ==> exists n :: n in nodes && n.key == k
    requires forall m, n :: m in nodes && n in nodes && m.key == n.key ==> m == n
    ensures |nodes| == |keys|
  {
    if nodes != {} {
      var n :| n in nodes;
      SameSize(nodes - {n}, keys - {n.key});
    } else {
      assert keys == {};
    }
  }

  /** A holder gives its reference back; the last one frees the access point, cached or not. */
  method ReleaseHeld(ap: AccessPoint, ghost cached: nat)
    requires ap.holders > 0 && Counted(ap, cached)
    modifies ap
    ensures ap.holders == old(ap.holders) - 1
    ensures if cached + ap.holders > 0 then Counted(ap, cached) else ap.inactive && ap.refcount == 0
  {
    ap.holders := ap.holders - 1;
    ap.Release();
  }
}
