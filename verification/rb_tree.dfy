/** The linked red-black tree: rotations, insertion and removal rewrite the nodes in place,
    and each is proved to leave the heap in the shape that the functions on trees specify. */
module RbTrees {
  import opened RedBlack

  /** The nodes of t are linked in the heap exactly as t says, under the given parent. */
  ghost predicate Linked(t: Tree, parent: Node?)
    reads Nodes(t)
  {
    match t
    case Leaf => true
    case Bin(l, n, c, r) =>
      && n.left == Root(l) && n.right == Root(r) && n.parent == parent && n.red == c
      && Linked(l, n) && Linked(r, n)
  }

  /** The new key compares greater than a node's: the descent goes to its right. */
  ghost function GoesAfter(compare: (Key, Key) -> int, key: Key): Node -> bool {
    (n: Node) => compare(key, n.key) > 0
  }

  lemma TurningKeepsNodes(t: Tree)
    requires t.Bin? && Distinct(t)
    ensures t.left.Bin? ==> Distinct(RotatedRight(t)) && Nodes(RotatedRight(t)) == Nodes(t)
    ensures t.right.Bin? ==> Distinct(RotatedLeft(t)) && Nodes(RotatedLeft(t)) == Nodes(t)
  {
    assert Distinct(t.left) && Distinct(t.right);
  }

  ghost predicate AllBelow(s: seq<Node>, compare: (Key, Key) -> int, key: Key) {
    forall i :: 0 <= i < |s| ==> compare(key, s[i].key) > 0
  }

  ghost predicate AllAbove(s: seq<Node>, compare: (Key, Key) -> int, key: Key) {
    forall i :: 0 <= i < |s| ==> compare(key, s[i].key) < 0
  }

  /** The node at k, or null at the end, is the first one that the key does not exceed. */
  ghost predicate LeastNotBelow(s: seq<Node>, k: int, found: Node?, compare: (Key, Key) -> int, key: Key)
    requires 0 <= k <= |s|
  {
    && found == First(s[k..]) && AllBelow(s[..k], compare, key)
    && (found != null ==> compare(key, found.key) <= 0)
  }

  lemma OrderedAt(s: seq<Node>, k: nat, compare: (Key, Key) -> int, key: Key)
    requires k < |s| && Ordered(s, compare, key)
    ensures compare(key, s[k].key) >= 0 ==> AllBelow(s[..k], compare, key)
    ensures compare(key, s[k].key) > 0 ==> AllBelow(s[..k + 1], compare, key)
    ensures compare(key, s[k].key) <= 0 ==> AllAbove(s[k + 1..], compare, key)
    ensures compare(key, s[k].key) < 0 ==> AllAbove(s[k..], compare, key)
  {
  }

  /** One comparison tells, for everything outside the subtree it leads to, how it compares. */
  lemma DescentStep(p: Path, t: Tree, compare: (Key, Key) -> int, key: Key)
    requires t.Bin? && Ordered(InOrder(Plug(p, t)), compare, key)
    ensures compare(key, t.node.key) > 0 ==> AllBelow(Before(InRight(t.left, t.node, t.red, p)), compare, key)
    ensures compare(key, t.node.key) < 0 ==> AllAbove(After(InLeft(t.node, t.red, t.right, p)), compare, key)
    ensures compare(key, t.node.key) == 0 ==>
      AllBelow(Before(p) + InOrder(t.left), compare, key) && AllAbove(InOrder(t.right) + After(p), compare, key)
  {
    var k := PlugSplits(p, t);
    OrderedAt(InOrder(Plug(p, t)), k, compare, key);
  }

  class RbTree {
    var root: Node?
    ghost var tree: Tree
    ghost var region: set<Node>  // every node this tree has been given

    /** The nodes above a hole are linked as the path says, and the hole holds the given node. */
    ghost predicate LinkedPath(p: Path, hole: Node?)
      reads this, PathNodes(p)
    {
      match p
      case Top => root == hole
      case InLeft(n, c, r, up) =>
        && n.left == hole && n.right == Root(r) && n.parent == Parent(up) && n.red == c
        && Linked(r, n) && LinkedPath(up, n)
      case InRight(l, n, c, up) =>
        && n.left == Root(l) && n.right == hole && n.parent == Parent(up) && n.red == c
        && Linked(l, n) && LinkedPath(up, n)
    }

    /** The heap holds the tree Plug(p, t), looked at from the position between p and t. */
    ghost predicate Focus(p: Path, t: Tree)
      reads this, PathNodes(p), Nodes(t)
    {
      && LinkedPath(p, Root(t)) && Linked(t, Parent(p))
      && Separate(p, t) && PathNodes(p) <= region && Nodes(t) <= region
    }

    ghost predicate Valid()
      reads this, Nodes(tree)
    {
      Focus(Top, tree) && IsRedBlack(tree)
    }

    /** The same heap can be looked at from any position. */
    lemma {:induction false} Refocus(p: Path, t: Tree)
      ensures Focus(p, t) <==> Focus(Top, Plug(p, t))
      decreases p
    {
      PlugDistinct(p, t);
      match p
      case Top =>
      case InLeft(n, c, r, up) => Refocus(up, Bin(t, n, c, r));
      case InRight(l, n, c, up) => Refocus(up, Bin(l, n, c, t));
    }

    lemma FocusUp(p: Path, t: Tree)
      requires !p.Top?
      ensures Focus(p, t) <==> Focus(p.up, Enclose(p, t))
    {
    }

    constructor ()
      ensures Valid() && tree == Leaf
    {
      root := null;
      tree := Leaf;
      region := {};
    }

    /** Hang newChild where child hangs: in its parent, or at the root. */
    method ReplaceChild(parent: Node?, child: Node, newChild: Node?, ghost up: Path)
      requires LinkedPath(up, child) && parent == Parent(up) && PathDistinct(up) && child !in PathNodes(up)
      modifies `root, if parent == null then {} else {parent}
      ensures LinkedPath(up, newChild) && (parent != null ==> root == old(root))
    {
      if parent == null {
        root := newChild;
      } else if parent.left == child {
        parent.left := newChild;
      } else {
        parent.right := newChild;
      }
    }

    method RotateRight(node: Node, ghost up: Path, ghost t: Tree)
      requires t.Bin? && t.left.Bin? && t.left.node == node && Focus(up, t)
      modifies `root, Nodes(t), PathNodes(up)
      ensures Focus(up, RotatedRight(t)) && Nodes(RotatedRight(t)) == Nodes(t)
    {
      assert Linked(t.left, t.node);
      var parent := node.parent;
      var grandParent := parent.parent;
      ReplaceChild(grandParent, parent, node, up);
      TurnRight(node, parent, grandParent, t);
      TurningKeepsNodes(t);
    }

    method RotateLeft(node: Node, ghost up: Path, ghost t: Tree)
      requires t.Bin? && t.right.Bin? && t.right.node == node && Focus(up, t)
      modifies `root, Nodes(t), PathNodes(up)
      ensures Focus(up, RotatedLeft(t)) && Nodes(RotatedLeft(t)) == Nodes(t)
    {
      assert Linked(t.right, t.node);
      var parent := node.parent;
      var grandParent := parent.parent;
      ReplaceChild(grandParent, parent, node, up);
      TurnLeft(node, parent, grandParent, t);
      TurningKeepsNodes(t);
    }

    // The links inside the rotated subtree.

    method TurnRight(node: Node, parent: Node, grandParent: Node?, ghost t: Tree)
      requires t.Bin? && t.left.Bin? && t.left.node == node && t.node == parent
      requires Linked(t, grandParent) && Distinct(t) && Nodes(t) <= region
      modifies Nodes(t)
      ensures Linked(RotatedRight(t), grandParent)
    {
      ghost var a, b, c := t.left.left, t.left.right, t.right;
      assert Linked(t.left, parent) && Linked(c, parent);
      assert Linked(a, node) && Linked(b, node);
      var inner := PullUpRight(node, parent, grandParent);
      Adopt(inner, parent, b, node);
    }

    method TurnLeft(node: Node, parent: Node, grandParent: Node?, ghost t: Tree)
      requires t.Bin? && t.right.Bin? && t.right.node == node && t.node == parent
      requires Linked(t, grandParent) && Distinct(t) && Nodes(t) <= region
      modifies Nodes(t)
      ensures Linked(RotatedLeft(t), grandParent)
    {
      ghost var a, b, c := t.left, t.right.left, t.right.right;
      assert Linked(t.right, parent) && Linked(a, parent);
      assert Linked(b, node) && Linked(c, node);
      var inner := PullUpLeft(node, parent, grandParent);
      Adopt(inner, parent, b, node);
    }

    method PullUpRight(node: Node, parent: Node, grandParent: Node?) returns (inner: Node?)
      requires node != parent
      modifies node, parent
      ensures inner == old(node.right)
      ensures node.parent == grandParent && node.left == old(node.left) && node.right == parent && node.red == old(node.red)
      ensures parent.parent == node && parent.left == inner && parent.right == old(parent.right) && parent.red == old(parent.red)
    {
      node.parent := grandParent;
      inner := node.right;
      node.right := parent;
      parent.parent := node;
      parent.left := inner;
    }

    method PullUpLeft(node: Node, parent: Node, grandParent: Node?) returns (inner: Node?)
      requires node != parent
      modifies node, parent
      ensures inner == old(node.left)
      ensures node.parent == grandParent && node.left == parent && node.right == old(node.right) && node.red == old(node.red)
      ensures parent.parent == node && parent.left == old(parent.left) && parent.right == inner && parent.red == old(parent.red)
    {
      node.parent := grandParent;
      inner := node.left;
      node.left := parent;
      parent.parent := node;
      parent.right := inner;
    }

    /** Give a subtree, if there is one, a new parent. */
    method Adopt(child: Node?, parent: Node?, ghost t: Tree, ghost oldParent: Node?)
      requires Linked(t, oldParent) && Distinct(t) && child == Root(t) && Nodes(t) <= region
      modifies if child == null then {} else {child}
      ensures Linked(t, parent)
    {
      if child != null {
        assert Linked(t.left, child) && Linked(t.right, child);
        child.parent := parent;
      }
    }

    // ----- Insertion -----

    /** Colours, one level: the colour of the subtree's root. */
    method SetColour(node: Node, red: bool, ghost p: Path, ghost t: Tree)
      requires t.Bin? && t.node == node && Focus(p, t)
      modifies node
      ensures Focus(p, t.(red := red))
    {
      assert Linked(t.left, node) && Linked(t.right, node);
      node.red := red;
    }

    /** Red uncle: recolour parent, uncle and (unless it is the root) grandparent. */
    method RecolourStep(parent: Node, uncle: Node, grandParent: Node, ghost p: Path, ghost t: Tree)
      requires Focus(p, t) && !p.Top? && !p.up.Top? && IsRed(Sibling(p.up)) && !p.up.red
      requires parent == p.node && grandParent == p.up.node && uncle == Sibling(p.up).node
      modifies region
      ensures Focus(p.up.up, Recolour(p, t))
    {
      ghost var g, up, u := p.up, p.up.up, Sibling(p.up);
      FocusUp(p, t);
      SetColour(parent, false, g, Enclose(p, t));
      ghost var t' := Blacken(Enclose(p, t));
      FocusUp(g, t');
      ghost var q := if g.InLeft? then InRight(t', grandParent, g.red, up) else InLeft(grandParent, g.red, t', up);
      FocusUp(q, u);
      SetColour(uncle, false, q, u);
      FocusUp(q, Blacken(u));
      if grandParent.parent != null {
        SetColour(grandParent, true, up, Enclose(q, Blacken(u)));
      }
    }

    /** Black uncle: one or two rotations, then the colours of the top two. */
    method RotateStep(node0: Node, parent0: Node, grandParent: Node, ghost p: Path, ghost t: Tree)
      requires Focus(p, t) && !p.Top? && !p.up.Top? && t.Bin?
      requires node0 == t.node && parent0 == p.node && grandParent == p.up.node
      requires p.red && !p.up.red && t.red
      modifies `root, region
      ensures Focus(p.up.up, Rotate(p, t))
    {
      var node, parent := node0, parent0;
      ghost var g, up, sub := p.up, p.up.up, Enclose(p, t);
      FocusUp(p, t);
      if grandParent.left == parent && parent.right == node {
        RotateLeft(node, g, sub);
        sub := RotatedLeft(sub);
        node := parent;
        parent := grandParent.left;
      } else if grandParent.right == parent && parent.left == node {
        RotateRight(node, g, sub);
        sub := RotatedRight(sub);
        node := parent;
        parent := grandParent.right;
      }
      StraightStep(parent, grandParent, g, sub);
    }

    /** The last rotation, with parent and child on the same side. */
    method StraightStep(parent: Node, grandParent: Node, ghost g: Path, ghost sub: Tree)
      requires Focus(g, sub) && !g.Top? && sub.Bin? && parent == sub.node && grandParent == g.node
      modifies `root, region
      ensures Focus(g.up, if g.InLeft? then Bin(sub.left, parent, false, Bin(sub.right, grandParent, true, g.right))
                          else Bin(Bin(g.left, grandParent, true, sub.left), parent, false, sub.right))
    {
      ghost var up, whole := g.up, Enclose(g, sub);
      FocusUp(g, sub);
      if grandParent.left == parent {
        RotateRight(parent, up, whole);
        whole := RotatedRight(whole);
      } else {
        RotateLeft(parent, up, whole);
        whole := RotatedLeft(whole);
      }
      SetColour(parent, false, up, whole);
      whole := Blacken(whole);
      ghost var q := if g.InLeft? then InRight(whole.left, parent, false, up) else InLeft(parent, false, whole.right, up);
      ghost var t := if g.InLeft? then whole.right else whole.left;
      FocusUp(q, t);
      SetColour(grandParent, true, q, t);
      FocusUp(q, t.(red := true));
    }

    /** What the upward walk keeps: everything is sound but for a possible red-red edge above t. */
    ghost predicate Repairable(p: Path, t: Tree) {
      && t.Bin? && NoRedRed(t) && Even(t) && Fits(p, BlackHeight(t), false) && (p.Top? <==> !t.red)
    }

    /** A red parent is not the root, and its own parent is black. */
    lemma RedParentHasParent(p: Path, t: Tree)
      requires Repairable(p, t) && !p.Top? && p.red
      ensures !p.up.Top? && !p.up.red
      ensures IsRed(Sibling(p.up)) ==> Repairable(p.up.up, Recolour(p, t))
    {
      assert ColouredPath(p.up, true);
      RepairStepRedBlack(p, t);
    }

    /** Walk up from a red node, recolouring, until its parent is black or one rotation step settles it. */
    method FixUp(start: Node, ghost p0: Path, ghost t0: Tree)
      requires Focus(p0, t0) && Repairable(p0, t0) && t0.node == start
      modifies `root, region
      ensures Focus(Top, FixInsert(p0, t0))
    {
      var node := start;
      ghost var p, t := p0, t0;
      while node.parent != null && node.parent.red
        invariant Focus(p, t) && Repairable(p, t) && t.node == node
        invariant FixInsert(p, t) == FixInsert(p0, t0)
        decreases p
      {
        RedParentHasParent(p, t);
        var parent := node.parent;
        var grandParent := parent.parent;
        var uncle := if grandParent.left == parent then grandParent.right else grandParent.left;
        Uncle(p, t);
        if uncle == null || !uncle.red {
          RotateStep(node, parent, grandParent, p, t);
          Refocus(p.up.up, Rotate(p, t));
          return;
        }
        RecolourStep(parent, uncle, grandParent, p, t);
        p, t := p.up.up, Recolour(p, t);
        node := grandParent;
      }
      Refocus(p, t);
    }

    lemma Uncle(p: Path, t: Tree)
      requires Focus(p, t) && t.Bin? && !p.Top? && !p.up.Top?
      ensures var parent, g := t.node.parent, t.node.parent.parent;
        && parent == p.node && g == p.up.node
        && (if g.left == parent then g.right else g.left) == Root(Sibling(p.up))
      ensures Sibling(p.up).Bin? ==> Sibling(p.up).node.red == Sibling(p.up).red
    {
      FocusUp(p, t);
      assert LinkedPath(p.up, p.node);
    }

    method LinkLeaf(node: Node, parent: Node, right: bool, ghost p: Path)
      requires Focus(p, Leaf) && !p.Top? && p.node == parent && (right <==> p.InRight?)
      requires node in region && node !in PathNodes(p)
      modifies parent, node
      ensures Focus(p, Bin(Leaf, node, true, Leaf))
    {
      if right {
        parent.right := node;
      } else {
        parent.left := node;
      }
      node.right := null;
      node.left := null;
      node.parent := parent;
      node.red := true;
    }

    /** The loop that finds the empty place for a new node. */
    method FindPlace(node: Node, compare: (Key, Key) -> int)
      returns (parent: Node, right: bool, ghost p: Path, ghost steps: nat)
      requires Valid() && root != null
      ensures Focus(p, Leaf) && !p.Top? && p.node == parent && (right <==> p.InRight?)
      ensures p == Descend(tree, Top, GoesAfter(compare, node.key)) && Plug(p, Leaf) == tree
      ensures steps <= Height(tree)
    {
      ghost var before := GoesAfter(compare, node.key);
      parent, steps := root, 0;
      p := Top;
      ghost var t := tree;
      while true
        invariant Focus(p, t) && t.Bin? && t.node == parent
        invariant Plug(p, t) == tree && Descend(t, p, before) == Descend(tree, Top, before)
        invariant steps + Height(t) <= Height(tree)
        decreases t
      {
        right := compare(node.key, parent.key) > 0;
        steps := steps + 1;
        var next := if right then parent.right else parent.left;
        p := if right then InRight(t.left, parent, t.red, p) else InLeft(parent, t.red, t.right, p);
        t := if right then t.right else t.left;
        FocusUp(p, t);
        if next == null {
          return;
        }
        parent := next;
      }
    }

    method Insert(node: Node, compare: (Key, Key) -> int) returns (ghost steps: nat)
      requires Valid() && node !in Nodes(tree)
      modifies this, region, node
      ensures Valid() && tree == RedBlack.Insert(old(tree), node, GoesAfter(compare, node.key))
      ensures region == old(region) + {node} && steps <= Height(old(tree))
    {
      region := region + {node};
      steps := 0;
      if root == null {
        root := node;
        node.right, node.left, node.parent, node.red := null, null, null, false;
      } else {
        var parent, right;
        ghost var p;
        parent, right, p, steps := FindPlace(node, compare);
        InsertAt(node, parent, right, p);
      }
      InsertIsRedBlack(tree, node, GoesAfter(compare, node.key));
      tree := RedBlack.Insert(tree, node, GoesAfter(compare, node.key));
    }

    method InsertAt(node: Node, parent: Node, right: bool, ghost p: Path)
      requires Focus(p, Leaf) && !p.Top? && p.node == parent && (right <==> p.InRight?)
      requires IsRedBlack(Plug(p, Leaf)) && node in region && node !in Nodes(Plug(p, Leaf))
      modifies `root, region
      ensures Focus(Top, FixInsert(p, Bin(Leaf, node, true, Leaf)))
    {
      PlugNodes(p, Leaf);
      PlugRedBlack(p, Leaf);
      LinkLeaf(node, parent, right, p);
      FixUp(node, p, Bin(Leaf, node, true, Leaf));
    }

    // ----- Removal -----

    /** Look across from t to its sibling, under the same parent. */
    lemma FocusAcross(p: Path, t: Tree)
      requires !p.Top?
      ensures Focus(p, t) <==> Focus(Across(p, t), Sibling(p))
    {
      FocusUp(p, t);
      FocusUp(Across(p, t), Sibling(p));
    }

    method SetSiblingColour(sibling: Node, red: bool, ghost p: Path, ghost t: Tree)
      requires Focus(p, t) && !p.Top? && Sibling(p).Bin? && Sibling(p).node == sibling
      modifies sibling
      ensures Focus(WithSibling(p, Sibling(p).(red := red)), t)
    {
      FocusAcross(p, t);
      SetColour(sibling, red, Across(p, t), Sibling(p));
      FocusAcross(WithSibling(p, Sibling(p).(red := red)), t);
    }

    method SetParentColour(parent: Node, red: bool, ghost p: Path, ghost t: Tree)
      requires Focus(p, t) && !p.Top? && p.node == parent
      modifies parent
      ensures Focus(p.(red := red), t)
    {
      FocusUp(p, t);
      SetColour(parent, red, p.up, Enclose(p, t));
      FocusUp(p.(red := red), t);
    }

    /** Rotate the sibling above the parent; the hole's parent keeps the sibling's near child. */
    method RotateSiblingUp(sibling: Node, ghost p: Path, ghost t: Tree)
      requires Focus(p, t) && !p.Top? && Sibling(p).Bin? && Sibling(p).node == sibling && t.Bin?
      modifies `root, region
      ensures Focus(SiblingUp(p), t)
    {
      FocusUp(p, t);
      var parent := sibling.parent;
      if parent.left == sibling {
        RotateRight(sibling, p.up, Enclose(p, t));
      } else {
        RotateLeft(sibling, p.up, Enclose(p, t));
      }
      FocusUp(SiblingUp(p).up, Enclose(SiblingUp(p), t));
      FocusUp(SiblingUp(p), t);
    }

    /** Rotate the red near nephew above the sibling. */
    method RotateNephewUp(nephew: Node, sibling: Node, ghost p: Path, ghost t: Tree)
      requires Focus(p, t) && !p.Top? && Sibling(p).Bin? && Near(p).Bin?
      requires Near(p).node == nephew && Sibling(p).node == sibling
      modifies `root, region
      ensures Focus(NephewUp(p), t)
    {
      FocusAcross(p, t);
      if nephew == sibling.left {
        RotateRight(nephew, Across(p, t), Sibling(p));
      } else {
        RotateLeft(nephew, Across(p, t), Sibling(p));
      }
      FocusAcross(NephewUp(p), t);
    }

    /** The last step: the sibling, black with a red child, is rotated above the parent. */
    method Borrow(sibling0: Node, parent: Node, ghost p: Path, ghost t: Tree)
      requires Focus(p, t) && !p.Top? && t.Bin? && Sibling(p).Bin? && !Sibling(p).red && !BlackChildren(Sibling(p))
      requires sibling0 == Sibling(p).node && parent == p.node
      modifies `root, region
      ensures Focus(Borrowed(p), t)
    {
      var sibling := sibling0;
      ghost var q := p;
      Nephews(p, t);
      var close := if parent.right == sibling then sibling.left else sibling.right;
      var far := if parent.right == sibling then sibling.right else sibling.left;
      if close != null && close.red && (far == null || !far.red) {
        Straighten(close, sibling, p, t);
        q := Straightened(p);
        far := sibling;
        sibling := close;
      }
      BorrowStraight(sibling, parent, far, q, t);
    }

    /** A red near nephew becomes the sibling, and the old sibling its red far child. */
    method Straighten(close: Node, sibling: Node, ghost p: Path, ghost t: Tree)
      requires Focus(p, t) && !p.Top? && Sibling(p).Bin? && Near(p).Bin?
      requires close == Near(p).node && sibling == Sibling(p).node
      modifies `root, region
      ensures Focus(Straightened(p), t)
    {
      RotateNephewUp(close, sibling, p, t);
      ghost var q := NephewUp(p);
      SetFarColour(sibling, true, q, t);
      q := WithFar(q, true);
      SetSiblingColour(close, false, q, t);
    }

    /** A black sibling with a red far child goes above the parent and takes its colour. */
    method BorrowStraight(sibling: Node, parent: Node, far: Node, ghost p: Path, ghost t: Tree)
      requires Focus(p, t) && !p.Top? && t.Bin? && Sibling(p).Bin? && IsRed(Far(p))
      requires sibling == Sibling(p).node && parent == p.node && far == Far(p).node
      modifies `root, region
      ensures Focus(BorrowedStraight(p), t)
    {
      var red := parent.red;
      RotateSiblingUp(sibling, p, t);
      ghost var q := SiblingUp(p);
      FocusUp(q, t);
      SetParentColour(sibling, red, q.up, Enclose(q, t));
      q := q.(up := q.up.(red := p.red));
      FocusUp(q, t);
      SetParentColour(parent, false, q, t);
      q := q.(red := false);
      FocusUp(q, t);
      SetSiblingColour(far, false, q.up, Enclose(q, t));
      FocusUp(BorrowedStraight(p), t);
    }

    lemma Nephews(p: Path, t: Tree)
      requires Focus(p, t) && !p.Top? && Sibling(p).Bin?
      ensures var s := Sibling(p).node;
        && Root(Near(p)) == (if p.InLeft? then s.left else s.right)
        && Root(Far(p)) == (if p.InLeft? then s.right else s.left)
        && s.red == Sibling(p).red && p.node.red == p.red
        && (p.node.right == s <==> p.InLeft?) && (p.node.left == s <==> p.InRight?)
      ensures Near(p).Bin? ==> Near(p).node.red == Near(p).red
      ensures Far(p).Bin? ==> Far(p).node.red == Far(p).red
    {
      FocusAcross(p, t);
      assert Linked(Near(p), Sibling(p).node) && Linked(Far(p), Sibling(p).node);
    }

    method SetFarColour(far: Node, red: bool, ghost p: Path, ghost t: Tree)
      requires Focus(p, t) && !p.Top? && Sibling(p).Bin? && Far(p).Bin? && Far(p).node == far
      modifies far
      ensures Focus(WithFar(p, red), t)
    {
      ghost var s := Sibling(p);
      FocusAcross(p, t);
      ghost var q := if p.InLeft? then InRight(s.left, s.node, s.red, Across(p, t)) else InLeft(s.node, s.red, s.right, Across(p, t));
      FocusUp(q, Far(p));
      SetColour(far, red, q, Far(p));
      FocusUp(q, Far(p).(red := red));
      FocusAcross(WithFar(p, red), t);
    }

    /** Restore the black heights before a black node is cut off below t: walk up while everything
        around is black, then settle it with at most three rotations.  Nothing below t is touched. */
    method FixRemove(start: Node, ghost p0: Path, ghost t0: Tree, ghost h0: nat)
      requires Focus(p0, t0) && !p0.Top? && t0.Bin? && t0.node == start && Fits(p0, h0 + 1, false)
      modifies `root, region
      ensures Focus(Top, Plug(FixPath(p0), t0))
    {
      hide RbTree.LinkedPath, Settled, Borrowed, Straightened;
      var node, parent := start, start.parent;
      ghost var p, t, h := p0, t0, h0;
      while true
        invariant Focus(p, t) && t.Bin? && t.node == node && parent == Parent(p) && Fits(p, h + 1, false)
        invariant Plug(FixPath(p), t) == Plug(FixPath(p0), t0)
        decreases p
      {
        if parent == null {
          return;
        }
        Neighbours(p, t, h);
        var sibling := if parent.left == node then parent.right else parent.left;
        if parent.red || sibling.red || (sibling.left != null && sibling.left.red) || (sibling.right != null && sibling.right.red) {
          Settle(sibling, parent, p, t, h);
          Refocus(FixPath(p), t);
          return;
        }
        SetSiblingColour(sibling, true, p, t);
        p := WithSibling(p, Redden(Sibling(p)));
        FocusUp(p, t);
        p, t, h := p.up, Enclose(p, t), h + 1;
        node := parent;
        parent := node.parent;
      }
    }

    /** The sibling of a hole that lacks a black level exists, and so do its children when it is red. */
    lemma Neighbours(p: Path, t: Tree, h: nat)
      requires Focus(p, t) && !p.Top? && t.Bin? && Fits(p, h + 1, false)
      ensures Sibling(p).Bin? && (Sibling(p).red ==> Near(p).Bin? && !Near(p).red)
      ensures var s, n := Sibling(p).node, p.node;
        && s == (if n.left == t.node then n.right else n.left)
        && (n.left == s <==> p.InRight?) && (n.right == s <==> p.InLeft?)
        && n.red == p.red && s.red == Sibling(p).red
        && ((s.left != null && s.left.red) <==> IsRed(Sibling(p).left))
        && ((s.right != null && s.right.red) <==> IsRed(Sibling(p).right))
    {
      Nephews(p, t);
    }

    /** What follows the walk up: a red sibling is first rotated out of the way. */
    method Settle(sibling: Node, parent: Node, ghost p: Path, ghost t: Tree, ghost h: nat)
      requires Focus(p, t) && !p.Top? && t.Bin? && Fits(p, h + 1, false)
      requires parent == p.node && Sibling(p).Bin? && sibling == Sibling(p).node
      requires p.red || Sibling(p).red || !BlackChildren(Sibling(p))
      modifies `root, region
      ensures Focus(FixPath(p), t)
    {
      Neighbours(p, t, h);
      if sibling.red {
        ghost var r := WithSibling(p.(red := true), Blacken(Sibling(p)));
        var onLeft := parent.left == sibling;
        SetParentColour(parent, true, p, t);
        SetSiblingColour(sibling, false, p.(red := true), t);
        RotateSiblingUp(sibling, r, t);
        Nephews'(SiblingUp(r), t);
        SettleBlack(if onLeft then parent.left else parent.right, parent, SiblingUp(r), t);
      } else {
        SettleBlack(sibling, parent, p, t);
      }
    }

    /** A black sibling, where the parent or a nephew is red. */
    method SettleBlack(sibling: Node, parent: Node, ghost p: Path, ghost t: Tree)
      requires Focus(p, t) && !p.Top? && t.Bin? && parent == p.node
      requires Sibling(p).Bin? && sibling == Sibling(p).node && !Sibling(p).red
      requires p.red || !BlackChildren(Sibling(p))
      modifies `root, region
      ensures Focus(Settled(p), t)
    {
      Nephews(p, t);
      if parent.red && !sibling.red && (sibling.left == null || !sibling.left.red) && (sibling.right == null || !sibling.right.red) {
        SetParentColour(parent, false, p, t);
        SetSiblingColour(sibling, true, p.(red := false), t);
      } else {
        Borrow(sibling, parent, p, t);
      }
    }

    lemma Nephews'(p: Path, t: Tree)
      requires Focus(p, t) && !p.Top?
      ensures (if p.InLeft? then p.node.right else p.node.left) == Root(Sibling(p))
    {
    }

    method RemoveLeaf(node: Node, ghost p: Path, ghost t: Tree)
      requires Focus(p, t) && t.Bin? && t.left.Leaf? && t.right.Leaf? && t.node == node && IsRedBlack(Plug(p, t))
      modifies `root, region
      ensures Focus(Top, Excise(p, t))
    {
      if root == node {
        RootIsTop(p, t);
        root := null;
        return;
      }
      ghost var q := p;
      if !node.red {
        PlugRedBlack(p, t);
        FixRemove(node, p, t, 0);
        q := FixPath(p);
        Refocus(q, t);
      }
      ReplaceChild(node.parent, node, null, q);
      Refocus(q, Leaf);
    }

    lemma RootIsTop(p: Path, t: Tree)
      requires Focus(p, t) && t.Bin? && root == t.node
      ensures p.Top?
    {
      if !p.Top? {
        RootAbove(p, t.node);
      }
    }

    lemma {:induction false} RootAbove(p: Path, hole: Node)
      requires LinkedPath(p, hole) && !p.Top?
      ensures root in PathNodes(p)
      decreases p
    {
      if p.up.Top? {} else { RootAbove(p.up, p.node); }
    }

    /** A node with one child: the child takes its place, and turns black. */
    method RemoveWithChild(node: Node, ghost p: Path, ghost t: Tree)
      requires Focus(p, t) && t.Bin? && t.node == node && (t.left.Bin? <==> t.right.Leaf?)
      modifies `root, region
      ensures Focus(Top, Excise(p, t))
    {
      hide RbTree.LinkedPath, Plug;
      ghost var u := if t.left.Bin? then t.left else t.right;
      assert Linked(u, node);
      var parent := node.parent;
      var child := if node.left != null then node.left else node.right;
      ReplaceChild(parent, node, child, p);
      AdoptBlack(child, parent, u, node);
      Refocus(p, Blacken(u));
    }

    method AdoptBlack(child: Node, parent: Node?, ghost t: Tree, ghost oldParent: Node?)
      requires Linked(t, oldParent) && Distinct(t) && child == Root(t) && Nodes(t) <= region
      modifies child
      ensures Linked(Blacken(t), parent)
    {
      assert Linked(t.left, child) && Linked(t.right, child);
      child.parent := parent;
      child.red := false;
    }

    // ----- Removal of a node with two children -----

    /** The nodes down the left spine of t, except that `hole` hangs where the leftmost node was. */
    ghost predicate SpineLinked(t: Tree, parent: Node?, hole: Node)
      requires t.Bin?
      reads SpineNodes(t)
      decreases t
    {
      t.left.Bin? ==>
        && t.node.left == SpineTop(t.left, hole) && t.node.right == Root(t.right)
        && t.node.parent == parent && t.node.red == t.red
        && Linked(t.right, t.node) && SpineLinked(t.left, t.node, hole)
    }

    ghost function SpineTop(t: Tree, hole: Node): Node
      requires t.Bin?
    {
      if t.left.Leaf? then hole else t.node
    }

    lemma {:induction false} SpinePath(t: Tree, p: Path, hole: Node)
      requires t.Bin?
      ensures LinkedPath(Spine(t, p), hole) <==> SpineLinked(t, Parent(p), hole) && LinkedPath(p, SpineTop(t, hole))
      decreases t
    {
      if t.left.Bin? { SpinePath(t.left, InLeft(t.node, t.red, t.right, p), hole); }
    }

    /** The heap around a node and its successor: everything that is not one of the two is linked,
        with `top` hanging where the node was and `hole` where the successor was. */
    ghost predicate Around(p: Path, t: Tree, top: Node, hole: Node, above: Node, below: Node)
      requires t.Bin? && t.right.Bin?
      reads this, PathNodes(p), Nodes(t.left), SpineNodes(t.right), Nodes(Leftmost(t.right).right)
    {
      && LinkedPath(p, top) && Linked(t.left, above)
      && SpineLinked(t.right, above, hole) && Linked(Leftmost(t.right).right, below)
    }

    lemma LookAround(p: Path, t: Tree)
      requires Focus(p, t) && t.Bin? && t.right.Bin?
      ensures var s := Leftmost(t.right);
        && Around(p, t, t.node, s.node, t.node, s.node)
        && Linked(s, Parent(Spine(t.right, InRight(t.left, t.node, t.red, p))))
        && t.node.left == Root(t.left) && t.node.right == t.right.node && t.node.parent == Parent(p) && t.node.red == t.red
    {
      var r, s, q := t.right, Leftmost(t.right), InRight(t.left, t.node, t.red, p);
      FocusUp(q, r);
      SpinePlugs(r, q);
      Refocus(q, r);
      Refocus(Spine(r, q), s);
      SpinePath(r, q, s.node);
    }

    /** Hang the node where its successor was; nothing to do when it is the node's own child. */
    method HangBelow(node: Node, succ: Node, succParent: Node, ghost p: Path, ghost t: Tree)
      requires Focus(p, t) && t.Bin? && t.node == node && t.right.Bin? && succ == Leftmost(t.right).node
      requires succParent == Parent(Spine(t.right, InRight(t.left, node, t.red, p)))
      modifies `root, SpineNodes(t.right)
      ensures SpineLinked(t.right, node, node) && root == old(root)
    {
      ghost var l, r, q := t.left, t.right, InRight(t.left, node, t.red, p);
      LookAround(p, t);
      SpineParents(r, q, q);
      SpineSplits(r);
      if succParent != node {
        FocusUp(q, r);
        SpineDistinct(r, q);
        SpinePath(r, q, succ);
        ReplaceChild(succParent, succ, node, Spine(r, q));
        SpinePath(r, q, node);
      }
    }

    /** The two nodes exchange parents, colours and children. */
    method ExchangeLinks(node: Node, succ: Node, succParent: Node)
      requires node != succ
      modifies node, succ
      ensures succ.parent == old(node.parent) && succ.red == old(node.red) && succ.left == old(node.left)
      ensures succ.right == if succParent == node then node else old(node.right)
      ensures node.parent == (if succParent == node then succ else succParent) && node.red == old(succ.red)
      ensures node.left == null && node.right == old(succ.right)
    {
      var colour := succ.red;
      succ.parent, succ.red := node.parent, node.red;
      succ.left := node.left;
      var right := succ.right;
      succ.right := node.right;
      if succParent == node {
        succ.right := node;
        node.parent := succ;
      } else {
        node.parent := succParent;
      }
      node.red := colour;
      node.left := null;
      node.right := right;
    }

    method AdoptSpine(child: Node, parent: Node, ghost t: Tree, ghost hole: Node, ghost oldParent: Node?)
      requires t.Bin? && t.left.Bin? && Distinct(t) && Nodes(t) <= region
      requires SpineLinked(t, oldParent, hole) && child == t.node
      modifies child
      ensures SpineLinked(t, parent, hole)
    {
      SpineSplits(t.left);
      assert Linked(t.right, child) && SpineLinked(t.left, child, hole);
      child.parent := parent;
    }

    /** The left subtree and the spine of the right one learn their new parent. */
    method AdoptUpper(node: Node, succ: Node, adjacent: bool, ghost l: Tree, ghost r: Tree)
      requires l.Bin? && r.Bin? && (adjacent <==> r.left.Leaf?) && Distinct(l) && Distinct(r)
      requires Nodes(l) <= region && Nodes(r) <= region && Nodes(l) !! SpineNodes(r)
      requires succ !in Nodes(l) && succ !in SpineNodes(r)
      requires Linked(l, node) && SpineLinked(r, node, node) && succ.left == Root(l) && succ.right == SpineTop(r, node)
      modifies Nodes(l), SpineNodes(r)
      ensures Linked(l, succ) && SpineLinked(r, succ, node)
    {
      SpineSplits(r);
      Adopt(succ.left, succ, l, node);
      if !adjacent {
        AdoptSpine(succ.right, succ, r, node, node);
      }
    }

    /** The pieces of a tree around a node and its successor share no nodes. */
    ghost predicate Apart(p: Path, t: Tree)
      requires t.Bin? && t.right.Bin?
      reads `region
    {
      var l, spine, below, pair := Nodes(t.left), SpineNodes(t.right), Nodes(Leftmost(t.right).right), {t.node, Leftmost(t.right).node};
      && PathNodes(p) !! l && PathNodes(p) !! spine && PathNodes(p) !! below && PathNodes(p) !! pair
      && l !! spine && l !! below && l !! pair && spine !! below && spine !! pair && below !! pair
      && Distinct(t.left) && Distinct(t.right) && Distinct(Leftmost(t.right).right) && PathDistinct(p)
      && PathNodes(p) <= region && l <= region && spine <= region && Nodes(t.right) <= region && below <= region && pair <= region
      && t.node != Leftmost(t.right).node
    }

    lemma PiecesApart(p: Path, t: Tree)
      requires t.Bin? && t.right.Bin? && Separate(p, t) && PathNodes(p) <= region && Nodes(t) <= region
      ensures Apart(p, t)
    {
      SpineSplits(t.right);
      assert Distinct(Leftmost(t.right));
    }

    method Rehang(node: Node, succ: Node, succParent: Node, ghost p: Path, ghost t: Tree)
      requires Focus(p, t) && t.Bin? && t.node == node && t.right.Bin? && succ == Leftmost(t.right).node && Apart(p, t)
      requires succParent == Parent(Spine(t.right, InRight(t.left, node, t.red, p)))
      modifies `root, PathNodes(p), SpineNodes(t.right)
      ensures Around(p, t, succ, node, node, succ)
    {
      hide RbTree.LinkedPath;
      LookAround(p, t);
      HangBelow(node, succ, succParent, p, t);
      ReplaceChild(node.parent, node, succ, p);
    }

    method Exchange(node: Node, succ: Node, succParent: Node, ghost p: Path, ghost t: Tree)
      requires t.Bin? && t.node == node && t.right.Bin? && succ == Leftmost(t.right).node && Apart(p, t)
      requires Around(p, t, succ, node, node, succ)
      modifies node, succ
      ensures Around(p, t, succ, node, node, succ)
      ensures succ.parent == old(node.parent) && succ.red == old(node.red) && succ.left == old(node.left)
      ensures succ.right == if succParent == node then node else old(node.right)
      ensures node.parent == (if succParent == node then succ else succParent) && node.red == old(succ.red)
      ensures node.left == null && node.right == old(succ.right)
    {
      ExchangeLinks(node, succ, succParent);
    }

    method AdoptAll(node: Node, succ: Node, adjacent: bool, ghost p: Path, ghost t: Tree)
      requires t.Bin? && t.node == node && t.left.Bin? && t.right.Bin? && succ == Leftmost(t.right).node && Apart(p, t)
      requires Around(p, t, succ, node, node, succ) && (adjacent <==> t.right.left.Leaf?)
      requires succ.left == Root(t.left) && succ.right == SpineTop(t.right, node) && node.right == Root(Leftmost(t.right).right)
      modifies Nodes(t.left), SpineNodes(t.right), Nodes(Leftmost(t.right).right)
      ensures Around(p, t, succ, node, succ, node)
    {
      AdoptUpper(node, succ, adjacent, t.left, t.right);
      Adopt(node.right, node, Leftmost(t.right).right, succ);
    }

    /** Exchange a node with its successor by relinking both; no contents are copied. */
    method SwapWithSuccessor(node: Node, succ: Node, ghost p: Path, ghost t: Tree)
      requires Focus(p, t) && t.Bin? && t.node == node && t.left.Bin? && t.right.Bin? && succ == Leftmost(t.right).node
      modifies `root, region
      ensures var s := Leftmost(t.right);
        Focus(Spine(t.right, InRight(t.left, succ, t.red, p)), Bin(Leaf, node, s.red, s.right))
    {
      hide Nodes, PathNodes;
      ghost var l, r, s, q := t.left, t.right, Leftmost(t.right), InRight(t.left, node, t.red, p);
      LookAround(p, t);
      PiecesApart(p, t);
      SpineParents(r, q, q);
      var succParent := succ.parent;
      Rehang(node, succ, succParent, p, t);
      Exchange(node, succ, succParent, p, t);
      AdoptAll(node, succ, succParent == node, p, t);
      Assemble(p, t);
    }

    lemma Assemble(p: Path, t: Tree)
      requires t.Bin? && t.left.Bin? && t.right.Bin? && Separate(p, t) && PathNodes(p) <= region && Nodes(t) <= region
      requires var s, n, above := Leftmost(t.right), t.node, Parent(Spine(t.right, InRight(t.left, t.node, t.red, p)));
        && Around(p, t, s.node, n, s.node, n)
        && s.node.left == Root(t.left) && s.node.right == SpineTop(t.right, n) && s.node.parent == Parent(p) && s.node.red == t.red
        && n.left == null && n.right == Root(s.right) && n.parent == (if above == n then s.node else above) && n.red == s.red
      ensures var s := Leftmost(t.right);
        Focus(Spine(t.right, InRight(t.left, s.node, t.red, p)), Bin(Leaf, t.node, s.red, s.right))
    {
      var r, s, q, q' := t.right, Leftmost(t.right), InRight(t.left, t.node, t.red, p), InRight(t.left, Leftmost(t.right).node, t.red, p);
      SwapSeparate(p, t);
      SpineSplits(r);
      SpineParents(r, q, q');
      SpinePath(r, q', t.node);
    }


    // ----- Walking -----

    /** The node after `node` in order, seen from its position: down the right subtree, or up. */
    method SuccessorAt(node: Node, ghost p: Path, ghost t: Tree) returns (next: Node?)
      requires Focus(p, t) && t.Bin? && t.node == node
      ensures next == First(InOrder(t.right) + After(p))
      ensures t.right.Bin? ==> next == Leftmost(t.right).node
    {
      var current := node.right;
      if current == null {
        current := node;
        var parent := node.parent;
        ghost var q, u := p, t;
        while parent != null
          invariant Focus(q, u) && u.Bin? && u.node == current && parent == Parent(q)
          invariant After(q) == After(p)
          decreases q
        {
          FocusUp(q, u);
          if parent.left == current {
            return parent;
          }
          current := parent;
          q, u := q.up, Enclose(q, u);
          parent := current.parent;
        }
        return null;
      }
      ghost var u, above := t.right, node;
      LeftmostIsFirst(u);
      while current.left != null
        invariant u.Bin? && u.node == current && Linked(u, above)
        invariant Leftmost(u) == Leftmost(t.right)
        decreases u
      {
        above := current;
        current := current.left;
        u := u.left;
      }
      next := current;
    }

    method PredecessorAt(node: Node, ghost p: Path, ghost t: Tree) returns (previous: Node?)
      requires Focus(p, t) && t.Bin? && t.node == node
      ensures previous == Last(Before(p) + InOrder(t.left))
    {
      var current := node.left;
      if current == null {
        current := node;
        var parent := node.parent;
        ghost var q, u := p, t;
        while parent != null
          invariant Focus(q, u) && u.Bin? && u.node == current && parent == Parent(q)
          invariant Before(q) == Before(p)
          decreases q
        {
          FocusUp(q, u);
          if parent.right == current {
            return parent;
          }
          current := parent;
          q, u := q.up, Enclose(q, u);
          parent := current.parent;
        }
        return null;
      }
      ghost var u, above := t.left, node;
      RightmostIsLast(u);
      while current.right != null
        invariant u.Bin? && u.node == current && Linked(u, above)
        invariant Rightmost(u) == Rightmost(t.left)
        decreases u
      {
        above := current;
        current := current.right;
        u := u.right;
      }
      previous := current;
    }

    method FirstNode() returns (first: Node)
      requires Valid() && root != null
      ensures first == InOrder(tree)[0]
    {
      first := root;
      ghost var u, above := tree, null;
      LeftmostIsFirst(u);
      while first.left != null
        invariant u.Bin? && u.node == first && Linked(u, above) && Leftmost(u) == Leftmost(tree)
        decreases u
      {
        above := first;
        first := first.left;
        u := u.left;
      }
    }

    method LastNode() returns (last: Node)
      requires Valid() && root != null
      ensures last == Last(InOrder(tree))
    {
      last := root;
      ghost var u, above := tree, null;
      RightmostIsLast(u);
      while last.right != null
        invariant u.Bin? && u.node == last && Linked(u, above) && Rightmost(u) == Rightmost(tree)
        decreases u
      {
        above := last;
        last := last.right;
        u := u.right;
      }
    }

    method Successor(node: Node) returns (next: Node?)
      requires Valid() && node in Nodes(tree)
      ensures Follows(InOrder(tree), node, next)
    {
      ghost var at := Locate(tree, Top, node);
      Refocus(at.path, at.tree);
      ghost var k := PlugSplits(at.path, at.tree);
      next := SuccessorAt(node, at.path, at.tree);
      assert At(InOrder(tree), k) == node && At(InOrder(tree), k + 1) == next;
    }

    method Predecessor(node: Node) returns (previous: Node?)
      requires Valid() && node in Nodes(tree)
      ensures Follows(InOrder(tree), previous, node)
    {
      ghost var at := Locate(tree, Top, node);
      Refocus(at.path, at.tree);
      ghost var k: int := PlugSplits(at.path, at.tree);
      previous := PredecessorAt(node, at.path, at.tree);
      assert At(InOrder(tree), k - 1) == previous && At(InOrder(tree), k - 1 + 1) == node;
    }

    // ----- Searching -----
    // `steps` counts the comparisons of a descent; StepsBound makes that logarithmic.

    method Lookup(key: Key, compare: (Key, Key) -> int) returns (found: Node?, ghost steps: nat)
      requires Valid() && Ordered(InOrder(tree), compare, key)
      ensures found != null ==> found in Nodes(tree) && compare(key, found.key) == 0
      ensures found == null ==> forall i :: 0 <= i < |InOrder(tree)| ==> compare(key, InOrder(tree)[i].key) != 0
      ensures steps <= Height(tree)
    {
      found, steps := root, 0;
      ghost var p, t := Top, tree;
      while found != null
        invariant Focus(p, t) && Plug(p, t) == tree && found == Root(t)
        invariant AllBelow(Before(p), compare, key) && AllAbove(After(p), compare, key)
        invariant steps + Height(t) <= Height(tree)
        decreases t
      {
        DescentStep(p, t, compare, key);
        var comparison := compare(key, found.key);
        steps := steps + 1;
        if comparison == 0 {
          PlugNodes(p, t);
          return;
        }
        found := if comparison > 0 then found.right else found.left;
        p := if comparison > 0 then InRight(t.left, t.node, t.red, p) else InLeft(t.node, t.red, t.right, p);
        t := if comparison > 0 then t.right else t.left;
        FocusUp(p, t);
      }
      PlugInOrder(p, Leaf);
    }

    method FindFirstLargerEqual(key: Key, compare: (Key, Key) -> int) returns (found: Node?)
      requires Valid() && Ordered(InOrder(tree), compare, key)
      requires forall a, b :: -1 <= compare(a, b) <= 1
      ensures exists k :: 0 <= k <= |InOrder(tree)| && LeastNotBelow(InOrder(tree), k, found, compare, key)
    {
      found := null;
      var current := root;
      ghost var p, t := Top, tree;
      while current != null
        invariant Focus(p, t) && Plug(p, t) == tree && current == Root(t)
        invariant AllBelow(Before(p), compare, key) && AllAbove(After(p), compare, key)
        invariant found == First(After(p))
        decreases t
      {
        DescentStep(p, t, compare, key);
        var comparison := compare(key, current.key);
        if comparison == 0 {
          ghost var k := PlugSplits(p, t);
          assert LeastNotBelow(InOrder(tree), k, current, compare, key);
          return current;
        }
        if comparison == -1 {
          found := current;
        }
        current := if comparison == 1 then current.right else current.left;
        p := if comparison == 1 then InRight(t.left, t.node, t.red, p) else InLeft(t.node, t.red, t.right, p);
        t := if comparison == 1 then t.right else t.left;
        FocusUp(p, t);
      }
      PlugInOrder(p, Leaf);
      assert LeastNotBelow(InOrder(tree), |Before(p)|, found, compare, key) by {
        assert InOrder(tree)[..|Before(p)|] == Before(p) && InOrder(tree)[|Before(p)|..] == After(p);
      }
    }

    // ----- Removal, for any node -----

    method RemoveAt(node: Node, ghost p: Path, ghost t: Tree)
      requires Focus(p, t) && t.Bin? && t.node == node && IsRedBlack(Plug(p, t))
      modifies `root, region
      ensures Focus(Top, RedBlack.Remove(p, t))
      decreases t.left.Bin? && t.right.Bin?
    {
      if node.left == null && node.right == null {
        RemoveLeaf(node, p, t);
      } else if node.left == null || node.right == null {
        RemoveWithChild(node, p, t);
      } else {
        var succ := SuccessorAt(node, p, t);
        SwapWithSuccessor(node, succ, p, t);
        SwapIsRedBlack(p, t);
        ghost var s := Leftmost(t.right);
        RemoveAt(node, Spine(t.right, InRight(t.left, succ, t.red, p)), Bin(Leaf, node, s.red, s.right));
      }
    }

    method Remove(node: Node)
      requires Valid() && node in Nodes(tree)
      modifies this, region
      ensures Valid() && region == old(region)
      ensures InOrder(tree) == Without(old(InOrder(tree)), node) && Nodes(tree) == old(Nodes(tree)) - {node}
    {
      ghost var at := Locate(tree, Top, node);
      Refocus(at.path, at.tree);
      RemoveIsRedBlack(at.path, at.tree);
      RemoveLeavesTheRest(tree, node);
      RemoveAt(node, at.path, at.tree);
      tree := RedBlack.Remove(at.path, at.tree);
    }
  }
}
