/** Red-black trees as values: the shape a linked tree represents, and a path from a
    position in it back to the root (a "zipper").  The re-balancing steps of the linked
    tree are specified here as functions on these values, and what the steps keep is
    proved here by induction, away from the heap. */
module RedBlack {

  /** The intrusive node.  The source packs the colour into the parent word; here it is a field. */
  class Node {
    const key: seq<int>
    var left: Node?
    var right: Node?
    var parent: Node?
    var red: bool

    constructor (key: seq<int>)
      ensures this.key == key && left == null && right == null && parent == null
    {
      this.key := key;
      left, right, parent, red := null, null, null, false;
    }
  }

  datatype Tree = Leaf | Bin(left: Tree, node: Node, red: bool, right: Tree)

  /** The way from a hole in a tree up to the root: each step records the parent node, its
      colour, and the subtree on its other side. */
  datatype Path =
    | Top
    | InLeft(node: Node, red: bool, right: Tree, up: Path)
    | InRight(left: Tree, node: Node, red: bool, up: Path)

  // ----- Views of trees and paths -----

  ghost function Root(t: Tree): Node? {
    if t.Leaf? then null else t.node
  }

  ghost function Parent(p: Path): Node? {
    if p.Top? then null else p.node
  }

  ghost predicate IsRed(t: Tree) {
    t.Bin? && t.red
  }

  ghost function Nodes(t: Tree): set<Node> {
    match t
    case Leaf => {}
    case Bin(l, n, _, r) => Nodes(l) + {n} + Nodes(r)
  }

  ghost function PathNodes(p: Path): set<Node> {
    match p
    case Top => {}
    case InLeft(n, _, r, up) => {n} + Nodes(r) + PathNodes(up)
    case InRight(l, n, _, up) => {n} + Nodes(l) + PathNodes(up)
  }

  ghost function InOrder(t: Tree): seq<Node> {
    match t
    case Leaf => []
    case Bin(l, n, _, r) => InOrder(l) + [n] + InOrder(r)
  }

  /** The nodes that come before the hole in order, and those that come after it. */
  ghost function Before(p: Path): seq<Node> {
    match p
    case Top => []
    case InLeft(_, _, _, up) => Before(up)
    case InRight(l, n, _, up) => Before(up) + InOrder(l) + [n]
  }

  ghost function After(p: Path): seq<Node> {
    match p
    case Top => []
    case InLeft(n, _, r, up) => [n] + InOrder(r) + After(up)
    case InRight(_, _, _, up) => After(up)
  }

  ghost function Plug(p: Path, t: Tree): Tree
    decreases p
  {
    match p
    case Top => t
    case InLeft(n, c, r, up) => Plug(up, Bin(t, n, c, r))
    case InRight(l, n, c, up) => Plug(up, Bin(l, n, c, t))
  }

  ghost predicate Distinct(t: Tree) {
    match t
    case Leaf => true
    case Bin(l, n, _, r) =>
      && Distinct(l) && Distinct(r)
      && n !in Nodes(l) && n !in Nodes(r) && Nodes(l) !! Nodes(r)
  }

  ghost predicate PathDistinct(p: Path) {
    match p
    case Top => true
    case InLeft(n, _, r, up) =>
      && Distinct(r) && PathDistinct(up)
      && n !in Nodes(r) && n !in PathNodes(up) && Nodes(r) !! PathNodes(up)
    case InRight(l, n, _, up) =>
      && Distinct(l) && PathDistinct(up)
      && n !in Nodes(l) && n !in PathNodes(up) && Nodes(l) !! PathNodes(up)
  }

  ghost predicate Separate(p: Path, t: Tree) {
    PathDistinct(p) && Distinct(t) && PathNodes(p) !! Nodes(t)
  }

  /** The subtree on the other side of the step just above the hole. */
  ghost function Sibling(p: Path): Tree
    requires !p.Top?
  {
    if p.InLeft? then p.right else p.left
  }

  /** A subtree together with the node above it. */
  ghost function Enclose(p: Path, t: Tree): Tree
    requires !p.Top?
  {
    if p.InLeft? then Bin(t, p.node, p.red, p.right) else Bin(p.left, p.node, p.red, t)
  }

  /** The path to the sibling, which has t for a sibling in turn. */
  ghost function Across(p: Path, t: Tree): Path
    requires !p.Top?
  {
    if p.InLeft? then InRight(t, p.node, p.red, p.up) else InLeft(p.node, p.red, t, p.up)
  }

  // ----- The red-black invariants -----

  ghost function BlackHeight(t: Tree): nat {
    match t
    case Leaf => 0
    case Bin(l, _, c, _) => BlackHeight(l) + if c then 0 else 1
  }

  /** Every way down meets the same number of black nodes. */
  ghost predicate Even(t: Tree) {
    match t
    case Leaf => true
    case Bin(l, _, _, r) => Even(l) && Even(r) && BlackHeight(l) == BlackHeight(r)
  }

  ghost predicate NoRedRed(t: Tree) {
    match t
    case Leaf => true
    case Bin(l, _, c, r) => NoRedRed(l) && NoRedRed(r) && (c ==> !IsRed(l) && !IsRed(r))
  }

  ghost predicate IsRedBlack(t: Tree) {
    !IsRed(t) && NoRedRed(t) && Even(t)
  }

  /** The path becomes even when a subtree of black height h is plugged in. */
  ghost predicate EvenPath(p: Path, h: nat) {
    match p
    case Top => true
    case InLeft(_, c, r, up) => Even(r) && BlackHeight(r) == h && EvenPath(up, if c then h else h + 1)
    case InRight(l, _, c, up) => Even(l) && BlackHeight(l) == h && EvenPath(up, if c then h else h + 1)
  }

  /** No red-red edge and a black root, once a subtree with the given root colour is plugged in. */
  ghost predicate ColouredPath(p: Path, holeRed: bool) {
    match p
    case Top => !holeRed
    case InLeft(_, c, r, up) => NoRedRed(r) && (c ==> !IsRed(r) && !holeRed) && ColouredPath(up, c)
    case InRight(l, _, c, up) => NoRedRed(l) && (c ==> !IsRed(l) && !holeRed) && ColouredPath(up, c)
  }

  ghost predicate Fits(p: Path, h: nat, holeRed: bool) {
    EvenPath(p, h) && ColouredPath(p, holeRed)
  }

  // ----- Plugging -----

  lemma {:induction false} PlugInOrder(p: Path, t: Tree)
    ensures InOrder(Plug(p, t)) == Before(p) + InOrder(t) + After(p)
    decreases p
  {
    match p
    case Top =>
    case InLeft(n, c, r, up) => PlugInOrder(up, Bin(t, n, c, r));
    case InRight(l, n, c, up) => PlugInOrder(up, Bin(l, n, c, t));
  }

  /** Where the head of a plugged subtree stands in the sequence, and what is on either side. */
  lemma PlugSplits(p: Path, t: Tree) returns (k: nat)
    requires t.Bin?
    ensures var s := InOrder(Plug(p, t));
      && k < |s| && s[k] == t.node
      && s[..k] == Before(p) + InOrder(t.left) && s[..k + 1] == Before(InRight(t.left, t.node, t.red, p))
      && s[k + 1..] == InOrder(t.right) + After(p) && s[k..] == After(InLeft(t.node, t.red, t.right, p))
  {
    PlugInOrder(p, t);
    k := |Before(p) + InOrder(t.left)|;
    JoinSplits(Before(p), InOrder(t.left), t.node, InOrder(t.right), After(p));
  }

  lemma JoinSplits(before: seq<Node>, l: seq<Node>, n: Node, r: seq<Node>, after: seq<Node>)
    ensures var s, k := before + (l + [n] + r) + after, |before + l|;
      && |s| == k + 1 + |r + after| && s[k] == n && s[..k] == before + l && s[..k + 1] == before + l + [n]
      && s[k + 1..] == r + after && s[k..] == [n] + (r + after) == [n] + r + after
  {
  }

  lemma {:induction false} PlugNodes(p: Path, t: Tree)
    ensures Nodes(Plug(p, t)) == PathNodes(p) + Nodes(t)
    decreases p
  {
    match p
    case Top =>
    case InLeft(n, c, r, up) => PlugNodes(up, Bin(t, n, c, r));
    case InRight(l, n, c, up) => PlugNodes(up, Bin(l, n, c, t));
  }

  lemma {:induction false} PlugDistinct(p: Path, t: Tree)
    ensures Distinct(Plug(p, t)) <==> PathDistinct(p) && Distinct(t) && PathNodes(p) !! Nodes(t)
    decreases p
  {
    match p
    case Top =>
    case InLeft(n, c, r, up) => PlugDistinct(up, Bin(t, n, c, r));
    case InRight(l, n, c, up) => PlugDistinct(up, Bin(l, n, c, t));
  }

  /** A plugged tree is red-black exactly when the path and the subtree are, and they meet well. */
  lemma {:induction false} PlugRedBlack(p: Path, t: Tree)
    ensures IsRedBlack(Plug(p, t)) <==> NoRedRed(t) && Even(t) && Fits(p, BlackHeight(t), IsRed(t))
    decreases p
  {
    match p
    case Top =>
    case InLeft(n, c, r, up) => PlugRedBlack(up, Bin(t, n, c, r));
    case InRight(l, n, c, up) => PlugRedBlack(up, Bin(l, n, c, t));
  }

  lemma {:induction false} NodesAreInOrder(t: Tree)
    ensures (set n | n in InOrder(t)) == Nodes(t)
  {
    match t
    case Leaf =>
    case Bin(l, _, _, r) => NodesAreInOrder(l); NodesAreInOrder(r);
  }

  lemma {:induction false} DistinctInOrder(t: Tree)
    requires Distinct(t)
    ensures NoDuplicates(InOrder(t))
  {
    match t
    case Leaf =>
    case Bin(l, n, _, r) =>
      DistinctInOrder(l); DistinctInOrder(r);
      NodesAreInOrder(l); NodesAreInOrder(r);
      var a, b := InOrder(l), InOrder(r);
      forall i, j | 0 <= i < j < |InOrder(t)|
        ensures InOrder(t)[i] != InOrder(t)[j]
      {
        if i < |a| { var x := a[i]; assert x in a; assert x in Nodes(l); }
        if j > |a| { var y := b[j - |a| - 1]; assert y in b; assert y in Nodes(r); }
      }
  }

  // ----- Insertion -----

  ghost function Blacken(t: Tree): Tree {
    if t.Leaf? then Leaf else t.(red := false)
  }

  ghost function Redden(t: Tree): Tree {
    if t.Leaf? then Leaf else t.(red := true)
  }

  /** Where an insertion descends to: right past the nodes that come before the new one. */
  ghost function Descend(t: Tree, p: Path, before: Node -> bool): Path
    decreases t
  {
    match t
    case Leaf => p
    case Bin(l, n, c, r) =>
      if before(n) then Descend(r, InRight(l, n, c, p), before)
      else Descend(l, InLeft(n, c, r, p), before)
  }

  /** Hole, parent and grandparent, when the uncle is red: the parent and the uncle turn black
      and the grandparent red, unless it is the root. */
  ghost function Recolour(p: Path, t: Tree): Tree
    requires !p.Top? && !p.up.Top?
  {
    var parent := if p.InLeft? then Bin(t, p.node, false, p.right) else Bin(p.left, p.node, false, t);
    var g := p.up;
    if g.InLeft? then Bin(parent, g.node, !g.up.Top?, Blacken(g.right))
    else Bin(Blacken(g.left), g.node, !g.up.Top?, parent)
  }

  /** The same three levels, when the uncle is black: one or two rotations. */
  ghost function Rotate(p: Path, t: Tree): Tree
    requires !p.Top? && !p.up.Top? && t.Bin?
  {
    var g := p.up;
    if g.InLeft? then
      if p.InLeft? then Bin(t, p.node, false, Bin(p.right, g.node, true, g.right))
      else Bin(Bin(p.left, p.node, true, t.left), t.node, false, Bin(t.right, g.node, true, g.right))
    else
      if p.InRight? then Bin(Bin(g.left, g.node, true, p.left), p.node, false, t)
      else Bin(Bin(g.left, g.node, true, t.left), t.node, false, Bin(t.right, p.node, true, p.right))
  }

  /** The tree after the upward repair from a subtree t whose root may be a red child of a red parent. */
  ghost function FixInsert(p: Path, t: Tree): Tree
    requires t.Bin?
    decreases p
  {
    if p.Top? || !p.red || p.up.Top? then Plug(p, t)
    else if IsRed(Sibling(p.up)) then FixInsert(p.up.up, Recolour(p, t))
    else Plug(p.up.up, Rotate(p, t))
  }

  ghost function Insert(t: Tree, node: Node, before: Node -> bool): Tree {
    if t.Leaf? then Bin(Leaf, node, false, Leaf)
    else FixInsert(Descend(t, Top, before), Bin(Leaf, node, true, Leaf))
  }

  /** What a plugged subtree with in-order sequence s contributes, one level up. */
  ghost function Widen(p: Path, s: seq<Node>): seq<Node>
    requires !p.Top?
    ensures Before(p) + s + After(p) == Before(p.up) + Widen(p, s) + After(p.up)
  {
    if p.InLeft? then s + [p.node] + InOrder(p.right) else InOrder(p.left) + [p.node] + s
  }

  lemma RotationInOrder(a: Tree, x: Node, b: Tree, y: Node, c: Tree, r0: bool, r1: bool, r2: bool, r3: bool)
    ensures InOrder(Bin(Bin(a, x, r0, b), y, r1, c)) == InOrder(Bin(a, x, r2, Bin(b, y, r3, c)))
  {
    var i, j, k := InOrder(a), InOrder(b), InOrder(c);
    assert i + [x] + j + [y] + k == i + [x] + (j + [y] + k);
  }

  lemma RepairStepInOrder(p: Path, t: Tree)
    requires !p.Top? && !p.up.Top? && t.Bin?
    ensures InOrder(Recolour(p, t)) == Widen(p.up, Widen(p, InOrder(t)))
    ensures InOrder(Rotate(p, t)) == Widen(p.up, Widen(p, InOrder(t)))
  {
    var g := p.up;
    var a, n, b := t.left, t.node, t.right;
    if g.InLeft? {
      assert InOrder(Blacken(g.right)) == InOrder(g.right);
      if p.InLeft? {
        RotationInOrder(t, p.node, p.right, g.node, g.right, false, true, false, true);
      } else {
        RotationInOrder(p.left, p.node, a, n, b, true, false, true, t.red);
        RotationInOrder(Bin(p.left, p.node, true, a), n, b, g.node, g.right, false, true, false, true);
      }
    } else {
      assert InOrder(Blacken(g.left)) == InOrder(g.left);
      if p.InRight? {
        RotationInOrder(g.left, g.node, p.left, p.node, t, true, false, true, false);
      } else {
        RotationInOrder(a, n, b, p.node, p.right, t.red, true, false, true);
        RotationInOrder(g.left, g.node, a, n, Bin(b, p.node, true, p.right), true, false, true, false);
      }
    }
  }

  lemma {:induction false} FixInsertInOrder(p: Path, t: Tree)
    requires t.Bin?
    ensures InOrder(FixInsert(p, t)) == Before(p) + InOrder(t) + After(p)
    decreases p
  {
    if p.Top? || !p.red || p.up.Top? {
      PlugInOrder(p, t);
    } else {
      RepairStepInOrder(p, t);
      if IsRed(Sibling(p.up)) { FixInsertInOrder(p.up.up, Recolour(p, t)); }
      else { PlugInOrder(p.up.up, Rotate(p, t)); }
    }
  }

  /** The step's subtree is sound again, has the grandparent's height, and fits in its place;
      a recoloured grandparent may now clash with its own parent. */
  lemma RepairStepRedBlack(p: Path, t: Tree)
    requires !p.Top? && !p.up.Top? && p.red
    requires t.Bin? && t.red && NoRedRed(t) && Even(t) && Fits(p, BlackHeight(t), false)
    ensures Fits(p.up.up, BlackHeight(t) + 1, false)
    ensures IsRed(Sibling(p.up)) ==>
      var r := Recolour(p, t); NoRedRed(r) && Even(r) && BlackHeight(r) == BlackHeight(t) + if r.red then 1 else 2
    ensures !IsRed(Sibling(p.up)) ==>
      var r := Rotate(p, t); !r.red && NoRedRed(r) && Even(r) && BlackHeight(r) == BlackHeight(t) + 1
  {
    var g, h := p.up, BlackHeight(t);
    assert !IsRed(Sibling(p)) && NoRedRed(Sibling(p)) && Even(Sibling(p)) && BlackHeight(Sibling(p)) == h;
    assert Fits(g, h, true);
    assert !g.red && NoRedRed(Sibling(g)) && Even(Sibling(g)) && BlackHeight(Sibling(g)) == h;
    assert Even(t.left) && Even(t.right) && NoRedRed(t.left) && NoRedRed(t.right) && !IsRed(t.left) && !IsRed(t.right);
  }

  /** The repair ends in a red-black tree, from any path that would accept a black subtree of
      the same height: a red-red edge to the parent is the only fault it is given. */
  lemma {:induction false} FixInsertRedBlack(p: Path, t: Tree)
    requires t.Bin? && NoRedRed(t) && Even(t) && Fits(p, BlackHeight(t), false)
    requires p.Top? <==> !t.red
    ensures IsRedBlack(FixInsert(p, t))
    decreases p
  {
    if p.Top? || !p.red || p.up.Top? {
      assert !p.Top? ==> ColouredPath(p.up, p.red);
      PlugRedBlack(p, t);
    } else {
      RepairStepRedBlack(p, t);
      if !IsRed(Sibling(p.up)) { PlugRedBlack(p.up.up, Rotate(p, t)); }
      else { FixInsertRedBlack(p.up.up, Recolour(p, t)); }
    }
  }

  /** Descending loses nothing: the hole found is a leaf of the same tree. */
  lemma {:induction false} DescendPlugs(t: Tree, p: Path, before: Node -> bool)
    ensures Plug(Descend(t, p, before), Leaf) == Plug(p, t)
    ensures t.Bin? ==> !Descend(t, p, before).Top?
    ensures !p.Top? ==> !Descend(t, p, before).Top?
    decreases t
  {
    match t
    case Leaf =>
    case Bin(l, n, c, r) =>
      if before(n) { DescendPlugs(r, InRight(l, n, c, p), before); }
      else { DescendPlugs(l, InLeft(n, c, r, p), before); }
  }

  /** `before` holds on a prefix of the sequence only. */
  ghost predicate Splits(s: seq<Node>, before: Node -> bool) {
    forall i, j :: 0 <= i < j < |s| && before(s[j]) ==> before(s[i])
  }

  ghost predicate AllBefore(s: seq<Node>, before: Node -> bool) {
    forall i :: 0 <= i < |s| ==> before(s[i])
  }

  ghost predicate NoneBefore(s: seq<Node>, before: Node -> bool) {
    forall i :: 0 <= i < |s| ==> !before(s[i])
  }

  lemma {:induction false} DescendSorts(t: Tree, p: Path, before: Node -> bool)
    requires Splits(InOrder(t), before)
    requires AllBefore(Before(p), before) && NoneBefore(After(p), before)
    ensures AllBefore(Before(Descend(t, p, before)), before)
    ensures NoneBefore(After(Descend(t, p, before)), before)
    decreases t
  {
    match t
    case Leaf =>
    case Bin(l, n, c, r) =>
      var s := InOrder(t);
      assert s[|InOrder(l)|] == n;
      assert InOrder(l) == s[..|InOrder(l)|] && InOrder(r) == s[|InOrder(l)| + 1..];
      if before(n) { DescendSorts(r, InRight(l, n, c, p), before); }
      else { DescendSorts(l, InLeft(n, c, r, p), before); }
  }

  /** Insertion keeps the tree red-black and puts the node at its sorted position. */
  lemma {:induction false} InsertIsRedBlack(t: Tree, node: Node, before: Node -> bool)
    requires IsRedBlack(t)
    ensures IsRedBlack(Insert(t, node, before))
  {
    if t.Bin? {
      var p := Descend(t, Top, before);
      DescendPlugs(t, Top, before);
      PlugRedBlack(p, Leaf);
      FixInsertRedBlack(p, Bin(Leaf, node, true, Leaf));
    }
  }

  lemma {:induction false} InsertNodes(t: Tree, node: Node, before: Node -> bool)
    ensures Nodes(Insert(t, node, before)) == Nodes(t) + {node}
  {
    var p, u := Descend(t, Top, before), Insert(t, node, before);
    DescendPlugs(t, Top, before);
    PlugInOrder(p, Leaf);
    FixInsertInOrder(p, Bin(Leaf, node, true, Leaf));
    NodesAreInOrder(t);
    NodesAreInOrder(u);
    assert InOrder(t) == Before(p) + After(p) && InOrder(u) == Before(p) + [node] + After(p);
  }

  lemma {:induction false} InsertInOrder(t: Tree, node: Node, before: Node -> bool) returns (k: nat)
    requires Splits(InOrder(t), before)
    ensures k <= |InOrder(t)|
    ensures InOrder(Insert(t, node, before)) == InOrder(t)[..k] + [node] + InOrder(t)[k..]
    ensures AllBefore(InOrder(t)[..k], before) && NoneBefore(InOrder(t)[k..], before)
  {
    var p := Descend(t, Top, before);
    DescendPlugs(t, Top, before);
    DescendSorts(t, Top, before);
    PlugInOrder(p, Leaf);
    FixInsertInOrder(p, Bin(Leaf, node, true, Leaf));
    k := |Before(p)|;
    assert InOrder(t)[..k] == Before(p) && InOrder(t)[k..] == After(p);
  }

  // ----- Removal -----

  ghost predicate BlackChildren(s: Tree)
    requires s.Bin?
  {
    !IsRed(s.left) && !IsRed(s.right)
  }

  ghost function RotatedRight(t: Tree): Tree
    requires t.Bin? && t.left.Bin?
  {
    var l := t.left;
    Bin(l.left, l.node, l.red, Bin(l.right, t.node, t.red, t.right))
  }

  ghost function RotatedLeft(t: Tree): Tree
    requires t.Bin? && t.right.Bin?
  {
    var r := t.right;
    Bin(Bin(t.left, t.node, t.red, r.left), r.node, r.red, r.right)
  }

  ghost function WithSibling(p: Path, s: Tree): Path
    requires !p.Top?
  {
    if p.InLeft? then p.(right := s) else p.(left := s)
  }

  /** The hole's nephews: the sibling's child on the hole's side, and the one away from it. */
  ghost function Near(p: Path): Tree
    requires !p.Top? && Sibling(p).Bin?
  {
    if p.InLeft? then p.right.left else p.left.right
  }

  ghost function Far(p: Path): Tree
    requires !p.Top? && Sibling(p).Bin?
  {
    if p.InLeft? then p.right.right else p.left.left
  }

  ghost function WithFar(p: Path, red: bool): Path
    requires !p.Top? && Sibling(p).Bin? && Far(p).Bin?
  {
    var f := Far(p).(red := red);
    WithSibling(p, if p.InLeft? then p.right.(right := f) else p.left.(left := f))
  }

  /** The sibling rotated above the parent, and the near nephew rotated above the sibling. */
  ghost function SiblingUp(p: Path): Path
    requires !p.Top? && Sibling(p).Bin?
  {
    var s := Sibling(p);
    if p.InLeft? then InLeft(p.node, p.red, s.left, InLeft(s.node, s.red, s.right, p.up))
    else InRight(s.right, p.node, p.red, InRight(s.left, s.node, s.red, p.up))
  }

  ghost function NephewUp(p: Path): Path
    requires !p.Top? && Sibling(p).Bin? && Near(p).Bin?
  {
    WithSibling(p, if p.InLeft? then RotatedRight(p.right) else RotatedLeft(p.left))
  }

  /** A red sibling and its parent exchange colours, and the sibling goes up. */
  ghost function RedSiblingUp(p: Path): Path
    requires !p.Top? && Sibling(p).Bin?
  {
    SiblingUp(WithSibling(p.(red := true), Blacken(Sibling(p))))
  }

  /** A red near nephew becomes the black sibling, and the old sibling its red far child. */
  ghost function Straightened(p: Path): Path
    requires !p.Top? && Sibling(p).Bin? && Near(p).Bin?
  {
    var q := WithFar(NephewUp(p), true);
    WithSibling(q, Blacken(Sibling(q)))
  }

  /** A sibling goes up with the parent's colour, above a black parent and a black far nephew. */
  ghost function BorrowedStraight(p: Path): Path
    requires !p.Top? && Sibling(p).Bin?
  {
    var q := SiblingUp(p);
    q.(red := false, up := WithSibling(q.up.(red := p.red), Blacken(Far(p))))
  }

  ghost function Borrowed(p: Path): Path
    requires !p.Top? && Sibling(p).Bin?
  {
    if IsRed(Near(p)) && !IsRed(Far(p)) then BorrowedStraight(Straightened(p)) else BorrowedStraight(p)
  }

  /** With a black sibling, where the parent or a nephew is red. */
  ghost function Settled(p: Path): Path
    requires !p.Top? && Sibling(p).Bin?
  {
    if p.red && BlackChildren(Sibling(p)) then WithSibling(p.(red := false), Redden(Sibling(p)))
    else Borrowed(p)
  }

  /** The path after the removal repair.  The subtree in the hole is about to lose one black
      level; the repair looks only at the path, never into the hole. */
  ghost function FixPath(p: Path): Path
    decreases p
  {
    if p.Top? || Sibling(p).Leaf? then p
    else
      var s := Sibling(p);
      if s.red then
        var q := RedSiblingUp(p);
        if Sibling(q).Leaf? then q else Settled(q)
      else if p.red || !BlackChildren(s) then Settled(p)
      else WithSibling(p, Redden(s)).(up := FixPath(p.up))
  }

  /** A hole above a black sibling of height h + 1 is settled for a subtree of height h. */
  lemma SettledFits(p: Path, h: nat)
    requires Fits(p, h + 1, false) && !p.Top? && !IsRed(Sibling(p))
    requires p.red || (Sibling(p).Bin? && !BlackChildren(Sibling(p)))
    ensures Fits(Settled(p), h, false)
  {
    var s, c := Sibling(p), p.red;
    assert Fits(p.up, if c then h + 1 else h + 2, c);
    assert Even(s.left) && Even(s.right) && NoRedRed(s.left) && NoRedRed(s.right);
    if c && BlackChildren(s) {
    } else if IsRed(Near(p)) && !IsRed(Far(p)) {
      StraightenedFits(p, h);
      BorrowedFits(Straightened(p), h);
    } else {
      BorrowedFits(p, h);
    }
  }

  lemma StraightenedFits(p: Path, h: nat)
    requires Fits(p, h + 1, false) && !p.Top? && Sibling(p).Bin? && !Sibling(p).red && IsRed(Near(p)) && !IsRed(Far(p))
    ensures var q := Straightened(p);
      Fits(q, h + 1, false) && !q.Top? && Sibling(q).Bin? && !Sibling(q).red && IsRed(Far(q))
  {
    var s, x, q := Sibling(p), Near(p), Straightened(p);
    assert Even(x) && NoRedRed(x) && Even(Far(p)) && NoRedRed(Far(p));
    var near, far := if p.InLeft? then x.left else x.right, if p.InLeft? then x.right else x.left;
    assert Even(near) && Even(far) && NoRedRed(near) && NoRedRed(far);
    var far' := if p.InLeft? then Bin(far, s.node, true, s.right) else Bin(s.left, s.node, true, far);
    assert Even(far') && NoRedRed(far') && BlackHeight(far') == h;
    assert Sibling(q) == if p.InLeft? then Bin(near, x.node, false, far') else Bin(far', x.node, false, near);
  }

  lemma BorrowedFits(p: Path, h: nat)
    requires Fits(p, h + 1, false) && !p.Top? && Sibling(p).Bin? && !Sibling(p).red && IsRed(Far(p))
    ensures Fits(BorrowedStraight(p), h, false)
  {
    var s, c := Sibling(p), p.red;
    assert Fits(p.up, if c then h + 1 else h + 2, c);
    assert Even(s.left) && Even(s.right) && NoRedRed(s.left) && NoRedRed(s.right);
  }

  /** The repair turns a path that wants one black level more than it will get into one that fits. */
  lemma {:induction false} FixPathFits(p: Path, h: nat)
    requires Fits(p, h + 1, false)
    ensures Fits(FixPath(p), h, false)
    decreases p
  {
    if p.Top? { return; }
    var s, c := Sibling(p), p.red;
    assert Fits(p.up, if c then h + 1 else h + 2, c);
    assert Even(s.left) && Even(s.right) && NoRedRed(s.left) && NoRedRed(s.right);
    if s.red {
      var q := RedSiblingUp(p);
      assert Fits(q.up, h + 1, true);
      assert Fits(q, h + 1, false);
      SettledFits(q, h);
    } else if c || !BlackChildren(s) {
      SettledFits(p, h);
    } else {
      FixPathFits(p.up, h + 1);
    }
  }

  // None of the steps changes the order of the nodes.

  lemma RecolourInOrder(t: Tree, red: bool)
    ensures t.Bin? ==> InOrder(t.(red := red)) == InOrder(t)
  {
  }

  lemma SiblingUpInOrder(p: Path)
    requires !p.Top? && Sibling(p).Bin?
    ensures Before(SiblingUp(p)) == Before(p) && After(SiblingUp(p)) == After(p)
  {
    var s, n := Sibling(p), [p.node];
    var a, m, b := InOrder(s.left), [s.node], InOrder(s.right);
    assert n + a + (m + b + After(p.up)) == n + (a + m + b) + After(p.up);
    assert Before(p.up) + a + m + b + n == Before(p.up) + (a + m + b) + n;
  }

  lemma WithSiblingInOrder(p: Path, s: Tree)
    requires !p.Top? && InOrder(s) == InOrder(Sibling(p))
    ensures Before(WithSibling(p, s)) == Before(p) && After(WithSibling(p, s)) == After(p)
  {
  }

  lemma SettledInOrder(p: Path)
    requires !p.Top? && Sibling(p).Bin?
    ensures Before(Settled(p)) == Before(p) && After(Settled(p)) == After(p)
  {
    var s := Sibling(p);
    if p.red && BlackChildren(s) {
      RecolourInOrder(s, true);
      WithSiblingInOrder(p, Redden(s));
    } else if IsRed(Near(p)) && !IsRed(Far(p)) {
      StraightenedInOrder(p);
      BorrowedInOrder(Straightened(p));
    } else {
      BorrowedInOrder(p);
    }
  }

  lemma BorrowedInOrder(p: Path)
    requires !p.Top? && Sibling(p).Bin?
    ensures Before(BorrowedStraight(p)) == Before(p) && After(BorrowedStraight(p)) == After(p)
  {
    SiblingUpInOrder(p);
    RecolourInOrder(Far(p), false);
    WithSiblingInOrder(SiblingUp(p).up, Blacken(Far(p)));
  }

  lemma StraightenedInOrder(p: Path)
    requires !p.Top? && Sibling(p).Bin? && Near(p).Bin?
    ensures Before(Straightened(p)) == Before(p) && After(Straightened(p)) == After(p)
  {
    var s := Sibling(p);
    if p.InLeft? {
      RotationInOrder(s.left.left, s.left.node, s.left.right, s.node, s.right, s.left.red, s.red, false, true);
    } else {
      RotationInOrder(s.left, s.node, s.right.left, s.right.node, s.right.right, true, false, s.red, s.right.red);
    }
    WithSiblingInOrder(p, Sibling(Straightened(p)));
  }

  lemma {:induction false} FixPathInOrder(p: Path)
    ensures Before(FixPath(p)) == Before(p) && After(FixPath(p)) == After(p)
    decreases p
  {
    if p.Top? || Sibling(p).Leaf? { return; }
    var s := Sibling(p);
    if s.red {
      var r := WithSibling(p.(red := true), Blacken(s));
      RecolourInOrder(s, false);
      WithSiblingInOrder(p.(red := true), Blacken(s));
      SiblingUpInOrder(r);
      if Sibling(SiblingUp(r)).Bin? { SettledInOrder(SiblingUp(r)); }
    } else if p.red || !BlackChildren(s) {
      SettledInOrder(p);
    } else {
      RecolourInOrder(s, true);
      WithSiblingInOrder(p, Redden(s));
      FixPathInOrder(p.up);
    }
  }

  /** The leftmost position of a tree: the subtree there, and the way to it. */
  ghost function Leftmost(t: Tree): Tree
    requires t.Bin?
    ensures Leftmost(t).Bin? && Leftmost(t).left.Leaf?
  {
    if t.left.Leaf? then t else Leftmost(t.left)
  }

  ghost function Spine(t: Tree, p: Path): Path
    requires t.Bin?
  {
    if t.left.Leaf? then p else Spine(t.left, InLeft(t.node, t.red, t.right, p))
  }

  lemma {:induction false} SpinePlugs(t: Tree, p: Path)
    requires t.Bin?
    ensures Plug(Spine(t, p), Leftmost(t)) == Plug(p, t)
    ensures !p.Top? ==> !Spine(t, p).Top?
    decreases t
  {
    if t.left.Bin? { SpinePlugs(t.left, InLeft(t.node, t.red, t.right, p)); }
  }

  /** The nodes of t outside its leftmost subtree. */
  ghost function SpineNodes(t: Tree): set<Node>
    requires t.Bin?
  {
    if t.left.Leaf? then {} else {t.node} + Nodes(t.right) + SpineNodes(t.left)
  }

  lemma {:induction false} SpineSplits(t: Tree)
    requires t.Bin?
    ensures Nodes(t) == SpineNodes(t) + Nodes(Leftmost(t))
    ensures Distinct(t) ==> SpineNodes(t) !! Nodes(Leftmost(t)) && Distinct(Leftmost(t))
    decreases t
  {
    if t.left.Bin? { SpineSplits(t.left); }
  }

  /** A spine of more than one node hides the path it starts from. */
  lemma {:induction false} SpineParents(t: Tree, p: Path, q: Path)
    requires t.Bin?
    ensures t.left.Bin? ==> Parent(Spine(t, p)) == Parent(Spine(t, q)) && Spine(t, p).InLeft? && Spine(t, p).node in SpineNodes(t)
    ensures t.left.Leaf? ==> Spine(t, p) == p && Spine(t, q) == q
    decreases t
  {
    if t.left.Bin? {
      SpineParents(t.left, InLeft(t.node, t.red, t.right, p), InLeft(t.node, t.red, t.right, q));
    }
  }

  lemma {:induction false} SpineDistinct(t: Tree, p: Path)
    requires t.Bin? && Distinct(t) && PathDistinct(p) && PathNodes(p) !! SpineNodes(t)
    ensures PathDistinct(Spine(t, p)) && PathNodes(Spine(t, p)) == PathNodes(p) + SpineNodes(t)
    decreases t
  {
    if t.left.Bin? {
      SpineSplits(t.left);
      SpineDistinct(t.left, InLeft(t.node, t.red, t.right, p));
    }
  }

  /** Exchanging a node with its successor keeps all nodes apart. */
  lemma {:induction false} SwapSeparate(p: Path, t: Tree)
    requires t.Bin? && t.right.Bin? && Separate(p, t)
    ensures var s := Leftmost(t.right);
      var q := Spine(t.right, InRight(t.left, s.node, t.red, p));
      && Separate(q, Bin(Leaf, t.node, s.red, s.right))
      && PathNodes(q) + {t.node} + Nodes(s.right) == PathNodes(p) + Nodes(t)
  {
    SpineSplits(t.right);
    SpineDistinct(t.right, InRight(t.left, Leftmost(t.right).node, t.red, p));
  }

  datatype Position = Position(path: Path, tree: Tree)

  /** Where a node is: the path to it and the subtree it heads. */
  ghost function Locate(t: Tree, p: Path, n: Node): (r: Position)
    requires n in Nodes(t)
    ensures Plug(r.path, r.tree) == Plug(p, t) && r.tree.Bin? && r.tree.node == n
    decreases t
  {
    if t.node == n then Position(p, t)
    else if n in Nodes(t.left) then Locate(t.left, InLeft(t.node, t.red, t.right, p), n)
    else Locate(t.right, InRight(t.left, t.node, t.red, p), n)
  }

  ghost function Without(s: seq<Node>, n: Node): seq<Node> {
    if s == [] then [] else if s[0] == n then s[1..] else [s[0]] + Without(s[1..], n)
  }

  lemma {:induction false} WithoutMiddle(a: seq<Node>, n: Node, b: seq<Node>)
    requires n !in a
    ensures Without(a + [n] + b, n) == a + b
  {
    if a == [] {
      assert a + [n] + b == [n] + b;
    } else {
      assert (a + [n] + b)[1..] == a[1..] + [n] + b;
      WithoutMiddle(a[1..], n, b);
    }
  }

  /** Taking out a node that has at most one child. */
  ghost function Excise(p: Path, t: Tree): Tree
    requires t.Bin? && (t.left.Leaf? || t.right.Leaf?)
  {
    if t.left.Bin? then Plug(p, Blacken(t.left))
    else if t.right.Bin? then Plug(p, Blacken(t.right))
    else if t.red || p.Top? then Plug(p, Leaf)
    else Plug(FixPath(p), Leaf)
  }

  /** Taking out any node: one with two children first changes places with its successor. */
  ghost function Remove(p: Path, t: Tree): Tree
    requires t.Bin?
  {
    if t.left.Leaf? || t.right.Leaf? then Excise(p, t)
    else
      var s := Leftmost(t.right);
      Excise(Spine(t.right, InRight(t.left, s.node, t.red, p)), Bin(Leaf, t.node, s.red, s.right))
  }

  lemma {:induction false} ExciseInOrder(p: Path, t: Tree)
    requires t.Bin? && (t.left.Leaf? || t.right.Leaf?)
    ensures InOrder(Excise(p, t)) == Before(p) + InOrder(t.left) + InOrder(t.right) + After(p)
  {
    PlugInOrder(p, Leaf);
    PlugInOrder(FixPath(p), Leaf);
    FixPathInOrder(p);
    PlugInOrder(p, Blacken(t.left));
    PlugInOrder(p, Blacken(t.right));
  }

  lemma {:induction false} ExciseIsRedBlack(p: Path, t: Tree)
    requires t.Bin? && (t.left.Leaf? || t.right.Leaf?)
    requires IsRedBlack(Plug(p, t))
    ensures IsRedBlack(Excise(p, t))
  {
    PlugRedBlack(p, t);
    if t.left.Bin? { PlugRedBlack(p, Blacken(t.left)); }
    else if t.right.Bin? { PlugRedBlack(p, Blacken(t.right)); }
    else if t.red || p.Top? { FitsAnyColour(p, 0, t.red); PlugRedBlack(p, Leaf); }
    else { FixPathFits(p, 0); PlugRedBlack(FixPath(p), Leaf); }
  }

  lemma FitsAnyColour(p: Path, h: nat, holeRed: bool)
    requires ColouredPath(p, holeRed)
    ensures ColouredPath(p, false)
  {
  }

  lemma {:induction false} SpineInOrder(t: Tree, p: Path)
    requires t.Bin?
    ensures Before(Spine(t, p)) == Before(p)
    ensures InOrder(Leftmost(t)) + After(Spine(t, p)) == InOrder(t) + After(p)
    decreases t
  {
    if t.left.Bin? { SpineInOrder(t.left, InLeft(t.node, t.red, t.right, p)); }
  }

  /** The nodes on the spine do not care which node sits above or below them. */
  lemma {:induction false} SpineFits(t: Tree, p: Path, h: nat)
    requires t.Bin? && NoRedRed(t) && Even(t)
    requires h == BlackHeight(t) && Fits(p, h, IsRed(t))
    ensures var s := Leftmost(t); Fits(Spine(t, p), BlackHeight(s), s.red) && NoRedRed(s) && Even(s)
    decreases t
  {
    if t.left.Bin? { SpineFits(t.left, InLeft(t.node, t.red, t.right, p), BlackHeight(t.left)); }
  }

  lemma {:induction false} SwapIsRedBlack(p: Path, t: Tree)
    requires t.Bin? && t.right.Bin? && IsRedBlack(Plug(p, t))
    ensures var s := Leftmost(t.right);
      IsRedBlack(Plug(Spine(t.right, InRight(t.left, s.node, t.red, p)), Bin(Leaf, t.node, s.red, s.right)))
  {
    PlugRedBlack(p, t);
    var s := Leftmost(t.right);
    var q := InRight(t.left, s.node, t.red, p);
    SpineFits(t.right, q, BlackHeight(t.right));
    PlugRedBlack(Spine(t.right, q), Bin(Leaf, t.node, s.red, s.right));
  }

  /** Removing any node of a red-black tree leaves a red-black tree. */
  lemma {:induction false} RemoveIsRedBlack(p: Path, t: Tree)
    requires t.Bin? && IsRedBlack(Plug(p, t))
    ensures IsRedBlack(Remove(p, t))
  {
    if t.left.Leaf? || t.right.Leaf? {
      ExciseIsRedBlack(p, t);
    } else {
      var s := Leftmost(t.right);
      SwapIsRedBlack(p, t);
      ExciseIsRedBlack(Spine(t.right, InRight(t.left, s.node, t.red, p)), Bin(Leaf, t.node, s.red, s.right));
    }
  }

  /** ... and takes exactly that node out of the order. */
  lemma {:induction false} RemoveInOrder(p: Path, t: Tree)
    requires t.Bin?
    ensures InOrder(Remove(p, t)) == Before(p) + InOrder(t.left) + InOrder(t.right) + After(p)
  {
    if t.left.Leaf? || t.right.Leaf? {
      ExciseInOrder(p, t);
    } else {
      var s := Leftmost(t.right);
      var q := InRight(t.left, s.node, t.red, p);
      SpineInOrder(t.right, q);
      ExciseInOrder(Spine(t.right, q), Bin(Leaf, t.node, s.red, s.right));
      var a := Before(p) + InOrder(t.left);
      Regroup(a, [s.node], InOrder(s.right), After(Spine(t.right, q)));
      assert InOrder(s) == [s.node] + InOrder(s.right);
      assert a + (InOrder(t.right) + After(p)) == a + InOrder(t.right) + After(p);
    }
  }

  lemma Regroup(a: seq<Node>, b: seq<Node>, c: seq<Node>, d: seq<Node>)
    ensures a + b + [] + c + d == a + (b + c + d)
  {
  }

  /** In a tree of distinct nodes, a located node splits the in-order sequence. */
  lemma {:induction false} LocateSplits(t: Tree, n: Node)
    requires n in Nodes(t) && Distinct(t)
    ensures var at := Locate(t, Top, n);
      var a, b := Before(at.path) + InOrder(at.tree.left), InOrder(at.tree.right) + After(at.path);
      InOrder(t) == a + [n] + b && n !in a && n !in b
  {
    hide Distinct, Nodes;
    var at := Locate(t, Top, n);
    var a, b := Before(at.path) + InOrder(at.tree.left), InOrder(at.tree.right) + After(at.path);
    PlugInOrder(at.path, at.tree);
    assert InOrder(t) == a + [n] + b;
    DistinctInOrder(t);
    AloneInOrder(a, n, b);
  }

  lemma AloneInOrder(a: seq<Node>, n: Node, b: seq<Node>)
    requires NoDuplicates(a + [n] + b)
    ensures n !in a && n !in b
  {
    var s := a + [n] + b;
    assert s[|a|] == n;
    assert forall i :: 0 <= i < |a| ==> a[i] == s[i] != s[|a|];
    assert forall i :: 0 <= i < |b| ==> b[i] == s[|a| + 1 + i] != s[|a|];
  }

  /** Removing a node of a tree, by name: exactly that node leaves the in-order sequence. */
  lemma {:induction false} RemoveLeavesTheRest(t: Tree, n: Node)
    requires n in Nodes(t) && Distinct(t)
    ensures var at := Locate(t, Top, n);
      && InOrder(Remove(at.path, at.tree)) == Without(InOrder(t), n)
      && Nodes(Remove(at.path, at.tree)) == Nodes(t) - {n}
  {
    var at := Locate(t, Top, n);
    var p, u := at.path, at.tree;
    var a, b := Before(p) + InOrder(u.left), InOrder(u.right) + After(p);
    LocateSplits(t, n);
    RemoveInOrder(p, u);
    assert InOrder(Remove(p, u)) == a + b;
    WithoutMiddle(a, n, b);
    WithoutNodes(t, Remove(p, u), a, n, b);
  }

  lemma WithoutNodes(t: Tree, t': Tree, a: seq<Node>, n: Node, b: seq<Node>)
    requires InOrder(t) == a + [n] + b && InOrder(t') == a + b && n !in a && n !in b
    ensures Nodes(t') == Nodes(t) - {n}
  {
    NodesAreInOrder(t);
    NodesAreInOrder(t');
  }

  // ----- Neighbours in order -----

  ghost function First(s: seq<Node>): Node? {
    if s == [] then null else s[0]
  }

  ghost function Last(s: seq<Node>): Node? {
    if s == [] then null else s[|s| - 1]
  }

  ghost function Rightmost(t: Tree): Node
    requires t.Bin?
  {
    if t.right.Leaf? then t.node else Rightmost(t.right)
  }

  lemma {:induction false} LeftmostIsFirst(t: Tree)
    requires t.Bin?
    ensures First(InOrder(t)) == Leftmost(t).node
  {
    if t.left.Bin? { LeftmostIsFirst(t.left); }
  }

  lemma {:induction false} RightmostIsLast(t: Tree)
    requires t.Bin?
    ensures Last(InOrder(t)) == Rightmost(t)
  {
    if t.right.Bin? { RightmostIsLast(t.right); }
  }

  ghost function At(s: seq<Node>, k: int): Node? {
    if 0 <= k < |s| then s[k] else null
  }

  /** m comes right after n in the sequence; null stands before the start and past the end. */
  ghost predicate Follows(s: seq<Node>, n: Node?, m: Node?) {
    exists k :: -1 <= k < |s| && At(s, k) == n && At(s, k + 1) == m
  }

  ghost predicate NoDuplicates(s: seq<Node>) {
    forall i, j :: 0 <= i < j < |s| ==> s[i] != s[j]
  }

  /** Among distinct nodes, what follows a node is determined, and so is what it follows. */
  lemma FollowsUnique(s: seq<Node>, i: nat, m: Node?)
    requires NoDuplicates(s) && i < |s|
    ensures Follows(s, s[i], m) <==> m == At(s, i + 1)
    ensures Follows(s, m, s[i]) <==> m == At(s, i - 1)
  {
    if m == At(s, i + 1) { assert At(s, i) == s[i]; }
    if m == At(s, i - 1) { assert At(s, i - 1 + 1) == s[i]; }
  }

  lemma {:induction false} WithoutAt(s: seq<Node>, i: nat)
    requires NoDuplicates(s) && i < |s|
    ensures Without(s, s[i]) == s[..i] + s[i + 1..]
    ensures NoDuplicates(Without(s, s[i]))
  {
    assert s == s[..i] + [s[i]] + s[i + 1..];
    WithoutMiddle(s[..i], s[i], s[i + 1..]);
    var r := s[..i] + s[i + 1..];
    assert forall j :: 0 <= j < |r| ==> r[j] == s[if j < i then j else j + 1];
  }

  /** Deleting while walking: with the successor computed first, taking a node out leaves its
      neighbours adjacent, and the successor is still in the sequence. */
  lemma FollowsSurvivesRemoval(s: seq<Node>, n: Node, prev: Node?, next: Node?)
    requires NoDuplicates(s) && n in s && Follows(s, prev, n) && Follows(s, n, next)
    ensures Follows(Without(s, n), prev, next)
    ensures next != null ==> next in Without(s, n)
  {
    var i :| 0 <= i < |s| && s[i] == n;
    FollowsUnique(s, i, prev);
    FollowsUnique(s, i, next);
    WithoutAt(s, i);
    var r := Without(s, n);
    assert At(r, i - 1) == prev && At(r, i - 1 + 1) == next;
  }

  // ----- Height -----

  ghost function Height(t: Tree): nat {
    match t
    case Leaf => 0
    case Bin(l, _, _, r) => 1 + if Height(l) > Height(r) then Height(l) else Height(r)
  }

  ghost function Pow2(n: nat): nat {
    if n == 0 then 1 else 2 * Pow2(n - 1)
  }

  lemma {:induction false} HeightBound(t: Tree)
    requires NoRedRed(t) && Even(t)
    ensures Height(t) <= 2 * BlackHeight(t) + if IsRed(t) then 1 else 0
    ensures Pow2(BlackHeight(t)) <= |InOrder(t)| + 1
  {
    match t
    case Leaf =>
    case Bin(l, _, _, r) => HeightBound(l); HeightBound(r);
  }
  lemma {:induction false} Pow2Monotone(m: nat, n: nat)
    requires m <= n
    ensures Pow2(m) <= Pow2(n)
  {
    if m < n { Pow2Monotone(m, n - 1); }
  }

  /** A descent of up to Height(t) steps takes at most 2 * log2(n + 1) of them, for n nodes. */
  lemma StepsBound(t: Tree, steps: nat)
    requires IsRedBlack(t) && steps <= Height(t)
    ensures Pow2((steps + 1) / 2) <= |InOrder(t)| + 1
  {
    HeightBound(t);
    Pow2Monotone((steps + 1) / 2, BlackHeight(t));
  }

  // ----- Orders -----

  type Key = seq<int>

  /** The source's comparison functions: a total preorder with results -1, 0 and 1. */
  ghost predicate TotalOrder(compare: (Key, Key) -> int) {
    && (forall a, b :: -1 <= compare(a, b) <= 1)
    && (forall a, b :: compare(a, b) == -compare(b, a))
    && (forall a, b, c :: compare(a, b) <= 0 && compare(b, c) <= 0 ==> compare(a, c) <= 0)
  }

  ghost predicate Ascending(s: seq<Node>, compare: (Key, Key) -> int) {
    forall i, j :: 0 <= i < j < |s| ==> compare(s[i].key, s[j].key) < 0
  }

  /** The comparisons of a key along a sequence: positive, then at most one zero, then negative. */
  ghost predicate Ordered(s: seq<Node>, compare: (Key, Key) -> int, key: Key) {
    forall i, j :: 0 <= i < j < |s| ==>
      && (compare(key, s[j].key) >= 0 ==> compare(key, s[i].key) > 0)
      && (compare(key, s[i].key) <= 0 ==> compare(key, s[j].key) < 0)
  }

  lemma AscendingIsOrdered(s: seq<Node>, compare: (Key, Key) -> int, key: Key)
    requires TotalOrder(compare) && Ascending(s, compare)
    ensures Ordered(s, compare, key)
  {
    forall i, j | 0 <= i < j < |s|
      ensures compare(key, s[j].key) >= 0 ==> compare(key, s[i].key) > 0
      ensures compare(key, s[i].key) <= 0 ==> compare(key, s[j].key) < 0
    {
      var a, b := s[i].key, s[j].key;
      assert compare(a, b) < 0 && compare(b, a) > 0;
      assert compare(b, key) <= 0 && compare(key, a) <= 0 ==> compare(b, a) <= 0;
      assert compare(b, key) == -compare(key, b);
    }
  }
}
