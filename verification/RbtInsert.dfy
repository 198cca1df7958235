/** Insertion: linking a red leaf and repairing the colours upward. */
module RbtInsert {
  import opened RbtShape
  import opened RbtHeap
  import RbtRotate

  /** Case 2, left rotation at the parent: until case 3 follows, the grandparent still points at
      `parent` and the parent word of `node` is stale. */
  method Case2Left(node: Node, parent: Node, ghost a: Tree, ghost inner: Tree, ghost outer: Tree)
    requires Apart3(parent, node, a, inner, outer)
    requires !IsRed(inner) && node.left == Ptr(inner) && node.right == Ptr(outer)
    requires parent.left == Ptr(a) && Mirrors(a, parent) && Mirrors(inner, node) && Mirrors(outer, node)
    modifies parent`right, parent`pc, node`left, (if node.left == null then {} else {node.left})`pc
    ensures node.left == parent && Mirrors(Branch(a, parent, Red, inner), node) && Mirrors(outer, node)
  {
    var tmp := node.left;
    parent.right := tmp;
    node.left := parent;
    if tmp != null {
      tmp.pc := ParentColor(parent, Black);
    }
    assert Mirrors(inner, parent);
    parent.pc := ParentColor(node, Red);
    assert Mirrors(a, parent);
  }

  /** Case 2, right rotation at the parent: until case 3 follows, the grandparent still points at
      `parent` and the parent word of `node` is stale. */
  method Case2Right(node: Node, parent: Node, ghost a: Tree, ghost inner: Tree, ghost outer: Tree)
    requires Apart3(parent, node, a, inner, outer)
    requires !IsRed(inner) && node.right == Ptr(inner) && node.left == Ptr(outer)
    requires parent.right == Ptr(a) && Mirrors(a, parent) && Mirrors(inner, node) && Mirrors(outer, node)
    modifies parent`left, parent`pc, node`right, (if node.right == null then {} else {node.right})`pc
    ensures node.right == parent && Mirrors(Branch(inner, parent, Red, a), node) && Mirrors(outer, node)
  {
    var tmp := node.right;
    parent.left := tmp;
    node.right := parent;
    if tmp != null {
      tmp.pc := ParentColor(parent, Black);
    }
    assert Mirrors(inner, parent);
    parent.pc := ParentColor(node, Red);
    assert Mirrors(a, parent);
  }

  lemma Apart5Left(t: Tree)
    requires t.Branch? && Distinct(t) && t.left.Branch? && t.right.Branch?
    ensures Apart3(t.left.node, t.node, t.left.left, t.left.right, t.right.left)
    ensures t.left.node !in Nodes(t.right) && t.node !in Nodes(t.right) && Nodes(t.left.right) !! Nodes(t.right)
  {
  }

  lemma Apart5Right(t: Tree)
    requires t.Branch? && Distinct(t) && t.right.Branch? && t.left.Branch?
    ensures Apart3(t.right.node, t.node, t.right.right, t.right.left, t.left.right)
    ensures t.right.node !in Nodes(t.left) && t.node !in Nodes(t.left) && Nodes(t.right.left) !! Nodes(t.left)
  {
  }

  /** Cases 2 and 3 in a row, for a red node that is the inner grandchild. */
  method Cases2And3Left(root: Root, node: Node, parent0: Node, gparent: Node,
                        ghost up: Path, ghost a: Tree, ghost inner: Tree, ghost outer: Tree, ghost u: Tree, ghost t1: Tree)
    requires root.Shows(up, Branch(Branch(a, parent0, Red, Branch(inner, node, Red, outer)), gparent, Black, u))
    requires t1 == Branch(Branch(a, parent0, Red, inner), node, Black, Branch(outer, gparent, Red, u))
    requires !IsRed(inner) && !IsRed(outer)
    requires Distinct(t1) && Nodes(t1) == Nodes(Branch(Branch(a, parent0, Red, Branch(inner, node, Red, outer)), gparent, Black, u))
    modifies root`node, Union(up, t1)`left, Union(up, t1)`right, Union(up, t1)`pc
    ensures root.Shows(up, t1)
  {
    Apart(up, t1);
    Apart5Left(t1);
    assert Mirrors(Branch(a, parent0, Red, Branch(inner, node, Red, outer)), gparent);
    assert Mirrors(Branch(inner, node, Red, outer), parent0);
    var parent := parent0;
    var tmp := parent.right;
    Case2Left(node, parent, a, inner, outer);
    assert Mirrors(u, gparent) && Linked(up, gparent, null);
    parent := node;
    tmp := node.right;
    RbtRotate.TurnRight(root, gparent, parent, tmp, up, Branch(a, parent0, Red, inner), outer, u, t1);
  }

  /** Cases 2 and 3 in a row, for a red node that is the inner grandchild. */
  method Cases2And3Right(root: Root, node: Node, parent0: Node, gparent: Node,
                        ghost up: Path, ghost a: Tree, ghost inner: Tree, ghost outer: Tree, ghost u: Tree, ghost t1: Tree)
    requires root.Shows(up, Branch(u, gparent, Black, Branch(Branch(outer, node, Red, inner), parent0, Red, a)))
    requires t1 == Branch(Branch(u, gparent, Red, outer), node, Black, Branch(inner, parent0, Red, a))
    requires !IsRed(inner) && !IsRed(outer)
    requires Distinct(t1) && Nodes(t1) == Nodes(Branch(u, gparent, Black, Branch(Branch(outer, node, Red, inner), parent0, Red, a)))
    modifies root`node, Union(up, t1)`right, Union(up, t1)`left, Union(up, t1)`pc
    ensures root.Shows(up, t1)
  {
    Apart(up, t1);
    Apart5Right(t1);
    assert Mirrors(Branch(Branch(outer, node, Red, inner), parent0, Red, a), gparent);
    assert Mirrors(Branch(outer, node, Red, inner), parent0);
    var parent := parent0;
    var tmp := parent.left;
    Case2Right(node, parent, a, inner, outer);
    assert Mirrors(u, gparent) && Linked(up, gparent, null);
    parent := node;
    tmp := node.left;
    RbtRotate.TurnLeft(root, gparent, parent, tmp, up, Branch(inner, parent0, Red, a), outer, u, t1);
  }

  /** Cases 2 and 3 for a red parent that is the left child of a black grandparent: they end the loop. */
  method FinishLeft(root: Root, node: Node, parent: Node, gparent: Node, ghost p: Path, ghost t: Tree, ghost h: nat)
    returns (ghost t1: Tree)
    requires IsRed(t) && t.node == node && Balanced(t, h)
    requires !p.Top? && p.node == parent && p.color == Red && Fits(p, h)
    requires p.up.InLeft? && p.up.node == gparent && !IsRed(p.up.right)
    requires root.Shows(p.up.up, Join(p.up, Join(p, t)))
    modifies root`node, Union(p.up.up, Join(p.up, Join(p, t)))`left, Union(p.up.up, Join(p.up, Join(p, t)))`right,
             Union(p.up.up, Join(p.up, Join(p, t)))`pc
    ensures root.Shows(p.up.up, t1)
    ensures Balanced(t1, h + 1) && !IsRed(t1)
    ensures SameContents(t1, Join(p.up, Join(p, t)))
  {
    ghost var up, u := p.up.up, p.up.right;
    assert Mirrors(Join(p, t), gparent) && Distinct(Join(p, t));
    var tmp := parent.right;
    if node == tmp {
      assert p.InRight?;
      ghost var a, inner, outer := p.left, t.left, t.right;
      ghost var b := Branch(a, parent, Red, inner);
      t1 := Branch(b, node, Black, Branch(outer, gparent, Red, u));
      Rotated(a, parent, inner, node, outer, Red, Red, Red, Red);
      SameContentsUnder(Branch(a, parent, Red, t), gparent, Black, u, Branch(b, node, Red, outer), u, Black);
      Rotated(b, node, outer, gparent, u, Black, Red, Red, Black);
      Cases2And3Left(root, node, parent, gparent, up, a, inner, outer, u, t1);
    } else {
      assert p.InLeft?;
      t1 := Branch(t, parent, Black, Branch(p.right, gparent, Red, u));
      Rotated(t, parent, p.right, gparent, u, Black, Red, Red, Black);
      Apart(up, t1);
      RbtRotate.TurnRight(root, gparent, parent, tmp, up, t, p.right, u, t1);
    }
  }

  /** Cases 2 and 3 for a red parent that is the right child of a black grandparent: they end the loop. */
  method FinishRight(root: Root, node: Node, parent: Node, gparent: Node, ghost p: Path, ghost t: Tree, ghost h: nat)
    returns (ghost t1: Tree)
    requires IsRed(t) && t.node == node && Balanced(t, h)
    requires !p.Top? && p.node == parent && p.color == Red && Fits(p, h)
    requires p.up.InRight? && p.up.node == gparent && !IsRed(p.up.left)
    requires root.Shows(p.up.up, Join(p.up, Join(p, t)))
    modifies root`node, Union(p.up.up, Join(p.up, Join(p, t)))`right, Union(p.up.up, Join(p.up, Join(p, t)))`left,
             Union(p.up.up, Join(p.up, Join(p, t)))`pc
    ensures root.Shows(p.up.up, t1)
    ensures Balanced(t1, h + 1) && !IsRed(t1)
    ensures SameContents(t1, Join(p.up, Join(p, t)))
  {
    ghost var up, u := p.up.up, p.up.left;
    assert Mirrors(Join(p, t), gparent) && Distinct(Join(p, t));
    var tmp := parent.left;
    if node == tmp {
      assert p.InLeft?;
      ghost var a, inner, outer := p.right, t.right, t.left;
      ghost var b := Branch(inner, parent, Red, a);
      t1 := Branch(Branch(u, gparent, Red, outer), node, Black, b);
      Rotated(outer, node, inner, parent, a, Red, Red, Red, Red);
      SameContentsUnder(u, gparent, Black, Branch(outer, node, Red, b), u, Branch(t, parent, Red, a), Black);
      Rotated(u, gparent, outer, node, b, Black, Red, Red, Black);
      Cases2And3Right(root, node, parent, gparent, up, a, inner, outer, u, t1);
    } else {
      assert p.InRight?;
      t1 := Branch(Branch(u, gparent, Red, p.left), parent, Black, t);
      Rotated(u, gparent, p.left, parent, t, Black, Red, Red, Black);
      Apart(up, t1);
      RbtRotate.TurnLeft(root, gparent, parent, tmp, up, t, p.left, u, t1);
    }
  }

  /** Case 1: a black node with two red children hands its colour to them. */
  method FlipColors(root: Root, gparent: Node, x: Node, y: Node, ghost up: Path, ghost a: Tree, ghost b: Tree)
    requires IsRed(a) && IsRed(b) && Ptr(a) == x && Ptr(b) == y
    requires root.Shows(up, Branch(a, gparent, Black, b))
    modifies {gparent, x, y}`pc
    ensures root.Shows(up, Branch(a.(color := Black), gparent, Red, b.(color := Black)))
  {
    ghost var t := Branch(a, gparent, Black, b);
    Apart(up, t);
    assert Mirrors(a, gparent) && Distinct(a) && Mirrors(b, gparent) && Distinct(b) && Nodes(a) !! Nodes(b);
    x.pc := ParentColor(gparent, Black);
    y.pc := ParentColor(gparent, Black);
    gparent.pc := ParentColor(gparent.pc.parent, Red);
    assert Mirrors(a.(color := Black), gparent);
    assert Mirrors(b.(color := Black), gparent);
  }

  /** One turn of the repair loop for a red node under a red parent. `next` is the red node to go on
      from, or null when the tree is repaired. */
  method RepairRedParent(root: Root, node: Node, parent: Node, ghost p: Path, ghost t: Tree, ghost h: nat)
    returns (next: Node?, ghost t1: Tree)
    requires IsRed(t) && t.node == node && Balanced(t, h) && Fits(p, h)
    requires !p.Top? && p.node == parent && p.color == Red
    requires root.Shows(p.up.up, Join(p.up, Join(p, t)))
    modifies root`node, Union(p.up.up, Join(p.up, Join(p, t)))`left, Union(p.up.up, Join(p.up, Join(p, t)))`right,
             Union(p.up.up, Join(p.up, Join(p, t)))`pc
    ensures root.Shows(p.up.up, t1) && Balanced(t1, h + 1)
    ensures SameContents(t1, Join(p.up, Join(p, t)))
    ensures next == if IsRed(t1) then t1.node else null
  {
    ghost var up, was := p.up.up, Join(p.up, Join(p, t));
    assert Mirrors(Join(p, t), p.up.node);
    // the word of a red node is just its parent pointer
    var gparent := parent.pc.parent;
    var tmp := gparent.right;
    if parent != tmp {
      assert p.up.InLeft?;
      assert Mirrors(p.up.right, gparent);
      if tmp != null && tmp.pc.color == Red {
        FlipColors(root, gparent, parent, tmp, up, was.left, was.right);
        t1 := Branch(was.left.(color := Black), gparent, Red, was.right.(color := Black));
        next := gparent;
      } else {
        t1 := FinishLeft(root, node, parent, gparent, p, t, h);
        next := null;
      }
    } else {
      assert p.up.InRight?;
      tmp := gparent.left;
      assert Mirrors(p.up.left, gparent);
      if tmp != null && tmp.pc.color == Red {
        FlipColors(root, gparent, tmp, parent, up, was.left, was.right);
        t1 := Branch(was.left.(color := Black), gparent, Red, was.right.(color := Black));
        next := gparent;
      } else {
        t1 := FinishRight(root, node, parent, gparent, p, t, h);
        next := null;
      }
    }
  }

  /** `root` shows a red node with parent `parent` that may clash with it; filled in, the tree holds
      what `whole` holds. */
  ghost predicate Pending(root: Root, node: Node, parent: Node?, p: Path, t: Tree, h: nat, whole: Tree)
    reads root, PathNodes(p), Nodes(t)
  {
    IsRed(t) && t.node == node && parent == ParentOf(p, null) &&
    Balanced(t, h) && Fits(p, h) && root.Shows(p, t) && SameContents(Fill(p, t), whole)
  }

  lemma TwoUp(p: Path, t: Tree, h: nat)
    requires Fits(p, h) && !p.Top? && p.color == Red
    ensures !p.up.Top? && p.up.color == Black && Fits(p.up, h) && Fits(p.up.up, h + 1)
    ensures Fill(p, t) == Fill(p.up.up, Join(p.up, Join(p, t))) && Length(p) == Length(p.up.up) + 2
  {
    assert Fits(p.up, h) && Fill(p, t) == Fill(p.up, Join(p, t));
  }

  method RepairUp(root: Root, node: Node, parent: Node, ghost p: Path, ghost t: Tree, ghost h: nat, ghost whole: Tree)
    returns (next: Node?, ghost t1: Tree)
    requires Pending(root, node, parent, p, t, h, whole) && p.color == Red
    modifies root`node, Nodes(whole)`left, Nodes(whole)`right, Nodes(whole)`pc
    ensures Length(p.up.up) < Length(p)
    ensures next == null ==> Finished(root, Fill(p.up.up, t1), whole)
    ensures next != null ==> Pending(root, next, next.pc.parent, p.up.up, t1, h + 1, whole)
  {
    ghost var was := Join(p.up, Join(p, t));
    root.ShowsUp(p, t);
    root.ShowsUp(p.up, Join(p, t));
    FillNodes(p.up.up, was);
    TwoUp(p, t, h);
    next, t1 := RepairRedParent(root, node, parent, p, t, h);
    SameContentsFill(p.up.up, t1, was);
    if next == null {
      root.ShowsFill(p.up.up, t1);
      FillRedBlack(p.up.up, t1, h + 1);
    }
  }

  /** The red node is the root: it turns black. */
  method BlackenRoot(root: Root, node: Node, ghost p: Path, ghost t: Tree, ghost h: nat, ghost whole: Tree)
    returns (ghost t1: Tree)
    requires Pending(root, node, null, p, t, h, whole)
    modifies Nodes(whole)`pc
    ensures Finished(root, t1, whole)
  {
    FillNodes(p, t);
    node.pc := ParentColor(null, Black);
    t1 := t.(color := Black);
    FillRedBlack(Top, t1, h + 1);
  }

  /** The red node has a black parent: nothing is wrong. */
  lemma BlackParent(root: Root, node: Node, parent: Node, p: Path, t: Tree, h: nat, whole: Tree)
    requires Pending(root, node, parent, p, t, h, whole) && parent.pc.color == Black
    ensures Finished(root, Fill(p, t), whole)
  {
    root.ShowsFill(p, t);
    FillRedBlack(p, t, h);
  }

  /** Restores the colours after a red leaf `n` was linked at the end of `p0`. */
  method InsertColor(root: Root, n: Node, ghost p0: Path, ghost whole: Tree) returns (ghost t1: Tree)
    requires whole == Fill(p0, Branch(Leaf, n, Red, Leaf))
    requires root.Shows(Top, whole) && Fits(p0, 0)
    modifies root`node, Nodes(whole)`left, Nodes(whole)`right, Nodes(whole)`pc
    ensures Finished(root, t1, whole)
  {
    ghost var p, t, h := p0, Branch(Leaf, n, Red, Leaf), 0;
    root.ShowsFill(p, t);
    var node: Node, parent: Node? := n, n.pc.parent;
    while true
      invariant Pending(root, node, parent, p, t, h, whole)
      decreases Length(p)
    {
      if parent == null {
        t1 := BlackenRoot(root, node, p, t, h, whole);
        return;
      } else if parent.pc.color == Black {
        t1 := Fill(p, t);
        BlackParent(root, node, parent, p, t, h, whole);
        return;
      }
      var next;
      next, t := RepairUp(root, node, parent, p, t, h, whole);
      p, h := p.up.up, h + 1;
      if next == null {
        t1 := Fill(p, t);
        return;
      }
      node, parent := next, next.pc.parent;
    }
  }
}
