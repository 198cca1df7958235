/** Rotations, as both the insertion and the erasure repair use them. */
module RbtRotate {
  import opened RbtShape
  import opened RbtHeap

  /** Rotates `low` over `top`, which becomes its red right child; the link above is left alone. */
  method RotateRight(top: Node, low: Node, tmp: Node?, ghost a: Tree, ghost c: Tree, ghost u: Tree)
    requires Apart3(low, top, a, c, u)
    requires tmp == Ptr(c) && !IsRed(c) && Mirrors(c, low) && Mirrors(a, low) && Mirrors(u, top)
    modifies top`left, top`pc, low`right, low`pc, (if tmp == null then {} else {tmp})`pc
    ensures Mirrors(a, low) && Mirrors(c, top) && Mirrors(u, top)
    ensures top.left == tmp && top.pc == ParentColor(low, Red)
    ensures low.right == top && low.pc == old(top.pc)
  {
    top.left := tmp;
    low.right := top;
    if tmp != null {
      tmp.pc := ParentColor(top, Black);
    }
    assert Mirrors(c, top);
    low.pc := top.pc;
    top.pc := ParentColor(low, Red);
  }

  /** Rotates `low` over `top`, which becomes its red left child; the link above is left alone. */
  method RotateLeft(top: Node, low: Node, tmp: Node?, ghost a: Tree, ghost c: Tree, ghost u: Tree)
    requires Apart3(low, top, a, c, u)
    requires tmp == Ptr(c) && !IsRed(c) && Mirrors(c, low) && Mirrors(a, low) && Mirrors(u, top)
    modifies top`right, top`pc, low`left, low`pc, (if tmp == null then {} else {tmp})`pc
    ensures Mirrors(a, low) && Mirrors(c, top) && Mirrors(u, top)
    ensures top.right == tmp && top.pc == ParentColor(low, Red)
    ensures low.left == top && low.pc == old(top.pc)
  {
    top.right := tmp;
    low.left := top;
    if tmp != null {
      tmp.pc := ParentColor(top, Black);
    }
    assert Mirrors(c, top);
    low.pc := top.pc;
    top.pc := ParentColor(low, Red);
  }

  /** Rotates `low` over `top` and redirects the link above. On entry the link from `top` down to
      `low` and the parent word of `low` may be stale. */
  method TurnRight(root: Root, top: Node, low: Node, tmp: Node?,
                    ghost up: Path, ghost a: Tree, ghost c: Tree, ghost u: Tree, ghost t: Tree)
    requires t == Branch(a, low, Black, Branch(c, top, Red, u))
    requires Distinct(t) && DistinctPath(up, Nodes(t))
    requires tmp == Ptr(c) && !IsRed(c) && Mirrors(c, low)
    requires low.left == Ptr(a) && Mirrors(a, low)
    requires top.right == Ptr(u) && Mirrors(u, top) && top.pc == ParentColor(ParentOf(up, null), Black)
    requires Linked(up, top, null) && root.node == RootPtr(up, top)
    modifies root`node, Union(up, t)`left, Union(up, t)`right, Union(up, t)`pc
    ensures root.Shows(up, t)
  {
    Apart(up, t);
    assert Apart3(low, top, a, c, u);
    var above := top.pc.parent;
    RotateRight(top, low, tmp, a, c, u);
    assert Mirrors(t, above);
    assert Linked(up, top, null);
    root.ChangeChild(top, low, above, up, Nodes(t));
  }

  /** Rotates `low` over `top` and redirects the link above. On entry the link from `top` down to
      `low` and the parent word of `low` may be stale. */
  method TurnLeft(root: Root, top: Node, low: Node, tmp: Node?,
                    ghost up: Path, ghost a: Tree, ghost c: Tree, ghost u: Tree, ghost t: Tree)
    requires t == Branch(Branch(u, top, Red, c), low, Black, a)
    requires Distinct(t) && DistinctPath(up, Nodes(t))
    requires tmp == Ptr(c) && !IsRed(c) && Mirrors(c, low)
    requires low.right == Ptr(a) && Mirrors(a, low)
    requires top.left == Ptr(u) && Mirrors(u, top) && top.pc == ParentColor(ParentOf(up, null), Black)
    requires Linked(up, top, null) && root.node == RootPtr(up, top)
    modifies root`node, Union(up, t)`right, Union(up, t)`left, Union(up, t)`pc
    ensures root.Shows(up, t)
  {
    Apart(up, t);
    assert Apart3(low, top, a, c, u);
    var above := top.pc.parent;
    RotateLeft(top, low, tmp, a, c, u);
    assert Mirrors(t, above);
    assert Linked(up, top, null);
    root.ChangeChild(top, low, above, up, Nodes(t));
  }
}
