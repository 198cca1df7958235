/** Erasure: splicing a node out, and repairing the black heights upward. */
module RbtErase {
  import opened RbtShape
  import opened RbtHeap
  import RbtRotate

  /** The links below the root of `t` agree with `t`; its own parent word may not. */
  ghost predicate Hangs(t: Tree)
    reads Nodes(t)
  {
    t.Branch? && t.node.left == Ptr(t.left) && t.node.right == Ptr(t.right) &&
    Mirrors(t.left, t.node) && Mirrors(t.right, t.node)
  }

  /** Case 3, rotation at the sibling: the parent words of the old and of the new sibling stay stale
      until case 4 follows. */
  method Case3Left(parent: Node, sibling: Node, tmp2: Node, ghost i: Tree, ghost j: Tree, ghost k: Tree)
    requires Apart3(sibling, tmp2, i, j, k) && parent !in {sibling, tmp2} + Nodes(i) + Nodes(j) + Nodes(k)
    requires !IsRed(j) && tmp2.left == Ptr(i) && tmp2.right == Ptr(j) && sibling.right == Ptr(k)
    requires Mirrors(i, tmp2) && Mirrors(j, tmp2) && Mirrors(k, sibling)
    modifies sibling`left, tmp2`right, parent`right, (if tmp2.right == null then {} else {tmp2.right})`pc
    ensures parent.right == tmp2 && tmp2.left == Ptr(i) && tmp2.right == sibling && Mirrors(i, tmp2)
    ensures sibling.left == Ptr(j) && sibling.right == Ptr(k) && Mirrors(j, sibling) && Mirrors(k, sibling)
  {
    var tmp1 := tmp2.right;
    sibling.left := tmp1;
    tmp2.right := sibling;
    parent.right := tmp2;
    if tmp1 != null {
      tmp1.pc := ParentColor(sibling, Black);
    }
    assert Mirrors(j, sibling);
  }

  /** Case 3, rotation at the sibling: the parent words of the old and of the new sibling stay stale
      until case 4 follows. */
  method Case3Right(parent: Node, sibling: Node, tmp2: Node, ghost i: Tree, ghost j: Tree, ghost k: Tree)
    requires Apart3(sibling, tmp2, i, j, k) && parent !in {sibling, tmp2} + Nodes(i) + Nodes(j) + Nodes(k)
    requires !IsRed(j) && tmp2.right == Ptr(i) && tmp2.left == Ptr(j) && sibling.left == Ptr(k)
    requires Mirrors(i, tmp2) && Mirrors(j, tmp2) && Mirrors(k, sibling)
    modifies sibling`right, tmp2`left, parent`left, (if tmp2.left == null then {} else {tmp2.left})`pc
    ensures parent.left == tmp2 && tmp2.right == Ptr(i) && tmp2.left == sibling && Mirrors(i, tmp2)
    ensures sibling.right == Ptr(j) && sibling.left == Ptr(k) && Mirrors(j, sibling) && Mirrors(k, sibling)
  {
    var tmp1 := tmp2.left;
    sibling.right := tmp1;
    tmp2.left := sibling;
    parent.left := tmp2;
    if tmp1 != null {
      tmp1.pc := ParentColor(sibling, Black);
    }
    assert Mirrors(j, sibling);
  }

  lemma Roots(near: Tree, far: Tree)
    requires far.Branch?
    ensures far.node in Nodes(far) && (near.Branch? ==> near.node in Nodes(near))
    ensures Nodes(far.(color := Black)) == Nodes(far)
  {
  }

  /** The root of the tree becomes a black child of `parent`. */
  method Blacken(node: Node, parent: Node, ghost far: Tree)
    requires Hangs(far) && far.node == node && Distinct(far)
    modifies node`pc
    ensures Mirrors(far.(color := Black), parent)
  {
    node.pc := ParentColor(parent, Black);
  }

  /** The root of the tree, if any, becomes a child of `parent`, of the colour it has. */
  method NewParent(node: Node?, parent: Node, ghost was: Node, ghost near: Tree)
    requires Mirrors(near, was) && Ptr(near) == node && Distinct(near)
    modifies (if node == null then {} else {node})`pc
    ensures Mirrors(near, parent)
  {
    if node != null {
      node.pc := node.pc.(parent := parent);
    }
  }

  /** The sibling takes over the parent's word, and the parent becomes its black child. */
  method SwapWords(parent: Node, sibling: Node)
    requires parent != sibling
    modifies parent`pc, sibling`pc
    ensures sibling.pc == old(parent.pc) && parent.pc == ParentColor(sibling, Black)
  {
    sibling.pc := parent.pc;
    parent.pc := ParentColor(sibling, Black);
  }

  /** Case 4, rotation at the parent, short of redirecting the link above it. `far` is the tree of the
      sibling's outer child, `near` that of its inner child. */
  method Case4Left(parent: Node, sibling: Node, tmp1: Node, ghost s: Tree, ghost near: Tree, ghost far: Tree)
    requires Apart3(parent, sibling, s, near, far) && far.Branch? && far.node == tmp1
    requires Mirrors(s, parent) && Mirrors(near, sibling) && Hangs(far)
    requires sibling.left == Ptr(near) && sibling.right == tmp1 && parent.left == Ptr(s)
    modifies parent`right, parent`pc, sibling`left, sibling`pc, tmp1`pc
    modifies (if sibling.left == null then {} else {sibling.left})`pc
    ensures Mirrors(s, parent) && Mirrors(near, parent) && Mirrors(far.(color := Black), sibling)
    ensures parent.right == Ptr(near) && parent.pc == ParentColor(sibling, Black)
    ensures sibling.left == parent && sibling.pc == old(parent.pc)
  {
    NodesAllocated(s);
    NodesAllocated(near);
    NodesAllocated(far);
    Roots(near, far);
    var tmp2 := sibling.left;
    assert tmp1 != parent && tmp1 != sibling && tmp1 !in Nodes(s) && tmp1 !in Nodes(near);
    assert tmp2 != null ==> tmp2 != parent && tmp2 != sibling && tmp2 !in Nodes(s) && tmp2 !in Nodes(far);
    hide Mirrors, Distinct, Hangs, Nodes, Apart3;
    parent.right := tmp2;
    sibling.left := parent;
    Blacken(tmp1, sibling, far);
    NewParent(tmp2, parent, sibling, near);
    SwapWords(parent, sibling);
  }

  /** Case 4, rotation at the parent, short of redirecting the link above it. `far` is the tree of the
      sibling's outer child, `near` that of its inner child. */
  method Case4Right(parent: Node, sibling: Node, tmp1: Node, ghost s: Tree, ghost near: Tree, ghost far: Tree)
    requires Apart3(parent, sibling, s, near, far) && far.Branch? && far.node == tmp1
    requires Mirrors(s, parent) && Mirrors(near, sibling) && Hangs(far)
    requires sibling.right == Ptr(near) && sibling.left == tmp1 && parent.right == Ptr(s)
    modifies parent`left, parent`pc, sibling`right, sibling`pc, tmp1`pc
    modifies (if sibling.right == null then {} else {sibling.right})`pc
    ensures Mirrors(s, parent) && Mirrors(near, parent) && Mirrors(far.(color := Black), sibling)
    ensures parent.left == Ptr(near) && parent.pc == ParentColor(sibling, Black)
    ensures sibling.right == parent && sibling.pc == old(parent.pc)
  {
    NodesAllocated(s);
    NodesAllocated(near);
    NodesAllocated(far);
    Roots(near, far);
    var tmp2 := sibling.right;
    assert tmp1 != parent && tmp1 != sibling && tmp1 !in Nodes(s) && tmp1 !in Nodes(near);
    assert tmp2 != null ==> tmp2 != parent && tmp2 != sibling && tmp2 !in Nodes(s) && tmp2 !in Nodes(far);
    hide Mirrors, Distinct, Hangs, Nodes, Apart3;
    parent.left := tmp2;
    sibling.right := parent;
    Blacken(tmp1, sibling, far);
    NewParent(tmp2, parent, sibling, near);
    SwapWords(parent, sibling);
  }

  /** The link above, which led to `was`, leads to the tree. */
  method Relink(root: Root, was: Node, child: Node, above: Node?, ghost up: Path, ghost t1: Tree)
    requires t1.Branch? && t1.node == child && was in Nodes(t1) && Distinct(t1)
    requires DistinctPath(up, Nodes(t1)) && Mirrors(t1, above)
    requires above == ParentOf(up, null) && Linked(up, was, null) && root.node == RootPtr(up, was)
    modifies root`node, PathNodes(up)`left, PathNodes(up)`right
    ensures root.Shows(up, t1)
  {
    DistinctPathDisjoint(up, Nodes(t1));
    NodesAllocated(t1);
    hide Mirrors, Nodes, PathNodes, Distinct, DistinctPath, Linked;
    root.ChangeChild(was, child, above, up, Nodes(t1));
  }

  lemma Case4PartsLeft(parent: Node, sibling: Node, color: Color, s: Tree, near: Tree, far: Tree)
    requires far.Branch?
    requires Distinct(Branch(Branch(s, parent, Black, near), sibling, color, far.(color := Black)))
    ensures var nodes := Nodes(Branch(Branch(s, parent, Black, near), sibling, color, far.(color := Black)));
      && parent in nodes && sibling in nodes && far.node in nodes && (near.Branch? ==> near.node in nodes)
    ensures Apart3(parent, sibling, s, near, far)
  {
    Roots(near, far);
  }

  /** Case 4, as a tree below whatever is above. */
  method Case4TreeLeft(parent: Node, sibling: Node, tmp1: Node, above: Node?,
                     ghost color: Color, ghost s: Tree, ghost near: Tree, ghost far: Tree, ghost t1: Tree)
    requires Apart3(parent, sibling, s, near, far) && far.Branch? && far.node == tmp1
    requires t1 == Branch(Branch(s, parent, Black, near), sibling, color, far.(color := Black))
    requires Mirrors(s, parent) && Mirrors(near, sibling) && Hangs(far)
    requires sibling.left == Ptr(near) && sibling.right == tmp1 && parent.left == Ptr(s)
    requires parent.pc == ParentColor(above, color)
    modifies parent`right, parent`pc, sibling`left, sibling`pc, tmp1`pc
    modifies (if sibling.left == null then {} else {sibling.left})`pc
    ensures Mirrors(t1, above)
  {
    assert parent != sibling;
    hide Apart3, Distinct, Hangs, Nodes;
    Case4Left(parent, sibling, tmp1, s, near, far);
  }

  /** Case 4 with the link above redirected. */
  method Case4TurnLeft(root: Root, parent: Node, sibling: Node, tmp1: Node,
                       ghost up: Path, ghost color: Color, ghost s: Tree, ghost near: Tree, ghost far: Tree, ghost t1: Tree)
    requires far.Branch? && far.node == tmp1
    requires t1 == Branch(Branch(s, parent, Black, near), sibling, color, far.(color := Black))
    requires Distinct(t1) && DistinctPath(up, Nodes(t1))
    requires Mirrors(s, parent) && Mirrors(near, sibling) && Hangs(far)
    requires sibling.left == Ptr(near) && sibling.right == tmp1 && parent.left == Ptr(s)
    requires parent.pc == ParentColor(ParentOf(up, null), color)
    requires Linked(up, parent, null) && root.node == RootPtr(up, parent)
    modifies root`node, Union(up, t1)`left, Union(up, t1)`right, Union(up, t1)`pc
    ensures root.Shows(up, t1)
  {
    Apart(up, t1);
    Case4PartsLeft(parent, sibling, color, s, near, far);
    var above := parent.pc.parent;
    hide Distinct, DistinctPath, Apart3, Nodes, PathNodes, Mirrors, Hangs, Linked, root.Shows;
    Case4TreeLeft(parent, sibling, tmp1, above, color, s, near, far, t1);
    Relink(root, parent, sibling, above, up, t1);
  }

  lemma Case4PartsRight(parent: Node, sibling: Node, color: Color, s: Tree, near: Tree, far: Tree)
    requires far.Branch?
    requires Distinct(Branch(far.(color := Black), sibling, color, Branch(near, parent, Black, s)))
    ensures var nodes := Nodes(Branch(far.(color := Black), sibling, color, Branch(near, parent, Black, s)));
      && parent in nodes && sibling in nodes && far.node in nodes && (near.Branch? ==> near.node in nodes)
    ensures Apart3(parent, sibling, s, near, far)
  {
    Roots(near, far);
  }

  /** Case 4, as a tree below whatever is above. */
  method Case4TreeRight(parent: Node, sibling: Node, tmp1: Node, above: Node?,
                     ghost color: Color, ghost s: Tree, ghost near: Tree, ghost far: Tree, ghost t1: Tree)
    requires Apart3(parent, sibling, s, near, far) && far.Branch? && far.node == tmp1
    requires t1 == Branch(far.(color := Black), sibling, color, Branch(near, parent, Black, s))
    requires Mirrors(s, parent) && Mirrors(near, sibling) && Hangs(far)
    requires sibling.right == Ptr(near) && sibling.left == tmp1 && parent.right == Ptr(s)
    requires parent.pc == ParentColor(above, color)
    modifies parent`left, parent`pc, sibling`right, sibling`pc, tmp1`pc
    modifies (if sibling.right == null then {} else {sibling.right})`pc
    ensures Mirrors(t1, above)
  {
    assert parent != sibling;
    hide Apart3, Distinct, Hangs, Nodes;
    Case4Right(parent, sibling, tmp1, s, near, far);
  }

  /** Case 4 with the link above redirected. */
  method Case4TurnRight(root: Root, parent: Node, sibling: Node, tmp1: Node,
                       ghost up: Path, ghost color: Color, ghost s: Tree, ghost near: Tree, ghost far: Tree, ghost t1: Tree)
    requires far.Branch? && far.node == tmp1
    requires t1 == Branch(far.(color := Black), sibling, color, Branch(near, parent, Black, s))
    requires Distinct(t1) && DistinctPath(up, Nodes(t1))
    requires Mirrors(s, parent) && Mirrors(near, sibling) && Hangs(far)
    requires sibling.right == Ptr(near) && sibling.left == tmp1 && parent.right == Ptr(s)
    requires parent.pc == ParentColor(ParentOf(up, null), color)
    requires Linked(up, parent, null) && root.node == RootPtr(up, parent)
    modifies root`node, Union(up, t1)`right, Union(up, t1)`left, Union(up, t1)`pc
    ensures root.Shows(up, t1)
  {
    Apart(up, t1);
    Case4PartsRight(parent, sibling, color, s, near, far);
    var above := parent.pc.parent;
    hide Distinct, DistinctPath, Apart3, Nodes, PathNodes, Mirrors, Hangs, Linked, root.Shows;
    Case4TreeRight(parent, sibling, tmp1, above, color, s, near, far, t1);
    Relink(root, parent, sibling, above, up, t1);
  }

  lemma ApartSiblingLeft(t: Tree)
    requires t.Branch? && Distinct(t) && t.left.Branch? && t.right.Branch?
    ensures Apart3(t.right.node, t.node, t.left.right, t.right.left, t.right.right)
    ensures t.left.node !in {t.right.node, t.node} + Nodes(t.left.right) + Nodes(t.right.left) + Nodes(t.right.right)
    ensures t.right.node !in Nodes(t.left.left) && t.node !in Nodes(t.left.left)
    ensures Nodes(t.left.left) !! Nodes(t.right) && t.left.node !in Nodes(t.left.left)
  {
  }

  lemma ApartSiblingRight(t: Tree)
    requires t.Branch? && Distinct(t) && t.right.Branch? && t.left.Branch?
    ensures Apart3(t.left.node, t.node, t.right.left, t.left.right, t.left.left)
    ensures t.right.node !in {t.left.node, t.node} + Nodes(t.right.left) + Nodes(t.left.right) + Nodes(t.left.left)
    ensures t.left.node !in Nodes(t.right.right) && t.node !in Nodes(t.right.right)
    ensures Nodes(t.right.right) !! Nodes(t.left) && t.right.node !in Nodes(t.right.right)
  {
  }

  /** The links around a sibling whose inner child is red. */
  lemma {:induction false} InnerRedLeft(root: Root, parent: Node, sibling: Node, tmp2: Node, up: Path, color: Color,
                                        s: Tree, i: Tree, j: Tree, k: Tree)
    requires root.Shows(up, Branch(s, parent, color, Branch(Branch(i, tmp2, Red, j), sibling, Black, k)))
    ensures root.node == RootPtr(up, parent) && Linked(up, parent, null)
    ensures parent.pc == ParentColor(ParentOf(up, null), color) && parent.left == Ptr(s) && Mirrors(s, parent)
    ensures tmp2.left == Ptr(i) && tmp2.right == Ptr(j) && Mirrors(i, tmp2) && Mirrors(j, tmp2)
    ensures sibling.right == Ptr(k) && Mirrors(k, sibling)
  {
    hide Distinct, DistinctPath, Linked, Nodes;
    assert Mirrors(Branch(Branch(i, tmp2, Red, j), sibling, Black, k), parent);
    assert Mirrors(Branch(i, tmp2, Red, j), sibling);
  }

  lemma {:induction false} InnerRedRight(root: Root, parent: Node, sibling: Node, tmp2: Node, up: Path, color: Color,
                                         s: Tree, i: Tree, j: Tree, k: Tree)
    requires root.Shows(up, Branch(Branch(k, sibling, Black, Branch(j, tmp2, Red, i)), parent, color, s))
    ensures root.node == RootPtr(up, parent) && Linked(up, parent, null)
    ensures parent.pc == ParentColor(ParentOf(up, null), color) && parent.right == Ptr(s) && Mirrors(s, parent)
    ensures tmp2.right == Ptr(i) && tmp2.left == Ptr(j) && Mirrors(i, tmp2) && Mirrors(j, tmp2)
    ensures sibling.left == Ptr(k) && Mirrors(k, sibling)
  {
    hide Distinct, DistinctPath, Linked, Nodes;
    assert Mirrors(Branch(k, sibling, Black, Branch(j, tmp2, Red, i)), parent);
    assert Mirrors(Branch(j, tmp2, Red, i), sibling);
  }

  /** Cases 3 and 4 in a row, for a sibling whose inner child alone is red. */
  method Cases3And4Left(root: Root, parent: Node, sibling0: Node, tmp2: Node,
                        ghost up: Path, ghost color: Color, ghost s: Tree,
                        ghost i: Tree, ghost j: Tree, ghost k: Tree, ghost t1: Tree)
    requires root.Shows(up, Branch(s, parent, color, Branch(Branch(i, tmp2, Red, j), sibling0, Black, k)))
    requires t1 == Branch(Branch(s, parent, Black, i), tmp2, color, Branch(j, sibling0, Black, k)) && !IsRed(j)
    requires Distinct(t1) && Nodes(t1) == Nodes(Branch(s, parent, color, Branch(Branch(i, tmp2, Red, j), sibling0, Black, k)))
    modifies root`node, Union(up, t1)`left, Union(up, t1)`right, Union(up, t1)`pc
    ensures root.Shows(up, t1)
  {
    InnerRedLeft(root, parent, sibling0, tmp2, up, color, s, i, j, k);
    assert DistinctPath(up, Nodes(t1));
    Apart(up, t1);
    ApartSiblingLeft(t1);
    hide Distinct, DistinctPath, Mirrors, Linked, PathNodes, root.Shows;
    var sibling := sibling0;
    Case3Left(parent, sibling, tmp2, i, j, k);
    var tmp1 := sibling;
    sibling := tmp2;
    Case4TurnLeft(root, parent, sibling, tmp1, up, color, s, i, Branch(j, tmp1, Black, k), t1);
  }

  /** Cases 3 and 4 in a row, for a sibling whose inner child alone is red. */
  method Cases3And4Right(root: Root, parent: Node, sibling0: Node, tmp2: Node,
                        ghost up: Path, ghost color: Color, ghost s: Tree,
                        ghost i: Tree, ghost j: Tree, ghost k: Tree, ghost t1: Tree)
    requires root.Shows(up, Branch(Branch(k, sibling0, Black, Branch(j, tmp2, Red, i)), parent, color, s))
    requires t1 == Branch(Branch(k, sibling0, Black, j), tmp2, color, Branch(i, parent, Black, s)) && !IsRed(j)
    requires Distinct(t1) && Nodes(t1) == Nodes(Branch(Branch(k, sibling0, Black, Branch(j, tmp2, Red, i)), parent, color, s))
    modifies root`node, Union(up, t1)`right, Union(up, t1)`left, Union(up, t1)`pc
    ensures root.Shows(up, t1)
  {
    InnerRedRight(root, parent, sibling0, tmp2, up, color, s, i, j, k);
    assert DistinctPath(up, Nodes(t1));
    Apart(up, t1);
    ApartSiblingRight(t1);
    hide Distinct, DistinctPath, Mirrors, Linked, PathNodes, root.Shows;
    var sibling := sibling0;
    Case3Right(parent, sibling, tmp2, i, j, k);
    var tmp1 := sibling;
    sibling := tmp2;
    Case4TurnRight(root, parent, sibling, tmp1, up, color, s, i, Branch(k, tmp1, Black, j), t1);
  }

  lemma Cases3And4LeftKeep(s: Tree, x: Node, c: Color, i: Tree, y: Node, j: Tree, z: Node, k: Tree, h: nat)
    requires Balanced(s, h) && Balanced(Branch(Branch(i, y, Red, j), z, Black, k), h + 1) && !IsRed(k)
    ensures SameContents(Branch(Branch(s, x, Black, i), y, c, Branch(j, z, Black, k)),
                         Branch(s, x, c, Branch(Branch(i, y, Red, j), z, Black, k)))
    ensures Balanced(Branch(Branch(s, x, Black, i), y, c, Branch(j, z, Black, k)), if c.Black? then h + 2 else h + 1)
    ensures !IsRed(j)
  {
    var b, r := Branch(Branch(i, y, Red, j), z, Black, k), Branch(j, z, Black, k);
    Rotated(i, y, j, z, k, Red, Black, Red, Black);
    SameContentsUnder(s, x, c, Branch(i, y, Red, r), s, b, c);
    Rotated(s, x, i, y, r, c, Red, Black, c);
  }

  lemma Case4LeftKeeps(s: Tree, x: Node, c: Color, near: Tree, z: Node, far: Tree, h: nat)
    requires Balanced(s, h) && Balanced(Branch(near, z, Black, far), h + 1) && IsRed(far)
    ensures SameContents(Branch(Branch(s, x, Black, near), z, c, far.(color := Black)),
                         Branch(s, x, c, Branch(near, z, Black, far)))
    ensures Balanced(Branch(Branch(s, x, Black, near), z, c, far.(color := Black)), if c.Black? then h + 2 else h + 1)
  {
    Recolored(far, Black);
    SameContentsUnder(Branch(s, x, Black, near), z, c, far, Branch(s, x, Black, near), far.(color := Black), c);
    Rotated(s, x, near, z, far, c, Black, Black, c);
  }

  lemma Cases3And4RightKeep(s: Tree, x: Node, c: Color, i: Tree, y: Node, j: Tree, z: Node, k: Tree, h: nat)
    requires Balanced(s, h) && Balanced(Branch(k, z, Black, Branch(j, y, Red, i)), h + 1) && !IsRed(k)
    ensures SameContents(Branch(Branch(k, z, Black, j), y, c, Branch(i, x, Black, s)),
                         Branch(Branch(k, z, Black, Branch(j, y, Red, i)), x, c, s))
    ensures Balanced(Branch(Branch(k, z, Black, j), y, c, Branch(i, x, Black, s)), if c.Black? then h + 2 else h + 1)
    ensures !IsRed(j)
  {
    var b, l := Branch(k, z, Black, Branch(j, y, Red, i)), Branch(k, z, Black, j);
    Rotated(k, z, j, y, i, Black, Red, Black, Red);
    SameContentsUnder(Branch(l, y, Red, i), x, c, s, b, s, c);
    Rotated(l, y, i, x, s, c, Black, Red, c);
  }

  lemma Case4RightKeeps(s: Tree, x: Node, c: Color, near: Tree, z: Node, far: Tree, h: nat)
    requires Balanced(s, h) && Balanced(Branch(far, z, Black, near), h + 1) && IsRed(far)
    ensures SameContents(Branch(far.(color := Black), z, c, Branch(near, x, Black, s)),
                         Branch(Branch(far, z, Black, near), x, c, s))
    ensures Balanced(Branch(far.(color := Black), z, c, Branch(near, x, Black, s)), if c.Black? then h + 2 else h + 1)
  {
    Recolored(far, Black);
    SameContentsUnder(far, z, c, Branch(near, x, Black, s), far.(color := Black), Branch(near, x, Black, s), c);
    Rotated(far, z, near, x, s, c, Black, Black, c);
  }

  /** Case 2: the sibling turns red and the parent black. */
  method RecolorLeft(root: Root, parent: Node, sibling: Node, ghost up: Path, ghost color: Color, ghost s: Tree, ghost b: Tree)
    requires b.Branch? && b.node == sibling && root.Shows(up, Branch(s, parent, color, b))
    modifies sibling`pc, parent`pc
    ensures root.Shows(up, Branch(s, parent, Black, b.(color := Red)))
  {
    Apart(up, Branch(s, parent, color, b));
    ApartRight(Branch(s, parent, color, b));
    assert Mirrors(b, parent);
    sibling.pc := ParentColor(parent, Red);
    if parent.pc.color == Red {
      parent.pc := parent.pc.(color := Black);
    }
    assert Mirrors(b.(color := Red), parent);
  }

  /** Case 2: the sibling turns red and the parent black. */
  method RecolorRight(root: Root, parent: Node, sibling: Node, ghost up: Path, ghost color: Color, ghost s: Tree, ghost b: Tree)
    requires b.Branch? && b.node == sibling && root.Shows(up, Branch(b, parent, color, s))
    modifies sibling`pc, parent`pc
    ensures root.Shows(up, Branch(b.(color := Red), parent, Black, s))
  {
    Apart(up, Branch(b, parent, color, s));
    ApartLeft(Branch(b, parent, color, s));
    assert Mirrors(b, parent);
    sibling.pc := ParentColor(parent, Red);
    if parent.pc.color == Red {
      parent.pc := parent.pc.(color := Black);
    }
    assert Mirrors(b.(color := Red), parent);
  }

  /** Cases 3 and 4 for a black sibling on the right with a red child: they end the loop. */
  method FinishLeft(root: Root, parent: Node, sibling: Node, tmp1: Node?, tmp2: Node?,
                    ghost p: Path, ghost s: Tree, ghost h: nat)
    returns (ghost t1: Tree)
    requires p.InLeft? && p.node == parent && Ptr(p.right) == sibling && Balanced(p.right, h + 1) && !IsRed(p.right)
    requires p.right.Branch? && tmp1 == Ptr(p.right.right) && tmp2 == Ptr(p.right.left)
    requires IsRed(p.right.right) || IsRed(p.right.left)
    requires Balanced(s, h) && root.Shows(p.up, Join(p, s))
    modifies root`node, Union(p.up, Join(p, s))`left, Union(p.up, Join(p, s))`right, Union(p.up, Join(p, s))`pc
    ensures root.Shows(p.up, t1) && SameContents(t1, Join(p, s))
    ensures Balanced(t1, if p.color.Black? then h + 2 else h + 1) && (IsRed(t1) ==> p.color.Red?)
  {
    ghost var up, b := p.up, p.right;
    assert Mirrors(b, parent);
    assert Mirrors(b.left, sibling) && Mirrors(b.right, sibling);
    if tmp1 == null || tmp1.pc.color == Black {
      ghost var i, j, k := b.left.left, b.left.right, b.right;
      t1 := Branch(Branch(s, parent, Black, i), tmp2, p.color, Branch(j, sibling, Black, k));
      Cases3And4LeftKeep(s, parent, p.color, i, tmp2, j, sibling, k, h);
      Cases3And4Left(root, parent, sibling, tmp2, up, p.color, s, i, j, k, t1);
    } else {
      t1 := Branch(Branch(s, parent, Black, b.left), sibling, p.color, b.right.(color := Black));
      Case4LeftKeeps(s, parent, p.color, b.left, sibling, b.right, h);
      Case4TurnLeft(root, parent, sibling, tmp1, up, p.color, s, b.left, b.right, t1);
    }
  }

  /** Cases 2 to 4 for a black sibling on the right. `climb` says that the whole subtree is now one
      black node short, so the repair has to go on above it. */
  method BlackSiblingLeft(root: Root, parent: Node, sibling: Node, ghost p: Path, ghost s: Tree, ghost h: nat)
    returns (climb: bool, ghost t1: Tree)
    requires p.InLeft? && p.node == parent && Ptr(p.right) == sibling && !IsRed(p.right)
    requires Balanced(s, h) && !IsRed(s) && Fits(p, h + 1)
    requires root.Shows(p.up, Join(p, s))
    modifies root`node, Union(p.up, Join(p, s))`left, Union(p.up, Join(p, s))`right, Union(p.up, Join(p, s))`pc
    ensures root.Shows(p.up, t1) && SameContents(t1, Join(p, s))
    ensures climb ==> p.color.Black? && Ptr(t1) == parent && !IsRed(t1) && Balanced(t1, h + 1)
    ensures !climb ==> Balanced(t1, if p.color.Black? then h + 2 else h + 1) && (IsRed(t1) ==> p.color.Red?)
  {
    ghost var up, b := p.up, p.right;
    assert Mirrors(b, parent);
    var tmp1 := sibling.right;
    var tmp2 := sibling.left;
    assert Mirrors(b.left, sibling) && Mirrors(b.right, sibling);
    if (tmp1 == null || tmp1.pc.color == Black) && (tmp2 == null || tmp2.pc.color == Black) {
      climb := parent.pc.color == Black;
      RecolorLeft(root, parent, sibling, up, p.color, s, b);
      Recolored(b, Red);
      t1 := Branch(s, parent, Black, b.(color := Red));
    } else {
      t1 := FinishLeft(root, parent, sibling, tmp1, tmp2, p, s, h);
      climb := false;
    }
  }

  /** Cases 3 and 4 for a black sibling on the left with a red child: they end the loop. */
  method FinishRight(root: Root, parent: Node, sibling: Node, tmp1: Node?, tmp2: Node?,
                    ghost p: Path, ghost s: Tree, ghost h: nat)
    returns (ghost t1: Tree)
    requires p.InRight? && p.node == parent && Ptr(p.left) == sibling && Balanced(p.left, h + 1) && !IsRed(p.left)
    requires p.left.Branch? && tmp1 == Ptr(p.left.left) && tmp2 == Ptr(p.left.right)
    requires IsRed(p.left.left) || IsRed(p.left.right)
    requires Balanced(s, h) && root.Shows(p.up, Join(p, s))
    modifies root`node, Union(p.up, Join(p, s))`right, Union(p.up, Join(p, s))`left, Union(p.up, Join(p, s))`pc
    ensures root.Shows(p.up, t1) && SameContents(t1, Join(p, s))
    ensures Balanced(t1, if p.color.Black? then h + 2 else h + 1) && (IsRed(t1) ==> p.color.Red?)
  {
    ghost var up, b := p.up, p.left;
    assert Mirrors(b, parent);
    assert Mirrors(b.right, sibling) && Mirrors(b.left, sibling);
    if tmp1 == null || tmp1.pc.color == Black {
      ghost var i, j, k := b.right.right, b.right.left, b.left;
      t1 := Branch(Branch(k, sibling, Black, j), tmp2, p.color, Branch(i, parent, Black, s));
      Cases3And4RightKeep(s, parent, p.color, i, tmp2, j, sibling, k, h);
      Cases3And4Right(root, parent, sibling, tmp2, up, p.color, s, i, j, k, t1);
    } else {
      t1 := Branch(b.left.(color := Black), sibling, p.color, Branch(b.right, parent, Black, s));
      Case4RightKeeps(s, parent, p.color, b.right, sibling, b.left, h);
      Case4TurnRight(root, parent, sibling, tmp1, up, p.color, s, b.right, b.left, t1);
    }
  }

  /** Cases 2 to 4 for a black sibling on the left. `climb` says that the whole subtree is now one
      black node short, so the repair has to go on above it. */
  method BlackSiblingRight(root: Root, parent: Node, sibling: Node, ghost p: Path, ghost s: Tree, ghost h: nat)
    returns (climb: bool, ghost t1: Tree)
    requires p.InRight? && p.node == parent && Ptr(p.left) == sibling && !IsRed(p.left)
    requires Balanced(s, h) && !IsRed(s) && Fits(p, h + 1)
    requires root.Shows(p.up, Join(p, s))
    modifies root`node, Union(p.up, Join(p, s))`right, Union(p.up, Join(p, s))`left, Union(p.up, Join(p, s))`pc
    ensures root.Shows(p.up, t1) && SameContents(t1, Join(p, s))
    ensures climb ==> p.color.Black? && Ptr(t1) == parent && !IsRed(t1) && Balanced(t1, h + 1)
    ensures !climb ==> Balanced(t1, if p.color.Black? then h + 2 else h + 1) && (IsRed(t1) ==> p.color.Red?)
  {
    ghost var up, b := p.up, p.left;
    assert Mirrors(b, parent);
    var tmp1 := sibling.left;
    var tmp2 := sibling.right;
    assert Mirrors(b.right, sibling) && Mirrors(b.left, sibling);
    if (tmp1 == null || tmp1.pc.color == Black) && (tmp2 == null || tmp2.pc.color == Black) {
      climb := parent.pc.color == Black;
      RecolorRight(root, parent, sibling, up, p.color, s, b);
      Recolored(b, Red);
      t1 := Branch(b.(color := Red), parent, Black, s);
    } else {
      t1 := FinishRight(root, parent, sibling, tmp1, tmp2, p, s, h);
      climb := false;
    }
  }

  /** Case 1: a red sibling is rotated over the parent, which is then red and has a black sibling. */
  method RedSiblingLeft(root: Root, parent: Node, sibling: Node, ghost p: Path, ghost s: Tree, ghost h: nat)
    returns (next: Node, ghost p1: Path)
    requires p.InLeft? && p.node == parent && IsRed(p.right) && p.right.node == sibling && Fits(p, h + 1)
    requires root.Shows(p.up, Join(p, s))
    modifies root`node, Union(p.up, Join(p, s))`left, Union(p.up, Join(p, s))`right, Union(p.up, Join(p, s))`pc
    ensures p1.InLeft? && p1.node == parent && p1.color == Red && Fits(p1, h + 1)
    ensures Ptr(p1.right) == next && !IsRed(p1.right)
    ensures !p1.up.Top? && p1.up.up == p.up && root.Shows(p.up, Join(p1.up, Join(p1, s)))
    ensures SameContents(Join(p1.up, Join(p1, s)), Join(p, s))
  {
    ghost var up, b := p.up, p.right;
    assert Mirrors(b, parent);
    assert Balanced(b.left, h + 1) && Balanced(b.right, h + 1);
    Apart(up, Join(p, s));
    p1 := InLeft(InLeft(up, sibling, Black, b.right), parent, Red, b.left);
    ghost var t1 := Join(p1.up, Join(p1, s));
    Rotated(s, parent, b.left, sibling, b.right, p.color, Red, Red, Black);
    next := sibling.left;
    RbtRotate.TurnLeft(root, parent, sibling, next, up, b.right, b.left, s, t1);
  }

  /** Case 1: a red sibling is rotated over the parent, which is then red and has a black sibling. */
  method RedSiblingRight(root: Root, parent: Node, sibling: Node, ghost p: Path, ghost s: Tree, ghost h: nat)
    returns (next: Node, ghost p1: Path)
    requires p.InRight? && p.node == parent && IsRed(p.left) && p.left.node == sibling && Fits(p, h + 1)
    requires root.Shows(p.up, Join(p, s))
    modifies root`node, Union(p.up, Join(p, s))`right, Union(p.up, Join(p, s))`left, Union(p.up, Join(p, s))`pc
    ensures p1.InRight? && p1.node == parent && p1.color == Red && Fits(p1, h + 1)
    ensures Ptr(p1.left) == next && !IsRed(p1.left)
    ensures !p1.up.Top? && p1.up.up == p.up && root.Shows(p.up, Join(p1.up, Join(p1, s)))
    ensures SameContents(Join(p1.up, Join(p1, s)), Join(p, s))
  {
    ghost var up, b := p.up, p.left;
    assert Mirrors(b, parent);
    assert Balanced(b.right, h + 1) && Balanced(b.left, h + 1);
    Apart(up, Join(p, s));
    p1 := InRight(InRight(up, b.left, sibling, Black), b.right, parent, Red);
    ghost var t1 := Join(p1.up, Join(p1, s));
    Rotated(b.left, sibling, b.right, parent, s, Black, Red, Red, p.color);
    next := sibling.right;
    RbtRotate.TurnRight(root, parent, sibling, next, up, b.left, b.right, s, t1);
  }

  /** Below `p` hangs `s`, one black node short; filled in, the tree holds what `whole` holds. */
  ghost predicate Short(root: Root, parent: Node?, p: Path, s: Tree, h: nat, whole: Tree)
    reads root, PathNodes(p), Nodes(s)
  {
    parent == ParentOf(p, null) && Balanced(s, h) && !IsRed(s) && Fits(p, h + 1) &&
    root.Shows(p, s) && SameContents(Fill(p, s), whole)
  }

  /** One turn of the repair loop when the short subtree is the left child. */
  method RepairLeft(root: Root, parent: Node, ghost p: Path, ghost s: Tree, ghost h: nat)
    returns (climb: bool, ghost q: Path, ghost t1: Tree)
    requires p.InLeft? && p.node == parent && Balanced(s, h) && !IsRed(s) && Fits(p, h + 1)
    requires root.Shows(p.up, Join(p, s))
    modifies root`node, Union(p.up, Join(p, s))`left, Union(p.up, Join(p, s))`right, Union(p.up, Join(p, s))`pc
    ensures root.Shows(q, t1) && SameContents(Fill(q, t1), Fill(p, s))
    ensures climb ==> q == p.up && Ptr(t1) == parent && !IsRed(t1) && Balanced(t1, h + 1) && Fits(q, h + 2)
    ensures !climb ==> exists k :: Fits(q, k) && Balanced(t1, k) && (IsRed(t1) ==> RedAllowed(q))
  {
    var sibling := parent.right;
    assert Balanced(p.right, h + 1) && p.right.Branch?;
    assert Mirrors(p.right, parent);
    if sibling.pc.color == Red {
      ghost var p1;
      sibling, p1 := RedSiblingLeft(root, parent, sibling, p, s, h);
      root.ShowsUp(p1.up, Join(p1, s));
      q := p1.up;
      climb, t1 := BlackSiblingLeft(root, parent, sibling, p1, s, h);
      SameContentsFill(q, t1, Join(p1, s));
      SameContentsFill(p.up, Join(q, Join(p1, s)), Join(p, s));
      assert Fits(q, h + 1) && Balanced(t1, h + 1);
    } else {
      q := p.up;
      climb, t1 := BlackSiblingLeft(root, parent, sibling, p, s, h);
      SameContentsFill(q, t1, Join(p, s));
      assert Fits(q, if p.color.Black? then h + 2 else h + 1);
    }
  }

  /** One turn of the repair loop when the short subtree is the right child. */
  method RepairRight(root: Root, parent: Node, ghost p: Path, ghost s: Tree, ghost h: nat)
    returns (climb: bool, ghost q: Path, ghost t1: Tree)
    requires p.InRight? && p.node == parent && Balanced(s, h) && !IsRed(s) && Fits(p, h + 1)
    requires root.Shows(p.up, Join(p, s))
    modifies root`node, Union(p.up, Join(p, s))`right, Union(p.up, Join(p, s))`left, Union(p.up, Join(p, s))`pc
    ensures root.Shows(q, t1) && SameContents(Fill(q, t1), Fill(p, s))
    ensures climb ==> q == p.up && Ptr(t1) == parent && !IsRed(t1) && Balanced(t1, h + 1) && Fits(q, h + 2)
    ensures !climb ==> exists k :: Fits(q, k) && Balanced(t1, k) && (IsRed(t1) ==> RedAllowed(q))
  {
    var sibling := parent.left;
    assert Balanced(p.left, h + 1) && p.left.Branch?;
    assert Mirrors(p.left, parent);
    if sibling.pc.color == Red {
      ghost var p1;
      sibling, p1 := RedSiblingRight(root, parent, sibling, p, s, h);
      root.ShowsUp(p1.up, Join(p1, s));
      q := p1.up;
      climb, t1 := BlackSiblingRight(root, parent, sibling, p1, s, h);
      SameContentsFill(q, t1, Join(p1, s));
      SameContentsFill(p.up, Join(q, Join(p1, s)), Join(p, s));
      assert Fits(q, h + 1) && Balanced(t1, h + 1);
    } else {
      q := p.up;
      climb, t1 := BlackSiblingRight(root, parent, sibling, p, s, h);
      SameContentsFill(q, t1, Join(p, s));
      assert Fits(q, if p.color.Black? then h + 2 else h + 1);
    }
  }

  /** One turn of the repair loop. When it climbs, the subtree rooted at `parent` is short in its turn. */
  method EraseTurn(root: Root, parent: Node, node: Node?, ghost p: Path, ghost s: Tree, ghost h: nat, ghost whole: Tree)
    returns (climb: bool, ghost q: Path, ghost t: Tree)
    requires Short(root, parent, p, s, h, whole) && node == Ptr(s)
    modifies root`node, Nodes(whole)`left, Nodes(whole)`right, Nodes(whole)`pc
    ensures climb ==> Length(q) < Length(p) && Ptr(t) == parent && Short(root, parent.pc.parent, q, t, h + 1, whole)
    ensures !climb ==> Finished(root, Fill(q, t), whole)
  {
    root.ShowsUp(p, s);
    FillNodes(p.up, Join(p, s));
    assert Fill(p, s) == Fill(p.up, Join(p, s));
    assert Mirrors(Join(p, s), ParentOf(p.up, null)) && Distinct(Join(p, s));
    var sibling := parent.right;
    if node != sibling {
      climb, q, t := RepairLeft(root, parent, p, s, h);
    } else {
      climb, q, t := RepairRight(root, parent, p, s, h);
    }
    if !climb {
      ghost var k :| Fits(q, k) && Balanced(t, k) && (IsRed(t) ==> RedAllowed(q));
      FillRedBlack(q, t, k);
      root.ShowsFill(q, t);
    }
  }

  /** Restores the black heights after a black leaf position fell one short. The loop climbs: each
      turn that does not end it moves one node nearer the root. */
  method EraseColor(root: Root, parent0: Node, ghost p0: Path, ghost h0: nat, ghost whole: Tree)
    returns (ghost t1: Tree)
    requires Short(root, parent0, p0, Leaf, h0, whole)
    modifies root`node, Nodes(whole)`left, Nodes(whole)`right, Nodes(whole)`pc
    ensures Finished(root, t1, whole)
  {
    ghost var p, s, h := p0, Leaf, h0;
    var parent: Node, node: Node? := parent0, null;
    while true
      invariant Short(root, parent, p, s, h, whole) && node == Ptr(s)
      decreases Length(p)
    {
      var climb;
      climb, p, s := EraseTurn(root, parent, node, p, s, h, whole);
      if !climb {
        t1 := Fill(p, s);
        return;
      }
      h := h + 1;
      node := parent;
      var up := node.pc.parent;
      if up == null {
        t1 := s;
        FillRedBlack(Top, s, h);
        return;
      }
      parent := up;
    }
  }
}
