/** Erasing a node: the three splice cases, then the repair. */
module RbtDelete {
  import opened RbtShape
  import opened RbtHeap
  import RbtErase

  /** Case 1: a node with at most one child `c` is replaced by it; the child takes over the whole word. */
  method PullUp(root: Root, node: Node, child: Node?, ghost p: Path, ghost t: Tree, ghost c: Tree)
    requires root.Shows(p, t) && t.Branch? && t.node == node && Ptr(c) == child
    requires (t.left == Leaf && t.right == c) || (t.right == Leaf && t.left == c)
    modifies root`node, PathNodes(p)`left, PathNodes(p)`right, (if child == null then {} else {child})`pc
    ensures root.Shows(p, if c.Leaf? then Leaf else c.(color := t.color))
  {
    Apart(p, t);
    assert Mirrors(c, node) && Distinct(c) && node !in Nodes(c) && Nodes(c) <= Nodes(t);
    NodesAllocated(c);
    ghost var c1 := if c.Leaf? then Leaf else c.(color := t.color);
    DistinctPathShrink(p, Nodes(t), Nodes(c1));
    var pc := node.pc;
    root.ChangeChild(node, child, pc.parent, p, Nodes(t));
    assert Mirrors(c, node);
    if child != null {
      child.pc := pc;
    }
    assert Linked(p, child, null);
    assert Mirrors(c1, ParentOf(p, null));
  }

  /** Case 3, the search for the successor: the leftmost node below `child`. */
  method FindMin(node: Node, child: Node, ghost r: Tree)
    returns (successor: Node, parent: Node, ghost q: Path, ghost s: Tree)
    requires r.Branch? && r.node == child && r.left.Branch? && Mirrors(r, node)
    ensures s.Branch? && s.node == successor && s.left == Leaf && Fill(q, s) == r.left && Leftmost(q)
    ensures Mirrors(s, ParentOf(q, child)) && Linked(q, successor, child) && parent == ParentOf(q, child)
    ensures Mirrors(r, node)
  {
    q, s := Top, r.left;
    successor, parent := child.left, child;
    var tmp := successor.left;
    while tmp != null
      invariant Mirrors(r, node)
      invariant s.Branch? && s.node == successor && Fill(q, s) == r.left && Leftmost(q)
      invariant Mirrors(s, ParentOf(q, child)) && Linked(q, successor, child)
      invariant parent == ParentOf(q, child) && tmp == successor.left
      decreases s
    {
      q, s := InLeft(q, successor, s.color, s.right), s.left;
      parent := successor;
      successor := tmp;
      tmp := tmp.left;
    }
  }

  /** Case 3, the unlinking: the successor leaves its place to its right child and takes `child` as
      its own right child. */
  method DetachMin(successor: Node, parent: Node, child: Node, ghost q: Path, ghost s: Tree, ghost right: Tree)
    returns (child2: Node?)
    requires s.Branch? && s.node == successor && s.left == Leaf && Leftmost(q) && parent == ParentOf(q, child)
    requires Mirrors(s, parent) && Linked(q, successor, child)
    requires child.left == RootPtr(q, successor) && Mirrors(right, child)
    requires DistinctPath(q, Nodes(s)) && child !in Nodes(s) && child !in PathNodes(q) && successor !in Nodes(s.right)
    requires child !in Nodes(right) && Nodes(right) !! Nodes(s) && Nodes(right) !! PathNodes(q)
    modifies parent`left, successor`right, child`pc
    ensures child2 == Ptr(s.right) && Mirrors(s.right, successor) && Linked(q, child2, child)
    ensures child.left == RootPtr(q, child2) && Mirrors(right, child)
    ensures child.pc == old(child.pc).(parent := successor) && successor.right == child
  {
    child2 := successor.right;
    DistinctPathDisjoint(q, Nodes(s));
    if !q.Top? {
      LowestApart(q, Nodes(s));
    }
    hide DistinctPath, Leftmost;
    parent.left := child2;
    successor.right := child;
    child.pc := child.pc.(parent := successor);
    assert Linked(q, child2, child);
  }

  ghost function Blackened(t: Tree): Tree {
    if t.Leaf? then Leaf else t.(color := Black)
  }

  method TakeLeft(successor: Node, tmp: Node, ghost was: Node, ghost l: Tree)
    requires l.Branch? && l.node == tmp && Mirrors(l, was) && Distinct(l) && successor !in Nodes(l)
    modifies successor`left, tmp`pc
    ensures successor.left == tmp && Mirrors(l, successor)
  {
    successor.left := tmp;
    tmp.pc := tmp.pc.(parent := successor);
  }

  /** The successor takes over the erased node's word. Its old place needs a repair when a black node
      left it and no child came to be blackened there. */
  method TakeWord(successor: Node, parent: Node, child2: Node?, pc: ParentColor, ghost m: Path, ghost c2: Tree)
    returns (rebalance: Node?)
    requires Linked(m, child2, successor) && child2 == Ptr(c2) && Mirrors(c2, successor) && Distinct(c2)
    requires parent == ParentOf(m, successor)
    requires successor !in PathNodes(m) && successor !in Nodes(c2) && PathNodes(m) !! Nodes(c2)
    modifies successor`pc, (if child2 == null then {} else {child2})`pc
    ensures successor.pc == pc && Mirrors(Fill(m, Blackened(c2)), successor)
    ensures rebalance == if child2 == null && old(successor.pc.color) == Black then parent else null
  {
    if child2 != null {
      successor.pc := pc;
      child2.pc := ParentColor(parent, Black);
      rebalance := null;
    } else {
      var pc2 := successor.pc;
      successor.pc := pc;
      rebalance := if pc2.color == Black then parent else null;
    }
    assert Mirrors(Blackened(c2), parent);
    assert Linked(m, child2, successor);
    MirrorsFill(m, Blackened(c2), successor);
  }

  /** Cases 2 and 3, the common end but for the link above: the successor takes over the children and
      the word of the erased node. `m` leads from the successor's old place up to the erased node's
      right child. */
  method TakeOver(node: Node, successor: Node, parent: Node, child2: Node?,
                  ghost l: Tree, ghost m: Path, ghost c2: Tree, ghost t1: Tree)
    returns (rebalance: Node?)
    requires l.Branch? && node.left == Ptr(l) && Mirrors(l, node) && child2 == Ptr(c2)
    requires successor.right == RootPtr(m, child2) && Linked(m, child2, successor)
    requires Mirrors(c2, successor) && parent == ParentOf(m, successor)
    requires t1 == Branch(l, successor, node.pc.color, Fill(m, Blackened(c2))) && Distinct(t1) && node !in Nodes(t1)
    modifies Nodes(t1)`left, Nodes(t1)`pc
    ensures Mirrors(t1, node.pc.parent)
    ensures rebalance == if child2 == null && old(successor.pc.color) == Black then parent else null
  {
    NodesAllocated(t1);
    FillDistinct(m, Blackened(c2));
    FillNodes(m, Blackened(c2));
    DistinctPathDisjoint(m, Nodes(Blackened(c2)));
    assert Nodes(Blackened(c2)) == Nodes(c2) && Distinct(c2);
    TakeLeft(successor, node.left, node, l);
    assert Linked(m, child2, successor) && Mirrors(c2, successor);
    rebalance := TakeWord(successor, parent, child2, node.pc, m, c2);
    assert Mirrors(l, successor);
    FillPtr(m, Blackened(c2));
  }

  /** Cases 2 and 3: the successor is taken out of the right subtree `r`, of which all but the path `m`
      and the successor's right child `c2` is left. */
  method TakeSuccessor(node: Node, child: Node, ghost r: Tree)
    returns (successor: Node, parent: Node, child2: Node?, ghost m: Path, ghost sc: Color, ghost c2: Tree)
    requires r.Branch? && r.node == child && Mirrors(r, node) && Distinct(r)
    modifies Nodes(r)`left, Nodes(r)`right, Nodes(r)`pc
    ensures Fill(m, Branch(Leaf, successor, sc, c2)) == r && Leftmost(m)
    ensures parent == ParentOf(m, successor) && child2 == Ptr(c2)
    ensures Linked(m, child2, successor) && Mirrors(c2, successor)
    ensures successor.right == RootPtr(m, child2) && successor.pc.color == sc
  {
    var tmp := child.left;
    if tmp == null {
      successor, parent, child2 := child, child, child.right;
      m, sc, c2 := Top, r.color, r.right;
    } else {
      ghost var q, s;
      successor, parent, q, s := FindMin(node, child, r);
      FillDistinct(q, s);
      FillNodes(q, s);
      FillPtr(q, s);
      child2 := DetachMin(successor, parent, child, q, s, r.right);
      sc, c2 := s.color, s.right;
      m := Append(q, InLeft(Top, child, r.color, r.right));
      DetachedPath(q, child, r, s, child2, successor);
    }
  }

  lemma DetachedPath(q: Path, child: Node, r: Tree, s: Tree, child2: Node?, successor: Node)
    requires r.Branch? && r.node == child && Fill(q, s) == r.left && Leftmost(q)
    requires Linked(q, child2, child) && child.left == RootPtr(q, child2) && Mirrors(r.right, child)
    requires child.right == Ptr(r.right) && child.pc == ParentColor(successor, r.color)
    ensures var m := Append(q, InLeft(Top, child, r.color, r.right));
      Fill(m, s) == r && Leftmost(m) && RootPtr(m, child2) == child && Linked(m, child2, successor) &&
      ParentOf(m, successor) == ParentOf(q, child)
  {
    var high := InLeft(Top, child, r.color, r.right);
    FillAppend(q, high, s);
    LinkedAppend(q, high, child2, successor);
    AppendLeftmost(q, high, child2);
  }

  lemma {:induction false} AppendLeftmost(q: Path, high: Path, child: Node?)
    requires Leftmost(q) && Leftmost(high)
    ensures Leftmost(Append(q, high)) && RootPtr(Append(q, high), child) == RootPtr(high, RootPtr(q, child))
  {
    if !q.Top? {
      AppendLeftmost(q.up, high, q.node);
    }
  }

  // ---------- what the splices keep ----------

  lemma {:induction false} FitsOtherNode(m: Path, p: Path, l: Tree, x: Node, y: Node, c: Color, h: nat)
    ensures Fits(Append(m, InRight(p, l, x, c)), h) <==> Fits(Append(m, InRight(p, l, y, c)), h)
    ensures RedAllowed(Append(m, InRight(p, l, x, c))) <==> RedAllowed(Append(m, InRight(p, l, y, c)))
  {
    if !m.Top? {
      FitsOtherNode(m.up, p, l, x, y, c, if m.color.Black? then h + 1 else h);
    }
  }

  lemma MinTaken(m: Path, succ: Node, sc: Color, c2: Tree)
    requires Distinct(Fill(m, Branch(Leaf, succ, sc, c2)))
    ensures var r, r1 := Fill(m, Branch(Leaf, succ, sc, c2)), Fill(m, Blackened(c2));
      Distinct(r1) && succ !in Nodes(r1) && Nodes(r) == Nodes(r1) + {succ}
  {
    var s, b := Branch(Leaf, succ, sc, c2), Blackened(c2);
    assert Nodes(b) == Nodes(c2) && Nodes(s) == {succ} + Nodes(c2);
    FillDistinct(m, s); FillDistinct(m, b);
    FillNodes(m, s); FillNodes(m, b);
    DistinctPathDisjoint(m, Nodes(s));
    DistinctPathShrink(m, Nodes(s), Nodes(b));
  }

  lemma MinTakenOrder(m: Path, succ: Node, sc: Color, c2: Tree)
    requires Leftmost(m)
    ensures Inorder(Fill(m, Branch(Leaf, succ, sc, c2))) == [succ] + Inorder(Fill(m, Blackened(c2)))
  {
    var s, b := Branch(Leaf, succ, sc, c2), Blackened(c2);
    LeftmostBefore(m);
    FillInorder(m, s); FillInorder(m, b);
    var x, y := Inorder(c2), After(m);
    assert Inorder(s) == [succ] + x && Inorder(b) == x;
    assert [] + ([succ] + x) + y == [succ] + ([] + x + y);
  }

  lemma SuccessorContents(p: Path, t: Tree, m: Path, succ: Node, sc: Color, c2: Tree, t1: Tree)
    requires t.Branch? && Distinct(t) && DistinctPath(p, Nodes(t))
    requires t.right == Fill(m, Branch(Leaf, succ, sc, c2))
    requires t1 == Branch(t.left, succ, t.color, Fill(m, Blackened(c2)))
    ensures Distinct(t1) && DistinctPath(p, Nodes(t1)) && Nodes(t1) == Nodes(t) - {t.node}
  {
    MinTaken(m, succ, sc, c2);
    DistinctPathShrink(p, Nodes(t), Nodes(t1));
  }

  lemma SuccessorOrder(l: Tree, c: Color, m: Path, succ: Node, sc: Color, c2: Tree)
    requires Leftmost(m)
    ensures Inorder(Branch(l, succ, c, Fill(m, Blackened(c2))))
         == Inorder(l) + Inorder(Fill(m, Branch(Leaf, succ, sc, c2)))
  {
    MinTakenOrder(m, succ, sc, c2);
    var a, b := Inorder(l), Inorder(Fill(m, Blackened(c2)));
    assert a + [succ] + b == a + ([succ] + b);
  }

  lemma SuccessorBalance(p: Path, t: Tree, m: Path, succ: Node, sc: Color, c2: Tree, t1: Tree)
    requires t.Branch? && RedBlack(Fill(p, t))
    requires t.right == Fill(m, Branch(Leaf, succ, sc, c2))
    requires t1 == Branch(t.left, succ, t.color, Fill(m, Blackened(c2)))
    ensures var q := Append(m, InRight(p, t.left, succ, t.color));
      Fill(q, Blackened(c2)) == Fill(p, t1) && !q.Top? &&
      if c2.Leaf? && sc.Black? then Fits(q, 1) else RedBlack(Fill(p, t1))
  {
    var s, b := Branch(Leaf, succ, sc, c2), Blackened(c2);
    var q0, q := Append(m, InRight(p, t.left, t.node, t.color)), Append(m, InRight(p, t.left, succ, t.color));
    FillAppend(m, InRight(p, t.left, t.node, t.color), s);
    FillAppend(m, InRight(p, t.left, succ, t.color), b);
    CutRedBlack(q0, s);
    var h := BlackHeight(s);
    FitsOtherNode(m, p, t.left, t.node, succ, t.color, h);
    assert c2.Branch? ==> sc.Black? && h == 1 && Balanced(b, 1) by {
      if c2.Branch? && c2.color.Red? {
        assert Balanced(c2.left, 0) && Balanced(c2.right, 0);
      }
    }
    if c2.Branch? || sc.Red? {
      FillRedBlack(q, b, h);
    }
  }

  lemma OneChildBalance(p: Path, t: Tree, c: Tree)
    requires t.Branch? && RedBlack(Fill(p, t))
    requires (t.left == Leaf && t.right == c) || (t.right == Leaf && t.left == c)
    ensures c.Branch? ==> t.color.Black? && RedBlack(Fill(p, Blackened(c)))
    ensures c.Leaf? ==> if t.color.Black? && !p.Top? then Fits(p, 1) else RedBlack(Fill(p, Leaf))
  {
    CutRedBlack(p, t);
    var h := BlackHeight(t);
    if c.Branch? {
      assert Balanced(c, 0) && c.color.Red?;
      assert Balanced(c.left, 0) && Balanced(c.right, 0);
      FillRedBlack(p, Blackened(c), 1);
    } else if t.color.Red? || p.Top? {
      FillRedBlack(p, Leaf, 0);
    }
  }

  lemma OneChildContents(p: Path, t: Tree, c: Tree)
    requires t.Branch? && Distinct(t)
    requires (t.left == Leaf && t.right == c) || (t.right == Leaf && t.left == c)
    ensures Nodes(Blackened(c)) == Nodes(t) - {t.node}
    ensures Inorder(Blackened(c)) == Inorder(t.left) + Inorder(t.right)
  {
  }

  // ---------- erasing ----------

  /** `t1` holds the nodes of `t` in the same order, all but the root of `t`. */
  ghost predicate WithoutRoot(t1: Tree, t: Tree)
    requires t.Branch?
  {
    Nodes(t1) == Nodes(t) - {t.node} && Inorder(t1) == Inorder(t.left) + Inorder(t.right)
  }

  /** What the splice leaves at `p`: a red-black tree, or one that is short by one black node at the
      empty end of `q`, whose lowest node is `rebalance`. */
  ghost predicate Spliced(p: Path, t1: Tree, rebalance: Node?, q: Path) {
    if rebalance == null then RedBlack(Fill(p, t1))
    else rebalance == ParentOf(q, null) && Fits(q, 1) && Fill(q, Leaf) == Fill(p, t1)
  }

  method EraseOne(root: Root, node: Node, child: Node?, ghost p: Path, ghost t: Tree, ghost c: Tree)
    returns (rebalance: Node?, ghost t1: Tree)
    requires root.Shows(p, t) && t.Branch? && t.node == node && RedBlack(Fill(p, t)) && Ptr(c) == child
    requires (t.left == Leaf && t.right == c) || (t.right == Leaf && t.left == c)
    modifies root`node, PathNodes(p)`left, PathNodes(p)`right, (if child == null then {} else {child})`pc
    ensures root.Shows(p, t1) && WithoutRoot(t1, t) && Spliced(p, t1, rebalance, p)
  {
    OneChildBalance(p, t, c);
    OneChildContents(p, t, c);
    Apart(p, t);
    var pc := node.pc;
    PullUp(root, node, child, p, t, c);
    if child != null {
      rebalance := null;
    } else {
      rebalance := if pc.color == Black then pc.parent else null;
    }
    t1 := Blackened(c);
  }

  method EraseTwo(root: Root, node: Node, ghost p: Path, ghost t: Tree)
    returns (rebalance: Node?, ghost t1: Tree, ghost q: Path)
    requires root.Shows(p, t) && t.Branch? && t.node == node && RedBlack(Fill(p, t))
    requires t.left.Branch? && t.right.Branch?
    modifies root`node, Union(p, t)`left, Union(p, t)`right, Union(p, t)`pc
    ensures root.Shows(p, t1) && WithoutRoot(t1, t) && Spliced(p, t1, rebalance, q)
  {
    Apart(p, t);
    ghost var m, sc, c2;
    var successor, parent, child2;
    successor, parent, child2, m, sc, c2 := TakeSuccessor(node, node.right, t.right);
    t1 := Branch(t.left, successor, t.color, Fill(m, Blackened(c2)));
    q := Append(m, InRight(p, t.left, successor, t.color));
    SuccessorContents(p, t, m, successor, sc, c2, t1);
    SuccessorOrder(t.left, t.color, m, successor, sc, c2);
    SuccessorBalance(p, t, m, successor, sc, c2, t1);
    LinkedAppend(m, InRight(p, t.left, successor, t.color), null, null);
    assert Mirrors(t.left, node) && Linked(p, node, null);
    rebalance := TakeOver(node, successor, parent, child2, t.left, m, c2, t1);
    assert Linked(p, node, null);
    root.ChangeChild(node, successor, node.pc.parent, p, Nodes(t));
  }

  method EraseAugmented(root: Root, node: Node, ghost p: Path, ghost t: Tree)
    returns (rebalance: Node?, ghost t1: Tree, ghost q: Path)
    requires root.Shows(p, t) && t.Branch? && t.node == node && RedBlack(Fill(p, t))
    modifies root`node, Union(p, t)`left, Union(p, t)`right, Union(p, t)`pc
    ensures root.Shows(p, t1) && WithoutRoot(t1, t) && Spliced(p, t1, rebalance, q)
  {
    var child := node.right;
    var tmp := node.left;
    q := p;
    if tmp == null {
      rebalance, t1 := EraseOne(root, node, child, p, t, t.right);
    } else if child == null {
      rebalance, t1 := EraseOne(root, node, tmp, p, t, t.left);
    } else {
      rebalance, t1, q := EraseTwo(root, node, p, t);
    }
  }

  method EraseAt(root: Root, node: Node, ghost p: Path, ghost t: Tree, ghost whole: Tree) returns (ghost t2: Tree)
    requires root.Shows(Top, whole) && RedBlack(whole) && whole == Fill(p, t) && t.Branch? && t.node == node
    modifies root`node, Nodes(whole)`left, Nodes(whole)`right, Nodes(whole)`pc
    ensures root.Shows(Top, t2) && RedBlack(t2)
    ensures Nodes(t2) == Nodes(whole) - {node}
    ensures Inorder(t2) == Before(p) + (Inorder(t.left) + Inorder(t.right)) + After(p)
  {
    root.ShowsFill(p, t);
    FillNodes(p, t);
    DistinctPathDisjoint(p, Nodes(t));
    var rebalance;
    ghost var t1, q;
    rebalance, t1, q := EraseAugmented(root, node, p, t);
    t2 := Fill(p, t1);
    root.ShowsFill(p, t1);
    FillNodes(p, t1);
    FillInorder(p, t1);
    if rebalance != null {
      root.ShowsFill(q, Leaf);
      t2 := RbtErase.EraseColor(root, rebalance, q, 0, t2);
    }
  }

  /** Exactly `node` leaves the sequence; everything else keeps its order. */
  method Erase(root: Root, node: Node) returns (ghost i: nat)
    requires root.Valid() && node in root.repr
    modifies root, root.repr`left, root.repr`right, root.repr`pc
    ensures root.Valid() && root.repr == old(root.repr) - {node}
    ensures i < |old(root.contents)| && old(root.contents)[i] == node
    ensures root.contents == old(root.contents)[..i] + old(root.contents)[i + 1..]
  {
    root.Open();
    ghost var p, t := FindNode(root.tree, node);
    ghost var s := root.contents;
    i := NodeIndex(p, t);
    ghost var rest := s[..i] + s[i + 1..];
    ghost var keys := KeysOf(rest);
    assert s == s[..i] + ([node] + s[i + 1..]);
    RemovedAscending(s[..i], node, s[i + 1..]);
    ghost var t2 := EraseAt(root, node, p, t, root.tree);
    assert KeysOf(rest) == keys;
    assert Inorder(t2) == rest;
    root.Adopt(t2);
  }

  lemma NodeIndex(p: Path, t: Tree) returns (i: nat)
    requires t.Branch?
    ensures var s := Inorder(Fill(p, t));
      i < |s| && s[i] == t.node &&
      s[..i] + s[i + 1..] == Before(p) + (Inorder(t.left) + Inorder(t.right)) + After(p)
  {
    FillInorder(p, t);
    i := |Before(p)| + |Inorder(t.left)|;
    DropMiddle(Before(p), Inorder(t.left), t.node, Inorder(t.right), After(p));
  }

  lemma DropMiddle(b: seq<Node>, l: seq<Node>, n: Node, r: seq<Node>, a: seq<Node>)
    ensures var s, i := b + (l + [n] + r) + a, |b| + |l|;
      s[i] == n && s[..i] + s[i + 1..] == b + (l + r) + a
  {
    var s, i := b + (l + [n] + r) + a, |b| + |l|;
    assert s[..i] == b + l;
    assert s[i + 1..] == r + a;
  }

  lemma RemovedAscending(a: seq<Node>, n: Node, c: seq<Node>)
    requires Ascending(KeysOf(a + ([n] + c)))
    ensures Ascending(KeysOf(a + c))
  {
    KeysOfConcat(a, [n] + c);
    KeysOfConcat([n], c);
    KeysOfConcat(a, c);
    DropAscending(KeysOf(a), KeysOf([n]), KeysOf(c));
  }

  lemma DropAscending(a: seq<nat>, b: seq<nat>, c: seq<nat>)
    requires Ascending(a + (b + c))
    ensures Ascending(a + c)
  {
    var s, t := a + (b + c), a + c;
    assert forall j :: 0 <= j < |t| ==> t[j] == s[if j < |a| then j else j + |b|];
  }
}
