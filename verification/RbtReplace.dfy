/** Replacing a node where it stands, without any rebalancing. */
module RbtReplace {
  import opened RbtShape
  import opened RbtHeap

  lemma {:induction false} DistinctPathSwap(p: Path, below: set<Node>, other: set<Node>, x: Node)
    requires DistinctPath(p, below) && x !in PathNodes(p) && other <= below + {x}
    ensures DistinctPath(p, other)
  {
    match p
    case Top =>
    case InLeft(up, n, _, r) => DistinctPathSwap(up, below + {n} + Nodes(r), other + {n} + Nodes(r), x);
    case InRight(up, l, n, _) => DistinctPathSwap(up, below + {n} + Nodes(l), other + {n} + Nodes(l), x);
  }

  /** A subtree moves under another parent. */
  method SetParent(child: Node?, cnew: Node, ghost c: Tree, ghost was: Node)
    requires child == Ptr(c) && Mirrors(c, was) && Distinct(c)
    modifies (if child == null then {} else {child})`pc
    ensures Mirrors(c, cnew)
  {
    if child != null {
      child.pc := child.pc.(parent := cnew);
    }
  }

  /** The replacement takes over the record of the victim, and the children look up to it. */
  method TakeRecord(victim: Node, cnew: Node, ghost l: Tree, ghost r: Tree)
    requires victim.left == Ptr(l) && victim.right == Ptr(r) && Mirrors(l, victim) && Mirrors(r, victim)
    requires Distinct(l) && Distinct(r) && Nodes(l) !! Nodes(r) && victim !in Nodes(l) + Nodes(r)
    requires cnew != victim && cnew !in Nodes(l) + Nodes(r)
    modifies cnew, Nodes(l)`pc, Nodes(r)`pc
    ensures cnew.pc == old(victim.pc) && cnew.key == old(victim.key) && cnew.left == Ptr(l) && cnew.right == Ptr(r)
    ensures Mirrors(l, cnew) && Mirrors(r, cnew)
  {
    hide Mirrors;
    NodesAllocated(l);
    NodesAllocated(r);
    cnew.pc, cnew.left, cnew.right, cnew.key := victim.pc, victim.left, victim.right, victim.key;
    SetParent(victim.left, cnew, l, victim);
    SetParent(victim.right, cnew, r, victim);
  }

  /** The neighbours of the victim are made to lead to the replacement. */
  method Substitute(root: Root, victim: Node, cnew: Node, ghost p: Path, ghost t: Tree)
    requires root.Shows(p, t) && t.Branch? && t.node == victim && cnew !in PathNodes(p) && cnew !in Nodes(t)
    modifies root`node, cnew, PathNodes(p)`left, PathNodes(p)`right, Nodes(t)`pc
    ensures root.Shows(p, t.(node := cnew)) && cnew.key == old(victim.key)
  {
    Apart(p, t);
    var parent := victim.pc.parent;
    ghost var l, r, u := t.left, t.right, t.(node := cnew);
    assert Mirrors(l, victim) && Mirrors(r, victim) && Nodes(u) == Nodes(l) + {cnew} + Nodes(r);
    assert Linked(p, victim, null) && parent == ParentOf(p, null);
    hide Linked, DistinctPath;
    NodesAllocated(l);
    NodesAllocated(r);
    DistinctPathSwap(p, Nodes(t), Nodes(u), cnew);
    assert PathNodes(p) !! Nodes(l) && PathNodes(p) !! Nodes(r);
    assert forall n :: n in PathNodes(p) ==> n in Union(p, t);
    TakeRecord(victim, cnew, l, r);
    assert Linked(p, victim, null);
    ChangeAbove(root, victim, cnew, parent, p, t);
  }

  method ChangeAbove(root: Root, victim: Node, cnew: Node, parent: Node?, ghost p: Path, ghost t: Tree)
    requires parent == ParentOf(p, null) && t.Branch? && t.node == victim && DistinctPath(p, Nodes(t))
    requires Linked(p, victim, null) && root.node == RootPtr(p, victim)
    requires Mirrors(t.(node := cnew), ParentOf(p, null)) && cnew !in PathNodes(p)
    modifies root`node, PathNodes(p)`left, PathNodes(p)`right
    ensures Linked(p, cnew, null) && root.node == RootPtr(p, cnew)
    ensures Mirrors(t.(node := cnew), ParentOf(p, null))
  {
    Apart(p, t);
    NodesAllocated(t.(node := cnew));
    hide Mirrors;
    root.ChangeChild(victim, cnew, parent, p, Nodes(t));
  }

  lemma Middle(b: seq<Node>, l: seq<Node>, n: Node, r: seq<Node>, a: seq<Node>, x: Node)
    ensures var s, i := b + (l + [n] + r) + a, |b| + |l|;
      i < |s| && s[i] == n && s[i := x] == b + (l + [x] + r) + a
  {
  }

  /** `rbt_replace_node`: the replacement stands in the sequence where the victim stood, with its key. */
  method Replace(root: Root, victim: Node, cnew: Node) returns (ghost i: nat)
    requires root.Valid() && victim in root.repr && cnew !in root.repr
    modifies root, cnew, root.repr`left, root.repr`right, root.repr`pc
    ensures root.Valid() && root.repr == old(root.repr) - {victim} + {cnew}
    ensures i < |old(root.contents)| && old(root.contents)[i] == victim
    ensures root.contents == old(root.contents)[i := cnew] && cnew.key == old(victim.key)
  {
    root.Open();
    ghost var p, t := FindNode(root.tree, victim);
    ghost var s, u := root.contents, t.(node := cnew);
    i := |Before(p)| + |Inorder(t.left)|;
    FillInorder(p, t);
    FillInorder(p, u);
    Middle(Before(p), Inorder(t.left), victim, Inorder(t.right), After(p), cnew);
    assert Inorder(Fill(p, u)) == s[i := cnew];
    Shaped(root, p, t, cnew);
    hide Inorder, Fill, RedBlack, Balanced, Fits, RedAllowed, Distinct, Mirrors, Linked, DistinctPath, Before, After, Ascending;
    ghost var keys := KeysOf(s);
    Substitute(root, victim, cnew, p, t);
    Reshaped(root, p, t, u, cnew);
    SameKeys(s, i, cnew, keys);
    root.Adopt(Fill(p, u));
  }

  lemma Shaped(root: Root, p: Path, t: Tree, x: Node)
    requires root.Shows(Top, Fill(p, t)) && RedBlack(Fill(p, t))
    ensures root.Shows(p, t) && PathNodes(p) + Nodes(t) == Nodes(Fill(p, t)) && PathNodes(p) !! Nodes(t)
    ensures Fits(p, BlackHeight(t)) && Balanced(t, BlackHeight(t)) && (IsRed(t) ==> RedAllowed(p))
    ensures t.Branch? ==> PathNodes(p) + Nodes(t.(node := x)) == Nodes(Fill(p, t)) - {t.node} + {x}
  {
    root.ShowsFill(p, t);
    FillNodes(p, t);
    CutRedBlack(p, t);
    DistinctPathDisjoint(p, Nodes(t));
  }

  lemma Reshaped(root: Root, p: Path, t: Tree, u: Tree, x: Node)
    requires t.Branch? && u == t.(node := x) && root.Shows(p, u)
    requires Fits(p, BlackHeight(t)) && Balanced(t, BlackHeight(t)) && (IsRed(t) ==> RedAllowed(p))
    ensures root.Shows(Top, Fill(p, u)) && RedBlack(Fill(p, u)) && Nodes(Fill(p, u)) == PathNodes(p) + Nodes(u)
  {
    root.ShowsFill(p, u);
    FillNodes(p, u);
    FillRedBlack(p, u, BlackHeight(t));
  }

  lemma SameKeys(s: seq<Node>, i: nat, x: Node, keys: seq<nat>)
    requires i < |s| && |keys| == |s| && x.key == keys[i] && forall k :: 0 <= k < |s| && k != i ==> s[k].key == keys[k]
    ensures KeysOf(s[i := x]) == keys
  {
  }
}
