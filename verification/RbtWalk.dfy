/** Walking the tree: in order, backwards, and children before parents. */
module RbtWalk {
  import opened RbtShape
  import opened RbtHeap
  import RbtDelete

  // ---------- in order ----------

  method LeftmostOf(start: Node, ghost t: Tree, ghost parent: Node?) returns (n: Node)
    requires t.Branch? && t.node == start && Mirrors(t, parent)
    ensures |Inorder(t)| > 0 && n == Inorder(t)[0]
  {
    n := start;
    ghost var w, above := t, parent;
    while n.left != null
      invariant Mirrors(t, parent) && Mirrors(w, above) && w.Branch? && w.node == n
      invariant |Inorder(w)| > 0 && Inorder(w)[0] == Inorder(t)[0]
      decreases w
    {
      w, above := w.left, n;
      n := n.left;
    }
  }

  method RightmostOf(start: Node, ghost t: Tree, ghost parent: Node?) returns (n: Node)
    requires t.Branch? && t.node == start && Mirrors(t, parent)
    ensures |Inorder(t)| > 0 && n == Inorder(t)[|Inorder(t)| - 1]
  {
    n := start;
    ghost var w, above := t, parent;
    while n.right != null
      invariant Mirrors(t, parent) && Mirrors(w, above) && w.Branch? && w.node == n
      invariant |Inorder(w)| > 0 && Inorder(w)[|Inorder(w)| - 1] == Inorder(t)[|Inorder(t)| - 1]
      decreases w
    {
      w, above := w.right, n;
      n := n.right;
    }
  }

  method First(root: Root) returns (n: Node?)
    requires root.Valid()
    ensures n == if root.contents == [] then null else root.contents[0]
  {
    root.Open();
    n := root.node;
    if n != null {
      n := LeftmostOf(n, root.tree, null);
    }
  }

  method Last(root: Root) returns (n: Node?)
    requires root.Valid()
    ensures n == if root.contents == [] then null else root.contents[|root.contents| - 1]
  {
    root.Open();
    n := root.node;
    if n != null {
      n := RightmostOf(n, root.tree, null);
    }
  }

  /** The place of a subtree's root in the whole sequence, and what stands around it. */
  lemma Around(p: Path, t: Tree, i: nat)
    requires t.Branch? && Distinct(Fill(p, t)) && i < |Inorder(Fill(p, t))| && Inorder(Fill(p, t))[i] == t.node
    ensures Inorder(Fill(p, t))[..i] == Before(p) + Inorder(t.left)
    ensures Inorder(Fill(p, t))[i + 1..] == Inorder(t.right) + After(p)
  {
    FillInorder(p, t);
    InorderDistinct(Fill(p, t));
    var s, b, a := Inorder(Fill(p, t)), Before(p) + Inorder(t.left), Inorder(t.right) + After(p);
    Regroup(Before(p), Inorder(t.left), t.node, Inorder(t.right), After(p));
    assert s[|b|] == t.node;
    assert i == |b|;
  }

  lemma Regroup(b: seq<Node>, l: seq<Node>, n: Node, r: seq<Node>, a: seq<Node>)
    ensures b + (l + [n] + r) + a == (b + l) + [n] + (r + a)
  {
  }

  /** `root` and `i` only say where `node` is. */
  method Next(node: Node, ghost root: Root, ghost i: nat) returns (n: Node?)
    requires root.Valid() && i < |root.contents| && root.contents[i] == node
    ensures n == if i + 1 < |root.contents| then root.contents[i + 1] else null
  {
    root.Open();
    InorderMember(root.tree, node);
    ghost var p, t := FindNode(root.tree, node);
    root.ShowsFill(p, t);
    Around(p, t, i);
    ghost var rest := root.contents[i + 1..];
    if node.pc == ParentColor(node, Red) {
      // never so: a node of the tree is not its own parent
      assert false;
    }
    if node.right != null {
      n := LeftmostOf(node.right, t.right, node);
      assert rest[0] == n;
      return;
    }
    n := ClimbFromRight(node, root, p, t);
    assert rest == After(p);
  }

  /** Up while the node is a right child: the first node after the subtree, if any. */
  method ClimbFromRight(node0: Node, ghost root: Root, ghost p0: Path, ghost t0: Tree) returns (parent: Node?)
    requires root.Shows(p0, t0) && Ptr(t0) == node0
    ensures parent == if After(p0) == [] then null else After(p0)[0]
  {
    var node: Node := node0;
    ghost var p, t := p0, t0;
    parent := node.pc.parent;
    while parent != null && node == parent.right
      invariant root.Shows(p, t) && Ptr(t) == node && parent == ParentOf(p, null) && After(p) == After(p0)
      decreases Length(p)
    {
      assert node in Nodes(t);
      assert p.InRight?;
      root.ShowsUp(p, t);
      p, t := p.up, Join(p, t);
      node := parent;
      parent := node.pc.parent;
    }
  }

  method Prev(node: Node, ghost root: Root, ghost i: nat) returns (n: Node?)
    requires root.Valid() && i < |root.contents| && root.contents[i] == node
    ensures n == if i > 0 then root.contents[i - 1] else null
  {
    root.Open();
    InorderMember(root.tree, node);
    ghost var p, t := FindNode(root.tree, node);
    root.ShowsFill(p, t);
    Around(p, t, i);
    ghost var front := root.contents[..i];
    if node.pc == ParentColor(node, Red) {
      assert false;
    }
    if node.left != null {
      n := RightmostOf(node.left, t.left, node);
      assert front[|front| - 1] == n;
      return;
    }
    n := ClimbFromLeft(node, root, p, t);
    assert front == Before(p);
  }

  method ClimbFromLeft(node0: Node, ghost root: Root, ghost p0: Path, ghost t0: Tree) returns (parent: Node?)
    requires root.Shows(p0, t0) && Ptr(t0) == node0
    ensures parent == if Before(p0) == [] then null else Before(p0)[|Before(p0)| - 1]
  {
    var node: Node := node0;
    ghost var p, t := p0, t0;
    parent := node.pc.parent;
    while parent != null && node == parent.left
      invariant root.Shows(p, t) && Ptr(t) == node && parent == ParentOf(p, null) && Before(p) == Before(p0)
      decreases Length(p)
    {
      assert node in Nodes(t);
      assert p.InLeft?;
      root.ShowsUp(p, t);
      p, t := p.up, Join(p, t);
      node := parent;
      parent := node.pc.parent;
    }
  }

  /** `rbt_for_each`: first, then next until it gives null, visits the sequence once and in order. */
  method ForEach(root: Root) returns (visited: seq<Node>)
    requires root.Valid()
    ensures visited == root.contents
  {
    visited := [];
    ghost var k := 0;
    var node := First(root);
    while node != null
      invariant root.Valid() && k <= |root.contents| && visited == root.contents[..k]
      invariant node == if k < |root.contents| then root.contents[k] else null
      decreases |root.contents| - k
    {
      visited := visited + [node];
      node := Next(node, root, k);
      k := k + 1;
    }
  }

  /** `rbt_delete`: the node after the erased one is returned, and keeps its place in the rest. */
  method Delete(root: Root, node: Node) returns (next: Node?, ghost i: nat)
    requires root.Valid() && node in root.repr
    modifies root, root.repr`left, root.repr`right, root.repr`pc
    ensures root.Valid() && root.repr == old(root.repr) - {node}
    ensures i < |old(root.contents)| && old(root.contents)[i] == node
    ensures root.contents == old(root.contents)[..i] + old(root.contents)[i + 1..]
    ensures next == if i < |root.contents| then root.contents[i] else null
  {
    root.Open();
    InorderMember(root.tree, node);
    ghost var k :| 0 <= k < |root.contents| && root.contents[k] == node;
    InorderDistinct(root.tree);
    next := Next(node, root, k);
    i := RbtDelete.Erase(root, node);
  }

  // ---------- children before parents ----------

  ghost function PostBefore(p: Path): seq<Node> {
    match p
    case Top => []
    case InLeft(up, _, _, _) => PostBefore(up)
    case InRight(up, l, _, _) => PostBefore(up) + Postorder(l)
  }

  ghost function PostAfter(p: Path): seq<Node> {
    match p
    case Top => []
    case InLeft(up, n, _, r) => Postorder(r) + [n] + PostAfter(up)
    case InRight(up, _, n, _) => [n] + PostAfter(up)
  }

  lemma {:induction false} FillPostorder(p: Path, t: Tree)
    ensures Postorder(Fill(p, t)) == PostBefore(p) + Postorder(t) + PostAfter(p)
  {
    if !p.Top? {
      FillPostorder(p.up, Join(p, t));
      JoinPostorder(p, t);
    }
  }

  lemma JoinPostorder(p: Path, t: Tree)
    requires !p.Top?
    ensures PostBefore(p.up) + Postorder(Join(p, t)) + PostAfter(p.up) == PostBefore(p) + Postorder(t) + PostAfter(p)
  {
    var b, x, a := PostBefore(p.up), Postorder(t), PostAfter(p.up);
    if p.InLeft? {
      var y := Postorder(p.right);
      assert b + (x + y + [p.node]) + a == b + x + (y + [p.node] + a);
    } else {
      var y := Postorder(p.left);
      assert b + (y + x + [p.node]) + a == (b + y) + x + ([p.node] + a);
    }
  }

  /** The walk lists each node as often as the in-order walk does: once. */
  lemma {:induction false} PostorderSameNodes(t: Tree)
    ensures multiset(Postorder(t)) == multiset(Inorder(t))
  {
    if t.Branch? {
      PostorderSameNodes(t.left);
      PostorderSameNodes(t.right);
    }
  }

  /** Every node below a node stands before it. */
  lemma ChildrenFirst(p: Path, t: Tree, below: Node) returns (i: nat, j: nat)
    requires t.Branch? && below in Nodes(t.left) + Nodes(t.right)
    ensures i < j < |Postorder(Fill(p, t))|
    ensures Postorder(Fill(p, t))[i] == below && Postorder(Fill(p, t))[j] == t.node
  {
    FillPostorder(p, t);
    PostorderMember(t.left, below);
    PostorderMember(t.right, below);
    var b, x, y := PostBefore(p), Postorder(t.left), Postorder(t.right);
    i, j := InFront(b, x, y, t.node, PostAfter(p), below);
  }

  lemma InFront(b: seq<Node>, x: seq<Node>, y: seq<Node>, n: Node, a: seq<Node>, below: Node) returns (i: nat, j: nat)
    requires below in x || below in y
    ensures var whole := b + (x + y + [n]) + a; i < j < |whole| && whole[i] == below && whole[j] == n
  {
    var whole := b + (x + y + [n]) + a;
    assert below in x + y;
    var k :| 0 <= k < |x + y| && (x + y)[k] == below;
    i, j := |b| + k, |b| + |x| + |y|;
    assert whole[j] == n;
    assert whole[i] == below;
  }

  method LeftDeepest(start: Node, ghost t: Tree, ghost parent: Node?) returns (n: Node)
    requires t.Branch? && t.node == start && Mirrors(t, parent)
    ensures |Postorder(t)| > 0 && n == Postorder(t)[0]
  {
    n := start;
    ghost var w, above := t, parent;
    while n.left != null || n.right != null
      invariant Mirrors(t, parent) && Mirrors(w, above) && w.Branch? && w.node == n
      invariant |Postorder(w)| > 0 && Postorder(w)[0] == Postorder(t)[0]
      decreases w
    {
      above := n;
      if n.left != null {
        w := w.left;
        n := n.left;
      } else {
        w := w.right;
        n := n.right;
      }
    }
  }

  method FirstPostorder(root: Root) returns (n: Node?)
    requires root.Valid()
    ensures n == if Postorder(root.tree) == [] then null else Postorder(root.tree)[0]
  {
    root.Open();
    n := root.node;
    if n != null {
      n := LeftDeepest(n, root.tree, null);
    }
  }

  method NextPostorder(node: Node, ghost root: Root, ghost i: nat) returns (n: Node?)
    requires root.Valid() && i < |Postorder(root.tree)| && Postorder(root.tree)[i] == node
    ensures n == if i + 1 < |Postorder(root.tree)| then Postorder(root.tree)[i + 1] else null
  {
    root.Open();
    ghost var p, t := AroundPostorder(root.tree, node, i);
    root.ShowsFill(p, t);
    var parent := node.pc.parent;
    if parent != null && node == parent.left && parent.right != null {
      assert p.InLeft?;
      n := LeftDeepest(parent.right, p.right, parent);
    } else {
      n := parent;
    }
  }

  lemma {:induction false} PostorderMember(t: Tree, n: Node)
    ensures n in Postorder(t) <==> n in Nodes(t)
  {
    if t.Branch? {
      PostorderMember(t.left, n);
      PostorderMember(t.right, n);
    }
  }

  lemma {:induction false} PostorderDistinct(t: Tree)
    requires Distinct(t)
    ensures forall i, j :: 0 <= i < j < |Postorder(t)| ==> Postorder(t)[i] != Postorder(t)[j]
  {
    if t.Branch? {
      PostorderDistinct(t.left);
      PostorderDistinct(t.right);
      var a, b := Postorder(t.left), Postorder(t.right);
      forall i, j | 0 <= i < j < |Postorder(t)| ensures Postorder(t)[i] != Postorder(t)[j] {
        var x, y := Postorder(t)[i], Postorder(t)[j];
        if j < |a| {
          assert x == a[i] && y == a[j];
        } else if |a| <= i && j < |a| + |b| {
          assert x == b[i - |a|] && y == b[j - |a|];
        } else {
          assert if i < |a| then x == a[i] && x in a else x == b[i - |a|] && x in b;
          PostorderMember(t.left, x);
          PostorderMember(t.right, x);
          if j < |a| + |b| {
            assert y == b[j - |a|] && y in b;
            PostorderMember(t.right, y);
          } else {
            assert y == t.node;
          }
        }
      }
    }
  }

  lemma AroundPostorder(whole: Tree, node: Node, i: nat) returns (p: Path, t: Tree)
    requires Distinct(whole) && i < |Postorder(whole)| && Postorder(whole)[i] == node
    ensures Fill(p, t) == whole && t.Branch? && t.node == node
    ensures Postorder(whole)[i + 1..] == PostAfter(p)
  {
    PostorderMember(whole, node);
    p, t := FindNode(whole, node);
    FillPostorder(p, t);
    PostorderDistinct(whole);
    PostPlace(Postorder(whole), PostBefore(p), Postorder(t.left) + Postorder(t.right), node, PostAfter(p), i);
  }

  lemma PostPlace(s: seq<Node>, b: seq<Node>, x: seq<Node>, node: Node, a: seq<Node>, i: nat)
    requires s == b + (x + [node]) + a && i < |s| && s[i] == node
    requires forall i, j :: 0 <= i < j < |s| ==> s[i] != s[j]
    ensures s[i + 1..] == a
  {
    assert s[|b| + |x|] == node;
    assert i == |b| + |x|;
  }
}
