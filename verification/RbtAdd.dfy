/** Stable insertion by key: the descent, the new link, and the colour repair. */
module RbtAdd {
  import opened RbtShape
  import opened RbtHeap
  import RbtInsert

  /** Links `node` as a red leaf where the descent to `p` fell off the tree. */
  method LinkNode(root: Root, node: Node, parent: Node?, ghost p: Path)
    requires root.Shows(p, Leaf) && parent == ParentOf(p, null) && node !in PathNodes(p)
    requires parent != null ==> (p.InLeft? <==> node.key < parent.key)
    modifies root`node, PathNodes(p)`left, PathNodes(p)`right, node`left, node`right, node`pc
    ensures root.Shows(p, Branch(Leaf, node, Red, Leaf))
  {
    DistinctBelow(p, {}, {node});
    assert {} + {node} == {node} == Nodes(Branch(Leaf, node, Red, Leaf));
    if !p.Top? {
      LowestApart(p, {});
    }
    node.pc := ParentColor(parent, Red);
    node.left, node.right := null, null;
    assert Linked(p, null, null);
    if parent == null {
      root.node := node;
    } else if node.key < parent.key {
      parent.left := node;
    } else {
      parent.right := node;
    }
  }

  lemma {:induction false} DistinctBelow(p: Path, s: set<Node>, s': set<Node>)
    requires DistinctPath(p, s) && PathNodes(p) !! s'
    ensures DistinctPath(p, s + s')
  {
    match p
    case Top =>
    case InLeft(up, n, _, r) =>
      DistinctBelow(up, s + {n} + Nodes(r), s');
      assert s + {n} + Nodes(r) + s' == s + s' + {n} + Nodes(r);
    case InRight(up, l, n, _) =>
      DistinctBelow(up, s + {n} + Nodes(l), s');
      assert s + {n} + Nodes(l) + s' == s + s' + {n} + Nodes(l);
  }

  /** What the descent knows: all it passed on the left is at most the key, all on the right above. */
  ghost predicate Cut(p: Path, key: nat)
    reads Before(p)`key, After(p)`key
  {
    (forall i :: 0 <= i < |Before(p)| ==> Before(p)[i].key <= key) &&
    (forall i :: 0 <= i < |After(p)| ==> key < After(p)[i].key)
  }

  lemma DescendLeft(p: Path, w: Tree, key: nat)
    requires w.Branch? && Ascending(KeysOf(Inorder(Fill(p, w)))) && Cut(p, key) && key < w.node.key
    ensures Cut(InLeft(p, w.node, w.color, w.right), key)
  {
    FillInorder(p, w);
    var l, r := Inorder(w.left), Inorder(w.right);
    assert Inorder(w) == l + [w.node] + r && After(InLeft(p, w.node, w.color, w.right)) == [w.node] + r + After(p);
    hide Inorder, Fill, KeysOf, Ascending;
    Around(Before(p), l, w.node, r, After(p));
    AllAbove(w.node, r, After(p), key);
  }

  lemma DescendRight(p: Path, w: Tree, key: nat)
    requires w.Branch? && Ascending(KeysOf(Inorder(Fill(p, w)))) && Cut(p, key) && w.node.key <= key
    ensures Cut(InRight(p, w.left, w.node, w.color), key)
  {
    FillInorder(p, w);
    var l, r := Inorder(w.left), Inorder(w.right);
    assert Inorder(w) == l + [w.node] + r && Before(InRight(p, w.left, w.node, w.color)) == Before(p) + l + [w.node];
    hide Inorder, Fill, KeysOf, Ascending;
    Around(Before(p), l, w.node, r, After(p));
    AllBelow(Before(p), l, w.node, key + 1);
  }

  method Descend(root: Root, key: nat) returns (parent: Node?, ghost p: Path)
    requires root.Valid()
    ensures root.Valid() && root.Shows(p, Leaf) && parent == ParentOf(p, null) && Fill(p, Leaf) == root.tree
    ensures parent != null ==> (p.InLeft? <==> key < parent.key)
    ensures Cut(p, key)
  {
    root.Open();
    ghost var w := root.tree;
    p := Top;
    var walker := root.node;
    parent := null;
    while walker != null
      invariant root.Valid()
      invariant Fill(p, w) == root.tree && Ptr(w) == walker && parent == ParentOf(p, null)
      invariant parent != null ==> (p.InLeft? <==> key < parent.key)
      invariant Cut(p, key)
      decreases w
    {
      root.ShowsFill(p, w);
      parent := walker;
      if key < walker.key {
        DescendLeft(p, w, key);
        walker := walker.left;
        p, w := InLeft(p, w.node, w.color, w.right), w.left;
      } else {
        DescendRight(p, w, key);
        walker := walker.right;
        p, w := InRight(p, w.left, w.node, w.color), w.right;
      }
    }
    root.ShowsFill(p, w);
  }

  method Attach(root: Root, node: Node, parent: Node?, ghost p: Path) returns (ghost t: Tree)
    requires root.Shows(p, Leaf) && parent == ParentOf(p, null) && node !in PathNodes(p) && Fits(p, 0)
    requires parent != null ==> (p.InLeft? <==> node.key < parent.key)
    modifies root`node, PathNodes(p)`left, PathNodes(p)`right, PathNodes(p)`pc, node`left, node`right, node`pc
    ensures Finished(root, t, Fill(p, Branch(Leaf, node, Red, Leaf)))
  {
    ghost var leaf := Branch(Leaf, node, Red, Leaf);
    FillNodes(p, leaf);
    LinkNode(root, node, parent, p);
    root.ShowsFill(p, leaf);
    t := RbtInsert.InsertColor(root, node, p, Fill(p, leaf));
  }

  /** The new node goes just after all keys less than or equal to its own; nothing else moves. */
  method InsertInt(root: Root, node: Node) returns (ghost k: nat)
    requires root.Valid() && node !in root.repr
    modifies root, root.repr`left, root.repr`right, root.repr`pc,
             node`left, node`right, node`pc
    ensures root.Valid() && root.repr == old(root.repr) + {node}
    ensures k <= |old(root.contents)|
    ensures root.contents == old(root.contents)[..k] + [node] + old(root.contents)[k..]
    ensures LastOfEquals(KeysOf(root.contents), k)
  {
    root.Open();
    var parent;
    ghost var p;
    parent, p := Descend(root, node.key);
    ghost var whole := Fill(p, Branch(Leaf, node, Red, Leaf));
    k := Prepare(p, node);
    ghost var s := root.contents[..k] + [node] + root.contents[k..];
    ghost var keys := KeysOf(s);
    ghost var t := Attach(root, node, parent, p);
    assert KeysOf(s) == keys;
    assert Inorder(t) == s;
    root.Adopt(t);
  }

  /** In ascending `keys`, all up to `k` are at most the key there and all beyond are greater. */
  ghost predicate LastOfEquals(keys: seq<nat>, k: nat) {
    k < |keys| && Ascending(keys) && forall i :: k < i < |keys| ==> keys[k] < keys[i]
  }

  lemma PreparedNodes(p: Path, node: Node)
    ensures Nodes(Fill(p, Leaf)) == PathNodes(p)
    ensures Nodes(Fill(p, Branch(Leaf, node, Red, Leaf))) == PathNodes(p) + {node}
  {
    FillNodes(p, Leaf);
    FillNodes(p, Branch(Leaf, node, Red, Leaf));
  }

  lemma PreparedPlace(p: Path, node: Node) returns (k: nat)
    requires Ascending(KeysOf(Inorder(Fill(p, Leaf)))) && Cut(p, node.key)
    ensures var s, s' := Inorder(Fill(p, Leaf)), Inorder(Fill(p, Branch(Leaf, node, Red, Leaf)));
      k <= |s| && s' == s[..k] + [node] + s[k..] && LastOfEquals(KeysOf(s'), k)
  {
    FillInorder(p, Leaf);
    FillInorder(p, Branch(Leaf, node, Red, Leaf));
    k := |Before(p)|;
    assert Inorder(Leaf) == [] && Inorder(Branch(Leaf, node, Red, Leaf)) == [node];
    hide Fill, Inorder, Before, After, KeysOf, Ascending, LastOfEquals;
    NothingBetween(Before(p), After(p));
    PlacedNode(Before(p), node, After(p));
  }

  lemma NothingBetween(b: seq<Node>, a: seq<Node>)
    ensures b + [] + a == b + a && (b + a)[..|b|] == b && (b + a)[|b|..] == a
  {
  }

  /** All that insertion at the end of `p` does to the abstract value. */
  lemma Prepare(p: Path, node: Node) returns (k: nat)
    requires RedBlack(Fill(p, Leaf)) && Ascending(KeysOf(Inorder(Fill(p, Leaf)))) && Cut(p, node.key)
    ensures Fits(p, 0) && Nodes(Fill(p, Leaf)) == PathNodes(p)
    ensures Nodes(Fill(p, Branch(Leaf, node, Red, Leaf))) == PathNodes(p) + {node}
    ensures var s, s' := Inorder(Fill(p, Leaf)), Inorder(Fill(p, Branch(Leaf, node, Red, Leaf)));
      k <= |s| && s' == s[..k] + [node] + s[k..] && LastOfEquals(KeysOf(s'), k)
  {
    CutRedBlack(p, Leaf);
    hide Fill, Inorder, Nodes, PathNodes, KeysOf, Ascending, LastOfEquals, RedBlack, Cut, Fits;
    PreparedNodes(p, node);
    k := PreparedPlace(p, node);
  }

  lemma PlacedNode(b: seq<Node>, n: Node, a: seq<Node>)
    requires Ascending(KeysOf(b + a))
    requires forall i :: 0 <= i < |b| ==> b[i].key <= n.key
    requires forall i :: 0 <= i < |a| ==> n.key < a[i].key
    ensures LastOfEquals(KeysOf(b + [n] + a), |b|)
  {
    KeysOfConcat(b, a);
    KeysOfConcat(b, [n]);
    KeysOfConcat(b + [n], a);
    assert KeysOf([n]) == [n.key];
    PlacedAscending(KeysOf(b), n.key, KeysOf(a));
  }

  lemma PlacedAscending(b: seq<nat>, x: nat, a: seq<nat>)
    requires Ascending(b + a)
    requires forall i :: 0 <= i < |b| ==> b[i] <= x
    requires forall i :: 0 <= i < |a| ==> x < a[i]
    ensures LastOfEquals(b + [x] + a, |b|)
  {
    var s, t, k := b + a, b + [x] + a, |b|;
    forall i, j | 0 <= i < j < |t| ensures t[i] <= t[j] {
      if j < k {
        assert s[i] == t[i] && s[j] == t[j];
      } else if i > k {
        assert s[i - 1] == t[i] && s[j - 1] == t[j];
      } else {
        assert if i < k then t[i] == b[i] else t[i] == x;
        assert if j > k then t[j] == a[j - k - 1] else t[j] == x;
      }
    }
    forall i | k < i < |t| ensures t[k] < t[i] {
      assert t[i] == a[i - k - 1];
    }
  }
}
