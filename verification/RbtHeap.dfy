/** How the links in the heap show a tree or a path, and the root record of the tree.
    A tree is valid when its links show a red-black tree whose in-order keys ascend. */
module RbtHeap {
  import opened Common
  import opened RbtShape

  /** The child, parent and colour fields of every node of `t` agree with the shape `t`. */
  ghost predicate Mirrors(t: Tree, parent: Node?)
    reads Nodes(t)
  {
    match t
    case Leaf => true
    case Branch(l, n, c, r) =>
      n.left == Ptr(l) && n.right == Ptr(r) && n.pc == ParentColor(parent, c) &&
      Mirrors(l, n) && Mirrors(r, n)
  }

  /** The same for a path: `child` hangs at its lower end, `top` is the parent of its upper end. */
  ghost predicate Linked(p: Path, child: Node?, top: Node?)
    reads PathNodes(p)
  {
    match p
    case Top => true
    case InLeft(up, n, c, r) =>
      n.left == child && n.right == Ptr(r) && n.pc == ParentColor(ParentOf(up, top), c) &&
      Mirrors(r, n) && Linked(up, n, top)
    case InRight(up, l, n, c) =>
      n.left == Ptr(l) && n.right == child && n.pc == ParentColor(ParentOf(up, top), c) &&
      Mirrors(l, n) && Linked(up, n, top)
  }

  lemma {:induction false} MirrorsFill(p: Path, t: Tree, top: Node?)
    ensures Mirrors(Fill(p, t), top) <==> Linked(p, Ptr(t), top) && Mirrors(t, ParentOf(p, top))
  {
    match p
    case Top =>
    case InLeft(up, n, c, r) => MirrorsFill(up, Branch(t, n, c, r), top);
    case InRight(up, l, n, c) => MirrorsFill(up, Branch(l, n, c, t), top);
  }

  lemma {:induction false} LinkedAppend(low: Path, high: Path, child: Node?, top: Node?)
    ensures ParentOf(Append(low, high), top) == ParentOf(low, ParentOf(high, top))
    ensures Linked(Append(low, high), child, top)
       <==> Linked(low, child, ParentOf(high, top)) && Linked(high, RootPtr(low, child), top)
  {
    if !low.Top? {
      LinkedAppend(low.up, high, low.node, top);
    }
  }

  lemma {:induction false} NodesAllocated(t: Tree)
    ensures forall n :: n in Nodes(t) ==> allocated(n)
    ensures forall n :: n in Inorder(t) ==> allocated(n)
  {
    match t
    case Leaf =>
    case Branch(l, n, _, r) => NodesAllocated(l); NodesAllocated(r);
  }

  lemma {:induction false} PathNodesAllocated(p: Path)
    ensures forall n :: n in PathNodes(p) ==> allocated(n)
  {
    match p
    case Top =>
    case InLeft(up, _, _, r) => PathNodesAllocated(up); NodesAllocated(r);
    case InRight(up, l, _, _) => PathNodesAllocated(up); NodesAllocated(l);
  }

  ghost function KeysOf(s: seq<Node>): (keys: seq<nat>)
    reads s`key
    ensures |keys| == |s| && forall i :: 0 <= i < |s| ==> keys[i] == s[i].key
  {
    if s == [] then [] else [s[0].key] + KeysOf(s[1..])
  }

  lemma KeysOfConcat(a: seq<Node>, b: seq<Node>)
    ensures KeysOf(a + b) == KeysOf(a) + KeysOf(b)
  {
  }

  ghost predicate Ascending(keys: seq<nat>) {
    forall i, j :: 0 <= i < j < |keys| ==> keys[i] <= keys[j]
  }

  /** On either side of a node in the sequence. */
  lemma Around(b: seq<Node>, l: seq<Node>, n: Node, r: seq<Node>, a: seq<Node>)
    requires Ascending(KeysOf(b + (l + [n] + r) + a))
    ensures forall i :: 0 <= i < |l| ==> l[i].key <= n.key
    ensures forall i :: 0 <= i < |r| ==> n.key <= r[i].key
  {
    var s := b + (l + [n] + r) + a;
    var keys := KeysOf(s);
    assert s[|b| + |l|] == n;
    forall i | 0 <= i < |l| ensures l[i].key <= n.key {
      assert s[|b| + i] == l[i] && keys[|b| + i] <= keys[|b| + |l|];
    }
    forall i | 0 <= i < |r| ensures n.key <= r[i].key {
      assert s[|b| + |l| + 1 + i] == r[i] && keys[|b| + |l|] <= keys[|b| + |l| + 1 + i];
    }
  }

  lemma AllAbove(n: Node, r: seq<Node>, a: seq<Node>, key: nat)
    requires key < n.key && (forall i :: 0 <= i < |r| ==> n.key <= r[i].key) && (forall i :: 0 <= i < |a| ==> key < a[i].key)
    ensures var t := [n] + r + a; forall i :: 0 <= i < |t| ==> key < t[i].key
  {
    var t := [n] + r + a;
    forall i | 0 <= i < |t| ensures key < t[i].key {
      assert t[i] == if i == 0 then n else if i <= |r| then r[i - 1] else a[i - |r| - 1];
    }
  }

  lemma AllBelow(b: seq<Node>, l: seq<Node>, n: Node, key: int)
    requires n.key < key && (forall i :: 0 <= i < |l| ==> l[i].key <= n.key) && (forall i :: 0 <= i < |b| ==> b[i].key < key)
    ensures var t := b + l + [n]; forall i :: 0 <= i < |t| ==> t[i].key < key
  {
    var t := b + l + [n];
    forall i | 0 <= i < |t| ensures t[i].key < key {
      assert t[i] == if i < |b| then b[i] else if i < |b| + |l| then l[i - |b|] else n;
    }
  }

  ghost function Union(p: Path, t: Tree): set<Node> { PathNodes(p) + Nodes(t) }

  /** What every splice needs to know before it starts: the path is clear of the subtree, and the
      nodes of both exist. */
  lemma Apart(p: Path, t: Tree)
    requires DistinctPath(p, Nodes(t))
    ensures PathNodes(p) !! Nodes(t)
    ensures forall n :: n in Union(p, t) ==> allocated(n)
  {
    DistinctPathDisjoint(p, Nodes(t));
    NodesAllocated(t);
    PathNodesAllocated(p);
  }

  /** Two nodes and three subtrees that share nothing: what a rotation rearranges. */
  ghost predicate Apart3(x: Node, y: Node, a: Tree, b: Tree, c: Tree) {
    x != y && x !in Nodes(a) && x !in Nodes(b) && x !in Nodes(c) &&
    y !in Nodes(a) && y !in Nodes(b) && y !in Nodes(c) &&
    Nodes(a) !! Nodes(b) && Nodes(a) !! Nodes(c) && Nodes(b) !! Nodes(c) &&
    Distinct(a) && Distinct(b) && Distinct(c)
  }

  lemma ApartRight(t: Tree)
    requires t.Branch? && Distinct(t) && t.right.Branch?
    ensures Apart3(t.node, t.right.node, t.left, t.right.left, t.right.right)
  {
  }

  lemma ApartLeft(t: Tree)
    requires t.Branch? && Distinct(t) && t.left.Branch?
    ensures Apart3(t.node, t.left.node, t.right, t.left.left, t.left.right)
  {
  }

  class Root {
    var node: Node?
    ghost var tree: Tree
    /** The abstract value: the nodes in key order, equal keys in order of insertion. */
    ghost var contents: seq<Node>
    ghost var repr: set<Node>

    /** From this root the heap shows the tree that has `t` at the end of `p`. */
    ghost predicate Shows(p: Path, t: Tree)
      reads this`node, PathNodes(p), Nodes(t)
    {
      node == RootPtr(p, Ptr(t)) && Linked(p, Ptr(t), null) && Mirrors(t, ParentOf(p, null)) &&
      Distinct(t) && DistinctPath(p, Nodes(t))
    }

    lemma ShowsFill(p: Path, t: Tree)
      ensures Shows(p, t) <==> Shows(Top, Fill(p, t))
    {
      MirrorsFill(p, t, null);
      FillPtr(p, t);
      FillDistinct(p, t);
    }

    lemma ShowsUp(p: Path, t: Tree)
      requires !p.Top?
      ensures Shows(p, t) <==> Shows(p.up, Join(p, t))
    {
      match p
      case InLeft(up, n, c, r) => assert Nodes(Join(p, t)) == Nodes(t) + {n} + Nodes(r);
      case InRight(up, l, n, c) => assert Nodes(Join(p, t)) == Nodes(t) + {n} + Nodes(l);
    }

    /** The invariant. What it says stays folded until `Open` is called: clients that only keep the
        tree apart from other objects do not need it. */
    ghost predicate Valid()
      reads this, repr, contents`key
    {
      forall u: bool {:trigger Unfold(u)} :: Unfold(u) ==>
        (forall k :: 0 <= k < |contents| ==> contents[k] in repr) && Ascending(KeysOf(contents)) &&
        repr == Nodes(tree) && contents == Inorder(tree) && RedBlack(tree) && Shows(Top, tree)
    }

    lemma Open()
      requires Valid()
      ensures (forall k :: 0 <= k < |contents| ==> contents[k] in repr) && Ascending(KeysOf(contents))
      ensures repr == Nodes(tree) && contents == Inorder(tree) && RedBlack(tree) && Shows(Top, tree)
    {
      assert Unfold(true);
    }

    lemma NoRepeats()
      requires Valid()
      ensures forall i, j :: 0 <= i < j < |contents| ==> contents[i] != contents[j]
    {
      Open();
      InorderDistinct(tree);
    }

    lemma Member(n: Node)
      requires Valid()
      ensures n in contents <==> n in repr
    {
      Open();
      InorderMember(tree, n);
    }

    constructor ()
      ensures Valid() && contents == [] && repr == {}
    {
      node := null;
      tree, contents, repr := Leaf, [], {};
    }

    /** Takes a repaired shape as the abstract value. */
    ghost method Adopt(t: Tree)
      requires Shows(Top, t) && RedBlack(t) && Ascending(KeysOf(Inorder(t)))
      modifies this`tree, this`contents, this`repr
      ensures Valid() && contents == Inorder(t) && repr == Nodes(t)
      ensures KeysOf(contents) == old(KeysOf(Inorder(t)))
    {
      NodesAllocated(t);
      tree, contents, repr := t, Inorder(t), Nodes(t);
      forall k | 0 <= k < |contents| ensures contents[k] in repr {
        InorderMember(t, contents[k]);
      }
    }

    /** Redirects the link that leads to `old_`: the parent's, or the root's. */
    method ChangeChild(old_: Node, cnew: Node?, parent: Node?, ghost up: Path, ghost below: set<Node>)
      requires parent == ParentOf(up, null) && old_ in below && DistinctPath(up, below)
      requires Linked(up, old_, null) && node == RootPtr(up, old_)
      modifies this`node, PathNodes(up)`left, PathNodes(up)`right
      ensures Linked(up, cnew, null) && node == RootPtr(up, cnew)
    {
      if parent != null {
        LowestApart(up, below);
        if parent.left == old_ {
          parent.left := cnew;
        } else {
          parent.right := cnew;
        }
      } else {
        node := cnew;
      }
    }
  }

  /** The whole tree, repaired. */
  ghost predicate Finished(root: Root, t: Tree, whole: Tree)
    reads root, Nodes(t)
  {
    root.Shows(Top, t) && RedBlack(t) && SameContents(t, whole)
  }
}
