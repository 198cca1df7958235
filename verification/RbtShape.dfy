/** The node record of the red-black tree, and the mathematical shapes its links are read as:
    a whole tree, and a path (zipper) from a subtree up to the root.
    Colours and references live in these values; the heap is related to them in `RbtHeap`. */
module RbtShape {

  datatype Color = Red | Black

  /** The source keeps the parent pointer and the colour in one word, and copies it as one. */
  datatype ParentColor = ParentColor(parent: Node?, color: Color)

  class Node {
    var pc: ParentColor
    var right: Node?
    var left: Node?
    var key: nat

    constructor (key: nat)
      ensures this.key == key
    {
      this.key := key;
      pc := ParentColor(null, Red);
      left, right := null, null;
    }
  }

  datatype Tree = Leaf | Branch(left: Tree, node: Node, color: Color, right: Tree)

  datatype Path =
    | Top
    | InLeft(up: Path, node: Node, color: Color, right: Tree)
    | InRight(up: Path, left: Tree, node: Node, color: Color)

  ghost function Ptr(t: Tree): Node? {
    if t.Leaf? then null else t.node
  }

  ghost predicate IsRed(t: Tree) {
    t.Branch? && t.color.Red?
  }

  ghost function Inorder(t: Tree): seq<Node> {
    match t
    case Leaf => []
    case Branch(l, n, _, r) => Inorder(l) + [n] + Inorder(r)
  }

  ghost function Postorder(t: Tree): seq<Node> {
    match t
    case Leaf => []
    case Branch(l, n, _, r) => Postorder(l) + Postorder(r) + [n]
  }

  ghost function Nodes(t: Tree): set<Node> {
    match t
    case Leaf => {}
    case Branch(l, n, _, r) => Nodes(l) + {n} + Nodes(r)
  }

  ghost predicate Distinct(t: Tree) {
    match t
    case Leaf => true
    case Branch(l, n, _, r) =>
      n !in Nodes(l) && n !in Nodes(r) && Nodes(l) !! Nodes(r) && Distinct(l) && Distinct(r)
  }

  /** The whole tree that has `t` at the end of path `p`. */
  ghost function Fill(p: Path, t: Tree): Tree {
    match p
    case Top => t
    case InLeft(up, n, c, r) => Fill(up, Branch(t, n, c, r))
    case InRight(up, l, n, c) => Fill(up, Branch(l, n, c, t))
  }

  /** One step of `Fill`: the subtree hanging at the lowest node of `p`. */
  ghost function Join(p: Path, t: Tree): Tree
    requires !p.Top?
  {
    if p.InLeft? then Branch(t, p.node, p.color, p.right) else Branch(p.left, p.node, p.color, t)
  }

  ghost function Before(p: Path): seq<Node> {
    match p
    case Top => []
    case InLeft(up, _, _, _) => Before(up)
    case InRight(up, l, n, _) => Before(up) + Inorder(l) + [n]
  }

  ghost function After(p: Path): seq<Node> {
    match p
    case Top => []
    case InLeft(up, n, _, r) => [n] + Inorder(r) + After(up)
    case InRight(up, _, _, _) => After(up)
  }

  ghost function PathNodes(p: Path): set<Node> {
    match p
    case Top => {}
    case InLeft(up, n, _, r) => PathNodes(up) + {n} + Nodes(r)
    case InRight(up, l, n, _) => PathNodes(up) + {n} + Nodes(l)
  }

  /** The nodes of `p` are pairwise distinct and none is in `below`. */
  ghost predicate DistinctPath(p: Path, below: set<Node>) {
    match p
    case Top => true
    case InLeft(up, n, _, r) =>
      n !in below && n !in Nodes(r) && Nodes(r) !! below && Distinct(r) &&
      DistinctPath(up, below + {n} + Nodes(r))
    case InRight(up, l, n, _) =>
      n !in below && n !in Nodes(l) && Nodes(l) !! below && Distinct(l) &&
      DistinctPath(up, below + {n} + Nodes(l))
  }

  /** `low` continued by `high` toward the root. */
  ghost function Append(low: Path, high: Path): Path {
    match low
    case Top => high
    case InLeft(up, n, c, r) => InLeft(Append(up, high), n, c, r)
    case InRight(up, l, n, c) => InRight(Append(up, high), l, n, c)
  }

  lemma {:induction false} FillAppend(low: Path, high: Path, t: Tree)
    ensures Fill(Append(low, high), t) == Fill(high, Fill(low, t))
  {
    if !low.Top? {
      FillAppend(low.up, high, Join(low, t));
    }
  }

  /** A path that only ever went left. */
  ghost predicate Leftmost(p: Path) {
    p.Top? || (p.InLeft? && Leftmost(p.up))
  }

  lemma {:induction false} LeftmostBefore(p: Path)
    requires Leftmost(p)
    ensures Before(p) == []
  {
    if !p.Top? {
      LeftmostBefore(p.up);
    }
  }

  ghost function Length(p: Path): nat {
    if p.Top? then 0 else 1 + Length(p.up)
  }

  ghost function ParentOf(p: Path, top: Node?): Node? {
    if p.Top? then top else p.node
  }

  /** The root pointer of `Fill(p, t)` when `child` is the root pointer of `t`. */
  ghost function RootPtr(p: Path, child: Node?): Node? {
    if p.Top? then child else RootPtr(p.up, p.node)
  }

  // ---------- red-black balance ----------

  /** No red node has a red child, and every way down passes `h` black nodes. */
  ghost predicate Balanced(t: Tree, h: nat) {
    match t
    case Leaf => h == 0
    case Branch(l, _, Red, r) => !IsRed(l) && !IsRed(r) && Balanced(l, h) && Balanced(r, h)
    case Branch(l, _, Black, r) => h > 0 && Balanced(l, h - 1) && Balanced(r, h - 1)
  }

  ghost function BlackHeight(t: Tree): nat {
    match t
    case Leaf => 0
    case Branch(l, _, c, _) => BlackHeight(l) + if c.Black? then 1 else 0
  }

  ghost predicate RedBlack(t: Tree) {
    !IsRed(t) && Balanced(t, BlackHeight(t))
  }

  /** `p` accepts, at its end, a subtree of black height `h`. */
  ghost predicate Fits(p: Path, h: nat) {
    match p
    case Top => true
    case InLeft(up, _, Red, r) => Balanced(r, h) && !IsRed(r) && !up.Top? && up.color.Black? && Fits(up, h)
    case InRight(up, l, _, Red) => Balanced(l, h) && !IsRed(l) && !up.Top? && up.color.Black? && Fits(up, h)
    case InLeft(up, _, Black, r) => Balanced(r, h) && Fits(up, h + 1)
    case InRight(up, l, _, Black) => Balanced(l, h) && Fits(up, h + 1)
  }

  ghost predicate RedAllowed(p: Path) {
    !p.Top? && p.color.Black?
  }

  lemma {:induction false} BalancedHeight(t: Tree, h: nat)
    requires Balanced(t, h)
    ensures h == BlackHeight(t)
  {
    match t
    case Leaf =>
    case Branch(l, _, c, _) => BalancedHeight(l, if c.Black? then h - 1 else h);
  }

  lemma {:induction false} FillRedBlack(p: Path, t: Tree, h: nat)
    requires Fits(p, h) && Balanced(t, h) && (IsRed(t) ==> RedAllowed(p))
    ensures RedBlack(Fill(p, t))
  {
    match p
    case Top => BalancedHeight(t, h);
    case InLeft(up, n, c, r) => FillRedBlack(up, Branch(t, n, c, r), if c.Black? then h + 1 else h);
    case InRight(up, l, n, c) => FillRedBlack(up, Branch(l, n, c, t), if c.Black? then h + 1 else h);
  }

  /** The converse: cutting a red-black tree anywhere leaves a path that fits the cut subtree. */
  lemma {:induction false} CutRedBlack(p: Path, t: Tree)
    requires RedBlack(Fill(p, t))
    ensures Balanced(t, BlackHeight(t)) && Fits(p, BlackHeight(t)) && (IsRed(t) ==> RedAllowed(p))
  {
    match p
    case Top =>
    case InLeft(up, n, c, r) =>
      CutRedBlack(up, Branch(t, n, c, r));
    case InRight(up, l, n, c) =>
      CutRedBlack(up, Branch(l, n, c, t));
      BalancedHeight(t, BlackHeight(l));
  }

  // ---------- reading a filled path ----------

  lemma {:induction false} FillInorder(p: Path, t: Tree)
    ensures Inorder(Fill(p, t)) == Before(p) + Inorder(t) + After(p)
  {
    if !p.Top? {
      FillInorder(p.up, Join(p, t));
      JoinInorder(p, t);
    }
  }

  lemma JoinInorder(p: Path, t: Tree)
    requires !p.Top?
    ensures Before(p.up) + Inorder(Join(p, t)) + After(p.up) == Before(p) + Inorder(t) + After(p)
  {
    var b, x, y := Before(p.up), Inorder(t), After(p.up);
    if p.InLeft? {
      var z := Inorder(p.right);
      assert b + (x + [p.node] + z) + y == b + x + ([p.node] + z + y);
    } else {
      var z := Inorder(p.left);
      assert b + (z + [p.node] + x) + y == (b + z + [p.node]) + x + y;
    }
  }

  lemma {:induction false} FillNodes(p: Path, t: Tree)
    ensures Nodes(Fill(p, t)) == PathNodes(p) + Nodes(t)
  {
    match p
    case Top =>
    case InLeft(up, n, c, r) => FillNodes(up, Branch(t, n, c, r));
    case InRight(up, l, n, c) => FillNodes(up, Branch(l, n, c, t));
  }

  lemma {:induction false} FillPtr(p: Path, t: Tree)
    ensures Ptr(Fill(p, t)) == RootPtr(p, Ptr(t))
  {
    match p
    case Top =>
    case InLeft(up, n, c, r) => FillPtr(up, Branch(t, n, c, r));
    case InRight(up, l, n, c) => FillPtr(up, Branch(l, n, c, t));
  }

  lemma {:induction false} FillDistinct(p: Path, t: Tree)
    ensures Distinct(Fill(p, t)) <==> Distinct(t) && DistinctPath(p, Nodes(t))
  {
    match p
    case Top =>
    case InLeft(up, n, c, r) =>
      FillDistinct(up, Branch(t, n, c, r));
      assert Nodes(Branch(t, n, c, r)) == Nodes(t) + {n} + Nodes(r);
    case InRight(up, l, n, c) =>
      FillDistinct(up, Branch(l, n, c, t));
      assert Nodes(Branch(l, n, c, t)) == Nodes(t) + {n} + Nodes(l);
  }

  lemma {:induction false} DistinctPathDisjoint(p: Path, below: set<Node>)
    requires DistinctPath(p, below)
    ensures PathNodes(p) !! below
  {
    match p
    case Top =>
    case InLeft(up, n, _, r) => DistinctPathDisjoint(up, below + {n} + Nodes(r));
    case InRight(up, l, n, _) => DistinctPathDisjoint(up, below + {n} + Nodes(l));
  }

  lemma {:induction false} DistinctPathShrink(p: Path, below: set<Node>, less: set<Node>)
    requires DistinctPath(p, below) && less <= below
    ensures DistinctPath(p, less)
  {
    match p
    case Top =>
    case InLeft(up, n, _, r) => DistinctPathShrink(up, below + {n} + Nodes(r), less + {n} + Nodes(r));
    case InRight(up, l, n, _) => DistinctPathShrink(up, below + {n} + Nodes(l), less + {n} + Nodes(l));
  }

  lemma LowestApart(p: Path, below: set<Node>)
    requires DistinctPath(p, below) && !p.Top?
    ensures p.node !in PathNodes(p.up)
    ensures p.InLeft? ==> p.node !in Nodes(p.right) && PathNodes(p.up) !! Nodes(p.right)
    ensures p.InRight? ==> p.node !in Nodes(p.left) && PathNodes(p.up) !! Nodes(p.left)
  {
    if p.InLeft? {
      DistinctPathDisjoint(p.up, below + {p.node} + Nodes(p.right));
    } else {
      DistinctPathDisjoint(p.up, below + {p.node} + Nodes(p.left));
    }
  }

  lemma {:induction false} InorderMember(t: Tree, n: Node)
    ensures n in Inorder(t) <==> n in Nodes(t)
  {
    match t
    case Leaf =>
    case Branch(l, _, _, r) => InorderMember(l, n); InorderMember(r, n);
  }

  /** Distinctness of a tree is exactly the in-order sequence having no repetition. */
  lemma {:induction false} InorderDistinct(t: Tree)
    requires Distinct(t)
    ensures forall i, j :: 0 <= i < j < |Inorder(t)| ==> Inorder(t)[i] != Inorder(t)[j]
  {
    match t
    case Leaf =>
    case Branch(l, n, _, r) =>
      InorderDistinct(l); InorderDistinct(r);
      var a, b := Inorder(l), Inorder(r);
      forall i, j | 0 <= i < j < |Inorder(t)| ensures Inorder(t)[i] != Inorder(t)[j] {
        var x, y := Inorder(t)[i], Inorder(t)[j];
        if j < |a| {
          assert x == a[i] && y == a[j];
        } else if i > |a| {
          assert x == b[i - |a| - 1] && y == b[j - |a| - 1];
        } else {
          assert if i < |a| then x == a[i] && x in Inorder(l) else x == n;
          assert if j > |a| then y == b[j - |a| - 1] && y in Inorder(r) else y == n;
          InorderMember(l, x); InorderMember(r, y);
        }
      }
  }

  /** A node of a tree is the root of the subtree at the end of some path. */
  lemma {:induction false} FindNode(t: Tree, n: Node) returns (p: Path, s: Tree)
    requires n in Nodes(t)
    ensures Fill(p, s) == t && s.Branch? && s.node == n
  {
    p, s := FindBelow(Top, t, n);
  }

  lemma {:induction false} FindBelow(p0: Path, t: Tree, n: Node) returns (p: Path, s: Tree)
    requires n in Nodes(t)
    ensures Fill(p, s) == Fill(p0, t) && s.Branch? && s.node == n
    decreases t
  {
    if t.node == n {
      p, s := p0, t;
    } else if n in Nodes(t.left) {
      p, s := FindBelow(InLeft(p0, t.node, t.color, t.right), t.left, n);
    } else {
      p, s := FindBelow(InRight(p0, t.left, t.node, t.color), t.right, n);
    }
  }

  // ---------- rotations ----------

  /** `s` holds the nodes of `t` in the same order. */
  ghost predicate SameContents(s: Tree, t: Tree) {
    Inorder(s) == Inorder(t) && Nodes(s) == Nodes(t) && (Distinct(s) <==> Distinct(t))
  }

  lemma Rotated(a: Tree, x: Node, b: Tree, y: Node, c: Tree, k0: Color, k1: Color, k2: Color, k3: Color)
    ensures SameContents(Branch(a, x, k0, Branch(b, y, k1, c)), Branch(Branch(a, x, k2, b), y, k3, c))
  {
    var i, j, k := Inorder(a), Inorder(b), Inorder(c);
    assert i + [x] + (j + [y] + k) == (i + [x] + j) + [y] + k;
  }

  lemma Recolored(t: Tree, c: Color)
    requires t.Branch?
    ensures SameContents(t.(color := c), t)
  {
  }

  lemma SameContentsUnder(l: Tree, n: Node, c: Color, r: Tree, l': Tree, r': Tree, c': Color)
    requires SameContents(l, l') && SameContents(r, r')
    ensures SameContents(Branch(l, n, c, r), Branch(l', n, c', r'))
  {
  }

  lemma SameContentsFill(p: Path, s: Tree, t: Tree)
    requires SameContents(s, t)
    ensures SameContents(Fill(p, s), Fill(p, t))
  {
    FillInorder(p, s); FillInorder(p, t);
    FillNodes(p, s); FillNodes(p, t);
    FillDistinct(p, s); FillDistinct(p, t);
  }
}
