/** Exact, floor and ceiling search by key, and how far they descend. */
module RbtSearch {
  import opened Common
  import opened RbtShape
  import opened RbtHeap

  ghost function Height(t: Tree): nat {
    if t.Leaf? then 0 else 1 + if Height(t.left) < Height(t.right) then Height(t.right) else Height(t.left)
  }

  lemma {:induction false} Pow2Double(n: nat)
    ensures Pow2(2 * n) == Pow2(n) * Pow2(n)
  {
    if n > 0 {
      Pow2Double(n - 1);
      var x := Pow2(n - 1);
      assert Pow2(2 * n) == 2 * Pow2(2 * n - 1) == 4 * Pow2(2 * (n - 1));
      assert (2 * x) * (2 * x) == 4 * (x * x);
    }
  }

  lemma {:induction false} BalancedSize(t: Tree, h: nat)
    requires Balanced(t, h)
    ensures Pow2(h) <= |Inorder(t)| + 1
    ensures Height(t) <= 2 * h + if IsRed(t) then 1 else 0
  {
    match t
    case Leaf =>
    case Branch(l, _, c, r) =>
      var k := if c.Black? then h - 1 else h;
      BalancedSize(l, k);
      BalancedSize(r, k);
  }

  /** A red-black tree of n nodes is at most 2 log2(n + 1) high. */
  lemma HeightLogarithmic(t: Tree)
    requires RedBlack(t)
    ensures Pow2(Height(t)) <= (|Inorder(t)| + 1) * (|Inorder(t)| + 1)
  {
    var h, n := BlackHeight(t), |Inorder(t)| + 1;
    BalancedSize(t, h);
    Pow2Grows(Height(t), 2 * h);
    Pow2Double(h);
    Squares(Pow2(h), n);
  }

  /** No more than 2 log2(n + 1) steps down a tree of n nodes. */
  ghost predicate Logarithmic(steps: nat, n: nat) {
    Pow2(steps) <= (n + 1) * (n + 1)
  }

  lemma DescentLogarithmic(root: Root, steps: nat)
    requires root.Valid() && steps <= Height(root.tree)
    ensures Logarithmic(steps, |root.contents|)
  {
    root.Open();
    HeightLogarithmic(root.tree);
    Pow2Grows(steps, Height(root.tree));
  }

  lemma Squares(a: nat, b: nat)
    requires a <= b
    ensures a * a <= b * b
  {
    assert a * a <= a * b <= b * b;
  }

  /** The descent passed only smaller keys on the left and only greater ones on the right. */
  ghost predicate Narrowed(p: Path, key: nat)
    reads Before(p)`key, After(p)`key
  {
    (forall i :: 0 <= i < |Before(p)| ==> Before(p)[i].key < key) &&
    (forall i :: 0 <= i < |After(p)| ==> key < After(p)[i].key)
  }

  lemma NarrowLeft(p: Path, w: Tree, key: nat)
    requires w.Branch? && Ascending(KeysOf(Inorder(Fill(p, w)))) && Narrowed(p, key) && key < w.node.key
    ensures Narrowed(InLeft(p, w.node, w.color, w.right), key)
  {
    FillInorder(p, w);
    var l, r := Inorder(w.left), Inorder(w.right);
    assert Inorder(w) == l + [w.node] + r && After(InLeft(p, w.node, w.color, w.right)) == [w.node] + r + After(p);
    hide Inorder, Fill, KeysOf, Ascending;
    Around(Before(p), l, w.node, r, After(p));
    AllAbove(w.node, r, After(p), key);
  }

  lemma NarrowRight(p: Path, w: Tree, key: nat)
    requires w.Branch? && Ascending(KeysOf(Inorder(Fill(p, w)))) && Narrowed(p, key) && w.node.key < key
    ensures Narrowed(InRight(p, w.left, w.node, w.color), key)
  {
    FillInorder(p, w);
    var l, r := Inorder(w.left), Inorder(w.right);
    assert Inorder(w) == l + [w.node] + r && Before(InRight(p, w.left, w.node, w.color)) == Before(p) + l + [w.node];
    hide Inorder, Fill, KeysOf, Ascending;
    Around(Before(p), l, w.node, r, After(p));
    AllBelow(Before(p), l, w.node, key);
  }

  /** Where a search stands: at the subtree `w` at the end of `p`, whose root it looks at next. */
  ghost predicate At(root: Root, p: Path, w: Tree, walker: Node?, key: nat)
    reads root, root.repr, root.contents, PathNodes(p), Nodes(w), Before(p), After(p)
  {
    root.Valid() && Fill(p, w) == root.tree && root.Shows(p, w) && Ptr(w) == walker &&
    Narrowed(p, key) && Length(p) + Height(w) <= Height(root.tree)
  }

  lemma Start(root: Root, key: nat)
    requires root.Valid()
    ensures At(root, Top, root.tree, root.node, key)
  {
    root.Open();
  }

  lemma NoStepYet()
    ensures Length(Top) == 0
  {
  }

  /** The search step to the left, shared by the three searches. */
  lemma StepLeft(root: Root, p: Path, w: Tree, key: nat)
    requires w.Branch? && At(root, p, w, w.node, key) && key < w.node.key
    ensures At(root, InLeft(p, w.node, w.color, w.right), w.left, w.node.left, key)
    ensures Length(InLeft(p, w.node, w.color, w.right)) == Length(p) + 1
  {
    root.Open();
    NarrowLeft(p, w, key);
    root.ShowsFill(InLeft(p, w.node, w.color, w.right), w.left);
  }

  lemma StepRight(root: Root, p: Path, w: Tree, key: nat)
    requires w.Branch? && At(root, p, w, w.node, key) && w.node.key < key
    ensures At(root, InRight(p, w.left, w.node, w.color), w.right, w.node.right, key)
    ensures Length(InRight(p, w.left, w.node, w.color)) == Length(p) + 1
  {
    root.Open();
    NarrowRight(p, w, key);
    root.ShowsFill(InRight(p, w.left, w.node, w.color), w.right);
  }

  /** The node at place `i` of the tree. */
  ghost predicate Holds(root: Root, r: Node?, i: nat)
    reads root
  {
    r != null && i < |root.contents| && root.contents[i] == r
  }

  lemma PlaceOf(p: Path, w: Tree) returns (i: nat)
    requires w.Branch?
    ensures i < |Inorder(Fill(p, w))| && Inorder(Fill(p, w))[i] == w.node
  {
    FillInorder(p, w);
    i := |Before(p)| + |Inorder(w.left)|;
  }

  /** On a match, the searches go on through directly equal left children. */
  method LeftmostChain(root: Root, walker0: Node, key: nat, ghost p0: Path, ghost w0: Tree, ghost steps0: nat)
    returns (walker: Node, ghost i: nat, ghost steps: nat)
    requires root.Valid() && Fill(p0, w0) == root.tree && w0.Branch? && w0.node == walker0 && walker0.key == key
    requires Length(p0) + Height(w0) <= Height(root.tree) && steps0 == Length(p0)
    ensures Holds(root, walker, i) && walker.key == key
    ensures steps <= Height(root.tree)
  {
    root.Open();
    walker, steps := walker0, steps0;
    ghost var p, w := p0, w0;
    root.ShowsFill(p, w);
    while walker.left != null && key == walker.left.key
      invariant root.Valid() && root.Shows(p, w) && Fill(p, w) == root.tree && Ptr(w) == walker && walker.key == key
      invariant steps == Length(p) && Length(p) + Height(w) <= Height(root.tree)
      decreases w
    {
      p, w := InLeft(p, walker, w.color, w.right), w.left;
      walker, steps := walker.left, steps + 1;
      root.ShowsFill(p, w);
    }
    i := PlaceOf(p, w);
  }

  /** Where the key is missing, it would stand at place `k`. */
  lemma FellOff(root: Root, p: Path, key: nat) returns (k: nat)
    requires At(root, p, Leaf, null, key)
    ensures k <= |root.contents| && (k == 0 <==> Before(p) == []) && (k == |root.contents| <==> After(p) == [])
    ensures forall j :: 0 <= j < k ==> root.contents[j].key < key
    ensures forall j :: k <= j < |root.contents| ==> key < root.contents[j].key
    ensures k > 0 ==> root.contents[k - 1] == Before(p)[|Before(p)| - 1]
    ensures k < |root.contents| ==> root.contents[k] == After(p)[0]
  {
    root.Open();
    FillInorder(p, Leaf);
    k := |Before(p)|;
    GapBetween(Before(p), After(p), root.contents, key);
  }

  lemma GapBetween(b: seq<Node>, a: seq<Node>, s: seq<Node>, key: nat)
    requires s == b + [] + a
    requires forall i :: 0 <= i < |b| ==> b[i].key < key
    requires forall i :: 0 <= i < |a| ==> key < a[i].key
    ensures |s| == |b| + |a|
    ensures forall j :: 0 <= j < |b| ==> s[j].key < key
    ensures forall j :: |b| <= j < |s| ==> key < s[j].key
    ensures b != [] ==> s[|b| - 1] == b[|b| - 1]
    ensures a != [] ==> s[|b|] == a[0]
  {
    forall j | |b| <= j < |s| ensures key < s[j].key {
      assert s[j] == a[j - |b|];
    }
  }

  /** A node with the key when there is one; which of several equal ones is not said. */
  method SearchInt(root: Root, key: nat) returns (r: Node?, ghost i: nat, ghost steps: nat)
    requires root.Valid()
    ensures r == null <==> forall j :: 0 <= j < |root.contents| ==> root.contents[j].key != key
    ensures r != null ==> Holds(root, r, i) && r.key == key
    ensures Logarithmic(steps, |root.contents|)
  {
    hide Narrowed, Fill, Logarithmic, Height, Inorder, Pow2, Length;
    Start(root, key);
    var walker := root.node;
    ghost var p, w := Top, root.tree;
    i, steps := 0, 0;
    NoStepYet();
    while walker != null
      invariant At(root, p, w, walker, key) && steps == Length(p)
      decreases w
    {
      if key < walker.key {
        StepLeft(root, p, w, key);
        p, w := InLeft(p, w.node, w.color, w.right), w.left;
        walker, steps := walker.left, steps + 1;
      } else if key > walker.key {
        StepRight(root, p, w, key);
        p, w := InRight(p, w.left, w.node, w.color), w.right;
        walker, steps := walker.right, steps + 1;
      } else {
        r, i, steps := LeftmostChain(root, walker, key, p, w, steps);
        assert root.contents[i] == r;
        DescentLogarithmic(root, steps);
        return;
      }
    }
    r := null;
    DescentLogarithmic(root, steps);
    i := FellOff(root, p, key);
  }

  lemma FloorEnd(root: Root, p: Path, key: nat, r: Node?) returns (i: nat)
    requires At(root, p, Leaf, null, key)
    requires r == if Before(p) == [] then null else Before(p)[|Before(p)| - 1]
    ensures r == null ==> forall j :: 0 <= j < |root.contents| ==> key < root.contents[j].key
    ensures r != null ==> Holds(root, r, i) && r.key < key
    ensures r != null ==> forall j :: i < j < |root.contents| ==> key < root.contents[j].key
  {
    i := FellOff(root, p, key);
    if r != null {
      i := i - 1;
    }
  }

  /** Floor search: null exactly when every key is greater; otherwise a node with the key when there
      is one, or else the last node with a smaller key. */
  method LSearchInt(root: Root, key: nat) returns (r: Node?, ghost i: nat, ghost steps: nat)
    requires root.Valid()
    ensures r == null <==> forall j :: 0 <= j < |root.contents| ==> key < root.contents[j].key
    ensures r != null ==> Holds(root, r, i) && r.key <= key
    ensures r != null && r.key < key ==> forall j :: i < j < |root.contents| ==> key < root.contents[j].key
    ensures Logarithmic(steps, |root.contents|)
  {
    hide Narrowed, Fill, Logarithmic, Height, Inorder, Pow2, Length;
    Start(root, key);
    var walker, parent: Node? := root.node, null;
    ghost var p, w := Top, root.tree;
    i, steps := 0, 0;
    NoStepYet();
    while walker != null
      invariant At(root, p, w, walker, key) && steps == Length(p)
      invariant parent == if Before(p) == [] then null else Before(p)[|Before(p)| - 1]
      decreases w
    {
      if key < walker.key {
        StepLeft(root, p, w, key);
        p, w := InLeft(p, w.node, w.color, w.right), w.left;
        walker, steps := walker.left, steps + 1;
      } else if key > walker.key {
        parent := walker;
        StepRight(root, p, w, key);
        p, w := InRight(p, w.left, w.node, w.color), w.right;
        walker, steps := walker.right, steps + 1;
      } else {
        r, i, steps := LeftmostChain(root, walker, key, p, w, steps);
        assert root.contents[i] == r;
        DescentLogarithmic(root, steps);
        return;
      }
    }
    r := parent;
    DescentLogarithmic(root, steps);
    i := FloorEnd(root, p, key, r);
  }

  /** Ceiling search: the mirror image of the floor search. */
  method GSearchInt(root: Root, key: nat) returns (r: Node?, ghost i: nat, ghost steps: nat)
    requires root.Valid()
    ensures r == null <==> forall j :: 0 <= j < |root.contents| ==> root.contents[j].key < key
    ensures r != null ==> Holds(root, r, i) && key <= r.key
    ensures r != null && key < r.key ==> forall j :: 0 <= j < i ==> root.contents[j].key < key
    ensures Logarithmic(steps, |root.contents|)
  {
    hide Narrowed, Fill, Logarithmic, Height, Inorder, Pow2, Length;
    Start(root, key);
    var walker, parent: Node? := root.node, null;
    ghost var p, w := Top, root.tree;
    i, steps := 0, 0;
    NoStepYet();
    while walker != null
      invariant At(root, p, w, walker, key) && steps == Length(p)
      invariant parent == if After(p) == [] then null else After(p)[0]
      decreases w
    {
      if key < walker.key {
        parent := walker;
        StepLeft(root, p, w, key);
        p, w := InLeft(p, w.node, w.color, w.right), w.left;
        walker, steps := walker.left, steps + 1;
      } else if key > walker.key {
        StepRight(root, p, w, key);
        p, w := InRight(p, w.left, w.node, w.color), w.right;
        walker, steps := walker.right, steps + 1;
      } else {
        r, i, steps := LeftmostChain(root, walker, key, p, w, steps);
        assert root.contents[i] == r;
        DescentLogarithmic(root, steps);
        return;
      }
    }
    r := parent;
    DescentLogarithmic(root, steps);
    i := FellOff(root, p, key);
  }
}
