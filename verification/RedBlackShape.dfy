/** The mathematics behind libc/rbtree.c: ordered trees of nodes, one-hole
    contexts, and the insertion fix-up as a function on them.  Nothing here
    looks at the heap; RedBlackTree.dfy proves the pointer code against it. */
module RedBlackShape {
  import opened Powers

  datatype Color = Red | Black

  /** struct rb_node, together with the value of the structure it is embedded in. */
  class Node {
    const key: int
    var left: Node?
    var right: Node?
    var parent: Node?
    var color: Color

    constructor (key: int)
      ensures this.key == key
    {
      this.key := key;
      left, right, parent, color := null, null, null, Red;
    }
  }

  datatype Tree = Leaf | Branch(left: Tree, node: Node, color: Color, right: Tree)

  /** A tree with one subtree missing, read from the hole up to the root. */
  datatype Context =
    | Top
    | InLeft(up: Context, node: Node, color: Color, right: Tree)
    | InRight(up: Context, left: Tree, node: Node, color: Color)

  /** The subtree of the hole's parent once t fills the hole. */
  ghost function Fill(c: Context, t: Tree): Tree
    requires !c.Top?
  {
    if c.InLeft? then Branch(t, c.node, c.color, c.right) else Branch(c.left, c.node, c.color, t)
  }

  ghost function Plug(c: Context, t: Tree): Tree
    decreases c
  {
    if c.Top? then t else Plug(c.up, Fill(c, t))
  }

  /** Number of edges between the hole and the root. */
  ghost function Depth(c: Context): nat {
    if c.Top? then 0 else 1 + Depth(c.up)
  }

  // ---------------------------------------------------------------- in-order sequence

  ghost function InOrder(t: Tree): seq<Node> {
    match t
    case Leaf => []
    case Branch(l, n, _, r) => InOrder(l) + [n] + InOrder(r)
  }

  ghost function Before(c: Context): seq<Node> {
    match c
    case Top => []
    case InLeft(up, _, _, _) => Before(up)
    case InRight(up, l, n, _) => Before(up) + InOrder(l) + [n]
  }

  ghost function After(c: Context): seq<Node> {
    match c
    case Top => []
    case InLeft(up, n, _, r) => [n] + InOrder(r) + After(up)
    case InRight(up, _, _, _) => After(up)
  }

  lemma {:induction false} InOrderPlug(c: Context, t: Tree)
    ensures InOrder(Plug(c, t)) == Before(c) + InOrder(t) + After(c)
    decreases c
  {
    if !c.Top? {
      InOrderPlug(c.up, Fill(c, t));
    }
  }

  // ---------------------------------------------------------------- red-black trees

  predicate IsRed(t: Tree) {
    t.Branch? && t.color.Red?
  }

  ghost function BlackUnit(col: Color): nat {
    if col.Black? then 1 else 0
  }

  /** Black nodes on the leftmost path; on a Balanced tree, on every path. */
  ghost function BlackHeight(t: Tree): nat {
    if t.Leaf? then 0 else BlackHeight(t.left) + BlackUnit(t.color)
  }

  ghost predicate Balanced(t: Tree) {
    t.Leaf? || (Balanced(t.left) && Balanced(t.right) && BlackHeight(t.left) == BlackHeight(t.right))
  }

  ghost predicate NoRedRed(t: Tree) {
    t.Leaf? ||
    (NoRedRed(t.left) && NoRedRed(t.right) && (t.color.Red? ==> !IsRed(t.left) && !IsRed(t.right)))
  }

  ghost predicate IsRedBlack(t: Tree) {
    Balanced(t) && NoRedRed(t) && !IsRed(t)
  }

  /** Any balanced tree of black height h plugged into c gives a balanced tree. */
  ghost predicate ContextBalanced(c: Context, h: nat) {
    match c
    case Top => true
    case InLeft(up, _, col, r) =>
      Balanced(r) && BlackHeight(r) == h && ContextBalanced(up, h + BlackUnit(col))
    case InRight(up, l, _, col) =>
      Balanced(l) && BlackHeight(l) == h && ContextBalanced(up, h + BlackUnit(col))
  }

  /** No red-red edge inside c, and the root, if it lies in c, is black. */
  ghost predicate ContextNoRedRed(c: Context) {
    match c
    case Top => true
    case InLeft(up, _, col, r) =>
      NoRedRed(r) && ContextNoRedRed(up) && (col.Red? ==> !IsRed(r) && !up.Top? && up.color.Black?)
    case InRight(up, l, _, col) =>
      NoRedRed(l) && ContextNoRedRed(up) && (col.Red? ==> !IsRed(l) && !up.Top? && up.color.Black?)
  }

  /** A red node t below c with at most one red-red edge: the one above t. */
  ghost predicate RedBlackBut(c: Context, t: Tree) {
    && IsRed(t) && Balanced(t) && NoRedRed(t)
    && ContextBalanced(c, BlackHeight(t)) && ContextNoRedRed(c)
  }

  /** Splitting a tree at a hole splits the red-black property. */
  lemma {:induction false} RedBlackPlug(c: Context, t: Tree)
    ensures Balanced(Plug(c, t)) <==> Balanced(t) && ContextBalanced(c, BlackHeight(t))
    ensures NoRedRed(Plug(c, t)) && !IsRed(Plug(c, t)) <==>
            NoRedRed(t) && ContextNoRedRed(c) && (IsRed(t) ==> !c.Top? && c.color.Black?)
    decreases c
  {
    if !c.Top? {
      RedBlackPlug(c.up, Fill(c, t));
    }
  }

  // ---------------------------------------------------------------- the fix-up

  function Paint(t: Tree, col: Color): Tree {
    if t.Leaf? then t else t.(color := col)
  }

  /** The fix-up of rbtree_insert for a red node t in context c: recolour while
      the uncle is red, otherwise rotate once or twice and stop. */
  ghost function FixUp(c: Context, t: Tree): Tree
    requires t.Branch? && ContextNoRedRed(c)
    decreases c
  {
    if c.Top? then Paint(t, Black)
    else if c.color.Black? then Plug(c, t)
    else
      assert ContextNoRedRed(c.up);
      if IsRed(Uncle(c)) then FixUp(c.up.up, Recoloured(c, t))
      else Plug(c.up.up, Rotated(c, t))
  }

  /** The sibling of the hole's parent. */
  ghost function Uncle(c: Context): Tree
    requires !c.Top? && !c.up.Top?
  {
    if c.up.InLeft? then c.up.right else c.up.left
  }

  /** Parent and uncle black, grandparent red. */
  ghost function Recoloured(c: Context, t: Tree): Tree
    requires !c.Top? && !c.up.Top?
  {
    var g := c.up;
    var parent := Paint(Fill(c, t), Black);
    if g.InLeft? then Branch(parent, g.node, Red, Paint(g.right, Black))
    else Branch(Paint(g.left, Black), g.node, Red, parent)
  }

  /** The grandparent's subtree after the rotations: an inner node is lifted over
      its parent first, then the middle node of the three becomes the black top. */
  ghost function Rotated(c: Context, t: Tree): Tree
    requires !c.Top? && !c.up.Top? && t.Branch?
  {
    var g := c.up;
    if g.InLeft? then
      if c.InLeft? then
        Branch(t, c.node, Black, Branch(c.right, g.node, Red, g.right))
      else
        Branch(Branch(c.left, c.node, Red, t.left), t.node, Black, Branch(t.right, g.node, Red, g.right))
    else
      if c.InRight? then
        Branch(Branch(g.left, g.node, Red, c.left), c.node, Black, t)
      else
        Branch(Branch(g.left, g.node, Red, t.left), t.node, Black, Branch(t.right, c.node, Red, c.right))
  }

  /** One recolouring pass: the only possible red-red edge is now two levels up. */
  lemma RecolourStep(c: Context, t: Tree)
    requires RedBlackBut(c, t) && !c.Top? && c.color.Red? && IsRed(Uncle(c))
    ensures RedBlackBut(c.up.up, Recoloured(c, t))
    ensures Depth(c.up.up) == Depth(c) - 2
  {
    var g := c.up;
    assert ContextBalanced(g, BlackHeight(t)) && ContextNoRedRed(g);
    assert ContextBalanced(g.up, BlackHeight(t) + 1) && ContextNoRedRed(g.up);
    var u := Paint(Uncle(c), Black);
    assert Balanced(u) && NoRedRed(u) && BlackHeight(u) == BlackHeight(t) + 1;
    var p := Paint(Fill(c, t), Black);
    assert Balanced(p) && NoRedRed(p) && BlackHeight(p) == BlackHeight(t) + 1;
  }

  /** The rotations remove the red-red edge and keep the black height. */
  lemma RotateStep(c: Context, t: Tree)
    requires RedBlackBut(c, t) && !c.Top? && c.color.Red? && !IsRed(Uncle(c))
    ensures var r := Rotated(c, t);
            Balanced(r) && NoRedRed(r) && !IsRed(r) && BlackHeight(r) == BlackHeight(t) + 1
  {
    var g := c.up;
    assert ContextBalanced(g, BlackHeight(t)) && ContextNoRedRed(g);
    var r := Rotated(c, t);
    assert Balanced(r.left) && NoRedRed(r.left) && BlackHeight(r.left) == BlackHeight(t);
    assert Balanced(r.right) && NoRedRed(r.right) && BlackHeight(r.right) == BlackHeight(t);
  }

  /** From a tree with one possible red-red edge the fix-up makes a red-black tree. */
  lemma {:induction false} FixUpRedBlack(c: Context, t: Tree)
    requires RedBlackBut(c, t)
    ensures IsRedBlack(FixUp(c, t))
    decreases c
  {
    if c.Top? {
    } else if c.color.Black? {
      RedBlackPlug(c, t);
    } else if IsRed(Uncle(c)) {
      RecolourStep(c, t);
      FixUpRedBlack(c.up.up, Recoloured(c, t));
    } else {
      RotateStep(c, t);
      assert ContextBalanced(c.up, BlackHeight(t)) && ContextNoRedRed(c.up);
      RedBlackPlug(c.up.up, Rotated(c, t));
    }
  }

  /** Neither step reorders the nodes of the grandparent's subtree. */
  lemma StepInOrder(c: Context, t: Tree)
    requires t.Branch? && !c.Top? && !c.up.Top?
    ensures InOrder(Fill(c.up, Fill(c, t))) == InOrder(Rotated(c, t)) == InOrder(Recoloured(c, t))
  {
    RecolouredInOrder(c, t);
    RotatedInOrder(c, t);
  }

  lemma RecolouredInOrder(c: Context, t: Tree)
    requires !c.Top? && !c.up.Top?
    ensures InOrder(Recoloured(c, t)) == InOrder(Fill(c.up, Fill(c, t)))
  {
    assert InOrder(Paint(Uncle(c), Black)) == InOrder(Uncle(c));
  }

  lemma RotatedInOrder(c: Context, t: Tree)
    requires t.Branch? && !c.Top? && !c.up.Top?
    ensures InOrder(Rotated(c, t)) == InOrder(Fill(c.up, Fill(c, t)))
  {
    if c.InLeft? == c.up.InLeft? {
      OuterInOrder(c, t);
    } else {
      InnerInOrder(c, t);
    }
  }

  lemma OuterInOrder(c: Context, t: Tree)
    requires t.Branch? && !c.Top? && !c.up.Top? && c.InLeft? == c.up.InLeft?
    ensures InOrder(Rotated(c, t)) == InOrder(Fill(c.up, Fill(c, t)))
  {
    var g := c.up;
    if g.InLeft? {
      assert InOrder(Rotated(c, t)) == InOrder(t) + [c.node] + (InOrder(c.right) + [g.node] + InOrder(g.right));
    } else {
      assert InOrder(Rotated(c, t)) == (InOrder(g.left) + [g.node] + InOrder(c.left)) + [c.node] + InOrder(t);
    }
  }

  lemma InnerInOrder(c: Context, t: Tree)
    requires t.Branch? && !c.Top? && !c.up.Top? && c.InLeft? != c.up.InLeft?
    ensures InOrder(Rotated(c, t)) == InOrder(Fill(c.up, Fill(c, t)))
  {
    if c.InRight? {
      LiftedRight(c.left, c.node, t, c.up.node, c.up.right);
    } else {
      LiftedLeft(c.up.left, c.up.node, t, c.node, c.right);
    }
  }

  /** Lifting t, between nodes p and g, to the top of both: t below p below g. */
  lemma LiftedRight(a: Tree, p: Node, t: Tree, g: Node, b: Tree)
    requires t.Branch?
    ensures InOrder(Branch(Branch(a, p, Red, t.left), t.node, Black, Branch(t.right, g, Red, b))) ==
            (InOrder(a) + [p] + InOrder(t)) + [g] + InOrder(b)
  {
    Reassociate(InOrder(a) + [p], InOrder(t.left), [t.node], InOrder(t.right), [g], InOrder(b));
  }

  lemma Reassociate(a: seq<Node>, l: seq<Node>, m: seq<Node>, r: seq<Node>, g: seq<Node>, b: seq<Node>)
    ensures (a + l) + m + (r + g + b) == (a + (l + m + r)) + g + b
  {
  }

  /** The mirror image: t below p below g, from the other side. */
  lemma LiftedLeft(a: Tree, g: Node, t: Tree, p: Node, b: Tree)
    requires t.Branch?
    ensures InOrder(Branch(Branch(a, g, Red, t.left), t.node, Black, Branch(t.right, p, Red, b))) ==
            InOrder(a) + [g] + (InOrder(t) + [p] + InOrder(b))
  {
    LiftedRight(a, g, t, p, b);
  }

  /** The fix-up leaves the in-order sequence of nodes alone. */
  lemma {:induction false} FixUpInOrder(c: Context, t: Tree)
    requires t.Branch? && ContextNoRedRed(c)
    ensures InOrder(FixUp(c, t)) == InOrder(Plug(c, t))
    decreases c
  {
    if !c.Top? && c.color.Red? {
      assert ContextNoRedRed(c.up);
      var up := c.up.up;
      StepInOrder(c, t);
      var whole := Recoloured(c, t);
      if IsRed(Uncle(c)) {
        FixUpInOrder(up, whole);
      } else {
        whole := Rotated(c, t);
      }
      InOrderPlug(up, whole);
      InOrderPlug(up, Fill(c.up, Fill(c, t)));
    }
  }

  // ---------------------------------------------------------------- height

  ghost function Size(t: Tree): nat {
    if t.Leaf? then 0 else Size(t.left) + 1 + Size(t.right)
  }

  ghost function Height(t: Tree): nat {
    if t.Leaf? then 0
    else 1 + if Height(t.left) > Height(t.right) then Height(t.left) else Height(t.right)
  }

  lemma {:induction false} BlackHeightBounds(t: Tree)
    requires Balanced(t) && NoRedRed(t)
    ensures Pow2(BlackHeight(t)) <= Size(t) + 1
    ensures Height(t) <= 2 * BlackHeight(t) + (if IsRed(t) then 1 else 0)
  {
    if t.Branch? {
      BlackHeightBounds(t.left);
      BlackHeightBounds(t.right);
    }
  }

  /** Height at most 2 * log2(n + 1), written without logarithms. */
  lemma HeightBound(t: Tree)
    requires IsRedBlack(t)
    ensures Pow2(Height(t)) <= (Size(t) + 1) * (Size(t) + 1)
  {
    BlackHeightBounds(t);
    Pow2Monotone(Height(t), 2 * BlackHeight(t));
    Pow2Add(BlackHeight(t), BlackHeight(t));
    MulMonotone(Pow2(BlackHeight(t)), Size(t) + 1);
  }

  lemma MulMonotone(p: nat, n: nat)
    requires p <= n
    ensures p * p <= n * n
  {
    assert p * p <= p * n;
    assert p * n <= n * n;
  }
}
