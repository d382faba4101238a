/** The pointer code of libc/rbtree.c and the insertion documented in
    libc/rbtree.h, on the heap.  A ghost tree says what the pointers mean: every
    node's fields are those the ghost tree dictates. */
module RedBlackTree {
  import opened Powers
  import opened RedBlackShape

  ghost function RootOf(t: Tree): Node? {
    if t.Leaf? then null else t.node
  }

  ghost function HoleParent(c: Context): Node? {
    if c.Top? then null else c.node
  }

  ghost function Nodes(t: Tree): set<Node> {
    if t.Leaf? then {} else Nodes(t.left) + {t.node} + Nodes(t.right)
  }

  ghost function ContextNodes(c: Context): set<Node> {
    match c
    case Top => {}
    case InLeft(up, n, _, r) => ContextNodes(up) + {n} + Nodes(r)
    case InRight(up, l, n, _) => ContextNodes(up) + {n} + Nodes(l)
  }

  ghost predicate Distinct(t: Tree) {
    t.Leaf? ||
    (Distinct(t.left) && Distinct(t.right) && t.node !in Nodes(t.left) + Nodes(t.right) &&
     Nodes(t.left) !! Nodes(t.right))
  }

  /** The fields of t's nodes are what t says, and t's root hangs below up. */
  ghost predicate Shaped(t: Tree, up: Node?)
    reads Nodes(t)
  {
    t.Leaf? ||
    (&& t.node.left == RootOf(t.left) && t.node.right == RootOf(t.right)
     && t.node.parent == up && t.node.color == t.color
     && Shaped(t.left, t.node) && Shaped(t.right, t.node))
  }

  /** The fields of c's nodes are what c says when hole fills the hole. */
  ghost predicate ContextShaped(c: Context, hole: Node?)
    reads ContextNodes(c)
  {
    c.Top? ||
    (&& c.node.parent == HoleParent(c.up) && c.node.color == c.color
     && (if c.InLeft? then c.node.left == hole && c.node.right == RootOf(c.right) && Shaped(c.right, c.node)
         else c.node.left == RootOf(c.left) && c.node.right == hole && Shaped(c.left, c.node))
     && ContextShaped(c.up, c.node))
  }

  ghost predicate ContextDistinct(c: Context) {
    match c
    case Top => true
    case InLeft(up, n, _, r) =>
      && ContextDistinct(up) && Distinct(r)
      && n !in Nodes(r) + ContextNodes(up) && Nodes(r) !! ContextNodes(up)
    case InRight(up, l, n, _) =>
      && ContextDistinct(up) && Distinct(l)
      && n !in Nodes(l) + ContextNodes(up) && Nodes(l) !! ContextNodes(up)
  }

  lemma {:induction false} PlugNodes(c: Context, t: Tree)
    ensures Nodes(Plug(c, t)) == ContextNodes(c) + Nodes(t)
    ensures Distinct(Plug(c, t)) <==> ContextDistinct(c) && Distinct(t) && ContextNodes(c) !! Nodes(t)
    ensures RootOf(Plug(c, t)) == if c.Top? then RootOf(t) else RootOf(Plug(c, Leaf))
    decreases c
  {
    if !c.Top? {
      PlugNodes(c.up, Fill(c, t));
      PlugNodes(c.up, Fill(c, Leaf));
    }
  }

  /** Neither fix-up step loses or duplicates a node of the grandparent's subtree. */
  lemma StepNodes(c: Context, t: Tree)
    requires t.Branch? && !c.Top? && !c.up.Top?
    requires Distinct(Fill(c.up, Fill(c, t)))
    ensures Nodes(Rotated(c, t)) == Nodes(Recoloured(c, t)) == Nodes(Fill(c.up, Fill(c, t)))
    ensures Distinct(Rotated(c, t)) && Distinct(Recoloured(c, t))
  {
    assert Distinct(Fill(c, t)) && Distinct(t);
    assert Nodes(Paint(Uncle(c), Black)) == Nodes(Uncle(c)) && Distinct(Paint(Uncle(c), Black));
    assert Nodes(t) == Nodes(t.left) + {t.node} + Nodes(t.right);
    var r := Rotated(c, t);
    assert Distinct(r.left) && Distinct(r.right);
  }

  /** The parent's subtree after its inner child t was lifted over it. */
  ghost function Inner(c: Context, t: Tree): Tree
    requires !c.Top? && t.Branch?
  {
    if c.InRight? then Branch(Branch(c.left, c.node, c.color, t.left), t.node, t.color, t.right)
    else Branch(t.left, t.node, t.color, Branch(t.right, c.node, c.color, c.right))
  }

  lemma InnerNodes(c: Context, t: Tree)
    requires !c.Top? && t.Branch? && Distinct(Fill(c, t))
    ensures Distinct(t) && Distinct(t.left) && Distinct(t.right)
    ensures Distinct(Inner(c, t)) && Nodes(Inner(c, t)) == Nodes(Fill(c, t))
    ensures Nodes(t) == Nodes(t.left) + {t.node} + Nodes(t.right)
  {
    assert Distinct(t);
    assert Distinct(if c.InRight? then Inner(c, t).left else Inner(c, t).right);
  }

  /** Painting two subtrees black and their root red changes no node. */
  lemma PaintedNodes(g: Tree)
    requires g.Branch? && Distinct(g)
    ensures var l, r := Paint(g.left, Black), Paint(g.right, Black);
            && Nodes(l) == Nodes(g.left) && Nodes(r) == Nodes(g.right)
            && Distinct(l) && Distinct(r) && Distinct(Branch(l, g.node, Red, r))
            && Nodes(Branch(l, g.node, Red, r)) == Nodes(g)
  {
    PaintOne(g.left);
    PaintOne(g.right);
  }

  lemma PaintOne(t: Tree)
    requires Distinct(t)
    ensures Nodes(Paint(t, Black)) == Nodes(t) && Distinct(Paint(t, Black))
  {
  }

  lemma {:induction false} NodeCount(t: Tree)
    requires Distinct(t)
    ensures |Nodes(t)| == Size(t)
  {
    if t.Branch? {
      NodeCount(t.left);
      NodeCount(t.right);
      assert |Nodes(t.left) + {t.node}| == |Nodes(t.left)| + 1;
      assert |(Nodes(t.left) + {t.node}) + Nodes(t.right)| == |Nodes(t.left) + {t.node}| + |Nodes(t.right)|;
    }
  }

  /** In a represented tree parent pointers are the exact inverse of child pointers. */
  lemma {:induction false} ParentsInvertChildren(t: Tree, up: Node?)
    requires Distinct(t) && Shaped(t, up) && up !in Nodes(t)
    ensures forall n, m :: n in Nodes(t) && m in Nodes(t) ==> (m.parent == n <==> n.left == m || n.right == m)
    ensures forall n :: n in Nodes(t) ==> (n.left == null || n.left in Nodes(t)) && (n.right == null || n.right in Nodes(t))
    ensures forall n :: n in Nodes(t) && n != RootOf(t) ==> n.parent in Nodes(t)
    ensures t.Branch? ==> t.node.parent == up
  {
    if t.Branch? {
      ParentsInvertChildren(t.left, t.node);
      ParentsInvertChildren(t.right, t.node);
    }
  }

  /** struct rb_node **link: the places a node pointer can be stored. */
  datatype Link = AtRoot | LeftOf(n: Node) | RightOf(n: Node)

  ghost function LinkOf(c: Context): Link {
    match c
    case Top => AtRoot
    case InLeft(_, n, _, _) => LeftOf(n)
    case InRight(_, _, n, _) => RightOf(n)
  }

  ghost predicate SortedByKey(s: seq<Node>) {
    forall i, j :: 0 <= i < j < |s| ==> s[i].key <= s[j].key
  }

  lemma SplitSorted(a: seq<Node>, l: seq<Node>, n: Node, r: seq<Node>, b: seq<Node>)
    requires SortedByKey(a + (l + [n] + r) + b)
    ensures forall x :: x in l ==> x.key <= n.key
    ensures forall x :: x in r ==> n.key <= x.key
  {
    var s := a + (l + [n] + r) + b;
    assert s[|a| + |l|] == n;
    forall x | x in l ensures x.key <= n.key {
      var i :| 0 <= i < |l| && l[i] == x;
      assert s[|a| + i] == x;
    }
    forall x | x in r ensures n.key <= x.key {
      var i :| 0 <= i < |r| && r[i] == x;
      assert s[|a| + |l| + 1 + i] == x;
    }
  }

  lemma InsertSorted(a: seq<Node>, x: Node, b: seq<Node>)
    requires SortedByKey(a + b)
    requires (forall n :: n in a ==> n.key < x.key) && (forall n :: n in b ==> x.key <= n.key)
    ensures SortedByKey(a + [x] + b)
  {
    var s, s' := a + b, a + [x] + b;
    forall i, j | 0 <= i < j < |s'| ensures s'[i].key <= s'[j].key {
      assert i < |a| ==> s'[i] == s[i] == a[i];
      assert j > |a| ==> s'[j] == s[j - 1] == b[j - 1 - |a|];
      assert i > |a| ==> s'[i] == s[i - 1];
      assert j < |a| ==> s'[j] == s[j];
    }
  }

  /** A new red leaf at the right place: sorted, and red-black but for its own edge. */
  lemma LeafPlugged(c: Context, x: Node)
    requires IsRedBlack(Plug(c, Leaf)) && SortedByKey(InOrder(Plug(c, Leaf)))
    requires (forall n :: n in Before(c) ==> n.key < x.key) && (forall n :: n in After(c) ==> x.key <= n.key)
    ensures InOrder(Plug(c, Leaf)) == Before(c) + After(c)
    ensures InOrder(Plug(c, Branch(Leaf, x, Red, Leaf))) == Before(c) + [x] + After(c)
    ensures SortedByKey(Before(c) + [x] + After(c))
    ensures RedBlackBut(c, Branch(Leaf, x, Red, Leaf))
  {
    InOrderPlug(c, Leaf);
    InOrderPlug(c, Branch(Leaf, x, Red, Leaf));
    assert InOrder(Plug(c, Leaf)) == Before(c) + After(c);
    InsertSorted(Before(c), x, After(c));
    RedBlackPlug(c, Leaf);
  }

  class Root {
    var root: Node?
    ghost var shape: Tree
    ghost var nodes: set<Node>

    /** The pointers from root represent t in context c. */
    ghost predicate Holds(c: Context, t: Tree)
      reads this, nodes
    {
      && Nodes(t) + ContextNodes(c) == nodes
      && Distinct(t) && ContextDistinct(c) && Nodes(t) !! ContextNodes(c)
      && Shaped(t, HoleParent(c)) && ContextShaped(c, RootOf(t))
      && (c.Top? ==> root == RootOf(t)) && (!c.Top? ==> root == RootOf(Plug(c, Leaf)))
    }

    /** The end of an outer rotation: above, which held was, now holds now. */
    method Relink(above: Node?, was: Node, now: Node, ghost c: Context, ghost t: Tree)
      requires ContextNodes(c) <= nodes && ContextDistinct(c) && ContextShaped(c, was)
      requires was !in ContextNodes(c) && above == HoleParent(c)
      requires Nodes(t) <= nodes && Nodes(t) !! ContextNodes(c) && Shaped(t, above) && RootOf(t) == now
      requires !c.Top? ==> root == RootOf(Plug(c, Leaf))
      modifies `root, ContextNodes(c)
      ensures ContextShaped(c, now) && Shaped(t, above)
      ensures root == if c.Top? then now else RootOf(Plug(c, Leaf))
    {
      PlugNodes(c, Leaf);
      if above != null {
        if above.left == was {
          above.left := now;
        } else if above.right == was {
          above.right := now;
        }
        assert ContextShaped(c.up, above);
        assert Shaped(if c.InLeft? then c.right else c.left, above);
      } else {
        root := now;
      }
    }

    /** libc/rbtree.c lines 90-104: parent, a left child, is lifted over gparent. */
    static method LiftLeft(parent: Node, gparent: Node) returns (above: Node?)
      requires parent != gparent && parent.right != gparent && parent.right != parent
      modifies parent, gparent, if parent.right == null then {} else {parent.right}
      ensures parent.left == old(parent.left) && parent.right == gparent
      ensures parent.parent == old(gparent.parent) == above && parent.color == Black
      ensures gparent.left == old(parent.right) && gparent.right == old(gparent.right)
      ensures gparent.parent == parent && gparent.color == Red
      ensures var x := old(parent.right);
              x != null ==> x.parent == gparent && x.left == old(x.left) && x.right == old(x.right) && x.color == old(x.color)
    {
      var tmp := parent.right;
      parent.right := gparent;
      gparent.left := tmp;
      if tmp != null {
        tmp.parent := gparent;
      }
      parent.color := Black;
      gparent.color := Red;
      above := gparent.parent;
      gparent.parent := parent;
      parent.parent := above;
    }

    method TurnOuterLeft(parent: Node, gparent: Node, ghost c: Context, ghost t: Tree) returns (above: Node?)
      requires c.InLeft? && c.color.Red? && c.up.InLeft? && t.Branch?
      requires parent == c.node && gparent == c.up.node
      requires var g := Fill(c.up, Fill(c, t)); Distinct(g) && Nodes(g) <= nodes && Shaped(g, HoleParent(c.up.up))
      modifies Nodes(Fill(c.up, Fill(c, t)))
      ensures above == HoleParent(c.up.up) && Shaped(Rotated(c, t), above)
    {
      ghost var x, u := c.right, c.up.right;
      assert Distinct(Fill(c, t)) && Distinct(x) && Shaped(Fill(c, t), gparent) && Shaped(x, parent);
      above := LiftLeft(parent, gparent);
      assert Shaped(t, parent) && Shaped(u, gparent);
      assert x.Branch? ==> Shaped(x.left, x.node) && Shaped(x.right, x.node);
      assert Shaped(Rotated(c, t).right, parent);
    }

    method RotateOuterLeft(parent: Node, gparent: Node, ghost c: Context, ghost t: Tree)
      requires c.InLeft? && c.color.Red? && c.up.InLeft? && t.Branch?
      requires parent == c.node && gparent == c.up.node
      requires Holds(c.up, Fill(c, t))
      modifies `root, `shape, nodes
      ensures shape == Plug(c.up.up, Rotated(c, t)) && Holds(Top, shape)
    {
      Ascend(c.up, Fill(c, t));
      StepNodes(c, t);
      var above := TurnOuterLeft(parent, gparent, c, t);
      Relink(above, gparent, parent, c.up.up, Rotated(c, t));
      Settle(c.up.up, Rotated(c, t));
    }

    /** libc/rbtree.c lines 63-77 but for gparent's pointer: node, a right child,
        is lifted over parent. */
    static method LiftInnerLeft(node: Node, parent: Node, gparent: Node)
      requires node != parent && node.left != node && node.left != parent
      modifies node, parent, if node.left == null then {} else {node.left}
      ensures node.left == parent && node.right == old(node.right)
      ensures node.parent == gparent && node.color == old(node.color)
      ensures parent.left == old(parent.left) && parent.right == old(node.left)
      ensures parent.parent == node && parent.color == old(parent.color)
      ensures var x := old(node.left);
              x != null ==> x.parent == parent && x.left == old(x.left) && x.right == old(x.right) && x.color == old(x.color)
    {
      var tmp := node.left;
      node.left := parent;
      parent.right := tmp;
      if tmp != null {
        tmp.parent := parent;
      }
      parent.parent := node;
      node.parent := gparent;
    }

    method TurnInnerLeft(node: Node, parent: Node, gparent: Node, ghost c: Context, ghost t: Tree)
      requires c.InRight? && t.Branch? && node == t.node && parent == c.node
      requires Distinct(Fill(c, t)) && Nodes(Fill(c, t)) <= nodes && Shaped(Fill(c, t), gparent)
      modifies Nodes(Fill(c, t))
      ensures Shaped(Inner(c, t), gparent)
    {
      ghost var x := t.left;
      InnerNodes(c, t);
      assert Shaped(t, parent) && Shaped(x, node);
      LiftInnerLeft(node, parent, gparent);
      assert Shaped(c.left, parent) && Shaped(t.right, node);
      assert x.Branch? ==> Shaped(x.left, x.node) && Shaped(x.right, x.node);
    }

    method RotateInnerLeft(node: Node, parent: Node, gparent: Node, ghost c: Context, ghost t: Tree)
      requires c.InRight? && c.up.InLeft? && t.Branch?
      requires node == t.node && parent == c.node && gparent == c.up.node
      requires Holds(c.up, Fill(c, t))
      modifies nodes
      ensures Holds(c.up, Inner(c, t))
    {
      InnerNodes(c, t);
      TurnInnerLeft(node, parent, gparent, c, t);
      gparent.left := node;
      assert Shaped(Inner(c, t), gparent);
      assert Shaped(c.up.right, gparent) && ContextShaped(c.up.up, gparent);
    }

    // ---- the mirror images, as the source spells them out

    /** libc/rbtree.c lines 179-193: parent, a right child, is lifted over gparent. */
    static method LiftRight(parent: Node, gparent: Node) returns (above: Node?)
      requires parent != gparent && parent.left != gparent && parent.left != parent
      modifies parent, gparent, if parent.left == null then {} else {parent.left}
      ensures parent.right == old(parent.right) && parent.left == gparent
      ensures parent.parent == old(gparent.parent) == above && parent.color == Black
      ensures gparent.right == old(parent.left) && gparent.left == old(gparent.left)
      ensures gparent.parent == parent && gparent.color == Red
      ensures var x := old(parent.left);
              x != null ==> x.parent == gparent && x.right == old(x.right) && x.left == old(x.left) && x.color == old(x.color)
    {
      var tmp := parent.left;
      parent.left := gparent;
      gparent.right := tmp;
      if tmp != null {
        tmp.parent := gparent;
      }
      parent.color := Black;
      gparent.color := Red;
      above := gparent.parent;
      gparent.parent := parent;
      parent.parent := above;
    }

    method TurnOuterRight(parent: Node, gparent: Node, ghost c: Context, ghost t: Tree) returns (above: Node?)
      requires c.InRight? && c.color.Red? && c.up.InRight? && t.Branch?
      requires parent == c.node && gparent == c.up.node
      requires var g := Fill(c.up, Fill(c, t)); Distinct(g) && Nodes(g) <= nodes && Shaped(g, HoleParent(c.up.up))
      modifies Nodes(Fill(c.up, Fill(c, t)))
      ensures above == HoleParent(c.up.up) && Shaped(Rotated(c, t), above)
    {
      ghost var x, u := c.left, c.up.left;
      assert Distinct(Fill(c, t)) && Distinct(x) && Shaped(Fill(c, t), gparent) && Shaped(x, parent);
      above := LiftRight(parent, gparent);
      assert Shaped(t, parent) && Shaped(u, gparent);
      assert x.Branch? ==> Shaped(x.right, x.node) && Shaped(x.left, x.node);
      assert Shaped(Rotated(c, t).left, parent);
    }

    method RotateOuterRight(parent: Node, gparent: Node, ghost c: Context, ghost t: Tree)
      requires c.InRight? && c.color.Red? && c.up.InRight? && t.Branch?
      requires parent == c.node && gparent == c.up.node
      requires Holds(c.up, Fill(c, t))
      modifies `root, `shape, nodes
      ensures shape == Plug(c.up.up, Rotated(c, t)) && Holds(Top, shape)
    {
      Ascend(c.up, Fill(c, t));
      StepNodes(c, t);
      var above := TurnOuterRight(parent, gparent, c, t);
      Relink(above, gparent, parent, c.up.up, Rotated(c, t));
      Settle(c.up.up, Rotated(c, t));
    }

    /** libc/rbtree.c lines 152-166 but for gparent's pointer: node, a left child,
        is lifted over parent. */
    static method LiftInnerRight(node: Node, parent: Node, gparent: Node)
      requires node != parent && node.right != node && node.right != parent
      modifies node, parent, if node.right == null then {} else {node.right}
      ensures node.right == parent && node.left == old(node.left)
      ensures node.parent == gparent && node.color == old(node.color)
      ensures parent.right == old(parent.right) && parent.left == old(node.right)
      ensures parent.parent == node && parent.color == old(parent.color)
      ensures var x := old(node.right);
              x != null ==> x.parent == parent && x.right == old(x.right) && x.left == old(x.left) && x.color == old(x.color)
    {
      var tmp := node.right;
      node.right := parent;
      parent.left := tmp;
      if tmp != null {
        tmp.parent := parent;
      }
      parent.parent := node;
      node.parent := gparent;
    }

    method TurnInnerRight(node: Node, parent: Node, gparent: Node, ghost c: Context, ghost t: Tree)
      requires c.InLeft? && t.Branch? && node == t.node && parent == c.node
      requires Distinct(Fill(c, t)) && Nodes(Fill(c, t)) <= nodes && Shaped(Fill(c, t), gparent)
      modifies Nodes(Fill(c, t))
      ensures Shaped(Inner(c, t), gparent)
    {
      ghost var x := t.right;
      InnerNodes(c, t);
      assert Shaped(t, parent) && Shaped(x, node);
      LiftInnerRight(node, parent, gparent);
      assert Shaped(c.right, parent) && Shaped(t.left, node);
      assert x.Branch? ==> Shaped(x.right, x.node) && Shaped(x.left, x.node);
    }

    method RotateInnerRight(node: Node, parent: Node, gparent: Node, ghost c: Context, ghost t: Tree)
      requires c.InLeft? && c.up.InRight? && t.Branch?
      requires node == t.node && parent == c.node && gparent == c.up.node
      requires Holds(c.up, Fill(c, t))
      modifies nodes
      ensures Holds(c.up, Inner(c, t))
    {
      InnerNodes(c, t);
      TurnInnerRight(node, parent, gparent, c, t);
      gparent.right := node;
      assert Shaped(Inner(c, t), gparent);
      assert Shaped(c.up.left, gparent) && ContextShaped(c.up.up, gparent);
    }

    /** Moving the focus one level up does not change what is represented. */
    lemma Ascend(c: Context, t: Tree)
      requires !c.Top? && Holds(c, t)
      ensures Holds(c.up, Fill(c, t))
    {
      PlugNodes(c, Leaf);
      PlugNodes(c.up, Fill(c, Leaf));
    }

    /** What the fields of the hole's parent say about the hole and its sibling. */
    lemma Neighbours(c: Context, t: Tree)
      requires !c.Top? && Holds(c, t) && t.Branch?
      ensures c.node.color == c.color && c.node.parent == HoleParent(c.up) && t.node.color == t.color
      ensures c.InLeft? ==> c.node.left == t.node && c.node.right == RootOf(c.right) != t.node
      ensures c.InRight? ==> c.node.right == t.node && c.node.left == RootOf(c.left) != t.node
      ensures c.InLeft? && c.right.Branch? ==> c.right.node.color == c.right.color
      ensures c.InRight? && c.left.Branch? ==> c.left.node.color == c.left.color
    {
    }

    lemma {:induction false} AscendAll(c: Context, t: Tree)
      requires Holds(c, t)
      ensures Holds(Top, Plug(c, t))
      decreases c
    {
      if !c.Top? {
        Ascend(c, t);
        AscendAll(c.up, Fill(c, t));
      }
    }

    /** Case 3 of both halves: parent and uncle, the children of gparent, become
        black and gparent red. */
    method Recolour(parent: Node, gparent: Node, uncle: Node, ghost up: Context, ghost g: Tree)
      requires g.Branch? && g.left.Branch? && g.right.Branch? && gparent == g.node
      requires if parent == g.left.node then uncle == g.right.node else parent == g.right.node && uncle == g.left.node
      requires Holds(up, g)
      modifies nodes
      ensures Holds(up, Branch(Paint(g.left, Black), gparent, Red, Paint(g.right, Black)))
    {
      assert Shaped(g.left, gparent) && Shaped(g.right, gparent);
      ghost var l, r := Paint(g.left, Black), Paint(g.right, Black);
      PaintedNodes(g);
      ghost var (p, u) := if parent == g.left.node then (g.left, g.right) else (g.right, g.left);
      SetColor(uncle, Black, u, gparent);
      assert Shaped(p, gparent);
      SetColor(parent, Black, p, gparent);
      assert Shaped(Paint(u, Black), gparent) && ContextShaped(up, gparent);
      gparent.color := Red;
      assert Shaped(l, gparent) && Shaped(r, gparent);
    }

    /** The uncle as the loop finds it, and why gparent exists. */
    lemma UncleStored(c: Context, t: Tree)
      requires Holds(c, t) && t.Branch? && ContextNoRedRed(c) && !c.Top? && c.color.Red?
      ensures !c.up.Top? && ContextNoRedRed(c.up.up) && c.node.parent == c.up.node
      ensures c.up.InLeft? <==> c.node != c.up.node.right
      ensures (if c.up.InLeft? then c.up.node.right else c.up.node.left) == RootOf(Uncle(c))
      ensures Uncle(c).Branch? ==> Uncle(c).node.color == Uncle(c).color
    {
      Neighbours(c, t);
      Ascend(c, t);
      Neighbours(c.up, Fill(c, t));
      assert ContextNoRedRed(c.up);
    }

    method RecolourUp(parent: Node, gparent: Node, uncle: Node, ghost c: Context, ghost t: Tree)
      requires Holds(c, t) && t.Branch? && !c.Top? && !c.up.Top? && Uncle(c).Branch?
      requires parent == c.node && gparent == c.up.node && uncle == Uncle(c).node
      modifies nodes
      ensures Holds(c.up.up, Recoloured(c, t))
    {
      Ascend(c, t);
      Ascend(c.up, Fill(c, t));
      Recolour(parent, gparent, uncle, c.up.up, Fill(c.up, Fill(c, t)));
    }

    static method SetColor(node: Node, color: Color, ghost t: Tree, ghost up: Node?)
      requires t.Branch? && t.node == node && Distinct(t) && Shaped(t, up)
      modifies node`color
      ensures Shaped(Paint(t, color), up)
      ensures node.color == color
    {
      node.color := color;
    }

    /** Cases 4 and 5 when parent is a left child. */
    method RotateLeft(node: Node, parent: Node, gparent: Node, ghost c: Context, ghost t: Tree)
      requires Holds(c, t) && IsRed(t) && !c.Top? && c.color.Red? && c.up.InLeft?
      requires node == t.node && parent == c.node && gparent == c.up.node
      modifies `root, `shape, nodes
      ensures shape == Plug(c.up.up, Rotated(c, t)) && Holds(Top, shape)
    {
      Neighbours(c, t);
      Ascend(c, t);
      ghost var fc, ft := c, t;
      var parent := parent;
      var tmp := parent.right;
      if node == tmp {
        RotateInnerLeft(node, parent, gparent, c, t);
        fc, ft := InLeft(c.up, node, Red, t.right), Branch(c.left, parent, Red, t.left);
        parent := node;
      }
      RotateOuterLeft(parent, gparent, fc, ft);
    }

    /** Cases 4 and 5 when parent is a right child. */
    method RotateRight(node: Node, parent: Node, gparent: Node, ghost c: Context, ghost t: Tree)
      requires Holds(c, t) && IsRed(t) && !c.Top? && c.color.Red? && c.up.InRight?
      requires node == t.node && parent == c.node && gparent == c.up.node
      modifies `root, `shape, nodes
      ensures shape == Plug(c.up.up, Rotated(c, t)) && Holds(Top, shape)
    {
      Neighbours(c, t);
      Ascend(c, t);
      ghost var fc, ft := c, t;
      var parent := parent;
      var tmp := parent.left;
      if node == tmp {
        RotateInnerRight(node, parent, gparent, c, t);
        fc, ft := InRight(c.up, t.left, node, Red), Branch(t.right, parent, Red, c.right);
        parent := node;
      }
      RotateOuterRight(parent, gparent, fc, ft);
    }

    /** Case 1. */
    method BlackenRoot(node: Node, ghost t: Tree)
      requires Holds(Top, t) && t.Branch? && node == t.node
      modifies `root, `shape, nodes
      ensures shape == Paint(t, Black) && Holds(Top, shape)
    {
      SetColor(node, Black, t, null);
      shape := Paint(t, Black);
    }

    /** Case 2: the tree is what the pointers already say. */
    ghost method Settle(c: Context, t: Tree)
      requires Holds(c, t)
      modifies `shape
      ensures Holds(Top, shape) && shape == Plug(c, t)
    {
      AscendAll(c, t);
      shape := Plug(c, t);
    }

    /** The loop of rbtree_insert computes the fix-up, in at most half as many
        recolouring passes as node is deep. */
    method FixUpLoop(node: Node, ghost c: Context, ghost t: Tree) returns (ghost passes: nat)
      requires Holds(c, t) && node == RootOf(t) && IsRed(t) && ContextNoRedRed(c)
      modifies `root, `shape, nodes
      ensures Holds(Top, shape) && shape == FixUp(c, t) && 2 * passes <= Depth(c)
    {
      passes := 0;
      ghost var fc, ft := c, t;
      var node := node;
      var parent := node.parent;
      while true
        invariant node in nodes && Holds(fc, ft) && IsRed(ft) && ContextNoRedRed(fc)
        invariant node == RootOf(ft) && parent == HoleParent(fc)
        invariant FixUp(fc, ft) == FixUp(c, t) && Depth(fc) + 2 * passes == Depth(c)
        decreases Depth(fc)
      {
        if !fc.Top? {
          Neighbours(fc, ft);
        }
        if parent == null {
          BlackenRoot(node, ft);
          break;
        } else if parent.color == Black {
          Settle(fc, ft);
          break;
        }
        UncleStored(fc, ft);
        var gparent := parent.parent;
        var tmp := gparent.right;
        if parent != tmp {
          if tmp == null || tmp.color == Black {
            RotateLeft(node, parent, gparent, fc, ft);
            break;
          }
        } else {
          tmp := gparent.left;
          if tmp == null || tmp.color == Black {
            RotateRight(node, parent, gparent, fc, ft);
            break;
          }
        }
        RecolourUp(parent, gparent, tmp, fc, ft);
        fc, ft := fc.up.up, Recoloured(fc, ft);
        passes := passes + 1;
        node := gparent;
        parent := node.parent;
      }
    }

    /** rbtree_insert: node, red, is the root of t below c, and the edge above it
        is the only one that may be red-red. */
    method RbtreeInsert(node: Node, ghost c: Context, ghost t: Tree)
      requires Holds(c, t) && node == RootOf(t) && RedBlackBut(c, t)
      modifies `root, `shape, nodes
      ensures Holds(Top, shape) && IsRedBlack(shape) && InOrder(shape) == InOrder(Plug(c, t))
    {
      FixUpRedBlack(c, t);
      FixUpInOrder(c, t);
      ghost var passes := FixUpLoop(node, c, t);
    }

    /** Everything the tree promises between operations: the pointers represent
        shape, shape is red-black, and keys do not decrease in order. */
    ghost predicate Valid()
      reads this, nodes
    {
      Holds(Top, shape) && IsRedBlack(shape) && SortedByKey(InOrder(shape))
    }

    /** A tree of n nodes is at most 2 * log2(n + 1) high. */
    lemma HeightIsLogarithmic()
      requires Valid()
      ensures Pow2(Height(shape)) <= (|nodes| + 1) * (|nodes| + 1)
    {
      HeightBound(shape);
      NodeCount(shape);
    }

    constructor ()
      ensures Valid() && shape == Leaf && nodes == {}
    {
      root, shape, nodes := null, Leaf, {};
    }

    function Load(link: Link): Node?
      reads this, match link { case AtRoot => {} case LeftOf(n) => {n} case RightOf(n) => {n} }
    {
      match link
      case AtRoot => root
      case LeftOf(n) => n.left
      case RightOf(n) => n.right
    }

    /** *link = node */
    method Store(link: Link, node: Node, ghost c: Context)
      requires ContextNodes(c) == nodes && ContextDistinct(c) && ContextShaped(c, null)
      requires link == LinkOf(c) && (!c.Top? ==> root == RootOf(Plug(c, Leaf)))
      modifies `root, nodes
      ensures ContextShaped(c, node)
      ensures root == if c.Top? then node else RootOf(Plug(c, Leaf))
    {
      match link {
        case AtRoot => root := node;
        case LeftOf(n) => n.left := node;
        case RightOf(n) => n.right := node;
      }
      if !c.Top? {
        assert ContextShaped(c.up, c.node);
        assert Shaped(if c.InLeft? then c.right else c.left, c.node);
      }
    }

    /** rb_link_node: node becomes a red leaf where link pointed. */
    method RbLinkNode(node: Node, parent: Node?, link: Link, ghost c: Context)
      requires Holds(c, Leaf) && node !in nodes
      requires parent == HoleParent(c) && link == LinkOf(c)
      modifies `root, `nodes, nodes, node
      ensures nodes == old(nodes) + {node}
      ensures Holds(c, Branch(Leaf, node, Red, Leaf))
    {
      PlugNodes(c, Branch(Leaf, node, Red, Leaf));
      Store(link, node, c);
      MakeLeaf(node, parent);
      nodes := nodes + {node};
    }

    /** A zeroed node with its parent set: red and without children. */
    static method MakeLeaf(node: Node, parent: Node?)
      modifies node
      ensures Shaped(Branch(Leaf, node, Red, Leaf), parent)
    {
      node.left, node.right := null, null;
      node.parent, node.color := parent, Red;
    }

    lemma Descend(c: Context, t: Tree)
      requires Holds(c, t) && t.Branch?
      ensures Holds(InLeft(c, t.node, t.color, t.right), t.left)
      ensures Holds(InRight(c, t.left, t.node, t.color), t.right)
    {
      var l, r := InLeft(c, t.node, t.color, t.right), InRight(c, t.left, t.node, t.color);
      PlugNodes(c, Fill(l, Leaf));
      PlugNodes(c, Fill(r, Leaf));
    }

    /** The search loop: the one link where key keeps the order, before every equal key. */
    method FindLink(key: int) returns (parent: Node?, link: Link, ghost c: Context)
      requires Valid()
      ensures Holds(c, Leaf) && Plug(c, Leaf) == shape
      ensures link == LinkOf(c) && parent == HoleParent(c) && Load(link) == null
      ensures match link
              case AtRoot => shape == Leaf
              case LeftOf(n) => n == parent && key <= n.key
              case RightOf(n) => n == parent && n.key < key
      ensures forall n :: n in Before(c) ==> n.key < key
      ensures forall n :: n in After(c) ==> key <= n.key
    {
      link, parent, c := AtRoot, null, Top;
      ghost var t := shape;
      while Load(link) != null
        invariant Holds(c, t) && Plug(c, t) == shape
        invariant link == LinkOf(c) && parent == HoleParent(c) && Load(link) == RootOf(t)
        invariant forall n :: n in Before(c) ==> n.key < key
        invariant forall n :: n in After(c) ==> key <= n.key
        decreases t
      {
        parent := Load(link);
        InOrderPlug(c, t);
        SplitSorted(Before(c), InOrder(t.left), t.node, InOrder(t.right), After(c));
        Descend(c, t);
        if key > parent.key {
          link := RightOf(parent);
          c, t := InRight(c, t.left, t.node, t.color), t.right;
        } else {
          link := LeftOf(parent);
          c, t := InLeft(c, t.node, t.color, t.right), t.left;
        }
      }
    }

    /** The insertion documented in libc/rbtree.h: new goes before the first node
        whose key is not smaller, and the tree is red-black again. */
    method Insert(node: Node) returns (ghost k: nat)
      requires Valid() && node !in nodes
      modifies this, nodes, node
      ensures Valid() && nodes == old(nodes) + {node}
      ensures k <= |old(InOrder(shape))|
      ensures InOrder(shape) == old(InOrder(shape)[..k]) + [node] + old(InOrder(shape)[k..])
      ensures forall i :: 0 <= i < k ==> old(InOrder(shape))[i].key < node.key
      ensures forall i :: k <= i < |old(InOrder(shape))| ==> node.key <= old(InOrder(shape))[i].key
    {
      var parent, link, c := FindLink(node.key);
      k := |Before(c)|;
      ghost var leaf := Branch(Leaf, node, Red, Leaf);
      LeafPlugged(c, node);
      RbLinkNode(node, parent, link, c);
      RbtreeInsert(node, c, leaf);
    }
  }
}
