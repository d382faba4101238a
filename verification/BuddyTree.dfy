/** One buddy tree of kernel/arch/x86/page.c: 4095 bits packed into 512 bytes,
    the explicit-stack search that allocates, and the merging climb that frees. */
module BuddyTree {
  import opened Wrappers
  import opened Powers
  import opened BitWords
  import opened BuddyShape

  /** The macro B(n), as 32-bit arithmetic, is the other child of the same parent. */
  lemma BuddyMacro(n: bv32)
    requires n != 0
    ensures -((-n) ^ 1) == if n & 1 == 1 then n + 1 else n - 1
  {
  }

  const STACK_SLOTS: nat := 2 * MAX_DEPTH

  datatype Frame = Frame(depth: nat, node: nat)

  /** The frames on the search stack, top outermost. */
  datatype Todo = Empty | More(rest: Todo, top: Frame)

  ghost function Count(todo: Todo): nat {
    if todo.Empty? then 0 else Count(todo.rest) + 1
  }

  /** Total size of the subtrees still to be visited. */
  ghost function Weight(todo: Todo, depth: nat): nat {
    if todo.Empty? then 0 else Weight(todo.rest, depth) + SubtreeSize(todo.top, depth)
  }

  /** Nodes from f down to the wanted depth. */
  ghost function SubtreeSize(f: Frame, depth: nat): nat {
    if f.depth <= depth then Pow2(depth - f.depth + 1) - 1 else 0
  }

  /** What the frames still to do, top first, will find. */
  ghost function Pending(b: Bits, todo: Todo, depth: nat): Option<nat> {
    if todo.Empty? then None
    else
      var r := if todo.top.depth <= depth then Search(b, todo.top.node, depth - todo.top.depth) else None;
      if r.Some? then r else Pending(b, todo.rest, depth)
  }

  /** b with every proper ancestor of n set. */
  ghost function SetAbove(b: Bits, n: nat): Bits {
    seq(NODES, a requires 0 <= a < NODES => b[a] || (a != n && Anc(a, n)))
  }

  /** Depths grow faster than stack positions, so depth slots always suffice. */
  ghost predicate StackOk(todo: Todo, depth: nat) {
    todo.Empty? ||
    (&& Count(todo.rest) < todo.top.depth <= depth
     && DepthOf(todo.top.node) == todo.top.depth
     && StackOk(todo.rest, depth))
  }

  ghost predicate ParentsSet(b: Bits, todo: Todo) {
    todo.Empty? ||
    ((todo.top.node > 0 ==> IsSet(b, P(todo.top.node))) && ParentsSet(b, todo.rest))
  }

  lemma AboveAlreadySet(b: Bits, n: nat)
    requires UpClosed(b) && (n > 0 ==> IsSet(b, P(n)))
    ensures SetAbove(b, n) == b
  {
    forall a: nat | a < NODES && a != n && Anc(a, n) ensures b[a] {
      SetUpward(b, a, P(n));
    }
  }

  lemma SetAboveChild(b: Bits, n: nat)
    requires n < NODES
    ensures SetAbove(b, LC(n)) == SetAbove(b, n)[n := true]
  {
    forall a: nat | a < NODES ensures (a != LC(n) && Anc(a, LC(n))) <==> a == n || (a != n && Anc(a, n)) {
      assert P(LC(n)) == n;
    }
  }

  lemma SetAboveSelf(b: Bits, n: nat)
    requires n < NODES
    ensures SetPath(b, n) == SetAbove(b, n)[n := true]
  {
  }

  /** The state of the search for goal, begun on the bits b0: either nothing is
      marked yet and the stack still leads to goal, or the path down to the clear
      node on top is being marked and goal is the leftmost block below it. */
  ghost predicate Searching(b0: Bits, b: Bits, todo: Todo, descending: bool, depth: nat, goal: Option<nat>) {
    && UpClosed(b0) && 1 <= depth <= MAX_DEPTH && StackOk(todo, depth)
    && if descending then
         && todo.More? && ParentsSet(b0, todo.rest)
         && !IsSet(b0, todo.top.node) && b == SetAbove(b0, todo.top.node)
         && goal == Some(Leftmost(todo.top.node, depth - todo.top.depth))
       else
         ParentsSet(b0, todo) && b == b0 && Pending(b0, todo, depth) == goal
  }

  lemma StartSearch(b0: Bits, depth: nat)
    requires UpClosed(b0) && 1 <= depth <= MAX_DEPTH
    ensures Searching(b0, b0, More(Empty, Frame(1, 0)), false, depth, Search(b0, 0, depth - 1))
  {
    assert Pending(b0, Empty, depth) == None;
  }

  lemma ChildrenInTree(n: nat)
    requires DepthOf(n) < MAX_DEPTH
    ensures LC(n) < NODES && RC(n) < NODES
  {
    assert P(LC(n)) == n == P(RC(n));
    NodesAreInTree(LC(n));
    NodesAreInTree(RC(n));
  }

  /** What is known about the frame on top. */
  lemma TopFacts(b0: Bits, b: Bits, todo: Todo, descending: bool, depth: nat, goal: Option<nat>)
    requires todo.More? && Searching(b0, b, todo, descending, depth, goal)
    ensures var (d, n) := (todo.top.depth, todo.top.node);
            && d <= depth && DepthOf(n) == d && n < NODES && InTree(n) && b == SetAbove(b0, n)
            && Count(todo) <= depth && Count(todo.rest) + 2 <= STACK_SLOTS
            && (d < depth ==> LC(n) < NODES && RC(n) < NODES)
            && IsSet(b, n) == IsSet(b0, n) && (IsSet(b0, n) ==> !descending)
            && (!descending ==> b == b0)
            && (!IsSet(b0, n) ==> goal == Some(Leftmost(n, depth - d)))
  {
    var d, n := todo.top.depth, todo.top.node;
    NodesAreInTree(n);
    if !descending {
      AboveAlreadySet(b0, n);
    }
    if d < depth {
      ChildrenInTree(n);
    }
  }

  /** A set node at the wanted depth, or a live block above it, holds nothing. */
  lemma SkipTop(b0: Bits, b: Bits, todo: Todo, descending: bool, depth: nat, goal: Option<nat>)
    requires todo.More? && Searching(b0, b, todo, descending, depth, goal)
    requires IsSet(b, todo.top.node) && (todo.top.depth == depth || IsLive(b, todo.top.node))
    ensures Searching(b0, b, todo.rest, false, depth, goal)
    ensures Weight(todo.rest, depth) < Weight(todo, depth)
  {
    TopFacts(b0, b, todo, descending, depth, goal);
  }

  /** A clear node above the wanted depth is marked and left for its left child. */
  lemma DescendTop(b0: Bits, b: Bits, todo: Todo, descending: bool, depth: nat, goal: Option<nat>)
    requires todo.More? && Searching(b0, b, todo, descending, depth, goal)
    requires !IsSet(b, todo.top.node) && todo.top.depth < depth && todo.top.node < NODES
    ensures var next := More(todo.rest, Frame(todo.top.depth + 1, LC(todo.top.node)));
            && Searching(b0, b[todo.top.node := true], next, true, depth, goal)
            && Weight(next, depth) < Weight(todo, depth)
  {
    var n := todo.top.node;
    TopFacts(b0, b, todo, descending, depth, goal);
    SetAboveChild(b0, n);
    assert P(LC(n)) == n;
  }

  /** The children of a frame, the preferred one on top. */
  ghost function Expanded(b: Bits, rest: Todo, f: Frame): Todo {
    More(More(rest, Frame(f.depth + 1, Second(b, f.node))), Frame(f.depth + 1, First(b, f.node)))
  }

  lemma ExpandPending(b: Bits, rest: Todo, f: Frame, depth: nat)
    requires IsSet(b, f.node) && !IsLive(b, f.node) && f.depth < depth
    ensures Pending(b, Expanded(b, rest, f), depth) == Pending(b, More(rest, f), depth)
  {
    var d := f.depth + 1;
    var one := More(rest, Frame(d, Second(b, f.node)));
    assert Pending(b, one, depth) ==
           var r := Search(b, Second(b, f.node), depth - d); if r.Some? then r else Pending(b, rest, depth);
    assert Pending(b, Expanded(b, rest, f), depth) ==
           var r := Search(b, First(b, f.node), depth - d); if r.Some? then r else Pending(b, one, depth);
  }

  lemma ExpandWeight(b: Bits, rest: Todo, f: Frame, depth: nat)
    requires f.depth < depth
    ensures Weight(Expanded(b, rest, f), depth) < Weight(More(rest, f), depth)
  {
    var one := More(rest, Frame(f.depth + 1, Second(b, f.node)));
    assert Weight(one, depth) == Weight(rest, depth) + Pow2(depth - f.depth) - 1;
    assert Weight(Expanded(b, rest, f), depth) == Weight(one, depth) + Pow2(depth - f.depth) - 1;
  }

  lemma ExpandStack(b: Bits, rest: Todo, f: Frame, depth: nat)
    requires StackOk(More(rest, f), depth) && ParentsSet(b, More(rest, f)) && IsSet(b, f.node) && f.depth < depth
    ensures StackOk(Expanded(b, rest, f), depth) && ParentsSet(b, Expanded(b, rest, f))
  {
    var n, d := f.node, f.depth + 1;
    var one := More(rest, Frame(d, Second(b, n)));
    assert P(LC(n)) == n == P(RC(n));
    assert StackOk(one, depth) && ParentsSet(b, one);
  }

  /** A split node is replaced by its children. */
  lemma ExpandTop(b0: Bits, b: Bits, todo: Todo, descending: bool, depth: nat, goal: Option<nat>)
    requires todo.More? && Searching(b0, b, todo, descending, depth, goal)
    requires IsSet(b, todo.top.node) && !IsLive(b, todo.top.node) && todo.top.depth < depth
    ensures Searching(b0, b, Expanded(b, todo.rest, todo.top), false, depth, goal)
    ensures Weight(Expanded(b, todo.rest, todo.top), depth) < Weight(todo, depth)
  {
    TopFacts(b0, b, todo, descending, depth, goal);
    ExpandPending(b, todo.rest, todo.top, depth);
    ExpandStack(b, todo.rest, todo.top, depth);
    ExpandWeight(b, todo.rest, todo.top, depth);
  }

  ghost function Listed(frames: seq<Frame>): Todo {
    if frames == [] then Empty
    else More(Listed(frames[..|frames| - 1]), frames[|frames| - 1])
  }

  /** The search stack and its STACK_PUSH and STACK_POP macros. */
  class Stack {
    const slots: array<Frame>
    var shead: nat
    ghost var todo: Todo

    ghost predicate Valid()
      reads this, slots
    {
      slots.Length == STACK_SLOTS && shead <= STACK_SLOTS && Count(todo) == shead && todo == Listed(slots[..shead])
    }

    constructor ()
      ensures Valid() && todo == Empty && fresh(slots)
    {
      slots := new Frame[STACK_SLOTS](_ => Frame(0, 0));
      shead, todo := 0, Empty;
    }

    method Push(node: nat, depth: nat)
      requires Valid() && Count(todo) < STACK_SLOTS
      modifies this, slots
      ensures Valid() && todo == More(old(todo), Frame(depth, node))
    {
      ghost var was := slots[..shead];
      slots[shead] := Frame(depth, node);
      shead := shead + 1;
      assert slots[..shead] == was + [Frame(depth, node)];
      assert slots[..shead][..shead - 1] == was;
      todo := More(todo, Frame(depth, node));
    }

    /** Two frames of one depth; over is popped first. */
    method PushPair(under: nat, over: nat, depth: nat)
      requires Valid() && Count(todo) + 2 <= STACK_SLOTS
      modifies this, slots
      ensures Valid() && todo == More(More(old(todo), Frame(depth, under)), Frame(depth, over))
    {
      Push(under, depth);
      Push(over, depth);
    }

    method Pop() returns (node: nat, depth: nat)
      requires Valid() && todo.More?
      modifies this
      ensures Valid() && old(todo) == More(todo, Frame(depth, node))
    {
      ghost var was := slots[..shead];
      shead := shead - 1;
      node, depth := slots[shead].node, slots[shead].depth;
      assert was[..shead] == slots[..shead];
      todo := todo.rest;
    }
  }

  method GetTreeNodeAddr(node: nat, depth: nat) returns (a: nat)
    requires InTree(node) && DepthOf(node) == depth
    ensures a == Start(node)
    ensures 1 <= depth <= 12 && Pow2(depth - 1) <= node + 1
    ensures a == (4096 * Pow2(12 - depth)) * (node + 1 - Pow2(depth - 1))
  {
    AddrIsStart(node);
    BlockSizeIsShift(depth);
    DepthBounds(node);
    a := NodeAddr(node, depth);
  }

  class Tree {
    const tree: array<bv8>
    ghost var bits: Bits

    ghost predicate Valid()
      reads this, tree
    {
      tree.Length == 512 && Packed8(tree[..], bits)
    }

    constructor ()
      ensures Valid() && bits == Clear() && fresh(tree)
    {
      tree := new bv8[512](_ => 0);
      bits := Clear();
    }

    method GetTreeNode(idx: nat) returns (r: bool)
      requires Valid() && idx < NODES
      ensures r == bits[idx] == ((tree[idx / 8] >> (idx % 8)) & 1 == 1)
    {
      var byte, offset := idx / 8, idx % 8;
      r := (tree[byte] >> offset) & 1 == 1;
      assert r == BitAt8(tree[..], idx);
    }

    method SetTreeNode(idx: nat, val: bool)
      requires Valid() && idx < NODES
      modifies this, tree
      ensures Valid() && bits == old(bits)[idx := val]
    {
      var byte, offset := idx / 8, idx % 8;
      var w := WriteBit8(tree[byte], offset, val);
      PackedUpdate8(tree[..], bits, idx, w, val);
      tree[byte] := w;
      bits := bits[idx := val];
      assert tree[..] == old(tree[..])[byte := w];
    }

    /** The part of the loop body for a set node above the wanted depth: drop a
        live block, or push both children of a split node so that the preferred
        one is popped first. */
    method VisitSet(stack: Stack, node: nat, cur: nat, depth: nat, ghost b0: Bits, ghost was: Todo, ghost goal: Option<nat>)
      requires Valid() && stack.Valid() && was == More(stack.todo, Frame(cur, node))
      requires Searching(b0, bits, was, false, depth, goal) && cur < depth && IsSet(bits, node)
      modifies stack, stack.slots
      ensures stack.Valid() && Searching(b0, bits, stack.todo, false, depth, goal)
      ensures Weight(stack.todo, depth) < Weight(was, depth)
    {
      TopFacts(b0, bits, was, false, depth, goal);
      var lc, rc := LC(node), RC(node);
      var lset := GetTreeNode(lc);
      var rset := GetTreeNode(rc);
      if !lset && !rset {
        SkipTop(b0, bits, was, false, depth, goal);
      } else {
        ExpandTop(b0, bits, was, false, depth, goal);
        if rset {
          stack.PushPair(lc, rc, cur + 1);
        } else {
          stack.PushPair(rc, lc, cur + 1);
        }
      }
    }

    /** The part of the loop body for a clear node above the wanted depth: mark it
        and go on with its left child. */
    method VisitClear(stack: Stack, node: nat, cur: nat, depth: nat, ghost b0: Bits, ghost was: Todo,
                      ghost descending: bool, ghost goal: Option<nat>)
      requires Valid() && stack.Valid() && was == More(stack.todo, Frame(cur, node))
      requires stack.slots as object != tree
      requires Searching(b0, bits, was, descending, depth, goal) && cur < depth && !IsSet(bits, node)
      modifies this, tree, stack, stack.slots
      ensures Valid() && stack.Valid() && Searching(b0, bits, stack.todo, true, depth, goal)
      ensures Weight(stack.todo, depth) < Weight(was, depth)
    {
      TopFacts(b0, bits, was, descending, depth, goal);
      DescendTop(b0, bits, was, descending, depth, goal);
      SetTreeNode(node, true);
      stack.Push(LC(node), cur + 1);
    }

    /** buddy_tree_try_alloc_depth: of the free blocks x of that depth the one before all
        others is reserved; without one nothing changes. */
    method TryAllocDepth(depth: nat) returns (addr: Option<nat>, ghost x: nat)
      requires Valid() && UpClosed(bits) && 1 <= depth <= MAX_DEPTH
      modifies this, tree
      ensures Valid()
      ensures var r := Search(old(bits), 0, depth - 1);
              if r.Some? then InTree(r.value) && addr == Some(Start(r.value)) && bits == SetPath(old(bits), r.value)
              else addr == None && bits == old(bits)
      ensures addr == None ==> forall y: nat :: DepthOf(y) == depth ==> !Free(bits, y)
      ensures addr.Some? ==>
                && InTree(x) && DepthOf(x) == depth && addr.value == Start(x)
                && Free(old(bits), x) && bits == SetPath(old(bits), x)
                && Search(old(bits), 0, depth - 1) == Some(x)
                && forall y: nat :: y != x && DepthOf(y) == depth && Free(old(bits), y) ==> Preferred(old(bits), x, y)
    {
      addr := SearchDepth(depth);
      SearchDecides(old(bits), depth);
      if addr.Some? {
        x := Search(old(bits), 0, depth - 1).value;
        SearchIsFirst(old(bits), depth);
      } else {
        x := 0;
      }
    }

    /** The search loop. */
    method SearchDepth(depth: nat) returns (addr: Option<nat>)
      requires Valid() && UpClosed(bits) && 1 <= depth <= MAX_DEPTH
      modifies this, tree
      ensures Valid()
      ensures var r := Search(old(bits), 0, depth - 1);
              if r.Some? then InTree(r.value) && addr == Some(Start(r.value)) && bits == SetPath(old(bits), r.value)
              else addr == None && bits == old(bits)
    {
      ghost var b0, goal := bits, Search(bits, 0, depth - 1);
      ghost var descending := false;
      StartSearch(bits, depth);
      var stack := new Stack();
      stack.Push(0, 1);
      while stack.shead > 0
        invariant stack.Valid() && Valid()
        invariant Searching(b0, bits, stack.todo, descending, depth, goal)
        decreases Weight(stack.todo, depth)
      {
        ghost var todo := stack.todo;
        TopFacts(b0, bits, todo, descending, depth, goal);
        var node, cur := stack.Pop();
        var isSet := GetTreeNode(node);
        if depth == cur {
          if !isSet {
            SetAboveSelf(b0, node);
            SetTreeNode(node, true);
            var a := GetTreeNodeAddr(node, cur);
            return Some(a);
          }
          SkipTop(b0, bits, todo, descending, depth, goal);
          descending := false;
          continue;
        }
        if !isSet {
          VisitClear(stack, node, cur, depth, b0, todo, descending, goal);
          descending := true;
          continue;
        }
        VisitSet(stack, node, cur, depth, b0, todo, goal);
        descending := false;
      }
      addr := None;
    }

    /** buddy_tree_unset_merge_nodes: clear node, then every ancestor whose other child
        is clear; on a live block that releases exactly this block. */
    method UnsetMergeNodes(node: nat)
      requires Valid() && node < NODES
      modifies this, tree
      ensures Valid() && bits == Merge(old(bits), node)
      ensures old(UpClosed(bits) && IsLive(bits, node)) ==> UpClosed(bits) && Live(bits) == old(Live(bits)) - {node}
    {
      if UpClosed(bits) && IsLive(bits, node) {
        MergeLive(bits, node);
      }
      var n: nat := node;
      SetTreeNode(n, false);
      assert bits[n := false] == bits;
      while n != 0
        invariant Valid() && n < NODES && !bits[n]
        invariant Merge(bits, n) == Merge(old(bits), node)
        decreases n
      {
        var buddy := Buddy(n);
        var inUse := GetTreeNode(buddy);
        assert bits[n := false] == bits;
        assert Merge(bits, n) == if inUse then bits else Merge(bits, P(n));
        if inUse {
          break;
        }
        n := P(n);
        SetTreeNode(n, false);
        assert bits[n := false] == bits;
      }
      if n == 0 {
        SetTreeNode(n, false);
      }
    }

    /** The climb of buddy_tree_free_addr from any node of the tree: the first set node
        on the way up, the root left out, is unset and merged. */
    method FreeFromNode(start: nat) returns (hit: nat)
      requires Valid() && start < NODES
      modifies this, tree
      ensures Valid() && hit == FirstSet(old(bits), start) && hit < NODES
      ensures bits == if hit == 0 then old(bits) else Merge(old(bits), hit)
    {
      hit := start;
      while hit != 0
        invariant Valid() && bits == old(bits) && hit < NODES
        invariant FirstSet(bits, hit) == FirstSet(bits, start)
        decreases hit
      {
        var isSet := GetTreeNode(hit);
        if isSet {
          UnsetMergeNodes(hit);
          return;
        }
        hit := P(hit);
      }
    }

    /** The same climb from a leaf inside the live block x: it releases x exactly when
        x is not the whole region. */
    method FreeFromLeaf(leaf: nat, ghost x: nat)
      requires Valid() && UpClosed(bits) && leaf < NODES
      requires x in Live(bits) && Anc(x, leaf)
      modifies this, tree
      ensures Valid() && UpClosed(bits)
      ensures Live(bits) == if x == 0 then old(Live(bits)) else old(Live(bits)) - {x}
      ensures bits == if x == 0 then old(bits) else Merge(old(bits), x)
    {
      FirstSetAbove(bits, x, leaf);
      MergeLive(bits, x);
      var hit := FreeFromNode(leaf);
    }
  }

  /** The first set node met on the way up from n, 0 when the root is reached. */
  function FirstSet(b: Bits, n: nat): nat {
    if n == 0 then 0 else if IsSet(b, n) then n else FirstSet(b, P(n))
  }

  lemma {:induction false} FirstSetIsAncestor(b: Bits, n: nat)
    ensures Anc(FirstSet(b, n), n) && (FirstSet(b, n) != 0 ==> IsSet(b, FirstSet(b, n)))
  {
    if n > 0 && !IsSet(b, n) {
      FirstSetIsAncestor(b, P(n));
      RangeOf(FirstSet(b, P(n)), P(n));
    }
  }

  lemma {:induction false} RangeOf(a: nat, n: nat)
    ensures Anc(a, n) ==> a <= n
  {
  }

  /** Climbing from below a live block stops at the block itself. */
  lemma {:induction false} FirstSetAbove(b: Bits, x: nat, n: nat)
    requires UpClosed(b) && x in Live(b) && Anc(x, n)
    ensures FirstSet(b, n) == x
  {
    FirstSetIsLive(b, x, n);
    if n != x {
      FirstSetAbove(b, x, P(n));
    }
  }

  /** Below a live block nothing is set, so climbing stops at the block itself. */
  lemma FirstSetIsLive(b: Bits, x: nat, n: nat)
    requires UpClosed(b) && x in Live(b) && Anc(x, n)
    ensures IsSet(b, n) <==> n == x
  {
    if n != x {
      AncSplit(x, n);
      if IsSet(b, n) {
        SetUpward(b, if Anc(LC(x), n) then LC(x) else RC(x), n);
      }
    }
  }
}
