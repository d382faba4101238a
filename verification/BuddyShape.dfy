/** The bits of one buddy tree (kernel/arch/x86/page.c) as a value: which nodes
    are live blocks, how the search chooses a node, how a free merges.
    Nodes are numbered as in a binary heap, root 0.  A bit is set exactly on the
    ancestors-or-self of live blocks, so a set node with no set child is a live
    block, any other set node is split, and a clear node is free. */
module BuddyShape {
  import opened Wrappers
  import opened Powers

  const MAX_DEPTH: nat := 12
  const NODES: nat := 4095

  type Bits = b: seq<bool> | |b| == NODES witness seq(NODES, i => false)

  // ---------------------------------------------------------------- the numbering

  function LC(n: nat): nat { 2 * n + 1 }
  function RC(n: nat): nat { 2 * n + 2 }

  function P(n: nat): nat
    requires n > 0
  {
    (n - 1) / 2
  }

  /** The other child of n's parent. */
  function Buddy(n: nat): nat
    requires n > 0
  {
    if n % 2 == 1 then n + 1 else n - 1
  }

  function DepthOf(n: nat): nat {
    if n == 0 then 1 else 1 + DepthOf(P(n))
  }

  /** a is x or an ancestor of x. */
  predicate Anc(a: nat, x: nat) {
    a == x || (a < x && Anc(a, P(x)))
  }

  lemma {:induction false} AncTransitive(a: nat, m: nat, x: nat)
    requires Anc(a, m) && Anc(m, x)
    ensures Anc(a, x)
  {
    if m != x {
      AncTransitive(a, m, P(x));
    }
  }

  /** A proper descendant lies under exactly one child. */
  lemma {:induction false} AncSplit(n: nat, x: nat)
    ensures Anc(n, x) && n != x <==> Anc(LC(n), x) || Anc(RC(n), x)
    ensures !(Anc(LC(n), x) && Anc(RC(n), x))
    decreases x
  {
    if x > 0 {
      AncSplit(n, P(x));
    }
  }

  /** Two ancestors of one node are related. */
  lemma {:induction false} AncLinear(a: nat, b: nat, x: nat)
    requires Anc(a, x) && Anc(b, x)
    ensures Anc(a, b) || Anc(b, a)
    decreases x
  {
    if a != x && b != x {
      AncLinear(a, b, P(x));
    }
  }

  lemma {:induction false} DepthBounds(n: nat)
    ensures Pow2(DepthOf(n) - 1) <= n + 1 < Pow2(DepthOf(n))
  {
    if n > 0 {
      DepthBounds(P(n));
    }
  }

  // ---------------------------------------------------------------- what the bits mean

  predicate IsSet(b: Bits, n: nat) {
    n < NODES && b[n]
  }

  /** Every set node hangs below set nodes. */
  ghost predicate UpClosed(b: Bits) {
    forall n {:trigger P(n)} :: 0 < n < NODES && b[n] ==> b[P(n)]
  }

  predicate IsLive(b: Bits, n: nat) {
    IsSet(b, n) && !IsSet(b, LC(n)) && !IsSet(b, RC(n))
  }

  ghost function Live(b: Bits): set<nat> {
    set n: nat | n < NODES && IsLive(b, n)
  }

  /** Block n shares no memory with any live block. */
  ghost predicate Free(b: Bits, n: nat) {
    forall x :: x in Live(b) ==> !Anc(x, n) && !Anc(n, x)
  }

  lemma {:induction false} SetUpward(b: Bits, n: nat, x: nat)
    requires UpClosed(b) && Anc(n, x) && IsSet(b, x)
    ensures IsSet(b, n)
    decreases x
  {
    if n != x {
      SetUpward(b, n, P(x));
    }
  }

  lemma {:induction false} LiveBelow(b: Bits, n: nat) returns (x: nat)
    requires IsSet(b, n)
    ensures x in Live(b) && Anc(n, x)
    decreases NODES - n
  {
    if IsSet(b, LC(n)) {
      x := LiveBelow(b, LC(n));
      AncTransitive(n, LC(n), x);
    } else if IsSet(b, RC(n)) {
      x := LiveBelow(b, RC(n));
      AncTransitive(n, RC(n), x);
    } else {
      x := n;
    }
  }

  /** The bit of n says whether some live block is n or below n. */
  lemma BitMeaning(b: Bits, n: nat)
    requires UpClosed(b)
    ensures IsSet(b, n) <==> exists x :: x in Live(b) && Anc(n, x)
  {
    if IsSet(b, n) {
      var x := LiveBelow(b, n);
    }
    forall x | x in Live(b) && Anc(n, x) ensures IsSet(b, n) {
      SetUpward(b, n, x);
    }
  }

  /** The bits are a function of the set of live blocks. */
  lemma Canonical(b: Bits, b': Bits)
    requires UpClosed(b) && UpClosed(b') && Live(b) == Live(b')
    ensures b == b'
  {
    forall n: nat | n < NODES ensures b[n] == b'[n] {
      BitMeaning(b, n);
      BitMeaning(b', n);
    }
  }

  /** No live block contains another. */
  lemma LiveAntichain(b: Bits, x: nat, y: nat)
    requires UpClosed(b) && x in Live(b) && y in Live(b) && x != y
    ensures !Anc(x, y)
  {
    if Anc(x, y) {
      AncSplit(x, y);
      SetUpward(b, if Anc(LC(x), y) then LC(x) else RC(x), y);
    }
  }

  // ---------------------------------------------------------------- allocation

  function Leftmost(n: nat, k: nat): nat
    decreases k
  {
    if k == 0 then n else Leftmost(LC(n), k - 1)
  }

  /** The node k levels below n that the depth-first search settles on. */
  function Search(b: Bits, n: nat, k: nat): Option<nat>
    decreases k
  {
    if k == 0 then
      if IsSet(b, n) then None else Some(n)
    else if !IsSet(b, n) then
      Some(Leftmost(n, k))
    else if IsLive(b, n) then
      None
    else
      var first := Search(b, First(b, n), k - 1);
      if first.Some? then first else Search(b, Second(b, n), k - 1)
  }

  /** The child searched first: the right one if it is in use, else the left one. */
  function First(b: Bits, n: nat): nat {
    if IsSet(b, RC(n)) then RC(n) else LC(n)
  }

  function Second(b: Bits, n: nat): nat {
    if IsSet(b, RC(n)) then LC(n) else RC(n)
  }

  /** b with the whole path from the root to x set. */
  ghost function SetPath(b: Bits, x: nat): Bits {
    seq(NODES, n requires 0 <= n < NODES => b[n] || Anc(n, x))
  }

  /** No proper ancestor of n is a live block. */
  ghost predicate Exposed(b: Bits, n: nat) {
    forall a :: a in Live(b) && Anc(a, n) ==> a == n
  }

  lemma {:induction false} LeftmostBelow(n: nat, k: nat)
    ensures Anc(n, Leftmost(n, k)) && DepthOf(Leftmost(n, k)) == DepthOf(n) + k
    decreases k
  {
    if k > 0 {
      LeftmostBelow(LC(n), k - 1);
      AncTransitive(n, LC(n), Leftmost(n, k));
    }
  }

  /** Nothing below an exposed clear node is in use. */
  lemma FreeBelowClear(b: Bits, n: nat, x: nat)
    requires UpClosed(b) && !IsSet(b, n) && Exposed(b, n) && Anc(n, x)
    ensures Free(b, x)
  {
    forall l | l in Live(b) ensures !Anc(l, x) && !Anc(x, l) {
      if Anc(x, l) {
        AncTransitive(n, x, l);
        SetUpward(b, n, l);
      }
      if Anc(l, x) {
        AncLinear(l, n, x);
        if Anc(n, l) {
          SetUpward(b, n, l);
        }
      }
    }
  }

  /** A node found by the search is at the right depth, below n, and free. */
  lemma {:induction false} SearchSound(b: Bits, n: nat, k: nat)
    requires UpClosed(b) && Exposed(b, n) && Search(b, n, k).Some?
    ensures var x := Search(b, n, k).value;
            Anc(n, x) && DepthOf(x) == DepthOf(n) + k && Free(b, x)
    decreases k
  {
    if !IsSet(b, n) {
      LeftmostBelow(n, k);
      FreeBelowClear(b, n, Leftmost(n, k));
    } else {
      var c := if Search(b, First(b, n), k - 1).Some? then First(b, n) else Second(b, n);
      SearchSound(b, c, k - 1);
      AncTransitive(n, c, Search(b, n, k).value);
    }
  }

  /** A search that finds nothing found nothing below either child. */
  lemma SearchNone(b: Bits, n: nat, k: nat)
    requires Search(b, n, k).None? && k > 0 && !IsLive(b, n)
    ensures Search(b, LC(n), k - 1).None? && Search(b, RC(n), k - 1).None?
  {
  }

  /** One step down from n to x, when x lies deeper. */
  lemma ChildToward(n: nat, x: nat) returns (c: nat)
    requires Anc(n, x) && DepthOf(n) < DepthOf(x)
    ensures (c == LC(n) || c == RC(n)) && Anc(c, x) && DepthOf(c) == DepthOf(n) + 1
  {
    AncSplit(n, x);
    c := if Anc(LC(n), x) then LC(n) else RC(n);
    assert P(LC(n)) == n == P(RC(n));
  }

  /** When the search finds nothing, no block at that depth below n is free. */
  lemma {:induction false} SearchComplete(b: Bits, n: nat, k: nat, x: nat)
    requires UpClosed(b) && Search(b, n, k).None? && Anc(n, x) && DepthOf(x) == DepthOf(n) + k
    ensures !Free(b, x)
    decreases k
  {
    if k == 0 {
      SameDepth(n, x);
      var l := LiveBelow(b, n);
    } else if IsLive(b, n) {
      assert n in Live(b);
    } else {
      var c := ChildToward(n, x);
      SearchNone(b, n, k);
      SearchComplete(b, c, k - 1, x);
    }
  }

  lemma {:induction false} SameDepth(n: nat, x: nat)
    requires Anc(n, x)
    ensures DepthOf(n) <= DepthOf(x)
    ensures DepthOf(n) == DepthOf(x) <==> n == x
    decreases x
  {
    if n != x {
      SameDepth(n, P(x));
    }
  }

  // Which of the free blocks of one depth is taken, without the search: at the node
  // where the ways to two blocks part, the right child if it is in use, else the left.

  ghost predicate PreferredAt(b: Bits, m: nat, x: nat, y: nat) {
    if 2 * m + 2 < NODES && b[2 * m + 2] then Anc(2 * m + 2, x) && Anc(2 * m + 1, y)
    else Anc(2 * m + 1, x) && Anc(2 * m + 2, y)
  }

  /** x comes before y: where their ways from the root part, x is on the preferred side. */
  ghost predicate Preferred(b: Bits, x: nat, y: nat) {
    exists m: nat :: PreferredAt(b, m, x, y)
  }

  /** In an unused subtree the leftmost block comes before every other. */
  lemma {:induction false} LeftmostPreferred(b: Bits, n: nat, k: nat, y: nat)
    requires UpClosed(b) && !IsSet(b, n) && Anc(n, y) && DepthOf(y) == DepthOf(n) + k && y != Leftmost(n, k)
    ensures Preferred(b, Leftmost(n, k), y)
    decreases k
  {
    SameDepth(n, y);
    if k > 0 {
      var c := ChildToward(n, y);
      ChildrenClear(b, n);
      LeftmostBelow(LC(n), k - 1);
      if c == LC(n) {
        LeftmostPreferred(b, LC(n), k - 1, y);
      } else {
        assert PreferredAt(b, n, Leftmost(n, k), y);
      }
    }
  }

  lemma ChildrenClear(b: Bits, n: nat)
    requires UpClosed(b) && !IsSet(b, n)
    ensures !IsSet(b, LC(n)) && !IsSet(b, RC(n))
  {
    assert P(LC(n)) == n == P(RC(n));
  }

  /** The search at a split node, one level down. */
  lemma SearchChildren(b: Bits, n: nat, k: nat)
    requires k > 0 && IsSet(b, n) && Exposed(b, n) && Search(b, n, k).Some?
    ensures var f, s := First(b, n), Second(b, n);
            && {f, s} == {LC(n), RC(n)} && f != s && DepthOf(f) == DepthOf(n) + 1 == DepthOf(s)
            && Exposed(b, f) && Exposed(b, s)
            && (Search(b, f, k - 1).Some? ==> Search(b, n, k) == Search(b, f, k - 1))
            && (Search(b, f, k - 1).None? ==> Search(b, n, k) == Search(b, s, k - 1))
  {
    assert P(LC(n)) == n == P(RC(n));
  }

  lemma FirstPreferred(b: Bits, n: nat, x: nat, y: nat)
    requires Anc(First(b, n), x) && Anc(Second(b, n), y)
    ensures Preferred(b, x, y)
  {
    assert PreferredAt(b, n, x, y);
  }

  /** The block found comes before every other free block of its depth. */
  lemma {:induction false} SearchPrefers(b: Bits, n: nat, k: nat, y: nat)
    requires UpClosed(b) && Exposed(b, n) && Search(b, n, k).Some? && y != Search(b, n, k).value
    requires Free(b, y) && Anc(n, y) && DepthOf(y) == DepthOf(n) + k
    ensures Preferred(b, Search(b, n, k).value, y)
    decreases k
  {
    var x := Search(b, n, k).value;
    SameDepth(n, y);
    if k == 0 {
    } else if !IsSet(b, n) {
      LeftmostPreferred(b, n, k, y);
    } else {
      var f, s := First(b, n), Second(b, n);
      var c := ChildToward(n, y);
      SearchChildren(b, n, k);
      if Search(b, f, k - 1).Some? {
        if c == f {
          SearchPrefers(b, f, k - 1, y);
        } else {
          SearchSound(b, f, k - 1);
          FirstPreferred(b, n, x, y);
        }
      } else {
        if c == f {
          SearchComplete(b, f, k - 1, y);
        }
        SearchPrefers(b, s, k - 1, y);
      }
    }
  }

  /** Two blocks of one depth come in one order or the other, never in both. */
  lemma PreferredOneWay(b: Bits, x: nat, y: nat)
    requires Preferred(b, x, y)
    ensures !Preferred(b, y, x)
  {
    var m: nat :| PreferredAt(b, m, x, y);
    if Preferred(b, y, x) {
      var m': nat :| PreferredAt(b, m', y, x);
      PartOnce(m, m', x, y);
      AncSplit(m, x);
      AncSplit(m, y);
    }
  }

  /** There is one node where two ways part. */
  lemma PartOnce(m: nat, m': nat, x: nat, y: nat)
    requires (Anc(LC(m), x) && Anc(RC(m), y)) || (Anc(RC(m), x) && Anc(LC(m), y))
    requires (Anc(LC(m'), x) && Anc(RC(m'), y)) || (Anc(RC(m'), x) && Anc(LC(m'), y))
    ensures m == m'
  {
    AncSplit(m, x);
    AncSplit(m, y);
    AncSplit(m', x);
    AncSplit(m', y);
    AncLinear(m, m', x);
    if m != m' {
      if Anc(m, m') {
        BelowOneChild(m, m', x, y);
      } else {
        BelowOneChild(m', m, x, y);
      }
    }
  }

  lemma BelowOneChild(a: nat, d: nat, x: nat, y: nat)
    requires Anc(a, d) && a != d && Anc(d, x) && Anc(d, y)
    ensures (Anc(LC(a), x) && Anc(LC(a), y) && !Anc(RC(a), x) && !Anc(RC(a), y)) ||
            (Anc(RC(a), x) && Anc(RC(a), y) && !Anc(LC(a), x) && !Anc(LC(a), y))
  {
    AncSplit(a, d);
    var c := if Anc(LC(a), d) then LC(a) else RC(a);
    AncTransitive(c, d, x);
    AncTransitive(c, d, y);
    AncSplit(a, x);
    AncSplit(a, y);
  }

  /** Allocating a free block adds it to the live blocks and touches no other. */
  lemma AllocateLive(b: Bits, x: nat)
    requires UpClosed(b) && Free(b, x) && x < NODES
    ensures UpClosed(SetPath(b, x)) && Live(SetPath(b, x)) == Live(b) + {x}
  {
    var b' := SetPath(b, x);
    forall n: nat | 0 < n < NODES && b'[n] ensures b'[P(n)] {
      if Anc(n, x) {
        AncTransitive(P(n), n, x);
      }
    }
    forall n: nat | n < NODES ensures IsLive(b', n) <==> IsLive(b, n) || n == x {
      AncSplit(n, x);
      if n == x {
        BitMeaning(b, LC(x));
        BitMeaning(b, RC(x));
        AncSplitAll(x);
      }
      if IsLive(b, n) {
        assert n in Live(b);
      }
    }
  }

  lemma AncSplitAll(n: nat)
    ensures forall x :: Anc(LC(n), x) || Anc(RC(n), x) ==> Anc(n, x) && n != x
  {
    forall x | Anc(LC(n), x) || Anc(RC(n), x) ensures Anc(n, x) && n != x {
      AncSplit(n, x);
    }
  }

  // ---------------------------------------------------------------- freeing

  /** b after clearing n and then every ancestor left without a set child. */
  function Merge(b: Bits, n: nat): Bits
    requires n < NODES
    decreases n
  {
    var b' := b[n := false];
    if n == 0 || IsSet(b', Buddy(n)) then b' else Merge(b', P(n))
  }

  /** Clearing a live block removes it, and exposes its parent when the buddy is clear. */
  lemma ClearLive(b: Bits, n: nat)
    requires UpClosed(b) && IsLive(b, n)
    ensures UpClosed(b[n := false])
    ensures Live(b[n := false]) == Live(b) - {n} + (if n > 0 && !IsSet(b, Buddy(n)) then {P(n)} else {})
  {
    var b' := b[n := false];
    assert forall m: nat :: m < NODES && m != n && (n == 0 || m != P(n)) ==> (IsLive(b', m) <==> IsLive(b, m));
    if n > 0 {
      var p := P(n);
      assert {LC(p), RC(p)} == {n, Buddy(n)};
      assert !IsLive(b, p) && IsSet(b', p);
      assert IsLive(b', p) <==> !IsSet(b, Buddy(n));
    }
  }

  /** Freeing a live block removes exactly it and restores canonical form. */
  lemma {:induction false} MergeLive(b: Bits, n: nat)
    requires UpClosed(b) && IsLive(b, n)
    ensures UpClosed(Merge(b, n)) && Live(Merge(b, n)) == Live(b) - {n}
    decreases n
  {
    ClearLive(b, n);
    if n > 0 && !IsSet(b, Buddy(n)) {
      assert !IsLive(b, P(n)) by {
        assert n == LC(P(n)) || n == RC(P(n));
      }
      assert P(n) in Live(b[n := false]);
      MergeLive(b[n := false], P(n));
    }
  }

  /** Freeing undoes allocating, bit for bit. */
  lemma FreeUndoesAllocate(b: Bits, x: nat)
    requires UpClosed(b) && Free(b, x) && x < NODES
    ensures Merge(SetPath(b, x), x) == b
  {
    AllocateLive(b, x);
    assert x in Live(SetPath(b, x));
    assert x !in Live(b);
    MergeLive(SetPath(b, x), x);
    Canonical(Merge(SetPath(b, x), x), b);
  }

  // ---------------------------------------------------------------- histories

  datatype Op = Alloc(depth: nat) | Release(node: nat)

  /** One request; releasing something that is not a live block is not a request. */
  ghost predicate Allowed(b: Bits, op: Op) {
    match op
    case Alloc(d) => 1 <= d <= MAX_DEPTH
    case Release(n) => n in Live(b)
  }

  ghost function Step(b: Bits, op: Op): Bits
    requires Allowed(b, op)
  {
    match op
    case Alloc(d) =>
      var r := Search(b, 0, d - 1);
      if r.Some? then SetPath(b, r.value) else b
    case Release(n) => Merge(b, n)
  }

  /** A block at depth d is free iff the search from the root finds one. */
  lemma SearchDecides(b: Bits, d: nat)
    requires UpClosed(b) && 1 <= d <= MAX_DEPTH
    ensures Search(b, 0, d - 1).Some? <==> exists x :: DepthOf(x) == d && Free(b, x)
    ensures Search(b, 0, d - 1).Some? ==>
            var x := Search(b, 0, d - 1).value; x < NODES && DepthOf(x) == d && Free(b, x)
  {
    var r := Search(b, 0, d - 1);
    if r.Some? {
      SearchSound(b, 0, d - 1);
      DepthBounds(r.value);
      Pow2Monotone(d, MAX_DEPTH);
      Pow2Values();
    } else {
      forall x | DepthOf(x) == d ensures !Free(b, x) {
        RootAboveAll(x);
        SearchComplete(b, 0, d - 1, x);
      }
    }
  }

  /** The block the search takes from the root comes before every other free block of its depth. */
  lemma SearchIsFirst(b: Bits, d: nat)
    requires UpClosed(b) && 1 <= d <= MAX_DEPTH && Search(b, 0, d - 1).Some?
    ensures var x := Search(b, 0, d - 1).value;
            forall y: nat :: y != x && DepthOf(y) == d && Free(b, y) ==> Preferred(b, x, y)
  {
    var x := Search(b, 0, d - 1).value;
    forall y: nat | y != x && DepthOf(y) == d && Free(b, y) ensures Preferred(b, x, y) {
      RootAboveAll(y);
      SearchPrefers(b, 0, d - 1, y);
    }
  }

  lemma {:induction false} RootAboveAll(x: nat)
    ensures Anc(0, x)
  {
    if x > 0 {
      RootAboveAll(P(x));
    }
  }

  /** What one request does to the set of live blocks. */
  lemma StepLive(b: Bits, op: Op)
    requires UpClosed(b) && Allowed(b, op)
    ensures UpClosed(Step(b, op))
    ensures op.Release? ==> Live(Step(b, op)) == Live(b) - {op.node}
    ensures op.Alloc? && Step(b, op) == b ==> forall x :: DepthOf(x) == op.depth ==> !Free(b, x)
    ensures op.Alloc? && Step(b, op) != b ==>
            exists x: nat :: x < NODES && DepthOf(x) == op.depth && Free(b, x) && Live(Step(b, op)) == Live(b) + {x}
  {
    match op
    case Alloc(d) =>
      SearchDecides(b, d);
      var r := Search(b, 0, d - 1);
      if r.Some? {
        AllocateLive(b, r.value);
        FreeIsClear(b, r.value);
      }
    case Release(n) =>
      MergeLive(b, n);
  }

  lemma FreeIsClear(b: Bits, x: nat)
    requires Free(b, x)
    ensures !IsSet(b, x)
  {
    if IsSet(b, x) {
      var l := LiveBelow(b, x);
    }
  }

  ghost function Clear(): Bits {
    seq(NODES, i => false)
  }

  ghost predicate Legal(b: Bits, ops: seq<Op>)
    decreases |ops|
  {
    ops == [] || (Allowed(b, ops[0]) && Legal(Step(b, ops[0]), ops[1..]))
  }

  ghost function Run(b: Bits, ops: seq<Op>): Bits
    requires Legal(b, ops)
    decreases |ops|
  {
    if ops == [] then b else Run(Step(b, ops[0]), ops[1..])
  }

  lemma {:induction false} RunUpClosed(b: Bits, ops: seq<Op>)
    requires UpClosed(b) && Legal(b, ops)
    ensures UpClosed(Run(b, ops))
    decreases |ops|
  {
    if ops != [] {
      StepLive(b, ops[0]);
      RunUpClosed(Step(b, ops[0]), ops[1..]);
    }
  }

  /** After any two histories from the empty tree, equal live blocks mean equal bits,
      no live block contains another, and each bit tells whether its node meets a live block. */
  lemma AnyHistory(ops: seq<Op>, ops': seq<Op>)
    requires Legal(Clear(), ops) && Legal(Clear(), ops')
    ensures var b := Run(Clear(), ops);
            && (Live(b) == Live(Run(Clear(), ops')) ==> b == Run(Clear(), ops'))
            && (forall x, y :: x in Live(b) && y in Live(b) && x != y ==> !Anc(x, y))
            && (forall n :: IsSet(b, n) <==> exists x :: x in Live(b) && Anc(n, x))
  {
    RunUpClosed(Clear(), ops);
    RunUpClosed(Clear(), ops');
    var b, b' := Run(Clear(), ops), Run(Clear(), ops');
    if Live(b) == Live(b') {
      Canonical(b, b');
    }
    forall x, y | x in Live(b) && y in Live(b) && x != y ensures !Anc(x, y) {
      LiveAntichain(b, x, y);
    }
    forall n ensures IsSet(b, n) <==> exists x :: x in Live(b) && Anc(n, x) {
      BitMeaning(b, n);
    }
  }

  ghost function Releases(nodes: seq<nat>): seq<Op> {
    seq(|nodes|, i requires 0 <= i < |nodes| => Release(nodes[i]))
  }

  /** Releasing every live block once, in any order, leaves every bit clear. */
  lemma {:induction false} ReleaseAll(b: Bits, nodes: seq<nat>)
    requires UpClosed(b)
    requires forall n :: n in nodes <==> n in Live(b)
    requires forall i, j :: 0 <= i < j < |nodes| ==> nodes[i] != nodes[j]
    ensures Legal(b, Releases(nodes)) && Run(b, Releases(nodes)) == Clear()
    decreases |nodes|
  {
    if nodes == [] {
      assert Live(Clear()) == {} == Live(b);
      Canonical(b, Clear());
    } else {
      var rest := nodes[1..];
      assert nodes[0] in Live(b);
      MergeLive(b, nodes[0]);
      assert Releases(nodes)[1..] == Releases(rest);
      forall n ensures n in rest <==> n in Live(Merge(b, nodes[0])) {
        assert n in nodes <==> n == nodes[0] || n in rest;
      }
      ReleaseAll(Merge(b, nodes[0]), rest);
    }
  }

  // ---------------------------------------------------------------- addresses

  const MIN_REGION: nat := 4096
  const MAX_REGION: nat := 0x80_0000

  /** Bytes of one block at depth d: each level up doubles it. */
  function BlockSize(d: nat): (size: nat)
    requires 1 <= d <= MAX_DEPTH
    ensures size > 0
    decreases MAX_DEPTH - d
  {
    if d == MAX_DEPTH then MIN_REGION else 2 * BlockSize(d + 1)
  }

  lemma {:induction false} BlockSizeIsShift(d: nat)
    requires 1 <= d <= MAX_DEPTH
    ensures BlockSize(d) == MIN_REGION * Pow2(MAX_DEPTH - d)
    decreases MAX_DEPTH - d
  {
    if d < MAX_DEPTH {
      BlockSizeIsShift(d + 1);
      assert Pow2(MAX_DEPTH - d) == 2 * Pow2(MAX_DEPTH - (d + 1));
    }
  }

  /** get_tree_node_addr: the offset of block n, at depth d, in its region. */
  function NodeAddr(n: nat, d: nat): nat
    requires 1 <= d <= MAX_DEPTH && Pow2(d - 1) <= n + 1
  {
    var k: nat := n + 1 - Pow2(d - 1);
    BlockSize(d) * k
  }

  ghost predicate InTree(n: nat) {
    DepthOf(n) <= MAX_DEPTH
  }

  /** A left child starts where its parent does, a right child one block later. */
  ghost function Start(n: nat): nat
    requires InTree(n)
  {
    if n == 0 then 0 else Start(P(n)) + (if n % 2 == 1 then 0 else BlockSize(DepthOf(n)))
  }

  ghost function End(n: nat): nat
    requires InTree(n)
  {
    Start(n) + BlockSize(DepthOf(n))
  }

  lemma NodesAreInTree(n: nat)
    ensures InTree(n) <==> n < NODES
  {
    DepthBounds(n);
    Pow2Values();
    if InTree(n) {
      Pow2Monotone(DepthOf(n), 12);
    } else {
      Pow2Monotone(12, DepthOf(n) - 1);
    }
  }

  /** Positions within a level double from parent to child. */
  lemma LevelIndex(n: nat)
    requires n > 0
    ensures var d := DepthOf(P(n));
            n - (Pow2(d) - 1) == 2 * (P(n) - (Pow2(d - 1) - 1)) + (if n % 2 == 1 then 0 else 1)
  {
    var d, p := DepthOf(P(n)), P(n);
    assert n == 2 * p + (if n % 2 == 1 then 1 else 2);
    assert Pow2(d) == 2 * Pow2(d - 1);
  }

  /** A child is one half of its parent. */
  lemma ChildHalves(n: nat)
    requires n > 0 && InTree(n)
    ensures Start(n) == Start(P(n)) + (if n % 2 == 1 then 0 else BlockSize(DepthOf(n)))
    ensures BlockSize(DepthOf(P(n))) == 2 * BlockSize(DepthOf(n))
  {
    assert DepthOf(n) == DepthOf(P(n)) + 1;
  }

  /** The address arithmetic of get_tree_node_addr gives that start. */
  lemma {:induction false} AddrIsStart(n: nat)
    requires InTree(n)
    ensures Pow2(DepthOf(n) - 1) <= n + 1 && NodeAddr(n, DepthOf(n)) == Start(n)
  {
    DepthBounds(n);
    if n == 0 {
      Pow2Values();
    } else {
      AddrIsStart(P(n));
      ChildAddr(n, DepthOf(P(n)));
      ChildHalves(n);
    }
  }

  /** By that arithmetic too a child is one half of its parent. */
  lemma ChildAddr(n: nat, d: nat)
    requires n > 0 && d == DepthOf(P(n)) < MAX_DEPTH && Pow2(d - 1) <= P(n) + 1 && Pow2(d) <= n + 1
    ensures NodeAddr(n, d + 1) == NodeAddr(P(n), d) + (if n % 2 == 1 then 0 else BlockSize(d + 1))
  {
    LevelIndex(n);
    Doubling(BlockSize(d + 1), P(n) + 1 - Pow2(d - 1), n + 1 - Pow2(d));
  }

  lemma Doubling(s: nat, k: nat, j: nat)
    requires j == 2 * k || j == 2 * k + 1
    ensures s * j == (2 * s) * k + (if j == 2 * k then 0 else s)
  {
  }

  lemma {:induction false} Nested(a: nat, x: nat)
    requires Anc(a, x) && InTree(x)
    ensures InTree(a) && Start(a) <= Start(x) && End(x) <= End(a)
    decreases x
  {
    if a != x {
      ChildHalves(x);
      Nested(a, P(x));
    }
  }

  /** Unrelated blocks do not share an address. */
  lemma {:induction false} Apart(a: nat, x: nat)
    requires InTree(a) && InTree(x) && !Anc(a, x) && !Anc(x, a)
    ensures End(a) <= Start(x) || End(x) <= Start(a)
    decreases a + x, if a < x then 0 else 1
  {
    if a < x {
      RootAboveAll(x);
      RootAboveAll(a);
      if Anc(P(x), a) {
        AncSplit(P(x), a);
        assert x == LC(P(x)) || x == RC(P(x));
        assert Anc(Buddy(x), a);
        ChildHalves(x);
        Nested(P(x), a);
        NodesAreInTree(a);
        Nested(Buddy(x), a);
        ChildHalves(Buddy(x));
      } else {
        ChildHalves(x);
        Apart(a, P(x));
      }
    } else {
      Apart(x, a);
    }
  }

  lemma RootBlock()
    ensures DepthOf(0) == 1 && BlockSize(1) == MAX_REGION && InTree(0) && Start(0) == 0 && End(0) == MAX_REGION
  {
    BlockSizeIsShift(1);
    Pow2Values();
  }

  /** A block is aligned to its size and lies inside the region. */
  lemma BlockPlaced(n: nat) returns (k: nat)
    requires InTree(n)
    ensures Start(n) == BlockSize(DepthOf(n)) * k && End(n) <= MAX_REGION
  {
    RootAboveAll(n);
    Nested(0, n);
    RootBlock();
    AddrIsStart(n);
    k := n + 1 - Pow2(DepthOf(n) - 1);
  }
}
