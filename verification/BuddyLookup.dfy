/** buddy_free as written (kernel/arch/x86/page.c).  Its lookup yields node 4096 + k
    for page k of a region, one level below the leaves: the first test reads bit k
    of the next region's tree, and the climb then goes on from the leaf of page
    (k + 1) / 2.  When that still releases the right block is decided here. */
module BuddyLookup {
  import opened BitWords
  import opened BuddyShape
  import opened BuddyTree
  import opened BuddySystem
  import opened Powers
  import opened Mods

  /** The page of its region that holds addr. */
  function PageOf(addr: nat): (k: nat)
    requires addr >= DYNAMIC_MEMORY_BASE
    ensures k < 2048
  {
    (addr - DYNAMIC_MEMORY_BASE) % MAX_REGION / MIN_REGION
  }

  /** Where the climb enters the tree. */
  function EntryLeaf(addr: nat): (leaf: nat)
    requires addr >= DYNAMIC_MEMORY_BASE
    ensures leaf < NODES
  {
    2047 + (PageOf(addr) + 1) / 2
  }

  lemma LookupClimbs(addr: nat)
    requires addr >= DYNAMIC_MEMORY_BASE
    ensures LookupNode(addr) == 4096 + PageOf(addr) && P(LookupNode(addr)) == EntryLeaf(addr)
  {
    LookupMissesTree(addr);
  }

  /** The bit the first test reads.  Behind the last tree lie the zeroed rest of the
      allocator's own pages (StrayInReserve), which nothing sets. */
  ghost predicate StrayBit(sys: System, i: nat, k: nat)
    requires sys.Valid() && k < 2048
    reads sys, sys.repr
  {
    i + 1 < |sys.trees| && sys.trees[i + 1].bits[k]
  }

  /** The bit the second test reads when the first was set: for page 0 the unused last
      bit of the region's own 512 bytes. */
  ghost predicate StrayBuddyBit(sys: System, i: nat, k: nat)
    requires sys.Valid() && i < |sys.trees| && k < 2048
    reads sys, sys.repr
  {
    var n := Buddy(4096 + k);
    if n == 4095 then Bit8(sys.trees[i].tree[511], 7) else i + 1 < |sys.trees| && sys.trees[i + 1].bits[n - 4096]
  }

  lemma StrayInReserve(count: nat)
    ensures 8 + 512 * count + 2048 / 8 <= RequiredSize(count)
  {
  }

  /** Everything that must hold after a correct release of block x of region i. */
  ghost predicate Released(sys: System, was: set<(nat, nat)>, i: nat, x: nat)
    reads sys, sys.repr
  {
    sys.Valid() && sys.LiveBlocks() == was - {(i, x)}
  }

  lemma LiveOfTree(sys: System, j: nat, n: nat)
    requires sys.Valid() && j < |sys.trees|
    ensures n in Live(sys.trees[j].bits) <==> (j, n) in sys.LiveBlocks()
  {
  }

  /** The test of one bit by index, as get_tree_node makes it: from 4096 on it reads
      the bytes of the next tree. */
  method TestStray(sys: System, id: nat, node: nat) returns (r: bool)
    requires id < |sys.trees| && 4095 <= node < 4096 + 4095 && sys.trees[id].tree.Length == 512
    requires forall j :: 0 <= j < |sys.trees| ==> sys.trees[j].Valid()
    ensures r == if node == 4095 then Bit8(sys.trees[id].tree[511], 7)
                 else id + 1 < |sys.trees| && sys.trees[id + 1].bits[node - 4096]
  {
    if node == 4095 {
      r := sys.trees[id].tree[511] & Mask8(7) != 0;
    } else if id + 1 < |sys.trees| {
      r := sys.trees[id + 1].GetTreeNode(node - 4096);
    } else {
      r := false;
    }
  }

  /** buddy_free, line by line: true as long as it stayed inside its own tree. */
  method BuddyFreeAddr(sys: System, addr: nat) returns (inside: bool)
    requires sys.Valid() && addr >= DYNAMIC_MEMORY_BASE && RegionOf(addr) < |sys.trees|
    modifies sys.repr
    ensures inside <==> !old(StrayBit(sys, RegionOf(addr), PageOf(addr)))
    ensures var i := RegionOf(addr);
            && (forall j :: 0 <= j < |sys.trees| ==> sys.trees[j].Valid())
            && (inside ==> forall j :: 0 <= j < |sys.trees| && j != i ==> sys.trees[j].bits == old(sys.trees[j].bits))
            && (inside ==> var hit := FirstSet(old(sys.trees[i].bits), EntryLeaf(addr));
                           hit < NODES && sys.trees[i].bits ==
                           if hit == 0 then old(sys.trees[i].bits) else Merge(old(sys.trees[i].bits), hit))
            && (!inside ==>
                  && i + 1 < |sys.trees| && sys.trees[i + 1].bits == old(sys.trees[i + 1].bits)[PageOf(addr) := false]
                  && sys.trees[i].bits == (if old(StrayBuddyBit(sys, i, PageOf(addr))) then old(sys.trees[i].bits)
                                           else Merge(old(sys.trees[i].bits), EntryLeaf(addr)))
                  && forall j :: 0 <= j < |sys.trees| && j != i && j != i + 1 ==> sys.trees[j].bits == old(sys.trees[j].bits))
  {
    LookupClimbs(addr);
    var id, node := RegionOf(addr), LookupNode(addr);
    var stray := TestStray(sys, id, node);
    inside := !stray;
    if !stray {
      var hit := sys.trees[id].FreeFromNode(P(node));
    } else {
      sys.trees[id + 1].SetTreeNode(node - 4096, false);
      var buddyInUse := TestStray(sys, id, Buddy(node));
      if !buddyInUse {
        sys.trees[id].UnsetMergeNodes(P(node));
      }
    }
  }

  /** A tree releases x by merging at another node never: the bit of x stays set. */
  lemma {:induction false} MergeKeeps(b: Bits, n: nat, x: nat)
    requires n < NODES && x < NODES && !Anc(x, n)
    ensures Merge(b, n)[x] == b[x]
    decreases n
  {
    if n > 0 && !IsSet(b[n := false], Buddy(n)) {
      MergeKeeps(b[n := false], P(n), x);
    }
  }

  /** Climbing from leaf releases exactly x if and only if x lies above the leaf and
      is not the whole region. */
  lemma ClimbReleases(b: Bits, x: nat, leaf: nat, b': Bits)
    requires UpClosed(b) && x in Live(b) && leaf < NODES
    requires var hit := FirstSet(b, leaf); hit < NODES && b' == if hit == 0 then b else Merge(b, hit)
    ensures UpClosed(b') && Live(b') == Live(b) - {x} <==> x != 0 && Anc(x, leaf)
  {
    var hit := FirstSet(b, leaf);
    MergeLive(b, x);
    if x != 0 && Anc(x, leaf) {
      FirstSetAbove(b, x, leaf);
    } else if UpClosed(b') && Live(b') == Live(b) - {x} {
      Canonical(b', Merge(b, x));
      FirstSetIsAncestor(b, leaf);
      NotAbove(b, x, hit);
      if hit != 0 {
        MergeKeeps(b, hit, x);
      }
      MergeClears(b, x);
      assert false;
    }
  }

  lemma MergeClears(b: Bits, n: nat)
    requires UpClosed(b) && IsLive(b, n)
    ensures !Merge(b, n)[n]
  {
    MergeLive(b, n);
    BitMeaning(Merge(b, n), n);
    forall y | y in Live(Merge(b, n)) && Anc(n, y) ensures false {
      LiveAntichain(b, n, y);
    }
  }

  /** A set node other than the live block x is not below it. */
  lemma NotAbove(b: Bits, x: nat, n: nat)
    requires UpClosed(b) && x in Live(b) && n != x && (n != 0 ==> IsSet(b, n))
    ensures !Anc(x, n)
  {
    if Anc(x, n) {
      FirstSetIsLive(b, x, n);
    }
  }

  ghost function AllBits(sys: System): seq<Bits>
    reads sys.trees
  {
    seq(|sys.trees|, j requires 0 <= j < |sys.trees| reads sys.trees => sys.trees[j].bits)
  }

  /** What one tree must look like after a correct release. */
  lemma ReleasedTrees(sys: System, was: seq<Bits>, live: set<(nat, nat)>, i: nat, x: nat)
    requires |was| == |sys.trees| && i < |was| && x in Live(was[i])
    requires forall j, n :: (j, n) in live <==> 0 <= j < |was| && n in Live(was[j])
    requires sys.Valid()
    ensures sys.LiveBlocks() == live - {(i, x)} <==>
            forall j :: 0 <= j < |was| ==> Live(sys.trees[j].bits) == if j == i then Live(was[j]) - {x} else Live(was[j])
  {
    if sys.LiveBlocks() == live - {(i, x)} {
      forall j: nat | j < |was|
        ensures Live(sys.trees[j].bits) == if j == i then Live(was[j]) - {x} else Live(was[j])
      {
        forall n ensures n in Live(sys.trees[j].bits) <==> (n in Live(was[j]) && (j, n) != (i, x)) {
          LiveOfTree(sys, j, n);
        }
      }
    } else if forall j :: 0 <= j < |was| ==> Live(sys.trees[j].bits) == if j == i then Live(was[j]) - {x} else Live(was[j]) {
      forall b: (nat, nat) ensures b in sys.LiveBlocks() <==> b in live - {(i, x)} {
        assert b == (b.0, b.1);
        if b.0 < |was| {
          LiveOfTree(sys, b.0, b.1);
        }
      }
    }
  }

  /** The address of any byte of the live block x of region i: buddy_free releases
      exactly this block if and only if bit k of the next tree is clear, the block is
      not the whole region, and it lies above the leaf of page (k + 1) / 2. */
  method BuddyFreeExactly(sys: System, addr: nat, ghost i: nat, ghost x: nat)
    requires sys.Valid() && (i, x) in sys.LiveBlocks() && sys.BlockStart(i, x) <= addr < sys.BlockEnd(i, x)
    modifies sys.repr
    ensures Released(sys, old(sys.LiveBlocks()), i, x) <==>
            !old(StrayBit(sys, i, PageOf(addr))) && x != 0 && Anc(x, EntryLeaf(addr))
  {
    sys.LeafOfBlock(addr, i, x);
    ghost var was, live := AllBits(sys), sys.LiveBlocks();
    assert forall j :: 0 <= j < |was| ==> UpClosed(was[j]);
    var inside := BuddyFreeAddr(sys, addr);
    if inside {
      InsideExactly(sys, was, live, i, x, EntryLeaf(addr));
    } else {
      StrayIsWrong(sys, was, live, i, x, PageOf(addr));
    }
  }

  lemma InsideExactly(sys: System, was: seq<Bits>, live: set<(nat, nat)>, i: nat, x: nat, leaf: nat)
    requires |was| == |sys.trees| && i < |was| && x in Live(was[i]) && leaf < NODES
    requires forall j, n :: (j, n) in live <==> 0 <= j < |was| && n in Live(was[j])
    requires forall j :: 0 <= j < |was| ==> UpClosed(was[j]) && (j != i ==> sys.trees[j].bits == was[j])
    requires var hit := FirstSet(was[i], leaf);
             hit < NODES && sys.trees[i].bits == if hit == 0 then was[i] else Merge(was[i], hit)
    requires sys.Valid() <==> UpClosed(sys.trees[i].bits)
    ensures Released(sys, live, i, x) <==> x != 0 && Anc(x, leaf)
  {
    ClimbReleases(was[i], x, leaf, sys.trees[i].bits);
    if sys.Valid() {
      ReleasedTrees(sys, was, live, i, x);
    }
  }

  lemma StrayIsWrong(sys: System, was: seq<Bits>, live: set<(nat, nat)>, i: nat, x: nat, k: nat)
    requires |was| == |sys.trees| && i + 1 < |was| && x in Live(was[i]) && k < NODES
    requires forall j, n :: (j, n) in live <==> 0 <= j < |was| && n in Live(was[j])
    requires UpClosed(was[i + 1]) && was[i + 1][k] && !sys.trees[i + 1].bits[k]
    ensures !Released(sys, live, i, x)
  {
    if Released(sys, live, i, x) {
      ReleasedTrees(sys, was, live, i, x);
      Canonical(sys.trees[i + 1].bits, was[i + 1]);
    }
  }

  /** For the address that buddy_alloc returned, the leaf is right only when the block
      starts at one of the first two pages of its region. */
  lemma StartPages(sys: System, i: nat, x: nat)
    requires x < NODES
    ensures Anc(x, EntryLeaf(sys.BlockStart(i, x))) <==> PageOf(sys.BlockStart(i, x)) <= 1
  {
    PageOfStart(sys, i, x);
    var k := PageOf(sys.BlockStart(i, x));
    if k <= 1 {
      LeafUnder(x, k);
    } else {
      LeafIsLater(x, k, (k + 1) / 2);
    }
  }

  lemma LeafIsLater(x: nat, k: nat, m: nat)
    requires InTree(x) && Start(x) == MIN_REGION * k && m < k < 2048
    ensures !Anc(x, 2047 + m)
  {
    LeafStart(m);
    StartsLater(x, 2047 + m);
  }

  /** A block is not above a leaf that starts before it. */
  lemma StartsLater(x: nat, leaf: nat)
    requires InTree(x) && leaf < NODES && InTree(leaf) && Start(leaf) < Start(x)
    ensures !Anc(x, leaf)
  {
    if Anc(x, leaf) {
      Nested(x, leaf);
    }
  }

  lemma PageOfStart(sys: System, i: nat, x: nat)
    requires x < NODES
    ensures InTree(x) && (sys.BlockStart(i, x) - DYNAMIC_MEMORY_BASE) % MAX_REGION == Start(x) < End(x)
    ensures MIN_REGION * PageOf(sys.BlockStart(i, x)) == Start(x)
  {
    NodesAreInTree(x);
    var p := BlockPlaced(x);
    ModUnique(sys.BlockStart(i, x) - DYNAMIC_MEMORY_BASE, MAX_REGION, i, Start(x));
    var k := WholePages(x);
    ModUnique(Start(x), MIN_REGION, k, 0);
  }

  lemma {:induction false} WholePages(n: nat) returns (k: nat)
    requires InTree(n)
    ensures Start(n) == MIN_REGION * k
    decreases n
  {
    if n == 0 {
      k := 0;
    } else {
      k := WholePages(P(n));
      if n % 2 == 0 {
        BlockSizeIsShift(DepthOf(n));
        k := k + Pow2(MAX_DEPTH - DepthOf(n));
      }
    }
  }

  // --------------------------------------------------- where it fails from boot on

  /** While the allocator's own block stands and takes more than two pages, no other
      block of region 0 starts where buddy_free finds it. */
  lemma FirstRegionMissed(sys: System, first: nat, x: nat)
    requires sys.Valid() && (0, first) in sys.LiveBlocks() && (0, x) in sys.LiveBlocks() && x != first
    requires sys.BlockStart(0, first) == DYNAMIC_MEMORY_BASE
    requires sys.BlockEnd(0, first) > DYNAMIC_MEMORY_BASE + 2 * MIN_REGION
    ensures PageOf(sys.BlockStart(0, x)) >= 2 && !Anc(x, EntryLeaf(sys.BlockStart(0, x)))
  {
    sys.LiveBlocksDisjoint(0, first, 0, x);
    PageOfStart(sys, 0, x);
    PageOfStart(sys, 0, first);
    StartPages(sys, 0, x);
  }

  /** Leaf k of region 0 is free when its page lies behind the only live block. */
  lemma LeafFree(sys: System, first: nat, k: nat)
    requires sys.Valid() && |sys.trees| > 0 && first < NODES && sys.LiveBlocks() == {(0, first)}
    requires k < 2048 && sys.BlockEnd(0, first) <= DYNAMIC_MEMORY_BASE + MIN_REGION * k
    ensures DepthOf(2047 + k) == MAX_DEPTH && sys.FreeBlock(0, 2047 + k)
  {
    var leaf := 2047 + k;
    LeafStart(k);
    NodesAreInTree(leaf);
    NodesAreInTree(first);
    forall y | y in Live(sys.trees[0].bits) ensures !Anc(y, leaf) && !Anc(leaf, y) {
      LiveOfTree(sys, 0, y);
      assert y == first;
      if Anc(y, leaf) {
        Nested(y, leaf);
      }
      if Anc(leaf, y) {
        Nested(leaf, y);
      }
    }
  }

  lemma LiveOnly(sys: System, first: nat)
    requires sys.Valid() && |sys.trees| > 0 && sys.LiveBlocks() == {(0, first)}
    ensures Live(sys.trees[0].bits) == {first}
  {
    forall n: nat ensures n in Live(sys.trees[0].bits) <==> n == first {
      LiveOfTree(sys, 0, n);
    }
  }

  /** With only a block at the start of region 0 live, the next page allocated is the
      one right behind it: no larger free block elsewhere is broken for it. */
  lemma NextPage(sys: System, first: nat, k: nat, x: nat)
    requires sys.Valid() && |sys.trees| > 0 && first < NODES && sys.LiveBlocks() == {(0, first)}
    requires k < 2048 && sys.BlockStart(0, first) == DYNAMIC_MEMORY_BASE
    requires sys.BlockEnd(0, first) == DYNAMIC_MEMORY_BASE + MIN_REGION * k
    requires x < NODES && DepthOf(x) == MAX_DEPTH && sys.FreeBlock(0, x) && FirstOf(sys.trees[0].bits, MAX_DEPTH, x)
    ensures x == 2047 + k
  {
    var b, y := sys.trees[0].bits, 2047 + k;
    LeafFree(sys, first, k);
    LiveOnly(sys, first);
    LeafStart(k);
    NodesAreInTree(first);
    assert Start(first) == 0 && End(first) == Start(y);
    if x != y {
      assert Preferred(b, x, y);
      NothingBefore(b, first, x, y);
    }
  }

  /** Where first takes the front of the region up to y, no free block comes before y. */
  lemma NothingBefore(b: Bits, first: nat, x: nat, y: nat)
    requires UpClosed(b) && Live(b) == {first} && first < NODES && x < NODES && y < NODES
    requires InTree(first) && InTree(y) && Start(first) == 0 && End(first) == Start(y)
    requires Free(b, x)
    ensures !Preferred(b, x, y)
  {
    NodesAreInTree(x);
    forall m: nat | PreferredAt(b, m, x, y) ensures false {
      if 2 * m + 2 < NODES && b[2 * m + 2] {
        RightIsClear(b, first, m);
      } else {
        LeftIsBefore(m, x, y);
        Apart(first, x);
      }
    }
  }

  lemma Halves(m: nat)
    requires InTree(2 * m + 1) && InTree(2 * m + 2)
    ensures Start(2 * m + 2) == End(2 * m + 1) > 0
  {
    ChildHalves(2 * m + 1);
    ChildHalves(2 * m + 2);
    assert P(2 * m + 1) == m == P(2 * m + 2);
  }

  lemma RightIsClear(b: Bits, first: nat, m: nat)
    requires UpClosed(b) && Live(b) == {first} && InTree(first) && Start(first) == 0
    requires 2 * m + 2 < NODES
    ensures !b[2 * m + 2]
  {
    var r := 2 * m + 2;
    if b[r] {
      BitMeaning(b, r);
      assert Anc(r, first);
      Nested(r, first);
      NodesAreInTree(2 * m + 1);
      NodesAreInTree(r);
      Halves(m);
    }
  }

  lemma LeftIsBefore(m: nat, x: nat, y: nat)
    requires InTree(x) && InTree(y) && Anc(2 * m + 1, x) && Anc(2 * m + 2, y)
    ensures End(x) <= Start(y)
  {
    Nested(2 * m + 1, x);
    Nested(2 * m + 2, y);
    Halves(m);
  }

  lemma PageDepth()
    ensures DepthFor(4096) == MAX_DEPTH
  {
    Pow2Values();
    HighBitUnique(4095, 11);
    HighBitUnique(4095, 12);
  }

  /** For 16 regions the allocator's own block is 16 KB. */
  lemma TablesBlock(first: nat, count: nat)
    requires InTree(first) && count == 16 && DepthOf(first) == DepthFor(RequiredSize(count))
    ensures BlockSize(DepthOf(first)) == 0x4000
  {
    DepthOfTables();
    BlockSizeIsShift(10);
    assert Pow2(2) == 4;
  }

  lemma DepthOfTables()
    ensures DepthFor(RequiredSize(16)) == 10
  {
    assert RequiredSize(16) == 12288;
    Pow2Values();
    assert Pow2(13) == 2 * Pow2(12) && Pow2(14) == 2 * Pow2(13);
    HighBitUnique(12287, 13);
    HighBitUnique(12287, 14);
  }

  lemma BehindTables(sys: System, first: nat)
    requires sys.Valid() && |sys.trees| > 0 && first < NODES && sys.LiveBlocks() == {(0, first)}
    requires sys.BlockStart(0, first) == DYNAMIC_MEMORY_BASE && sys.BlockEnd(0, first) == DYNAMIC_MEMORY_BASE + 0x4000
    ensures forall x: nat ::
              x < NODES && DepthOf(x) == MAX_DEPTH && sys.FreeBlock(0, x) && FirstOf(sys.trees[0].bits, MAX_DEPTH, x) ==>
              x == 2051
  {
    forall x: nat | x < NODES && DepthOf(x) == MAX_DEPTH && sys.FreeBlock(0, x) && FirstOf(sys.trees[0].bits, MAX_DEPTH, x)
      ensures x == 2051
    {
      NextPage(sys, first, 4, x);
    }
  }

  /** The call page_init makes, for 128 MB: only the 16 KB of tables are live. */
  method AfterInit() returns (sys: System, ghost first: nat)
    ensures sys.Valid() && fresh(sys) && fresh(sys.repr) && |sys.trees| == 16
    ensures first < NODES && sys.LiveBlocks() == {(0, first)}
    ensures sys.BlockStart(0, first) == DYNAMIC_MEMORY_BASE && sys.BlockEnd(0, first) == DYNAMIC_MEMORY_BASE + 0x4000
  {
    sys, first := InitBuddySystem(0x800_0000);
    NodesAreInTree(first);
    TablesBlock(first, |sys.trees|);
  }

  /** The first page allocated after that is the one right behind the tables. */
  method FirstPage(sys: System, ghost first: nat) returns (addr: nat)
    requires sys.Valid() && |sys.trees| == 16 && first < NODES && sys.LiveBlocks() == {(0, first)}
    requires sys.BlockStart(0, first) == DYNAMIC_MEMORY_BASE && sys.BlockEnd(0, first) == DYNAMIC_MEMORY_BASE + 0x4000
    modifies sys.repr
    ensures sys.Valid() && addr == 0x100_4000 == sys.BlockStart(0, 2051) && first != 2051
    ensures sys.LiveBlocks() == {(0, first), (0, 2051)}
  {
    PageDepth();
    LeafFree(sys, first, 4);
    BehindTables(sys, first);
    LeafStart(4);
    LiveOnly(sys, first);
    assert !Free(sys.trees[0].bits, first);
    var block;
    ghost var i, x;
    block, i, x := sys.BuddyAlloc(4096);
    assert i == 0 && x == 2051;
    addr := block.value;
  }

  /** One page allocated and freed after init: it lies right behind the tables, and
      freeing it by its address does not release it. */
  method PageNeverReleased() returns (sys: System, addr: nat, ghost first: nat)
    ensures first < NODES && first != 2051 && addr == 0x100_4000 == sys.BlockStart(0, 2051)
    ensures !Released(sys, {(0, first), (0, 2051)}, 0, 2051)
  {
    sys, first := AfterInit();
    addr := FirstPage(sys, first);
    NodesAreInTree(2051);
    FirstRegionMissed(sys, first, 2051);
    BuddyFreeExactly(sys, addr, 0, 2051);
  }
}
