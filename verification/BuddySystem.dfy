/** The array of buddy trees that manages all memory from 16 MB up
    (kernel/arch/x86/page.c): one tree for each region of 8 MB. */
module BuddySystem {
  import opened Wrappers
  import opened Powers
  import opened BuddyShape
  import opened BuddyTree
  import opened Mods

  const DYNAMIC_MEMORY_BASE: nat := 0x100_0000

  /** What lzcnt must return for the size arithmetic to work: the index of the highest set bit. */
  function HighBit(v: nat): nat
    requires v > 0
  {
    if v == 1 then 0 else 1 + HighBit(v / 2)
  }

  lemma {:induction false} HighBitBounds(v: nat)
    requires v > 0
    ensures Pow2(HighBit(v)) <= v < Pow2(HighBit(v) + 1)
  {
    if v > 1 {
      HighBitBounds(v / 2);
    }
  }

  lemma {:induction false} HighBitUnique(v: nat, k: nat)
    requires v > 0
    ensures v < Pow2(k) <==> HighBit(v) < k
  {
    HighBitBounds(v);
    if HighBit(v) < k {
      Pow2Monotone(HighBit(v) + 1, k);
    } else {
      Pow2Monotone(k, HighBit(v));
    }
  }

  /** The depth buddy_alloc computes for a request. */
  function DepthFor(size: nat): int
    requires size > 1
  {
    var logsize := HighBit(size - 1) + 1;
    MAX_DEPTH - (logsize - 12)
  }

  /** Every request of more than 2048 bytes and at most 8 MB gets the tightest block size. */
  lemma DepthFits(size: nat)
    requires 2048 < size <= MAX_REGION
    ensures 1 <= DepthFor(size) <= MAX_DEPTH
    ensures size <= BlockSize(DepthFor(size)) < 2 * size
  {
    var v := size - 1;
    Pow2Values();
    HighBitUnique(v, 11);
    HighBitUnique(v, 23);
    HighBitBounds(v);
    var d := DepthFor(size);
    Pow2Add(12, 12 - d);
    BlockSizeIsShift(d);
  }

  /** The depths buddy_alloc can serve, exactly: below 2049 bytes it would ask for
      one beyond the leaves. */
  lemma DepthInRange(size: nat)
    requires size > 1
    ensures 1 <= DepthFor(size) <= MAX_DEPTH <==> 2048 < size <= MAX_REGION
  {
    Pow2Values();
    HighBitUnique(size - 1, 11);
    HighBitUnique(size - 1, 23);
  }

  /** addr is a multiple of the size of block n. */
  ghost predicate FitsSize(addr: nat, n: nat)
    requires n < NODES
  {
    NodesAreInTree(n);
    addr % BlockSize(DepthOf(n)) == 0
  }

  /** A region is a whole number of blocks of every depth. */
  lemma {:induction false} RegionInBlocks(d: nat)
    requires 1 <= d <= MAX_DEPTH
    ensures MAX_REGION == BlockSize(d) * Pow2(d - 1)
  {
    if d == 1 {
      RootBlock();
      Pow2Values();
    } else {
      RegionInBlocks(d - 1);
      assert Pow2(d - 1) == 2 * Pow2(d - 2);
      Shifted(BlockSize(d), Pow2(d - 2));
    }
  }

  lemma Shifted(size: nat, n: nat)
    ensures (2 * size) * n == size * (2 * n)
  {
  }

  lemma Regroup(size: nat, n: nat, i: nat, k: nat)
    ensures (size * n) * i + size * k == (i * n + k) * size
  {
    assert (size * n) * i == size * (n * i);
    assert (i * n + k) * size == i * n * size + k * size;
  }

  /** x comes before all other free blocks of depth d. */
  ghost predicate FirstOf(b: Bits, d: int, x: nat) {
    forall y: nat :: y != x && DepthOf(y) == d && Free(b, y) ==> Preferred(b, x, y)
  }

  // ------------------------------------------------- from an address to a node

  function RegionOf(addr: nat): nat
    requires addr >= DYNAMIC_MEMORY_BASE
  {
    (addr - DYNAMIC_MEMORY_BASE) / MAX_REGION
  }

  /** The lookup of buddy_tree_free_addr as written: the region's base leaves out
      the 16 MB, the node leaves out the index of the first leaf. */
  function LookupNode(addr: nat): nat
    requires addr >= DYNAMIC_MEMORY_BASE
  {
    (addr - MAX_REGION * RegionOf(addr)) / MIN_REGION
  }

  /** The leaf of the page that holds addr. */
  function LeafOf(addr: nat): nat
    requires addr >= DYNAMIC_MEMORY_BASE
  {
    2047 + (addr - DYNAMIC_MEMORY_BASE) % MAX_REGION / MIN_REGION
  }

  /** The lookup as written is off by 2049 for every address, and so always beyond
      the last node. */
  lemma LookupMissesTree(addr: nat)
    requires addr >= DYNAMIC_MEMORY_BASE
    ensures LookupNode(addr) == LeafOf(addr) + 2049 && LookupNode(addr) >= NODES
    ensures LeafOf(addr) < NODES
  {
  }

  lemma LeafStart(k: nat)
    requires k < 2048
    ensures DepthOf(2047 + k) == MAX_DEPTH && Start(2047 + k) == MIN_REGION * k
    ensures End(2047 + k) == MIN_REGION * k + MIN_REGION
  {
    var leaf := 2047 + k;
    Pow2Values();
    NodesAreInTree(leaf);
    DepthBounds(leaf);
    if DepthOf(leaf) < 12 {
      Pow2Monotone(DepthOf(leaf), 11);
    }
    AddrIsStart(leaf);
  }

  /** The corrected index is the leaf whose page holds addr. */
  lemma LeafHolds(addr: nat)
    requires addr >= DYNAMIC_MEMORY_BASE
    ensures var leaf := LeafOf(addr);
            InTree(leaf) && DepthOf(leaf) == MAX_DEPTH &&
            Start(leaf) <= (addr - DYNAMIC_MEMORY_BASE) % MAX_REGION < End(leaf)
  {
    LeafStart((addr - DYNAMIC_MEMORY_BASE) % MAX_REGION / MIN_REGION);
  }

  /** A node whose bytes hold page k lies above the leaf of that page. */
  lemma LeafUnder(x: nat, k: nat)
    requires InTree(x) && k < 2048 && Start(x) < MIN_REGION * k + MIN_REGION && MIN_REGION * k < End(x)
    ensures Anc(x, 2047 + k)
  {
    var leaf := 2047 + k;
    LeafStart(k);
    if Anc(leaf, x) {
      NodesAreInTree(x);
      LeafAlone(leaf, x);
    } else if !Anc(x, leaf) {
      Apart(x, leaf);
    }
  }

  /** No node of the tree lies below a leaf. */
  lemma LeafAlone(leaf: nat, x: nat)
    requires 2047 <= leaf && Anc(leaf, x) && x < NODES
    ensures x == leaf
  {
    AncSplit(leaf, x);
    RangeAbove(LC(leaf), x);
    RangeAbove(RC(leaf), x);
  }

  /** A node whose bytes hold addr lies above the corrected leaf. */
  lemma LeafBelow(addr: nat, x: nat)
    requires addr >= DYNAMIC_MEMORY_BASE && InTree(x)
    requires Start(x) <= (addr - DYNAMIC_MEMORY_BASE) % MAX_REGION < End(x)
    ensures Anc(x, LeafOf(addr))
  {
    LeafHolds(addr);
    LeafUnder(x, (addr - DYNAMIC_MEMORY_BASE) % MAX_REGION / MIN_REGION);
  }

  lemma RangeAbove(a: nat, x: nat)
    ensures Anc(a, x) ==> a <= x
  {
  }

  class System {
    const trees: seq<Tree>
    ghost const repr: set<object>

    ghost predicate Valid()
      reads this, repr
    {
      && (forall i :: 0 <= i < |trees| ==> trees[i] in repr && trees[i].tree in repr)
      && (forall i, j :: 0 <= i < j < |trees| ==> trees[i] != trees[j] && trees[i].tree != trees[j].tree)
      && (forall i :: 0 <= i < |trees| ==> trees[i].Valid() && UpClosed(trees[i].bits))
    }

    /** A live block: region number and node. */
    ghost function LiveBlocks(): set<(nat, nat)>
      requires Valid()
      reads this, repr
    {
      set i: nat, n: nat | i < |trees| && n in Live(trees[i].bits) :: (i, n)
    }

    ghost predicate FreeBlock(i: nat, n: nat)
      requires Valid() && i < |trees|
      reads this, repr
    {
      Free(trees[i].bits, n)
    }

    /** One turn of the loop over the regions. */
    method TryRegion(k: nat, depth: nat) returns (r: Option<nat>, ghost x: nat)
      requires Valid() && k < |trees| && 1 <= depth <= MAX_DEPTH
      modifies repr
      ensures Valid() && forall j :: 0 <= j < |trees| && (j != k || r == None) ==> trees[j].bits == old(trees[j].bits)
      ensures r == None ==> forall y :: DepthOf(y) == depth ==> !FreeBlock(k, y)
      ensures r.Some? ==> x < NODES && DepthOf(x) == depth && old(FreeBlock(k, x))
      ensures r.Some? ==> r.value == Start(x) && Search(old(trees[k].bits), 0, depth - 1) == Some(x)
      ensures r.Some? ==> Live(trees[k].bits) == Live(old(trees[k].bits)) + {x}
      ensures r.Some? ==> FirstOf(old(trees[k].bits), depth, x)
    {
      r, x := trees[k].TryAllocDepth(depth);
      if r.Some? {
        NodesAreInTree(x);
        AllocateLive(old(trees[k].bits), x);
      }
    }

    /** buddy_alloc_depth: the first region with a free block at that depth.
        None is the failed assertion after the loop. */
    method BuddyAllocDepth(depth: nat) returns (addr: Option<nat>, ghost i: nat, ghost x: nat)
      requires Valid() && 1 <= depth <= MAX_DEPTH
      modifies repr
      ensures Valid()
      ensures addr == None ==> LiveBlocks() == old(LiveBlocks())
      ensures addr == None ==>
              forall j: nat, y :: j < |trees| && DepthOf(y) == depth ==> !old(FreeBlock(j, y))
      ensures addr.Some? ==> i < |trees| && x < NODES && DepthOf(x) == depth && old(FreeBlock(i, x))
      ensures addr.Some? ==> LiveBlocks() == old(LiveBlocks()) + {(i, x)}
      ensures addr.Some? ==> RegionOffset(i, x) == addr.value
      ensures addr.Some? ==> Search(old(trees[i].bits), 0, depth - 1) == Some(x) && FirstOf(old(trees[i].bits), depth, x)
      ensures addr.Some? ==> forall j: nat, y :: j < i && DepthOf(y) == depth ==> !old(FreeBlock(j, y))
    {
      i, x := 0, 0;
      for k := 0 to |trees|
        invariant Valid() && forall j :: 0 <= j < |trees| ==> trees[j].bits == old(trees[j].bits)
        invariant forall j: nat, y :: j < k && DepthOf(y) == depth ==> !old(FreeBlock(j, y))
      {
        var r;
        ghost var found;
        r, found := TryRegion(k, depth);
        if r.Some? {
          return Some(MAX_REGION * k + r.value), k, found;
        }
      }
      addr := None;
    }

    ghost function RegionOffset(i: nat, n: nat): nat
      requires n < NODES
    {
      NodesAreInTree(n);
      MAX_REGION * i + Start(n)
    }

    /** The bytes of block n of region i start here and end RegionEnd. */
    ghost function BlockStart(i: nat, n: nat): nat
      requires n < NODES
    {
      DYNAMIC_MEMORY_BASE + RegionOffset(i, n)
    }

    ghost function BlockEnd(i: nat, n: nat): nat
      requires n < NODES
    {
      NodesAreInTree(n);
      BlockStart(i, n) + BlockSize(DepthOf(n))
    }

    /** buddy_alloc: a block of the tightest size, or the failed assertion when no
        region has a free one. */
    method BuddyAlloc(size: nat) returns (addr: Option<nat>, ghost i: nat, ghost x: nat)
      requires Valid() && 2048 < size <= MAX_REGION
      modifies repr
      ensures Valid()
      ensures addr == None ==> LiveBlocks() == old(LiveBlocks())
      ensures addr == None ==>
              forall j: nat, y :: j < |trees| && DepthOf(y) == DepthFor(size) ==> !old(FreeBlock(j, y))
      ensures addr.Some? ==> i < |trees| && x < NODES && old(FreeBlock(i, x))
      ensures addr.Some? ==> LiveBlocks() == old(LiveBlocks()) + {(i, x)}
      ensures addr.Some? ==> addr.value == BlockStart(i, x) && FitsSize(addr.value, x)
      ensures 1 <= DepthFor(size) <= MAX_DEPTH
      ensures addr.Some? ==> Search(old(trees[i].bits), 0, DepthFor(size) - 1) == Some(x)
      ensures addr.Some? ==> DepthOf(x) == DepthFor(size) && FirstOf(old(trees[i].bits), DepthFor(size), x)
      ensures addr.Some? ==> forall j: nat, y :: j < i && DepthOf(y) == DepthFor(size) ==> !old(FreeBlock(j, y))
      ensures addr.Some? ==> size <= BlockEnd(i, x) - BlockStart(i, x) < 2 * size
    {
      DepthFits(size);
      var logsize := HighBit(size - 1) + 1;
      var depth := MAX_DEPTH - (logsize - 12);
      addr, i, x := BuddyAllocDepth(depth);
      if addr.Some? {
        addr := Some(DYNAMIC_MEMORY_BASE + addr.value);
        BlockAligned(i, x);
      }
    }

    /** Every block starts at a multiple of its size. */
    lemma BlockAligned(i: nat, x: nat)
      requires x < NODES
      ensures FitsSize(BlockStart(i, x), x)
    {
      NodesAreInTree(x);
      var k := BlockPlaced(x);
      var d := DepthOf(x);
      var size, n := BlockSize(d), Pow2(d - 1);
      RegionInBlocks(d);
      Regroup(size, n, i + 2, k);
      ModUnique(BlockStart(i, x), size, (i + 2) * n + k, 0);
    }

    /** The blocks of region i lie in the first memSize bytes exactly when the region does. */
    lemma RegionInMemory(i: nat, memSize: nat)
      ensures (forall x :: 0 <= x < NODES ==> BlockEnd(i, x) <= memSize) <==> MAX_REGION * (i + 3) <= memSize
    {
      forall x | 0 <= x < NODES ensures BlockEnd(i, x) <= MAX_REGION * (i + 3) {
        NodesAreInTree(x);
        var k := BlockPlaced(x);
      }
      RootBlock();
      assert BlockEnd(i, 0) == MAX_REGION * (i + 3);
    }

    /** init_buddy_system counts its regions from the memory size but lays them out from
        16 MB on, so with whole regions of memory exactly the last two lie beyond it. */
    lemma LastTwoRegionsBeyond(i: nat, memSize: nat)
      requires memSize % MAX_REGION == 0 && i < memSize / MAX_REGION
      ensures (forall x :: 0 <= x < NODES ==> BlockEnd(i, x) <= memSize) <==> i + 2 < memSize / MAX_REGION
      ensures i + 2 >= memSize / MAX_REGION ==> forall x :: 0 <= x < NODES ==> BlockStart(i, x) >= memSize
    {
      RegionInMemory(i, memSize);
    }

    /** Any two live blocks, of one region or of two, occupy disjoint addresses. */
    lemma LiveBlocksDisjoint(i: nat, x: nat, j: nat, y: nat)
      requires Valid() && (i, x) in LiveBlocks() && (j, y) in LiveBlocks() && (i, x) != (j, y)
      ensures BlockEnd(i, x) <= BlockStart(j, y) || BlockEnd(j, y) <= BlockStart(i, x)
    {
      NodesAreInTree(x);
      NodesAreInTree(y);
      if i == j {
        LiveAntichain(trees[i].bits, x, y);
        LiveAntichain(trees[i].bits, y, x);
        Apart(x, y);
      } else {
        var k := BlockPlaced(x);
        var l := BlockPlaced(y);
      }
    }

    lemma LeafOfBlock(addr: nat, i: nat, x: nat)
      requires Valid() && (i, x) in LiveBlocks() && BlockStart(i, x) <= addr < BlockEnd(i, x)
      ensures RegionOf(addr) == i && LeafOf(addr) < NODES && Anc(x, LeafOf(addr))
    {
      NodesAreInTree(x);
      var k := BlockPlaced(x);
      ModUnique(addr - DYNAMIC_MEMORY_BASE, MAX_REGION, i, addr - BlockStart(i, x) + Start(x));
      LookupMissesTree(addr);
      LeafBelow(addr, x);
    }

    /** The release half of buddy_free, from a leaf of the block. */
    method BuddyFree(i: nat, leaf: nat, ghost x: nat)
      requires Valid() && i < |trees| && leaf < NODES
      requires x in Live(trees[i].bits) && Anc(x, leaf)
      modifies repr
      ensures Valid()
      ensures LiveBlocks() == if x == 0 then old(LiveBlocks()) else old(LiveBlocks()) - {(i, x)}
      ensures forall k :: 0 <= k < |trees| && k != i ==> trees[k].bits == old(trees[k].bits)
      ensures trees[i].bits == if x == 0 then old(trees[i].bits) else Merge(old(trees[i].bits), x)
    {
      trees[i].FreeFromLeaf(leaf, x);
    }

    /** buddy_free with the corrected index LeafOf in place of the lookup as written. */
    method BuddyFreeAt(addr: nat, ghost i: nat, ghost x: nat)
      requires Valid() && (i, x) in LiveBlocks()
      requires BlockStart(i, x) <= addr < BlockEnd(i, x)
      modifies repr
      ensures Valid()
      ensures LiveBlocks() == if x == 0 then old(LiveBlocks()) else old(LiveBlocks()) - {(i, x)}
    {
      LeafOfBlock(addr, i, x);
      var id := RegionOf(addr);
      BuddyFree(id, LeafOf(addr), x);
    }

    constructor (count: nat)
      ensures Valid() && |trees| == count && LiveBlocks() == {} && fresh(repr)
      ensures forall i :: 0 <= i < count ==> trees[i].bits == Clear()
    {
      var made: seq<Tree> := [];
      ghost var objects: set<object> := {};
      for k := 0 to count
        invariant |made| == k && fresh(objects)
        invariant forall i :: 0 <= i < k ==> made[i] in objects && made[i].tree in objects
        invariant forall i :: 0 <= i < k ==> made[i].Valid() && made[i].bits == Clear()
        invariant forall i, j :: 0 <= i < j < k ==> made[i] != made[j] && made[i].tree != made[j].tree
      {
        var t := new Tree();
        made := made + [t];
        objects := objects + {t, t.tree};
      }
      trees, repr := made, objects;
    }
  }

  const MEM_LIMIT: nat := 0x1_0000_0000 - MAX_REGION

  /** Bytes of the allocator's own tables for count trees: two words and 512 bytes a tree, in whole pages. */
  function RequiredSize(count: nat): nat {
    (count * 512 + 8 + 4095) / 4096 * 4096
  }

  /** That is the least number of whole pages for two words and 512 bytes a tree. */
  lemma RequiredSizeLeast(count: nat)
    ensures RequiredSize(count) % 4096 == 0
    ensures 512 * count + 8 <= RequiredSize(count) < 512 * count + 8 + 4096
  {
  }

  lemma {:induction false} LeftmostStart(n: nat, k: nat)
    requires DepthOf(n) + k <= MAX_DEPTH
    ensures InTree(n) && InTree(Leftmost(n, k)) && Start(Leftmost(n, k)) == Start(n)
    decreases k
  {
    if k > 0 {
      assert P(LC(n)) == n && LC(n) % 2 == 1;
      LeftmostStart(LC(n), k - 1);
      ChildHalves(LC(n));
    }
  }

  /** In an empty tree the search takes the block at the very start of the region. */
  lemma FirstBlock(d: nat)
    requires 1 <= d <= MAX_DEPTH
    ensures var x := Leftmost(0, d - 1);
            && Search(Clear(), 0, d - 1) == Some(x) && InTree(x) && Start(x) == 0
            && DepthOf(x) == d && Free(Clear(), x)
  {
    LeftmostStart(0, d - 1);
    LeftmostBelow(0, d - 1);
    assert Live(Clear()) == {};
  }

  lemma TablesFit(memSize: nat)
    requires 0 < memSize <= MEM_LIMIT
    ensures var count := (memSize + MAX_REGION - 1) / MAX_REGION;
            && 0 < count && MAX_REGION * count >= memSize
            && 8 + 512 * count <= RequiredSize(count) <= MAX_REGION && RequiredSize(count) >= 4096
  {
  }

  /** init_buddy_system: the first block reserved starts at the allocator's tables
      and covers them, so by LiveBlocksDisjoint no later block meets them. */
  method InitBuddySystem(memSize: nat) returns (bs: System, ghost x: nat)
    requires 0 < memSize <= MEM_LIMIT
    ensures bs.Valid() && fresh(bs) && fresh(bs.repr)
    ensures x < NODES && bs.LiveBlocks() == {(0, x)}
    ensures MAX_REGION * |bs.trees| >= memSize
    ensures bs.BlockStart(0, x) == DYNAMIC_MEMORY_BASE
    ensures |bs.trees| == (memSize + MAX_REGION - 1) / MAX_REGION
    ensures bs.BlockEnd(0, x) >= DYNAMIC_MEMORY_BASE + 8 + 512 * |bs.trees|
    ensures bs.BlockEnd(0, x) < DYNAMIC_MEMORY_BASE + 2 * RequiredSize(|bs.trees|)
    ensures DepthOf(x) == DepthFor(RequiredSize(|bs.trees|))
  {
    var count := (memSize + MAX_REGION - 1) / MAX_REGION;
    var required := RequiredSize(count);
    TablesFit(memSize);
    bs := new System(count);
    DepthFits(required);
    var d := DepthFor(required);
    FirstBlock(d);
    ghost var first := Leftmost(0, d - 1);
    assert bs.FreeBlock(0, first);
    var addr;
    ghost var i;
    addr, i, x := bs.BuddyAlloc(required);
    assert i == 0 && x == first;
  }
}
