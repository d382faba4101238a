/** The allocation half of kernel/memory.c: pages of 511 eight-byte slabs, each with
    a packed bitmap and a free count that is never too small, searched first fit. */
module SlabAllocator {
  import opened Wrappers
  import opened BitWords

  const SLABS_PER_BLOCK: nat := 511
  const BITMAP_SIZE: nat := 64
  const SLAB_SIZE: nat := 8
  const ALLOC_HEADER_SIZE: nat := 1

  // ---------------------------------------------------------------- runs of clear slabs

  /** Slabs base..base + count are there and clear. */
  ghost predicate ClearRun(b: seq<bool>, base: nat, count: nat) {
    base + count <= |b| && forall i :: base <= i < base + count ==> !b[i]
  }

  ghost predicate HasRun(b: seq<bool>, count: nat) {
    exists base :: ClearRun(b, base, count)
  }

  /** base is the lowest place for count slabs. */
  ghost predicate FirstFit(b: seq<bool>, base: nat, count: nat) {
    ClearRun(b, base, count) && forall lower :: 0 <= lower < base ==> !ClearRun(b, lower, count)
  }

  /** b with slabs begin..end set. */
  ghost function Marked(b: seq<bool>, begin: nat, end: nat): seq<bool> {
    seq(|b|, i requires 0 <= i < |b| => b[i] || begin <= i < end)
  }

  ghost function ClearCount(b: seq<bool>): nat {
    if b == [] then 0 else ClearCount(b[..|b| - 1]) + if b[|b| - 1] then 0 else 1
  }

  lemma {:induction false} ClearCountSplit(b: seq<bool>, c: seq<bool>)
    ensures ClearCount(b + c) == ClearCount(b) + ClearCount(c)
  {
    if c == [] {
      assert b + c == b;
    } else {
      assert (b + c)[..|b + c| - 1] == b + c[..|c| - 1];
      ClearCountSplit(b, c[..|c| - 1]);
    }
  }

  lemma ClearCountThree(lo: seq<bool>, mid: seq<bool>, hi: seq<bool>)
    ensures ClearCount(lo + mid + hi) == ClearCount(lo) + ClearCount(mid) + ClearCount(hi)
  {
    ClearCountSplit(lo + mid, hi);
    ClearCountSplit(lo, mid);
  }

  lemma {:induction false} ClearCountAll(b: seq<bool>)
    ensures ClearCount(b) <= |b|
    ensures (forall i :: 0 <= i < |b| ==> !b[i]) ==> ClearCount(b) == |b|
    ensures (forall i :: 0 <= i < |b| ==> b[i]) ==> ClearCount(b) == 0
  {
    if b != [] {
      ClearCountAll(b[..|b| - 1]);
    }
  }

  /** A run needs as many clear slabs, so a node the free-count filter skips has none. */
  lemma RunNeedsClear(b: seq<bool>, base: nat, count: nat)
    requires ClearRun(b, base, count)
    ensures ClearCount(b) >= count
  {
    assert b == b[..base] + b[base..base + count] + b[base + count..];
    ClearCountThree(b[..base], b[base..base + count], b[base + count..]);
    ClearCountAll(b[base..base + count]);
  }

  /** Marking a clear run lowers the number of clear slabs by its length. */
  lemma MarkedCount(b: seq<bool>, base: nat, count: nat)
    requires ClearRun(b, base, count)
    ensures ClearCount(Marked(b, base, base + count)) == ClearCount(b) - count
  {
    var m := Marked(b, base, base + count);
    var lo, mid, hi := b[..base], b[base..base + count], b[base + count..];
    assert b == lo + mid + hi && m == lo + m[base..base + count] + hi;
    ClearCountThree(lo, mid, hi);
    ClearCountThree(lo, m[base..base + count], hi);
    ClearCountAll(mid);
    ClearCountAll(m[base..base + count]);
  }

  // ---------------------------------------------------------------- one page

  class MemListNode {
    var next: MemListNode?
    var freeSlabs: nat
    const bitmap: array<bv8>
    ghost var bits: seq<bool>

    ghost predicate Valid()
      reads `bits, bitmap
    {
      |bits| == SLABS_PER_BLOCK && bitmap.Length == BITMAP_SIZE && Packed8(bitmap[..], bits)
    }

    /** The free count is never smaller than the number of clear slabs. */
    ghost predicate Counted()
      reads `freeSlabs, `bits
    {
      ClearCount(bits) <= freeSlabs
    }

    /** create_mem_list_node, but for linking the page into the list. */
    constructor ()
      ensures Valid() && Counted() && fresh(bitmap) && freeSlabs == SLABS_PER_BLOCK
      ensures bits == seq(SLABS_PER_BLOCK, i => false)
    {
      bitmap := new bv8[BITMAP_SIZE](_ => 0);
      freeSlabs, next := SLABS_PER_BLOCK, null;
      bits := seq(SLABS_PER_BLOCK, i => false);
      new;
      ClearCountAll(bits);
    }

    method BitmapIsSet(slab: nat) returns (r: bool)
      requires Valid() && slab < SLABS_PER_BLOCK
      ensures r == bits[slab] == ((bitmap[slab / 8] >> (slab % 8)) & 1 == 1)
    {
      var idx, bit := slab / 8, slab % 8;
      r := bitmap[idx] & Mask8(bit) != 0;
      TestBit8(bitmap[idx], bit);
      assert r == BitAt8(bitmap[..], slab);
    }

    method BitmapSet(slab: nat)
      requires Valid() && slab < SLABS_PER_BLOCK
      modifies `bits, bitmap
      ensures Valid() && bits == old(bits)[slab := true]
    {
      var idx, bit := slab / 8, slab % 8;
      var w := WriteBit8(bitmap[idx], bit, true);
      PackedUpdate8(bitmap[..], bits, slab, w, true);
      bitmap[idx] := w;
      bits := bits[slab := true];
      assert bitmap[..] == old(bitmap[..])[idx := w];
    }

    /** mem_list_mark_nodes */
    method MemListMarkNodes(begin: nat, end: nat)
      requires Valid() && begin <= end <= SLABS_PER_BLOCK
      modifies `bits, bitmap
      ensures Valid() && bits == Marked(old(bits), begin, end)
    {
      assert bits == Marked(bits, begin, begin);
      for i := begin to end
        invariant Valid() && bits == Marked(old(bits), begin, i)
      {
        BitmapSet(i);
      }
    }

    /** The first slabs of a page nobody has taken from. */
    method TakeFirst(count: nat)
      requires Valid() && bits == seq(SLABS_PER_BLOCK, i => false) && freeSlabs == SLABS_PER_BLOCK
      requires count <= SLABS_PER_BLOCK
      modifies `freeSlabs, `bits, bitmap
      ensures Valid() && Counted() && bits == Marked(old(bits), 0, count)
    {
      ghost var clear := bits;
      freeSlabs := freeSlabs - count;
      MemListMarkNodes(0, count);
      MarkedCount(clear, 0, count);
      ClearCountAll(clear);
    }

    /** find_cont_slabs_node: reserve the lowest run of count clear slabs, or change nothing. */
    method FindContSlabsNode(count: nat) returns (base: Option<nat>)
      requires Valid() && count > 0
      modifies `bits, bitmap
      ensures Valid() && (old(Counted()) ==> Counted())
      ensures base == None ==> !HasRun(bits, count) && bits == old(bits)
      ensures base.Some? ==> FirstFit(old(bits), base.value, count)
      ensures base.Some? ==> bits == Marked(old(bits), base.value, base.value + count)
    {
      var slabBase, slabLen := 0, 0;
      for i := 0 to SLABS_PER_BLOCK
        invariant Valid() && bits == old(bits)
        invariant slabBase + slabLen == i && slabLen < count
        invariant forall j :: slabBase <= j < i ==> !bits[j]
        invariant slabBase > 0 ==> bits[slabBase - 1]
        invariant forall lower: nat :: lower + count <= i ==> !ClearRun(bits, lower, count)
      {
        var isSet := BitmapIsSet(i);
        if isSet {
          slabLen := 0;
          slabBase := i + 1;
          continue;
        }
        slabLen := slabLen + 1;
        if slabLen == count {
          MarkedCount(bits, slabBase, count);
          MemListMarkNodes(slabBase, slabBase + slabLen);
          return Some(slabBase);
        }
      }
      base := None;
    }
  }

  // ---------------------------------------------------------------- the list of pages

  /** Slabs base..base + count of one page, handed out. */
  datatype Block = Block(node: MemListNode, base: nat, count: nat)

  ghost predicate Disjoint(x: Block, y: Block) {
    x.node != y.node || x.base + x.count <= y.base || y.base + y.count <= x.base
  }

  ghost predicate Covered(blocks: seq<Block>, n: MemListNode, i: nat) {
    exists k :: 0 <= k < |blocks| && blocks[k].node == n && blocks[k].base <= i < blocks[k].base + blocks[k].count
  }

  /** The marked slabs are exactly those of the blocks handed out, and no two blocks overlap. */
  ghost predicate Accounted(bitsOf: map<MemListNode, seq<bool>>, blocks: seq<Block>) {
    && (forall k :: 0 <= k < |blocks| ==>
          blocks[k].node in bitsOf && 0 < blocks[k].count && blocks[k].base + blocks[k].count <= |bitsOf[blocks[k].node]|)
    && (forall k, l :: 0 <= k < l < |blocks| ==> Disjoint(blocks[k], blocks[l]))
    && (forall n, i: nat :: n in bitsOf && i < |bitsOf[n]| ==> (bitsOf[n][i] <==> Covered(blocks, n, i)))
  }

  lemma NewPage(bitsOf: map<MemListNode, seq<bool>>, blocks: seq<Block>, n: MemListNode, b: seq<bool>)
    requires Accounted(bitsOf, blocks) && n !in bitsOf && forall i :: 0 <= i < |b| ==> !b[i]
    ensures Accounted(bitsOf[n := b], blocks)
  {
  }

  /** Handing out a clear run keeps the accounts. */
  lemma TakeRun(bitsOf: map<MemListNode, seq<bool>>, blocks: seq<Block>, x: Block)
    requires Accounted(bitsOf, blocks) && x.node in bitsOf && 0 < x.count && ClearRun(bitsOf[x.node], x.base, x.count)
    ensures Accounted(bitsOf[x.node := Marked(bitsOf[x.node], x.base, x.base + x.count)], blocks + [x])
  {
    var bitsOf', blocks' := bitsOf[x.node := Marked(bitsOf[x.node], x.base, x.base + x.count)], blocks + [x];
    forall k | 0 <= k < |blocks| ensures Disjoint(blocks[k], x) {
      var y := blocks[k];
      var i := if y.base < x.base then x.base else y.base;
      assert i < y.base + y.count ==> Covered(blocks, y.node, i);
    }
    forall n, i: nat | n in bitsOf' && i < |bitsOf'[n]| ensures bitsOf'[n][i] <==> Covered(blocks', n, i) {
      if Covered(blocks, n, i) {
        var k :| 0 <= k < |blocks| && blocks[k].node == n && blocks[k].base <= i < blocks[k].base + blocks[k].count;
        assert blocks'[k] == blocks[k];
      }
      if n == x.node && x.base <= i < x.base + x.count {
        assert blocks'[|blocks|] == x;
      }
      assert bitsOf[n][i] <==> Covered(blocks, n, i);
    }
  }

  ghost function First(q: seq<MemListNode>, i: nat): MemListNode? {
    if i < |q| then q[i] else null
  }

  ghost predicate Linked(q: seq<MemListNode>, head: MemListNode?)
    reads q
  {
    && head == First(q, 0)
    && (forall i {:trigger q[i].next} :: 0 <= i < |q| ==> q[i].next == First(q, i + 1))
  }

  class FreeList {
    var head: MemListNode?
    ghost var nodes: seq<MemListNode>
    ghost var repr: set<object>
    ghost var blocks: seq<Block>

    ghost predicate Shape()
      reads `head, `nodes, `repr, repr
    {
      && this !in repr
      && (forall i :: 0 <= i < |nodes| ==> nodes[i] in repr && nodes[i].bitmap in repr && nodes[i].Valid() && nodes[i].Counted())
      && (forall i, j :: 0 <= i < j < |nodes| ==> nodes[i] != nodes[j] && nodes[i].bitmap != nodes[j].bitmap)
      && Linked(nodes, head)
    }

    ghost function BitsOf(): map<MemListNode, seq<bool>>
      requires forall i :: 0 <= i < |nodes| ==> nodes[i] in repr
      reads `nodes, `repr, repr
    {
      map n | n in nodes :: n.bits
    }

    ghost predicate Valid()
      reads `head, `nodes, `repr, `blocks, repr
    {
      Shape() && Accounted(BitsOf(), blocks)
    }

    constructor ()
      ensures Valid() && nodes == [] && blocks == [] && fresh(repr)
    {
      head, nodes, repr, blocks := null, [], {}, [];
    }

    /** No page before index k has room. */
    ghost predicate NoRoomBefore(k: nat, count: nat)
      requires Shape() && k <= |nodes|
      reads `head, `nodes, `repr, repr
    {
      forall i :: 0 <= i < k ==> !HasRun(nodes[i].bits, count)
    }

    /** One page of the search: the filter, then the run search. */
    method TryPage(it: MemListNode, count: nat, ghost at: nat) returns (slab: Option<nat>)
      requires Shape() && count > 0 && at < |nodes| && it == nodes[at]
      modifies repr
      ensures Shape()
      ensures slab == None ==> BitsOf() == old(BitsOf()) && !HasRun(it.bits, count)
      ensures slab.Some? ==> FirstFit(old(it.bits), slab.value, count)
      ensures slab.Some? ==> BitsOf() == old(BitsOf())[it := Marked(old(it.bits), slab.value, slab.value + count)]
    {
      if it.freeSlabs < count {
        FilterIsSafe(it.bits, it.freeSlabs, count);
        return None;
      }
      slab := it.FindContSlabsNode(count);
    }

    /** find_cont_slabs: first fit in the first page that has room; the free-count
        filter never skips such a page. */
    method FindContSlabs(count: nat) returns (node: MemListNode?, base: nat, ghost at: nat)
      requires Shape() && count > 0
      modifies repr
      ensures Shape() && at <= |nodes| && old(NoRoomBefore(at, count)) && node == First(nodes, at)
      ensures node == null ==> BitsOf() == old(BitsOf())
      ensures node != null ==> FirstFit(old(nodes[at].bits), base, count)
      ensures node != null ==> BitsOf() == old(BitsOf())[nodes[at] := Marked(old(nodes[at].bits), base, base + count)]
    {
      var it := head;
      base, at := 0, 0;
      while it != null
        invariant Shape() && at <= |nodes| && it == First(nodes, at)
        invariant BitsOf() == old(BitsOf())
        invariant old(NoRoomBefore(at, count))
        decreases |nodes| - at
      {
        assert old(BitsOf())[nodes[at]] == old(nodes[at].bits) == BitsOf()[nodes[at]] == it.bits;
        var slab := TryPage(it, count, at);
        if slab.Some? {
          return it, slab.value, at;
        }
        assert it.bits == BitsOf()[it];
        it := it.next;
        at := at + 1;
      }
      node := null;
    }

    /** create_mem_list_node: a fresh page at the head of the list. */
    method CreateMemListNode() returns (node: MemListNode)
      requires Shape()
      modifies `head, `nodes, `repr
      ensures Shape() && nodes == [node] + old(nodes) && fresh(node) && fresh(node.bitmap) && fresh(repr - old(repr))
      ensures node.freeSlabs == 511 && node.bits == seq(511, i => false)
    {
      ghost var q := nodes;
      node := new MemListNode();
      node.next := head;
      assert Linked(q, node.next) && Linked([node] + q, node);
      head := node;
      nodes := [node] + nodes;
      repr := repr + {node, node.bitmap};
    }

    /** A new page with its first count slabs taken. */
    method CreateWithSlabs(count: nat) returns (node: MemListNode)
      requires Shape() && 0 < count <= SLABS_PER_BLOCK
      modifies `head, `nodes, `repr
      ensures Shape() && nodes == [node] + old(nodes) && fresh(node) && fresh(repr - old(repr))
      ensures BitsOf() == old(BitsOf())[node := Marked(seq(SLABS_PER_BLOCK, i => false), 0, count)]
    {
      node := CreateMemListNode();
      node.TakeFirst(count);
    }

    /** Enter a block whose slabs have just been marked into the accounts. */
    ghost method Record(before: map<MemListNode, seq<bool>>, x: Block)
      requires Shape() && Accounted(before, blocks) && x.node in before && x.count > 0
      requires ClearRun(before[x.node], x.base, x.count)
      requires BitsOf() == before[x.node := Marked(before[x.node], x.base, x.base + x.count)]
      modifies `blocks
      ensures Valid() && blocks == old(blocks) + [x]
    {
      TakeRun(before, blocks, x);
      blocks := blocks + [x];
    }

    /** The branch of find_create_cont_slabs for a full list. */
    method AddPage(count: nat) returns (node: MemListNode)
      requires Valid() && 0 < count <= SLABS_PER_BLOCK
      modifies `head, `nodes, `repr, `blocks
      ensures Valid() && blocks == old(blocks) + [Block(node, 0, count)]
      ensures nodes == [node] + old(nodes) && fresh(node) && fresh(repr - old(repr))
    {
      ghost var before, clear := BitsOf(), seq(SLABS_PER_BLOCK, i => false);
      node := CreateWithSlabs(count);
      NewPage(before, blocks, node, clear);
      Record(before[node := clear], Block(node, 0, count));
    }

    /** find_create_cont_slabs: slabs no other block holds, taken first fit; a new
        page is made exactly when no page has room. */
    method FindCreateContSlabs(count: nat) returns (node: MemListNode, base: nat)
      requires Valid() && 0 < count <= SLABS_PER_BLOCK
      modifies `head, `nodes, `repr, `blocks, repr
      ensures Valid() && blocks == old(blocks) + [Block(node, base, count)] && fresh(repr - old(repr))
      ensures fresh(node) <==> old(NoRoomBefore(|nodes|, count))
      ensures fresh(node) ==> nodes == [node] + old(nodes) && base == 0
      ensures !fresh(node) ==>
                exists at :: 0 <= at < |old(nodes)| && old(nodes)[at] == node &&
                             FirstFit(old(nodes[at].bits), base, count) && old(NoRoomBefore(at, count))
    {
      ghost var before := BitsOf();
      var found: MemListNode?;
      ghost var at;
      found, base, at := FindContSlabs(count);
      if found != null {
        node := found;
        assert before[node] == old(nodes[at].bits);
        Record(before, Block(node, base, count));
      } else {
        node := AddPage(count);
        base := 0;
      }
    }

    /** allocate_slabs: a header slab and enough slabs for size bytes, disjoint from
        every block handed out before; the header records how many, and the caller's
        bytes start at slab start. */
    method AllocateSlabs(size: nat) returns (node: MemListNode, start: nat, headerCount: nat)
      requires Valid() && size <= 2048
      modifies `head, `nodes, `repr, `blocks, repr
      ensures Valid() && |blocks| == |old(blocks)| + 1 && blocks[..|old(blocks)|] == old(blocks)
      ensures fresh(repr - old(repr))
      ensures var x := blocks[|old(blocks)|];
              && x.node == node && start == x.base + 1 && headerCount == x.count
              && size <= 8 * (x.base + x.count - start) < size + 8
              && forall k :: 0 <= k < |old(blocks)| ==> Disjoint(old(blocks)[k], x)
      ensures fresh(node) <==> old(NoRoomBefore(|nodes|, headerCount))
      ensures fresh(node) ==> nodes == [node] + old(nodes) && start == 1
      ensures !fresh(node) ==>
                exists at :: 0 <= at < |old(nodes)| && old(nodes)[at] == node &&
                             FirstFit(old(nodes[at].bits), start - 1, headerCount)
    {
      var slabCount := (size + SLAB_SIZE - 1) / SLAB_SIZE + ALLOC_HEADER_SIZE;
      var base;
      node, base := FindCreateContSlabs(slabCount);
      headerCount := slabCount;
      start := base + ALLOC_HEADER_SIZE;
    }
  }

  // ------------------------------------------------------------ addresses in a page

  /** Link, free count and bitmap before the slabs of struct mem_list_node. */
  const NODE_HEADER: nat := 4 + 4 + BITMAP_SIZE

  /** addr_from_slab_id, relative to the page. */
  function SlabOffset(slab: nat): nat { NODE_HEADER + SLAB_SIZE * slab }

  /** The node is larger than the page it is placed in: a block ends inside the page if
      and only if it does not use the last eight slabs, and any other block reaches
      into the header of a node in the page behind. */
  lemma InsidePage(base: nat, count: nat)
    requires count > 0 && base + count <= SLABS_PER_BLOCK
    ensures SlabOffset(base) == 72 + 8 * base && SlabOffset(base + count) == 72 + 8 * (base + count)
    ensures SlabOffset(base + count) <= 4096 <==> base + count <= 503
    ensures SlabOffset(base) < 4096 + 72 && 4096 < SlabOffset(base + count) <==> base + count > 503
  {
  }

  /** Two requests of 2048 and 2024 bytes on an empty list: the second gets the rest of
      the page, and so leaves it. */
  method SecondLeavesPage() returns (list: FreeList)
    ensures list.Valid() && |list.blocks| == 2
    ensures list.blocks[1].node == list.blocks[0].node
    ensures SlabOffset(list.blocks[1].base + list.blocks[1].count) > 4096
  {
    var first;
    list, first := FirstOnPage();
    RestHasRoom(list, first);
    ghost var was := list.blocks;
    var second, start, count := list.AllocateSlabs(2024);
    assert second == first && list.blocks[0] == was[0];
  }

  method FirstOnPage() returns (list: FreeList, first: MemListNode)
    ensures fresh(list) && list.Valid() && fresh(list.repr)
    ensures list.nodes == [first] && list.blocks == [Block(first, 0, 257)]
  {
    list := new FreeList();
    var start, count;
    first, start, count := list.AllocateSlabs(2048);
  }

  lemma RestHasRoom(list: FreeList, first: MemListNode)
    requires list.Valid() && list.nodes == [first] && list.blocks == [Block(first, 0, 257)]
    ensures !list.NoRoomBefore(1, 254) && forall i :: 0 <= i < 257 ==> first.bits[i]
  {
    var bits := first.bits;
    forall i | 0 <= i < SLABS_PER_BLOCK ensures bits[i] <==> i < 257 {
      assert list.BitsOf()[first][i] <==> Covered(list.blocks, first, i);
      assert list.blocks[0] == Block(first, 0, 257);
    }
    assert ClearRun(bits, 257, 254);
  }

  lemma FilterIsSafe(b: seq<bool>, freeSlabs: nat, count: nat)
    requires ClearCount(b) <= freeSlabs < count
    ensures !HasRun(b, count)
  {
    forall base: nat | ClearRun(b, base, count) ensures false {
      RunNeedsClear(b, base, count);
    }
  }
}
