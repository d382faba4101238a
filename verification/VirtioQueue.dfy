/** The driver's half of a virtqueue (kernel/drivers/virtio/virtio_queue.c): a
    circular table of descriptors and the ring of available heads.  A descriptor
    chain is read as section 2.4.5 of VIRTIO 1.0 defines it. */
module VirtioQueue {
  import opened Wrappers
  import opened Mods
  import S = Scatterlist

  const U16: nat := 0x1_0000

  /** struct virtq_desc; more and write are VIRTQ_DESC_F_NEXT and VIRTQ_DESC_F_WRITE. */
  datatype Desc = Desc(addr: bv32, len: bv32, write: bool, more: bool, next: nat)

  /** struct virtq_used_elem */
  datatype UsedElem = UsedElem(id: nat, len: bv32)

  /** The index j places after h in a table of n. */
  function Wrap(h: nat, j: nat, n: nat): nat {
    if h + j < n then h + j else h + j - n
  }

  lemma NextIndex(b: nat, n: nat)
    requires b < n
    ensures (b + 1) % n == Wrap(b, 1, n)
  {
  }

  /** What a device reads from head at on, following at most fuel descriptors. */
  ghost function ReadChain(d: seq<Desc>, at: nat, fuel: nat): seq<S.Segment>
    decreases fuel
  {
    if fuel == 0 || at >= |d| then []
    else
      [S.Segment(d[at].addr, d[at].len, d[at].write)] +
      if d[at].more then ReadChain(d, d[at].next, fuel - 1) else []
  }

  /** Descriptor number j of a chain for segments, linked on to the next place. */
  ghost predicate Written(d: Desc, x: S.Segment, next: nat, more: bool) {
    d == Desc(x.buffer, x.len, x.flag, more, next)
  }

  /** The places from h on hold a chain for segments, the last of them ending it. */
  ghost predicate ChainAt(d: seq<Desc>, h: nat, segments: seq<S.Segment>)
    requires h < |d| && |segments| <= |d|
  {
    forall j :: 0 <= j < |segments| ==>
      Written(d[Wrap(h, j, |d|)], segments[j], Wrap(Wrap(h, j, |d|), 1, |d|), j < |segments| - 1)
  }

  /** Read from its head, a chain gives back exactly its segments in order. */
  lemma {:induction false} ReadBack(d: seq<Desc>, h: nat, segments: seq<S.Segment>, j: nat, fuel: nat)
    requires h < |d| && |segments| <= |d| && ChainAt(d, h, segments)
    requires j < |segments| && |segments| - j <= fuel
    ensures ReadChain(d, Wrap(h, j, |d|), fuel) == segments[j..]
    decreases |segments| - j
  {
    var n, i := |d|, Wrap(h, j, |d|);
    assert Written(d[i], segments[j], Wrap(i, 1, n), j < |segments| - 1);
    NextPlace(h, j, n);
    if j < |segments| - 1 {
      ReadBack(d, h, segments, j + 1, fuel - 1);
      assert ReadChain(d, i, fuel) == [segments[j]] + ReadChain(d, Wrap(h, j + 1, n), fuel - 1);
      assert segments[j..] == [segments[j]] + segments[j + 1..];
    } else {
      assert segments[j..] == [segments[j]];
    }
  }

  lemma NextPlace(h: nat, j: nat, n: nat)
    requires h < n && j < n
    ensures Wrap(h, j, n) < n && (j + 1 < n ==> Wrap(Wrap(h, j, n), 1, n) == Wrap(h, j + 1, n))
  {
  }

  /** The first k places from h on hold linked descriptors for the first k segments,
      and no other place differs from d0. */
  ghost predicate Filled(d0: seq<Desc>, d: seq<Desc>, h: nat, segments: seq<S.Segment>, k: nat)
    requires h < |d| == |d0| && k <= |segments| <= |d|
  {
    && (forall j :: 0 <= j < k ==> Written(d[Wrap(h, j, |d|)], segments[j], Wrap(Wrap(h, j, |d|), 1, |d|), true))
    && Untouched(d0, d, h, k)
  }

  ghost predicate Untouched(d0: seq<Desc>, d: seq<Desc>, h: nat, k: nat)
    requires |d| == |d0|
  {
    forall i :: 0 <= i < |d| && Outside(i, h, k, |d|) ==> d[i] == d0[i]
  }

  /** i is none of the k places from h on in a table of n. */
  predicate Outside(i: nat, h: nat, k: nat, n: nat) {
    if h + k <= n then i < h || h + k <= i else h + k - n <= i < h
  }

  lemma FillNext(d0: seq<Desc>, d: seq<Desc>, h: nat, segments: seq<S.Segment>, k: nat)
    requires h < |d| == |d0| && k < |segments| <= |d| && Filled(d0, d, h, segments, k)
    ensures var at := Wrap(h, k, |d|);
            var x := segments[k];
            Filled(d0, d[at := Desc(x.buffer, x.len, x.flag, true, Wrap(at, 1, |d|))], h, segments, k + 1)
  {
  }

  lemma EndChain(d0: seq<Desc>, d: seq<Desc>, h: nat, segments: seq<S.Segment>)
    requires h < |d| == |d0| && 0 < |segments| <= |d| && Filled(d0, d, h, segments, |segments|)
    ensures var last := Wrap(h, |segments| - 1, |d|);
            var d' := d[last := d[last].(more := false)];
            ChainAt(d', h, segments) && Untouched(d0, d', h, |segments|)
  {
    var last := Wrap(h, |segments| - 1, |d|);
    assert Written(d[last], segments[|segments| - 1], Wrap(last, 1, |d|), true);
  }

  // ---------------------------------------------------------------- memory layout

  function AlignUp(x: nat): nat { (x + 4095) / 4096 * 4096 }

  lemma AlignUpNear(x: nat)
    ensures x <= AlignUp(x) < x + 4096 && AlignUp(x) % 4096 == 0
  {
  }

  lemma AlignUpShift(base: nat, x: nat)
    requires base % 4096 == 0
    ensures AlignUp(base + x) == base + AlignUp(x)
  {
  }

  /** virtq_size: descriptors and available ring, then the used ring, in whole pages. */
  function VirtqSize(len: nat): nat {
    AlignUp(16 * len + 2 * (3 + len)) + AlignUp(2 * 3 + 8 * len)
  }

  /** Where virtio_create_queue puts the available and the used ring. */
  function AvailAt(base: nat, len: nat): nat { base + 16 * len }

  function UsedAt(base: nat, len: nat): nat { AlignUp(AvailAt(base, len) + 4 + 2 * len + 2) }

  lemma SumAligned(a: nat, b: nat)
    requires a % 4096 == 0 && b % 4096 == 0
    ensures (a + b) % 4096 == 0
  {
  }

  lemma AvailIsEven(base: nat, len: nat)
    requires base % 4096 == 0
    ensures AvailAt(base, len) % 2 == 0
  {
    var q := base / 4096;
    assert base == q * 4096;
    ModUnique(base + 16 * len, 2, 2048 * q + 8 * len, 0);
  }

  /** In the pages obtained, the 16-byte descriptors lie first, the available ring (two
      words, len entries and the event word) right behind them, the used ring (likewise,
      with 8-byte entries) on the first page boundary behind that, aligned as section 2.4
      of VIRTIO 1.0 asks; and virtq_size is the least number of whole pages that holds
      them. */
  lemma TablesFit(base: nat, len: nat, avail: nat, used: nat, size: nat)
    requires base % 4096 == 0
    requires avail == AvailAt(base, len) && used == UsedAt(base, len) && size == VirtqSize(len)
    ensures avail == base + 16 * len && avail % 2 == 0
    ensures used % 4096 == 0 && avail + 6 + 2 * len <= used < avail + 6 + 2 * len + 4096
    ensures size % 4096 == 0 && used + 6 + 8 * len <= base + size < used + 6 + 8 * len + 4096
  {
    var x, y := 16 * len + 2 * (3 + len), 2 * 3 + 8 * len;
    AlignUpNear(x);
    AlignUpNear(y);
    AvailIsEven(base, len);
    var ax, ay := AlignUp(x), AlignUp(y);
    AlignUpShift(base, x);
    assert used == base + ax && size == ax + ay;
    SumAligned(base, ax);
    SumAligned(ax, ay);
  }

  class Queue {
    const size: nat
    const desc: array<Desc>
    const availRing: array<nat>
    var availIdx: nat
    var nextBuffer: nat
    var numAdded: nat
    const usedRing: array<UsedElem>
    var usedIdx: nat
    var lastBufferSeen: nat
    /** Every single buffer sent so far, and every length the device has reported. */
    ghost var sent: seq<bv32>
    ghost var reported: seq<bv32>

    ghost predicate Tables() {
      0 < size < U16 && desc.Length == size && availRing.Length == size && usedRing.Length == size
    }

    ghost predicate Valid()
      reads `availIdx, `usedIdx, `lastBufferSeen, `numAdded, `nextBuffer
    {
      && Tables() && availIdx < U16 && usedIdx < U16 && lastBufferSeen < U16 && numAdded < U16 && nextBuffer < size
    }

    /** virtio_create_queue: zeroed tables, the descriptors linked in a circle. */
    constructor (len: nat)
      requires 0 < len < U16
      ensures Valid() && size == len && InStep() && Fifo() && sent == [] && reported == []
      ensures fresh(desc) && fresh(availRing) && fresh(usedRing)
      ensures forall i :: 0 <= i < len ==> desc[i] == Desc(0, 0, false, false, Wrap(i, 1, len))
      ensures availIdx == 0 && nextBuffer == 0 && forall i :: 0 <= i < len ==> availRing[i] == 0
    {
      var d := new Desc[len](_ => Desc(0, 0, false, false, 0));
      for i := 0 to len
        invariant forall j :: 0 <= j < i ==> d[j] == Desc(0, 0, false, false, j + 1)
        invariant forall j :: i <= j < len ==> d[j] == Desc(0, 0, false, false, 0)
      {
        d[i] := d[i].(next := i + 1);
      }
      d[len - 1] := d[len - 1].(next := 0);
      size, desc := len, d;
      availRing := new nat[len](_ => 0);
      usedRing := new UsedElem[len](_ => UsedElem(0, 0));
      availIdx, nextBuffer, numAdded, usedIdx, lastBufferSeen := 0, 0, 0, 0, 0;
      sent, reported := [], [];
      SmallMod(0, len);
      SmallMod(0, U16);
    }

    /** The loop body of virtio_queue_enqueue: segment k into its descriptor. */
    method PutDesc(at: nat, buffer: bv32, len: bv32, direction: bool,
                   ghost d0: seq<Desc>, ghost h: nat, ghost segments: seq<S.Segment>, ghost k: nat, ghost total: nat)
      returns (next: nat)
      requires Valid() && h < size == |d0| && k < |segments| <= size && Filled(d0, desc[..], h, segments, k)
      requires at == Wrap(h, k, size) && segments[k] == S.Segment(buffer, len, direction) && numAdded == total % U16
      modifies `numAdded, desc
      ensures Valid() && next == Wrap(h, k + 1, size) && Filled(d0, desc[..], h, segments, k + 1)
      ensures numAdded == (total + 1) % U16
    {
      NextIndex(at, size);
      AddMod(total, 1, U16);
      FillNext(d0, desc[..], h, segments, k);
      next := (at + 1) % size;
      ghost var d := desc[..];
      desc[at] := Desc(buffer, len, direction, true, next);
      assert desc[..] == d[at := desc[at]];
      numAdded := (numAdded + 1) % U16;
    }

    /** Clear VIRTQ_DESC_F_NEXT in the last descriptor written. */
    method EndAt(at: nat, ghost d0: seq<Desc>, ghost h: nat, ghost segments: seq<S.Segment>)
      requires Valid() && h < size == |d0| && 0 < |segments| <= size && at == Wrap(h, |segments| - 1, size)
      requires Filled(d0, desc[..], h, segments, |segments|)
      modifies desc
      ensures ChainAt(desc[..], h, segments) && Untouched(d0, desc[..], h, |segments|)
    {
      EndChain(d0, desc[..], h, segments);
      ghost var d := desc[..];
      desc[at] := desc[at].(more := false);
      assert desc[..] == d[at := desc[at]];
    }

    /** The iterator stands on entry k, if there is one. */
    ghost predicate AtEntry(it: S.Iterator, segments: seq<S.Segment>, k: nat, more: bool)
      reads it, it.entries
    {
      && it.Valid() && (more <==> k < |segments|)
      && (more ==> it.pos == k && segments[k] == S.Segment(it.buffer, it.len, S.Flag0(it.userFlags)))
    }

    /** The loop body: the iterator's segment into its descriptor, then on to the next. */
    method PutNext(it: S.Iterator, at: nat, ghost d0: seq<Desc>, ghost h: nat, ghost segments: seq<S.Segment>,
                   ghost k: nat, ghost total: nat)
      returns (next: nat, more: bool)
      requires Valid() && h < size == |d0| && k < |segments| <= size && Filled(d0, desc[..], h, segments, k)
      requires at == Wrap(h, k, size) && numAdded == total % U16
      requires AtEntry(it, segments, k, true) && S.WellMarked(it.content) && segments == S.Segments(it.content)
      requires it.entries as object != desc
      modifies `numAdded, desc, it
      ensures Valid() && next == Wrap(h, k + 1, size) && Filled(d0, desc[..], h, segments, k + 1)
      ensures numAdded == (total + 1) % U16 && AtEntry(it, segments, k + 1, more)
    {
      next := PutDesc(at, it.buffer, it.len, S.Flag0(it.userFlags), d0, h, segments, k, total);
      more := it.SlitNext();
    }

    /** Write the chain for all entries of sl, starting at nextBuffer. */
    method WriteChain(sl: array<S.Entry>, ghost segments: seq<S.Segment>) returns (bufferIndex: nat)
      requires Valid() && S.WellMarked(sl[..]) && sl.Length <= size && segments == S.Segments(sl[..])
      requires sl as object != desc
      modifies `numAdded, desc
      ensures Valid() && ChainAt(desc[..], nextBuffer, segments)
      ensures Untouched(old(desc[..]), desc[..], nextBuffer, |segments|)
      ensures bufferIndex == Wrap(nextBuffer, |segments|, size)
      ensures numAdded == (old(numAdded) + |segments|) % U16
    {
      bufferIndex := nextBuffer;
      var lastBuffer := bufferIndex;
      ghost var h, k, d0, content, total: nat := nextBuffer, 0, desc[..], sl[..], numAdded;
      var it := new S.Iterator(sl);
      var more := it.SlitNext();
      while more
        invariant AtEntry(it, segments, k, more)
        invariant Valid() && k <= |segments|
        invariant bufferIndex == Wrap(h, k, size) && lastBuffer == if k == 0 then h else Wrap(h, k - 1, size)
        invariant numAdded == total % U16 && total == old(numAdded) + k
        invariant Filled(d0, desc[..], h, segments, k)
        decreases |segments| - k
      {
        lastBuffer := bufferIndex;
        bufferIndex, more := PutNext(it, bufferIndex, d0, h, segments, k, total);
        k, total := k + 1, total + 1;
      }
      EndAt(lastBuffer, d0, h, segments);
    }

    /** virtio_queue_enqueue: reading the new chain gives back the scatterlist, no other
        descriptor changes, and its head goes into the ring. */
    method Enqueue(sl: array<S.Entry>)
      requires Valid() && S.WellMarked(sl[..]) && sl.Length <= size
      requires sl as object != desc && sl as object != availRing && desc as object != availRing
      modifies `nextBuffer, `numAdded, desc, availRing
      ensures Valid() && availIdx == old(availIdx)
      ensures ChainAt(desc[..], old(nextBuffer), S.Segments(sl[..]))
      ensures ReadChain(desc[..], old(nextBuffer), size) == S.Segments(sl[..])
      ensures Untouched(old(desc[..]), desc[..], old(nextBuffer), sl.Length)
      ensures availRing[..] == old(availRing[..])[availIdx % size := old(nextBuffer)]
      ensures nextBuffer == Wrap(old(nextBuffer), sl.Length, size)
      ensures numAdded == (old(numAdded) + sl.Length) % 0x1_0000
    {
      var index := availIdx % size;
      ghost var h, segments := nextBuffer, S.Segments(sl[..]);
      availRing[index] := nextBuffer;
      var bufferIndex := WriteChain(sl, segments);
      nextBuffer := bufferIndex;
      ReadBack(desc[..], h, segments, 0, size);
    }

    /** virtio_queue_kick, but for the notification: publish what was enqueued. */
    method Kick()
      requires Valid()
      modifies `availIdx, `numAdded
      ensures Valid() && availIdx == (old(availIdx) + old(numAdded)) % 0x1_0000 && numAdded == 0
    {
      availIdx := (availIdx + numAdded) % U16;
      numAdded := 0;
    }

    /** The next descriptor is the number of descriptors ever added, modulo the size. */
    ghost predicate InStep()
      requires size > 0
      reads this
    {
      nextBuffer == (availIdx + numAdded) % size
    }

    /** While in step, an enqueue puts its own index into the ring slot it writes exactly
        when the descriptors not yet published are a multiple of the size. */
    lemma OwnIndex()
      requires Valid() && InStep()
      ensures nextBuffer == availIdx % size <==> numAdded % size == 0
    {
      AddMod(numAdded, availIdx, size);
      var a, r := availIdx % size, numAdded % size;
      AddMod(availIdx, r, size);
      assert nextBuffer == (a + r) % size;
      if 0 < r {
        ModApart(a, a + r, size);
        ModUnique(a, size, 0, a);
      }
    }

    /** Enqueue, whatever its length, and kick keep the queue in step for every size
        that divides 65536, so for every power of two, across 16-bit wrap-around. */
    method EnqueueInStep(sl: array<S.Entry>)
      requires Valid() && S.WellMarked(sl[..]) && sl.Length <= size
      requires sl as object != desc && sl as object != availRing && desc as object != availRing
      requires InStep() && 0x1_0000 % size == 0
      modifies `nextBuffer, `numAdded, desc, availRing
      ensures Valid() && InStep() && availIdx == old(availIdx)
      ensures ReadChain(desc[..], old(nextBuffer), size) == S.Segments(sl[..])
      ensures old(numAdded) == 0 ==> availRing[availIdx % size] == availIdx % size
      ensures numAdded == (old(numAdded) + sl.Length) % 0x1_0000
    {
      OwnIndex();
      StillInStep(availIdx, numAdded, nextBuffer, sl.Length);
      Enqueue(sl);
    }

    method KickInStep()
      requires Valid() && InStep() && 0x1_0000 % size == 0
      modifies `availIdx, `numAdded
      ensures Valid() && InStep() && numAdded == 0
    {
      Multiples(availIdx + numAdded);
      Kick();
    }

    lemma Multiples(x: nat)
      requires 0 < size && U16 % size == 0
      ensures (x % U16) % size == x % size
    {
      var m := U16 / size;
      assert size * m == U16;
      ModMod(x, size, m);
    }

    /** When the 16-bit index wraps, descriptors and index stay in step exactly for
        the sizes that divide 65536. */
    lemma WrapNeedsDivisor(x: nat)
      requires 0 < size && 0x1_0000 <= x < 0x2_0000
      ensures (x % 0x1_0000) % size == x % size <==> 0x1_0000 % size == 0
    {
      assert x % U16 == x - U16;
      if U16 % size == 0 {
        Multiples(x);
      } else if (x - U16) % size == x % size {
        var q, q' := x / size, (x - U16) / size;
        Distribute(q, q', size);
        ModUnique(U16, size, q - q', 0);
      }
    }

    lemma StillInStep(idx: nat, added: nat, next: nat, k: nat)
      requires 0 < size && U16 % size == 0 && next == (idx + added) % size && k <= size
      ensures Wrap(next, k, size) == (idx + (added + k) % U16) % size
    {
      AddMod(idx + added, k, size);
      Multiples(added + k);
      AddMod((added + k) % U16, idx, size);
      AddMod(added + k, idx, size);
      ModUnique(next + k, size, if next + k < size then 0 else 1, Wrap(next, k, size));
    }

    // ---- the way back: an in-order device and single-segment buffers

    /** virtio_queue_num_heads */
    function NumHeads(): nat
      reads this
    {
      if lastBufferSeen < usedIdx then usedIdx - lastBufferSeen else 0
    }

    /** The descriptor and the reported length at running position k. */
    ghost function DescAt(k: nat): Desc
      requires Tables()
      reads desc
    {
      desc[k % size]
    }

    ghost predicate MoreAt(first: nat, j: nat)
      requires Tables()
      reads desc
    {
      DescAt(first + j).more
    }

    ghost function ReportedAt(k: nat): bv32
      requires Tables()
      reads usedRing
    {
      usedRing[k % size].len
    }

    /** The chain at the next descriptor ends within the completed ones. */
    ghost predicate ChainEnds(first: nat, heads: nat)
      requires Tables()
      reads desc
    {
      exists j: nat :: j < heads && !MoreAt(first, j)
    }

    /** The first k entries are bound to the descriptors from first on, the others are
        as init left them. */
    ghost predicate Listed(list: array<S.Entry>, first: nat, k: nat)
      requires Tables()
      reads list, desc, usedRing
    {
      && (forall j :: k <= j < list.Length ==> list[j] == S.Entry(S.InitWord(j == list.Length - 1), 0, 0))
      && (forall j: nat :: j < k <= list.Length ==>
            list[j] == S.BoundEntry(j == list.Length - 1, DescAt(first + j).addr, ReportedAt(first + j)))
    }

    /** virtio_queue_dequeue: the addresses of a completed buffer of n descriptors with
        the lengths the device reported, ending at the n-th entry.  The list is made
        for as many entries as num_heads announces; None is the write beyond it, which
        happens exactly when the chain is longer. */
    method Dequeue() returns (res: Option<array<S.Entry>>, ghost n: nat)
      requires Valid()
      modifies `lastBufferSeen
      ensures Valid() && (res.Some? <==> ChainEnds(old(lastBufferSeen), old(NumHeads())))
      ensures res.Some? ==>
                && 0 < n <= old(NumHeads()) && lastBufferSeen == old(lastBufferSeen) + n
                && !MoreAt(old(lastBufferSeen), n - 1) && forall j: nat :: j < n - 1 ==> MoreAt(old(lastBufferSeen), j)
      ensures res.Some? ==> fresh(res.value) && n <= res.value.Length && S.WellMarked(res.value[..n])
      ensures res.Some? ==> forall j: nat :: j < n ==>
                S.SegmentOf(res.value[j]) ==
                S.Segment(DescAt(old(lastBufferSeen) + j).addr, ReportedAt(old(lastBufferSeen) + j), false)
    {
      var heads := NumHeads();
      if heads == 0 {
        return None, 0;
      }
      var list := new S.Entry[heads](_ => S.Entry(0, 0, 0));
      S.SlListInit(list);
      ghost var first := lastBufferSeen;
      var filled := FillList(list);
      if filled == None {
        return None, 0;
      }
      n := filled.value;
      CloseList(list, filled.value, first);
      res := Some(list);
    }

    /** The do-while loop of dequeue: how many entries it filled, None when it would go
        on past the last. */
    method FillList(list: array<S.Entry>) returns (n: Option<nat>)
      requires Valid() && 0 < list.Length == NumHeads() && Listed(list, lastBufferSeen, 0)
      requires list as object != desc && list as object != usedRing
      modifies `lastBufferSeen, list
      ensures Valid() && (n.Some? <==> ChainEnds(old(lastBufferSeen), list.Length))
      ensures n.Some? ==> 0 < n.value <= list.Length && lastBufferSeen == old(lastBufferSeen) + n.value
      ensures n.Some? ==> !MoreAt(old(lastBufferSeen), n.value - 1)
      ensures n.Some? ==> forall j: nat :: j < n.value - 1 ==> MoreAt(old(lastBufferSeen), j)
      ensures n.Some? ==> Listed(list, old(lastBufferSeen), n.value)
    {
      ghost var first := lastBufferSeen;
      var iter: nat := 0;
      var more := true;
      while more
        invariant Valid() && iter <= list.Length && lastBufferSeen == first + iter && (!more ==> iter > 0)
        invariant forall j: nat :: j < iter ==> (MoreAt(first, j) <==> more || j < iter - 1)
        invariant Listed(list, first, iter)
        decreases list.Length - iter, more
      {
        if iter == list.Length {
          return None;
        }
        more := DequeueOne(list, iter, first);
        iter := iter + 1;
      }
      assert !MoreAt(first, iter - 1);
      n := Some(iter);
    }

    /** dequeue on a completed buffer of one descriptor. */
    method DequeueSingle() returns (res: array<S.Entry>)
      requires Valid() && NumHeads() > 0 && !MoreAt(lastBufferSeen, 0)
      modifies `lastBufferSeen
      ensures Valid() && lastBufferSeen == old(lastBufferSeen) + 1
      ensures res.Length > 0 && S.WellMarked(res[..1])
      ensures var k := old(lastBufferSeen);
              S.SegmentOf(res[0]) == S.Segment(DescAt(k + 0).addr, ReportedAt(k + 0), false)
    {
      ghost var k, n := lastBufferSeen, 0;
      var list;
      list, n := Dequeue();
      assert old(MoreAt(k, 0)) == MoreAt(k, 0);
      res := list.value;
    }

    /** The loop body of dequeue. */
    method DequeueOne(list: array<S.Entry>, iter: nat, ghost first: nat) returns (more: bool)
      requires Valid() && NumHeads() > 0 && iter < list.Length && lastBufferSeen == first + iter
      requires list as object != desc && list as object != usedRing && Listed(list, first, iter)
      modifies `lastBufferSeen, list
      ensures Valid() && lastBufferSeen == old(lastBufferSeen) + 1
      ensures more == MoreAt(first, iter) && Listed(list, first, iter + 1)
    {
      var bufferIndex := lastBufferSeen % size;
      assert MoreAt(first, iter) == desc[bufferIndex].more && desc[bufferIndex] == DescAt(first + iter);
      assert usedRing[bufferIndex].len == ReportedAt(first + iter);
      var len := usedRing[bufferIndex].len;
      var buffer := desc[bufferIndex].addr;
      lastBufferSeen := lastBufferSeen + 1;
      S.SlBindBuffer(list, iter, buffer, len);
      more := desc[bufferIndex].more;
    }

    /** Mark the last of the n entries dequeue has filled. */
    method CloseList(res: array<S.Entry>, n: nat, ghost first: nat)
      requires Tables() && 0 < n <= res.Length && res as object != desc && res as object != usedRing
      requires Listed(res, first, n)
      modifies res
      ensures S.WellMarked(res[..n])
      ensures forall j: nat :: j < n ==>
                S.SegmentOf(res[j]) == S.Segment(DescAt(first + j).addr, ReportedAt(first + j), false)
    {
      forall j: nat | j < n
        ensures !S.IsChain(res[j]) && (S.IsLast(res[j]) <==> j == res.Length - 1)
        ensures S.SegmentOf(res[j]) == S.Segment(DescAt(first + j).addr, ReportedAt(first + j), false)
      {
        S.BoundEntryMeaning(j == res.Length - 1, DescAt(first + j).addr, ReportedAt(first + j));
      }
      S.SlMakeLast(res, n - 1);
    }

    /** What num_heads says about running counts: the true difference exactly when
        both counts lie in the same pass of the 16-bit counters. */
    lemma HeadsAcrossWrap(seen: nat, used: nat)
      requires seen <= used < seen + 0x1_0000 && lastBufferSeen == seen % 0x1_0000 && usedIdx == used % 0x1_0000
      ensures NumHeads() == used - seen <==> seen / 0x1_0000 == used / 0x1_0000
    {
      if seen / U16 == used / U16 {
        assert used - seen == usedIdx - lastBufferSeen;
      } else {
        assert used / U16 == seen / U16 + 1;
        assert usedIdx < lastBufferSeen;
      }
    }

    /** Once 65535 buffers were returned the driver sees no further one, whatever the
        device does. */
    lemma LastBufferEver()
      requires Valid() && lastBufferSeen == 65535
      ensures NumHeads() == 0
    {
    }

    /** Single-segment traffic with an in-order device and at most size buffers out:
        what is out still lies in the tables where it was written.  The counts of
        buffers sent and reported run on while their 16-bit counters wrap. */
    ghost predicate Fifo()
      reads this, desc, usedRing
    {
      && Valid() && desc as object != usedRing && desc as object != availRing && usedRing as object != availRing
      && numAdded == 0 && availIdx == |sent| % U16 && nextBuffer == |sent| % size
      && usedIdx == |reported| % U16 && lastBufferSeen <= |reported| <= |sent| <= lastBufferSeen + size
      && (forall k :: lastBufferSeen <= k < |sent| ==> DescAt(k).addr == sent[k] && !DescAt(k).more)
      && (|reported| < U16 ==> forall k :: lastBufferSeen <= k < |reported| ==> ReportedAt(k) == reported[k])
    }

    /** In such traffic num_heads is right until the device's counter wraps, and 0 from
        then on: the buffers still out are never returned. */
    lemma FifoHeads()
      requires Fifo()
      ensures NumHeads() == if |reported| < 65536 then |reported| - lastBufferSeen else 0
    {
      HeadsAcrossWrap(lastBufferSeen, |reported|);
    }

    /** A single buffer enqueued and published. */
    method EnqueueKick(sl: array<S.Entry>)
      requires Valid() && S.WellMarked(sl[..]) && sl.Length == 1 && numAdded == 0
      requires sl as object != desc && sl as object != availRing && desc as object != availRing
      modifies `nextBuffer, `numAdded, `availIdx, desc, availRing
      ensures Valid() && availIdx == (old(availIdx) + 1) % U16 && numAdded == 0
      ensures nextBuffer == Wrap(old(nextBuffer), 1, size)
      ensures Written(desc[old(nextBuffer)], S.SegmentOf(sl[0]), Wrap(old(nextBuffer), 1, size), false)
      ensures Untouched(old(desc[..]), desc[..], old(nextBuffer), 1)
    {
      Enqueue(sl);
      assert Written(desc[Wrap(old(nextBuffer), 0, size)], S.Segments(sl[..])[0], Wrap(old(nextBuffer), 1, size), false);
      Kick();
    }

    /** Enqueue one buffer and kick. */
    method Send(sl: array<S.Entry>)
      requires Fifo() && S.WellMarked(sl[..]) && sl.Length == 1
      requires sl as object != desc && sl as object != availRing && sl as object != usedRing
      requires |sent| < lastBufferSeen + size
      modifies `nextBuffer, `numAdded, `availIdx, `sent, desc, availRing
      ensures Fifo() && sent == old(sent) + [S.GetBuffer(sl[0])]
    {
      ghost var n, d0 := |sent|, desc[..];
      NextSent(n);
      AddMod(n, 1, U16);
      EnqueueKick(sl);
      sent := sent + [S.GetBuffer(sl[0])];
      forall k | lastBufferSeen <= k < n ensures DescAt(k).addr == sent[k] && !DescAt(k).more {
        PlacesApart(k, n);
        assert desc[..][k % size] == d0[k % size];
        assert old(DescAt(k)) == DescAt(k);
      }
    }

    /** Positions fewer than size apart lie at different places of the table. */
    lemma PlacesApart(k: nat, n: nat)
      requires Tables() && k < n < k + size
      ensures k % size < size && Outside(k % size, n % size, 1, size)
    {
      ModApart(k, n, size);
    }

    lemma NextSent(n: nat)
      requires Tables()
      ensures Wrap(n % size, 1, size) == (n + 1) % size
    {
      AddMod(n, 1, size);
      NextIndex(n % size, size);
    }

    /** The device finishes the oldest buffer it has. */
    method DeviceDone(id: nat, len: bv32)
      requires Fifo() && |reported| < |sent|
      modifies `usedIdx, `reported, usedRing
      ensures Fifo() && reported == old(reported) + [len]
    {
      ghost var n, u0, at := |reported|, usedRing[..], usedIdx % size;
      AddMod(n, 1, U16);
      if n < U16 {
        SmallMod(n, U16);
      }
      usedRing[usedIdx % size] := UsedElem(id, len);
      assert usedRing[at].len == len;
      usedIdx := (usedIdx + 1) % U16;
      reported := reported + [len];
      if n + 1 < U16 {
        forall k | lastBufferSeen <= k < |reported| ensures ReportedAt(k) == reported[k] {
          if k < n {
            ModApart(k, n, size);
            ghost var p := k % size;
            assert p != at && usedRing[p] == u0[p];
            assert old(ReportedAt(k)) == old(reported)[k];
          }
        }
      }
      forall k | lastBufferSeen <= k < |sent| ensures DescAt(k).addr == sent[k] && !DescAt(k).more {
        assert old(DescAt(k)) == DescAt(k);
      }
    }

    /** As long as num_heads announces a buffer, dequeue returns them first in, first
        out, with the lengths reported for them. */
    method Receive() returns (res: array<S.Entry>)
      requires Fifo() && NumHeads() > 0
      modifies `lastBufferSeen
      ensures Fifo() && lastBufferSeen == old(lastBufferSeen) + 1
      ensures res.Length > 0 && S.WellMarked(res[..1])
      ensures var k := old(lastBufferSeen);
              k < |reported| && S.SegmentOf(res[0]) == S.Segment(sent[k], reported[k], false)
    {
      FifoHeads();
      ghost var k := lastBufferSeen;
      assert !MoreAt(k, 0) && DescAt(k + 0) == DescAt(k);
      assert ReportedAt(k) == reported[k] && DescAt(k).addr == sent[k];
      res := DequeueSingle();
      forall i | lastBufferSeen <= i < |sent| ensures DescAt(i).addr == sent[i] && !DescAt(i).more {
        assert old(DescAt(i)) == DescAt(i);
      }
      assert S.SegmentOf(res[0]) == S.Segment(old(DescAt(k + 0)).addr, old(ReportedAt(k + 0)), false);
    }
  }

  /** A chain of two on a new queue, reported as one completion: dequeue makes a list
      of one entry and goes on to write the second. */
  method ChainOverruns(a: S.Segment, b: S.Segment) returns (res: Option<array<S.Entry>>)
    ensures res == None
  {
    var q := new Queue(8);
    EnqueueTwo(q, a, b);
    q.Kick();
    q.usedRing[0] := UsedElem(0, b.len);
    q.usedIdx := 1;
    assert q.MoreAt(0, 0) && !q.ChainEnds(0, 1);
    ghost var n;
    res, n := q.Dequeue();
  }

  method EnqueueTwo(q: Queue, a: S.Segment, b: S.Segment)
    requires q.Valid() && q.size >= 2 && q.nextBuffer == 0 && q.desc as object != q.availRing
    modifies q`nextBuffer, q`numAdded, q.desc, q.availRing
    ensures q.Valid() && q.desc[0].more
  {
    var sl := new S.Entry[2](_ => S.Entry(0, 0, 0));
    S.BuildList(sl, [a, b]);
    q.Enqueue(sl);
    assert Written(q.desc[Wrap(0, 0, q.size)], S.Segments(sl[..])[0], Wrap(Wrap(0, 0, q.size), 1, q.size), true);
  }

  /** A buffer of one entry on a new queue, completed by the device, does come back. */
  method SingleReturns(a: S.Segment, len: bv32) returns (res: array<S.Entry>)
    ensures res.Length > 0 && S.WellMarked(res[..1]) && S.SegmentOf(res[0]) == S.Segment(a.buffer, len, false)
  {
    var q := new Queue(8);
    var sl := new S.Entry[1](_ => S.Entry(0, 0, 0));
    S.BuildList(sl, [a]);
    assert S.Segments(sl[..])[0] == S.SegmentOf(sl[0]);
    q.Send(sl);
    q.DeviceDone(0, len);
    q.FifoHeads();
    res := q.Receive();
  }
}
