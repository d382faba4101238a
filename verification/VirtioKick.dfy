/** What virtio_queue_kick publishes (kernel/drivers/virtio/virtio_queue.c).  It
    advances the available index by the descriptors added, while a device takes
    one head from the ring for each step of the index (section 2.4.6 of VIRTIO
    1.0), so the two agree for one buffer of one entry and for nothing else. */
module VirtioKick {
  import opened Mods
  import opened Powers
  import opened VirtioQueue
  import S = Scatterlist

  /** The ring slot a device looks at for index idx + j. */
  function Slot(idx: nat, j: nat, size: nat): nat
    requires size > 0
  {
    (idx + j) % U16 % size
  }

  lemma FirstSlot(idx: nat, size: nat)
    requires idx < U16 && size > 0
    ensures Slot(idx, 0, size) == idx % size
  {
    SmallMod(idx, U16);
  }

  /** In a ring whose size divides 65536 the slots of one pass are different. */
  lemma SlotsApart(idx: nat, j: nat, size: nat)
    requires idx < U16 && 0 < j < size && U16 % size == 0
    ensures Slot(idx, j, size) != idx % size
  {
    var m := U16 / size;
    assert size * m == U16;
    ModMod(idx + j, size, m);
    ModApart(idx, idx + j, size);
  }

  /** The n heads a device takes from the ring, from index idx on. */
  ghost function HeadsTaken(ring: seq<nat>, idx: nat, n: nat): seq<nat>
    requires |ring| > 0
  {
    seq(n, j requires 0 <= j < n => ring[Slot(idx, j, |ring|)])
  }

  /** All the entries of the lists together. */
  ghost function Entries(lists: seq<array<S.Entry>>): nat {
    if lists == [] then 0 else Entries(lists[..|lists| - 1]) + lists[|lists| - 1].Length
  }

  /** Where the chains of the lists begin, the first of them at h. */
  ghost function HeadsEnqueued(h: nat, size: nat, lists: seq<array<S.Entry>>): seq<nat>
    requires size > 0
  {
    seq(|lists|, i requires 0 <= i < |lists| => (h + Entries(lists[..i])) % size)
  }

  lemma {:induction false} EntriesSplit(lists: seq<array<S.Entry>>, i: nat)
    requires i < |lists|
    ensures Entries(lists[..i + 1]) == Entries(lists[..i]) + lists[i].Length
  {
    assert lists[..i + 1][..i] == lists[..i];
  }

  /** Every list has an entry, so there are at least as many entries as lists, and
      as many only if every list has exactly one. */
  lemma {:induction false} OneEach(lists: seq<array<S.Entry>>)
    requires forall l :: l in lists ==> l.Length > 0
    ensures |lists| <= Entries(lists)
    ensures Entries(lists) == |lists| ==> forall l :: l in lists ==> l.Length == 1
  {
    if lists != [] {
      var n := |lists| - 1;
      OneEach(lists[..n]);
      assert lists == lists[..n] + [lists[n]];
    }
  }

  lemma WrapIsMod(h: nat, k: nat, size: nat)
    requires h < size && k <= size
    ensures Wrap(h, k, size) == (h + k) % size
  {
    ModUnique(h + k, size, if h + k < size then 0 else 1, Wrap(h, k, size));
  }

  /** Two or more buffers of one entry: the first head taken is the last enqueued. */
  lemma FirstDiffers(h: nat, size: nat, lists: seq<array<S.Entry>>)
    requires 2 <= |lists| <= size && h < size && Entries(lists) == |lists|
    requires forall l :: l in lists ==> l.Length > 0
    ensures HeadsEnqueued(h, size, lists)[0] != HeadsEnqueued(h, size, lists)[|lists| - 1]
  {
    var m := |lists|;
    OneEach(lists);
    EntriesSplit(lists, m - 1);
    assert lists[..m] == lists && lists[..0] == [] && lists[m - 1] in lists;
    ModApart(h, h + m - 1, size);
  }

  /** All lists were enqueued at slot idx % size, so only the last head is there. */
  lemma OnlyOneMatches(ring: seq<nat>, idx: nat, h: nat, lists: seq<array<S.Entry>>)
    requires 0 < |ring| < U16 && idx < U16 && h < |ring| && Entries(lists) <= |ring|
    requires forall l :: l in lists ==> l.Length > 0
    requires lists != [] ==> ring[idx % |ring|] == HeadsEnqueued(h, |ring|, lists)[|lists| - 1]
    ensures HeadsTaken(ring, idx, Entries(lists)) == HeadsEnqueued(h, |ring|, lists) <==>
            lists == [] || (|lists| == 1 && lists[0].Length == 1)
  {
    var m, size := |lists|, |ring|;
    OneEach(lists);
    FirstSlot(idx, size);
    if m >= 2 {
      if Entries(lists) == m {
        FirstDiffers(h, size, lists);
        assert HeadsTaken(ring, idx, m)[0] == ring[idx % size];
      }
    } else if m == 1 {
      EntriesSplit(lists, 0);
      assert lists[..1] == lists && lists[..0] == [];
      if lists[0].Length == 1 {
        assert HeadsTaken(ring, idx, 1) == [ring[idx % size]];
        assert HeadsEnqueued(h, size, lists) == [ring[idx % size]];
      }
    }
  }

  ghost predicate Separate(q: Queue, sl: array<S.Entry>) {
    sl as object != q.desc && sl as object != q.availRing
  }

  /** Any number of buffers enqueued before one kick: the device takes exactly the
      heads enqueued if and only if there was at most one buffer, of one entry. */
  method Publish(q: Queue, lists: seq<array<S.Entry>>)
    requires q.Valid() && q.numAdded == 0 && Entries(lists) <= q.size
    requires forall l :: l in lists ==> S.WellMarked(l[..]) && Separate(q, l)
    requires q.desc as object != q.availRing
    modifies q`nextBuffer, q`numAdded, q`availIdx, q.desc, q.availRing
    ensures q.Valid() && q.numAdded == 0 && q.availIdx == (old(q.availIdx) + Entries(lists)) % 65536
    ensures var slot, heads := old(q.availIdx) % q.size, HeadsEnqueued(old(q.nextBuffer), q.size, lists);
            q.availRing[..] == if lists == [] then old(q.availRing[..]) else old(q.availRing[..])[slot := heads[|lists| - 1]]
    ensures HeadsTaken(q.availRing[..], old(q.availIdx), Entries(lists)) == HeadsEnqueued(old(q.nextBuffer), q.size, lists) <==>
            lists == [] || (|lists| == 1 && lists[0].Length == 1)
  {
    ghost var idx, h, heads, ring := q.availIdx, q.nextBuffer, HeadsEnqueued(q.nextBuffer, q.size, lists), q.availRing[..];
    SmallMod(h, q.size);
    for i := 0 to |lists|
      invariant q.Valid() && q.availIdx == idx
      invariant q.numAdded == Entries(lists[..i]) <= Entries(lists)
      invariant q.nextBuffer == (h + Entries(lists[..i])) % q.size
      invariant q.availRing[..] == if i == 0 then ring else ring[idx % q.size := heads[i - 1]]
      invariant forall l :: l in lists ==> S.WellMarked(l[..])
    {
      EnqueueNext(q, lists, i, h);
    }
    assert lists[..|lists|] == lists;
    q.Kick();
    assert forall l :: l in lists ==> |l[..]| > 0;
    OnlyOneMatches(q.availRing[..], idx, h, lists);
  }

  lemma {:induction false} EntriesMonotone(lists: seq<array<S.Entry>>, i: nat)
    requires i <= |lists|
    ensures Entries(lists[..i]) <= Entries(lists)
    decreases |lists| - i
  {
    if i < |lists| {
      EntriesSplit(lists, i);
      EntriesMonotone(lists, i + 1);
    } else {
      assert lists[..i] == lists;
    }
  }

  method EnqueueNext(q: Queue, lists: seq<array<S.Entry>>, i: nat, ghost h: nat)
    requires q.Valid() && i < |lists| && Entries(lists) <= q.size
    requires S.WellMarked(lists[i][..]) && Separate(q, lists[i]) && q.desc as object != q.availRing
    requires q.numAdded == Entries(lists[..i]) && q.nextBuffer == (h + Entries(lists[..i])) % q.size
    modifies q`nextBuffer, q`numAdded, q.desc, q.availRing
    ensures q.Valid() && q.availIdx == old(q.availIdx)
    ensures q.numAdded == Entries(lists[..i + 1]) <= Entries(lists)
    ensures q.nextBuffer == (h + Entries(lists[..i + 1])) % q.size
    ensures q.availRing[..] == old(q.availRing[..])[q.availIdx % q.size := old(q.nextBuffer)]
  {
    EntriesSplit(lists, i);
    EntriesMonotone(lists, i + 1);
    SmallMod(Entries(lists[..i + 1]), U16);
    WrapIsMod(q.nextBuffer, lists[i].Length, q.size);
    AddMod(h + Entries(lists[..i]), lists[i].Length, q.size);
    q.Enqueue(lists[i]);
  }

  /** One buffer and a kick: the index moves by one exactly for a buffer of one
      entry; for a longer one the device also takes what the ring held before. */
  method PublishOne(q: Queue, sl: array<S.Entry>)
    requires q.Valid() && q.numAdded == 0 && S.WellMarked(sl[..]) && sl.Length <= q.size
    requires Separate(q, sl) && q.desc as object != q.availRing
    modifies q`nextBuffer, q`numAdded, q`availIdx, q.desc, q.availRing
    ensures q.Valid() && q.numAdded == 0
    ensures q.availIdx == (old(q.availIdx) + 1) % 65536 <==> sl.Length == 1
    ensures var taken := HeadsTaken(q.availRing[..], old(q.availIdx), sl.Length);
            && taken[0] == old(q.nextBuffer)
            && (U16 % q.size == 0 ==>
                  taken[1..] == HeadsTaken(old(q.availRing[..]), old(q.availIdx), sl.Length)[1..])
  {
    ghost var idx, ring, n := q.availIdx, q.availRing[..], sl.Length;
    FirstSlot(idx, q.size);
    SmallMod(n, U16);
    if n > 1 {
      ModApart(idx + 1, idx + n, U16);
    }
    q.Enqueue(sl);
    q.Kick();
    if U16 % q.size == 0 {
      StaleTail(ring, idx, n, old(q.nextBuffer));
    }
  }

  /** Writing the first slot leaves the others of the same pass alone. */
  lemma StaleTail(ring: seq<nat>, idx: nat, n: nat, h: nat)
    requires 0 < n <= |ring| && idx < U16 && U16 % |ring| == 0
    ensures HeadsTaken(ring[idx % |ring| := h], idx, n)[1..] == HeadsTaken(ring, idx, n)[1..]
  {
    forall j: nat | 0 < j < n ensures Slot(idx, j, |ring|) != idx % |ring| {
      SlotsApart(idx, j, |ring|);
    }
  }

  /** Where every slot still holds its own index from an earlier pass, as traffic of
      single buffers leaves it, two buffers before one kick give the device the
      second of them twice and the first never. */
  method SecondHidesFirst(q: Queue, first: array<S.Entry>, second: array<S.Entry>)
    requires q.Valid() && q.numAdded == 0 && q.InStep() && U16 % q.size == 0 && q.size >= 2
    requires S.WellMarked(first[..]) && S.WellMarked(second[..]) && first.Length == 1 == second.Length
    requires Separate(q, first) && Separate(q, second) && q.desc as object != q.availRing
    requires q.availRing[(q.availIdx + 1) % q.size] == (q.availIdx + 1) % q.size
    modifies q`nextBuffer, q`numAdded, q`availIdx, q.desc, q.availRing
    ensures var h, h' := old(q.nextBuffer), (old(q.nextBuffer) + 1) % q.size;
            && HeadsEnqueued(h, q.size, [first, second]) == [h, h'] && h != h'
            && HeadsTaken(q.availRing[..], old(q.availIdx), 2) == [h', h']
  {
    ghost var idx, h, h' := q.availIdx, q.nextBuffer, (q.nextBuffer + 1) % q.size;
    TwoHeads(h, q.size, first, second);
    FirstSlot(idx, q.size);
    SlotsApart(idx, 1, q.size);
    q.OwnIndex();
    SmallMod(0, q.size);
    AddMod(idx, 1, q.size);
    NextSlot(idx, q.size);
    Publish(q, [first, second]);
    ghost var ring := q.availRing[..];
    assert ring[Slot(idx, 0, q.size)] == h';
    assert ring[Slot(idx, 1, q.size)] == h';
  }

  lemma NextSlot(idx: nat, size: nat)
    requires idx < U16 && size > 0 && U16 % size == 0
    ensures Slot(idx, 1, size) == (idx + 1) % size
  {
    var m := U16 / size;
    assert size * m == U16;
    ModMod(idx + 1, size, m);
  }

  lemma TwoHeads(h: nat, size: nat, first: array<S.Entry>, second: array<S.Entry>)
    requires h < size && size >= 2 && first.Length == 1 == second.Length
    ensures Entries([first, second]) == 2
    ensures HeadsEnqueued(h, size, [first, second]) == [h, (h + 1) % size] && h != (h + 1) % size
  {
    var lists := [first, second];
    assert lists[..0] == [] && lists[..1] == [first] && lists[..2] == lists;
    assert [first][..0] == [];
    assert Entries([first]) == 1;
    SmallMod(h, size);
    ModApart(h, h + 1, size);
  }

  /** The input that shows it: a new queue, one buffer of three entries.  One head, 0,
      was enqueued; the device takes it and two slots never written. */
  method ThreeEntries(segments: seq<S.Segment>) returns (q: Queue)
    requires |segments| == 3
    ensures q.Valid() && q.availIdx == 3 && q.numAdded == 0
    ensures HeadsTaken(q.availRing[..], 0, 3) == [0, 0, 0]
  {
    q := new Queue(8);
    var sl := new S.Entry[3](_ => S.Entry(0, 0, 0));
    S.BuildList(sl, segments);
    assert [sl][..0] == [];
    assert Entries([sl]) == 3;
    Publish(q, [sl]);
    assert q.availRing[..] == [0, 0, 0, 0, 0, 0, 0, 0];
  }

  /** Two buffers of one entry before one kick, on a new queue: heads 0 and 1 were
      enqueued, the device takes 1 and then 0. */
  method TwoBeforeKick(a: S.Segment, b: S.Segment) returns (q: Queue)
    ensures q.Valid() && q.availIdx == 2 && q.numAdded == 0
    ensures HeadsTaken(q.availRing[..], 0, 2) == [1, 0]
  {
    q := new Queue(8);
    var first := new S.Entry[1](_ => S.Entry(0, 0, 0));
    S.BuildList(first, [a]);
    var second := new S.Entry[1](_ => S.Entry(0, 0, 0));
    S.BuildList(second, [b]);
    TwoHeads(0, 8, first, second);
    Publish(q, [first, second]);
    assert q.availRing[..] == [1, 0, 0, 0, 0, 0, 0, 0];
  }

  /** Every power of two up to 65536 divides it: the sizes VIRTIO allows keep in step. */
  lemma PowersDivide(k: nat)
    requires k <= 16
    ensures 65536 % Pow2(k) == 0
  {
    Pow2Add(16 - k, k);
    Pow2Values();
    MultipleMod(Pow2(16 - k), Pow2(k));
  }

  lemma MultipleMod(q: nat, p: nat)
    requires p > 0
    ensures (q * p) % p == 0
  {
    ModUnique(q * p, p, q, 0);
  }
}
