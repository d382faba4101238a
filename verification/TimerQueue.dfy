/** kernel/timer.c: a linked list of remaining times kept in step with one
    one-shot hardware counter, and a bitmap of entry slots.  The abstract state is
    read off the list and the counter, and every operation is one step of TimerSpec. */
module TimerQueue {
  import opened BitWords
  import opened TimerSpec

  const WORDS: nat := 64
  const SLOTS: nat := 2048
  const PAGE_SLOTS: nat := 256
  const U32: nat := 0x1_0000_0000

  /** struct timer_list_entry; slot is its index in the page of entries, and the
      function and its argument are one callback value. */
  class Entry {
    const slot: nat
    var timer: nat
    var callback: int
    var next: Entry?

    constructor (slot: nat)
      ensures this.slot == slot
    {
      this.slot := slot;
      timer, callback, next := 0, 0, null;
    }
  }

  ghost predicate BitAt(words: seq<bv32>, s: nat)
    requires s / 32 < |words|
  {
    Bit32(words[s / 32], s % 32)
  }

  /** used is the set of slots whose bit is set. */
  ghost predicate Packed(words: seq<bv32>, used: set<nat>) {
    && |words| == WORDS
    && (forall s: nat {:trigger BitAt(words, s)} :: s < SLOTS ==> (BitAt(words, s) <==> s in used))
    && (forall s :: s in used ==> s < SLOTS)
  }

  /** Rewriting word i so that only bit z takes the value val. */
  lemma PackedUpdate(words: seq<bv32>, used: set<nat>, i: nat, z: nat, w: bv32, val: bool)
    requires Packed(words, used) && i < WORDS && z < 32
    requires forall j: nat :: j < 32 ==> (Bit32(w, j) <==> if j == z then val else Bit32(words[i], j))
    ensures Packed(words[i := w], if val then used + {32 * i + z} else used - {32 * i + z})
  {
    var used' := if val then used + {32 * i + z} else used - {32 * i + z};
    forall s: nat | s < SLOTS ensures BitAt(words[i := w], s) <==> s in used' {
      assert BitAt(words, s) <==> s in used;
      assert s == 32 * i + z <==> s / 32 == i && s % 32 == z;
    }
  }

  ghost function First(q: seq<Entry>, i: nat): Entry? {
    if i < |q| then q[i] else null
  }

  /** head leads through next to exactly the entries of q, in order, none twice. */
  ghost predicate Linked(q: seq<Entry>, head: Entry?)
    reads q
  {
    && head == First(q, 0)
    && (forall i {:trigger q[i].next} :: 0 <= i < |q| ==> q[i].next == First(q, i + 1))
    && (forall i, j :: 0 <= i < j < |q| ==> q[i] != q[j])
  }

  /** The callbacks a list of timers asks for. */
  ghost function CallsOf(p: seq<Timer>): seq<int> {
    seq(|p|, i requires 0 <= i < |p| => p[i].callback)
  }

  lemma CallsOfAppend(p: seq<Timer>, q: seq<Timer>)
    ensures CallsOf(p + q) == CallsOf(p) + CallsOf(q)
  {
  }

  ghost function SlotsOf(q: seq<Entry>): set<nat> {
    set e | e in q :: e.slot
  }

  class Queue {
    var head: Entry?
    const entries: seq<Entry>
    const bitMap: array<bv32>
    /** The hardware: what is left of the one-shot count last armed. */
    var counter: nat

    /** The callbacks invoked so far, in order. */
    var calls: seq<int>

    ghost const cells: set<Entry>
    ghost var queue: seq<Entry>
    ghost var used: set<nat>
    /** Every slot handed out since the start. */
    ghost var handed: set<nat>
    ghost var s: State

    /** The page of entries, the list threaded through it, and the bitmap. */
    ghost predicate Shape()
      reads `head, `queue, `used, cells, bitMap
    {
      && |entries| == SLOTS && bitMap.Length == WORDS && Packed(bitMap[..], used)
      && (forall i :: 0 <= i < SLOTS ==> entries[i].slot == i && entries[i] in cells)
      && (forall e :: e in cells ==> e.slot < SLOTS && entries[e.slot] == e)
      && (forall i :: 0 <= i < |queue| ==> queue[i] in cells && queue[i].timer < U32)
      && Linked(queue, head)
    }

    /** The hardware is armed with the head's true remaining time, and every other
        entry's stored time exceeds the head's by the difference of their deadlines. */
    ghost predicate Coupled()
      reads `queue, `counter, `calls, `s, cells
      requires forall i :: 0 <= i < |queue| ==> queue[i] in cells
    {
      calls == CallsOf(TimersOf(s.fired)) && Waiting(s.pending, s.now)
    }

    /** Entry by entry, the list holds p as seen at time now. */
    ghost predicate Waiting(p: seq<Timer>, now: nat)
      reads `queue, `counter, cells
      requires forall i :: 0 <= i < |queue| ==> queue[i] in cells
    {
      && |p| == |queue|
      && (queue != [] ==> counter <= queue[0].timer)
      && (forall i :: 0 <= i < |queue| ==> Shows(p[i], queue[i], now))
    }

    ghost predicate Shows(t: Timer, e: Entry, now: nat)
      reads `queue, `counter, cells
      requires e in cells && queue != [] && queue[0] in cells
    {
      t.callback == e.callback && t.Deadline() == now + counter + (e.timer - queue[0].timer)
    }

    ghost predicate Running()
      reads this, cells, bitMap
    {
      Shape() && Coupled()
    }

    /** Between operations the set bits are exactly the slots of the queued entries. */
    ghost predicate Valid()
      reads this, cells, bitMap
    {
      Running() && used == SlotsOf(queue)
    }

    /** What every reachable state promises about the hardware, the list and the bitmap. */
    lemma ReachableState()
      requires Valid()
      ensures queue != [] ==> s.pending[0].Deadline() == s.now + counter
      ensures |queue| == |s.pending| && forall i :: 0 <= i < |queue| ==> queue[i].callback == s.pending[i].callback
      ensures forall i, j :: 0 <= i < j < |queue| ==> queue[i].slot != queue[j].slot
      ensures forall t: nat :: t < 2048 ==> (BitAt(bitMap[..], t) <==> exists i :: 0 <= i < |queue| && queue[i].slot == t)
    {
      forall i | 0 <= i < |queue| ensures s.pending[i].callback == queue[i].callback {
        assert Shows(s.pending[i], queue[i], s.now);
      }
      forall i, j | 0 <= i < j < |queue| ensures queue[i].slot != queue[j].slot {
        assert entries[queue[i].slot] == queue[i] && entries[queue[j].slot] == queue[j];
      }
      forall t: nat | t < SLOTS ensures BitAt(bitMap[..], t) <==> exists i :: 0 <= i < |queue| && queue[i].slot == t {
        assert BitAt(bitMap[..], t) <==> t in SlotsOf(queue);
        forall i | 0 <= i < |queue| && queue[i].slot == t ensures t in SlotsOf(queue) {
          assert queue[i] in queue;
        }
        if t in SlotsOf(queue) {
          var e :| e in queue && e.slot == t;
          var i :| 0 <= i < |queue| && queue[i] == e;
        }
      }
    }

    /** queue_sub_timer */
    method QueueSubTimer(passed: nat)
      requires Shape()
      modifies cells`timer
      ensures Shape()
      ensures forall e :: e in cells && e !in queue ==> e.timer == old(e.timer)
      ensures forall i :: 0 <= i < |queue| ==>
                queue[i].timer == if old(queue[i].timer) < passed then 0 else old(queue[i].timer) - passed
    {
      var it := head;
      ghost var k := 0;
      while it != null
        invariant k <= |queue| && it == First(queue, k) && Shape()
        invariant forall i :: k <= i < |queue| ==> queue[i].timer == old(queue[i].timer)
        invariant forall e :: e in cells && e !in queue ==> e.timer == old(e.timer)
        invariant forall i :: 0 <= i < k ==>
                    queue[i].timer == if old(queue[i].timer) < passed then 0 else old(queue[i].timer) - passed
        decreases |queue| - k
      {
        if it.timer < passed {
          it.timer := 0;
        } else {
          it.timer := it.timer - passed;
        }
        it := it.next;
        k := k + 1;
      }
    }

    ghost predicate HeadIsLeast()
      reads `queue, cells
      requires forall i :: 0 <= i < |queue| ==> queue[i] in cells
    {
      forall i :: 0 <= i < |queue| ==> queue[0].timer <= queue[i].timer
    }

    /** In every reachable state nothing queued has less time left than the head, so
        the branch of queue_sub_timer that clamps to zero is never taken. */
    lemma ClampNeverTaken()
      requires Running() && Inv(s)
      ensures HeadIsLeast()
      ensures forall i :: 0 <= i < |queue| ==> queue[0].timer - counter <= queue[i].timer
    {
      forall i | 0 < i < |queue| ensures queue[0].timer <= queue[i].timer {
        assert Sooner(s.pending[0], s.pending[i]);
        assert Shows(s.pending[0], queue[0], s.now) && Shows(s.pending[i], queue[i], s.now);
      }
    }

    /** queue_sub_head_time: bring the stored times up to date with the hardware. */
    method QueueSubHeadTime()
      requires Running() && HeadIsLeast()
      modifies cells`timer
      ensures Running()
      ensures forall e :: e in cells && e !in queue ==> e.timer == old(e.timer)
      ensures queue != [] ==> queue[0].timer == counter
    {
      if head != null {
        var passed := head.timer - counter;
        QueueSubTimer(passed);
        forall i | 0 <= i < |queue| ensures Shows(s.pending[i], queue[i], s.now) {
          assert old(Shows(s.pending[i], queue[i], s.now));
        }
      }
    }

    method SlotIsFree(i: nat, zr: nat) returns (free: bool)
      requires Shape() && i < WORDS && zr < 32
      ensures free <==> 32 * i + zr !in used
    {
      assert BitAt(bitMap[..], 32 * i + zr) <==> 32 * i + zr in used;
      free := bitMap[i] & (1 << zr) == 0;
    }

    method SetSlot(i: nat, zr: nat)
      requires Shape() && i < WORDS && zr < 32
      modifies `used, `handed, bitMap
      ensures Shape() && used == old(used) + {32 * i + zr} && handed == old(handed) + {32 * i + zr}
    {
      ghost var words := bitMap[..];
      var w := OrBit32(bitMap[i], zr);
      PackedUpdate(words, used, i, zr, w, true);
      bitMap[i] := w;
      used := used + {32 * i + zr};
      handed := handed + {32 * i + zr};
      assert bitMap[..] == words[i := w];
    }

    /** allocate_new_entry: the lowest clear bit, or null when all are set. */
    method AllocateNewEntry() returns (entry: Entry?)
      requires Shape()
      modifies `used, `handed, bitMap
      ensures Shape()
      ensures handed == if entry == null then old(handed) else old(handed) + {entry.slot}
      ensures entry == null ==> used == old(used) && forall t :: 0 <= t < 2048 ==> t in used
      ensures entry != null ==> entry in cells && entry.slot !in old(used) && used == old(used) + {entry.slot}
      ensures entry != null ==> forall t :: 0 <= t < entry.slot ==> t in old(used)
    {
      for i := 0 to WORDS
        invariant Shape() && used == old(used) && handed == old(handed) && bitMap[..] == old(bitMap[..])
        invariant forall t :: 0 <= t < 32 * i ==> t in used
      {
        for zr := 0 to 32
          invariant Shape() && used == old(used) && handed == old(handed) && bitMap[..] == old(bitMap[..])
          invariant forall t :: 0 <= t < 32 * i + zr ==> t in used
        {
          var free := SlotIsFree(i, zr);
          if free {
            SetSlot(i, zr);
            return entries[32 * i + zr];
          }
        }
      }
      entry := null;
    }

    /** queue_free */
    method QueueFree(entry: Entry)
      requires Shape() && entry in cells && entry.slot in used
      modifies `used, bitMap
      ensures Shape() && used == old(used) - {entry.slot}
    {
      var diff := entry.slot;
      var indx, bit := diff / 32, diff % 32;
      assert BitAt(bitMap[..], diff);
      var w := XorBit32(bitMap[indx], bit);
      PackedUpdate(bitMap[..], used, indx, bit, w, false);
      bitMap[indx] := w;
      used := used - {diff};
      assert bitMap[..] == old(bitMap[..])[indx := w];
    }

    /** queue_find_loc: the entry to insert after, null for the front. */
    method QueueFindLoc(entry: Entry) returns (prev: Entry?, ghost k: nat)
      requires Shape()
      ensures prev == null ==> head == null || entry.timer < head.timer
      ensures prev != null ==> prev.timer <= entry.timer && (prev.next == null || entry.timer < prev.next.timer)
      ensures k <= |queue| && prev == if k == 0 then null else queue[k - 1]
      ensures forall i :: 0 <= i < k ==> queue[i].timer <= entry.timer
      ensures k < |queue| ==> entry.timer < queue[k].timer
    {
      var it := head;
      prev, k := null, 0;
      while it != null
        invariant k <= |queue| && it == First(queue, k) && prev == if k == 0 then null else queue[k - 1]
        invariant forall i :: 0 <= i < k ==> queue[i].timer <= entry.timer
        decreases |queue| - k
      {
        if entry.timer < it.timer {
          return;
        }
        prev := it;
        it := it.next;
        k := k + 1;
      }
    }

    method SlistInsertHead(entry: Entry)
      requires Shape() && entry in cells && entry !in queue && entry.timer < U32
      modifies `head, `queue, entry`next
      ensures Shape() && queue == [entry] + old(queue)
    {
      entry.next := head;
      head := entry;
      queue := [entry] + queue;
    }

    method SlistInsertAfter(prev: Entry, entry: Entry, ghost k: nat)
      requires Shape() && entry in cells && entry !in queue && entry.timer < U32
      requires 0 < k <= |queue| && prev == queue[k - 1]
      modifies `queue, prev`next, entry`next
      ensures Shape() && queue == old(queue)[..k] + [entry] + old(queue)[k..]
    {
      entry.next := prev.next;
      prev.next := entry;
      queue := queue[..k] + [entry] + queue[k..];
    }

    /** Link entry in after the first k, arming the hardware if it becomes the head. */
    method InsertEntry(prev: Entry?, entry: Entry, ghost k: nat, ghost p: seq<Timer>, ghost t: Timer, ghost now: nat)
      requires Shape() && entry in cells && entry !in queue && entry.timer < U32
      requires k <= |queue| && prev == if k == 0 then null else queue[k - 1]
      requires Waiting(p, now) && (queue != [] ==> queue[0].timer == counter)
      requires t.callback == entry.callback && t.Deadline() == now + entry.timer
      modifies `head, `queue, `counter, cells`next
      ensures Shape() && queue == old(queue)[..k] + [entry] + old(queue)[k..]
      ensures Waiting(p[..k] + [t] + p[k..], now)
    {
      ghost var q, p' := queue, p[..k] + [t] + p[k..];
      if prev == null {
        SlistInsertHead(entry);
        counter := entry.timer;
      } else {
        SlistInsertAfter(prev, entry, k);
      }
      forall i | 0 <= i < |queue| ensures Shows(p'[i], queue[i], now) {
        if i != k {
          var j := if i < k then i else i - 1;
          assert queue[i] == q[j] && p'[i] == p[j];
          assert old(Shows(p[j], q[j], now));
        }
      }
    }

    /** On an up-to-date list queue_find_loc finds the place of the new deadline. */
    lemma FoundPlace(time: nat, k: nat)
      requires Running() && k <= |queue| && (queue != [] ==> queue[0].timer == counter)
      requires forall i :: 0 <= i < k ==> queue[i].timer <= time
      requires k < |queue| ==> time < queue[k].timer
      ensures k == Place(s.pending, s.now + time)
    {
      forall i | 0 <= i < |queue| ensures s.pending[i].Deadline() == s.now + queue[i].timer {
        assert Shows(s.pending[i], queue[i], s.now);
      }
      PlaceIs(s.pending, s.now + time, k);
    }

    method UpdateAndFind(entry: Entry) returns (prev: Entry?, ghost k: nat)
      requires Running() && HeadIsLeast() && entry in cells && entry !in queue
      modifies cells`timer
      ensures Running() && (queue != [] ==> queue[0].timer == counter) && entry.timer == old(entry.timer)
      ensures k == Place(s.pending, s.now + entry.timer) && prev == if k == 0 then null else queue[k - 1]
    {
      QueueSubHeadTime();
      prev, k := QueueFindLoc(entry);
      FoundPlace(entry.timer, k);
    }

    /** queue_add_timer: the entry goes after every entry not later than it, and only
        a new head arms the hardware. */
    method QueueAddTimer(entry: Entry) returns (ghost k: nat)
      requires Running() && HeadIsLeast() && entry in cells && entry !in queue && 0 < entry.timer < U32
      modifies `head, `queue, `counter, `s, cells`timer, cells`next
      ensures Running() && s == Step(old(s), Add(old(entry.timer), entry.callback))
      ensures k <= |old(queue)| && queue == old(queue)[..k] + [entry] + old(queue)[k..]
      ensures s.now == old(s.now) && k <= |old(s).pending|
      ensures s.pending ==
              old(s).pending[..k] + [Timer(|old(s).added|, entry.callback, s.now, old(entry.timer))] + old(s).pending[k..]
    {
      var prev;
      prev, k := UpdateAndFind(entry);
      ghost var t := Timer(|s.added|, entry.callback, s.now, entry.timer);
      ghost var p := s.pending;
      s := Step(s, Add(entry.timer, entry.callback));
      assert s.pending == p[..k] + [t] + p[k..];
      InsertEntry(prev, entry, k, p, t, s.now);
    }

    /** An entry for one more timer, the lowest unused one; null exactly when all 2048
        are waiting. */
    method ClaimEntry() returns (entry: Entry?)
      requires Valid()
      modifies `used, `handed, bitMap
      ensures Running() && (entry == null <==> |queue| == 2048) && |queue| <= 2048
      ensures entry == null ==> Valid() && handed == old(handed)
      ensures entry != null ==> entry in cells && entry !in queue && used == SlotsOf(queue + [entry])
      ensures entry != null ==> handed == old(handed) + {entry.slot} && (|queue| < 256 ==> entry.slot < 256)
    {
      QueueFits();
      entry := AllocateNewEntry();
      assert Coupled();
      if entry == null {
        AllSlots(used, SLOTS);
      } else {
        if |queue| == SLOTS {
          AllBelow(old(used), SLOTS);
        }
        if entry.slot >= PAGE_SLOTS {
          AllSlots(old(used), PAGE_SLOTS);
        }
        SlotsAppend(queue, entry);
      }
    }

    /** As many slots are in use as timers wait. */
    lemma QueueFits()
      requires Valid()
      ensures |used| == |queue| <= SLOTS && forall t :: t in used ==> 0 <= t < SLOTS
    {
      ReachableState();
      DistinctSlots(queue);
      BelowCount(used, SLOTS);
    }

    /** The part of new_timer for a time that is not zero; false is the write through
        the null pointer. */
    method StartTimer(time: nat, callback: int) returns (ok: bool)
      requires Valid() && HeadIsLeast() && 0 < time < U32
      modifies `head, `queue, `counter, `s, `used, `handed, cells, bitMap
      ensures Valid() && ok == (|old(queue)| < 2048)
      ensures !ok ==> s == old(s) && queue == old(queue) && handed == old(handed)
      ensures ok ==> s == Step(old(s), Add(time, callback)) && |queue| == |old(queue)| + 1
      ensures ok ==> exists e :: e in queue && e !in old(queue) && TookSlot(e, old(queue), old(handed))
    {
      var entry := ClaimEntry();
      if entry == null {
        return false;
      }
      FillEntry(entry, time, callback);
      ghost var k := QueueAddTimer(entry);
      InsertedEntry(old(queue), k, entry);
      SlotsAppend(old(queue), entry);
      assert TookSlot(entry, old(queue), old(handed));
      ok := true;
    }

    /** e took the lowest free slot; with fewer than 256 timers waiting that lies in the page. */
    ghost predicate TookSlot(e: Entry, was: seq<Entry>, before: set<nat>)
      reads `queue, `handed
    {
      && SlotsOf(queue) == SlotsOf(was) + {e.slot} && handed == before + {e.slot}
      && (|was| < 256 ==> e.slot < 256)
    }

    method FillEntry(entry: Entry, time: nat, callback: int)
      requires Running() && HeadIsLeast() && entry in cells && entry !in queue
      modifies entry`timer, entry`callback
      ensures Running() && HeadIsLeast() && entry.timer == time && entry.callback == callback
    {
      entry.timer := time;
      entry.callback := callback;
      forall i | 0 <= i < |queue| ensures Shows(s.pending[i], queue[i], s.now) {
        assert old(Shows(s.pending[i], queue[i], s.now));
      }
    }

    /** new_timer: one Add step, unless all 2048 entries are waiting, when it writes
        through a null pointer (false).  While fewer than 256 timers wait, the entry used
        lies in the one page of entries. */
    method NewTimer(time: nat, callback: int) returns (ok: bool)
      requires Valid() && Inv(s) && time < 0x1_0000_0000
      modifies `head, `queue, `counter, `s, `calls, `used, `handed, cells, bitMap
      ensures Valid() && ok == (time == 0 || |old(queue)| < 2048)
      ensures s == if ok then Step(old(s), Add(time, callback)) else old(s)
      ensures |queue| == |old(queue)| + if ok && time > 0 then 1 else 0
      ensures if !ok || time == 0 then queue == old(queue) && handed == old(handed)
              else exists e :: e in queue && e !in old(queue) && TookSlot(e, old(queue), old(handed))
    {
      if time == 0 {
        CallNow(callback);
        ok := true;
      } else {
        ClampNeverTaken();
        ok := StartTimer(time, callback);
      }
    }

    /** The part of new_timer for time zero: the callback runs at once. */
    method CallNow(callback: int)
      requires Valid()
      modifies `calls, `s
      ensures Valid() && s == Step(old(s), Add(0, callback))
    {
      ghost var t := Timer(|s.added|, callback, s.now, 0);
      TimersOfAppend(s.fired, [Firing(t, s.now)]);
      assert TimersOf([Firing(t, s.now)]) == [t];
      CallsOfAppend(TimersOf(s.fired), [t]);
      calls := calls + [callback];
      s := Step(s, Add(0, callback));
      forall i | 0 <= i < |queue| ensures Shows(s.pending[i], queue[i], s.now) {
        assert old(Shows(s.pending[i], queue[i], s.now));
      }
    }

    /** One entry of the handler's walk: run its callback and give back its slot. */
    method RunAndFree(entry: Entry, ghost k: nat)
      requires Shape() && k < |queue| && entry == queue[k] && used == SlotsOf(queue[k..])
      modifies `calls, `used, bitMap
      ensures Shape() && used == SlotsOf(queue[k + 1..])
      ensures calls == old(calls) + [entry.callback]
    {
      SlotsTail(queue, k);
      calls := calls + [entry.callback];
      QueueFree(entry);
    }

    /** Slots are distinct because entries are. */
    lemma SlotsTail(q: seq<Entry>, k: nat)
      requires Shape() && k < |q|
      requires forall i :: 0 <= i < |q| ==> q[i] in cells
      requires forall i, j :: 0 <= i < j < |q| ==> q[i] != q[j]
      ensures q[k].slot in SlotsOf(q[k..])
      ensures SlotsOf(q[k + 1..]) == SlotsOf(q[k..]) - {q[k].slot}
    {
      assert q[k..] == [q[k]] + q[k + 1..];
      assert q[k] in q[k..];
      forall e | e in q[k + 1..] ensures e.slot != q[k].slot {
        var i :| 0 <= i < |q| - k - 1 && q[k + 1..][i] == e;
        assert e == q[k + 1 + i];
        assert entries[e.slot] == e && entries[q[k].slot] == q[k];
      }
    }

    /** The loop of timer_handler: from the second entry on, run and free every entry
        with no time left; the first one with time left arms the hardware. */
    method ServeRest(from: Entry?, ghost p: seq<Timer>) returns (h: Entry?, ghost k: nat)
      requires Shape() && queue != [] && from == First(queue, 1) && used == SlotsOf(queue[1..]) && queue[0].timer == 0
      requires |p| == |queue| && forall i :: 0 <= i < |p| ==> p[i].callback == queue[i].callback
      modifies `counter, `calls, `used, bitMap
      ensures Shape() && 0 < k <= |queue| && h == First(queue, k) && used == SlotsOf(queue[k..])
      ensures calls == old(calls) + CallsOf(p[1..k])
      ensures forall i :: 0 <= i < k ==> queue[i].timer == 0
      ensures if k < |queue| then counter == queue[k].timer > 0 else counter == old(counter)
    {
      h, k := from, 1;
      while h != null
        invariant 0 < k <= |queue| && h == First(queue, k) && Shape() && used == SlotsOf(queue[k..])
        invariant calls == old(calls) + CallsOf(p[1..k]) && counter == old(counter)
        invariant forall i :: 0 <= i < k ==> queue[i].timer == 0
        decreases |queue| - k
      {
        var tle := h;
        if tle.timer == 0 {
          assert p[1..k + 1] == p[1..k] + [p[k]];
          CallsOfAppend(p[1..k], [p[k]]);
          h := h.next;
          RunAndFree(tle, k);
          k := k + 1;
          continue;
        }
        counter := tle.timer;
        break;
      }
    }

    /** The start of timer_handler: the head is run and freed, and its stored time,
        which has now elapsed, is taken off every entry. */
    method ServeHead(ghost p: seq<Timer>, ghost now: nat) returns (h: Entry?)
      requires Valid() && HeadIsLeast() && queue != [] && counter == 0 && Waiting(p, now)
      modifies `calls, `used, cells`timer, bitMap
      ensures Shape() && used == SlotsOf(queue[1..]) && h == First(queue, 1)
      ensures queue[0].timer == 0 && calls == old(calls) + [p[0].callback]
      ensures forall i :: 0 <= i < |queue| ==> p[i].Deadline() == now + queue[i].timer && p[i].callback == queue[i].callback
    {
      forall i | 0 <= i < |queue|
        ensures p[i].callback == queue[i].callback && p[i].Deadline() == now + (queue[i].timer - queue[0].timer)
      {
        assert Shows(p[i], queue[i], now);
      }
      var tle := head;
      assert queue[0..] == queue;
      RunAndFree(tle, 0);
      QueueSubTimer(tle.timer);
      h := tle.next;
    }

    /** The end of timer_handler: the list now starts after the k entries served. */
    method DropServed(h: Entry?, ghost k: nat, ghost p: seq<Timer>, ghost now: nat)
      requires Shape() && k <= |queue| && h == First(queue, k) && |p| == |queue|
      requires forall i :: 0 <= i < |queue| ==> p[i].Deadline() == now + queue[i].timer && p[i].callback == queue[i].callback
      requires k < |queue| ==> counter == queue[k].timer
      modifies `head, `queue
      ensures Shape() && queue == old(queue)[k..] && Waiting(p[k..], now)
    {
      head := h;
      queue := queue[k..];
    }

    /** timer_handler, with the hardware at zero: what is left of the list keeps its
        deadlines, and the callbacks of all entries that were due ran in list order. */
    method Serve(ghost p: seq<Timer>, ghost now: nat) returns (ghost k: nat)
      requires Valid() && HeadIsLeast() && queue != [] && counter == 0 && Waiting(p, now)
      modifies `head, `queue, `counter, `calls, `used, cells`timer, bitMap
      ensures Shape() && used == SlotsOf(queue) && k <= |old(queue)| && queue == old(queue)[k..]
      ensures k <= |p| && calls == old(calls) + CallsOf(p[..k])
      ensures forall i :: 0 <= i < k ==> p[i].Deadline() == now
      ensures k < |p| ==> p[k].Deadline() != now
      ensures Waiting(p[k..], now)
    {
      var h := ServeHead(p, now);
      h, k := ServeRest(h, p);
      assert p[..k] == [p[0]] + p[1..k];
      CallsOfAppend([p[0]], p[1..k]);
      assert calls == old(calls) + CallsOf(p[..k]);
      DropServed(h, k, p, now);
    }

    method ServeDue()
      requires Valid() && HeadIsLeast() && queue != [] && counter == 0 && Enabled(s, Fire)
      modifies `head, `queue, `counter, `calls, `used, `s, cells`timer, bitMap
      ensures Valid() && s == Step(old(s), Fire) && SlotsOf(queue) <= old(SlotsOf(queue))
    {
      ghost var was := queue;
      ghost var k := Serve(s.pending, s.now);
      SuffixSlots(was, k);
      DueIs(s.pending, s.now, k);
      TimersOfAppend(s.fired, Firings(s.pending[..k], s.now));
      assert TimersOf(Firings(s.pending[..k], s.now)) == s.pending[..k];
      CallsOfAppend(TimersOf(s.fired), s.pending[..k]);
      s := Step(s, Fire);
    }

    /** The interrupt: one Fire step, or the read through a null pointer (false) when no
        timer waits. */
    method TimerHandler() returns (ok: bool)
      requires Valid() && Inv(s) && (queue != [] ==> counter == 0)
      modifies `head, `queue, `counter, `calls, `used, `s, cells`timer, bitMap
      ensures Valid() && ok == (old(queue) != []) && SlotsOf(queue) <= old(SlotsOf(queue))
      ensures if ok then s == Step(old(s), Fire) else s == old(s) && queue == old(queue) && calls == old(calls)
    {
      if head == null {
        return false;
      }
      ClampNeverTaken();
      assert Shows(s.pending[0], queue[0], s.now);
      ServeDue();
      ok := true;
    }

    /** Time passes; the hardware counts down and stops at zero. */
    method Tick(dt: nat)
      requires Valid() && Enabled(s, Event.Tick(dt))
      modifies `counter, `s
      ensures Valid() && s == Step(old(s), Event.Tick(dt))
    {
      counter := if counter < dt then 0 else counter - dt;
      s := Step(s, Event.Tick(dt));
    }

    /** timer_init.  Its memset clears one byte of the bitmap: the length
        BITMAP_SIZE * sizeof(u32) expands to 4096 / 16 >> 2 * 4, which is 1.  So the
        queue is in its start state exactly when no slot from 8 on was in use. */
    method TimerInit()
      requires Shape()
      modifies `head, `queue, `calls, `used, `handed, `s, bitMap
      ensures Running() && s == Start && queue == [] && calls == [] && handed == {}
      ensures used == HighSlots(old(used))
      ensures Valid() <==> forall t :: t in old(used) ==> t < 8
    {
      ghost var words, kept := bitMap[..], HighSlots(used);
      ClearedPacked(words, used);
      head, queue, calls, handed, s := null, [], [], {}, Start;
      bitMap[0] := ByteCleared(bitMap[0]);
      used := kept;
      assert bitMap[..] == words[0 := ByteCleared(words[0])];
      assert SlotsOf([]) == {};
    }

    /** The state at boot: the zeroed globals, the page of entries, then timer_init. */
    constructor ()
      ensures Valid() && s == Start && queue == [] && calls == [] && handed == {}
      ensures fresh(cells) && fresh(bitMap)
    {
      var page: seq<Entry> := [];
      for i := 0 to SLOTS
        invariant |page| == i && forall j :: 0 <= j < i ==> page[j].slot == j && fresh(page[j])
      {
        var e := new Entry(i);
        page := page + [e];
      }
      entries, cells := page, set e | e in page;
      bitMap := new bv32[WORDS](_ => 0);
      head, counter, calls, queue, used, handed, s := null, 0, [], [], {}, {}, Start;
      new;
      forall t: nat | t < SLOTS ensures !BitAt(bitMap[..], t) {
        ZeroBit(t % 32);
      }
      TimerInit();
    }

    /** All slots handed out so far lie in the one page of entries. */
    ghost predicate InPage()
      reads `handed
    {
      forall t :: t in handed ==> t < 256
    }

    /** More than 256 waiting timers need a slot outside the page. */
    lemma PageHolds()
      requires Valid() && SlotsOf(queue) <= handed && InPage()
      ensures |queue| <= 256
    {
      ReachableState();
      DistinctSlots(queue);
      BelowCount(SlotsOf(queue), PAGE_SLOTS);
    }

    /** Any possible run of events, carried out by the operations, takes the list, the
        bitmap, the hardware and the callbacks through the same run of TimerSpec.  Along
        the run every slot handed out lies in the page if and only if there are never
        more than 256 timers waiting. */
    method Replay(events: seq<Event>)
      requires Valid() && Inv(s) && Possible(s, events) && Fits(s, events) && SlotsOf(queue) <= handed
      modifies `head, `queue, `counter, `calls, `used, `handed, `s, cells, bitMap
      ensures Valid() && Inv(s) && s == Run(old(s), events)
      ensures SlotsOf(queue) <= handed && old(handed) <= handed
      ensures InPage() <==> old(InPage()) && FewWait(old(s), events)
      decreases |events|
    {
      if events != [] {
        StepKeepsInv(s, events[0]);
        if InPage() {
          PageHolds();
        }
        ReachableState();
        PlayEvent(events[0]);
        Replay(events[1..]);
      } else if InPage() {
        PageHolds();
        ReachableState();
      }
    }

    method PlayEvent(e: Event)
      requires Valid() && Inv(s) && Enabled(s, e) && SlotsOf(queue) <= handed
      requires e.Add? ==> e.delay < U32 && (e.delay > 0 ==> |s.pending| < SLOTS)
      modifies `head, `queue, `counter, `calls, `used, `handed, `s, cells, bitMap
      ensures Valid() && s == Step(old(s), e)
      ensures SlotsOf(queue) <= handed && old(handed) <= handed
      ensures old(InPage()) && |s.pending| <= PAGE_SLOTS ==> InPage()
    {
      match e {
        case Add(delay, callback) =>
          PlayAdd(delay, callback);
        case Tick(dt) =>
          Tick(dt);
        case Fire =>
          assert Shows(s.pending[0], queue[0], s.now);
          var ok := TimerHandler();
      }
    }

    method PlayAdd(delay: nat, callback: int)
      requires Valid() && Inv(s) && SlotsOf(queue) <= handed && delay < U32 && (delay > 0 ==> |queue| < SLOTS)
      modifies `head, `queue, `counter, `calls, `used, `handed, `s, cells, bitMap
      ensures Valid() && s == Step(old(s), Add(delay, callback))
      ensures SlotsOf(queue) <= handed && old(handed) <= handed
      ensures old(InPage()) && |queue| <= PAGE_SLOTS ==> InPage()
    {
      ghost var was, before, slots := queue, handed, SlotsOf(queue);
      var ok := NewTimer(delay, callback);
      if delay > 0 {
        ghost var e :| e in queue && e !in was && TookSlot(e, was, before);
        assert SlotsOf(queue) == slots + {e.slot} && handed == before + {e.slot};
      } else {
        assert SlotsOf(queue) == slots && handed == before;
      }
    }
  }

  /** There are never more than 256 timers waiting. */
  ghost predicate FewWait(s: State, events: seq<Event>)
    requires Possible(s, events)
    decreases |events|
  {
    |s.pending| <= 256 && (events == [] || FewWait(Step(s, events[0]), events[1..]))
  }

  /** Delays are 32-bit and a slot is left whenever a timer is queued. */
  ghost predicate Fits(s: State, events: seq<Event>)
    requires Possible(s, events)
    decreases |events|
  {
    events == [] ||
    (&& (events[0].Add? ==> events[0].delay < 0x1_0000_0000 && (events[0].delay > 0 ==> |s.pending| < 2048))
     && Fits(Step(s, events[0]), events[1..]))
  }

  /** Any possible run from boot: the callbacks made are those the events ask for, each
      at its time. */
  method FromBoot(events: seq<Event>) returns (q: Queue)
    requires Possible(Start, events) && Fits(Start, events)
    ensures q.Valid() && ServedFor(events, q.s.fired) && q.s.now == TicksIn(events)
    ensures |q.calls| == |q.s.fired|
    ensures forall j :: 0 <= j < |q.calls| ==>
              exists i: nat :: FiredFor(events, i, q.s.fired[j]) && q.calls[j] == events[i].callback
  {
    q := new Queue();
    AnyRun(events);
    q.Replay(events);
    forall j | 0 <= j < |q.calls|
      ensures exists i: nat :: FiredFor(events, i, q.s.fired[j]) && q.calls[j] == events[i].callback
    {
      assert q.s.fired[j] in q.s.fired;
      var i: nat :| FiredFor(events, i, q.s.fired[j]);
      assert CallsOf(TimersOf(q.s.fired))[j] == q.s.fired[j].timer.callback;
    }
  }

  // ------------------------------------------------ a run that outgrows the page

  /** n requests at once, of one time unit each. */
  function Adds(n: nat): seq<Event> {
    if n == 0 then [] else [Add(1, 0)] + Adds(n - 1)
  }

  /** From s on, n requests are possible; they fit the slots, and the page, exactly as
      far as their number says. */
  lemma {:induction false} AddsCount(s: State, n: nat)
    ensures Possible(s, Adds(n))
    ensures Fits(s, Adds(n)) <==> n == 0 || |s.pending| + n <= SLOTS
    ensures FewWait(s, Adds(n)) <==> |s.pending| + n <= PAGE_SLOTS
    decreases n
  {
    if n > 0 {
      var e := Add(1, 0);
      assert Adds(n)[0] == e && Adds(n)[1..] == Adds(n - 1);
      assert |Step(s, e).pending| == |s.pending| + 1;
      AddsCount(Step(s, e), n - 1);
    }
  }

  /** n timers at once from boot on, as far as there are slots: all entries lie in the
      page if and only if n is at most 256. */
  method PageOverflows(n: nat) returns (q: Queue)
    requires n <= 2048
    ensures q.Valid() && |q.s.added| == n && (q.InPage() <==> n <= 256)
  {
    q := new Queue();
    AddsCount(Start, n);
    AddsKept(Start, n);
    q.Replay(Adds(n));
  }

  lemma {:induction false} AddsKept(s: State, n: nat)
    requires Possible(s, Adds(n))
    ensures |Run(s, Adds(n)).added| == |s.added| + n
    decreases n
  {
    if n > 0 {
      assert Adds(n)[0] == Add(1, 0) && Adds(n)[1..] == Adds(n - 1);
      AddsKept(Step(s, Add(1, 0)), n - 1);
    }
  }

  lemma ZeroBit(k: nat)
    requires k < 32
    ensures !Bit32(0, k)
  {
  }

  lemma InsertedEntry(q: seq<Entry>, k: nat, e: Entry)
    requires k <= |q|
    ensures SlotsOf(q[..k] + [e] + q[k..]) == SlotsOf(q + [e])
    ensures forall x :: x in q[..k] + [e] + q[k..] <==> x in q || x == e
  {
    assert q == q[..k] + q[k..];
    assert forall x :: x in q[..k] + [e] + q[k..] <==> x in q || x == e;
  }

  lemma {:induction false} PlaceIs(p: seq<Timer>, deadline: nat, k: nat)
    requires k <= |p|
    requires forall i :: 0 <= i < k ==> p[i].Deadline() <= deadline
    requires k < |p| ==> deadline < p[k].Deadline()
    ensures Place(p, deadline) == k
  {
    if k > 0 {
      PlaceIs(p[1..], deadline, k - 1);
    }
  }

  lemma {:induction false} DueIs(p: seq<Timer>, now: nat, k: nat)
    requires k <= |p|
    requires forall i :: 0 <= i < k ==> p[i].Deadline() == now
    requires k < |p| ==> p[k].Deadline() != now
    ensures DueCount(p, now) == k
  {
    if k > 0 {
      DueIs(p[1..], now, k - 1);
    }
  }

  lemma SuffixSlots(q: seq<Entry>, k: nat)
    requires k <= |q|
    ensures SlotsOf(q[k..]) <= SlotsOf(q)
  {
    assert forall e :: e in q[k..] ==> e in q;
  }

  lemma SlotsAppend(q: seq<Entry>, e: Entry)
    ensures SlotsOf(q + [e]) == SlotsOf(q) + {e.slot}
  {
    assert e in q + [e];
  }

  /** Entries with distinct slots have as many slots as they are. */
  lemma {:induction false} DistinctSlots(q: seq<Entry>)
    requires forall i, j :: 0 <= i < j < |q| ==> q[i].slot != q[j].slot
    ensures |SlotsOf(q)| == |q|
  {
    if q != [] {
      var n := |q| - 1;
      DistinctSlots(q[..n]);
      assert q == q[..n] + [q[n]];
      SlotsAppend(q[..n], q[n]);
      forall e | e in q[..n] ensures e.slot != q[n].slot {
        var i :| 0 <= i < n && q[..n][i] == e;
      }
    } else {
      assert SlotsOf(q) == {};
    }
  }

  /** n numbers below n are all of them. */
  lemma {:induction false} AllBelow(s: set<nat>, n: nat)
    requires |s| == n && forall t :: t in s ==> t < n
    ensures forall t: nat :: t < n ==> t in s
  {
    if n > 0 {
      BelowCount(s - {n - 1}, n - 1);
      AllBelow(s - {n - 1}, n - 1);
    }
  }

  /** Below n there are n numbers. */
  lemma {:induction false} BelowCount(s: set<nat>, n: nat)
    requires forall t :: t in s ==> t < n
    ensures |s| <= n
  {
    if n > 0 {
      BelowCount(s - {n - 1}, n - 1);
    } else {
      assert s == {};
    }
  }

  ghost function HighSlots(used: set<nat>): (high: set<nat>)
    ensures high == {} <==> forall t :: t in used ==> t < 8
  {
    var high := set t | t in used && t >= 8;
    assert forall t :: t in used && t >= 8 ==> t in high;
    high
  }

  /** memset over the low byte of a word. */
  function ByteCleared(w: bv32): bv32 { w & 0xffff_ff00 }

  /** Clearing the first byte of the bitmap. */
  lemma ClearedPacked(words: seq<bv32>, used: set<nat>)
    requires Packed(words, used)
    ensures Packed(words[0 := ByteCleared(words[0])], HighSlots(used))
  {
    var words' := words[0 := ByteCleared(words[0])];
    forall t: nat | t < SLOTS ensures BitAt(words', t) <==> t in HighSlots(used) {
      assert BitAt(words, t) <==> t in used;
      var i, k := t / 32, t % 32;
      if i == 0 {
        assert t == k;
        LowByteCleared(words[0], k);
      } else {
        assert words'[i] == words[i];
      }
    }
  }

  lemma LowByteCleared(w: bv32, k: nat)
    requires k < 32
    ensures Bit32(ByteCleared(w), k) <==> k >= 8 && Bit32(w, k)
  {
    LowByteMask(k);
    ClearedBit(w, Mask32(k), k >= 8);
  }

  lemma ClearedBit(w: bv32, m: bv32, high: bool)
    requires ByteCleared(m) == if high then m else 0
    ensures Meets32(ByteCleared(w), m) <==> high && Meets32(w, m)
  {
    if high {
      HighKept(w, m);
    } else {
      LowLost(w, m);
    }
  }

  lemma LowByteMask(k: nat)
    requires k < 32
    ensures ByteCleared(Mask32(k)) == if k >= 8 then Mask32(k) else 0
  {
  }

  lemma HighKept(w: bv32, m: bv32)
    requires ByteCleared(m) == m
    ensures Meets32(ByteCleared(w), m) <==> Meets32(w, m)
  {
  }

  lemma LowLost(w: bv32, m: bv32)
    requires ByteCleared(m) == 0
    ensures !Meets32(ByteCleared(w), m)
  {
  }

  /** A set holding all numbers below n has at least n elements. */
  lemma {:induction false} AllSlots(used: set<nat>, n: nat)
    ensures (forall t :: 0 <= t < n ==> t in used) ==> n <= |used|
  {
    if n > 0 && forall t :: 0 <= t < n ==> t in used {
      AllSlots(used - {n - 1}, n - 1);
    }
  }
}
