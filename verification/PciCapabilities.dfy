/** The capability search of kernel/drivers/pci/pci.c over a fixed 256-byte
    configuration space.  The list is linked by bytes the device supplies, so it
    may be cyclic; the walk gives up after 48 entries, and that is exactly enough
    (capability lists are section 6.7 of the PCI Local Bus Specification 3.0). */
module PciCapabilities {
  import opened Wrappers

  type Byte = n: nat | n < 256

  type ConfigSpace = c: seq<Byte> | |c| == 256 witness seq(256, i => 0)

  const STATUS_OFFSET: nat := 0x06
  const CAPABILITIES_POINTER_OFFSET: nat := 0x34
  const FIND_CAP_TTL: nat := 48

  /** A 16-bit read, low byte first. */
  function ReadWord(c: ConfigSpace, at: nat): nat
    requires at < 255
  {
    var lo: nat := c[at];
    var hi: nat := c[at + 1];
    lo + 256 * hi
  }

  /** pos &= ~3 */
  function Align(pos: nat): nat {
    pos - pos % 4
  }

  /** The position of the k-th entry of the list that starts at the pointer p, if
      the list does not end before: a pointer below 0x40 or the id 0xff ends it. */
  function EntryAt(c: ConfigSpace, p: Byte, k: nat): Option<nat>
    decreases k
  {
    if p < 0x40 || c[Align(p)] == 0xff then None
    else if k == 0 then Some(Align(p))
    else EntryAt(c, c[Align(p) + 1], k - 1)
  }

  ghost predicate HasId(c: ConfigSpace, p: Byte, k: nat, id: Byte) {
    EntryAt(c, p, k).Some? && EntryAt(c, p, k).value < 256 && c[EntryAt(c, p, k).value] == id
  }

  /** Some entry of the list, however far along, has this id. */
  ghost predicate Listed(c: ConfigSpace, p: Byte, id: Byte) {
    exists k :: HasId(c, p, k, id)
  }

  /** k is the first entry with this id. */
  ghost predicate FirstWithId(c: ConfigSpace, p: Byte, k: nat, id: Byte) {
    HasId(c, p, k, id) && forall j :: 0 <= j < k ==> !HasId(c, p, j, id)
  }

  // The same over the bytes alone: positions that lead from a pointer to an id.

  /** qs are the positions visited from pointer p on, the last of them holding cap. */
  ghost predicate Chain(c: ConfigSpace, p: Byte, qs: seq<nat>, cap: Byte) {
    && |qs| > 0 && p >= 64 && qs[0] == p / 4 * 4
    && (forall i :: 0 <= i < |qs| ==> qs[i] < 255 && c[qs[i]] != 255)
    && (forall i :: 0 <= i < |qs| - 1 ==> c[qs[i] + 1] >= 64 && qs[i + 1] == c[qs[i] + 1] / 4 * 4)
    && c[qs[|qs| - 1]] == cap
  }

  /** A chain that ends at its first position with that id. */
  ghost predicate FirstChain(c: ConfigSpace, p: Byte, qs: seq<nat>, cap: Byte, r: nat) {
    Chain(c, p, qs, cap) && qs[|qs| - 1] == r && forall i :: 0 <= i < |qs| - 1 ==> c[qs[i]] != cap
  }

  lemma {:induction false} ChainEntries(c: ConfigSpace, p: Byte, qs: seq<nat>, cap: Byte, i: nat)
    requires Chain(c, p, qs, cap) && i < |qs|
    ensures EntryAt(c, p, i) == Some(qs[i])
    decreases i
  {
    AlignIsFloor(p);
    if i > 0 {
      ChainEntries(c, p, qs, cap, i - 1);
      EntryAfter(c, p, i - 1, 0);
      AlignIsFloor(c[qs[i - 1] + 1]);
    }
  }

  lemma AlignIsFloor(p: nat)
    ensures Align(p) == p / 4 * 4
  {
  }

  /** The positions of the first k + 1 entries. */
  ghost function Positions(c: ConfigSpace, p: Byte, k: nat): (qs: seq<nat>)
    requires EntryAt(c, p, k).Some?
    ensures |qs| == k + 1 && forall i :: 0 <= i <= k ==> EntryAt(c, p, i) == Some(qs[i])
  {
    forall i | 0 <= i <= k ensures EntryAt(c, p, i).Some? {
      EarlierEntries(c, p, i, k);
    }
    seq(k + 1, i requires 0 <= i < k + 1 => (EarlierEntries(c, p, i, k); EntryAt(c, p, i).value))
  }

  lemma EntriesChain(c: ConfigSpace, p: Byte, k: nat, cap: Byte)
    requires HasId(c, p, k, cap)
    ensures Chain(c, p, Positions(c, p, k), cap)
  {
    var qs := Positions(c, p, k);
    AlignIsFloor(p);
    forall i | 0 <= i <= k ensures qs[i] < 255 && c[qs[i]] != 255 {
      assert EntryAt(c, p, i) == Some(qs[i]);
      EntryRange(c, p, i);
      EntryId(c, p, i);
    }
    forall i | 0 <= i < k ensures c[qs[i] + 1] >= 64 && qs[i + 1] == c[qs[i] + 1] / 4 * 4 {
      assert EntryAt(c, p, i) == Some(qs[i]) && EntryAt(c, p, i + 1) == Some(qs[i + 1]);
      EntryAfter(c, p, i, 0);
      AlignIsFloor(c[qs[i] + 1]);
    }
    assert EntryAt(c, p, 0) == Some(qs[0]);
  }

  lemma {:induction false} EntryId(c: ConfigSpace, p: Byte, k: nat)
    requires EntryAt(c, p, k).Some?
    ensures EntryAt(c, p, k).value < 256 && c[EntryAt(c, p, k).value] != 255
    decreases k
  {
    if k > 0 {
      EntryId(c, c[Align(p) + 1], k - 1);
    }
  }

  /** Being listed is being reachable over the bytes. */
  lemma ListedIsChain(c: ConfigSpace, p: Byte, cap: Byte)
    ensures Listed(c, p, cap) <==> exists qs :: Chain(c, p, qs, cap)
  {
    if Listed(c, p, cap) {
      var k :| HasId(c, p, k, cap);
      EntriesChain(c, p, k, cap);
    }
    forall qs | Chain(c, p, qs, cap) ensures Listed(c, p, cap) {
      ChainEntries(c, p, qs, cap, |qs| - 1);
      assert HasId(c, p, |qs| - 1, cap);
    }
  }

  lemma FirstIsFirstChain(c: ConfigSpace, p: Byte, k: nat, cap: Byte)
    requires FirstWithId(c, p, k, cap)
    ensures FirstChain(c, p, Positions(c, p, k), cap, EntryAt(c, p, k).value)
  {
    var qs := Positions(c, p, k);
    EntriesChain(c, p, k, cap);
    forall i | 0 <= i < k ensures c[qs[i]] != cap {
      assert EntryAt(c, p, i) == Some(qs[i]) && !HasId(c, p, i, cap);
    }
  }

  // ---------------------------------------------------------------- why 48 is enough

  /** Entries lie at multiples of four from 64 to 252. */
  lemma {:induction false} EntryRange(c: ConfigSpace, p: Byte, k: nat)
    ensures EntryAt(c, p, k).Some? ==>
            var q := EntryAt(c, p, k).value; 64 <= q <= 252 && q % 4 == 0
    decreases k
  {
    if p >= 0x40 && c[Align(p)] != 0xff && k > 0 {
      EntryRange(c, c[Align(p) + 1], k - 1);
    }
  }

  /** What follows an entry depends only on where that entry lies. */
  lemma {:induction false} EntryAfter(c: ConfigSpace, p: Byte, i: nat, d: nat)
    requires EntryAt(c, p, i).Some?
    ensures EntryAt(c, p, i).value < 255
    ensures EntryAt(c, p, i + 1 + d) == EntryAt(c, c[EntryAt(c, p, i).value + 1], d)
    decreases i
  {
    EntryRange(c, p, i);
    if i > 0 {
      EntryAfter(c, c[Align(p) + 1], i - 1, d);
    }
  }

  lemma EarlierEntries(c: ConfigSpace, p: Byte, i: nat, k: nat)
    requires EntryAt(c, p, k).Some? && i <= k
    ensures EntryAt(c, p, i).Some?
    decreases k
  {
    if i < k && k > 0 {
      if i > 0 {
        EarlierEntries(c, c[Align(p) + 1], i - 1, k - 1);
      }
    }
  }

  /** Up to the first match no position repeats: a repeat would lead to an earlier match. */
  lemma NoRepeat(c: ConfigSpace, p: Byte, i: nat, j: nat, k: nat, id: Byte)
    requires FirstWithId(c, p, k, id) && i < j <= k
    ensures EntryAt(c, p, i) != EntryAt(c, p, j)
  {
    EarlierEntries(c, p, i, k);
    EarlierEntries(c, p, j, k);
    if EntryAt(c, p, i) == EntryAt(c, p, j) {
      var back := k - (j - i);
      if j < k {
        EntryAfter(c, p, i, k - j - 1);
        EntryAfter(c, p, j, k - j - 1);
      }
      assert EntryAt(c, p, back) == EntryAt(c, p, k);
      assert HasId(c, p, back, id);
    }
  }

  ghost function Visited(c: ConfigSpace, p: Byte, n: nat): set<int>
    requires forall i :: 0 <= i < n ==> EntryAt(c, p, i).Some?
  {
    set i | 0 <= i < n :: EntryAt(c, p, i).value / 4
  }

  lemma {:induction false} VisitedCount(c: ConfigSpace, p: Byte, n: nat)
    requires forall i :: 0 <= i < n ==> EntryAt(c, p, i).Some?
    requires forall i, j :: 0 <= i < j < n ==> EntryAt(c, p, i) != EntryAt(c, p, j)
    ensures |Visited(c, p, n)| == n
  {
    if n > 0 {
      VisitedCount(c, p, n - 1);
      var last := EntryAt(c, p, n - 1).value;
      EntryRange(c, p, n - 1);
      forall i | 0 <= i < n - 1 ensures EntryAt(c, p, i).value / 4 != last / 4 {
        EntryRange(c, p, i);
        assert EntryAt(c, p, i) != EntryAt(c, p, n - 1);
      }
      assert Visited(c, p, n) == Visited(c, p, n - 1) + {last / 4};
    }
  }

  lemma {:induction false} RangeCount(s: set<int>, lo: int, hi: int)
    requires lo <= hi && forall x :: x in s ==> lo <= x < hi
    ensures |s| <= hi - lo
    decreases hi - lo
  {
    if lo < hi {
      RangeCount(s - {hi - 1}, lo, hi - 1);
    } else {
      assert s == {};
    }
  }

  /** There are only 48 places for an entry, so the first match is among the first 48. */
  lemma FirstMatchWithin48(c: ConfigSpace, p: Byte, k: nat, id: Byte)
    requires FirstWithId(c, p, k, id)
    ensures k < FIND_CAP_TTL
  {
    forall i | 0 <= i < k + 1 ensures EntryAt(c, p, i).Some? {
      EarlierEntries(c, p, i, k);
    }
    forall i, j | 0 <= i < j < k + 1 ensures EntryAt(c, p, i) != EntryAt(c, p, j) {
      NoRepeat(c, p, i, j, k, id);
    }
    VisitedCount(c, p, k + 1);
    var places := Visited(c, p, k + 1);
    forall x | x in places ensures 16 <= x < 64 {
      var i :| 0 <= i < k + 1 && x == EntryAt(c, p, i).value / 4;
      EntryRange(c, p, i);
    }
    RangeCount(places, 16, 64);
  }

  lemma {:induction false} LeastMatch(c: ConfigSpace, p: Byte, k: nat, id: Byte) returns (m: nat)
    requires HasId(c, p, k, id)
    ensures FirstWithId(c, p, m, id)
    decreases k
  {
    if j :| 0 <= j < k && HasId(c, p, j, id) {
      m := LeastMatch(c, p, j, id);
    } else {
      m := k;
    }
  }

  // ---------------------------------------------------------------- the walk

  method FindCapStart(c: ConfigSpace) returns (pos: nat)
    ensures pos == if (c[6] / 16) % 2 == 1 then 0x34 else 0
  {
    var status := ReadWord(c, STATUS_OFFSET);
    if (status / 0x10) % 2 == 0 {
      return 0;
    }
    pos := CAPABILITIES_POINTER_OFFSET;
  }

  /** pci_find_cap_next_ttl: the first match among the next ttl entries, 0 if there is none. */
  method FindCapNextTtl(c: ConfigSpace, start: Byte, cap: Byte, ttl: nat) returns (r: nat)
    ensures r != 0 ==> exists k :: 0 <= k < ttl && FirstWithId(c, c[start], k, cap) && EntryAt(c, c[start], k) == Some(r)
    ensures r == 0 ==> forall k :: 0 <= k < ttl ==> !HasId(c, c[start], k, cap)
  {
    var pos: Byte, left: nat := c[start], ttl;
    ghost var k: nat := 0;
    while left != 0
      invariant left + k == ttl
      invariant k == 0 ==> pos == c[start]
      invariant k > 0 ==> EntryAt(c, c[start], k - 1).Some?
      invariant k > 0 ==> EntryAt(c, c[start], k - 1).value < 255 && pos == c[EntryAt(c, c[start], k - 1).value + 1]
      invariant forall j :: 0 <= j < k ==> !HasId(c, c[start], j, cap)
      decreases left
    {
      left := left - 1;
      if k > 0 {
        EntryAfter(c, c[start], k - 1, 0);
      }
      assert EntryAt(c, c[start], k) == EntryAt(c, pos, 0);
      if pos < 0x40 {
        StaysEnded(c, c[start], k);
        return 0;
      }
      pos := Align(pos);
      var ent := ReadWord(c, pos);
      var id := ent % 256;
      if id == 0xff {
        StaysEnded(c, c[start], k);
        return 0;
      }
      if id == cap {
        assert HasId(c, c[start], k, cap);
        assert FirstWithId(c, c[start], k, cap);
        return pos;
      }
      pos := ent / 256;
      k := k + 1;
    }
    r := 0;
  }

  lemma StaysEnded(c: ConfigSpace, p: Byte, k: nat)
    requires EntryAt(c, p, k) == None
    ensures forall j, id :: k <= j ==> !HasId(c, p, j, id)
  {
    forall j: nat, id | k <= j ensures !HasId(c, p, j, id) {
      if EntryAt(c, p, j).Some? {
        EarlierEntries(c, p, k, j);
      }
    }
  }

  /** pci_find_cap_next: on every configuration space, cyclic lists included, the
      capability is found if and only if it is in the list, and its first entry is returned. */
  method FindCapNext(c: ConfigSpace, start: Byte, cap: Byte) returns (r: nat)
    ensures r != 0 <==> Listed(c, c[start], cap)
    ensures r != 0 ==> exists k :: FirstWithId(c, c[start], k, cap) && EntryAt(c, c[start], k) == Some(r)
    ensures r != 0 <==> exists qs :: Chain(c, c[start], qs, cap)
    ensures r != 0 ==> exists qs :: FirstChain(c, c[start], qs, cap, r)
  {
    ListedIsChain(c, c[start], cap);
    r := FindCapNextTtl(c, start, cap, FIND_CAP_TTL);
    if r != 0 {
      ghost var k :| FirstWithId(c, c[start], k, cap) && EntryAt(c, c[start], k) == Some(r);
      FirstIsFirstChain(c, c[start], k, cap);
    } else if Listed(c, c[start], cap) {
      var k :| HasId(c, c[start], k, cap);
      var m := LeastMatch(c, c[start], k, cap);
      FirstMatchWithin48(c, c[start], m, cap);
    }
  }

  /** pci_dev_find_capability, over the bytes: bit 4 of the status register at 6 must be
      set, and the pointer at 0x34 must lead to the capability. */
  method DevFindCapability(c: ConfigSpace, cap: Byte) returns (r: nat)
    ensures r != 0 <==> (c[6] / 16) % 2 == 1 && exists qs :: Chain(c, c[0x34], qs, cap)
    ensures r != 0 ==> exists qs :: FirstChain(c, c[0x34], qs, cap, r)
  {
    r := FindCapStart(c);
    if r != 0 {
      r := FindCapNext(c, r, cap);
    }
  }

  /** A list through every one of the 48 places, the wanted id last. */
  ghost function LongList(cap: Byte): ConfigSpace {
    seq(256, i requires 0 <= i < 256 =>
      if i % 4 == 0 then (if i == 252 then cap else (cap + 1) % 255)
      else if i % 4 == 1 && i < 252 then i + 3
      else 0)
  }

  /** No smaller bound would do: some list has its only match at the 48th entry. */
  lemma BoundIsTight(cap: Byte)
    requires cap != 0xff
    ensures FirstWithId(LongList(cap), 0x40, FIND_CAP_TTL - 1, cap)
  {
    forall k: nat | k < FIND_CAP_TTL ensures EntryAt(LongList(cap), 0x40, k) == Some(64 + 4 * k) {
      LongListEntry(cap, 0x40, k);
    }
  }

  lemma {:induction false} LongListEntry(cap: Byte, p: Byte, k: nat)
    requires cap != 0xff && 0x40 <= p && p % 4 == 0 && p + 4 * k <= 252
    ensures EntryAt(LongList(cap), p, k) == Some(p + 4 * k)
    decreases k
  {
    var c := LongList(cap);
    assert c[p] != 0xff && (p < 252 ==> c[p + 1] == p + 4);
    if k > 0 {
      LongListEntry(cap, p + 4, k - 1);
    }
  }
}
