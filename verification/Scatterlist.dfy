/** Scatterlists (libc/scatterlist.c): entries whose first word packs a page
    address, two list marks and the user flags, and the iterator over them. */
module Scatterlist {

  /** struct scatterlist */
  datatype Entry = Entry(pageAddr: bv32, off: bv32, len: bv32)

  /** What an entry stands for: a buffer, its length and the SL_USER_0 flag. */
  datatype Segment = Segment(buffer: bv32, len: bv32, flag: bool)

  const SL_USER_0: bv32 := 2

  // The parts of a word.  A page address leaves its low twelve bits to the marks
  // and the user flags.

  function PageOf(w: bv32): bv32 { w & 0xffff_f000 }
  predicate ChainBit(w: bv32) { w & 0x1 != 0 }
  predicate LastBit(w: bv32) { w & 0x2 != 0 }
  /** The eight bits from SL_USER_0 up. */
  function FlagsOf(w: bv32): bv32 { (w >> 2) & 0xff }

  predicate IsChain(e: Entry) { ChainBit(e.pageAddr) }
  predicate IsLast(e: Entry) { LastBit(e.pageAddr) }

  function Join(page: bv32, off: bv32): bv32 { page + off }

  /** sl_get_buffer */
  function GetBuffer(e: Entry): bv32 {
    Join(PageOf(e.pageAddr), e.off)
  }

  function UserFlags(e: Entry): bv32 {
    FlagsOf(e.pageAddr)
  }

  /** SLITER_GET_FLAG_VALUE for SL_USER_0 */
  predicate Flag0(flags: bv32) { flags & 1 == 1 }

  function SegmentOf(e: Entry): Segment {
    Segment(GetBuffer(e), e.len, Flag0(UserFlags(e)))
  }

  /** A list without chain marks whose only last mark is on its last entry. */
  ghost predicate WellMarked(s: seq<Entry>) {
    && |s| > 0
    && (forall i :: 0 <= i < |s| ==> !IsChain(s[i]) && (IsLast(s[i]) <==> i == |s| - 1))
  }

  ghost function Segments(s: seq<Entry>): seq<Segment> {
    seq(|s|, i requires 0 <= i < |s| => SegmentOf(s[i]))
  }

  // ---------------------------------------------------------------- building a list

  /** The first word of an entry cleared by init. */
  function InitWord(last: bool): bv32 { if last then 0x2 else 0x0 }

  /** SCATTERLIST_SET_ADDR with the page of buffer. */
  function BoundWord(w: bv32, buffer: bv32): bv32 { (w & 0x3) | PageOf(buffer) }

  function OffsetOf(buffer: bv32): bv32 { buffer - PageOf(buffer) }

  /** page_addr |= val << pos */
  function Tagged(w: bv32, pos: bv32, val: bv32): bv32
    requires pos < 32
  {
    w | (val << pos)
  }

  function FlagWord(flag: bool): bv32 { if flag then 1 else 0 }

  /** SCATTERLIST_SET_LAST */
  function LastWord(w: bv32): bv32 { w | 0x2 }

  /** The entry that init, then binding x's buffer, then binding x's flag leave. */
  function BuiltEntry(last: bool, x: Segment): Entry {
    Entry(Tagged(BoundWord(InitWord(last), x.buffer), SL_USER_0, FlagWord(x.flag)), OffsetOf(x.buffer), x.len)
  }

  // The format of an entry in numbers: bit 0 chain, bit 1 last, bits 2 to 9 user flags
  // with SL_USER_0 first, page address from bit 12, and the offset in a word of its own.

  lemma MarkFormat(w: bv32)
    ensures ChainBit(w) <==> w & 0x1 != 0
    ensures LastBit(w) <==> w & 0x2 != 0
  {
  }

  lemma FlagFormat(w: bv32)
    ensures Flag0(FlagsOf(w)) <==> w & 0x4 != 0
  {
  }

  lemma FlagsFormat(w: bv32)
    ensures FlagsOf(w) == (w & 0x3fc) >> 2
  {
  }

  lemma PageFormat(w: bv32)
    ensures PageOf(w) == w & 0xffff_f000
  {
  }

  lemma JoinFormat(page: bv32, off: bv32)
    ensures Join(page, off) == page + off
  {
  }

  lemma OffsetFormat(buffer: bv32)
    ensures buffer - (buffer & 0xffff_f000) == buffer & 0xfff
  {
  }

  lemma BoundFormat(w: bv32, buffer: bv32)
    ensures BoundWord(w, buffer) == (w & 0x3) | (buffer & 0xffff_f000)
  {
  }

  lemma FlagAtBit2(w: bv32, flag: bool)
    ensures Tagged(w, SL_USER_0, FlagWord(flag)) == if flag then w | 0x4 else w
  {
  }

  lemma JoinBack(buffer: bv32)
    ensures Join(PageOf(buffer), OffsetOf(buffer)) == buffer
  {
  }

  lemma InitParts(last: bool)
    ensures !ChainBit(InitWord(last)) && (LastBit(InitWord(last)) <==> last)
  {
  }

  lemma BoundParts(w: bv32, buffer: bv32)
    ensures PageOf(BoundWord(w, buffer)) == PageOf(buffer) && FlagsOf(BoundWord(w, buffer)) == 0
    ensures (ChainBit(BoundWord(w, buffer)) <==> ChainBit(w)) && (LastBit(BoundWord(w, buffer)) <==> LastBit(w))
  {
  }

  lemma LastParts(w: bv32)
    ensures PageOf(LastWord(w)) == PageOf(w) && FlagsOf(LastWord(w)) == FlagsOf(w)
    ensures LastBit(LastWord(w)) && (ChainBit(LastWord(w)) <==> ChainBit(w))
  {
  }

  /** The user flags with val at position pos of the word. */
  function WithFlag(flags: bv32, pos: bv32, val: bv32): bv32
    requires 2 <= pos < 10
  {
    flags | (val << (pos - 2))
  }

  lemma TaggedPage(w: bv32, pos: bv32, val: bv32)
    requires 2 <= pos < 10 && val < 2
    ensures PageOf(Tagged(w, pos, val)) == PageOf(w)
  {
  }

  lemma TaggedFlags(w: bv32, pos: bv32, val: bv32)
    requires 2 <= pos < 10 && val < 2
    ensures FlagsOf(Tagged(w, pos, val)) == WithFlag(FlagsOf(w), pos, val)
  {
  }

  lemma TaggedChain(w: bv32, pos: bv32, val: bv32)
    requires 2 <= pos < 10 && val < 2
    ensures ChainBit(Tagged(w, pos, val)) <==> ChainBit(w)
  {
  }

  lemma TaggedLast(w: bv32, pos: bv32, val: bv32)
    requires 2 <= pos < 10 && val < 2
    ensures LastBit(Tagged(w, pos, val)) <==> LastBit(w)
  {
  }

  lemma FlagReadsBack(flag: bool)
    ensures Flag0(WithFlag(0, SL_USER_0, FlagWord(flag))) <==> flag
  {
  }

  /** Binding a buffer to any entry: the buffer reads back, the marks stay and the
      user flags are cleared. */
  lemma BindMeaning(e: Entry, buffer: bv32, len: bv32)
    ensures var b := Entry(BoundWord(e.pageAddr, buffer), OffsetOf(buffer), len);
            && GetBuffer(b) == buffer && b.len == len && UserFlags(b) == 0
            && (IsLast(b) <==> IsLast(e)) && (IsChain(b) <==> IsChain(e))
  {
    BoundParts(e.pageAddr, buffer);
    JoinBack(buffer);
  }

  /** Setting a user flag adds that flag to the user flags; address and marks stay. */
  lemma AttributeMeaning(e: Entry, pos: bv32, val: bv32)
    requires 2 <= pos < 10 && val < 2
    ensures var a := e.(pageAddr := Tagged(e.pageAddr, pos, val));
            && GetBuffer(a) == GetBuffer(e) && UserFlags(a) == WithFlag(UserFlags(e), pos, val)
            && (IsLast(a) <==> IsLast(e)) && (IsChain(a) <==> IsChain(e))
  {
    TaggedPage(e.pageAddr, pos, val);
    TaggedFlags(e.pageAddr, pos, val);
    TaggedChain(e.pageAddr, pos, val);
    TaggedLast(e.pageAddr, pos, val);
  }

  /** Packed into one word, the address, the marks and the flag do not disturb one another. */
  lemma BuiltEntryMeaning(last: bool, x: Segment)
    ensures var e := BuiltEntry(last, x);
            !IsChain(e) && (IsLast(e) <==> last) && SegmentOf(e) == x
  {
    var cleared := Entry(InitWord(last), 0, 0);
    var bound := Entry(BoundWord(InitWord(last), x.buffer), OffsetOf(x.buffer), x.len);
    InitParts(last);
    BindMeaning(cleared, x.buffer, x.len);
    AttributeMeaning(bound, SL_USER_0, FlagWord(x.flag));
    FlagReadsBack(x.flag);
  }

  /** The entry that init and then binding a buffer leave, without a flag. */
  function BoundEntry(last: bool, buffer: bv32, len: bv32): Entry {
    Entry(BoundWord(InitWord(last), buffer), OffsetOf(buffer), len)
  }

  lemma BoundEntryMeaning(last: bool, buffer: bv32, len: bv32)
    ensures var e := BoundEntry(last, buffer, len);
            !IsChain(e) && (IsLast(e) <==> last) && SegmentOf(e) == Segment(buffer, len, false)
  {
    InitParts(last);
    BindMeaning(Entry(InitWord(last), 0, 0), buffer, len);
  }

  /** sl_make_last on one entry. */
  function MarkLast(e: Entry): Entry { e.(pageAddr := LastWord(e.pageAddr)) }

  /** The last mark is a bit of its own: nothing else about the entry changes. */
  lemma MarkLastMeaning(e: Entry)
    ensures IsLast(MarkLast(e)) && (IsChain(MarkLast(e)) <==> IsChain(e))
    ensures SegmentOf(MarkLast(e)) == SegmentOf(e) && UserFlags(MarkLast(e)) == UserFlags(e)
  {
    LastParts(e.pageAddr);
  }

  /** sl_list_init: every entry cleared, the last one marked. */
  method SlListInit(list: array<Entry>)
    requires list.Length > 0
    modifies list
    ensures forall i :: 0 <= i < list.Length ==> list[i] == Entry(InitWord(i == list.Length - 1), 0, 0)
    ensures forall i :: 0 <= i < list.Length ==> list[i] == Entry(if i == list.Length - 1 then 0x2 else 0x0, 0, 0)
  {
    var n := list.Length;
    forall i | 0 <= i < list.Length {
      list[i] := Entry(0, 0, 0);
    }
    list[n - 1] := list[n - 1].(pageAddr := list[n - 1].pageAddr | 0x2);
  }

  /** sl_bind_buffer: the buffer and length read back; the entry keeps its marks and
      loses its user flags. */
  method SlBindBuffer(list: array<Entry>, i: nat, buffer: bv32, len: bv32)
    requires i < list.Length
    modifies list
    ensures GetBuffer(list[i]) == buffer && list[i].len == len && UserFlags(list[i]) == 0
    ensures (IsLast(list[i]) <==> IsLast(old(list[i]))) && (IsChain(list[i]) <==> IsChain(old(list[i])))
    ensures list[i] == Entry(BoundWord(old(list[i].pageAddr), buffer), OffsetOf(buffer), len)
    ensures forall j :: 0 <= j < list.Length && j != i ==> list[j] == old(list[j])
  {
    BindMeaning(list[i], buffer, len);
    list[i] := Entry(BoundWord(list[i].pageAddr, buffer), OffsetOf(buffer), len);
  }

  /** sl_bind_attribute: at the positions of user flags exactly that flag is added. */
  method SlBindAttribute(list: array<Entry>, i: nat, pos: bv32, val: bv32)
    requires i < list.Length && pos < 32
    modifies list
    ensures 2 <= pos < 10 && val < 2 ==>
              && GetBuffer(list[i]) == GetBuffer(old(list[i])) && list[i].len == old(list[i].len)
              && UserFlags(list[i]) == WithFlag(UserFlags(old(list[i])), pos, val)
              && (IsLast(list[i]) <==> IsLast(old(list[i]))) && (IsChain(list[i]) <==> IsChain(old(list[i])))
    ensures list[i] == old(list[i]).(pageAddr := Tagged(old(list[i].pageAddr), pos, val))
    ensures list[i].pageAddr == old(list[i].pageAddr) | (val << pos)
    ensures forall j :: 0 <= j < list.Length && j != i ==> list[j] == old(list[j])
  {
    if 2 <= pos < 10 && val < 2 {
      AttributeMeaning(list[i], pos, val);
    }
    var pageAddr := list[i].pageAddr;
    pageAddr := Tagged(pageAddr, pos, val);
    list[i] := list[i].(pageAddr := pageAddr);
  }

  /** sl_make_last: the entry ends the list and otherwise stands for the same. */
  method SlMakeLast(list: array<Entry>, i: nat)
    requires i < list.Length
    modifies list
    ensures IsLast(list[i]) && (IsChain(list[i]) <==> IsChain(old(list[i])))
    ensures SegmentOf(list[i]) == SegmentOf(old(list[i])) && UserFlags(list[i]) == UserFlags(old(list[i]))
    ensures list[i] == old(list[i]).(pageAddr := old(list[i].pageAddr) | 0x2)
    ensures forall j :: 0 <= j < list.Length && j != i ==> list[j] == old(list[j])
  {
    MarkLastMeaning(list[i]);
    list[i] := MarkLast(list[i]);
  }

  /** A list built by init and one bind-buffer and bind-attribute an entry stands for
      exactly the segments it was built from. */
  method BuildList(list: array<Entry>, segments: seq<Segment>)
    requires list.Length == |segments| > 0
    modifies list
    ensures WellMarked(list[..]) && Segments(list[..]) == segments
  {
    SlListInit(list);
    for i := 0 to list.Length
      invariant forall j :: 0 <= j < i ==> list[j] == BuiltEntry(j == list.Length - 1, segments[j])
      invariant forall j :: i <= j < list.Length ==> list[j] == Entry(InitWord(j == list.Length - 1), 0, 0)
    {
      SlBindBuffer(list, i, segments[i].buffer, segments[i].len);
      SlBindAttribute(list, i, SL_USER_0, FlagWord(segments[i].flag));
    }
    BuiltListMeaning(list[..], segments);
  }

  lemma BuiltListMeaning(s: seq<Entry>, segments: seq<Segment>)
    requires |s| == |segments| > 0
    requires forall j :: 0 <= j < |s| ==> s[j] == BuiltEntry(j == |s| - 1, segments[j])
    ensures WellMarked(s) && Segments(s) == segments
  {
    forall j | 0 <= j < |s|
      ensures !IsChain(s[j]) && (IsLast(s[j]) <==> j == |s| - 1) && SegmentOf(s[j]) == segments[j]
    {
      BuiltEntryMeaning(j == |s| - 1, segments[j]);
    }
  }

  // ---------------------------------------------------------------- the iterator

  class Iterator {
    const entries: array<Entry>
    /** The list being walked, which does not change meanwhile. */
    ghost const content: seq<Entry>
    /** Index of the current entry, -1 before the first. */
    var pos: int
    var begin: bool
    var buffer: bv32
    var len: bv32
    var userFlags: bv32

    ghost predicate Valid()
      reads this, entries
    {
      entries[..] == content && -1 <= pos < |content| && (begin <==> pos == -1)
    }

    /** slit_begin */
    constructor (entries: array<Entry>)
      ensures Valid() && this.entries == entries && content == entries[..] && pos == -1
    {
      this.entries, content := entries, entries[..];
      pos, begin, buffer, len, userFlags := -1, true, 0, 0, 0;
    }

    /** slit_next: step to the next entry, or stop after the last. */
    method SlitNext() returns (ok: bool)
      requires Valid() && WellMarked(content)
      modifies this
      ensures Valid()
      ensures ok <==> old(pos) + 1 < |content|
      ensures ok ==> pos == old(pos) + 1 && Segment(buffer, len, Flag0(userFlags)) == SegmentOf(content[pos])
      ensures !ok ==> pos == old(pos)
    {
      if !begin && IsLast(entries[pos]) {
        return false;
      }
      begin := false;
      var list := pos + 1;
      pos := list;
      buffer := GetBuffer(entries[list]);
      len := entries[list].len;
      userFlags := UserFlags(entries[list]);
      ok := true;
    }
  }
}
