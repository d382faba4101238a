/** The two-level tables built by page_init (kernel/arch/x86/page.c), read the way
    the processor reads them: section 4.3 of Intel SDM volume 3A, 32-bit paging
    with 4 MB pages enabled. */
module PageTables {

  const PAGE: nat := 0x1000
  const BIG_PAGE: nat := 0x40_0000
  const KERNEL_VIRTUAL_BASE: nat := 0xC000_0000
  const APIC_VIRTUAL_BASE: nat := 0xFEE0_0000
  const APIC_REGION: nat := 0xFEC0_0000
  const ADDRESSES: nat := 0x1_0000_0000

  // An entry is a page-aligned address OR-ed with these flags below it; the two
  // have no bit in common, so the OR is a sum (OrIsSum).
  const PRESENT: nat := 1
  const WRITABLE: nat := 2
  const USER: nat := 4
  const CACHE_DISABLED: nat := 0x10
  const BIG: nat := 0x80
  const EMPTY_PAGE: nat := WRITABLE
  const SY4MB_PAGE: nat := BIG + USER + WRITABLE + PRESENT

  lemma OrIsSum(a: bv32, flags: bv32)
    requires a & 0xFFF == 0 && flags & 0xFFFF_F000 == 0
    ensures a | flags == a + flags
    ensures (a | flags) & 0xFFFF_F000 == a && (a | flags) & 0xFFF == flags
  {
  }

  predicate Aligned(a: nat) { a % PAGE == 0 }

  function EmptyPresent(a: nat): nat
    requires Aligned(a)
  {
    a + WRITABLE + PRESENT
  }

  // ------------------------------------------------------- the processor's side

  datatype Access = Access(writable: bool, user: bool, uncached: bool)
  /** Elsewhere: the walk would read a table outside the 4 MB of tables. */
  datatype Translation = Unmapped | Mapped(physical: nat, access: Access) | Elsewhere

  predicate Has(word: nat, flag: nat)
    requires flag > 0
  {
    word / flag % 2 == 1
  }

  function FrameOf(word: nat): nat { word / PAGE * PAGE }

  /** The table walk for one address; tables lie at physical address base. */
  function Translate(directory: seq<nat>, tables: seq<nat>, base: nat, address: nat): Translation
    requires |directory| == 1024 && |tables| == 1024 * 1024 && Aligned(base) && address < ADDRESSES
  {
    var pde := directory[address / BIG_PAGE];
    if !Has(pde, PRESENT) then Unmapped
    else if Has(pde, BIG) then
      Mapped(pde / BIG_PAGE * BIG_PAGE + address % BIG_PAGE, Access(Has(pde, WRITABLE), Has(pde, USER), Has(pde, CACHE_DISABLED)))
    else if FrameOf(pde) < base || FrameOf(pde) >= base + 1024 * PAGE then Elsewhere
    else
      var pte := tables[(FrameOf(pde) - base) / PAGE * 1024 + address / PAGE % 1024];
      if !Has(pte, PRESENT) then Unmapped
      else
        Mapped(FrameOf(pte) + address % PAGE,
               Access(Has(pde, WRITABLE) && Has(pte, WRITABLE), Has(pde, USER) && Has(pte, USER), Has(pte, CACHE_DISABLED)))
  }

  // ----------------------------------------------------------- what page_init does

  function DirectoryWord(p: nat, base: nat): nat
    requires p < 1024 && Aligned(base)
  {
    if p < KERNEL_VIRTUAL_BASE / BIG_PAGE then EmptyPresent(base + p * PAGE)
    else if p == KERNEL_VIRTUAL_BASE / BIG_PAGE then SY4MB_PAGE
    else if p == KERNEL_VIRTUAL_BASE / BIG_PAGE + 1 then BIG_PAGE + SY4MB_PAGE
    else if p == APIC_VIRTUAL_BASE / BIG_PAGE then APIC_REGION + SY4MB_PAGE + CACHE_DISABLED
    else 0
  }

  function TableWord(i: nat): nat {
    if i == 0 then EMPTY_PAGE
    else if i < KERNEL_VIRTUAL_BASE / PAGE then EmptyPresent(i * PAGE)
    else 0
  }

  /** Every word of the directory as a number: address and low twelve bits. */
  ghost predicate DirectoryNumbered(directory: seq<nat>, base: nat) {
    && |directory| == 1024
    && (forall p :: 0 <= p < 768 ==> directory[p] == base + 0x1000 * p + 0x3)
    && directory[768] == 0x87 && directory[769] == 0x40_0087 && directory[1019] == 0xFEC0_0097
    && (forall p :: 770 <= p < 1024 && p != 1019 ==> directory[p] == 0)
  }

  /** Every word of the 1024 tables as a number. */
  ghost predicate TablesNumbered(tables: seq<nat>) {
    && |tables| == 1024 * 1024 && tables[0] == 0x2
    && (forall i :: 1 <= i < 768 * 1024 ==> tables[i] == 0x1000 * i + 0x3)
    && (forall i :: 768 * 1024 <= i < |tables| ==> tables[i] == 0)
  }

  lemma DirectoryNumbers(directory: seq<nat>, base: nat)
    requires |directory| == 1024 && Aligned(base)
    requires forall p :: 0 <= p < 1024 ==> directory[p] == DirectoryWord(p, base)
    ensures DirectoryNumbered(directory, base)
  {
  }

  lemma TableNumbers(tables: seq<nat>)
    requires |tables| == 1024 * 1024 && forall i :: 0 <= i < |tables| ==> tables[i] == TableWord(i)
    ensures TablesNumbered(tables)
  {
  }

  method PageInit(directory: array<nat>, tables: array<nat>, base: nat)
    requires directory.Length == 1024 && tables.Length == 1024 * 1024 && directory != tables
    requires Aligned(base) && base + tables.Length * 4 <= ADDRESSES
    modifies directory, tables
    ensures Built(directory[..], tables[..], base)
    ensures DirectoryNumbered(directory[..], base) && TablesNumbered(tables[..])
    ensures forall address: nat :: address < ADDRESSES ==>
              Translate(directory[..], tables[..], base, address) == Space(address)
  {
    FillDirectory(directory, base);
    FillTables(tables);
    forall address: nat | address < ADDRESSES
      ensures Translate(directory[..], tables[..], base, address) == Space(address)
    {
      TranslationIsSpace(directory[..], tables[..], base, address);
    }
  }

  method Clear(a: array<nat>)
    modifies a
    ensures forall i :: 0 <= i < a.Length ==> a[i] == 0
  {
    for i := 0 to a.Length
      invariant forall k :: 0 <= k < i ==> a[k] == 0
    {
      a[i] := 0;
    }
  }

  /** The directory: zeroed, then the 768 small-page entries, then the 4 MB entries. */
  method FillDirectory(directory: array<nat>, base: nat)
    requires directory.Length == 1024 && Aligned(base)
    modifies directory
    ensures forall p :: 0 <= p < 1024 ==> directory[p] == DirectoryWord(p, base)
    ensures DirectoryNumbered(directory[..], base)
  {
    Clear(directory);
    var kernel := KERNEL_VIRTUAL_BASE / BIG_PAGE;
    for p := 0 to kernel
      invariant forall k :: 0 <= k < p ==> directory[k] == DirectoryWord(k, base)
      invariant forall k :: p <= k < 1024 ==> directory[k] == 0
    {
      directory[p] := EmptyPresent(base + p * PAGE);
    }
    directory[APIC_VIRTUAL_BASE / BIG_PAGE] := APIC_REGION + SY4MB_PAGE + CACHE_DISABLED;
    directory[kernel] := SY4MB_PAGE;
    directory[kernel + 1] := BIG_PAGE + SY4MB_PAGE;
    DirectoryNumbers(directory[..], base);
  }

  /** The tables: zeroed, then the nested loops, then page zero taken away. */
  method FillTables(tables: array<nat>)
    requires tables.Length == 1024 * 1024
    modifies tables
    ensures forall i :: 0 <= i < tables.Length ==> tables[i] == TableWord(i)
    ensures TablesNumbered(tables[..])
  {
    Clear(tables);
    var kernel := KERNEL_VIRTUAL_BASE / BIG_PAGE;
    for p := 0 to kernel
      invariant forall i :: 0 < i < p * 1024 ==> tables[i] == TableWord(i)
      invariant forall i :: p * 1024 <= i < tables.Length ==> tables[i] == 0
    {
      FillTable(tables, p);
    }
    tables[0] := EMPTY_PAGE;
    TableNumbers(tables[..]);
  }

  /** The inner loop: the 1024 entries of table p. */
  method FillTable(tables: array<nat>, p: nat)
    requires tables.Length == 1024 * 1024 && p < KERNEL_VIRTUAL_BASE / BIG_PAGE
    modifies tables
    ensures forall i :: 0 < i && p * 1024 <= i < p * 1024 + 1024 ==> tables[i] == TableWord(i)
    ensures forall i :: 0 <= i < p * 1024 || p * 1024 + 1024 <= i < tables.Length ==> tables[i] == old(tables[i])
  {
    for j := 0 to 1024
      invariant forall i :: 0 < i && p * 1024 <= i < p * 1024 + j ==> tables[i] == TableWord(i)
      invariant forall i :: 0 <= i < p * 1024 || p * 1024 + j <= i < tables.Length ==> tables[i] == old(tables[i])
    {
      tables[p * 1024 + j] := EmptyPresent(p * BIG_PAGE + PAGE * j);
    }
  }

  // ----------------------------------------------------------------- the result

  predicate Built(directory: seq<nat>, tables: seq<nat>, base: nat) {
    && |directory| == 1024 && |tables| == 1024 * 1024 && Aligned(base)
    && (forall p :: 0 <= p < 1024 ==> directory[p] == DirectoryWord(p, base))
    && (forall i :: 0 <= i < |tables| ==> tables[i] == TableWord(i))
  }

  /** The address space the kernel runs in. */
  function Space(address: nat): Translation {
    if 0x1000 <= address < 0xC000_0000 then
      Mapped(address, Access(true, false, false))
    else if 0xC000_0000 <= address < 0xC080_0000 then
      Mapped(address - 0xC000_0000, Access(true, true, false))
    else if 0xFEC0_0000 <= address < 0xFF00_0000 then
      Mapped(address, Access(true, true, true))
    else Unmapped
  }

  lemma PresentWord(a: nat)
    requires Aligned(a)
    ensures var w := EmptyPresent(a);
            Has(w, PRESENT) && Has(w, WRITABLE) && !Has(w, USER) && !Has(w, CACHE_DISABLED) && !Has(w, BIG)
    ensures FrameOf(EmptyPresent(a)) == a
  {
  }

  lemma Split(address: nat)
    ensures address / BIG_PAGE * 1024 + address / PAGE % 1024 == address / PAGE
    ensures address / PAGE * PAGE + address % PAGE == address
    ensures address / BIG_PAGE * BIG_PAGE + address % BIG_PAGE == address
  {
  }

  /** Below the kernel's base: the walk ends at the table word of the address's own page. */
  lemma SmallPages(directory: seq<nat>, tables: seq<nat>, base: nat, address: nat)
    requires Built(directory, tables, base) && address < KERNEL_VIRTUAL_BASE
    ensures Translate(directory, tables, base, address) == Space(address)
  {
    var p := address / BIG_PAGE;
    PresentWord(base + p * PAGE);
    Split(address);
    var i := address / PAGE;
    assert directory[p] == EmptyPresent(base + p * PAGE);
    assert tables[i] == TableWord(i);
    if i > 0 {
      PresentWord(i * PAGE);
    }
  }

  /** The three 4 MB pages of the directory. */
  predicate IsBigPage(a: nat, extra: nat) {
    (a == 0 && extra == 0) || (a == BIG_PAGE && extra == 0) || (a == APIC_REGION && extra == CACHE_DISABLED)
  }

  /** Their words read back. */
  lemma BigWord(a: nat, extra: nat)
    requires IsBigPage(a, extra)
    ensures var w := a + SY4MB_PAGE + extra;
            && Has(w, PRESENT) && Has(w, BIG) && Has(w, WRITABLE) && Has(w, USER)
            && (Has(w, CACHE_DISABLED) <==> extra != 0) && w / BIG_PAGE * BIG_PAGE == a
  {
  }

  /** One directory entry for a 4 MB page maps the 4 MB it stands for. */
  lemma BigEntry(directory: seq<nat>, tables: seq<nat>, base: nat, address: nat, a: nat, extra: nat)
    requires Built(directory, tables, base) && address < ADDRESSES
    requires IsBigPage(a, extra)
    requires directory[address / BIG_PAGE] == a + SY4MB_PAGE + extra
    ensures Translate(directory, tables, base, address) ==
            Mapped(a + address % BIG_PAGE, Access(true, true, extra != 0))
  {
    BigWord(a, extra);
  }

  lemma BigPages(directory: seq<nat>, tables: seq<nat>, base: nat, address: nat)
    requires Built(directory, tables, base) && KERNEL_VIRTUAL_BASE <= address < ADDRESSES
    ensures Translate(directory, tables, base, address) == Space(address)
  {
    var p := address / BIG_PAGE;
    SplitBig(address);
    assert directory[p] == DirectoryWord(p, base);
    if p == KERNEL_VIRTUAL_BASE / BIG_PAGE {
      BigEntry(directory, tables, base, address, 0, 0);
    } else if p == KERNEL_VIRTUAL_BASE / BIG_PAGE + 1 {
      BigEntry(directory, tables, base, address, BIG_PAGE, 0);
    } else if p == APIC_VIRTUAL_BASE / BIG_PAGE {
      BigEntry(directory, tables, base, address, APIC_REGION, CACHE_DISABLED);
    }
  }

  lemma SplitBig(address: nat)
    ensures address / BIG_PAGE * BIG_PAGE + address % BIG_PAGE == address
  {
  }

  /** Every one of the 2^32 addresses translates as Space says, and no other way:
      identity below 3 GB except for page zero, 8 MB of the kernel at 3 GB, the
      interrupt controllers, nothing else. */
  lemma TranslationIsSpace(directory: seq<nat>, tables: seq<nat>, base: nat, address: nat)
    requires Built(directory, tables, base) && address < ADDRESSES
    ensures Translate(directory, tables, base, address) == Space(address)
  {
    if address < KERNEL_VIRTUAL_BASE {
      SmallPages(directory, tables, base, address);
    } else {
      BigPages(directory, tables, base, address);
    }
  }
}
