/** Two-level x86 page tables (section 4.3 of the Intel SDM, Volume 3A): a directory of
    1024 tables of 1024 entries, flags packed into the low 12 bits of each entry. The
    abstract view of a directory is a flat map from 2^20 pages to entries. */
module Paging {
  import opened Words
  import opened Memory

  const ENTRIES: nat := 1024
  const PAGES: nat := 0x10_0000
  const PRESENT: Byte := 1
  const WRITABLE: Byte := 2
  const USER: Byte := 4

  type Flat = seq<Word>

  function DirEntry(m: seq<Word>, dir: Word, i: nat): Word
    requires IsRam(m) && dir % PAGE == 0 && i < ENTRIES
  {
    m[dir / 4 + i]
  }

  /** Address of table i, from the top 20 bits of the directory entry. */
  function TableOf(m: seq<Word>, dir: Word, i: nat): (t: Word)
    requires IsRam(m) && dir % PAGE == 0 && i < ENTRIES
    ensures t % PAGE == 0
  {
    PageBase(DirEntry(m, dir, i))
  }

  /** Index in memory of the entry for a page. */
  function Slot(m: seq<Word>, dir: Word, page: nat): (w: nat)
    requires IsRam(m) && dir % PAGE == 0 && page < PAGES
    ensures w < RAM_WORDS && w / ENTRIES * PAGE == TableOf(m, dir, page / ENTRIES)
  {
    FrameWord(TableOf(m, dir, page / ENTRIES), page % ENTRIES);
    TableOf(m, dir, page / ENTRIES) / 4 + page % ENTRIES
  }

  /** Word k of the frame at an aligned address. */
  lemma FrameWord(a: Word, k: nat)
    requires a % PAGE == 0 && k < ENTRIES
    ensures a / 4 + k < RAM_WORDS
    ensures (a / 4 + k) / ENTRIES * PAGE == a && (a / 4 + k) % ENTRIES == k
  {
    var q := a / PAGE;
    assert a / 4 == 1024 * q;
  }

  /** No two tables share a block, and none shares it with the directory. */
  ghost predicate WellFormed(m: seq<Word>, dir: Word) {
    && IsRam(m) && dir % PAGE == 0
    && (forall i :: 0 <= i < ENTRIES ==> TableOf(m, dir, i) != dir)
    && (forall i, j :: 0 <= i < j < ENTRIES ==> TableOf(m, dir, i) != TableOf(m, dir, j))
  }

  /** The flat page map a directory stands for. */
  function View(m: seq<Word>, dir: Word): (f: Flat)
    requires IsRam(m) && dir % PAGE == 0
    ensures |f| == PAGES
    ensures forall p :: 0 <= p < PAGES ==> f[p] == m[Slot(m, dir, p)]
  {
    seq(PAGES, p requires 0 <= p < PAGES => m[Slot(m, dir, p)])
  }

  /** The flat map is the processor's walk: bits 31 to 22 of an address choose the directory
      entry, whose top 20 bits are the table, and bits 21 to 12 choose the entry there. */
  lemma ViewIsWalk(m: seq<Word>, dir: Word, v: Word)
    requires IsRam(m) && dir % PAGE == 0
    ensures dir / 4 + v / 0x40_0000 < |m|
    ensures var table := m[dir / 4 + v / 0x40_0000] / 4096 * 4096;
      table / 4 + v / 4096 % 1024 < |m| && View(m, dir)[v / 4096] == m[table / 4 + v / 4096 % 1024]
  {
    assert v / PAGE / ENTRIES == v / 0x40_0000;
    TablePlace(m, dir, v / 0x40_0000);
    hide TableOf;
  }

  lemma TablePlace(m: seq<Word>, dir: Word, i: nat)
    requires IsRam(m) && dir % PAGE == 0 && i < ENTRIES
    ensures dir / 4 + i < |m| && TableOf(m, dir, i) == m[dir / 4 + i] / 4096 * 4096
  {
  }

  function PageSet(m: seq<Word>, dir: Word, v: Word, val: Word): (r: seq<Word>)
    requires IsRam(m) && dir % PAGE == 0
    ensures IsRam(r)
  {
    m[Slot(m, dir, v / PAGE) := val]
  }

  // --- what an update of one directory may touch ----------------------------

  predicate SameDirectory(m: seq<Word>, r: seq<Word>, dir: Word)
    requires IsRam(m) && IsRam(r) && dir % PAGE == 0
  {
    forall i :: 0 <= i < ENTRIES ==> DirEntry(r, dir, i) == DirEntry(m, dir, i)
  }

  ghost predicate IsTable(m: seq<Word>, dir: Word, a: Word)
    requires IsRam(m) && dir % PAGE == 0
  {
    exists i :: 0 <= i < ENTRIES && TableOf(m, dir, i) == a
  }

  /** The 4096-byte frame that word w of memory lies in. */
  function FrameOf(w: nat): Word
    requires w < RAM_WORDS
  {
    w / ENTRIES * PAGE
  }

  /** Only words inside the tables of `dir` differ, and the directory itself is as it was. */
  ghost predicate OnlyTables(m: seq<Word>, r: seq<Word>, dir: Word)
    requires IsRam(m) && dir % PAGE == 0
  {
    && IsRam(r)
    && SameDirectory(m, r, dir)
    && forall w :: 0 <= w < RAM_WORDS && !IsTable(m, dir, FrameOf(w)) ==> r[w] == m[w]
  }

  lemma SameTables(m: seq<Word>, r: seq<Word>, dir: Word)
    requires IsRam(m) && IsRam(r) && dir % PAGE == 0 && SameDirectory(m, r, dir)
    ensures forall i :: 0 <= i < ENTRIES ==> TableOf(r, dir, i) == TableOf(m, dir, i)
    ensures forall p :: 0 <= p < PAGES ==> Slot(r, dir, p) == Slot(m, dir, p)
    ensures forall a: Word :: IsTable(r, dir, a) <==> IsTable(m, dir, a)
    ensures WellFormed(m, dir) ==> WellFormed(r, dir)
  {
    assert forall i :: 0 <= i < ENTRIES ==> TableOf(r, dir, i) == TableOf(m, dir, i);
    forall a: Word | IsTable(m, dir, a) ensures IsTable(r, dir, a) {
      var i :| 0 <= i < ENTRIES && TableOf(m, dir, i) == a;
      assert TableOf(r, dir, i) == a;
    }
  }

  lemma OnlyTablesTransitive(m: seq<Word>, r: seq<Word>, s: seq<Word>, dir: Word)
    requires IsRam(m) && dir % PAGE == 0
    requires OnlyTables(m, r, dir) && OnlyTables(r, s, dir)
    ensures OnlyTables(m, s, dir)
  {
    SameTables(m, r, dir);
  }

  lemma SlotInjective(m: seq<Word>, dir: Word, p: nat, q: nat)
    requires WellFormed(m, dir) && p < PAGES && q < PAGES && p != q
    ensures Slot(m, dir, p) != Slot(m, dir, q)
  {
    if p / ENTRIES != q / ENTRIES {
      assert TableOf(m, dir, p / ENTRIES) != TableOf(m, dir, q / ENTRIES);
    }
  }

  /** One entry written through the two levels is one entry of the flat map. */
  lemma SetRefinesFlat(m: seq<Word>, dir: Word, v: Word, val: Word)
    requires WellFormed(m, dir)
    ensures WellFormed(PageSet(m, dir, v, val), dir)
    ensures OnlyTables(m, PageSet(m, dir, v, val), dir)
    ensures View(PageSet(m, dir, v, val), dir) == View(m, dir)[v / PAGE := val]
  {
    var page := v / PAGE;
    var r := PageSet(m, dir, v, val);
    var slot := Slot(m, dir, page);
    assert IsTable(m, dir, FrameOf(slot));
    forall i | 0 <= i < ENTRIES ensures DirEntry(r, dir, i) == DirEntry(m, dir, i) {
      FrameWord(dir, i);
    }
    hide DirEntry, TableOf, IsTable, FrameOf;
    SameTables(m, r, dir);
    assert OnlyTables(m, r, dir);
    hide WellFormed, OnlyTables, SameDirectory, Slot;
    forall p | 0 <= p < PAGES && p != page ensures Slot(m, dir, p) != slot {
      SlotInjective(m, dir, p, page);
    }
  }

  // --- ranges ---------------------------------------------------------------

  /** Memory after mapping n pages from v to p, one entry at a time; addresses wrap at
      2^32 as pointers do. */
  function Mapped(m: seq<Word>, dir: Word, v: Word, p: Word, n: nat, flags: Byte): (r: seq<Word>)
    requires IsRam(m) && dir % PAGE == 0 && p % PAGE == 0
    ensures IsRam(r)
  {
    if n == 0 then m
    else PageSet(Mapped(m, dir, v, p, n - 1, flags), dir, Advance(v, n - 1),
                 Advance(p, n - 1) + flags)
  }

  /** The address k pages further on, wrapping at 2^32. */
  function Advance(a: Word, k: nat): (r: Word)
    ensures r % PAGE == a % PAGE
    ensures r / PAGE == (a / PAGE + k) % PAGES
  {
    (a / PAGE + k) % PAGES * PAGE + a % PAGE
  }

  lemma AdvanceWraps(a: Word, k: nat)
    ensures Advance(a, k) == (a + k * PAGE) % WORD
  {
    var h := a / PAGE + k;
    assert a + k * PAGE == h * PAGE + a % PAGE;
    assert h == h / PAGES * PAGES + h % PAGES;
    assert a + k * PAGE == h / PAGES * WORD + (h % PAGES * PAGE + a % PAGE);
    ModUnique(a + k * PAGE, WORD, h / PAGES, h % PAGES * PAGE + a % PAGE);
  }

  lemma AdvanceStep(a: Word, k: nat)
    ensures Advance(a, 0) == a
    ensures (Advance(a, k) + PAGE) % WORD == Advance(a, k + 1)
  {
    var h := a / PAGE + k;
    var r := h % PAGES;
    assert (h + 1) % PAGES == if r == PAGES - 1 then 0 else r + 1;
  }

  /** Distance from page v up to page i, going round the address space. */
  function PagesAfter(v: Word, i: nat): nat
    requires i < PAGES
  {
    (i - v / PAGE) % PAGES
  }

  function FlatMappedAt(f: Flat, v: Word, p: Word, n: nat, flags: Byte, i: nat): Word
    requires |f| == PAGES && i < PAGES && p % PAGE == 0
  {
    var k := PagesAfter(v, i);
    if k < n then Advance(p, k) + flags else f[i]
  }

  /** The flat map with exactly pages v .. v+n-1 changed, to p .. p+n-1 with `flags`. */
  function FlatMapped(f: Flat, v: Word, p: Word, n: nat, flags: Byte): (r: Flat)
    requires |f| == PAGES && p % PAGE == 0
    ensures |r| == PAGES
    ensures forall i :: 0 <= i < PAGES ==> r[i] == FlatMappedAt(f, v, p, n, flags, i)
  {
    seq(PAGES, i requires 0 <= i < PAGES => FlatMappedAt(f, v, p, n, flags, i))
  }

  /** In plain numbers: the entry of page i, which lies k pages after page v round the address
      space. */
  lemma FlatMappedIs(f: Flat, v: Word, p: Word, n: nat, flags: Byte, i: nat, k: nat)
    requires |f| == PAGES && p % PAGE == 0 && i < 0x10_0000
    requires k < 0x10_0000 && (v / 4096 + k) % 0x10_0000 == i
    ensures FlatMapped(f, v, p, n, flags)[i] == if k < n then (p + k * 4096) % WORD + flags else f[i]
  {
    assert PagesAfter(v, i) == k;
    AdvanceWraps(p, k);
    hide Advance;
  }

  lemma FlatMappedStep(f: Flat, v: Word, p: Word, n: nat, flags: Byte)
    requires |f| == PAGES && p % PAGE == 0 && 0 < n <= PAGES
    ensures FlatMapped(f, v, p, n, flags) ==
      FlatMapped(f, v, p, n - 1, flags)[Advance(v, n - 1) / PAGE := Advance(p, n - 1) + flags]
  {
    var target := Advance(v, n - 1) / PAGE;
    forall i: nat | i < PAGES ensures PagesAfter(v, i) == n - 1 <==> i == target {
    }
  }

  lemma {:induction false} MappedRefinesFlat(m: seq<Word>, dir: Word, v: Word, p: Word, n: nat, flags: Byte)
    requires WellFormed(m, dir) && p % PAGE == 0 && n <= PAGES
    ensures WellFormed(Mapped(m, dir, v, p, n, flags), dir)
    ensures OnlyTables(m, Mapped(m, dir, v, p, n, flags), dir)
    ensures View(Mapped(m, dir, v, p, n, flags), dir) == FlatMapped(View(m, dir), v, p, n, flags)
  {
    if n == 0 {
      assert FlatMapped(View(m, dir), v, p, 0, flags) == View(m, dir);
    } else {
      var r := Mapped(m, dir, v, p, n - 1, flags);
      MappedRefinesFlat(m, dir, v, p, n - 1, flags);
      SetRefinesFlat(r, dir, Advance(v, n - 1), Advance(p, n - 1) + flags);
      OnlyTablesTransitive(m, r, Mapped(m, dir, v, p, n, flags), dir);
      FlatMappedStep(View(m, dir), v, p, n, flags);
    }
  }

  // --- index splitting --------------------------------------------------------

  /** Splitting an aligned address into directory and table index is a bijection onto
      the 1024 x 1024 pairs. */
  lemma IndexBijection(v: Word, d: nat, t: nat)
    requires v % PAGE == 0 && d < ENTRIES && t < ENTRIES
    ensures v / (ENTRIES * PAGE) == d && v % (ENTRIES * PAGE) / PAGE == t
       <==> v == (d * ENTRIES + t) * PAGE
    ensures v / (ENTRIES * PAGE) < ENTRIES && v % (ENTRIES * PAGE) / PAGE < ENTRIES
  {
  }

  method GetIndexes(vaddr: Word) returns (ret: int, d: nat, t: nat)
    ensures vaddr % PAGE != 0 ==> ret == -EINVAL
    ensures vaddr % PAGE == 0 ==>
      ret == 0 && d < ENTRIES && t < ENTRIES && d * ENTRIES + t == vaddr / PAGE
  {
    if vaddr % PAGE != 0 { return -EINVAL, 0, 0; }
    d := vaddr / (ENTRIES * PAGE);
    t := vaddr % (ENTRIES * PAGE) / PAGE;
    ret := 0;
  }

  /** Where the two indexes of a page lead. */
  lemma EntryPlace(m: seq<Word>, dir: Word, page: nat, d: nat, t: nat, table: Word)
    requires IsRam(m) && dir % PAGE == 0 && page < PAGES && d < ENTRIES && t < ENTRIES
    requires d * ENTRIES + t == page && table == PageBase(m[dir / 4 + d])
    ensures table % PAGE == 0 && table / 4 + t == Slot(m, dir, page) < RAM_WORDS
    ensures View(m, dir)[page] == m[table / 4 + t]
  {
    assert page / ENTRIES == d && page % ENTRIES == t;
    hide View, PageBase;
  }

  // --- the operations of paging.c, in place -----------------------------------

  method Set(ram: array<Word>, dir: Word, vaddr: Word, val: Word) returns (ret: int)
    requires ram.Length == RAM_WORDS && dir % PAGE == 0
    modifies ram
    ensures vaddr % PAGE != 0 ==> ret == -EINVAL && ram[..] == old(ram[..])
    ensures vaddr % PAGE == 0 ==> ret == 0 && ram[..] == PageSet(old(ram[..]), dir, vaddr, val)
  {
    if vaddr % PAGE != 0 { return -EINVAL; }
    var r, d, t := GetIndexes(vaddr);
    var table := PageBase(ram[dir / 4 + d]);
    EntryPlace(ram[..], dir, vaddr / PAGE, d, t, table);
    ram[table / 4 + t] := val;
    ret := 0;
  }

  /** An aligned address or-ed with flags. */
  function Packed(paddr: Word, flags: Byte): (r: Word)
    requires paddr % PAGE == 0
    ensures r == paddr + flags
  {
    OrIsFlags(paddr, flags, 0);
    Or(paddr, flags)
  }

  method Map(ram: array<Word>, dir: Word, vaddr: Word, paddr: Word, flags: Byte) returns (ret: int)
    requires ram.Length == RAM_WORDS && dir % PAGE == 0
    modifies ram
    ensures vaddr % PAGE != 0 || paddr % PAGE != 0 ==> ret == -EINVAL && ram[..] == old(ram[..])
    ensures vaddr % PAGE == 0 && paddr % PAGE == 0 ==>
      ret == 0 && ram[..] == PageSet(old(ram[..]), dir, vaddr, paddr + flags)
  {
    if vaddr % PAGE != 0 || paddr % PAGE != 0 { return -EINVAL; }
    ret := Set(ram, dir, vaddr, Packed(paddr, flags));
  }

  lemma MappedSteps(m: seq<Word>, dir: Word, v: Word, p: Word, i: nat, flags: Byte)
    requires IsRam(m) && dir % PAGE == 0
    ensures p % PAGE == 0 ==> Mapped(m, dir, v, p, 0, flags) == m
    ensures p % PAGE == 0 ==>
      Mapped(m, dir, v, p, i + 1, flags)
        == PageSet(Mapped(m, dir, v, p, i, flags), dir, Advance(v, i), Advance(p, i) + flags)
  {
    hide PageSet, Advance;
  }

  method MapRange(ram: array<Word>, dir: Word, vaddr: Word, paddr: Word, count: Word, flags: Byte)
    returns (ret: int)
    requires ram.Length == RAM_WORDS && dir % PAGE == 0
    modifies ram
    ensures ret == 0
    ensures vaddr % PAGE != 0 || paddr % PAGE != 0 ==> ram[..] == old(ram[..])
    ensures vaddr % PAGE == 0 && paddr % PAGE == 0 ==>
      ram[..] == Mapped(old(ram[..]), dir, vaddr, paddr, count, flags)
  {
    var v, p := vaddr, paddr;
    var i := 0;
    AdvanceStep(v, 0);
    AdvanceStep(p, 0);
    MappedSteps(ram[..], dir, vaddr, paddr, 0, flags);
    ghost var m := ram[..];
    assert PAGE == 4096;
    hide *;
    while i < count
      invariant 0 <= i <= count
      invariant v == Advance(vaddr, i) && p == Advance(paddr, i)
      invariant vaddr % PAGE != 0 || paddr % PAGE != 0 ==> ram[..] == m
      invariant vaddr % PAGE == 0 && paddr % PAGE == 0 ==> ram[..] == Mapped(m, dir, vaddr, paddr, i, flags)
    {
      var ok;
      ok, v, p := MapNext(ram, dir, vaddr, paddr, i, flags, v, p, m);
      if !ok { break; }
      i := i + 1;
    }
    ret := 0;
  }

  /** One round of the loop, with both addresses moved on. */
  method MapNext(ram: array<Word>, dir: Word, ghost vaddr: Word, ghost paddr: Word, ghost i: nat, flags: Byte,
                 v: Word, p: Word, ghost m: seq<Word>)
    returns (ok: bool, nextV: Word, nextP: Word)
    requires ram.Length == RAM_WORDS && IsRam(m) && dir % PAGE == 0
    requires v == Advance(vaddr, i) && p == Advance(paddr, i)
    requires paddr % PAGE == 0 && vaddr % PAGE == 0 ==> ram[..] == Mapped(m, dir, vaddr, paddr, i, flags)
    modifies ram
    ensures ok <==> vaddr % PAGE == 0 && paddr % PAGE == 0
    ensures !ok ==> ram[..] == old(ram[..])
    ensures ok ==>
      && ram[..] == Mapped(m, dir, vaddr, paddr, i + 1, flags)
      && nextV == Advance(vaddr, i + 1) && nextP == Advance(paddr, i + 1)
  {
    MappedSteps(m, dir, vaddr, paddr, i, flags);
    AdvanceStep(vaddr, i);
    AdvanceStep(paddr, i);
    hide Mapped, Advance, PageSet;
    var r := Map(ram, dir, v, p, flags);
    if r < 0 { return false, v, p; }
    ok, nextV, nextP := true, (v + PAGE) % WORD, (p + PAGE) % WORD;
  }

  method MapTo(ram: array<Word>, dir: Word, vaddr: Word, paddr: Word, pend: Word, flags: Byte)
    returns (ret: int)
    requires ram.Length == RAM_WORDS && dir % PAGE == 0
    modifies ram
    ensures vaddr % 4096 != 0 || paddr % 4096 != 0 || pend % 4096 != 0 || pend < paddr ==>
      ret == -EINVAL && ram[..] == old(ram[..])
    ensures vaddr % 4096 == 0 && paddr % 4096 == 0 && pend % 4096 == 0 && paddr <= pend ==>
      ret == 0 && ram[..] == Mapped(old(ram[..]), dir, vaddr, paddr, (pend - paddr) / PAGE, flags)
  {
    if vaddr % PAGE != 0 || paddr % PAGE != 0 || pend % PAGE != 0 { return -EINVAL; }
    if pend < paddr { return -EINVAL; }
    ret := MapRange(ram, dir, vaddr, paddr, (pend - paddr) / PAGE, flags);
  }

  predicate MapToOk(vaddr: Word, paddr: Word, pend: Word) {
    vaddr % PAGE == 0 && paddr % PAGE == 0 && pend % PAGE == 0 && paddr <= pend
  }

  /** Physical address a virtual address translates to. */
  function Translate(f: Flat, v: Word): Word
    requires |f| == PAGES
  {
    PageBase(f[v / PAGE]) + v % PAGE
  }

  method Get(ram: array<Word>, dir: Word, vaddr: Word) returns (ret: int, entry: Word)
    requires ram.Length == RAM_WORDS && dir % PAGE == 0
    ensures vaddr % PAGE != 0 ==> ret == -EINVAL
    ensures vaddr % PAGE == 0 ==> ret == 0 && entry == View(ram[..], dir)[vaddr / PAGE]
  {
    var d, t;
    entry := 0;
    ret, d, t := GetIndexes(vaddr);
    if ret < 0 { return; }
    ghost var m := ram[..];
    var table := PageBase(ram[dir / 4 + d]);
    EntryPlace(m, dir, vaddr / PAGE, d, t, table);
    entry := ram[table / 4 + t];
  }

  method GetPaddr(ram: array<Word>, dir: Word, vaddr: Word) returns (p: Word)
    requires ram.Length == RAM_WORDS && dir % PAGE == 0
    ensures p == Translate(View(ram[..], dir), vaddr)
  {
    var r, d, t := GetIndexes(PageBase(vaddr));
    ghost var m := ram[..];
    var table := PageBase(ram[dir / 4 + d]);
    EntryPlace(m, dir, vaddr / PAGE, d, t, table);
    p := PageBase(ram[table / 4 + t]) + vaddr % PAGE;
  }

  method GetFlags(ram: array<Word>, dir: Word, vaddr: Word) returns (flags: nat)
    requires ram.Length == RAM_WORDS && dir % PAGE == 0
    ensures flags == View(ram[..], dir)[vaddr / PAGE] % PAGE
  {
    var r, d, t := GetIndexes(PageBase(vaddr));
    ghost var m := ram[..];
    var table := PageBase(ram[dir / 4 + d]);
    EntryPlace(m, dir, vaddr / PAGE, d, t, table);
    flags := ram[table / 4 + t] % PAGE;
  }

  // --- every sequence of updates -----------------------------------------------

  datatype PageOp =
    | SetPage(vaddr: Word, val: Word)
    | MapPage(vaddr: Word, paddr: Word, flags: Byte)
    | MapPages(vaddr: Word, paddr: Word, pend: Word, flags: Byte)

  function Apply(m: seq<Word>, dir: Word, op: PageOp): (r: seq<Word>)
    requires IsRam(m) && dir % PAGE == 0
    ensures IsRam(r)
  {
    match op
    case SetPage(v, val) => if v % PAGE != 0 then m else PageSet(m, dir, v, val)
    case MapPage(v, p, flags) =>
      if v % PAGE != 0 || p % PAGE != 0 then m else PageSet(m, dir, v, p + flags)
    case MapPages(v, p, pend, flags) =>
      if MapToOk(v, p, pend) then Mapped(m, dir, v, p, (pend - p) / PAGE, flags) else m
  }

  function ApplyFlat(f: Flat, op: PageOp): (r: Flat)
    requires |f| == PAGES
    ensures |r| == PAGES
  {
    match op
    case SetPage(v, val) => if v % PAGE != 0 then f else f[v / PAGE := val]
    case MapPage(v, p, flags) =>
      if v % PAGE != 0 || p % PAGE != 0 then f else f[v / PAGE := p + flags]
    case MapPages(v, p, pend, flags) =>
      if MapToOk(v, p, pend) then FlatMapped(f, v, p, (pend - p) / PAGE, flags) else f
  }

  function ApplyAll(m: seq<Word>, dir: Word, ops: seq<PageOp>): (r: seq<Word>)
    requires IsRam(m) && dir % PAGE == 0
    ensures IsRam(r)
  {
    if ops == [] then m else Apply(ApplyAll(m, dir, ops[..|ops| - 1]), dir, ops[|ops| - 1])
  }

  function ApplyAllFlat(f: Flat, ops: seq<PageOp>): (r: Flat)
    requires |f| == PAGES
    ensures |r| == PAGES
  {
    if ops == [] then f else ApplyFlat(ApplyAllFlat(f, ops[..|ops| - 1]), ops[|ops| - 1])
  }

  lemma ApplyRefinesFlat(m: seq<Word>, dir: Word, op: PageOp)
    requires WellFormed(m, dir)
    ensures WellFormed(Apply(m, dir, op), dir)
    ensures OnlyTables(m, Apply(m, dir, op), dir)
    ensures View(Apply(m, dir, op), dir) == ApplyFlat(View(m, dir), op)
  {
    assert IsRam(m) && dir % PAGE == 0;
    NoUpdate(m, dir);
    OpMeaning(m, dir, op, View(m, dir));
    PackedInWord(op);
    assert PAGE == 4096 && WORD == 0x1_0000_0000;
    hide *;
    if Refused(op) {
    } else if op.SetPage? {
      SetRefinesFlat(m, dir, op.vaddr, op.val);
    } else if op.MapPage? {
      SetRefinesFlat(m, dir, op.vaddr, op.paddr + op.flags);
    } else {
      RangeRefinesFlat(m, dir, op.vaddr, op.paddr, op.pend, op.flags);
    }
  }

  lemma PackedInWord(op: PageOp)
    ensures op.MapPage? && !Refused(op) ==> op.paddr + op.flags < WORD
  {
  }

  lemma OpMeaning(m: seq<Word>, dir: Word, op: PageOp, f: Flat)
    requires IsRam(m) && dir % PAGE == 0 && |f| == PAGES
    ensures Refused(op) ==> Apply(m, dir, op) == m && ApplyFlat(f, op) == f
    ensures op.SetPage? && !Refused(op) ==>
      Apply(m, dir, op) == PageSet(m, dir, op.vaddr, op.val) && ApplyFlat(f, op) == f[op.vaddr / PAGE := op.val]
    ensures op.MapPage? && !Refused(op) ==>
      && op.paddr % PAGE == 0 && Apply(m, dir, op) == PageSet(m, dir, op.vaddr, op.paddr + op.flags)
      && ApplyFlat(f, op) == f[op.vaddr / PAGE := op.paddr + op.flags]
    ensures op.MapPages? && !Refused(op) ==>
      var n := (op.pend - op.paddr) / PAGE;
      && MapToOk(op.vaddr, op.paddr, op.pend) && op.paddr % PAGE == 0 && n >= 0
      && Apply(m, dir, op) == Mapped(m, dir, op.vaddr, op.paddr, n, op.flags)
      && ApplyFlat(f, op) == FlatMapped(f, op.vaddr, op.paddr, n, op.flags)
  {
    hide PageSet, Mapped, FlatMapped;
  }

  /** An update with an unaligned argument, or an end below the start. */
  predicate Refused(op: PageOp) {
    || op.vaddr % PAGE != 0
    || (op.MapPage? && op.paddr % PAGE != 0)
    || (op.MapPages? && !MapToOk(op.vaddr, op.paddr, op.pend))
  }

  lemma RangeRefinesFlat(m: seq<Word>, dir: Word, v: Word, p: Word, pend: Word, flags: Byte)
    requires WellFormed(m, dir) && MapToOk(v, p, pend)
    ensures var n := (pend - p) / PAGE;
      var r := Mapped(m, dir, v, p, n, flags);
      WellFormed(r, dir) && OnlyTables(m, r, dir) && View(r, dir) == FlatMapped(View(m, dir), v, p, n, flags)
  {
    hide WellFormed, OnlyTables, View, Mapped, FlatMapped;
    MappedRefinesFlat(m, dir, v, p, (pend - p) / PAGE, flags);
  }

  lemma NoUpdate(m: seq<Word>, dir: Word)
    requires IsRam(m) && dir % PAGE == 0
    ensures OnlyTables(m, m, dir)
  {
  }

  /** Any sequence of updates through the two levels is that sequence on the flat map,
      and touches nothing but the tables of its own directory. */
  lemma {:induction false} UpdatesRefineFlat(m: seq<Word>, dir: Word, ops: seq<PageOp>)
    requires WellFormed(m, dir)
    ensures WellFormed(ApplyAll(m, dir, ops), dir)
    ensures OnlyTables(m, ApplyAll(m, dir, ops), dir)
    ensures View(ApplyAll(m, dir, ops), dir) == ApplyAllFlat(View(m, dir), ops)
  {
    if ops != [] {
      var r := ApplyAll(m, dir, ops[..|ops| - 1]);
      UpdatesRefineFlat(m, dir, ops[..|ops| - 1]);
      ApplyRefinesFlat(r, dir, ops[|ops| - 1]);
      OnlyTablesTransitive(m, r, ApplyAll(m, dir, ops), dir);
    }
  }

  // --- isolation ----------------------------------------------------------------

  /** No table of `dir` is the other directory or one of its tables. */
  ghost predicate Apart(m: seq<Word>, dir: Word, other: Word)
    requires IsRam(m) && dir % PAGE == 0 && other % PAGE == 0
  {
    !IsTable(m, dir, other) &&
    forall j :: 0 <= j < ENTRIES ==> !IsTable(m, dir, TableOf(m, other, j))
  }

  /** Changes confined to the tables of one directory leave another directory's whole
      address space as it was. */
  lemma ChangesIsolated(m: seq<Word>, r: seq<Word>, dir: Word, other: Word)
    requires IsRam(m) && dir % PAGE == 0 && OnlyTables(m, r, dir)
    requires WellFormed(m, other) && Apart(m, dir, other)
    ensures WellFormed(r, other) && SameDirectory(m, r, other)
    ensures View(r, other) == View(m, other)
  {
    assert IsRam(r) && other % PAGE == 0;
    forall i | 0 <= i < ENTRIES ensures DirEntry(r, other, i) == DirEntry(m, other, i) {
      FrameWord(other, i);
      WordKept(m, r, dir, other / 4 + i, other);
    }
    SameTables(m, r, other);
    hide WellFormed, OnlyTables, IsTable, SameDirectory, DirEntry, TableOf;
    forall p | 0 <= p < PAGES ensures r[Slot(m, other, p)] == m[Slot(m, other, p)] {
      WordKept(m, r, dir, Slot(m, other, p), TableOf(m, other, p / ENTRIES));
    }
    hide Slot;
  }

  lemma WordKept(m: seq<Word>, r: seq<Word>, dir: Word, w: nat, frame: Word)
    requires IsRam(m) && dir % PAGE == 0 && OnlyTables(m, r, dir)
    requires w < RAM_WORDS && w / ENTRIES * PAGE == frame && !IsTable(m, dir, frame)
    ensures r[w] == m[w]
  {
    assert FrameOf(w) == frame;
  }
}
