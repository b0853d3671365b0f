/** Memory a running program asks for: process_malloc and process_free keep the heap, the
    page directory and the table of allocations in step. */
module ProcessMemory {
  import opened Words
  import opened BlockHeap
  import opened KernelHeap
  import opened Memory
  import opened Paging
  import opened ProcessImage
  import opened ProcessLoader

  const MAX_ALLOCATIONS: nat := 1024

  datatype Allocation = Allocation(p: Word, size: Word)

  /** Index of the first record for address p, or the number of records. */
  function Find(rs: seq<Allocation>, p: Word): (i: nat)
    ensures i <= |rs| && (i < |rs| ==> rs[i].p == p)
    ensures forall j :: 0 <= j < i ==> rs[j].p != p
  {
    if rs == [] || rs[0].p == p then 0 else 1 + Find(rs[1..], p)
  }

  lemma FoundAt(rs: seq<Allocation>, p: Word, i: nat)
    requires i <= |rs| && (i < |rs| ==> rs[i].p == p)
    requires forall j :: 0 <= j < i ==> rs[j].p != p
    ensures Find(rs, p) == i
  {
  }

  // --- what an allocation gives and what freeing it takes away -------------------------------

  /** Giving an allocation back restores the heap table exactly when it is no longer than
      one block. */
  lemma FreeUndoesMalloc(e: Table, saddr: Word, n: nat)
    requires ValidPool(saddr, |e|) && Clean(e) && StartBlock(e, n) >= 0 && !Overruns(e, n)
    ensures var s := StartBlock(e, n);
      && BlockToAddress(saddr, s) > 0
      && (FreedAddress(Marked(UnsignedChar, e, s, n), saddr, BlockToAddress(saddr, s)) == e <==> n <= 1)
  {
    var s := StartBlock(e, n);
    if n > 0 { ScanExact(e, n); }
    assert s < |e| && IsFree(e[s]);
    BlockAddressRoundTrip(saddr, |e|, s);
    if n > 0 {
      FreeInvertsMark(UnsignedChar, e, s, n);
    } else {
      assert Marked(UnsignedChar, e, s, n) == e && e[s := FREE] == e;
    }
  }

  /** An empty allocation marks nothing, so a one-block allocation after it gets the same address
      exactly when no block before the free ones at the end is free. */
  lemma EmptySharesAddress(e: Table)
    requires StartBlock(e, 0) >= 0
    ensures StartBlock(e, 1) >= 0 && Marked(UnsignedChar, e, StartBlock(e, 0), 0) == e
    ensures StartBlock(e, 1) == StartBlock(e, 0) <==>
      forall i :: 0 <= i < TrailingStart(e) ==> !IsFree(e[i])
  {
    ScanExact(e, 1);
    var t, s := TrailingStart(e), StartBlock(e, 1);
    assert t < |e| && RunFree(e, t, 1);
    assert HasRun(e, 1) && IsLowestRun(e, s, 1);
    assert s <= t && IsFree(e[s]) && StartBlock(e, 0) == t;
    forall i: nat | i < s && i < t ensures !IsFree(e[i]) {
      assert !RunFree(e, i, 1);
    }
    hide StartBlock, TrailingStart;
  }

  /** The program sees a cleared, writable byte k of its allocation, at the address it got. */
  predicate GivenByte(m: seq<Word>, f: Flat, p: Word, k: nat)
    requires IsRam(m) && |f| == PAGES
  {
    p + k < WORD && Translate(f, p + k) == p + k && f[(p + k) / PAGE] % PAGE == 7 && ByteAt(m, p + k) == 0
  }

  predicate InPages(p: Word, n: nat, page: nat) { p / PAGE <= page < p / PAGE + n }

  /** The allocation's pages map to themselves, writable; no other page changes. */
  predicate OnlyGiven(f: Flat, g: Flat, p: Word, n: nat)
    requires |f| == PAGES && |g| == PAGES
  {
    forall page :: 0 <= page < PAGES ==>
      g[page] == if InPages(p, n, page) then page * 4096 + 7 else f[page]
  }

  lemma GivenPages(f: Flat, p: Word, n: nat)
    requires |f| == PAGES && p % PAGE == 0 && p + n * PAGE <= WORD
    ensures OnlyGiven(f, FlatMapped(f, p, p, n, PRESENT + WRITABLE + USER), p, n)
  {
    forall page | 0 <= page < PAGES
      ensures FlatMapped(f, p, p, n, PRESENT + WRITABLE + USER)[page] ==
        if InPages(p, n, page) then page * 4096 + 7 else f[page]
    {
      FlatMappedPage(f, p, p, n, PRESENT + WRITABLE + USER, page);
    }
  }

  lemma GivenPage(f: Flat, g: Flat, p: Word, n: nat, k: nat)
    requires |f| == PAGES && |g| == PAGES && p % PAGE == 0 && p + n * PAGE <= WORD && k < n * PAGE
    requires OnlyGiven(f, g, p, n)
    ensures Translate(g, p + k) == p + k && g[(p + k) / PAGE] % PAGE == 7
  {
    var q := p / PAGE;
    var page := (p + k) / PAGE;
    assert p == q * PAGE && p + k == page * PAGE + (p + k) % PAGE;
    assert q <= page < q + n;
    EntryParts(page, PRESENT + WRITABLE + USER);
  }

  /** Mapping an allocation leaves its cleared bytes cleared: none lies in a page table. */
  lemma StillZero(e: Table, saddr: Word, m: seq<Word>, z: seq<Word>, r: seq<Word>, dir: Word, s: nat, n: nat,
                  p: Word, size: nat, k: nat)
    requires ValidPool(saddr, |e|) && DirHeld(e, saddr, m, dir) && RunFree(e, s, n) && n > 0
    requires p == saddr + s * PAGE && p % PAGE == 0 && p + n * PAGE <= WORD
    requires size <= n * PAGE && k < size && z == Zeroed(m, p, size)
    requires SameDirectory(m, z, dir) && OnlyTables(z, r, dir)
    ensures p + k < WORD && ByteAt(r, p + k) == 0
  {
    var w := (p + k) / 4;
    assert IsRam(m) && dir % PAGE == 0 && IsRam(z);
    ByteOfRun(p, n, k);
    FrameInRun(saddr, s, n, w);
    FrameNotTable(e, saddr, m, dir, s, n, FrameOf(w));
    hide *;
    SameTables(m, z, dir);
    UntouchedWord(z, r, dir, w);
    ZeroedByte(m, z, r, p, size, k, w);
  }

  lemma UntouchedWord(z: seq<Word>, r: seq<Word>, dir: Word, w: nat)
    requires IsRam(z) && dir % PAGE == 0 && OnlyTables(z, r, dir) && w < RAM_WORDS && !IsTable(z, dir, FrameOf(w))
    ensures IsRam(r) && r[w] == z[w]
  {
  }

  lemma ZeroedByte(m: seq<Word>, z: seq<Word>, r: seq<Word>, p: Word, size: nat, k: nat, w: nat)
    requires IsRam(m) && IsRam(r) && z == Zeroed(m, p, size) && p % PAGE == 0 && k < size && p + k < WORD
    requires w == (p + k) / 4 && r[w] == z[w]
    ensures ByteAt(r, p + k) == 0
  {
    hide Zeroed, Digit;
    AlignedWord(p);
    ZeroedBytes(m, p, size, p + k);
  }

  lemma AlignedWord(p: Word)
    requires p % PAGE == 0
    ensures p % 4 == 0
  {
    assert p == 4 * (p / PAGE * 1024);
  }

  lemma ByteOfRun(p: Word, n: nat, k: nat)
    requires p % PAGE == 0 && k < n * PAGE
    ensures p / 4 <= (p + k) / 4 < p / 4 + n * ENTRIES
    ensures p + n * PAGE <= WORD ==> p + k < WORD && (p + k) / 4 < RAM_WORDS
  {
    var q := p / PAGE;
    assert p == 4096 * q && p / 4 == 1024 * q;
    assert (4096 * q + k) / 4 == 1024 * q + k / 4;
  }

  /** Pages process_free rewrites for an allocation: it passes physical addresses 0 up to
      the end of the allocation, so it counts from address 0 and not from the start. */
  function FreedPages(p: Word, size: Word): nat { AlignUp((p + size) % WORD) / PAGE }

  lemma FreedPagesCount(p: Word, size: Word)
    requires p % PAGE == 0 && p + size <= 0x8000_0000
    ensures FreedPages(p, size) == p / PAGE + (size + PAGE - 1) / PAGE
    ensures p / PAGE + FreedPages(p, size) <= PAGES
  {
    AlignUpParts(p / PAGE, size);
  }

  /** The map after freeing: from the start of the allocation on, that many pages lead
      nowhere. */
  lemma FreedPage(f: Flat, p: Word, size: Word, page: nat)
    requires |f| == PAGES && p % PAGE == 0 && p + size <= 0x8000_0000 && page < PAGES
    ensures var g := FlatMapped(f, p, 0, FreedPages(p, size), 0);
      if InPages(p, FreedPages(p, size), page) then g[page] == (page - p / PAGE) * PAGE && g[page] % 2 == 0
      else g[page] == f[page]
  {
    FreedPagesCount(p, size);
    hide *;
    FlatMappedPage(f, p, 0, FreedPages(p, size), 0, page);
    InPagesIs(p, FreedPages(p, size), page);
    if page >= p / PAGE { EvenFrame(page - p / PAGE); }
  }

  lemma InPagesIs(p: Word, n: nat, page: nat)
    ensures InPages(p, n, page) <==> p / PAGE <= page < p / PAGE + n
  {
  }

  lemma EvenFrame(frame: nat)
    ensures frame * PAGE % 2 == 0
  {
    assert frame * PAGE == 2 * (frame * 2048);
  }

  /** Freeing takes away the pages of the allocation and nothing else exactly when the
      allocation starts at address 0; so from the kernel's pool it always takes away more. */
  lemma FreeExactOnlyAtZero(p: Word, size: Word)
    requires p % PAGE == 0 && p + size <= 0x8000_0000
    ensures (forall page :: 0 <= page < PAGES ==>
               (InPages(p, FreedPages(p, size), page) <==> InPages(p, (size + PAGE - 1) / PAGE, page)))
       <==> p == 0
  {
    FreedPagesCount(p, size);
    if p != 0 {
      var page := p / PAGE + (size + PAGE - 1) / PAGE;
      assert InPages(p, FreedPages(p, size), page) && !InPages(p, (size + PAGE - 1) / PAGE, page);
    }
  }

  // --- in place ------------------------------------------------------------------------------

  class ProcessHeap {
    const allocations: array<Allocation>

    /** Unused records are blank, and the others lie below 2 GB, as the pool does. */
    ghost predicate Valid()
      reads allocations
    {
      && allocations.Length == MAX_ALLOCATIONS
      && (forall i :: 0 <= i < MAX_ALLOCATIONS && allocations[i].p == 0 ==> allocations[i].size == 0)
      && (forall i :: 0 <= i < MAX_ALLOCATIONS ==> allocations[i].p + allocations[i].size <= 0x8000_0000)
    }

    constructor ()
      ensures Valid() && fresh(allocations)
      ensures forall i :: 0 <= i < MAX_ALLOCATIONS ==> allocations[i] == Allocation(0, 0)
    {
      allocations := new Allocation[MAX_ALLOCATIONS](_ => Allocation(0, 0));
    }

    /** First record for an address; NULL finds the first unused one. */
    method FindIndex(p: Word) returns (i: nat)
      requires Valid()
      ensures i == Find(allocations[..], p) && i <= MAX_ALLOCATIONS
    {
      i := 0;
      while i < MAX_ALLOCATIONS
        invariant 0 <= i <= MAX_ALLOCATIONS
        invariant forall j :: 0 <= j < i ==> allocations[j].p != p
      {
        if allocations[i].p == p { break; }
        i := i + 1;
      }
      FoundAt(allocations[..], p, i);
    }

    /** process_malloc. */
    method Malloc(h: Heap, ram: array<Word>, dir: Word, size: Word) returns (p: Word)
      requires Valid() && Loading(h, ram, dir) && Clean(h.entries[..])
      requires size <= 0x7fff_f000 && !Overruns(h.entries[..], BlocksFor(size))
      modifies h.entries, ram, allocations
      ensures Valid()
      ensures p == 0 <==> StartBlock(old(h.entries[..]), BlocksFor(size)) < 0
                          || Find(old(allocations[..]), 0) == MAX_ALLOCATIONS
      ensures p == 0 ==> allocations[..] == old(allocations[..])
      ensures StartBlock(old(h.entries[..]), BlocksFor(size)) < 0 ==>
        h.entries[..] == TableZeroed(old(h.entries[..]), 0, size) && ram[..] == Zeroed(old(ram[..]), 0, size)
      ensures p == 0 && StartBlock(old(h.entries[..]), BlocksFor(size)) >= 0 ==>
        (h.entries[..] == old(h.entries[..]) <==> BlocksFor(size) <= 1)
      ensures p == 0 && StartBlock(old(h.entries[..]), BlocksFor(size)) >= 0 ==>
        h.entries[..] == AllButFirst(old(h.entries[..]), StartBlock(old(h.entries[..]), BlocksFor(size)),
                                     BlocksFor(size))
      ensures p == 0 && StartBlock(old(h.entries[..]), BlocksFor(size)) >= 0 ==>
        WellFormed(ram[..], dir) && View(ram[..], dir) == View(old(ram[..]), dir)
      ensures StartBlock(old(h.entries[..]), BlocksFor(size)) >= 0 ==>
        Confined(h.saddr, old(h.entries[..]), old(ram[..]), h.entries[..], ram[..], dir)
      ensures p != 0 ==>
        var n := BlocksFor(size);
        var s := StartBlock(old(h.entries[..]), n);
        && p == BlockToAddress(h.saddr, s) && h.entries[..] == Marked(UnsignedChar, old(h.entries[..]), s, n)
        && Loading(h, ram, dir)
        && OnlyGiven(View(old(ram[..]), dir), View(ram[..], dir), p, n)
        && (forall k :: 0 <= k < size ==> GivenByte(ram[..], View(ram[..], dir), p, k))
        && allocations[..] == old(allocations[..])[Find(old(allocations[..]), 0) := Allocation(p, size)]
    {
      ghost var e, m, n := h.entries[..], ram[..], BlocksFor(size);
      p := KZalloc(h, ram, size);
      if StartBlock(e, n) >= 0 {
        FreeUndoesMalloc(e, h.saddr, n);
        AllocatedPages(e, h.saddr, m, dir, StartBlock(e, n), n, p, size);
        ClearedElsewhere(e, h.saddr, m, ram[..], dir, StartBlock(e, n), n, p, size);
      }
      if p == 0 { return 0; }
      var index := FindIndex(0);
      if index == MAX_ALLOCATIONS {
        UnmarkConfined(h.saddr, e, m, ram[..], dir, StartBlock(e, n), n, p);
        Unmarked(e, h.saddr, StartBlock(e, n), n, p);
        h.Free(p);
        return 0;
      }
      GiveMapping(h, ram, dir, p, size, e, m);
      allocations[index] := Allocation(p, size);
    }

    /** Map the fresh allocation to itself for the program. */
    method GiveMapping(h: Heap, ram: array<Word>, dir: Word, p: Word, size: Word,
                       ghost e: Table, ghost m: seq<Word>)
      requires h.Valid() && h.entryType == UnsignedChar && ram.Length == RAM_WORDS
      requires |e| == h.entries.Length && DirHeld(e, h.saddr, m, dir) && size <= 0x7fff_f000
      requires StartBlock(e, BlocksFor(size)) >= 0 && !Overruns(e, BlocksFor(size))
      requires p == BlockToAddress(h.saddr, StartBlock(e, BlocksFor(size)))
      requires ram[..] == Zeroed(m, p, size)
      requires h.entries[..] == Marked(UnsignedChar, e, StartBlock(e, BlocksFor(size)), BlocksFor(size))
      requires IsRam(m) && dir % PAGE == 0 && Confined(h.saddr, e, m, h.entries[..], ram[..], dir)
      modifies ram
      ensures Loading(h, ram, dir)
      ensures Confined(h.saddr, e, m, h.entries[..], ram[..], dir)
      ensures OnlyGiven(View(m, dir), View(ram[..], dir), p, BlocksFor(size))
      ensures forall k :: 0 <= k < size ==> GivenByte(ram[..], View(ram[..], dir), p, k)
    {
      hide StartBlock, Marked, Zeroed, DirHeld, Confined, GivenByte, OnlyGiven, View;
      hide BlocksFor, BlockToAddress, Overruns;
      ghost var n, s := BlocksFor(size), StartBlock(e, BlocksFor(size));
      ghost var z := ram[..];
      AllocatedPages(e, h.saddr, m, dir, s, n, p, size);
      FlagBits();
      hide *;
      var ret := MapTo(ram, dir, p, p, AlignUp((p + size) % WORD), Or(PRESENT, Or(WRITABLE, USER)));
      Given(e, h.entries[..], h.saddr, m, z, ram[..], dir, s, n, p, size);
      ConfinedTwice(h.saddr, e, m, h.entries[..], z, h.entries[..], ram[..], dir);
    }

    /** process_free: the first record for the address, if there is one. */
    method Free(h: Heap, ram: array<Word>, dir: Word, p: Word)
      requires Valid() && ram.Length == RAM_WORDS && WellFormed(ram[..], dir)
      modifies h.entries, ram, allocations
      ensures Valid()
      ensures var i := Find(old(allocations[..]), p);
        if i == MAX_ALLOCATIONS
        then h.entries[..] == old(h.entries[..]) && ram[..] == old(ram[..]) && allocations[..] == old(allocations[..])
        else
          && h.entries[..] == FreedAddress(old(h.entries[..]), h.saddr, p)
          && allocations[..] == old(allocations[..])[i := Allocation(0, 0)]
          && WellFormed(ram[..], dir) && OnlyTables(old(ram[..]), ram[..], dir)
          && View(ram[..], dir) ==
               if p % PAGE == 0
               then FlatMapped(View(old(ram[..]), dir), p, 0, FreedPages(p, old(allocations[i].size)), 0)
               else View(old(ram[..]), dir)
    {
      var i := FindIndex(p);
      if i == MAX_ALLOCATIONS { return; }
      var size := allocations[i].size;
      Unmap(ram, dir, p, size);
      allocations[i] := Allocation(0, 0);
      h.Free(p);
    }

    /** Asking for memory and giving it back: the heap table is restored only for single
        blocks. The record blanked is the first one of the address, which is an older one if an
        empty allocation got the same address before; and the program loses its mapping of every
        page counted from the start of the allocation, by that record's size. */
    method MallocThenFree(h: Heap, ram: array<Word>, dir: Word, size: Word) returns (p: Word)
      requires Valid() && Loading(h, ram, dir) && Clean(h.entries[..])
      requires size <= 0x7fff_f000 && !Overruns(h.entries[..], BlocksFor(size))
      modifies h.entries, ram, allocations
      ensures Valid()
      ensures p != 0 ==> (h.entries[..] == old(h.entries[..]) <==> BlocksFor(size) <= 1)
      ensures p != 0 ==>
        var i, j := Find(old(allocations[..]), 0), Find(old(allocations[..]), p);
        && i < MAX_ALLOCATIONS
        && allocations[..] == (if j < i then old(allocations[..])[i := Allocation(p, size)][j := Allocation(0, 0)]
                               else old(allocations[..]))
        && WellFormed(ram[..], dir) && p % PAGE == 0
        && LostPages(View(old(ram[..]), dir), View(ram[..], dir), p, BlocksFor(size),
                     if j < i then old(allocations[j].size) else size)
    {
      ghost var e, m, rs, n := h.entries[..], ram[..], allocations[..], BlocksFor(size);
      ghost var s, i := StartBlock(e, n), Find(rs, 0);
      p := Malloc(h, ram, dir, size);
      if p == 0 { return; }
      ghost var j := Find(rs, p);
      assert rs[i].p == 0 && rs[i].size == 0;
      ghost var sz := if j < i then rs[j].size else size;
      MallocUndone(e, h.entries[..], h.saddr, m, ram[..], dir, s, n, p, size);
      assert j < i ==> rs[j].p == p && rs[j].p + rs[j].size <= 0x8000_0000;
      ghost var g := View(ram[..], dir);
      hide *;
      RecordFound(rs, p, size, i, j);
      Free(h, ram, dir, p);
      PagesLost(View(m, dir), g, p, n, sz);
    }

    method Unmap(ram: array<Word>, dir: Word, p: Word, size: Word)
      requires ram.Length == RAM_WORDS && WellFormed(ram[..], dir)
      modifies ram
      ensures WellFormed(ram[..], dir) && OnlyTables(old(ram[..]), ram[..], dir)
      ensures View(ram[..], dir) ==
        if p % PAGE == 0 then FlatMapped(View(old(ram[..]), dir), p, 0, FreedPages(p, size), 0)
        else View(old(ram[..]), dir)
    {
      ghost var m := ram[..];
      NoUpdate(m, dir);
      AlignedEnd((p + size) % WORD);
      hide View, Mapped, FlatMapped, WellFormed, OnlyTables, AlignUp;
      var ret := MapTo(ram, dir, p, 0, AlignUp((p + size) % WORD), 0);
      if p % PAGE == 0 { MappedRefinesFlat(m, dir, p, 0, FreedPages(p, size), 0); }
    }
  }

  /** The record found for the address of the new one: itself, unless an older one has it. */
  lemma RecordFound(rs: seq<Allocation>, p: Word, size: Word, i: nat, j: nat)
    requires p != 0 && i == Find(rs, 0) && i < |rs| && rs[i].size == 0 && j == Find(rs, p)
    ensures var added := rs[i := Allocation(p, size)];
      var k := Find(added, p);
      && k == (if j < i then j else i) && added[k].size == (if j < i then rs[j].size else size)
      && added[k := Allocation(0, 0)] == if j < i then added[j := Allocation(0, 0)] else rs
  {
    var added := rs[i := Allocation(p, size)];
    FoundAt(added, p, if j < i then j else i);
    if j >= i { assert added[i := Allocation(0, 0)] == rs; }
  }

  /** What freeing the allocation just made will do. */
  lemma MallocUndone(e: Table, marked: Table, saddr: Word, m: seq<Word>, r: seq<Word>, dir: Word, s: nat, n: nat,
                     p: Word, size: Word)
    requires ValidPool(saddr, |e|) && Clean(e) && DirHeld(e, saddr, m, dir) && size <= 0x7fff_f000
    requires n == BlocksFor(size) && s == StartBlock(e, n) && !Overruns(e, n) && p == BlockToAddress(saddr, s)
    requires marked == Marked(UnsignedChar, e, s, n) && DirHeld(marked, saddr, r, dir)
    ensures IsRam(m) && dir % PAGE == 0 && WellFormed(r, dir)
    ensures n == (size + PAGE - 1) / PAGE && p % PAGE == 0 && p + size <= 0x8000_0000
    ensures FreedAddress(marked, saddr, p) == e <==> n <= 1
  {
    AllocatedPages(e, saddr, m, dir, s, n, p, size);
    FreeUndoesMalloc(e, saddr, n);
    BlocksForExact(size);
    hide *;
    assert p + size <= p + n * PAGE;
  }

  /** Map g is f with an allocation of n blocks at p given and then freed by a record of
      `size` bytes. */
  predicate LostPages(f: Flat, g: Flat, p: Word, n: nat, size: Word)
    requires |f| == PAGES && |g| == PAGES
  {
    forall page :: 0 <= page < PAGES ==>
      g[page] == if InPages(p, FreedPages(p, size), page) then (page - p / PAGE) * PAGE
                 else if InPages(p, n, page) then page * 4096 + 7
                 else f[page]
  }

  lemma PagesLost(f: Flat, g: Flat, p: Word, n: nat, size: Word)
    requires |f| == PAGES && |g| == PAGES && p % PAGE == 0 && p + size <= 0x8000_0000
    requires OnlyGiven(f, g, p, n)
    ensures LostPages(f, FlatMapped(g, p, 0, FreedPages(p, size), 0), p, n, size)
  {
    hide FlatMapped, FreedPages, InPages;
    forall page | 0 <= page < PAGES
      ensures FlatMapped(g, p, 0, FreedPages(p, size), 0)[page] ==
        if InPages(p, FreedPages(p, size), page) then (page - p / PAGE) * PAGE
        else if InPages(p, n, page) then page * 4096 + 7
        else f[page]
    {
      FreedPage(g, p, size, page);
    }
  }

  /** An allocation loses all its pages when its own record is found. */
  lemma OwnPagesLost(p: Word, size: Word, page: nat)
    requires p % PAGE == 0 && p + size <= 0x8000_0000 && InPages(p, (size + PAGE - 1) / PAGE, page)
    ensures InPages(p, FreedPages(p, size), page)
  {
    FreedPagesCount(p, size);
  }

  lemma AlignedEnd(x: Word)
    ensures AlignUp(x) % PAGE == 0 && AlignUp(x) / PAGE <= PAGES
  {
  }

  /** Facts about an allocation before it is mapped. */
  lemma AllocatedPages(e: Table, saddr: Word, m: seq<Word>, dir: Word, s: nat, n: nat, p: Word, size: Word)
    requires ValidPool(saddr, |e|) && DirHeld(e, saddr, m, dir) && size <= 0x7fff_f000
    requires n == BlocksFor(size) && s == StartBlock(e, n) && !Overruns(e, n) && p == BlockToAddress(saddr, s)
    ensures IsRam(m) && dir % PAGE == 0 && n <= PAGES
    ensures s <= |e| && s + n <= |e| && p == saddr + s * PAGE && p % PAGE == 0 && p + n * PAGE <= 0x8000_0000
    ensures AlignUp((p + size) % WORD) == p + n * PAGE && size <= n * PAGE
    ensures (AlignUp((p + size) % WORD) - p) / PAGE == n && MapToOk(p, p, AlignUp((p + size) % WORD))
  {
    BlocksForExact(size);
    assert s + n <= |e|;
    hide StartBlock, DirHeld, AlignUp;
    BlockToAddressInPool(saddr, |e|, s, n, p);
    PagesOf(p, size, n);
  }

  lemma BlockToAddressInPool(saddr: Word, total: nat, s: nat, n: nat, p: Word)
    requires ValidPool(saddr, total) && s + n <= total && p == BlockToAddress(saddr, s)
    ensures p == saddr + s * PAGE && p % PAGE == 0 && p + n * PAGE <= 0x8000_0000
  {
    var q := saddr / PAGE;
    assert saddr + s * PAGE == (q + s) * PAGE && saddr + s * PAGE < WORD;
  }

  lemma WholePages(size: nat, n: nat)
    requires n == (size + PAGE - 1) / PAGE
    ensures size <= n * PAGE
  {
  }

  lemma PagesOf(p: Word, size: Word, n: nat)
    requires p % PAGE == 0 && n == (size + PAGE - 1) / PAGE && p + n * PAGE <= 0x8000_0000
    ensures size <= n * PAGE && n <= PAGES
    ensures AlignUp((p + size) % WORD) == p + n * PAGE
    ensures (AlignUp((p + size) % WORD) - p) / PAGE == n && MapToOk(p, p, AlignUp((p + size) % WORD))
  {
    WholePages(size, n);
    AlignUpParts(p / PAGE, size);
    assert (p + size) % WORD == p + size == p / PAGE * PAGE + size;
    hide AlignUp;
    assert (p + n * PAGE) % PAGE == 0 by { ModUnique(p + n * PAGE, PAGE, p / PAGE + n, 0); }
  }

  /** Clearing an allocation leaves the directory as it was, even one of no blocks. */
  lemma ClearedElsewhere(e: Table, saddr: Word, m: seq<Word>, z: seq<Word>, dir: Word, s: nat, n: nat,
                         p: Word, size: nat)
    requires ValidPool(saddr, |e|) && DirHeld(e, saddr, m, dir) && size <= n * PAGE
    requires s == StartBlock(e, n) && !Overruns(e, n) && p == saddr + s * PAGE && z == Zeroed(m, p, size)
    ensures DirHeld(Marked(UnsignedChar, e, s, n), saddr, z, dir)
    ensures WellFormed(z, dir) && SameDirectory(m, z, dir) && View(z, dir) == View(m, dir)
    ensures Confined(saddr, e, m, Marked(UnsignedChar, e, s, n), z, dir)
  {
    assert WellFormed(m, dir) && IsRam(m) && dir % PAGE == 0 && PAGE == 4096;
    if n > 0 {
      ScanExact(e, n);
      assert RunFree(e, s, n) && p == BlockToAddress(saddr, s) by { BlockAddressRoundTrip(saddr, |e|, s); }
      hide *;
      AllocationMissesDir(e, saddr, m, dir, s, n, size);
      AllocationConfined(saddr, e, m, dir, s, n, size);
      HeldIsWellFormed(Marked(UnsignedChar, e, s, n), saddr, z, dir);
    } else {
      assert z == m && Marked(UnsignedChar, e, s, n) == e && SameDirectory(m, m, dir);
      hide *;
      ConfinedAtOnce(saddr, e, m, dir);
    }
  }

  lemma HeldIsWellFormed(e: Table, saddr: Word, m: seq<Word>, dir: Word)
    requires DirHeld(e, saddr, m, dir)
    ensures WellFormed(m, dir) && IsRam(m) && dir % PAGE == 0
  {
  }

  /** Giving the block back after a failure frees no block that was taken before. */
  lemma UnmarkConfined(saddr: Word, e: Table, m: seq<Word>, z: seq<Word>, dir: Word, s: nat, n: nat, p: Word)
    requires ValidPool(saddr, |e|) && Clean(e) && IsRam(m) && IsRam(z) && dir % PAGE == 0
    requires s == StartBlock(e, n) && !Overruns(e, n) && p == BlockToAddress(saddr, s)
    requires Confined(saddr, e, m, Marked(UnsignedChar, e, s, n), z, dir)
    ensures Confined(saddr, e, m, FreedAddress(Marked(UnsignedChar, e, s, n), saddr, p), z, dir)
  {
    var f := FreedAddress(Marked(UnsignedChar, e, s, n), saddr, p);
    if n > 0 { ScanExact(e, n); }
    BlockAddressRoundTrip(saddr, |e|, s);
    if n > 0 { FreeInvertsMark(UnsignedChar, e, s, n); } else { assert Marked(UnsignedChar, e, s, n) == e; }
    assert f == Marked(UnsignedChar, e, s, n)[s := FREE] && IsFree(e[s]);
    hide Open, IsTable, FrameOf, Freed, FreedAddress, StartBlock;
  }

  /** The table with all blocks of a run but its first marked, as single blocks. */
  function AllButFirst(e: Table, s: nat, n: nat): (r: Table)
    ensures |r| == |e|
    ensures forall i :: 0 <= i < |e| ==> r[i] == if s < i < s + n then 1 else e[i]
  {
    seq(|e|, i requires 0 <= i < |e| => if s < i < s + n then 1 else e[i])
  }

  lemma Unmarked(e: Table, saddr: Word, s: nat, n: nat, p: Word)
    requires ValidPool(saddr, |e|) && Clean(e)
    requires s == StartBlock(e, n) && !Overruns(e, n) && p == BlockToAddress(saddr, s)
    ensures FreedAddress(Marked(UnsignedChar, e, s, n), saddr, p) == AllButFirst(e, s, n)
  {
    if n > 0 { ScanExact(e, n); } else { ScanNothing(e); }
    BlockAddressRoundTrip(saddr, |e|, s);
    var m := Marked(UnsignedChar, e, s, n);
    if n > 0 { FreeInvertsMark(UnsignedChar, e, s, n); } else { assert m == e; }
    assert FreedAddress(m, saddr, p) == m[s := FREE] && e[s] == FREE;
    forall i | 0 <= i < |e| ensures m[s := FREE][i] == AllButFirst(e, s, n)[i] {
      MarksAre(e, s, n, i);
    }
    hide Freed, FreedAddress, StartBlock, Marked;
  }

  lemma HeldAfterUpdate(e: Table, saddr: Word, m: seq<Word>, r: seq<Word>, dir: Word)
    requires DirHeld(e, saddr, m, dir) && OnlyTables(m, r, dir)
    ensures DirHeld(e, saddr, r, dir)
  {
    SameTables(m, r, dir);
  }

  /** The result of mapping a cleared allocation to itself. */
  lemma Given(e: Table, marked: Table, saddr: Word, m: seq<Word>, z: seq<Word>, r: seq<Word>, dir: Word,
              s: nat, n: nat, p: Word, size: Word)
    requires ValidPool(saddr, |e|) && DirHeld(e, saddr, m, dir) && size <= n * PAGE
    requires s == StartBlock(e, n) && !Overruns(e, n) && s + n <= |e| && p == saddr + s * PAGE
    requires marked == Marked(UnsignedChar, e, s, n) && z == Zeroed(m, p, size) && n <= PAGES
    requires p % PAGE == 0 && r == Mapped(z, dir, p, p, n, PRESENT + WRITABLE + USER)
    ensures DirHeld(marked, saddr, r, dir) && Confined(saddr, marked, z, marked, r, dir)
    ensures OnlyGiven(View(m, dir), View(r, dir), p, n)
    ensures forall k :: 0 <= k < size ==> GivenByte(r, View(r, dir), p, k)
  {
    hide StartBlock, View, FlatMapped, Mapped, Held, IsFree, RunFree, IsTable, OnlyGiven, GivenByte, SameDirectory;
    ClearedElsewhere(e, saddr, m, z, dir, s, n, p, size);
    if n > 0 { ScanExact(e, n); }
    MappedRefinesFlat(z, dir, p, p, n, PRESENT + WRITABLE + USER);
    HeldAfterUpdate(marked, saddr, z, r, dir);
    UpdateConfined(saddr, marked, z, r, dir);
    hide Confined;
    GivenPages(View(m, dir), p, n);
    forall k | 0 <= k < size ensures GivenByte(r, View(r, dir), p, k) {
      StillZero(e, saddr, m, z, r, dir, s, n, p, size, k);
      GivenPage(View(m, dir), View(r, dir), p, n, k);
      IsGiven(r, View(r, dir), p, k);
    }
  }

  lemma IsGiven(m: seq<Word>, f: Flat, p: Word, k: nat)
    requires IsRam(m) && |f| == PAGES && p + k < WORD && ByteAt(m, p + k) == 0
    requires Translate(f, p + k) == p + k && f[(p + k) / PAGE] % PAGE == 7
    ensures GivenByte(m, f, p, k)
  {
  }
}
