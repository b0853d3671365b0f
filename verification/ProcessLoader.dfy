/** process_map_memory on the machine: the directory is updated in place while the BSS is
    allocated from the same heap the page tables live in. */
module ProcessLoader {
  import opened Words
  import opened BlockHeap
  import opened KernelHeap
  import opened Ownership
  import opened Memory
  import opened Paging
  import opened Chunks
  import opened ElfLoader
  import opened ProcessImage

  /** A frame of the pool whose block is marked taken. */
  predicate Held(e: Table, saddr: Word, a: Word) {
    a % PAGE == 0 && saddr <= a && (a - saddr) / PAGE < |e| && !IsFree(e[(a - saddr) / PAGE])
  }

  /** Directory and tables all lie in taken blocks, as a new chunk leaves them. */
  ghost predicate DirHeld(e: Table, saddr: Word, m: seq<Word>, dir: Word) {
    && WellFormed(m, dir)
    && Held(e, saddr, dir)
    && forall j :: 0 <= j < ENTRIES ==> Held(e, saddr, TableOf(m, dir, j))
  }

  /** A freshly created chunk is held: what task_init hands to process_map_memory. */
  lemma NewChunkIsHeld(saddr: Word, base: Table, e: Table, m: seq<Word>, chunk: Word, bs: seq<nat>)
    requires ValidPool(saddr, |base|) && Grabbed(base, e, bs)
    requires IsChunk(m, chunk, Addresses(saddr, bs))
    ensures DirHeld(e, saddr, m, m[chunk / 4])
  {
    var fs := Addresses(saddr, bs);
    ChunkWellFormed(m, chunk, fs);
    forall i | 0 <= i < |bs| ensures Held(e, saddr, fs[i]) {
      assert bs[i] in bs;
      BlockAddressRoundTrip(saddr, |base|, bs[i]);
    }
    forall j | 0 <= j < ENTRIES ensures Held(e, saddr, TableOf(m, fs[0], j)) {
      assert TableOf(m, fs[0], j) == fs[j + 1];
    }
  }

  /** Frames of the run of n blocks at s. */
  function RunFrames(saddr: Word, s: nat, n: nat): (fs: seq<Word>)
    requires saddr + (s + n) * PAGE <= WORD
    ensures |fs| == n
  {
    seq(n, k requires 0 <= k < n => saddr + (s + k) * PAGE)
  }

  lemma HeldNotInFreeRun(e: Table, saddr: Word, s: nat, n: nat, a: Word)
    requires ValidPool(saddr, |e|) && RunFree(e, s, n) && Held(e, saddr, a)
    ensures a !in RunFrames(saddr, s, n)
  {
    var fs := RunFrames(saddr, s, n);
    forall k | 0 <= k < n ensures fs[k] != a {
      assert (fs[k] - saddr) / PAGE == s + k;
      assert IsFree(e[s + k]);
    }
  }

  lemma HeldAfterMark(e: Table, saddr: Word, s: nat, n: nat, a: Word)
    requires s + n <= |e| && Held(e, saddr, a)
    ensures Held(Marked(UnsignedChar, e, s, n), saddr, a)
  {
    var b := (a - saddr) / PAGE;
    RunEntryTaken(UnsignedChar, if s <= b then b - s else 0, n);
  }

  /** Clearing a run of blocks stays inside its frames. */
  lemma ZeroedInRun(m: seq<Word>, saddr: Word, total: nat, s: nat, n: nat, size: nat)
    requires IsRam(m) && ValidPool(saddr, total) && s + n <= total && size <= n * PAGE
    ensures BlockToAddress(saddr, s) == saddr + s * PAGE || n == 0
    ensures n > 0 ==> OnlyFrames(m, Zeroed(m, saddr + s * PAGE, size), RunFrames(saddr, s, n))
  {
    if n > 0 {
      BlockAddressRoundTrip(saddr, total, s);
      var p := saddr + s * PAGE;
      forall w | 0 <= w < RAM_WORDS
        ensures p / 4 <= w < p / 4 + n * ENTRIES ==> FrameOf(w) in RunFrames(saddr, s, n)
      {
        if p / 4 <= w < p / 4 + n * ENTRIES { FrameInRun(saddr, s, n, w); }
      }
      hide FrameOf;
    }
  }

  lemma FrameInRun(saddr: Word, s: nat, n: nat, w: nat)
    requires saddr % PAGE == 0 && saddr + (s + n) * PAGE <= WORD && w < RAM_WORDS
    requires (saddr + s * PAGE) / 4 <= w < (saddr + s * PAGE) / 4 + n * ENTRIES
    ensures FrameOf(w) in RunFrames(saddr, s, n)
  {
    var k := (w - (saddr + s * PAGE) / 4) / ENTRIES;
    WordInRun(saddr / PAGE + s, w, k);
    assert RunFrames(saddr, s, n)[k] == FrameOf(w);
  }

  lemma WordInRun(q: nat, w: nat, k: nat)
    requires q * PAGE / 4 <= w && k == (w - q * PAGE / 4) / ENTRIES
    ensures w / ENTRIES * PAGE == (q + k) * PAGE
  {
    assert q * PAGE / 4 == q * 1024;
    ModUnique(w, 1024, q + k, (w - q * 1024) % 1024);
  }

  /** A zeroing allocation leaves every held directory as it was. */
  lemma AllocationMissesDir(e: Table, saddr: Word, m: seq<Word>, dir: Word, s: nat, n: nat, size: nat)
    requires ValidPool(saddr, |e|) && DirHeld(e, saddr, m, dir)
    requires RunFree(e, s, n) && n > 0 && size <= n * PAGE
    ensures var p := BlockToAddress(saddr, s);
      var r := Zeroed(m, p, size);
      && p == saddr + s * PAGE
      && DirHeld(Marked(UnsignedChar, e, s, n), saddr, r, dir)
      && SameDirectory(m, r, dir) && View(r, dir) == View(m, dir)
  {
    ZeroedInRun(m, saddr, |e|, s, n, size);
    var r := Zeroed(m, saddr + s * PAGE, size);
    var fs := RunFrames(saddr, s, n);
    HeldNotInFreeRun(e, saddr, s, n, dir);
    forall j | 0 <= j < ENTRIES ensures TableOf(m, dir, j) !in fs {
      HeldNotInFreeRun(e, saddr, s, n, TableOf(m, dir, j));
    }
    ViewElsewhere(m, r, dir, fs);
    HeldAfterMark(e, saddr, s, n, dir);
    forall j | 0 <= j < ENTRIES
      ensures Held(Marked(UnsignedChar, e, s, n), saddr, TableOf(r, dir, j))
    {
      HeldAfterMark(e, saddr, s, n, TableOf(m, dir, j));
    }
  }

  // --- how far an operation reaches ---------------------------------------------------

  /** A frame of the pool whose block is free. */
  predicate Open(e: Table, saddr: Word, a: Word) {
    a % PAGE == 0 && saddr <= a && (a - saddr) / PAGE < |e| && IsFree(e[(a - saddr) / PAGE])
  }

  /** From table e and memory m to table f and memory r only free blocks were taken, and only
      free frames and the page tables of `dir` were written. */
  ghost predicate Confined(saddr: Word, e: Table, m: seq<Word>, f: Table, r: seq<Word>, dir: Word)
    requires IsRam(m) && IsRam(r) && dir % PAGE == 0
  {
    && |f| == |e| && (Tidy(e) ==> Tidy(f)) && SameDirectory(m, r, dir)
    && (forall b :: 0 <= b < |e| && !IsFree(e[b]) ==> f[b] == e[b])
    && (forall w :: 0 <= w < RAM_WORDS && !Open(e, saddr, FrameOf(w)) && !IsTable(m, dir, FrameOf(w)) ==>
          r[w] == m[w])
  }

  lemma UpdateConfined(saddr: Word, e: Table, m: seq<Word>, r: seq<Word>, dir: Word)
    requires IsRam(m) && dir % PAGE == 0 && OnlyTables(m, r, dir)
    ensures Confined(saddr, e, m, e, r, dir)
  {
  }

  lemma AllocationConfined(saddr: Word, e: Table, m: seq<Word>, dir: Word, s: nat, n: nat, size: nat)
    requires ValidPool(saddr, |e|) && DirHeld(e, saddr, m, dir) && n > 0 && RunFree(e, s, n) && size <= n * PAGE
    ensures Confined(saddr, e, m, Marked(UnsignedChar, e, s, n), Zeroed(m, saddr + s * PAGE, size), dir)
  {
    assert IsRam(m) && dir % PAGE == 0 && PAGE == 4096;
    hide *;
    ZeroedInRun(m, saddr, |e|, s, n, size);
    AllocationMissesDir(e, saddr, m, dir, s, n, size);
    RunFramesOpen(e, saddr, s, n);
    MarkedKeepsTaken(e, s, n);
    ConfinedFrom(saddr, e, m, Marked(UnsignedChar, e, s, n), Zeroed(m, saddr + s * PAGE, size), dir,
                 RunFrames(saddr, s, n));
  }

  lemma RunFramesOpen(e: Table, saddr: Word, s: nat, n: nat)
    requires ValidPool(saddr, |e|) && RunFree(e, s, n)
    ensures saddr + (s + n) * PAGE <= WORD
    ensures forall a :: a in RunFrames(saddr, s, n) ==> Open(e, saddr, a)
  {
    var fs := RunFrames(saddr, s, n);
    forall k | 0 <= k < n ensures Open(e, saddr, fs[k]) {
      assert fs[k] == saddr + (s + k) * PAGE && (fs[k] - saddr) / PAGE == s + k;
    }
  }

  lemma ConfinedFrom(saddr: Word, e: Table, m: seq<Word>, f: Table, r: seq<Word>, dir: Word, fs: seq<Word>)
    requires dir % PAGE == 0 && OnlyFrames(m, r, fs) && SameDirectory(m, r, dir)
    requires forall a :: a in fs ==> Open(e, saddr, a)
    requires |f| == |e| && (Tidy(e) ==> Tidy(f)) && forall b :: 0 <= b < |e| && !IsFree(e[b]) ==> f[b] == e[b]
    ensures Confined(saddr, e, m, f, r, dir)
  {
    hide Open, IsTable, FrameOf, SameDirectory, Tidy, IsFree;
  }

  lemma MarkedKeepsTaken(e: Table, s: nat, n: nat)
    requires RunFree(e, s, n)
    ensures var f := Marked(UnsignedChar, e, s, n);
      (Tidy(e) ==> Tidy(f)) && forall b :: 0 <= b < |e| && !IsFree(e[b]) ==> f[b] == e[b]
  {
    forall k: nat ensures !IsFree(RunEntry(UnsignedChar, k, n)) { RunEntryTaken(UnsignedChar, k, n); }
  }

  lemma ConfinedTwice(saddr: Word, e: Table, m: seq<Word>, f: Table, r: seq<Word>, g: Table, q: seq<Word>, dir: Word)
    requires IsRam(m) && IsRam(r) && IsRam(q) && dir % PAGE == 0
    requires Confined(saddr, e, m, f, r, dir) && Confined(saddr, f, r, g, q, dir)
    ensures Confined(saddr, e, m, g, q, dir)
  {
    SameTables(m, r, dir);
    forall a: Word | Open(f, saddr, a) ensures Open(e, saddr, a) {
    }
    hide Open, IsTable, FrameOf, IsFree;
  }

  lemma ConfinedAtOnce(saddr: Word, e: Table, m: seq<Word>, dir: Word)
    requires IsRam(m) && dir % PAGE == 0
    ensures Confined(saddr, e, m, e, m, dir)
  {
  }

  // --- the BSS stays zero -----------------------------------------------------------

  /** The words of [p, p + bytes) are zero and lie in no table of `dir`. */
  ghost predicate ZeroAndApart(m: seq<Word>, dir: Word, p: Word, bytes: nat)
    requires IsRam(m) && dir % PAGE == 0
  {
    forall w :: p / 4 <= w < (p + bytes) / 4 && w < RAM_WORDS ==>
      m[w] == 0 && !IsTable(m, dir, FrameOf(w))
  }

  lemma ZeroSurvivesMapping(m: seq<Word>, r: seq<Word>, dir: Word, p: Word, bytes: nat)
    requires IsRam(m) && dir % PAGE == 0 && OnlyTables(m, r, dir) && ZeroAndApart(m, dir, p, bytes)
    ensures ZeroAndApart(r, dir, p, bytes)
  {
    SameTables(m, r, dir);
  }

  lemma ZeroSurvivesZeroing(m: seq<Word>, dir: Word, p: Word, bytes: nat, q: Word, size: nat)
    requires IsRam(m) && dir % PAGE == 0 && ZeroAndApart(m, dir, p, bytes)
    requires SameDirectory(m, Zeroed(m, q, size), dir)
    ensures ZeroAndApart(Zeroed(m, q, size), dir, p, bytes)
  {
    var r := Zeroed(m, q, size);
    SameTables(m, r, dir);
    forall w | p / 4 <= w < (p + bytes) / 4 && w < RAM_WORDS ensures r[w] == 0 {
      assert r[w] == ZeroedAt(m, q, size, w);
      ZeroLowOfZero(size % 4);
    }
  }

  lemma ZeroLowOfZero(k: nat)
    ensures ZeroLow(0, k) == 0
  {
  }

  /** The freshly cleared run itself. */
  lemma FreshIsZero(e: Table, saddr: Word, m: seq<Word>, dir: Word, s: nat, n: nat, size: nat)
    requires ValidPool(saddr, |e|) && DirHeld(e, saddr, m, dir)
    requires RunFree(e, s, n) && n > 0 && size <= n * PAGE && size % PAGE == 0
    requires SameDirectory(m, Zeroed(m, saddr + s * PAGE, size), dir)
    ensures ZeroAndApart(Zeroed(m, saddr + s * PAGE, size), dir, saddr + s * PAGE, size)
  {
    var p := saddr + s * PAGE;
    assert IsRam(m) && dir % PAGE == 0;
    forall w | p / 4 <= w < (p + size) / 4 && w < RAM_WORDS
      ensures Zeroed(m, p, size)[w] == 0 && !IsTable(m, dir, FrameOf(w))
    {
      hide FrameOf, IsTable, RunFree, DirHeld, RunFrames;
      WordOfRun(p, size, n, w);
      assert Zeroed(m, p, size)[w] == ZeroedAt(m, p, size, w);
      FrameInRun(saddr, s, n, w);
      FrameNotTable(e, saddr, m, dir, s, n, FrameOf(w));
    }
    hide *;
    ZeroFrom(m, Zeroed(m, p, size), dir, p, size);
  }

  lemma ZeroFrom(m: seq<Word>, r: seq<Word>, dir: Word, p: Word, bytes: nat)
    requires IsRam(m) && IsRam(r) && dir % PAGE == 0 && SameDirectory(m, r, dir)
    requires forall w :: p / 4 <= w < (p + bytes) / 4 && w < RAM_WORDS ==>
      r[w] == 0 && !IsTable(m, dir, FrameOf(w))
    ensures ZeroAndApart(r, dir, p, bytes)
  {
    SameTables(m, r, dir);
    hide IsTable, FrameOf;
  }

  lemma WordOfRun(p: Word, size: nat, n: nat, w: nat)
    requires p % PAGE == 0 && size % PAGE == 0 && size <= n * PAGE && p / 4 <= w < (p + size) / 4
    ensures w < p / 4 + size / 4 && w < p / 4 + n * ENTRIES
  {
    var q, k := p / PAGE, size / PAGE;
    assert p == 4096 * q && size == 4096 * k && k <= n;
    assert p / 4 == 1024 * q && (p + size) / 4 == 1024 * q + 1024 * k;
  }

  lemma FrameNotTable(e: Table, saddr: Word, m: seq<Word>, dir: Word, s: nat, n: nat, a: Word)
    requires ValidPool(saddr, |e|) && DirHeld(e, saddr, m, dir) && RunFree(e, s, n)
    requires a in RunFrames(saddr, s, n)
    ensures !IsTable(m, dir, a)
  {
    forall j | 0 <= j < ENTRIES ensures TableOf(m, dir, j) != a {
      HeldNotInFreeRun(e, saddr, s, n, TableOf(m, dir, j));
    }
  }

  // --- process_map_elf -----------------------------------------------------------------

  function BssSize(ph: Phdr): Word { AlignUp(ph.memsz) }

  predicate IsBss(ph: Phdr) { ph.filesz == 0 }

  /** No BSS allocation along the way runs past the end of the heap table. */
  predicate BssFits(e: Table, phs: seq<Phdr>)
    decreases |phs|
  {
    phs == [] ||
    (if !IsBss(phs[0]) then BssFits(e, phs[1..])
     else
       var n := BlocksFor(BssSize(phs[0]));
       && BssSize(phs[0]) <= 0x7fff_f000 && !Overruns(e, n)
       && (StartBlock(e, n) >= 0 ==> BssFits(Marked(UnsignedChar, e, StartBlock(e, n), n), phs[1..])))
  }

  /** The heap has room for a header's BSS, if it is one. */
  predicate Granted(e: Table, ph: Phdr) { ph.filesz != 0 || StartBlock(e, BlocksFor(BssSize(ph))) >= 0 }

  /** The table after that request. */
  function AfterSource(e: Table, ph: Phdr): (r: Table)
    requires Granted(e, ph)
    ensures |r| == |e|
  {
    var n := BlocksFor(BssSize(ph));
    if ph.filesz != 0 then e else Marked(UnsignedChar, e, StartBlock(e, n), n)
  }

  /** The heap has room for every BSS of a program, one request after the other. */
  predicate AllGranted(e: Table, phs: seq<Phdr>)
    decreases |phs|
  {
    phs == [] || (Granted(e, phs[0]) && AllGranted(AfterSource(e, phs[0]), phs[1..]))
  }

  function AfterSources(e: Table, phs: seq<Phdr>): (r: Table)
    requires AllGranted(e, phs)
    ensures |r| == |e|
    decreases |phs|
  {
    if phs == [] then e else AfterSources(AfterSource(e, phs[0]), phs[1..])
  }

  /** The requests of a program, the first one split off. */
  lemma GrantedStep(e: Table, ph: Phdr, rest: seq<Phdr>)
    ensures AllGranted(e, [ph] + rest) <==> Granted(e, ph) && AllGranted(AfterSource(e, ph), rest)
    ensures AllGranted(e, [ph] + rest) ==>
      AfterSources(e, [ph] + rest) == AfterSources(AfterSource(e, ph), rest)
  {
    assert ([ph] + rest)[1..] == rest;
    hide Granted, AfterSource;
  }

  ghost predicate SourceOk(m: seq<Word>, dir: Word, elfMemory: Word, ph: Phdr, src: Word)
    requires IsRam(m) && dir % PAGE == 0
  {
    if ph.filesz == 0 then IsBssBlock(ph, src) && (ph.memsz > 0 ==> ZeroAndApart(m, dir, src, BssSize(ph)))
    else src == (elfMemory + ph.offset) % WORD
  }

  /** Where a heap allocation for a BSS can lie. */
  predicate IsBssBlock(ph: Phdr, src: Word) { src % PAGE == 0 && src + BssSize(ph) <= 0x8000_0000 }

  ghost predicate SourcesOk(m: seq<Word>, dir: Word, elfMemory: Word, phs: seq<Phdr>, srcs: seq<Word>)
    requires IsRam(m) && dir % PAGE == 0
  {
    |phs| == |srcs| && forall i :: 0 <= i < |phs| ==> SourceOk(m, dir, elfMemory, phs[i], srcs[i])
  }

  ghost predicate Loading(h: Heap, ram: array<Word>, dir: Word)
    reads h.entries, ram
  {
    && h.Valid() && h.entryType == UnsignedChar && ram.Length == RAM_WORDS
    && DirHeld(h.entries[..], h.saddr, ram[..], dir)
  }

  /** The source address of one segment: its file contents, or a cleared allocation. */
  method SegmentSource(h: Heap, ram: array<Word>, dir: Word, elfMemory: Word, ph: Phdr,
                       ghost rest: seq<Phdr>)
    returns (ret: int, src: Word)
    requires Loading(h, ram, dir) && BssFits(h.entries[..], [ph] + rest)
    modifies h.entries, ram
    ensures ret == if Granted(old(h.entries[..]), ph) then 0 else -ENOMEM
    ensures ret == 0 ==> h.entries[..] == AfterSource(old(h.entries[..]), ph)
    ensures ret == 0 ==>
      && Loading(h, ram, dir) && BssFits(h.entries[..], rest)
      && SameDirectory(old(ram[..]), ram[..], dir) && View(ram[..], dir) == View(old(ram[..]), dir)
      && SourceOk(ram[..], dir, elfMemory, ph, src)
      && (ram[..] == old(ram[..]) || exists q: Word, size: nat :: ram[..] == Zeroed(old(ram[..]), q, size))
      && Confined(h.saddr, old(h.entries[..]), old(ram[..]), h.entries[..], ram[..], dir)
  {
    assert ([ph] + rest)[1..] == rest;
    ConfinedAtOnce(h.saddr, h.entries[..], ram[..], dir);
    hide StartBlock, View, Confined, DirHeld, ZeroAndApart, Zeroed, Marked, Overruns, AlignUp, BlocksFor;
    src := PhdrPaddr(elfMemory, ph);
    if ph.filesz == 0 {
      ghost var e, m, n := h.entries[..], ram[..], BlocksFor(BssSize(ph));
      src := KZalloc(h, ram, BssSize(ph));
      if src == 0 { return -ENOMEM, 0; }
      ghost var s := StartBlock(e, n);
      BssAllocated(e, h.saddr, m, dir, s, n, ph);
    }
    ret := 0;
  }

  /** What a successful BSS allocation leaves, including the empty one. */
  lemma BssAllocated(e: Table, saddr: Word, m: seq<Word>, dir: Word, s: nat, n: nat, ph: Phdr)
    requires ValidPool(saddr, |e|) && DirHeld(e, saddr, m, dir)
    requires n == BlocksFor(BssSize(ph)) && BssSize(ph) <= 0x7fff_f000
    requires s == StartBlock(e, n) && !Overruns(e, n)
    ensures var p := BlockToAddress(saddr, s);
      var r := Zeroed(m, p, BssSize(ph));
      && IsBssBlock(ph, p)
      && DirHeld(Marked(UnsignedChar, e, s, n), saddr, r, dir)
      && SameDirectory(m, r, dir) && View(r, dir) == View(m, dir)
      && (ph.memsz > 0 ==> ZeroAndApart(r, dir, p, BssSize(ph)))
      && Confined(saddr, e, m, Marked(UnsignedChar, e, s, n), r, dir)
  {
    var p, size := BlockToAddress(saddr, s), BssSize(ph);
    assert IsRam(m) && dir % PAGE == 0 && PAGE == 4096;
    BssBlock(e, saddr, s, n, ph);
    hide *;
    if n > 0 {
      AllocationMissesDir(e, saddr, m, dir, s, n, size);
      AllocationConfined(saddr, e, m, dir, s, n, size);
      FreshIsZero(e, saddr, m, dir, s, n, size);
    } else {
      NothingAllocated(saddr, e, m, dir, s, p);
    }
  }

  /** Where the block of a BSS is, and whether there is one. */
  lemma BssBlock(e: Table, saddr: Word, s: nat, n: nat, ph: Phdr)
    requires ValidPool(saddr, |e|) && n == BlocksFor(BssSize(ph)) && BssSize(ph) <= 0x7fff_f000
    requires s == StartBlock(e, n) && !Overruns(e, n)
    ensures BlockToAddress(saddr, s) == saddr + s * PAGE && IsBssBlock(ph, BlockToAddress(saddr, s))
    ensures BssSize(ph) <= n * PAGE && BssSize(ph) % PAGE == 0
    ensures n > 0 ==> RunFree(e, s, n)
    ensures n == 0 ==> BssSize(ph) == 0
  {
    BlocksForExact(BssSize(ph));
    if n > 0 { ScanExact(e, n); }
    assert s + n <= |e|;
    hide StartBlock, RunFree, BlocksFor, Overruns;
    SizeOfBss(ph, n);
  }

  lemma SizeOfBss(ph: Phdr, n: nat)
    requires BssSize(ph) <= 0x7fff_f000 && n == (BssSize(ph) + PAGE - 1) / PAGE
    ensures BssSize(ph) == n * PAGE
  {
  }

  lemma NothingAllocated(saddr: Word, e: Table, m: seq<Word>, dir: Word, s: nat, p: Word)
    requires DirHeld(e, saddr, m, dir)
    ensures IsRam(m) && dir % PAGE == 0
    ensures Zeroed(m, p, 0) == m && Marked(UnsignedChar, e, s, 0) == e
    ensures SameDirectory(m, m, dir) && Confined(saddr, e, m, e, m, dir) && ZeroAndApart(m, dir, p, 0)
  {
  }

  /** A segment that some source address makes unmappable: its end wraps past 2^32. */
  ghost predicate Unmappable(elfMemory: Word, ph: Phdr) {
    exists src: Word ::
      !Mappable(ph, src) && if IsBss(ph) then IsBssBlock(ph, src) else src == PhdrPaddr(elfMemory, ph)
  }

  ghost predicate SomeUnmappable(elfMemory: Word, phs: seq<Phdr>) {
    exists i :: 0 <= i < |phs| && Unmappable(elfMemory, phs[i])
  }

  method MapElfSegment(h: Heap, ram: array<Word>, dir: Word, elfMemory: Word, ph: Phdr,
                       ghost rest: seq<Phdr>, ghost phs: seq<Phdr>, ghost srcs: seq<Word>)
    returns (ret: int, src: Word)
    requires Loading(h, ram, dir) && BssFits(h.entries[..], [ph] + rest)
    requires SourcesOk(ram[..], dir, elfMemory, phs, srcs)
    modifies h.entries, ram
    ensures ret == 0 || ret == -ENOMEM || (ret == -EINVAL && Unmappable(elfMemory, ph))
    ensures ret == -ENOMEM <==> !Granted(old(h.entries[..]), ph)
    ensures ret != -ENOMEM ==> h.entries[..] == AfterSource(old(h.entries[..]), ph)
    ensures ret != -ENOMEM ==> Confined(h.saddr, old(h.entries[..]), old(ram[..]), h.entries[..], ram[..], dir)
    ensures ret == 0 ==>
      && Loading(h, ram, dir) && BssFits(h.entries[..], rest) && Mappable(ph, src)
      && SourcesOk(ram[..], dir, elfMemory, phs + [ph], srcs + [src])
      && View(ram[..], dir) == MapSegment(View(old(ram[..]), dir), ph, src)
  {
    hide View, Mapped, FlatMapped, FrameOf, BssFits, Held, PageBase, AlignUp, Confined, Granted, AfterSource;
    ghost var e, m := h.entries[..], ram[..];
    ret, src := SegmentSource(h, ram, dir, elfMemory, ph, rest);
    if ret < 0 { return; }
    ghost var r := ram[..];
    SourcesSurvive(m, r, dir, elfMemory, phs, srcs);
    ret := MapTo(ram, dir, PageBase(ph.vaddr), PageBase(src), AlignUp((src + ph.memsz) % WORD), Flags(ph));
    if ret < 0 {
      assert SourceOk(r, dir, elfMemory, ph, src) && !Mappable(ph, src);
      return;
    }
    MappedRefinesFlat(r, dir, PageBase(ph.vaddr), PageBase(src), PageCount(ph, src), SegmentFlags(ph));
    UpdateConfined(h.saddr, h.entries[..], r, ram[..], dir);
    ConfinedTwice(h.saddr, e, m, h.entries[..], r, h.entries[..], ram[..], dir);
    SegmentDone(h.entries[..], h.saddr, r, ram[..], dir, elfMemory, phs, srcs, ph, src);
  }

  /** process_map_elf. */
  method MapElf(h: Heap, ram: array<Word>, dir: Word, elfMemory: Word, phs: seq<Phdr>)
    returns (ret: int, ghost srcs: seq<Word>)
    requires Loading(h, ram, dir) && BssFits(h.entries[..], phs)
    modifies h.entries, ram
    ensures ret == 0 ==>
      && Loading(h, ram, dir)
      && SourcesOk(ram[..], dir, elfMemory, phs, srcs) && AllMappable(phs, srcs)
      && View(ram[..], dir) == MapSegments(View(old(ram[..]), dir), phs, srcs)
    ensures ret == 0 || ret == -ENOMEM || (ret == -EINVAL && SomeUnmappable(elfMemory, phs))
    ensures ret == 0 ==> AllGranted(old(h.entries[..]), phs) && h.entries[..] == AfterSources(old(h.entries[..]), phs)
    ensures ret == -ENOMEM ==> !AllGranted(old(h.entries[..]), phs)
    ensures ret != -ENOMEM ==> Confined(h.saddr, old(h.entries[..]), old(ram[..]), h.entries[..], ram[..], dir)
  {
    srcs := [];
    ret := 0;
    var i := 0;
    ghost var f := View(ram[..], dir);
    ghost var e, m := h.entries[..], ram[..];
    ConfinedAtOnce(h.saddr, e, m, dir);
    hide Confined, Granted, AfterSource, AllGranted, AfterSources;
    assert phs[0..] == phs;
    while i < |phs|
      invariant 0 <= i <= |phs| && ret == 0
      invariant Loading(h, ram, dir) && BssFits(h.entries[..], phs[i..])
      invariant Confined(h.saddr, e, m, h.entries[..], ram[..], dir)
      invariant SourcesOk(ram[..], dir, elfMemory, phs[..i], srcs) && AllMappable(phs[..i], srcs)
      invariant View(ram[..], dir) == MapSegments(f, phs[..i], srcs)
      invariant AllGranted(e, phs) <==> AllGranted(h.entries[..], phs[i..])
      invariant AllGranted(e, phs) ==> AfterSources(e, phs) == AfterSources(h.entries[..], phs[i..])
    {
      assert phs[i..] == [phs[i]] + phs[i + 1..];
      GrantedStep(h.entries[..], phs[i], phs[i + 1..]);
      ghost var src, f0, r := 0, h.entries[..], ram[..];
      ret, src := MapElfSegment(h, ram, dir, elfMemory, phs[i], phs[i + 1..], phs[..i], srcs);
      if ret != -ENOMEM { ConfinedTwice(h.saddr, e, m, f0, r, h.entries[..], ram[..], dir); }
      if ret < 0 { return; }
      MapSegmentsStep(f, phs[..i], srcs, phs[i], src);
      assert phs[..i + 1] == phs[..i] + [phs[i]];
      srcs := srcs + [src];
      i := i + 1;
    }
    assert phs[..|phs|] == phs;
    GrantedNone(h.entries[..]);
  }

  lemma GrantedNone(e: Table)
    ensures AllGranted(e, []) && AfterSources(e, []) == e
  {
  }

  lemma MapSegmentsStep(f: Flat, phs: seq<Phdr>, srcs: seq<Word>, ph: Phdr, src: Word)
    requires |f| == PAGES && AllMappable(phs, srcs) && Mappable(ph, src)
    ensures AllMappable(phs + [ph], srcs + [src])
    ensures MapSegments(f, phs + [ph], srcs + [src]) == MapSegment(MapSegments(f, phs, srcs), ph, src)
  {
    assert (phs + [ph])[..|phs|] == phs && (srcs + [src])[..|phs|] == srcs;
  }

  lemma FlagBits()
    ensures Or(PRESENT, USER) == 5 && Or(5, WRITABLE) == 7 && Or(PRESENT, Or(WRITABLE, USER)) == 7
  {
  }

  /** The flags as the loader or-s them together. */
  function Flags(ph: Phdr): (r: Byte)
    ensures r == SegmentFlags(ph)
  {
    FlagBits();
    var flags := Or(PRESENT, USER);
    if IsWritable(ph) then Or(flags, WRITABLE) else flags
  }

  lemma SourcesSurvive(m: seq<Word>, r: seq<Word>, dir: Word, elfMemory: Word, phs: seq<Phdr>, srcs: seq<Word>)
    requires IsRam(m) && IsRam(r) && dir % PAGE == 0 && SameDirectory(m, r, dir)
    requires SourcesOk(m, dir, elfMemory, phs, srcs)
    requires r == m || exists q: Word, size: nat :: r == Zeroed(m, q, size)
    ensures SourcesOk(r, dir, elfMemory, phs, srcs)
  {
    if r != m {
      var q: Word, size: nat :| r == Zeroed(m, q, size);
      forall i | 0 <= i < |phs| ensures SourceOk(r, dir, elfMemory, phs[i], srcs[i]) {
        assert SourceOk(m, dir, elfMemory, phs[i], srcs[i]);
        if IsBss(phs[i]) && phs[i].memsz > 0 {
          ZeroSurvivesZeroing(m, dir, srcs[i], BssSize(phs[i]), q, size);
        }
      }
    }
  }

  lemma SegmentDone(e: Table, saddr: Word, m: seq<Word>, r: seq<Word>, dir: Word, elfMemory: Word,
                    phs: seq<Phdr>, srcs: seq<Word>, ph: Phdr, src: Word)
    requires DirHeld(e, saddr, m, dir) && OnlyTables(m, r, dir) && IsRam(r)
    requires SourcesOk(m, dir, elfMemory, phs, srcs) && SourceOk(m, dir, elfMemory, ph, src)
    ensures DirHeld(e, saddr, r, dir)
    ensures SourcesOk(r, dir, elfMemory, phs + [ph], srcs + [src])
  {
    SameTables(m, r, dir);
    var ps, ss := phs + [ph], srcs + [src];
    forall i | 0 <= i < |ps| ensures SourceOk(r, dir, elfMemory, ps[i], ss[i]) {
      assert SourceOk(m, dir, elfMemory, ps[i], ss[i]);
      if IsBss(ps[i]) && ps[i].memsz > 0 {
        ZeroSurvivesMapping(m, r, dir, ss[i], BssSize(ps[i]));
      }
    }
  }

  // --- process_map_memory -----------------------------------------------------------------

  datatype Program = Elf(elfMemory: Word, phs: seq<Phdr>) | Binary(p: Word, size: Word)

  /** The map of a flat binary, loaded at the fixed program address. */
  function MapBinary(f: Flat, p: Word, size: Word): (r: Flat)
    requires |f| == PAGES && p % PAGE == 0 && p <= AlignUp((p + size) % WORD)
    ensures |r| == PAGES
  {
    FlatMapped(f, PROGRAM_START, p, (AlignUp((p + size) % WORD) - p) / PAGE, PRESENT + WRITABLE + USER)
  }

  function WithStack(f: Flat, stack: Word): (r: Flat)
    requires |f| == PAGES && stack % PAGE == 0
    ensures |r| == PAGES
  {
    FlatMapped(f, STACK_END, stack, STACK_SIZE / PAGE, PRESENT + WRITABLE + USER)
  }

  lemma StackAligned(stack: Word)
    requires stack % PAGE == 0 && stack + STACK_SIZE <= WORD - PAGE
    ensures AlignUp((stack + STACK_SIZE) % WORD) == stack + STACK_SIZE
  {
  }

  /** The stack is a four-block allocation, so its mapping always succeeds. */
  method MapStack(ram: array<Word>, dir: Word, stack: Word) returns (ret: int)
    requires ram.Length == RAM_WORDS && WellFormed(ram[..], dir)
    requires stack % PAGE == 0 && stack + STACK_SIZE <= WORD - PAGE
    modifies ram
    ensures ret == 0 && OnlyTables(old(ram[..]), ram[..], dir) && WellFormed(ram[..], dir)
    ensures View(ram[..], dir) == WithStack(View(old(ram[..]), dir), stack)
  {
    ghost var m := ram[..];
    FlagBits();
    StackAligned(stack);
    hide AlignUp, View, Mapped, FlatMapped, WellFormed, OnlyTables;
    ret := MapTo(ram, dir, STACK_END, stack, AlignUp((stack + STACK_SIZE) % WORD),
                 Or(PRESENT, Or(WRITABLE, USER)));
    MappedRefinesFlat(m, dir, STACK_END, stack, STACK_SIZE / PAGE, PRESENT + WRITABLE + USER);
  }

  method MapMemory(h: Heap, ram: array<Word>, dir: Word, program: Program, stack: Word)
    returns (ret: int, ghost srcs: seq<Word>)
    requires Loading(h, ram, dir)
    requires program.Elf? ==> BssFits(h.entries[..], program.phs)
    requires stack % PAGE == 0 && stack + STACK_SIZE <= WORD - PAGE
    modifies h.entries, ram
    ensures ret == 0 && program.Elf? ==>
      && WellFormed(ram[..], dir)
      && SourcesOk(ram[..], dir, program.elfMemory, program.phs, srcs) && AllMappable(program.phs, srcs)
      && View(ram[..], dir) == WithStack(MapSegments(View(old(ram[..]), dir), program.phs, srcs), stack)
    ensures ret == 0 && program.Binary? ==>
      && WellFormed(ram[..], dir)
      && program.p % PAGE == 0 && program.p <= AlignUp((program.p + program.size) % WORD)
      && View(ram[..], dir) == WithStack(MapBinary(View(old(ram[..]), dir), program.p, program.size), stack)
    ensures program.Elf? ==>
      ret == 0 || ret == -ENOMEM || (ret == -EINVAL && SomeUnmappable(program.elfMemory, program.phs))
    ensures program.Elf? && ret == 0 ==>
      && AllGranted(old(h.entries[..]), program.phs)
      && h.entries[..] == AfterSources(old(h.entries[..]), program.phs)
    ensures program.Elf? && ret == -ENOMEM ==> !AllGranted(old(h.entries[..]), program.phs)
    ensures program.Binary? ==> h.entries[..] == old(h.entries[..])
    ensures program.Binary? ==>
      ret == if program.p % PAGE == 0 && program.p <= AlignUp((program.p + program.size) % WORD) then 0 else -EINVAL
    ensures program.Binary? && program.p % PAGE == 0 && program.p + program.size <= WORD - PAGE ==> ret == 0
    ensures ret != -ENOMEM ==> Confined(h.saddr, old(h.entries[..]), old(ram[..]), h.entries[..], ram[..], dir)
  {
    hide View, Mapped, FlatMapped, FrameOf, SourceOk, BssFits, Held, MapSegments, AlignUp, Mappable;
    srcs := [];
    ghost var e0, m0 := h.entries[..], ram[..];
    ConfinedAtOnce(h.saddr, e0, m0, dir);
    hide Confined, AllGranted, AfterSources;
    match program
    case Elf(elfMemory, phs) =>
      ret, srcs := MapElf(h, ram, dir, elfMemory, phs);
      if ret < 0 { return; }
      ghost var m := ram[..];
      ret := MapStack(ram, dir, stack);
      SourcesSurviveMapping(m, ram[..], dir, elfMemory, phs, srcs);
      UpdateConfined(h.saddr, h.entries[..], m, ram[..], dir);
      ConfinedTwice(h.saddr, e0, m0, h.entries[..], m, h.entries[..], ram[..], dir);
    case Binary(p, size) =>
      ghost var m := ram[..];
      FlagBits();
      ret := MapTo(ram, dir, PROGRAM_START, p, AlignUp((p + size) % WORD),
                   Or(PRESENT, Or(WRITABLE, USER)));
      if ret < 0 { return; }
      MappedRefinesFlat(m, dir, PROGRAM_START, p, (AlignUp((p + size) % WORD) - p) / PAGE,
                        PRESENT + WRITABLE + USER);
      ghost var r := ram[..];
      UpdateConfined(h.saddr, e0, m, r, dir);
      ret := MapStack(ram, dir, stack);
      UpdateConfined(h.saddr, e0, r, ram[..], dir);
      ConfinedTwice(h.saddr, e0, m, e0, r, e0, ram[..], dir);
  }

  lemma SourcesSurviveMapping(m: seq<Word>, r: seq<Word>, dir: Word, elfMemory: Word,
                              phs: seq<Phdr>, srcs: seq<Word>)
    requires WellFormed(m, dir) && OnlyTables(m, r, dir) && SourcesOk(m, dir, elfMemory, phs, srcs)
    ensures SourcesOk(r, dir, elfMemory, phs, srcs) && WellFormed(r, dir)
  {
    SameTables(m, r, dir);
    forall i | 0 <= i < |phs| ensures SourceOk(r, dir, elfMemory, phs[i], srcs[i]) {
      assert SourceOk(m, dir, elfMemory, phs[i], srcs[i]);
      if IsBss(phs[i]) && phs[i].memsz > 0 {
        ZeroSurvivesMapping(m, r, dir, srcs[i], BssSize(phs[i]));
      }
    }
  }

  /** Every byte of a flat binary is mapped, writable, at its fixed address. */
  lemma BinaryBytes(p: Word, size: Word, stack: Word, k: nat)
    requires p % PAGE == 0 && p + size <= WORD - PAGE && 0x40_0000 + size <= WORD && k < size
    requires stack % PAGE == 0 && stack + STACK_SIZE <= WORD - PAGE
    ensures Leads(WithStack(MapBinary(Identity(PRESENT + USER), p, size), stack), 0x40_0000 + k, p + k, true)
  {
    var ph := Phdr(PT_LOAD, 0, PROGRAM_START, size, size, PF_W);
    BinaryIsSegment(ph, p, size, stack);
    hide WithStack, MapBinary, Built, Identity, Leads;
    SegmentBytes(WithStack(MapBinary(Identity(PRESENT + USER), p, size), stack), [ph], [p], stack, 0, k);
  }

  /** A flat binary is mapped like one writable segment at the program address. */
  lemma BinaryIsSegment(ph: Phdr, p: Word, size: Word, stack: Word)
    requires ph == Phdr(PT_LOAD, 0, PROGRAM_START, size, size, PF_W)
    requires p % PAGE == 0 && p + size <= WORD - PAGE && PROGRAM_START + size <= WORD
    requires stack % PAGE == 0 && stack + STACK_SIZE < WORD
    ensures IsWritable(ph) && p <= AlignUp((p + size) % WORD)
    ensures Built(WithStack(MapBinary(Identity(PRESENT + USER), p, size), stack), [ph], [p], stack)
  {
    var f := Identity(PRESENT + USER);
    assert GoodSegment(ph, p) && PageBase(p) == p && PageBase(PROGRAM_START) == PROGRAM_START;
    GoodIsMappable(ph, p);
    OneSegment(f, ph, p);
    hide FlatMapped, Identity, AlignUp, PageBase, GoodSegment;
    assert MapSegment(f, ph, p) == MapBinary(f, p, size);
  }

  lemma OneSegment(f: Flat, ph: Phdr, src: Word)
    requires |f| == PAGES && GoodSegment(ph, src) && Mappable(ph, src)
    ensures GoodImage([ph], [src]) && AllMappable([ph], [src])
    ensures MapSegments(f, [ph], [src]) == MapSegment(f, ph, src)
  {
    MapSegmentsStep(f, [], [], ph, src);
    assert [] + [ph] == [ph] && [] + [src] == [src];
    hide MapSegment, GoodSegment, Mappable;
  }

  /** A virtual address of the BSS reads zero through the finished address space. */
  lemma BssReadsZero(m: seq<Word>, f: Flat, dir: Word, elfMemory: Word, phs: seq<Phdr>, srcs: seq<Word>,
                     stack: Word, i: nat, k: nat)
    requires IsRam(m) && dir % PAGE == 0 && SourcesOk(m, dir, elfMemory, phs, srcs)
    requires Built(f, phs, srcs, stack) && i < |phs| && IsBss(phs[i]) && k < phs[i].memsz
    ensures |f| == PAGES && phs[i].vaddr + k < WORD && ByteAt(m, Translate(f, phs[i].vaddr + k)) == 0
  {
    BuiltParts(f, phs, srcs, stack);
    SegmentBytes(f, phs, srcs, stack, i, k);
    BssSource(m, dir, elfMemory, phs, srcs, i);
    hide Built, GoodImage, Translate, SourcesOk, IsWritable, ZeroAndApart, ByteAt;
    ZeroByte(m, dir, srcs[i], phs[i].memsz, k);
  }

  lemma BssSource(m: seq<Word>, dir: Word, elfMemory: Word, phs: seq<Phdr>, srcs: seq<Word>, i: nat)
    requires IsRam(m) && dir % PAGE == 0 && SourcesOk(m, dir, elfMemory, phs, srcs)
    requires i < |phs| && IsBss(phs[i]) && phs[i].memsz > 0
    ensures |srcs| == |phs| && srcs[i] % PAGE == 0 && ZeroAndApart(m, dir, srcs[i], AlignUp(phs[i].memsz))
  {
    assert SourceOk(m, dir, elfMemory, phs[i], srcs[i]);
    hide ZeroAndApart, AlignUp;
  }

  lemma ZeroByte(m: seq<Word>, dir: Word, src: Word, memsz: Word, k: nat)
    requires IsRam(m) && dir % PAGE == 0 && src % PAGE == 0 && src + memsz <= WORD - PAGE && k < memsz
    requires ZeroAndApart(m, dir, src, AlignUp(memsz))
    ensures ByteAt(m, src + k) == 0
  {
    var w := (src + k) / 4;
    WordOfByte(src, k, AlignUp(memsz));
    hide AlignUp, FrameOf, IsTable, Digit;
    assert m[w] == 0;
    ZeroDigit((src + k) % 4);
  }

  lemma WordOfByte(src: nat, k: nat, bytes: nat)
    requires src % PAGE == 0 && bytes % PAGE == 0 && k < bytes
    ensures src / 4 <= (src + k) / 4 < (src + bytes) / 4
  {
    var q, n := src / PAGE, bytes / PAGE;
    assert (4096 * q) / 4 == 1024 * q && (4096 * q + 4096 * n) / 4 == 1024 * q + 1024 * n;
    assert (4096 * q + k) / 4 == 1024 * q + k / 4;
  }
}
