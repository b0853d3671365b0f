/** What a program finds in its address space when it starts: the statement about every
    byte, from the headers of its file alone. */
module TaskImage {
  import opened Words
  import opened BlockHeap
  import opened KernelHeap
  import opened Ownership
  import opened Memory
  import opened Paging
  import opened Chunks
  import opened ElfLoader
  import opened ProcessImage
  import opened ProcessLoader

  // The statements of this module are in plain numbers: 4096 bytes to a page, a program at or
  // above 0x400000, a stack window from 0x3FB000 to 0x3FF000, entry bits 1, 2 and 4 for present,
  // writable and accessible to the program.

  /** At or above the program start, not past the end of memory on either side, and
      congruent modulo the page size to its place in the file; a BSS to 0. */
  predicate GoodHeader(elfMemory: Word, ph: Phdr) {
    var src := (elfMemory + ph.offset) % WORD;
    && 0x40_0000 <= ph.vaddr && ph.vaddr + ph.memsz <= WORD
    && if ph.filesz == 0 then ph.vaddr % 4096 == 0
       else src + ph.memsz <= WORD - 4096 && ph.vaddr % 4096 == src % 4096
  }

  /** The page lies under the segment. */
  predicate Covers(ph: Phdr, page: nat) { ph.vaddr / 4096 <= page < (ph.vaddr + ph.memsz + 4095) / 4096 }

  predicate GoodProgram(elfMemory: Word, phs: seq<Phdr>) {
    && (forall i :: 0 <= i < |phs| ==> GoodHeader(elfMemory, phs[i]))
    && (forall i, j :: 0 <= i < j < |phs| ==>
          (phs[i].vaddr + phs[i].memsz + 4095) / 4096 <= phs[j].vaddr / 4096 ||
          (phs[j].vaddr + phs[j].memsz + 4095) / 4096 <= phs[i].vaddr / 4096)
  }

  lemma BssBlockIsGood(elfMemory: Word, ph: Phdr, src: Word)
    requires GoodHeader(elfMemory, ph) && IsBss(ph) && IsBssBlock(ph, src)
    ensures GoodSegment(ph, src)
  {
    assert ph.memsz <= AlignUp(ph.memsz);
  }

  lemma SourceIsGood(elfMemory: Word, ph: Phdr, src: Word)
    requires GoodHeader(elfMemory, ph)
    requires if IsBss(ph) then IsBssBlock(ph, src) else src == PhdrPaddr(elfMemory, ph)
    ensures GoodSegment(ph, src) && Mappable(ph, src)
  {
    if IsBss(ph) { BssBlockIsGood(elfMemory, ph, src); }
    GoodIsMappable(ph, src);
  }

  lemma SourcesAreGood(m: seq<Word>, dir: Word, elfMemory: Word, phs: seq<Phdr>, srcs: seq<Word>)
    requires IsRam(m) && dir % PAGE == 0 && GoodProgram(elfMemory, phs)
    requires SourcesOk(m, dir, elfMemory, phs, srcs)
    ensures GoodImage(phs, srcs)
  {
    hide GoodSegment, Mappable, ZeroAndApart, IsBssBlock, GoodHeader;
    forall i | 0 <= i < |phs| ensures GoodSegment(phs[i], srcs[i]) {
      assert SourceOk(m, dir, elfMemory, phs[i], srcs[i]) && GoodHeader(elfMemory, phs[i]);
      SourceIsGood(elfMemory, phs[i], srcs[i]);
    }
  }

  /** A good header can always be mapped. */
  lemma NeverUnmappable(elfMemory: Word, ph: Phdr)
    requires GoodHeader(elfMemory, ph)
    ensures !Unmappable(elfMemory, ph)
  {
    forall src: Word | if IsBss(ph) then IsBssBlock(ph, src) else src == PhdrPaddr(elfMemory, ph)
      ensures Mappable(ph, src)
    {
      SourceIsGood(elfMemory, ph, src);
    }
  }

  lemma AllMappableForGood(elfMemory: Word, phs: seq<Phdr>)
    requires GoodProgram(elfMemory, phs)
    ensures !SomeUnmappable(elfMemory, phs)
  {
    forall i | 0 <= i < |phs| ensures !Unmappable(elfMemory, phs[i]) {
      NeverUnmappable(elfMemory, phs[i]);
    }
  }

  // --- the statement -------------------------------------------------------------------

  /** Byte k of a segment: its byte of the file, or zero for a BSS; its page present,
      accessible to the program, and writable exactly when the segment is. */
  predicate ByteRight(m: seq<Word>, f: Flat, elfMemory: Word, ph: Phdr, k: nat)
    requires IsRam(m) && |f| == PAGES
  {
    var v := ph.vaddr + k;
    && v < WORD
    && f[v / 4096] % 4096 == (if ph.flags / 2 % 2 == 1 then 7 else 5)
    && if ph.filesz == 0 then ByteAt(m, Translate(f, v)) == 0
       else Translate(f, v) == (elfMemory + ph.offset) % WORD + k
  }

  predicate StackRight(f: Flat, stack: Word, k: nat)
    requires |f| == PAGES && k < 0x4000
  {
    Translate(f, 0x3F_B000 + k) == stack + k && f[(0x3F_B000 + k) / 4096] % 4096 == 7
  }

  predicate OutsideAll(phs: seq<Phdr>, page: nat) {
    !(0x3FB <= page < 0x3FF) && forall i :: 0 <= i < |phs| ==> !Covers(phs[i], page)
  }

  /** Mapped to itself, present and accessible but not writable. */
  predicate Untouched(f: Flat, page: nat)
    requires |f| == PAGES && page < PAGES
  {
    f[page] == page * 4096 + 5
  }

  ghost predicate LaidOut(m: seq<Word>, dir: Word, elfMemory: Word, phs: seq<Phdr>, stack: Word)
    requires IsRam(m) && dir % PAGE == 0
  {
    var f := View(m, dir);
    && (forall i, k :: 0 <= i < |phs| && 0 <= k < phs[i].memsz ==> ByteRight(m, f, elfMemory, phs[i], k))
    && (forall k :: 0 <= k < 0x4000 ==> StackRight(f, stack, k))
    && (forall page :: 0 <= page < 0x10_0000 && OutsideAll(phs, page) ==> Untouched(f, page))
  }

  lemma SegmentByteRight(m: seq<Word>, f: Flat, dir: Word, elfMemory: Word, phs: seq<Phdr>, srcs: seq<Word>,
                         stack: Word, i: nat, k: nat)
    requires IsRam(m) && dir % PAGE == 0 && SourcesOk(m, dir, elfMemory, phs, srcs)
    requires Built(f, phs, srcs, stack) && i < |phs| && k < phs[i].memsz
    ensures |f| == PAGES && ByteRight(m, f, elfMemory, phs[i], k)
  {
    hide SourcesOk, Built, Leads, ByteRight, Translate, ByteAt, IsBss, IsWritable, PhdrPaddr;
    FileSource(m, dir, elfMemory, phs, srcs, i);
    SegmentBytes(f, phs, srcs, stack, i, k);
    LeadsInWord(f, phs[i].vaddr + k, srcs[i] + k, IsWritable(phs[i]));
    if IsBss(phs[i]) { BssReadsZero(m, f, dir, elfMemory, phs, srcs, stack, i, k); }
    ByteIsRight(m, f, elfMemory, phs[i], srcs[i], k);
  }

  lemma LeadsInWord(f: Flat, v: nat, a: nat, w: bool)
    requires |f| == PAGES && Leads(f, v, a, w)
    ensures v < WORD
  {
  }

  lemma FileSource(m: seq<Word>, dir: Word, elfMemory: Word, phs: seq<Phdr>, srcs: seq<Word>, i: nat)
    requires IsRam(m) && dir % PAGE == 0 && SourcesOk(m, dir, elfMemory, phs, srcs) && i < |phs|
    ensures |srcs| == |phs| && (!IsBss(phs[i]) ==> srcs[i] == PhdrPaddr(elfMemory, phs[i]))
  {
    assert SourceOk(m, dir, elfMemory, phs[i], srcs[i]);
  }

  lemma ByteIsRight(m: seq<Word>, f: Flat, elfMemory: Word, ph: Phdr, src: Word, k: nat)
    requires IsRam(m) && |f| == PAGES && Leads(f, ph.vaddr + k, src + k, IsWritable(ph))
    requires ph.vaddr + k < WORD
    requires if IsBss(ph) then ByteAt(m, Translate(f, ph.vaddr + k)) == 0 else src == PhdrPaddr(elfMemory, ph)
    ensures ByteRight(m, f, elfMemory, ph, k)
  {
    hide Translate, ByteAt;
  }

  /** A map that was built from good headers lays the program out right. */
  lemma ImageIsLaidOut(m: seq<Word>, dir: Word, elfMemory: Word, phs: seq<Phdr>, srcs: seq<Word>, stack: Word)
    requires WellFormed(m, dir) && SourcesOk(m, dir, elfMemory, phs, srcs) && GoodProgram(elfMemory, phs)
    requires stack % PAGE == 0 && stack + STACK_SIZE < WORD
    requires AllMappable(phs, srcs) && View(m, dir) == ProcessMap(phs, srcs, stack)
    ensures LaidOut(m, dir, elfMemory, phs, stack)
  {
    SourcesAreGood(m, dir, elfMemory, phs, srcs);
    var f := View(m, dir);
    assert Built(f, phs, srcs, stack);
    hide ProcessMap, View, WellFormed, SourcesOk, GoodImage, AllMappable, Built;
    hide GoodProgram, ByteRight, Translate;
    forall i, k | 0 <= i < |phs| && 0 <= k < phs[i].memsz ensures ByteRight(m, f, elfMemory, phs[i], k) {
      SegmentByteRight(m, f, dir, elfMemory, phs, srcs, stack, i, k);
    }
    forall k | 0 <= k < 0x4000 ensures StackRight(f, stack, k) {
      StackBytes(f, phs, srcs, stack, k);
    }
    forall page | 0 <= page < PAGES && OutsideAll(phs, page) ensures Untouched(f, page) {
      OtherPages(f, phs, srcs, stack, page);
    }
  }

  // --- the file's contents -----------------------------------------------------------------

  /** Byte k of a file segment is, through the map, what the file held there in memory m0, if
      its block was taken in the table before the task's chunk was created. */
  predicate ContentRight(base: Table, saddr: Word, m0: seq<Word>, m: seq<Word>, f: Flat, elfMemory: Word,
                         ph: Phdr, k: nat)
    requires IsRam(m0) && IsRam(m) && |f| == PAGES
  {
    var v, a := ph.vaddr + k, (elfMemory + ph.offset) % WORD + k;
    && v < WORD && a < WORD
    && (Held(base, saddr, FrameOf(a / 4)) ==> ByteAt(m, Translate(f, v)) == ByteAt(m0, a))
  }

  ghost predicate ContentsRight(base: Table, saddr: Word, m0: seq<Word>, m: seq<Word>, dir: Word,
                                elfMemory: Word, phs: seq<Phdr>)
    requires IsRam(m0) && IsRam(m) && dir % PAGE == 0
  {
    forall i, k :: 0 <= i < |phs| && phs[i].filesz != 0 && 0 <= k < phs[i].memsz ==>
      ContentRight(base, saddr, m0, m, View(m, dir), elfMemory, phs[i], k)
  }

  /** Loading writes no frame that was taken before the chunk was created. */
  lemma TakenFrameKept(base: Table, e: Table, f: Table, saddr: Word, m: seq<Word>, r: seq<Word>, chunk: Word,
                       bs: seq<nat>, w: nat)
    requires ValidPool(saddr, |base|) && Grabbed(base, e, bs) && IsChunk(m, chunk, Addresses(saddr, bs))
    requires IsRam(r) && m[chunk / 4] % PAGE == 0 && Confined(saddr, e, m, f, r, m[chunk / 4])
    requires w < RAM_WORDS && Held(base, saddr, FrameOf(w))
    ensures r[w] == m[w]
  {
    var a, dir := FrameOf(w), m[chunk / 4];
    NotOpen(base, e, saddr, bs, a);
    hide Grabbed, FrameOf, Open, Held;
    forall j | 0 <= j < ENTRIES ensures TableOf(m, dir, j) != a {
      assert TableOf(m, dir, j) == Addresses(saddr, bs)[j + 1];
      NotTheirs(base, e, saddr, bs, a, j + 1);
    }
    hide TableOf, IsChunk;
  }

  /** A frame held before blocks bs were taken is still held, and is the frame of none of them. */
  lemma NotOpen(base: Table, e: Table, saddr: Word, bs: seq<nat>, a: Word)
    requires Grabbed(base, e, bs) && Held(base, saddr, a)
    ensures !Open(e, saddr, a)
  {
    assert (a - saddr) / PAGE !in bs;
  }

  lemma NotTheirs(base: Table, e: Table, saddr: Word, bs: seq<nat>, a: Word, j: nat)
    requires ValidPool(saddr, |base|) && Grabbed(base, e, bs) && Held(base, saddr, a) && j < |bs|
    ensures Addresses(saddr, bs)[j] != a
  {
    assert bs[j] in bs;
    BlockAddressRoundTrip(saddr, |base|, bs[j]);
  }

  lemma ByteOfWord(m: seq<Word>, r: seq<Word>, a: Word)
    requires IsRam(m) && IsRam(r) && r[a / 4] == m[a / 4]
    ensures ByteAt(r, a) == ByteAt(m, a)
  {
    hide Digit;
  }

  lemma ContentsAreRight(base: Table, e: Table, f: Table, saddr: Word, m: seq<Word>, r: seq<Word>, chunk: Word,
                         bs: seq<nat>, elfMemory: Word, phs: seq<Phdr>, stack: Word)
    requires ValidPool(saddr, |base|) && Grabbed(base, e, bs) && IsChunk(m, chunk, Addresses(saddr, bs))
    requires IsRam(r) && m[chunk / 4] % PAGE == 0 && Confined(saddr, e, m, f, r, m[chunk / 4])
    requires GoodProgram(elfMemory, phs) && LaidOut(r, m[chunk / 4], elfMemory, phs, stack)
    ensures ContentsRight(base, saddr, m, r, m[chunk / 4], elfMemory, phs)
  {
    var dir := m[chunk / 4];
    assert IsRam(m) && dir % PAGE == 0;
    hide *;
    forall i, k | 0 <= i < |phs| && phs[i].filesz != 0 && 0 <= k < phs[i].memsz
      ensures ContentRight(base, saddr, m, r, View(r, dir), elfMemory, phs[i], k)
    {
      var a := FileByte(elfMemory, phs, r, dir, stack, i, k);
      if Held(base, saddr, FrameOf(a / 4)) {
        TakenFrameKept(base, e, f, saddr, m, r, chunk, bs, a / 4);
        ByteOfWord(m, r, a);
      }
      ContentIsRight(base, saddr, m, r, View(r, dir), elfMemory, phs[i], k, a);
    }
    AllContents(base, saddr, m, r, dir, elfMemory, phs);
  }

  lemma FileByte(elfMemory: Word, phs: seq<Phdr>, r: seq<Word>, dir: Word, stack: Word, i: nat, k: nat)
    returns (a: Word)
    requires IsRam(r) && dir % PAGE == 0 && GoodProgram(elfMemory, phs) && LaidOut(r, dir, elfMemory, phs, stack)
    requires i < |phs| && !IsBss(phs[i]) && k < phs[i].memsz
    ensures a == PhdrPaddr(elfMemory, phs[i]) + k && a / 4 < RAM_WORDS
    ensures ByteRight(r, View(r, dir), elfMemory, phs[i], k)
  {
    assert GoodHeader(elfMemory, phs[i]);
    a := PhdrPaddr(elfMemory, phs[i]) + k;
    hide View, ByteRight, PhdrPaddr;
  }

  lemma ContentIsRight(base: Table, saddr: Word, m: seq<Word>, r: seq<Word>, g: Flat, elfMemory: Word, ph: Phdr,
                       k: nat, a: Word)
    requires IsRam(m) && IsRam(r) && |g| == PAGES && !IsBss(ph) && ByteRight(r, g, elfMemory, ph, k)
    requires a == PhdrPaddr(elfMemory, ph) + k
    requires Held(base, saddr, FrameOf(a / 4)) ==> ByteAt(r, a) == ByteAt(m, a)
    ensures ContentRight(base, saddr, m, r, g, elfMemory, ph, k)
  {
    hide ByteAt, FrameOf, Held;
  }

  lemma AllContents(base: Table, saddr: Word, m: seq<Word>, r: seq<Word>, dir: Word, elfMemory: Word, phs: seq<Phdr>)
    requires IsRam(m) && IsRam(r) && dir % PAGE == 0
    requires forall i, k :: 0 <= i < |phs| && phs[i].filesz != 0 && 0 <= k < phs[i].memsz ==>
      ContentRight(base, saddr, m, r, View(r, dir), elfMemory, phs[i], k)
    ensures ContentsRight(base, saddr, m, r, dir, elfMemory, phs)
  {
  }

  /** process_map_memory on the directory task_init has just created. For a good program it
      can only run out of memory, and otherwise the whole program is in place. */
  method MapFreshTask(h: Heap, ram: array<Word>, chunk: Word, elfMemory: Word, phs: seq<Phdr>,
                      stack: Word, ghost base: Table, ghost bs: seq<nat>)
    returns (ret: int)
    requires h.Valid() && h.entryType == UnsignedChar && ram.Length == RAM_WORDS
    requires Grabbed(base, h.entries[..], bs) && IsChunk(ram[..], chunk, Addresses(h.saddr, bs))
    requires View(ram[..], ram[chunk / 4]) == Identity(PRESENT + USER)
    requires BssFits(h.entries[..], phs)
    requires stack % PAGE == 0 && stack + STACK_SIZE <= WORD - PAGE
    modifies h.entries, ram
    ensures GoodProgram(elfMemory, phs) ==>
      ret == if AllGranted(old(h.entries[..]), phs) then 0 else -ENOMEM
    ensures ret == 0 ==> AllGranted(old(h.entries[..]), phs)
    ensures ret == 0 ==> h.entries[..] == AfterSources(old(h.entries[..]), phs)
    ensures ret == 0 ==> SameDirectory(old(ram[..]), ram[..], old(ram[chunk / 4]))
    ensures GoodProgram(elfMemory, phs) && ret == 0 ==>
      && WellFormed(ram[..], old(ram[chunk / 4]))
      && LaidOut(ram[..], old(ram[chunk / 4]), elfMemory, phs, stack)
      && ContentsRight(base, h.saddr, old(ram[..]), ram[..], old(ram[chunk / 4]), elfMemory, phs)
  {
    var dir := ram[chunk / 4];
    ghost var e, m := h.entries[..], ram[..];
    NewChunkIsHeld(h.saddr, base, h.entries[..], ram[..], chunk, bs);
    hide Identity, View, Grabbed, IsChunk, BssFits, WellFormed, SourcesOk, MapSegments, FlatMapped;
    hide LaidOut, GoodProgram, Mappable, SomeUnmappable, Confined, ContentsRight;
    if GoodProgram(elfMemory, phs) { AllMappableForGood(elfMemory, phs); }
    ghost var srcs;
    ret, srcs := MapMemory(h, ram, dir, Elf(elfMemory, phs), stack);
    if GoodProgram(elfMemory, phs) && ret == 0 {
      ImageIsLaidOut(ram[..], dir, elfMemory, phs, srcs, stack);
      ContentsAreRight(base, e, h.entries[..], h.saddr, m, ram[..], chunk, bs, elfMemory, phs, stack);
    }
  }
}
