/** Mapping a program into a fresh address space: ELF segments, BSS and stack. */
module ProcessImage {
  import opened Words
  import opened Paging
  import opened Chunks
  import opened ElfLoader

  const PROGRAM_START: Word := 0x40_0000
  const STACK_START: Word := 0x3F_F000
  const STACK_SIZE: Word := 16 * 1024
  const STACK_END: Word := 0x3F_B000

  // --- the flat map a list of segments produces ----------------------------------

  /** Present and accessible to the program; writable when the segment is. */
  function SegmentFlags(ph: Phdr): (r: Byte)
    ensures r == if ph.flags / 2 % 2 == 1 then 7 else 5
  {
    PRESENT + USER + if IsWritable(ph) then WRITABLE else 0
  }

  /** Pages passed to the range mapping for a segment whose bytes are at `src`. */
  function PageCount(ph: Phdr, src: Word): nat
    requires PageBase(src) <= AlignUp((src + ph.memsz) % WORD)
  {
    (AlignUp((src + ph.memsz) % WORD) - PageBase(src)) / PAGE
  }

  predicate Mappable(ph: Phdr, src: Word) {
    PageBase(src) <= AlignUp((src + ph.memsz) % WORD)
  }

  function MapSegment(f: Flat, ph: Phdr, src: Word): (r: Flat)
    requires |f| == PAGES && Mappable(ph, src)
    ensures |r| == PAGES
  {
    FlatMapped(f, PageBase(ph.vaddr), PageBase(src), PageCount(ph, src), SegmentFlags(ph))
  }

  predicate AllMappable(phs: seq<Phdr>, srcs: seq<Word>) {
    |phs| == |srcs| && forall i :: 0 <= i < |phs| ==> Mappable(phs[i], srcs[i])
  }

  function MapSegments(f: Flat, phs: seq<Phdr>, srcs: seq<Word>): (r: Flat)
    requires |f| == PAGES && AllMappable(phs, srcs)
    ensures |r| == PAGES
  {
    if phs == [] then f
    else MapSegment(MapSegments(f, phs[..|phs| - 1], srcs[..|phs| - 1]), phs[|phs| - 1], srcs[|phs| - 1])
  }

  // --- what the map means for every byte -------------------------------------------

  function FirstPage(ph: Phdr): nat { ph.vaddr / PAGE }

  function EndPage(ph: Phdr): nat { (ph.vaddr + ph.memsz + PAGE - 1) / PAGE }

  /** At or above the program start, not past the end of the address space on either
      side, and congruent to its source modulo the page size. */
  predicate GoodSegment(ph: Phdr, src: Word) {
    && PROGRAM_START <= ph.vaddr && ph.vaddr + ph.memsz <= WORD
    && src + ph.memsz <= WORD - PAGE
    && ph.vaddr % PAGE == src % PAGE
  }

  predicate PageDisjoint(a: Phdr, b: Phdr) {
    EndPage(a) <= FirstPage(b) || EndPage(b) <= FirstPage(a)
  }

  predicate GoodImage(phs: seq<Phdr>, srcs: seq<Word>) {
    && |phs| == |srcs|
    && (forall i :: 0 <= i < |phs| ==> GoodSegment(phs[i], srcs[i]))
    && (forall i, j :: 0 <= i < j < |phs| ==> PageDisjoint(phs[i], phs[j]))
  }

  predicate InSegment(ph: Phdr, page: nat) { FirstPage(ph) <= page < EndPage(ph) }

  lemma GoodIsMappable(ph: Phdr, src: Word)
    requires GoodSegment(ph, src)
    ensures Mappable(ph, src) && PageCount(ph, src) == EndPage(ph) - FirstPage(ph)
    ensures EndPage(ph) <= PAGES && FirstPage(ph) <= EndPage(ph)
    ensures src / PAGE + PageCount(ph, src) < PAGES
  {
    var a, b, o := src / PAGE, ph.vaddr / PAGE, src % PAGE;
    var c := (o + ph.memsz + PAGE - 1) / PAGE;
    SourceEnd(src, ph.memsz, a, o, c);
    EndParts(b, o + ph.memsz);
    assert ph.vaddr == b * PAGE + o;
    hide AlignUp, PageBase;
    assert (a + c) * PAGE - a * PAGE == c * PAGE;
  }

  lemma SourceEnd(src: Word, memsz: Word, a: nat, o: nat, c: nat)
    requires src + memsz <= WORD - PAGE && a == src / PAGE && o == src % PAGE && c == (o + memsz + PAGE - 1) / PAGE
    ensures PageBase(src) == a * PAGE && AlignUp((src + memsz) % WORD) == (a + c) * PAGE
    ensures a + c < PAGES
  {
    assert src == a * PAGE + o && (src + memsz) % WORD == src + memsz;
    AlignUpParts(a, o + memsz);
    assert AlignUp(src + memsz) == (a + c) * PAGE;
  }

  lemma AlignUpParts(h: nat, rest: nat)
    requires h * PAGE + rest <= WORD - PAGE
    ensures AlignUp(h * PAGE + rest) == (h + (rest + PAGE - 1) / PAGE) * PAGE
  {
    var x := h * PAGE + rest + PAGE - 1;
    var q, r := (rest + PAGE - 1) / PAGE, (rest + PAGE - 1) % PAGE;
    assert x == (h + q) * PAGE + r;
    ModUnique(x, PAGE, h + q, r);
  }

  lemma EndParts(h: nat, rest: nat)
    ensures (h * PAGE + rest + PAGE - 1) / PAGE == h + (rest + PAGE - 1) / PAGE
  {
    var q, r := (rest + PAGE - 1) / PAGE, (rest + PAGE - 1) % PAGE;
    ModUnique(h * PAGE + rest + PAGE - 1, PAGE, h + q, r);
  }

  /** Mapping one good segment changes exactly its pages. */
  lemma SegmentPages(f: Flat, ph: Phdr, src: Word, page: nat)
    requires |f| == PAGES && GoodSegment(ph, src) && page < PAGES
    ensures Mappable(ph, src)
    ensures MapSegment(f, ph, src)[page] ==
      if ph.vaddr / 4096 <= page < (ph.vaddr + ph.memsz + 4095) / 4096
      then (src / 4096 + (page - ph.vaddr / 4096)) * 4096 + (if ph.flags / 2 % 2 == 1 then 7 else 5)
      else f[page]
    ensures InSegment(ph, page) <==> ph.vaddr / 4096 <= page < (ph.vaddr + ph.memsz + 4095) / 4096
    ensures FirstPage(ph) == ph.vaddr / 4096
  {
    GoodIsMappable(ph, src);
    FlatMappedPage(f, PageBase(ph.vaddr), PageBase(src), PageCount(ph, src), SegmentFlags(ph), page);
    assert PageBase(ph.vaddr) / PAGE == FirstPage(ph) && PageBase(src) / PAGE == src / PAGE;
  }

  /** A range that does not wrap, page by page. */
  lemma FlatMappedPage(f: Flat, v: Word, p: Word, n: nat, flags: Byte, page: nat)
    requires |f| == PAGES && p % PAGE == 0 && page < PAGES
    requires v / PAGE + n <= PAGES && p / PAGE + n <= PAGES
    ensures FlatMapped(f, v, p, n, flags)[page] ==
      if v / PAGE <= page < v / PAGE + n then (p / PAGE + (page - v / PAGE)) * PAGE + flags else f[page]
  {
    var k := PagesAfter(v, page);
    assert k == if v / PAGE <= page then page - v / PAGE else page - v / PAGE + PAGES;
    if k < n {
      assert Advance(p, k) == (p / PAGE + k) * PAGE;
    }
  }

  /** Every page of the result of mapping a good image. */
  lemma {:induction false} ImagePages(f: Flat, phs: seq<Phdr>, srcs: seq<Word>, page: nat)
    requires |f| == PAGES && GoodImage(phs, srcs) && page < PAGES
    ensures AllMappable(phs, srcs)
    ensures forall i :: 0 <= i < |phs| && InSegment(phs[i], page) ==>
      MapSegments(f, phs, srcs)[page]
        == (srcs[i] / 4096 + (page - phs[i].vaddr / 4096)) * 4096 + (if phs[i].flags / 2 % 2 == 1 then 7 else 5)
    ensures (forall i :: 0 <= i < |phs| ==> !InSegment(phs[i], page)) ==>
      MapSegments(f, phs, srcs)[page] == f[page]
  {
    AllGoodMappable(phs, srcs);
    if phs != [] {
      var n := |phs| - 1;
      FrontIsGood(phs, srcs, n);
      assert MapSegments(f, phs, srcs) == MapSegment(MapSegments(f, phs[..n], srcs[..n]), phs[n], srcs[n]);
      hide *;
      ImagePages(f, phs[..n], srcs[..n], page);
      SegmentPages(MapSegments(f, phs[..n], srcs[..n]), phs[n], srcs[n], page);
    }
  }

  lemma AllGoodMappable(phs: seq<Phdr>, srcs: seq<Word>)
    requires GoodImage(phs, srcs)
    ensures AllMappable(phs, srcs)
  {
    hide GoodSegment, Mappable, PageDisjoint;
    forall i | 0 <= i < |phs| ensures Mappable(phs[i], srcs[i]) { GoodIsMappable(phs[i], srcs[i]); }
  }

  /** All headers but the last, which shares no page with them. */
  lemma FrontIsGood(phs: seq<Phdr>, srcs: seq<Word>, n: nat)
    requires GoodImage(phs, srcs) && |phs| == n + 1
    ensures GoodImage(phs[..n], srcs[..n]) && GoodSegment(phs[n], srcs[n]) && AllMappable(phs[..n], srcs[..n])
    ensures forall i :: 0 <= i < n ==> phs[..n][i] == phs[i] && srcs[..n][i] == srcs[i]
    ensures forall i, page :: 0 <= i < n && InSegment(phs[i], page) ==> !InSegment(phs[n], page)
  {
    hide GoodSegment, Mappable;
    forall i, page | 0 <= i < n && InSegment(phs[i], page) ensures !InSegment(phs[n], page) {
      assert PageDisjoint(phs[i], phs[n]);
    }
    AllGoodMappable(phs[..n], srcs[..n]);
  }

  lemma EntryParts(frame: nat, flags: Byte)
    requires frame < PAGES
    ensures PageBase(frame * PAGE + flags) == frame * PAGE && (frame * PAGE + flags) % PAGE == flags
  {
    ModUnique(frame * PAGE + flags, PAGE, frame, flags);
  }

  /** The address space of a process after its segments and stack are mapped. */
  function ProcessMap(phs: seq<Phdr>, srcs: seq<Word>, stack: Word): (r: Flat)
    requires AllMappable(phs, srcs) && stack % PAGE == 0
    ensures |r| == PAGES
  {
    FlatMapped(MapSegments(Identity(PRESENT + USER), phs, srcs), STACK_END, stack,
               STACK_SIZE / PAGE, PRESENT + WRITABLE + USER)
  }

  predicate InStack(page: nat) { STACK_END / PAGE <= page < STACK_START / PAGE }

  /** Map f is the address space built from good segments at these sources and this stack. */
  predicate Built(f: Flat, phs: seq<Phdr>, srcs: seq<Word>, stack: Word) {
    && GoodImage(phs, srcs) && AllMappable(phs, srcs) && |f| == PAGES
    && stack % PAGE == 0 && stack + STACK_SIZE < WORD && f == ProcessMap(phs, srcs, stack)
  }

  lemma ProcessPages(f: Flat, phs: seq<Phdr>, srcs: seq<Word>, stack: Word, page: nat)
    requires Built(f, phs, srcs, stack) && page < PAGES
    ensures AllMappable(phs, srcs) && |f| == PAGES
    ensures f[page] ==
      if InStack(page) then (stack / PAGE + (page - STACK_END / PAGE)) * PAGE + (PRESENT + WRITABLE + USER)
      else MapSegments(Identity(PRESENT + USER), phs, srcs)[page]
  {
    hide GoodImage, Mappable, MapSegments, FlatMapped;
    FlatMappedPage(MapSegments(Identity(PRESENT + USER), phs, srcs), STACK_END, stack,
                   STACK_SIZE / PAGE, PRESENT + WRITABLE + USER, page);
  }

  lemma BuiltParts(f: Flat, phs: seq<Phdr>, srcs: seq<Word>, stack: Word)
    requires Built(f, phs, srcs, stack)
    ensures |f| == PAGES && |srcs| == |phs| && GoodImage(phs, srcs)
    ensures forall i :: 0 <= i < |phs| ==> GoodSegment(phs[i], srcs[i])
  {
    hide GoodSegment, Mappable, ProcessMap;
  }

  /** The entry of every page of every segment. */
  lemma SegmentEntry(f: Flat, phs: seq<Phdr>, srcs: seq<Word>, stack: Word, i: nat, page: nat)
    requires Built(f, phs, srcs, stack) && i < |phs| && InSegment(phs[i], page) && 0x400 <= page < PAGES
    ensures |f| == PAGES && |srcs| == |phs|
    ensures f[page] == (srcs[i] / PAGE + (page - FirstPage(phs[i]))) * PAGE + SegmentFlags(phs[i])
  {
    BuiltParts(f, phs, srcs, stack);
    ProcessPages(f, phs, srcs, stack, page);
    hide SegmentFlags, MapSegments, Built, GoodImage, GoodSegment, AllMappable, InSegment, FirstPage;
    ImagePages(Identity(PRESENT + USER), phs, srcs, page);
  }

  /** Virtual address v translates to physical address a through an entry that is present and
      accessible to the program (bits 0 and 2), and writable (bit 1) exactly if w. */
  predicate Leads(f: Flat, v: nat, a: nat, w: bool)
    requires |f| == PAGES
  {
    v < WORD && Translate(f, v) == a && f[v / PAGE] % PAGE == if w then 7 else 5
  }

  /** Every byte of every segment leads to its source byte and is writable exactly when the
      segment is. */
  lemma SegmentBytes(f: Flat, phs: seq<Phdr>, srcs: seq<Word>, stack: Word, i: nat, k: nat)
    requires Built(f, phs, srcs, stack) && i < |phs| && k < phs[i].memsz
    ensures |f| == PAGES && |srcs| == |phs|
    ensures Leads(f, phs[i].vaddr + k, srcs[i] + k, IsWritable(phs[i]))
  {
    BuiltParts(f, phs, srcs, stack);
    hide Built, GoodImage, GoodSegment, Leads, Mappable, InSegment, EndPage, FirstPage;
    hide PageCount, SegmentFlags, IsWritable;
    SegmentParts(phs[i], srcs[i], k);
    SegmentEntry(f, phs, srcs, stack, i, (phs[i].vaddr + k) / PAGE);
    SegmentByte(phs[i], srcs[i], k, f);
  }

  /** The page of a byte of a segment. */
  lemma SegmentParts(ph: Phdr, src: Word, k: nat)
    requires GoodSegment(ph, src) && k < ph.memsz
    ensures Mappable(ph, src) && EndPage(ph) - FirstPage(ph) == PageCount(ph, src)
    ensures src / PAGE + PageCount(ph, src) < PAGES
    ensures InSegment(ph, (ph.vaddr + k) / PAGE) && ph.vaddr + k < WORD && 0x400 <= (ph.vaddr + k) / PAGE < PAGES
  {
    GoodIsMappable(ph, src);
    ByteInSegment(ph, src, k);
  }

  lemma SegmentByte(ph: Phdr, src: Word, k: nat, f: Flat)
    requires |f| == PAGES && GoodSegment(ph, src) && k < ph.memsz
    requires src / PAGE + PageCount(ph, src) < PAGES && InSegment(ph, (ph.vaddr + k) / PAGE)
    requires EndPage(ph) - FirstPage(ph) == PageCount(ph, src)
    requires f[(ph.vaddr + k) / PAGE]
      == (src / PAGE + ((ph.vaddr + k) / PAGE - FirstPage(ph))) * PAGE + SegmentFlags(ph)
    ensures Leads(f, ph.vaddr + k, src + k, IsWritable(ph))
  {
    EntryParts(src / PAGE + ((ph.vaddr + k) / PAGE - FirstPage(ph)), SegmentFlags(ph));
    assert IsWritable(ph) <==> ph.flags / 2 % 2 == 1;
    SameOffset(ph.vaddr, src, k);
    hide PageBase, SegmentFlags, IsWritable, PageCount, EndPage;
  }

  lemma ByteInSegment(ph: Phdr, src: Word, k: nat)
    requires GoodSegment(ph, src) && k < ph.memsz
    ensures InSegment(ph, (ph.vaddr + k) / PAGE) && (ph.vaddr + k) / PAGE >= 0x400
  {
  }

  /** Congruent addresses stay page-parallel. */
  lemma SameOffset(v: nat, p: nat, k: nat)
    requires v % PAGE == p % PAGE
    ensures (p / PAGE + ((v + k) / PAGE - v / PAGE)) * PAGE + (v + k) % PAGE == p + k
  {
    var a, b := v / PAGE, (v + k) / PAGE;
    assert v + k == b * PAGE + (v + k) % PAGE;
  }

  /** The stack window maps, writable, to the stack block. */
  lemma StackBytes(f: Flat, phs: seq<Phdr>, srcs: seq<Word>, stack: Word, k: nat)
    requires Built(f, phs, srcs, stack) && k < STACK_SIZE
    ensures |f| == PAGES && Leads(f, STACK_END + k, stack + k, true)
  {
    var v := STACK_END + k;
    ProcessPages(f, phs, srcs, stack, v / PAGE);
    assert InStack(v / PAGE) && stack + STACK_SIZE < WORD;
    EntryParts(stack / PAGE + (v / PAGE - STACK_END / PAGE), PRESENT + WRITABLE + USER);
    SameOffset(STACK_END, stack, k);
    hide Built, ProcessMap, GoodImage, MapSegments;
  }

  /** Every page outside the segments and the stack is still identity and read-only. */
  lemma OtherPages(f: Flat, phs: seq<Phdr>, srcs: seq<Word>, stack: Word, page: nat)
    requires Built(f, phs, srcs, stack) && page < PAGES && !InStack(page)
    requires forall i :: 0 <= i < |phs| ==> !InSegment(phs[i], page)
    ensures |f| == PAGES && f[page] == page * 4096 + 5
  {
    BuiltParts(f, phs, srcs, stack);
    ProcessPages(f, phs, srcs, stack, page);
    ImagePages(Identity(PRESENT + USER), phs, srcs, page);
    hide Built, GoodImage, GoodSegment, AllMappable, MapSegments;
  }

  /** Without the congruence rule the image is shifted: the first byte of the segment
      reads a different source byte. */
  lemma CongruenceNeeded(ph: Phdr, src: Word)
    requires PROGRAM_START <= ph.vaddr && ph.vaddr + ph.memsz <= WORD && 0 < ph.memsz
    requires src + ph.memsz <= WORD - PAGE
    ensures Mappable(ph, src)
    ensures Translate(MapSegment(Identity(PRESENT + USER), ph, src), ph.vaddr) == src
       <==> ph.vaddr % PAGE == src % PAGE
  {
    var f, flags := Identity(PRESENT + USER), SegmentFlags(ph);
    EndIsAbove(src, ph.memsz);
    FirstPageMapped(f, PageBase(ph.vaddr), PageBase(src), PageCount(ph, src), flags);
    EntryParts(src / PAGE, flags);
    var entry := MapSegment(f, ph, src)[FirstPage(ph)];
    assert entry == PageBase(src) + flags && PageBase(src) == src / PAGE * PAGE;
    hide MapSegment, Identity, AlignUp, PageCount, FlatMapped, SegmentFlags;
  }

  lemma EndIsAbove(src: Word, memsz: Word)
    requires src + memsz <= WORD - PAGE && memsz > 0
    ensures (src + memsz) % WORD == src + memsz && AlignUp(src + memsz) >= PageBase(src) + PAGE
  {
    var a, b := src / PAGE, AlignUp(src + memsz) / PAGE;
    assert AlignUp(src + memsz) == b * PAGE && src < b * PAGE;
  }

  /** The first page of a mapped range. */
  lemma FirstPageMapped(f: Flat, v: Word, p: Word, n: nat, flags: Byte)
    requires |f| == PAGES && p % PAGE == 0 && n >= 1
    ensures FlatMapped(f, v, p, n, flags)[v / PAGE] == p + flags
  {
    assert PagesAfter(v, v / PAGE) == 0 && Advance(p, 0) == p;
  }
}
