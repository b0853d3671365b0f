/** Creating and destroying a 4 GB paging chunk. The page tables are correct only
    because heap blocks are aligned and distinct, and a chunk gives back exactly the
    blocks it took because its directory still names them. */
module Chunks {
  import opened Words
  import opened BlockHeap
  import opened KernelHeap
  import opened Ownership
  import opened Memory
  import opened Paging

  /** Blocks one chunk occupies: the directory, its tables and the chunk record. */
  const CHUNK_BLOCKS: nat := 1026

  /** Every page mapped to itself. */
  function Identity(flags: Byte): (f: Flat)
    ensures |f| == PAGES
    ensures forall i :: 0 <= i < PAGES ==> f[i] == i * PAGE + flags
  {
    seq(PAGES, i requires 0 <= i < PAGES => i * PAGE + flags)
  }

  /** Frames at distinct page-aligned addresses. */
  predicate Frames(fs: seq<Word>) {
    && (forall i :: 0 <= i < |fs| ==> fs[i] % PAGE == 0)
    && (forall i, j :: 0 <= i < j < |fs| ==> fs[i] != fs[j])
  }

  /** Distinct blocks of a pool lie in distinct frames. */
  lemma BlocksAreFrames(saddr: Word, total: nat, bs: seq<nat>)
    requires ValidPool(saddr, total) && Distinct(bs)
    requires forall i :: 0 <= i < |bs| ==> bs[i] < total
    ensures Frames(Addresses(saddr, bs))
  {
    forall i | 0 <= i < |bs|
      ensures Addresses(saddr, bs)[i] % PAGE == 0
      ensures Addresses(saddr, bs)[i] == saddr + bs[i] * PAGE
    {
      BlockAddressRoundTrip(saddr, total, bs[i]);
    }
  }

  /** Memory changed inside the given frames only. */
  predicate OnlyFrames(m: seq<Word>, r: seq<Word>, fs: seq<Word>) {
    && IsRam(m) && IsRam(r)
    && forall w :: 0 <= w < RAM_WORDS && FrameOf(w) !in fs ==> r[w] == m[w]
  }

  function FilledAt(m: seq<Word>, table: Word, j: nat, flags: Byte, w: nat): Word
    requires IsRam(m) && w < RAM_WORDS && j < ENTRIES
  {
    if FrameOf(w) == table then (j * ENTRIES + w % ENTRIES) * PAGE + flags else m[w]
  }

  /** Memory with table j of an identity mapping written into frame `table`. */
  function Filled(m: seq<Word>, table: Word, j: nat, flags: Byte): (r: seq<Word>)
    requires IsRam(m) && j < ENTRIES
    ensures IsRam(r)
    ensures forall w :: 0 <= w < RAM_WORDS ==> r[w] == FilledAt(m, table, j, flags, w)
  {
    seq(RAM_WORDS, w requires 0 <= w < RAM_WORDS => FilledAt(m, table, j, flags, w))
  }

  lemma FrameContains(t: Word, w: nat)
    requires t % PAGE == 0 && w < RAM_WORDS
    ensures FrameOf(w) == t <==> t / 4 <= w < t / 4 + ENTRIES
  {
    if t / 4 <= w < t / 4 + ENTRIES { FrameWord(t, w - t / 4); }
  }

  method FillTable(ram: array<Word>, table: Word, j: nat, flags: Byte)
    requires ram.Length == RAM_WORDS && table % PAGE == 0 && j < ENTRIES
    modifies ram
    ensures ram[..] == Filled(old(ram[..]), table, j, flags)
  {
    var offset := j * ENTRIES * PAGE;
    var b := 0;
    ghost var m := ram[..];
    hide Filled, FrameOf;
    while b < ENTRIES
      invariant 0 <= b <= ENTRIES
      invariant forall w :: 0 <= w < RAM_WORDS ==>
        ram[w] == if table / 4 <= w < table / 4 + b
                  then (j * ENTRIES + (w - table / 4)) * PAGE + flags else m[w]
    {
      ram[table / 4 + b] := Packed(offset + b * PAGE, flags);
      b := b + 1;
    }
    FilledIs(m, ram[..], table, j, flags);
  }

  lemma FilledIs(m: seq<Word>, r: seq<Word>, table: Word, j: nat, flags: Byte)
    requires IsRam(m) && IsRam(r) && table % PAGE == 0 && j < ENTRIES
    requires forall w :: 0 <= w < RAM_WORDS ==>
      r[w] == if table / 4 <= w < table / 4 + ENTRIES
              then (j * ENTRIES + (w - table / 4)) * PAGE + flags else m[w]
    ensures r == Filled(m, table, j, flags)
  {
    forall w | 0 <= w < RAM_WORDS ensures r[w] == FilledAt(m, table, j, flags, w) {
      FrameContains(table, w);
      if FrameOf(w) == table { FrameWord(table, w - table / 4); }
    }
  }

  /** Flags of a directory entry: `flags | PAGING_IS_WRITABLE`. */
  function DirFlags(flags: Byte): (r: nat)
    ensures r < PAGE
  {
    OrIsFlags(0, flags, WRITABLE);
    Or(flags, WRITABLE)
  }

  function DirPacked(table: Word, flags: Byte): (r: Word)
    requires table % PAGE == 0
    ensures PageBase(r) == table
  {
    table + DirFlags(flags)
  }

  /** The writable bit is set whatever the flags, and no other is added. */
  lemma DirFlagsAre(flags: Byte)
    ensures DirFlags(flags) == if flags / 2 % 2 == 1 then flags else flags + 2
  {
    OrZero(flags / 4);
    assert Or(flags / 2, 1) == flags / 4 * 2 + 1 by { assert flags / 2 / 2 == flags / 4; }
  }

  /** A directory entry is the table's address with both sets of flags or-ed in. */
  lemma DirPackedIsOr(table: Word, flags: Byte)
    requires table % PAGE == 0
    ensures Or(Or(table, flags), WRITABLE) == DirPacked(table, flags)
  {
    hide Or;
    OrIsFlags(table, flags, WRITABLE);
  }

  /** Frame fs[0] is the directory and fs[1..] the tables written so far. */
  ghost predicate Building(m0: seq<Word>, m: seq<Word>, fs: seq<Word>, flags: Byte) {
    && 0 < |fs| <= ENTRIES + 1 && Frames(fs)
    && OnlyFrames(m0, m, fs)
    && (forall j :: 0 <= j < |fs| - 1 ==>
          DirEntry(m, fs[0], j) == fs[j + 1] + DirFlags(flags) && Holds(m, fs[j + 1], j, flags))
  }

  /** Frame `table` holds table j of the identity mapping. */
  ghost predicate Holds(m: seq<Word>, table: Word, j: nat, flags: Byte) {
    && IsRam(m) && j < ENTRIES
    && forall w :: 0 <= w < RAM_WORDS && FrameOf(w) == table ==>
         m[w] == (j * ENTRIES + w % ENTRIES) * PAGE + flags
  }

  /** Memory after one round of the loop that builds the tables. */
  function WithTable(m: seq<Word>, dir: Word, t: Word, i: nat, flags: Byte): (r: seq<Word>)
    requires IsRam(m) && dir % PAGE == 0 && t % PAGE == 0 && i < ENTRIES
    ensures IsRam(r)
  {
    Filled(m, t, i, flags)[dir / 4 + i := DirPacked(t, flags)]
  }

  lemma DirectoryFrame(dir: Word, j: nat)
    requires dir % PAGE == 0 && j < ENTRIES
    ensures dir / 4 + j < RAM_WORDS && FrameOf(dir / 4 + j) == dir
  {
  }

  lemma WithTableEffect(m: seq<Word>, dir: Word, t: Word, i: nat, flags: Byte)
    requires IsRam(m) && dir % PAGE == 0 && t % PAGE == 0 && i < ENTRIES && t != dir
    ensures var r := WithTable(m, dir, t, i, flags);
      && Holds(r, t, i, flags)
      && (forall w :: 0 <= w < RAM_WORDS && FrameOf(w) != t && FrameOf(w) != dir ==> r[w] == m[w])
  {
    var r := WithTable(m, dir, t, i, flags);
    DirectoryFrame(dir, i);
    forall w | 0 <= w < RAM_WORDS && FrameOf(w) != dir
      ensures r[w] == FilledAt(m, t, i, flags, w)
    {
    }
  }

  lemma WithTableEntry(m: seq<Word>, dir: Word, t: Word, i: nat, flags: Byte, j: nat)
    requires IsRam(m) && dir % PAGE == 0 && t % PAGE == 0 && i < ENTRIES && t != dir && j < ENTRIES
    ensures DirEntry(WithTable(m, dir, t, i, flags), dir, j)
         == if j == i then t + DirFlags(flags) else DirEntry(m, dir, j)
  {
    DirectoryFrame(dir, j);
  }

  /** Adding one table in a fresh frame keeps what was built before it. */
  lemma BuildStep(m0: seq<Word>, m: seq<Word>, fs: seq<Word>, t: Word, flags: Byte)
    requires Frames(fs + [t]) && |fs| <= ENTRIES && Building(m0, m, fs, flags)
    ensures (fs + [t])[|fs|] == t
    ensures Building(m0, WithTable(m, fs[0], t, |fs| - 1, flags), fs + [t], flags)
  {
    var i := |fs| - 1;
    var gs := fs + [t];
    assert gs[0] == fs[0] && gs[|fs|] == t && gs[0] != gs[|fs|];
    assert IsRam(m) && t % PAGE == 0 && PAGE == 4096;
    hide Holds, DirFlags, FrameOf, WithTable, OnlyFrames;
    var r := WithTable(m, fs[0], t, i, flags);
    WithTableEffect(m, fs[0], t, i, flags);
    BuildStepFrames(m0, m, r, fs, t);
    forall j | 0 <= j < |gs| - 1
      ensures DirEntry(r, gs[0], j) == gs[j + 1] + DirFlags(flags) && Holds(r, gs[j + 1], j, flags)
    {
      WithTableEntry(m, fs[0], t, i, flags, j);
      if j < i {
        assert DirEntry(m, fs[0], j) == fs[j + 1] + DirFlags(flags) && Holds(m, fs[j + 1], j, flags);
        BuildStepOld(m, r, fs, t, flags, j);
      }
    }
    assert OnlyFrames(m0, r, gs);
  }

  lemma BuildStepFrames(m0: seq<Word>, m: seq<Word>, r: seq<Word>, fs: seq<Word>, t: Word)
    requires |fs| > 0 && fs[0] % PAGE == 0 && OnlyFrames(m0, m, fs) && IsRam(r)
    requires forall w :: 0 <= w < RAM_WORDS && FrameOf(w) != t && FrameOf(w) != fs[0] ==> r[w] == m[w]
    ensures OnlyFrames(m0, r, fs + [t])
  {
  }

  lemma BuildStepOld(m: seq<Word>, r: seq<Word>, fs: seq<Word>, t: Word, flags: Byte, j: nat)
    requires j + 1 < |fs| <= ENTRIES && Frames(fs + [t]) && IsRam(m) && IsRam(r) && fs[0] % PAGE == 0
    requires Holds(m, fs[j + 1], j, flags)
    requires forall w :: 0 <= w < RAM_WORDS && FrameOf(w) != t && FrameOf(w) != fs[0] ==> r[w] == m[w]
    ensures Holds(r, fs[j + 1], j, flags)
  {
    var gs := fs + [t];
    assert gs[j + 1] != gs[|fs|] && gs[j + 1] != gs[0];
  }

  /** A chunk that occupies exactly frames fs: directory, 1024 tables, chunk record. */
  ghost predicate IsChunk(m: seq<Word>, chunk: Word, fs: seq<Word>) {
    && IsRam(m) && |fs| == CHUNK_BLOCKS && Frames(fs)
    && chunk == fs[ENTRIES + 1]
    && m[chunk / 4] == fs[0]
    && (forall j :: 0 <= j < ENTRIES ==> TableOf(m, fs[0], j) == fs[j + 1])
  }

  lemma ChunkWellFormed(m: seq<Word>, chunk: Word, fs: seq<Word>)
    requires IsChunk(m, chunk, fs)
    ensures WellFormed(m, fs[0])
    ensures !IsTable(m, fs[0], chunk)
  {
    forall i, j | 0 <= i < j < ENTRIES ensures TableOf(m, fs[0], i) != TableOf(m, fs[0], j) {
      assert fs[i + 1] != fs[j + 1];
    }
    forall i | 0 <= i < ENTRIES ensures TableOf(m, fs[0], i) != fs[0] {
      assert fs[0] != fs[i + 1];
    }
  }

  lemma BuiltTables(m0: seq<Word>, m: seq<Word>, fs: seq<Word>, flags: Byte)
    requires |fs| == ENTRIES + 1 && Building(m0, m, fs, flags)
    ensures forall j :: 0 <= j < ENTRIES ==>
      TableOf(m, fs[0], j) == fs[j + 1] && Holds(m, fs[j + 1], j, flags)
  {
    hide DirFlags, Holds, PageBase;
    forall j | 0 <= j < ENTRIES ensures TableOf(m, fs[0], j) == fs[j + 1] && Holds(m, fs[j + 1], j, flags) {
      assert DirEntry(m, fs[0], j) == fs[j + 1] + DirFlags(flags);
      FlagsMasked(fs[j + 1], DirFlags(flags), DirEntry(m, fs[0], j));
    }
  }

  lemma FlagsMasked(t: Word, flags: nat, entry: Word)
    requires t % PAGE == 0 && flags < PAGE && entry == t + flags
    ensures PageBase(entry) == t
  {
    ModUnique(entry, PAGE, t / PAGE, flags);
  }

  /** A finished directory maps every page to itself. */
  lemma BuiltIsIdentity(m0: seq<Word>, m: seq<Word>, fs: seq<Word>, flags: Byte)
    requires |fs| == ENTRIES + 1 && Building(m0, m, fs, flags)
    ensures forall j :: 0 <= j < ENTRIES ==> TableOf(m, fs[0], j) == fs[j + 1]
    ensures View(m, fs[0]) == Identity(flags)
  {
    BuiltTables(m0, m, fs, flags);
    hide Slot, Holds, TableOf, OnlyFrames;
    forall p: nat | p < PAGES ensures m[Slot(m, fs[0], p)] == p * PAGE + flags {
      var j := p / ENTRIES;
      assert TableOf(m, fs[0], j) == fs[j + 1] && Holds(m, fs[j + 1], j, flags);
      HeldEntry(m, fs[0], fs[j + 1], p, flags);
    }
  }

  lemma HeldEntry(m: seq<Word>, dir: Word, table: Word, p: nat, flags: Byte)
    requires IsRam(m) && dir % PAGE == 0 && p < PAGES
    requires TableOf(m, dir, p / ENTRIES) == table && Holds(m, table, p / ENTRIES, flags)
    ensures m[Slot(m, dir, p)] == p * PAGE + flags
  {
    var w := Slot(m, dir, p);
    assert FrameOf(w) == table && w % ENTRIES == p % ENTRIES;
  }

  /** Every entry of a finished directory is present, writable and accessible as asked for. */
  lemma BuiltFlags(m0: seq<Word>, m: seq<Word>, fs: seq<Word>, flags: Byte)
    requires |fs| == ENTRIES + 1 && Building(m0, m, fs, flags)
    ensures EntriesAllow(m, fs[0], flags)
  {
    DirFlagsAre(flags);
    assert IsRam(m);
    hide DirFlags, Holds, OnlyFrames;
    forall j | 0 <= j < 1024 ensures EntryAllows(DirEntry(m, fs[0], j), flags) {
      assert DirEntry(m, fs[0], j) == fs[j + 1] + DirFlags(flags) && fs[j + 1] % PAGE == 0;
      ModUnique(DirEntry(m, fs[0], j), PAGE, fs[j + 1] / PAGE, DirFlags(flags));
    }
  }

  /** The low bits of a directory entry: the flags of the chunk with the writable bit. */
  predicate EntryAllows(entry: Word, flags: Byte) {
    entry % 4096 == if flags / 2 % 2 == 1 then flags else flags + 2
  }

  predicate EntriesAllow(m: seq<Word>, dir: Word, flags: Byte)
    requires IsRam(m) && dir % PAGE == 0
  {
    forall j :: 0 <= j < 1024 ==> EntryAllows(DirEntry(m, dir, j), flags)
  }

  // --- creating and destroying, in place ----------------------------------------

  ghost predicate Ready(h: Heap, ram: array<Word>)
    reads h.entries
  {
    h.Valid() && h.entryType == UnsignedChar && Clean(h.entries[..]) && ram.Length == RAM_WORDS
  }

  /** A zeroed single block, relative to the table and memory at `base` and `m0`. */
  method GrabBlock(h: Heap, ram: array<Word>, size: Word, ghost base: Table, ghost bs: seq<nat>)
    returns (p: Word, ghost b: nat)
    requires h.Valid() && h.entryType == UnsignedChar && ram.Length == RAM_WORDS
    requires Clean(base) && Grabbed(base, h.entries[..], bs)
    requires 0 < size <= PAGE && |FreeBlocks(h.entries[..])| > 0
    modifies h.entries, ram
    ensures Grabbed(base, h.entries[..], bs + [b]) && b < h.entries.Length
    ensures p == BlockToAddress(h.saddr, b) == h.saddr + b * PAGE && p % PAGE == 0 && p > 0
    ensures |FreeBlocks(h.entries[..])| == |FreeBlocks(old(h.entries[..]))| - 1
    ensures ram[..] == Zeroed(old(ram[..]), p, size)
  {
    ghost var e := h.entries[..];
    GrabOne(base, e, bs);
    assert BlocksFor(size) == 1 by { BlocksForExact(size); }
    b := StartBlock(e, 1);
    p := KZalloc(h, ram, size);
    BlockAddressRoundTrip(h.saddr, h.entries.Length, b);
  }

  /** Clearing part of a frame that is then filled leaves no trace. */
  lemma FilledAfterZeroed(m: seq<Word>, t: Word, j: nat, flags: Byte)
    requires IsRam(m) && t % PAGE == 0 && j < ENTRIES
    ensures Filled(Zeroed(m, t, PAGE), t, j, flags) == Filled(m, t, j, flags)
  {
    forall w | 0 <= w < RAM_WORDS && FrameOf(w) != t ensures ZeroedAt(m, t, PAGE, w) == m[w] {
      FrameContains(t, w);
    }
  }

  lemma ZeroedOnlyFrame(m: seq<Word>, t: Word, size: nat)
    requires IsRam(m) && t % PAGE == 0 && size <= PAGE
    ensures OnlyFrames(m, Zeroed(m, t, size), [t])
  {
    var r := Zeroed(m, t, size);
    forall w | 0 <= w < RAM_WORDS && FrameOf(w) !in [t] ensures r[w] == m[w] {
      assert FrameOf(w) != [t][0];
      FrameContains(t, w);
      ZeroedOutside(m, t, size, w);
    }
  }

  lemma ZeroedOutside(m: seq<Word>, t: Word, size: nat, w: nat)
    requires IsRam(m) && size <= PAGE && w < RAM_WORDS && !(t / 4 <= w < t / 4 + ENTRIES)
    ensures Zeroed(m, t, size)[w] == m[w]
  {
    assert Zeroed(m, t, size)[w] == ZeroedAt(m, t, size, w);
  }

  lemma GrabbedFrames(saddr: Word, base: Table, e: Table, bs: seq<nat>)
    requires ValidPool(saddr, |base|) && Grabbed(base, e, bs)
    ensures Frames(Addresses(saddr, bs))
  {
    assert forall i :: 0 <= i < |bs| ==> bs[i] in bs;
    BlocksAreFrames(saddr, |base|, bs);
  }

  /** One round of the loop: a zeroed block filled with table i and entered in the
      directory. */
  method AddTable(h: Heap, ram: array<Word>, directory: Word, i: nat, flags: Byte,
                  ghost base: Table, ghost bs: seq<nat>, ghost m0: seq<Word>)
    returns (entry: Word, ghost b: nat)
    requires h.Valid() && h.entryType == UnsignedChar && ram.Length == RAM_WORDS
    requires Clean(base) && Grabbed(base, h.entries[..], bs)
    requires |FreeBlocks(h.entries[..])| > 0
    requires |bs| == i + 1 <= ENTRIES && Addresses(h.saddr, bs)[0] == directory
    requires Building(m0, ram[..], Addresses(h.saddr, bs), flags)
    modifies h.entries, ram
    ensures Grabbed(base, h.entries[..], bs + [b])
    ensures |FreeBlocks(h.entries[..])| == |FreeBlocks(old(h.entries[..]))| - 1
    ensures Addresses(h.saddr, bs + [b]) == Addresses(h.saddr, bs) + [entry]
    ensures Building(m0, ram[..], Addresses(h.saddr, bs + [b]), flags)
  {
    ghost var m, fs := ram[..], Addresses(h.saddr, bs);
    entry, b := GrabBlock(h, ram, 4 * ENTRIES, base, bs);
    GrabbedFrames(h.saddr, base, h.entries[..], bs + [b]);
    AddressesAppend(h.saddr, bs, b);
    assert directory % PAGE == 0 && IsRam(m);
    WithTableIs(m, directory, entry, i, flags);
    assert PAGE == 4 * ENTRIES;
    hide *;
    FillTable(ram, entry, i, flags);
    FilledAfterZeroed(m, entry, i, flags);
    ram[directory / 4 + i] := DirPacked(entry, flags);
    BuildStep(m0, m, fs, entry, flags);
  }

  lemma AddressesAppend(saddr: Word, bs: seq<nat>, b: nat)
    ensures Addresses(saddr, bs + [b]) == Addresses(saddr, bs) + [BlockToAddress(saddr, b)]
  {
  }

  lemma WithTableIs(m: seq<Word>, dir: Word, t: Word, i: nat, flags: Byte)
    requires IsRam(m) && dir % PAGE == 0 && t % PAGE == 0 && i < ENTRIES
    ensures dir / 4 + i < |Filled(m, t, i, flags)|
    ensures WithTable(m, dir, t, i, flags) == Filled(m, t, i, flags)[dir / 4 + i := DirPacked(t, flags)]
  {
  }

  /** The directory and its 1024 tables. */
  method BuildDirectory(h: Heap, ram: array<Word>, flags: Byte)
    returns (directory: Word, ghost bs: seq<nat>)
    requires Ready(h, ram)
    requires |FreeBlocks(h.entries[..])| >= CHUNK_BLOCKS
    modifies h.entries, ram
    ensures Grabbed(old(h.entries[..]), h.entries[..], bs) && |bs| == ENTRIES + 1
    ensures directory == Addresses(h.saddr, bs)[0]
    ensures Building(old(ram[..]), ram[..], Addresses(h.saddr, bs), flags)
    ensures |FreeBlocks(h.entries[..])| == |FreeBlocks(old(h.entries[..]))| - (ENTRIES + 1)
  {
    ghost var base, m0 := h.entries[..], ram[..];
    ghost var b;
    directory, b := GrabBlock(h, ram, 4 * ENTRIES, base, []);
    bs := [b];
    assert [] + [b] == bs;
    GrabbedFrames(h.saddr, base, h.entries[..], bs);
    ZeroedOnlyFrame(m0, directory, 4 * ENTRIES);
    assert Addresses(h.saddr, bs) == [directory];
    var i := 0;
    while i < ENTRIES
      invariant 0 <= i <= ENTRIES && |bs| == i + 1
      invariant Grabbed(base, h.entries[..], bs)
      invariant Addresses(h.saddr, bs)[0] == directory
      invariant |FreeBlocks(h.entries[..])| == |FreeBlocks(base)| - (i + 1)
      invariant Building(m0, ram[..], Addresses(h.saddr, bs), flags)
    {
      ghost var entry;
      entry, b := AddTable(h, ram, directory, i, flags, base, bs, m0);
      bs := bs + [b];
      i := i + 1;
    }
  }

  /** paging_new_chunk. The blocks `bs` it took are returned as a witness. */
  method NewChunk(h: Heap, ram: array<Word>, flags: Byte) returns (chunk: Word, ghost bs: seq<nat>)
    requires Ready(h, ram)
    requires |FreeBlocks(h.entries[..])| >= CHUNK_BLOCKS
    modifies h.entries, ram
    ensures Grabbed(old(h.entries[..]), h.entries[..], bs)
    ensures IsChunk(ram[..], chunk, Addresses(h.saddr, bs))
    ensures OnlyFrames(old(ram[..]), ram[..], Addresses(h.saddr, bs))
    ensures View(ram[..], Addresses(h.saddr, bs)[0]) == Identity(flags)
    ensures EntriesAllow(ram[..], Addresses(h.saddr, bs)[0], flags)
    ensures |FreeBlocks(h.entries[..])| == |FreeBlocks(old(h.entries[..]))| - CHUNK_BLOCKS
  {
    ghost var base, m0 := h.entries[..], ram[..];
    var directory;
    directory, bs := BuildDirectory(h, ram, flags);
    ghost var m, fs := ram[..], Addresses(h.saddr, bs);
    ghost var b;
    chunk, b := ChunkRecord(h, ram, directory, base, bs);
    hide *;
    ChunkRecordApart(m0, m, ram[..], fs, chunk, flags);
    bs := bs + [b];
  }

  /** The chunk record: a block of its own whose first word is the directory's address. */
  method ChunkRecord(h: Heap, ram: array<Word>, directory: Word, ghost base: Table, ghost bs: seq<nat>)
    returns (chunk: Word, ghost b: nat)
    requires h.Valid() && h.entryType == UnsignedChar && ram.Length == RAM_WORDS
    requires Clean(base) && Grabbed(base, h.entries[..], bs) && |FreeBlocks(h.entries[..])| > 0
    modifies h.entries, ram
    ensures Grabbed(base, h.entries[..], bs + [b])
    ensures Addresses(h.saddr, bs + [b]) == Addresses(h.saddr, bs) + [chunk]
    ensures Frames(Addresses(h.saddr, bs) + [chunk])
    ensures OnlyFrames(old(ram[..]), ram[..], [chunk]) && ram[chunk / 4] == directory
    ensures |FreeBlocks(h.entries[..])| == |FreeBlocks(old(h.entries[..]))| - 1
  {
    ghost var m := ram[..];
    chunk, b := GrabBlock(h, ram, 4, base, bs);
    GrabbedFrames(h.saddr, base, h.entries[..], bs + [b]);
    assert Addresses(h.saddr, bs + [b]) == Addresses(h.saddr, bs) + [chunk];
    ZeroedOnlyFrame(m, chunk, 4);
    hide Zeroed, Grabbed, Marked, FreeBlocks;
    ram[chunk / 4] := directory;
    assert FrameOf(chunk / 4) == chunk;
  }

  /** Writing the chunk record in a frame of its own changes nothing built before. */
  lemma ChunkRecordApart(m0: seq<Word>, m: seq<Word>, r: seq<Word>, fs: seq<Word>, chunk: Word, flags: Byte)
    requires |fs| == ENTRIES + 1 && Building(m0, m, fs, flags) && Frames(fs + [chunk])
    requires OnlyFrames(m, r, [chunk]) && r[chunk / 4] == fs[0]
    ensures (fs + [chunk])[0] == fs[0]
    ensures IsChunk(r, chunk, fs + [chunk])
    ensures OnlyFrames(m0, r, fs + [chunk])
    ensures View(r, fs[0]) == Identity(flags) && EntriesAllow(r, fs[0], flags)
  {
    BuiltFlags(m0, m, fs, flags);
    hide EntryAllows;
    var gs := fs + [chunk];
    forall j | 0 <= j <= ENTRIES ensures fs[j] == gs[j] && fs[j] != chunk {
      assert gs[j] != gs[ENTRIES + 1];
    }
    BuiltIsIdentity(m0, m, fs, flags);
    assert forall j :: 0 <= j < ENTRIES ==> TableOf(m, fs[0], j) == fs[j + 1];
    ViewElsewhere(m, r, fs[0], [chunk]);
    OnlyFramesGrow(m0, m, r, fs, [chunk]);
  }

  lemma OnlyFramesGrow(m0: seq<Word>, m: seq<Word>, r: seq<Word>, fs: seq<Word>, gs: seq<Word>)
    requires OnlyFrames(m0, m, fs) && OnlyFrames(m, r, gs)
    ensures OnlyFrames(m0, r, fs + gs)
  {
  }

  /** A directory none of whose frames is written keeps its tables and its view. */
  lemma ViewElsewhere(m: seq<Word>, r: seq<Word>, dir: Word, changed: seq<Word>)
    requires OnlyFrames(m, r, changed) && dir % PAGE == 0 && dir !in changed
    requires forall j :: 0 <= j < ENTRIES ==> TableOf(m, dir, j) !in changed
    ensures SameDirectory(m, r, dir) && View(r, dir) == View(m, dir)
    ensures forall j :: 0 <= j < ENTRIES ==> TableOf(r, dir, j) == TableOf(m, dir, j)
    ensures WellFormed(m, dir) ==> WellFormed(r, dir)
  {
    forall j | 0 <= j < ENTRIES ensures DirEntry(r, dir, j) == DirEntry(m, dir, j) {
      DirectoryFrame(dir, j);
    }
    SameTables(m, r, dir);
    forall p | 0 <= p < PAGES ensures View(r, dir)[p] == View(m, dir)[p] {
      assert FrameOf(Slot(m, dir, p)) == TableOf(m, dir, p / ENTRIES);
    }
  }

  /** The addresses a chunk's destruction frees, in order. */
  function ChunkAddresses(m: seq<Word>, chunk: Word): (ps: seq<Word>)
    requires IsRam(m) && chunk % PAGE == 0 && m[chunk / 4] % PAGE == 0
  {
    TableAddresses(m, m[chunk / 4], ENTRIES) + [m[chunk / 4], chunk]
  }

  function TableAddresses(m: seq<Word>, dir: Word, n: nat): (ps: seq<Word>)
    requires IsRam(m) && dir % PAGE == 0 && n <= ENTRIES
    ensures |ps| == n
  {
    seq(n, i requires 0 <= i < n => TableOf(m, dir, i))
  }

  method FreeChunk(h: Heap, ram: array<Word>, chunk: Word)
    requires ram.Length == RAM_WORDS && chunk % PAGE == 0 && ram[chunk / 4] % PAGE == 0
    modifies h.entries
    ensures h.entries[..] == FreedAddresses(old(h.entries[..]), h.saddr, ChunkAddresses(ram[..], chunk))
  {
    ghost var m, e := ram[..], h.entries[..];
    var directory := ram[chunk / 4];
    assert IsRam(m) && PAGE == 4096;
    hide *;
    FreeTables(h, ram, directory);
    ghost var ts := TableAddresses(m, directory, ENTRIES);
    h.Free(directory);
    FreedOneMore(e, h.saddr, ts, directory);
    h.Free(chunk);
    FreedOneMore(e, h.saddr, ts + [directory], chunk);
    LastFreed(m, chunk, directory);
  }

  /** The loop: every table the directory names. */
  method FreeTables(h: Heap, ram: array<Word>, directory: Word)
    requires ram.Length == RAM_WORDS && IsRam(ram[..]) && directory % PAGE == 0
    modifies h.entries
    ensures h.entries[..] ==
      FreedAddresses(old(h.entries[..]), h.saddr, TableAddresses(ram[..], directory, ENTRIES))
  {
    ghost var m, e := ram[..], h.entries[..];
    var i := 0;
    assert TableAddresses(m, directory, 0) == [] && PAGE == 4096;
    FreedNone(e, h.saddr);
    hide *;
    while i < ENTRIES
      invariant 0 <= i <= ENTRIES && ram[..] == m
      invariant h.entries[..] == FreedAddresses(e, h.saddr, TableAddresses(m, directory, i))
    {
      ghost var ps := TableAddresses(m, directory, i);
      NextTableFreed(m, directory, i);
      h.Free(PageBase(ram[directory / 4 + i]));
      FreedOneMore(e, h.saddr, ps, TableOf(m, directory, i));
      i := i + 1;
    }
  }

  lemma FreedNone(e: Table, saddr: Word)
    ensures FreedAddresses(e, saddr, []) == e
  {
  }

  lemma LastFreed(m: seq<Word>, chunk: Word, dir: Word)
    requires IsRam(m) && chunk % PAGE == 0 && dir % PAGE == 0 && dir == m[chunk / 4]
    ensures TableAddresses(m, dir, ENTRIES) + [dir] + [chunk] == ChunkAddresses(m, chunk)
  {
  }

  lemma NextTableFreed(m: seq<Word>, dir: Word, i: nat)
    requires IsRam(m) && dir % PAGE == 0 && i < ENTRIES
    ensures dir / 4 + i < |m| && PageBase(m[dir / 4 + i]) == TableOf(m, dir, i)
    ensures TableAddresses(m, dir, i + 1) == TableAddresses(m, dir, i) + [TableOf(m, dir, i)]
  {
    hide PageBase;
  }

  /** Creating a chunk, updating its mappings in any way, and destroying it gives back
      exactly the heap table: the masked directory entries still name the blocks taken. */
  lemma ChunkLifetime(saddr: Word, base: Table, e: Table, m: seq<Word>, chunk: Word, bs: seq<nat>,
                      ops: seq<PageOp>)
    requires ValidPool(saddr, |base|) && Grabbed(base, e, bs)
    requires IsChunk(m, chunk, Addresses(saddr, bs))
    ensures var r := ApplyAll(m, m[chunk / 4], ops);
      && r[chunk / 4] == m[chunk / 4]
      && multiset(ChunkAddresses(r, chunk)) == multiset(Addresses(saddr, bs))
      && FreedAddresses(e, saddr, ChunkAddresses(r, chunk)) == base
  {
    ChunkReturnsItsFrames(m, chunk, Addresses(saddr, bs), ops);
    var r := ApplyAll(m, m[chunk / 4], ops);
    var returned := bs[1..ENTRIES + 1] + [bs[0], bs[ENTRIES + 1]];
    assert ChunkAddresses(r, chunk) == Addresses(saddr, returned);
    Rotated(bs, returned);
    FreedAddressesAreBlocks(e, saddr, returned);
    FreedAllRestores(base, e, bs, returned);
    Rotated(Addresses(saddr, bs), ChunkAddresses(r, chunk));
  }

  /** After any updates, the directory still names the chunk's own frames. */
  lemma ChunkReturnsItsFrames(m: seq<Word>, chunk: Word, fs: seq<Word>, ops: seq<PageOp>)
    requires IsChunk(m, chunk, fs)
    ensures var r := ApplyAll(m, fs[0], ops);
      r[chunk / 4] == fs[0] && ChunkAddresses(r, chunk) == fs[1..ENTRIES + 1] + [fs[0], fs[ENTRIES + 1]]
  {
    ChunkWellFormed(m, chunk, fs);
    assert IsRam(m) && fs[0] % PAGE == 0;
    UpdatesRefineFlat(m, fs[0], ops);
    hide ApplyAll, View, WellFormed, ApplyAllFlat;
    FramesStay(m, ApplyAll(m, fs[0], ops), chunk, fs);
  }

  lemma FramesStay(m: seq<Word>, r: seq<Word>, chunk: Word, fs: seq<Word>)
    requires IsChunk(m, chunk, fs) && fs[0] % PAGE == 0 && OnlyTables(m, r, fs[0]) && !IsTable(m, fs[0], chunk)
    ensures IsRam(r) && r[chunk / 4] == fs[0]
    ensures ChunkAddresses(r, chunk) == fs[1..ENTRIES + 1] + [fs[0], fs[ENTRIES + 1]]
  {
    assert chunk % PAGE == 0;
    FrameWord(chunk, 0);
    assert FrameOf(chunk / 4) == chunk;
    hide IsTable, Frames, FrameOf;
    SameTables(m, r, fs[0]);
    assert TableAddresses(r, fs[0], ENTRIES) == fs[1..ENTRIES + 1];
  }

  lemma Rotated<T>(s: seq<T>, r: seq<T>)
    requires |s| == CHUNK_BLOCKS && r == s[1..ENTRIES + 1] + [s[0], s[ENTRIES + 1]]
    ensures multiset(r) == multiset(s)
    ensures forall x :: x in s <==> x in r
  {
    assert s == [s[0]] + s[1..ENTRIES + 1] + [s[ENTRIES + 1]];
    assert forall x :: x in s <==> x in multiset(s);
    assert forall x :: x in r <==> x in multiset(r);
  }

  method Update(ram: array<Word>, dir: Word, op: PageOp)
    requires ram.Length == RAM_WORDS && dir % PAGE == 0
    modifies ram
    ensures ram[..] == Apply(old(ram[..]), dir, op)
  {
    var ret;
    match op
    case SetPage(v, val) => ret := Set(ram, dir, v, val);
    case MapPage(v, p, flags) => ret := Map(ram, dir, v, p, flags);
    case MapPages(v, p, pend, flags) => ret := MapTo(ram, dir, v, p, pend, flags);
  }

  /** The whole life of a chunk, composed of the operations. */
  method UseChunk(h: Heap, ram: array<Word>, flags: Byte, ops: seq<PageOp>)
    requires Ready(h, ram) && |FreeBlocks(h.entries[..])| >= CHUNK_BLOCKS
    modifies h.entries, ram
    ensures h.entries[..] == old(h.entries[..])
  {
    ghost var base := h.entries[..];
    var chunk, bs := NewChunk(h, ram, flags);
    ghost var e, m, fs := h.entries[..], ram[..], Addresses(h.saddr, bs);
    ChunkWellFormed(m, chunk, fs);
    var dir := ram[chunk / 4];
    var i := 0;
    while i < |ops|
      invariant 0 <= i <= |ops|
      invariant h.entries[..] == e
      invariant ram[..] == ApplyAll(m, dir, ops[..i])
    {
      Update(ram, dir, ops[i]);
      assert ops[..i + 1][..i] == ops[..i];
      i := i + 1;
    }
    assert ops[..|ops|] == ops;
    ChunkLifetime(h.saddr, base, e, m, chunk, bs, ops);
    FreeChunk(h, ram, chunk);
  }
}
