/** The operations of the kernel on a shared heap and memory, each proved to be a step of the
    system of address spaces. */
module SpaceOperations {
  import opened Words
  import opened BlockHeap
  import opened KernelHeap
  import opened Ownership
  import opened Memory
  import opened Paging
  import opened Chunks
  import opened ProcessImage
  import opened ProcessLoader
  import opened ProcessMemory
  import opened CopyString
  import opened AddressSpaces
  import opened AllocationRecords

  /** Memory changed in the temporary page and the destination only, byte by byte. */
  lemma DeliveredFrames(m: seq<Word>, r: seq<Word>, tmp: Word, phys: Word, s: seq<Byte>, last: Word)
    requires IsRam(m) && IsRam(r) && Delivered(m, r, tmp, phys, s)
    requires |s| < PAGE && last == phys + |s|
    ensures OnlyFrames(m, r, [tmp, PageBase(phys), PageBase(last)])
  {
    var fs := [tmp, PageBase(phys), PageBase(last)];
    forall w | 0 <= w < RAM_WORDS && FrameOf(w) !in fs ensures r[w] == m[w] {
      assert FrameOf(w) != fs[0] && FrameOf(w) != fs[1] && FrameOf(w) != fs[2];
      WordApart(w, phys, last);
      SameWord(m, r, tmp, phys, s, last, w);
    }
  }

  /** The bytes of a word outside the frames at both ends of a short range are outside it. */
  lemma WordApart(w: nat, phys: Word, last: Word)
    requires w < RAM_WORDS && phys <= last < phys + PAGE
    requires FrameOf(w) != PageBase(phys) && FrameOf(w) != PageBase(last)
    ensures 4 * w + 3 < phys || last < 4 * w
  {
    var q := w / ENTRIES;
    assert FrameOf(w) == q * PAGE && q * PAGE <= 4 * w < 4 * w + 3 < q * PAGE + PAGE;
    assert PageBase(phys) == phys / PAGE * PAGE && PageBase(last) == last / PAGE * PAGE;
    assert last / PAGE <= phys / PAGE + 1;
  }

  lemma SameWord(m: seq<Word>, r: seq<Word>, tmp: Word, phys: Word, s: seq<Byte>, last: Word, w: nat)
    requires IsRam(m) && IsRam(r) && Delivered(m, r, tmp, phys, s) && last == phys + |s|
    requires w < RAM_WORDS && FrameOf(w) != tmp && (4 * w + 3 < phys || last < 4 * w)
    ensures r[w] == m[w]
  {
    forall k | 0 <= k < 4 ensures Digit(r[w], k) == Digit(m[w], k) {
      WordByte(w, k);
      assert ByteAt(r, 4 * w + k) == ByteAt(m, 4 * w + k);
    }
    hide FrameOf, Delivered;
    DigitsDetermine(r[w], m[w]);
  }

  lemma WordByte(w: nat, k: nat)
    requires w < RAM_WORDS && k < 4
    ensures 4 * w + k < WORD && (4 * w + k) / 4 == w && (4 * w + k) % 4 == k
  {
  }

  lemma DigitsDetermine(x: Word, y: Word)
    requires Digit(x, 0) == Digit(y, 0) && Digit(x, 1) == Digit(y, 1)
    requires Digit(x, 2) == Digit(y, 2) && Digit(x, 3) == Digit(y, 3)
    ensures x == y
  {
    DigitsJoin(x);
    DigitsJoin(y);
    hide Digit;
  }

  lemma DigitsJoin(x: Word)
    ensures x == Join(Digit(x, 0), Digit(x, 1), Digit(x, 2), Digit(x, 3))
  {
    var a, b, c := x / 256, x / 0x1_0000, x / 0x100_0000;
    assert b == a / 256 && c == b / 256;
  }

  /** The page a string copy uses is free, so it is no frame of any space. */
  lemma FreeFrameIsNone(saddr: Word, s: System, start: nat, a: Word)
    requires Sound(saddr, s) && start < |s.entries| && IsFree(s.entries[start]) && a == BlockToAddress(saddr, start)
    ensures forall bs, i :: bs in s.spaces && 0 <= i < CHUNK_BLOCKS ==> Frame(saddr, bs, i) != a
  {
    forall bs, i | bs in s.spaces && 0 <= i < CHUNK_BLOCKS ensures Frame(saddr, bs, i) != a {
      assert bs[i] in bs;
      FrameIs(saddr, |s.entries|, bs, i);
      BlockAddressRoundTrip(saddr, |s.entries|, start);
    }
  }

  /** The frames a failed request of at most 0x7E00 bytes clears lie below every space. */
  function LowFrames(): (fs: seq<Word>)
    ensures |fs| == 8
  {
    seq(8, i requires 0 <= i < 8 => i * PAGE)
  }

  lemma ClearedLow(m: seq<Word>, size: Word)
    requires IsRam(m) && size <= HEAP_TABLE
    ensures OnlyFrames(m, Zeroed(m, 0, size), LowFrames())
  {
    var r := Zeroed(m, 0, size);
    forall w | 0 <= w < RAM_WORDS ensures FrameOf(w) in LowFrames() || r[w] == m[w] {
      if w < 8 * ENTRIES { LowFrame(w); }
    }
  }

  lemma LowFrame(w: nat)
    requires w < 8 * ENTRIES
    ensures FrameOf(w) in LowFrames()
  {
    assert LowFrames()[w / ENTRIES] == FrameOf(w);
  }

  lemma LowFramesFree(saddr: Word, s: System, bs: Space, i: nat)
    requires Sound(saddr, s) && bs in s.spaces && i < CHUNK_BLOCKS
    ensures Frame(saddr, bs, i) !in LowFrames()
  {
    assert bs[i] in bs;
    FrameIs(saddr, |s.entries|, bs, i);
  }

  /** The map of one space is the old one with the update on it. */
  ghost predicate UpdatedMap(saddr: Word, s: System, t: System, bs: Space, op: PageOp) {
    && IsRam(s.ram) && IsRam(t.ram) && DirOf(saddr, bs) % PAGE == 0
    && MapOf(saddr, t.ram, bs) == ApplyFlat(MapOf(saddr, s.ram, bs), op)
  }

  class Spaces {
    const h: Heap
    const ram: array<Word>

    /** The chunks that exist, by their blocks. */
    ghost var spaces: set<Space>

    ghost function State(): System
      reads this, h.entries, ram
    {
      System(h.entries[..], ram[..], spaces)
    }

    ghost predicate Valid()
      reads this, h.entries, ram
    {
      h.Valid() && h.entryType == UnsignedChar && ram.Length == RAM_WORDS && Sound(h.saddr, State())
    }

    constructor (h: Heap, ram: array<Word>)
      requires h.Valid() && h.entryType == UnsignedChar && ram.Length == RAM_WORDS && Tidy(h.entries[..])
      ensures this.h == h && this.ram == ram && spaces == {} && Valid()
    {
      this.h := h;
      this.ram := ram;
      spaces := {};
    }

    /** paging_new_chunk among the spaces there are. */
    method NewSpace(flags: Byte) returns (chunk: Word, ghost bs: Space)
      requires Valid() && |FreeBlocks(h.entries[..])| >= CHUNK_BLOCKS
      modifies this, h.entries, ram
      ensures Valid() && chunk == ChunkOf(h.saddr, bs)
      ensures StepOk(h.saddr, old(State()), Create(bs, flags), State())
    {
      ghost var s := State();
      ghost var b;
      chunk, b := NewChunk(h, ram, flags);
      bs := b;
      spaces := spaces + {bs};
      ghost var t := State();
      NewSpaceStep(h.saddr, s, t, bs, flags, chunk);
      hide *;
      StepKeeps(h.saddr, s, Create(bs, flags), t);
    }

    /** paging_free_chunk. */
    method FreeSpace(chunk: Word, ghost bs: Space)
      requires Valid() && bs in spaces && chunk == ChunkOf(h.saddr, bs)
      modifies this, h.entries
      ensures Valid() && StepOk(h.saddr, old(State()), Destroy(bs), State())
    {
      ghost var s := State();
      DestroyEffect(h.saddr, s, bs);
      FreeChunk(h, ram, chunk);
      spaces := spaces - {bs};
      StepKeeps(h.saddr, s, Destroy(bs), State());
    }

    /** Any update of one space's pages: its map is updated, and no other space is touched. */
    method UpdatePages(chunk: Word, ghost bs: Space, op: PageOp)
      requires Valid() && bs in spaces && chunk == ChunkOf(h.saddr, bs)
      modifies ram
      ensures Valid() && StepOk(h.saddr, old(State()), Operate(bs), State())
      ensures UpdatedMap(h.saddr, old(State()), State(), bs, op)
    {
      ghost var s := State();
      PlacedParts(h.saddr, s.entries, s.ram, bs);
      ApplyRefinesFlat(s.ram, DirOf(h.saddr, bs), op);
      Update(ram, ram[chunk / 4], op);
      UpdateConfined(h.saddr, s.entries, s.ram, ram[..], DirOf(h.saddr, bs));
      StepKeeps(h.saddr, s, Operate(bs), State());
    }

    /** process_map_memory on one space, BSS allocations included. */
    method LoadProgram(chunk: Word, ghost bs: Space, program: Program, stack: Word) returns (ret: int)
      requires Valid() && bs in spaces && chunk == ChunkOf(h.saddr, bs)
      requires program.Elf? ==> BssFits(h.entries[..], program.phs)
      requires stack % PAGE == 0 && stack + STACK_SIZE <= WORD - PAGE
      modifies h.entries, ram
      ensures ret != -ENOMEM ==> Valid() && StepOk(h.saddr, old(State()), Operate(bs), State())
      ensures ret == -ENOMEM ==> program.Elf? && !AllGranted(old(h.entries[..]), program.phs)
      ensures ret == 0 && program.Elf? ==>
        AllGranted(old(h.entries[..]), program.phs) && h.entries[..] == AfterSources(old(h.entries[..]), program.phs)
    {
      ghost var s := State();
      PlacedParts(h.saddr, s.entries, s.ram, bs);
      hide Placed, BssFits, DirHeld, View, AllGranted, AfterSources;
      ghost var srcs;
      ret, srcs := MapMemory(h, ram, ram[chunk / 4], program, stack);
      if ret != -ENOMEM { StepKeeps(h.saddr, s, Operate(bs), State()); }
    }

    /** process_malloc in one space, for a program whose records name no block of any chunk. */
    method GiveMemory(chunk: Word, ghost bs: Space, process: ProcessHeap, size: Word) returns (p: Word)
      requires Valid() && bs in spaces && chunk == ChunkOf(h.saddr, bs) && process.Valid()
      requires RecordsApart(h.saddr, spaces, process.allocations[..])
      requires size <= 0x7fff_f000 && !Overruns(h.entries[..], BlocksFor(size))
      modifies h.entries, ram, process.allocations
      ensures process.Valid()
      ensures StartBlock(old(h.entries[..]), BlocksFor(size)) >= 0 ==>
        && Valid() && RecordsApart(h.saddr, spaces, process.allocations[..])
        && Gives(h.saddr, old(State()), old(process.allocations[..]), bs, size, p, State(), process.allocations[..])
    {
      ghost var s, rs := State(), process.allocations[..];
      PlacedParts(h.saddr, s.entries, s.ram, bs);
      FoundInside(rs);
      hide Placed, DirHeld, View, StartBlock, Find, RecordsApart;
      p := process.Malloc(h, ram, ram[chunk / 4], size);
      if StartBlock(s.entries, BlocksFor(size)) >= 0 {
        GiveKeeps(h.saddr, s, rs, bs, size, p, State(), process.allocations[..]);
      }
    }

    /** process_free in one space: the records alone show that no chunk loses a block. */
    method ReturnMemory(chunk: Word, ghost bs: Space, process: ProcessHeap, p: Word) returns (ghost mid: System)
      requires Valid() && bs in spaces && chunk == ChunkOf(h.saddr, bs) && process.Valid()
      requires RecordsApart(h.saddr, spaces, process.allocations[..])
      modifies h.entries, ram, process.allocations
      ensures process.Valid() && Valid() && RecordsApart(h.saddr, spaces, process.allocations[..])
      ensures IsRam(mid.ram)
      ensures Returns(h.saddr, old(State()), old(process.allocations[..]), bs, p, mid, State(), process.allocations[..])
    {
      ghost var s, rs := State(), process.allocations[..];
      PlacedParts(h.saddr, s.entries, s.ram, bs);
      NoUpdate(s.ram, DirOf(h.saddr, bs));
      hide *;
      process.Free(h, ram, ram[chunk / 4], p);
      mid := ReturnIs(h.saddr, s, rs, bs, p, State(), process.allocations[..]);
      ReturnKeeps(h.saddr, s, rs, bs, p, mid, State(), process.allocations[..]);
    }

    /** copy_string_from_task for the task of one space. */
    method CopyName(chunk: Word, ghost bs: Space, cpu: Cpu, kdir: Word, v: Word, phys: Word, max: nat)
      returns (ret: int)
      requires Valid() && bs in spaces && chunk == ChunkOf(h.saddr, bs) && 1 <= max < PAGE
      requires StartBlock(h.entries[..], 1) >= 0 ==>
        var tmp, dir := TmpAddress(h.entries[..], h.saddr), ram[chunk / 4];
        && dir % PAGE == 0
        && StringClear(ram[..], View(ram[..], dir), v, max - 1, tmp, Slot(ram[..], dir, tmp / PAGE))
        && DestApart(ram[..], dir, phys, max) && (phys + max <= tmp || tmp + PAGE <= phys)
      requires DestinationFree(h.saddr, State(), phys, max)
      modifies h.entries, ram, cpu
      ensures Valid() && exists frames :: StepOk(h.saddr, old(State()), Store(frames), State())
      ensures ret == if StartBlock(old(h.entries[..]), 1) >= 0 then 0 else -ENOMEM
    {
      ghost var s := State();
      PlacedParts(h.saddr, s.entries, s.ram, bs);
      ghost var start := StartBlock(s.entries, 1);
      ghost var goal := StringAt(s.ram, View(s.ram, DirOf(h.saddr, bs)), v, max - 1);
      hide *;
      ret := CopyStringFromTask(h, ram, cpu, kdir, ram[chunk / 4], v, phys, max);
      ghost var frames := CopyStep(h.saddr, s, State(), phys, max, start, goal);
    }

    /** kzalloc for the kernel itself. A failure is harmless to the spaces up to 0x7E00 bytes. */
    method Allocate(size: Word) returns (p: Word)
      requires Valid() && size <= 0x7fff_f000 && !Overruns(h.entries[..], BlocksFor(size))
      modifies h.entries, ram
      ensures StartBlock(old(h.entries[..]), BlocksFor(size)) >= 0 && size > 0 ==>
        var s, n := StartBlock(old(h.entries[..]), BlocksFor(size)), BlocksFor(size);
        Valid() && StepOk(h.saddr, old(State()), Action.Take(s, n), State()) && p == BlockToAddress(h.saddr, s)
      ensures StartBlock(old(h.entries[..]), BlocksFor(size)) < 0 && size <= HEAP_TABLE ==>
        Valid() && StepOk(h.saddr, old(State()), Store(LowFrames()), State())
    {
      ghost var s, n := State(), BlocksFor(size);
      ghost var start := StartBlock(s.entries, n);
      BlocksForExact(size);
      if start >= 0 && size > 0 { ScanExact(s.entries, n); }
      hide StartBlock, Placed, BlocksFor, RunFree, Frame;
      p := KZalloc(h, ram, size);
      ghost var t := State();
      if start >= 0 && size > 0 {
        ZeroedInRun(s.ram, h.saddr, |s.entries|, start, n, size);
        StepKeeps(h.saddr, s, Action.Take(start, n), t);
      } else if start < 0 && size <= HEAP_TABLE {
        ClearedLow(s.ram, size);
        PoolAboveTable(s.entries, h.saddr, 0, size);
        forall b, i | b in s.spaces && 0 <= i < CHUNK_BLOCKS ensures Frame(h.saddr, b, i) !in LowFrames() {
          LowFramesFree(h.saddr, s, b, i);
        }
        StepKeeps(h.saddr, s, Store(LowFrames()), t);
      }
    }
  }

  lemma FoundInside(rs: Records)
    ensures Find(rs, 0) <= |rs|
  {
  }

  /** What process_free does is unmapping followed by freeing. */
  lemma ReturnIs(saddr: Word, s: System, rs: Records, bs: Space, p: Word, t: System, us: Records)
    returns (mid: System)
    requires Sound(saddr, s) && bs in s.spaces && DirOf(saddr, bs) % PAGE == 0 && |rs| == MAX_ALLOCATIONS
    requires t.spaces == s.spaces
    requires var i := Find(rs, p);
      if i == MAX_ALLOCATIONS then t.entries == s.entries && t.ram == s.ram && us == rs
      else
        && t.entries == FreedAddress(s.entries, saddr, p) && us == rs[i := Allocation(0, 0)]
        && OnlyTables(s.ram, t.ram, DirOf(saddr, bs))
    ensures IsRam(mid.ram) && Returns(saddr, s, rs, bs, p, mid, t, us)
  {
    mid := System(s.entries, t.ram, s.spaces);
    if Find(rs, p) < |rs| { UpdateConfined(saddr, s.entries, s.ram, t.ram, DirOf(saddr, bs)); }
  }

  lemma NewSpaceStep(saddr: Word, s: System, t: System, bs: Space, flags: Byte, chunk: Word)
    requires Sound(saddr, s) && IsRam(t.ram) && Grabbed(s.entries, t.entries, bs)
    requires IsChunk(t.ram, chunk, Addresses(saddr, bs)) && OnlyFrames(s.ram, t.ram, Addresses(saddr, bs))
    requires View(t.ram, Addresses(saddr, bs)[0]) == Identity(flags) && t.spaces == s.spaces + {bs}
    ensures chunk == ChunkOf(saddr, bs) && StepOk(saddr, s, Create(bs, flags), t)
  {
    assert DirOf(saddr, bs) == Addresses(saddr, bs)[0];
  }

  /** No space has a frame where the destination of a copy lies. */
  ghost predicate DestinationFree(saddr: Word, s: System, phys: Word, max: nat) {
    phys + max <= WORD &&
    forall bs, i, a: Word :: bs in s.spaces && 0 <= i < CHUNK_BLOCKS && phys <= a < phys + max ==>
      PageBase(a) != Frame(saddr, bs, i)
  }

  lemma PlacesForCopy(saddr: Word, s: System, start: nat)
    requires Sound(saddr, s) && start == StartBlock(s.entries, 1)
    ensures start < |s.entries| && IsFree(s.entries[start])
    ensures forall bs, i :: bs in s.spaces && 0 <= i < CHUNK_BLOCKS ==>
      Frame(saddr, bs, i) != TmpAddress(s.entries, saddr)
  {
    ScanOne(s.entries);
    FreeFrameIsNone(saddr, s, start, BlockToAddress(saddr, start));
  }

  /** A string copy, delivered or refused, is a store outside every space. */
  lemma CopyStep(saddr: Word, s: System, t: System, phys: Word, max: nat, start: int, goal: seq<Byte>)
    returns (frames: seq<Word>)
    requires Sound(saddr, s) && IsRam(t.ram) && t.entries == s.entries && t.spaces == s.spaces
    requires DestinationFree(saddr, s, phys, max) && |goal| < max < PAGE && start == StartBlock(s.entries, 1)
    requires if start >= 0 then Delivered(s.ram, t.ram, TmpAddress(s.entries, saddr), phys, goal)
             else t.ram == Zeroed(s.ram, 0, max)
    ensures StepOk(saddr, s, Store(frames), t) && Sound(saddr, t)
  {
    if start >= 0 {
      var tmp, last := TmpAddress(s.entries, saddr), phys + |goal|;
      frames := [tmp, PageBase(phys), PageBase(last)];
      PlacesForCopy(saddr, s, start);
      hide StartBlock, Delivered, Sound, Frame, PageBase, TmpAddress;
      DeliveredFrames(s.ram, t.ram, tmp, phys, goal, last);
      CopyFramesFree(saddr, s, tmp, phys, max, last);
    } else {
      frames := LowFrames();
      hide StartBlock, Sound, Frame, Zeroed;
      ClearedLow(s.ram, max);
      forall b, i | b in s.spaces && 0 <= i < CHUNK_BLOCKS ensures Frame(saddr, b, i) !in frames {
        LowFramesFree(saddr, s, b, i);
      }
    }
    StepKeeps(saddr, s, Store(frames), t);
  }

  lemma CopyFramesFree(saddr: Word, s: System, tmp: Word, phys: Word, max: nat, last: Word)
    requires DestinationFree(saddr, s, phys, max) && phys <= last < phys + max
    requires forall bs, i :: bs in s.spaces && 0 <= i < CHUNK_BLOCKS ==> Frame(saddr, bs, i) != tmp
    ensures forall bs, i :: bs in s.spaces && 0 <= i < CHUNK_BLOCKS ==>
      Frame(saddr, bs, i) !in [tmp, PageBase(phys), PageBase(last)]
  {
    hide Frame, PageBase;
  }
}
