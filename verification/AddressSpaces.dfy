/** Isolation: several address spaces in one heap and one memory. Every chunk sits in blocks
    of its own, so nothing done for one of them reaches another, over any run. */
module AddressSpaces {
  import opened Words
  import opened BlockHeap
  import opened KernelHeap
  import opened Ownership
  import opened Memory
  import opened Paging
  import opened Chunks
  import opened ProcessLoader

  /** The blocks of a chunk: its directory, its 1024 tables, its record. */
  type Space = bs: seq<nat> | |bs| == CHUNK_BLOCKS witness seq(CHUNK_BLOCKS, i => i)

  datatype System = System(entries: Table, ram: seq<Word>, spaces: set<Space>)

  function Frame(saddr: Word, bs: Space, i: nat): Word
    requires i < CHUNK_BLOCKS
  {
    BlockToAddress(saddr, bs[i])
  }

  function DirOf(saddr: Word, bs: Space): Word { Frame(saddr, bs, 0) }

  function ChunkOf(saddr: Word, bs: Space): Word { Frame(saddr, bs, ENTRIES + 1) }

  /** The chunk in blocks bs is complete, and its blocks are taken one by one. */
  ghost predicate Placed(saddr: Word, e: Table, m: seq<Word>, bs: Space) {
    && Distinct(bs)
    && (forall b :: b in bs ==> b < |e| && e[b] == SINGLE)
    && IsChunk(m, ChunkOf(saddr, bs), Addresses(saddr, bs))
  }

  predicate Separate(a: Space, b: Space) { forall x :: x in a ==> x !in b }

  ghost predicate Sound(saddr: Word, s: System) {
    && IsRam(s.ram) && ValidPool(saddr, |s.entries|) && Tidy(s.entries)
    && (forall bs :: bs in s.spaces ==> Placed(saddr, s.entries, s.ram, bs))
    && (forall a, b :: a in s.spaces && b in s.spaces && a != b ==> Separate(a, b))
  }

  /** The flat map of a space. */
  ghost function MapOf(saddr: Word, m: seq<Word>, bs: Space): Flat
    requires IsRam(m) && DirOf(saddr, bs) % PAGE == 0
  {
    View(m, DirOf(saddr, bs))
  }

  lemma FrameIs(saddr: Word, total: nat, bs: Space, i: nat)
    requires ValidPool(saddr, total) && i < CHUNK_BLOCKS && bs[i] < total
    ensures Frame(saddr, bs, i) == saddr + bs[i] * PAGE && Frame(saddr, bs, i) % PAGE == 0
    ensures Frame(saddr, bs, i) == Addresses(saddr, bs)[i]
  {
    BlockAddressRoundTrip(saddr, total, bs[i]);
  }

  /** Different blocks of the pool are different frames. */
  lemma FramesDiffer(saddr: Word, total: nat, a: Space, i: nat, b: Space, j: nat)
    requires ValidPool(saddr, total) && i < CHUNK_BLOCKS && j < CHUNK_BLOCKS
    requires a[i] < total && b[j] < total && a[i] != b[j]
    ensures Frame(saddr, a, i) != Frame(saddr, b, j)
  {
    FrameIs(saddr, total, a, i);
    FrameIs(saddr, total, b, j);
  }

  /** A placed chunk: where its directory, tables and record are, and that they are held. */
  lemma PlacedParts(saddr: Word, e: Table, m: seq<Word>, bs: Space)
    requires ValidPool(saddr, |e|) && Placed(saddr, e, m, bs)
    ensures DirOf(saddr, bs) % PAGE == 0 && ChunkOf(saddr, bs) % PAGE == 0
    ensures m[ChunkOf(saddr, bs) / 4] == DirOf(saddr, bs)
    ensures DirHeld(e, saddr, m, DirOf(saddr, bs))
    ensures forall j :: 0 <= j < ENTRIES ==> TableOf(m, DirOf(saddr, bs), j) == Frame(saddr, bs, j + 1)
    ensures !IsTable(m, DirOf(saddr, bs), ChunkOf(saddr, bs))
    ensures forall i :: 0 <= i < CHUNK_BLOCKS ==> FrameClosed(e, saddr, Frame(saddr, bs, i))
  {
    var fs := Addresses(saddr, bs);
    ChunkWellFormed(m, ChunkOf(saddr, bs), fs);
    forall i | 0 <= i < CHUNK_BLOCKS
      ensures Frame(saddr, bs, i) == fs[i] && Held(e, saddr, fs[i]) && FrameClosed(e, saddr, fs[i])
    {
      assert bs[i] in bs;
      FrameIs(saddr, |e|, bs, i);
    }
    forall j | 0 <= j < ENTRIES ensures TableOf(m, DirOf(saddr, bs), j) == Frame(saddr, bs, j + 1) {
      assert TableOf(m, fs[0], j) == fs[j + 1];
    }
  }

  predicate FrameClosed(e: Table, saddr: Word, a: Word) { !Open(e, saddr, a) }

  /** Two chunks in one heap have different directories, and no table of one is the other's
      directory or one of its tables. */
  lemma SpacesApart(saddr: Word, s: System, a: Space, b: Space)
    requires Sound(saddr, s) && a in s.spaces && b in s.spaces && a != b
    ensures DirOf(saddr, a) % PAGE == 0 && DirOf(saddr, b) % PAGE == 0
    ensures DirOf(saddr, a) != DirOf(saddr, b)
    ensures Apart(s.ram, DirOf(saddr, a), DirOf(saddr, b))
    ensures forall j :: 0 <= j < CHUNK_BLOCKS ==> !IsTable(s.ram, DirOf(saddr, a), Frame(saddr, b, j))
  {
    PlacedParts(saddr, s.entries, s.ram, a);
    PlacedParts(saddr, s.entries, s.ram, b);
    forall i, j | 0 <= i < CHUNK_BLOCKS && 0 <= j < CHUNK_BLOCKS
      ensures Frame(saddr, a, i) != Frame(saddr, b, j)
    {
      assert a[i] in a && b[j] in b;
      FramesDiffer(saddr, |s.entries|, a, i, b, j);
    }
    hide DirHeld, IsChunk, Open, TableOf, Frame;
    assert DirOf(saddr, a) == Frame(saddr, a, 0) && DirOf(saddr, b) == Frame(saddr, b, 0);
    forall j | 0 <= j < CHUNK_BLOCKS ensures !IsTable(s.ram, DirOf(saddr, a), Frame(saddr, b, j)) {
    }
  }

  /** The same in the form the page tables' own isolation lemma asks for: changes confined to
      one chunk's tables leave the whole map of the other as it was. */
  lemma UpdatesStayInside(saddr: Word, s: System, a: Space, b: Space, ops: seq<PageOp>)
    requires Sound(saddr, s) && a in s.spaces && b in s.spaces && a != b
    ensures DirOf(saddr, a) % PAGE == 0 && DirOf(saddr, b) % PAGE == 0
    ensures MapOf(saddr, ApplyAll(s.ram, DirOf(saddr, a), ops), b) == MapOf(saddr, s.ram, b)
  {
    SpacesApart(saddr, s, a, b);
    PlacedParts(saddr, s.entries, s.ram, a);
    PlacedParts(saddr, s.entries, s.ram, b);
    UpdatesRefineFlat(s.ram, DirOf(saddr, a), ops);
    ChangesIsolated(s.ram, ApplyAll(s.ram, DirOf(saddr, a), ops), DirOf(saddr, a), DirOf(saddr, b));
  }

  // --- steps of the system ---------------------------------------------------------------

  datatype Action =
    | Create(bs: Space, flags: Byte)
    | Operate(bs: Space)
    | Take(start: nat, count: nat)
    | Store(frames: seq<Word>)
    | FreeBlock(block: nat)
    | Destroy(bs: Space)

  /** Creating a chunk, an operation on one space (page updates, loading a program, giving a
      program memory), an allocation, stores elsewhere, freeing a block of no space, destroying
      a chunk. */
  ghost predicate StepOk(saddr: Word, s: System, a: Action, t: System)
    requires Sound(saddr, s) && IsRam(t.ram)
  {
    match a
    case Create(bs, flags) =>
      && t.spaces == s.spaces + {bs} && Grabbed(s.entries, t.entries, bs) && DirOf(saddr, bs) % PAGE == 0
      && IsChunk(t.ram, ChunkOf(saddr, bs), Addresses(saddr, bs))
      && OnlyFrames(s.ram, t.ram, Addresses(saddr, bs)) && MapOf(saddr, t.ram, bs) == Identity(flags)
    case Operate(bs) =>
      && t.spaces == s.spaces && bs in s.spaces && DirOf(saddr, bs) % PAGE == 0
      && Confined(saddr, s.entries, s.ram, t.entries, t.ram, DirOf(saddr, bs))
    case Take(start, count) =>
      && t.spaces == s.spaces && RunFree(s.entries, start, count)
      && t.entries == Marked(UnsignedChar, s.entries, start, count)
      && OnlyFrames(s.ram, t.ram, RunFrames(saddr, start, count))
    case Store(frames) =>
      && t.spaces == s.spaces && t.entries == s.entries && OnlyFrames(s.ram, t.ram, frames)
      && forall bs, i :: bs in s.spaces && 0 <= i < CHUNK_BLOCKS ==> Frame(saddr, bs, i) !in frames
    case FreeBlock(b) =>
      && t.spaces == s.spaces && t.ram == s.ram && b < |s.entries| && t.entries == s.entries[b := FREE]
      && forall bs :: bs in s.spaces ==> b !in bs
    case Destroy(bs) =>
      && t.spaces == s.spaces - {bs} && t.ram == s.ram && bs in s.spaces
      && ChunkOf(saddr, bs) % PAGE == 0 && s.ram[ChunkOf(saddr, bs) / 4] % PAGE == 0
      && t.entries == FreedAddresses(s.entries, saddr, ChunkAddresses(s.ram, ChunkOf(saddr, bs)))
  }

  /** The space an action is about. */
  predicate Concerns(a: Action, bs: Space) { (a.Operate? || a.Destroy?) && a.bs == bs }

  /** A chunk none of whose blocks or words changed is where and what it was. */
  lemma Kept(saddr: Word, e: Table, m: seq<Word>, f: Table, r: seq<Word>, bs: Space)
    requires ValidPool(saddr, |e|) && Placed(saddr, e, m, bs) && IsRam(r) && |f| == |e|
    requires forall b :: b in bs ==> f[b] == e[b]
    requires forall i, w :: 0 <= i < CHUNK_BLOCKS && 0 <= w < RAM_WORDS && FrameOf(w) == Frame(saddr, bs, i) ==>
      r[w] == m[w]
    ensures DirOf(saddr, bs) % PAGE == 0
    ensures Placed(saddr, f, r, bs) && MapOf(saddr, r, bs) == MapOf(saddr, m, bs)
  {
    var dir, chunk := DirOf(saddr, bs), ChunkOf(saddr, bs);
    PlacedParts(saddr, e, m, bs);
    forall j | 0 <= j < ENTRIES ensures DirEntry(r, dir, j) == DirEntry(m, dir, j) {
      DirectoryFrame(dir, j);
    }
    SameTables(m, r, dir);
    FrameWord(chunk, 0);
    assert FrameOf(chunk / 4) == chunk == Frame(saddr, bs, ENTRIES + 1);
    forall p | 0 <= p < PAGES ensures View(r, dir)[p] == View(m, dir)[p] {
      assert FrameOf(Slot(m, dir, p)) == TableOf(m, dir, p / ENTRIES) == Frame(saddr, bs, p / ENTRIES + 1);
    }
    hide View, Frame, FrameOf;
    SameChunk(saddr, m, r, bs);
  }

  lemma SameChunk(saddr: Word, m: seq<Word>, r: seq<Word>, bs: Space)
    requires IsChunk(m, ChunkOf(saddr, bs), Addresses(saddr, bs)) && IsRam(r)
    requires r[ChunkOf(saddr, bs) / 4] == m[ChunkOf(saddr, bs) / 4]
    requires DirOf(saddr, bs) % PAGE == 0 && SameDirectory(m, r, DirOf(saddr, bs))
    ensures IsChunk(r, ChunkOf(saddr, bs), Addresses(saddr, bs))
  {
    SameTables(m, r, DirOf(saddr, bs));
    assert DirOf(saddr, bs) == Addresses(saddr, bs)[0];
  }

  /** The space operated on is still in its blocks. */
  lemma OperatedKept(saddr: Word, s: System, t: System, bs: Space)
    requires Sound(saddr, s) && IsRam(t.ram) && StepOk(saddr, s, Operate(bs), t)
    ensures Placed(saddr, t.entries, t.ram, bs)
  {
    PlacedParts(saddr, s.entries, s.ram, bs);
    var chunk := ChunkOf(saddr, bs);
    FrameWord(chunk, 0);
    assert FrameOf(chunk / 4) == chunk == Frame(saddr, bs, ENTRIES + 1);
    assert FrameClosed(s.entries, saddr, chunk);
    SameChunk(saddr, s.ram, t.ram, bs);
    TakenKept(s.entries, t.entries, bs);
  }

  lemma TakenKept(e: Table, f: Table, bs: Space)
    requires |f| == |e| && forall b :: 0 <= b < |e| && !IsFree(e[b]) ==> f[b] == e[b]
    requires forall b :: b in bs ==> b < |e| && e[b] == SINGLE
    ensures forall b :: b in bs ==> f[b] == e[b]
  {
  }

  /** An operation on one space leaves every other one alone. */
  lemma OthersKept(saddr: Word, s: System, t: System, a: Space, b: Space)
    requires Sound(saddr, s) && IsRam(t.ram) && StepOk(saddr, s, Operate(a), t) && b in s.spaces && b != a
    ensures DirOf(saddr, b) % PAGE == 0
    ensures Placed(saddr, t.entries, t.ram, b) && MapOf(saddr, t.ram, b) == MapOf(saddr, s.ram, b)
  {
    SpacesApart(saddr, s, a, b);
    PlacedParts(saddr, s.entries, s.ram, b);
    TakenKept(s.entries, t.entries, b);
    hide Frame, IsTable, Open;
    forall i, w | 0 <= i < CHUNK_BLOCKS && 0 <= w < RAM_WORDS && FrameOf(w) == Frame(saddr, b, i)
      ensures t.ram[w] == s.ram[w]
    {
      assert FrameClosed(s.entries, saddr, FrameOf(w));
      assert !IsTable(s.ram, DirOf(saddr, a), FrameOf(w));
    }
    Kept(saddr, s.entries, s.ram, t.entries, t.ram, b);
  }

  /** Creating a chunk leaves every space alone, and the new one shares no block with any. */
  lemma CreateKeeps(saddr: Word, s: System, t: System, bs: Space, flags: Byte, b: Space)
    requires Sound(saddr, s) && IsRam(t.ram) && StepOk(saddr, s, Create(bs, flags), t) && b in s.spaces
    ensures DirOf(saddr, b) % PAGE == 0 && Separate(bs, b) && Separate(b, bs)
    ensures Placed(saddr, t.entries, t.ram, b) && MapOf(saddr, t.ram, b) == MapOf(saddr, s.ram, b)
  {
    PlacedParts(saddr, s.entries, s.ram, b);
    forall x | x in b ensures x !in bs && t.entries[x] == s.entries[x] {
      assert s.entries[x] == SINGLE;
    }
    forall i, j | 0 <= i < CHUNK_BLOCKS && 0 <= j < CHUNK_BLOCKS
      ensures Addresses(saddr, bs)[i] != Frame(saddr, b, j)
    {
      assert bs[i] in bs && b[j] in b;
      FramesDiffer(saddr, |s.entries|, bs, i, b, j);
    }
    hide Frame, Grabbed;
    forall j, w | 0 <= j < CHUNK_BLOCKS && 0 <= w < RAM_WORDS && FrameOf(w) == Frame(saddr, b, j)
      ensures t.ram[w] == s.ram[w]
    {
    }
    Kept(saddr, s.entries, s.ram, t.entries, t.ram, b);
  }

  /** An allocation leaves every space alone. */
  lemma TakeKeeps(saddr: Word, s: System, t: System, start: nat, count: nat, b: Space)
    requires Sound(saddr, s) && IsRam(t.ram) && StepOk(saddr, s, Take(start, count), t) && b in s.spaces
    ensures DirOf(saddr, b) % PAGE == 0
    ensures Placed(saddr, t.entries, t.ram, b) && MapOf(saddr, t.ram, b) == MapOf(saddr, s.ram, b)
  {
    PlacedParts(saddr, s.entries, s.ram, b);
    MarkedKeepsTaken(s.entries, start, count);
    TakenKept(s.entries, t.entries, b);
    forall i | 0 <= i < CHUNK_BLOCKS ensures Frame(saddr, b, i) !in RunFrames(saddr, start, count) {
      assert b[i] in b;
      FrameIs(saddr, |s.entries|, b, i);
      HeldNotInFreeRun(s.entries, saddr, start, count, Frame(saddr, b, i));
    }
    hide Frame, RunFrames, RunFree, Marked;
    forall i, w | 0 <= i < CHUNK_BLOCKS && 0 <= w < RAM_WORDS && FrameOf(w) == Frame(saddr, b, i)
      ensures t.ram[w] == s.ram[w]
    {
    }
    Kept(saddr, s.entries, s.ram, t.entries, t.ram, b);
  }

  /** What destroying a chunk does to the table. */
  lemma DestroyEffect(saddr: Word, s: System, bs: Space)
    requires Sound(saddr, s) && bs in s.spaces
    ensures ChunkOf(saddr, bs) % PAGE == 0 && s.ram[ChunkOf(saddr, bs) / 4] % PAGE == 0
    ensures var f := FreedAddresses(s.entries, saddr, ChunkAddresses(s.ram, ChunkOf(saddr, bs)));
      |f| == |s.entries| && forall i :: 0 <= i < |f| ==> f[i] == if i in bs then FREE else s.entries[i]
  {
    PlacedParts(saddr, s.entries, s.ram, bs);
    var returned := bs[1..ENTRIES + 1] + [bs[0], bs[ENTRIES + 1]];
    Rotated(bs, returned);
    var ps := ChunkAddresses(s.ram, ChunkOf(saddr, bs));
    assert ps == Addresses(saddr, returned);
    FreedAddressesAreBlocks(s.entries, saddr, returned);
    FreedAllEffect(s.entries, returned);
  }

  /** Every step keeps the spaces apart and in place, and the map of every space it is not
      about. */
  lemma StepKeeps(saddr: Word, s: System, a: Action, t: System)
    requires Sound(saddr, s) && IsRam(t.ram) && StepOk(saddr, s, a, t)
    ensures Sound(saddr, t)
    ensures forall b :: b in s.spaces && !Concerns(a, b) ==>
      b in t.spaces && DirOf(saddr, b) % PAGE == 0 && MapOf(saddr, t.ram, b) == MapOf(saddr, s.ram, b)
  {
    forall b | b in s.spaces && !(a.Destroy? && a.bs == b)
      ensures Placed(saddr, t.entries, t.ram, b) && DirOf(saddr, b) % PAGE == 0
      ensures !Concerns(a, b) ==> MapOf(saddr, t.ram, b) == MapOf(saddr, s.ram, b)
    {
      SpaceKept(saddr, s, a, t, b);
    }
    TableKept(saddr, s, a, t);
    if a.Create? {
      forall b | b in s.spaces ensures Separate(a.bs, b) && Separate(b, a.bs) {
        CreateKeeps(saddr, s, t, a.bs, a.flags, b);
      }
    }
    hide Placed, Separate, MapOf, Frame, View;
  }

  /** The heap table stays a good one, and a new space is placed. */
  lemma TableKept(saddr: Word, s: System, a: Action, t: System)
    requires Sound(saddr, s) && IsRam(t.ram) && StepOk(saddr, s, a, t)
    ensures |t.entries| == |s.entries| && Tidy(t.entries)
    ensures a.Create? ==> Placed(saddr, t.entries, t.ram, a.bs)
  {
    if a.Destroy? { DestroyEffect(saddr, s, a.bs); }
    if a.Take? { MarkedKeepsTaken(s.entries, a.start, a.count); }
    hide RunFree, Marked, RunFrames, IsChunk, OnlyFrames, View, Frame;
  }

  lemma SpaceKept(saddr: Word, s: System, a: Action, t: System, b: Space)
    requires Sound(saddr, s) && IsRam(t.ram) && StepOk(saddr, s, a, t)
    requires b in s.spaces && !(a.Destroy? && a.bs == b)
    ensures Placed(saddr, t.entries, t.ram, b) && DirOf(saddr, b) % PAGE == 0
    ensures !Concerns(a, b) ==> MapOf(saddr, t.ram, b) == MapOf(saddr, s.ram, b)
  {
    PlacedParts(saddr, s.entries, s.ram, b);
    match a {
      case Create(bs, flags) => CreateKeeps(saddr, s, t, bs, flags, b);
      case Operate(bs) => if bs == b { OperatedKept(saddr, s, t, bs); } else { OthersKept(saddr, s, t, bs, b); }
      case Take(start, count) => TakeKeeps(saddr, s, t, start, count, b);
      case Store(frames) =>
        hide Frame;
        Kept(saddr, s.entries, s.ram, t.entries, t.ram, b);
      case FreeBlock(block) => Kept(saddr, s.entries, s.ram, t.entries, t.ram, b);
      case Destroy(bs) =>
        DestroyEffect(saddr, s, bs);
        assert Separate(b, bs);
        Kept(saddr, s.entries, s.ram, t.entries, t.ram, b);
    }
  }

  /** A new chunk's directory is nobody else's. */
  lemma NewDirectoryIsNew(saddr: Word, s: System, t: System, bs: Space, flags: Byte)
    requires Sound(saddr, s) && IsRam(t.ram) && StepOk(saddr, s, Create(bs, flags), t)
    ensures bs !in s.spaces && forall b :: b in s.spaces ==> DirOf(saddr, b) != DirOf(saddr, bs)
  {
    StepKeeps(saddr, s, Create(bs, flags), t);
    forall b | b in s.spaces ensures b != bs && DirOf(saddr, b) != DirOf(saddr, bs) {
      CreateKeeps(saddr, s, t, bs, flags, b);
      assert bs[0] in bs;
      SpacesApart(saddr, t, b, bs);
    }
  }

  /** Freeing a block keeps the spaces in place exactly when it is no space's block; the records
      of programs and the kernel's own books show that it never is one. */
  lemma FreeKeepsExactly(saddr: Word, s: System, b: nat)
    requires Sound(saddr, s) && b < |s.entries|
    ensures Sound(saddr, s.(entries := s.entries[b := FREE])) <==> forall bs :: bs in s.spaces ==> b !in bs
  {
    var t := s.(entries := s.entries[b := FREE]);
    if forall bs :: bs in s.spaces ==> b !in bs {
      StepKeeps(saddr, s, FreeBlock(b), t);
    } else {
      var bs :| bs in s.spaces && b in bs;
      assert !Placed(saddr, t.entries, t.ram, bs);
    }
  }

  /** A failed request for `size` bytes, which clears memory from address 0 on, keeps the spaces
      in place exactly when it does not reach the table entry of a block of theirs. */
  lemma FailureKeepsExactly(saddr: Word, s: System, size: Word)
    requires Sound(saddr, s)
    ensures Sound(saddr, System(TableZeroed(s.entries, 0, size), Zeroed(s.ram, 0, size), s.spaces))
       <==> forall bs, b :: bs in s.spaces && b in bs ==> size <= HEAP_TABLE + b
  {
    var t := System(TableZeroed(s.entries, 0, size), Zeroed(s.ram, 0, size), s.spaces);
    if forall bs, b :: bs in s.spaces && b in bs ==> size <= HEAP_TABLE + b {
      forall bs | bs in s.spaces ensures Placed(saddr, t.entries, t.ram, bs) {
        ClearingMisses(saddr, s, bs, size);
      }
    } else {
      var bs, b :| bs in s.spaces && b in bs && size > HEAP_TABLE + b;
      assert s.entries[b] == SINGLE && t.entries[b] == FREE;
      assert !Placed(saddr, t.entries, t.ram, bs);
    }
  }

  lemma ClearingMisses(saddr: Word, s: System, bs: Space, size: Word)
    requires Sound(saddr, s) && bs in s.spaces && forall b :: b in bs ==> size <= HEAP_TABLE + b
    ensures DirOf(saddr, bs) % PAGE == 0
    ensures Placed(saddr, TableZeroed(s.entries, 0, size), Zeroed(s.ram, 0, size), bs)
    ensures MapOf(saddr, Zeroed(s.ram, 0, size), bs) == MapOf(saddr, s.ram, bs)
  {
    var r := Zeroed(s.ram, 0, size);
    forall i, w | 0 <= i < CHUNK_BLOCKS && 0 <= w < RAM_WORDS && FrameOf(w) == Frame(saddr, bs, i)
      ensures r[w] == s.ram[w]
    {
      assert bs[i] in bs;
      FrameIs(saddr, |s.entries|, bs, i);
      WordAbove(w, size, saddr + bs[i] * PAGE);
    }
    hide Frame, FrameOf;
    Kept(saddr, s.entries, s.ram, TableZeroed(s.entries, 0, size), r, bs);
  }

  lemma WordAbove(w: nat, size: Word, frame: nat)
    requires w < RAM_WORDS && FrameOf(w) == frame && size <= frame
    ensures size / 4 < w || (size / 4 == w && size % 4 == 0)
  {
    assert frame <= 4 * w;
  }

  // --- every run ----------------------------------------------------------------------------

  /** States visited by a run of actions. */
  ghost predicate Trace(saddr: Word, ss: seq<System>, acts: seq<Action>) {
    && |ss| == |acts| + 1
    && forall k :: 0 <= k < |acts| ==> Moves(saddr, ss[k], acts[k], ss[k + 1])
  }

  ghost predicate Moves(saddr: Word, s: System, a: Action, t: System) {
    Sound(saddr, s) ==> IsRam(t.ram) && StepOk(saddr, s, a, t)
  }

  predicate Untouched(acts: seq<Action>, b: Space) {
    forall k :: 0 <= k < |acts| ==> !Concerns(acts[k], b)
  }

  /** Over every run of chunk creations and destructions, page updates, program loads,
      allocations, frees and stores on one heap: all spaces stay apart, and a space that no
      action of the run is about still has exactly the map it had. */
  lemma {:induction false} RunIsolates(saddr: Word, ss: seq<System>, acts: seq<Action>, n: nat)
    requires Trace(saddr, ss, acts) && Sound(saddr, ss[0]) && n <= |acts|
    ensures Sound(saddr, ss[n])
    ensures forall b :: b in ss[0].spaces && Untouched(acts[..n], b) ==>
      b in ss[n].spaces && DirOf(saddr, b) % PAGE == 0 && MapOf(saddr, ss[n].ram, b) == MapOf(saddr, ss[0].ram, b)
    decreases n
  {
    if n == 0 {
      forall b | b in ss[0].spaces ensures DirOf(saddr, b) % PAGE == 0 {
        PlacedParts(saddr, ss[0].entries, ss[0].ram, b);
      }
    } else {
      RunIsolates(saddr, ss, acts, n - 1);
      assert Moves(saddr, ss[n - 1], acts[n - 1], ss[n]);
      StepKeeps(saddr, ss[n - 1], acts[n - 1], ss[n]);
      hide Sound, MapOf, StepOk, DirOf, Concerns;
      forall b | Untouched(acts[..n], b) ensures Untouched(acts[..n - 1], b) && !Concerns(acts[n - 1], b) {
        assert acts[..n][n - 1] == acts[n - 1];
        assert forall k :: 0 <= k < n - 1 ==> acts[..n - 1][k] == acts[..n][k];
      }
    }
  }

  /** In particular the kernel's directory maps every page to itself in every state, so what
      the kernel reads at an address under it is the physical byte. */
  lemma KernelSeesPhysical(saddr: Word, ss: seq<System>, acts: seq<Action>, kernel: Space, flags: Byte,
                           n: nat, a: Word)
    requires Trace(saddr, ss, acts) && Sound(saddr, ss[0]) && n <= |acts|
    requires kernel in ss[0].spaces && Untouched(acts, kernel) && DirOf(saddr, kernel) % PAGE == 0
    requires MapOf(saddr, ss[0].ram, kernel) == Identity(flags)
    ensures IsRam(ss[n].ram) && MapOf(saddr, ss[n].ram, kernel) == Identity(flags)
    ensures Translate(MapOf(saddr, ss[n].ram, kernel), a) == a
  {
    assert Untouched(acts[..n], kernel);
    RunIsolates(saddr, ss, acts, n);
    IdentityTranslates(flags, a);
  }

  lemma IdentityTranslates(flags: Byte, a: Word)
    ensures Translate(Identity(flags), a) == a
  {
    var page := a / PAGE;
    assert Identity(flags)[page] == page * PAGE + flags;
    hide Identity;
    FlagsMasked(page * PAGE, flags, page * PAGE + flags);
  }
}
