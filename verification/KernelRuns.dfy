/** The trap state machine on top of the address spaces: every task's directory is a chunk of
    its own and no free ever reaches a chunk, as results and not assumptions. */
module KernelRuns {
  import opened Words
  import opened BlockHeap
  import opened KernelHeap
  import opened Ownership
  import opened Paging
  import opened Memory
  import opened Chunks
  import opened ProcessLoader
  import opened AddressSpaces
  import opened AllocationRecords
  import T = Trap

  /** Kernel state and memory; the space of each task and the allocation records of its
      process, in list order; and the blocks the kernel has taken since it was last entered. */
  datatype World = World(k: T.Kernel, s: System, own: seq<Space>, records: seq<Records>, held: set<nat>)

  datatype Doing =
    | Trap(e: T.Event)
    | Memory(a: Action)
    | KernelFree(block: nat)
    | Give(size: Word, p: Word)
    | Return(p: Word, unmapped: System)
    | Start(bs: Space)
    | FailStart(bs: Space, error: int, created: System, mapped: System)

  const TASK_FLAGS: Byte := PRESENT + USER

  /** The kernel's directory and every task's are those of different spaces. */
  ghost predicate Backed(saddr: Word, kernel: Space, w: World) {
    && kernel in w.s.spaces && w.k.kdir == DirOf(saddr, kernel)
    && |w.own| == |w.k.tasks|
    && (forall t :: 0 <= t < |w.own| ==>
          && w.own[t] in w.s.spaces && w.own[t] != kernel
          && w.k.tasks[t].directory == DirOf(saddr, w.own[t]))
    && (forall t, u :: 0 <= t < u < |w.own| ==> w.own[t] != w.own[u])
  }

  /** Blocks the kernel may still free are marked taken and belong to no chunk. */
  ghost predicate HeldApart(s: System, held: set<nat>) {
    forall b :: b in held ==> b < |s.entries| && !IsFree(s.entries[b]) && InNoSpace(s.spaces, b)
  }

  /** The records of the current task's process name no block of any chunk. */
  ghost predicate RecordsSafe(saddr: Word, w: World) {
    && |w.records| == |w.k.tasks| && 0 <= w.k.current < |w.k.tasks|
    && RecordsApart(saddr, w.s.spaces, w.records[w.k.current])
  }

  /** An event that creates no directory. */
  predicate Plain(e: T.Event) { e.Exec? && e.copied ==> e.load.FileFails? }

  /** An exec that gets as far as a directory. */
  predicate CanStart(k: T.Kernel) { !k.halted && T.FreeSlotFrom(k.processes, 0) >= 0 }

  /** There is a current task, with a space and records. */
  predicate HasCurrent(w: World) { 0 <= w.k.current < |w.own| == |w.records| }

  /** What the kernel itself does to memory: allocations, page updates and loading in a task's
      space, and stores outside all chunks. */
  predicate KernelMay(a: Action, kernel: Space) {
    (a.Take? || a.Operate? || a.Store?) && !Concerns(a, kernel)
  }

  function HeldAfter(held: set<nat>, a: Action): set<nat> {
    if a.Take? && a.count > 0 then held + {a.start} else held
  }

  /** One step. A free by the kernel is of a block it took since it was last entered, or of
      the block named by an empty allocation; a free by a program is whatever its records say. */
  ghost predicate Next(saddr: Word, kernel: Space, w: World, d: Doing, x: World)
    requires Sound(saddr, w.s) && IsRam(x.s.ram) && T.Shaped(w.k)
  {
    match d
    case Trap(e) => Plain(e) && x == w.(k := T.Step(w.k, e), held := {})
    case Memory(a) =>
      KernelMay(a, kernel) && StepOk(saddr, w.s, a, x.s) && x == w.(s := x.s, held := HeldAfter(w.held, a))
    case KernelFree(b) =>
      && b < |w.s.entries| && (b in w.held || IsFree(w.s.entries[b]))
      && x == w.(s := w.s.(entries := w.s.entries[b := FREE]), held := w.held - {b})
    case Give(size, p) =>
      && HasCurrent(w) && |x.records| == |w.records|
      && var c := w.k.current;
      && Gives(saddr, w.s, w.records[c], w.own[c], size, p, x.s, x.records[c])
      && x == w.(s := x.s, records := w.records[c := x.records[c]])
    case Return(p, unmapped) =>
      && HasCurrent(w) && |x.records| == |w.records| && IsRam(unmapped.ram)
      && var c := w.k.current;
      && Returns(saddr, w.s, w.records[c], w.own[c], p, unmapped, x.s, x.records[c])
      && x == w.(s := x.s, records := w.records[c := x.records[c]], held := {})
    case Start(bs) =>
      && CanStart(w.k) && StepOk(saddr, w.s, Create(bs, TASK_FLAGS), x.s)
      && x == World(T.Step(w.k, T.Exec(true, T.Loads(DirOf(saddr, bs)))), x.s,
                    w.own + [bs], w.records + [Blank()], w.held)
    case FailStart(bs, error, created, mapped) =>
      && CanStart(w.k) && IsRam(created.ram) && IsRam(mapped.ram)
      && StepOk(saddr, w.s, Create(bs, TASK_FLAGS), created)
      && Moves(saddr, created, Operate(bs), mapped) && Moves(saddr, mapped, Destroy(bs), x.s)
      && x == w.(k := T.Step(w.k, T.Exec(true, T.MapFails(DirOf(saddr, bs), error))), s := x.s)
  }

  /** The state between steps: the spaces are sound, each task has its own, user mode is well
      formed, the kernel's directory maps every page to itself, and neither the kernel nor the
      running program can free a block of a chunk. */
  ghost predicate Good(saddr: Word, kernel: Space, flags: Byte, w: World) {
    && Sound(saddr, w.s) && Backed(saddr, kernel, w) && T.UserMode(w.k)
    && DirOf(saddr, kernel) % PAGE == 0 && MapOf(saddr, w.s.ram, kernel) == Identity(flags)
    && HeldApart(w.s, w.held) && RecordsSafe(saddr, w)
  }

  /** Different spaces give different directories. */
  lemma BackedApart(saddr: Word, kernel: Space, w: World)
    requires Sound(saddr, w.s) && Backed(saddr, kernel, w)
    ensures T.DirectoriesApart(w.k)
  {
    forall t | 0 <= t < |w.k.tasks| ensures w.k.tasks[t].directory != w.k.kdir {
      SpacesApart(saddr, w.s, w.own[t], kernel);
    }
    forall t, u | 0 <= t < u < |w.k.tasks| ensures w.k.tasks[t].directory != w.k.tasks[u].directory {
      SpacesApart(saddr, w.s, w.own[t], w.own[u]);
    }
  }

  /** The directory of a newly created chunk is different from the kernel's and every task's. */
  lemma CreatedIsFresh(saddr: Word, kernel: Space, w: World, bs: Space, t: System)
    requires Sound(saddr, w.s) && Backed(saddr, kernel, w) && IsRam(t.ram)
    requires StepOk(saddr, w.s, Create(bs, TASK_FLAGS), t)
    ensures bs !in w.s.spaces && DirOf(saddr, bs) != w.k.kdir
    ensures forall i :: 0 <= i < |w.k.tasks| ==> w.k.tasks[i].directory != DirOf(saddr, bs)
  {
    NewDirectoryIsNew(saddr, w.s, t, bs, TASK_FLAGS);
    hide Sound, StepOk;
    forall i | 0 <= i < |w.k.tasks| ensures w.k.tasks[i].directory != DirOf(saddr, bs) {
      assert w.own[i] in w.s.spaces;
    }
  }

  /** A successful exec, on the side of the kernel state. */
  lemma StartKernel(k: T.Kernel, directory: Word)
    requires T.UserMode(k) && CanStart(k)
    ensures var l := T.Step(k, T.Exec(true, T.Loads(directory)));
      && T.UserMode(l) && l.kdir == k.kdir && |l.tasks| == |k.tasks| + 1 && l.current == |k.tasks|
      && l.tasks[|k.tasks|].directory == directory && forall t :: 0 <= t < |k.tasks| ==> l.tasks[t] == k.tasks[t]
  {
    T.ExecSucceeds(k, directory);
  }

  /** And on the side of memory: the new task has the new space. */
  lemma StartBacked(saddr: Word, kernel: Space, w: World, bs: Space, x: World)
    requires Backed(saddr, kernel, w) && bs !in w.s.spaces
    requires x.s.spaces == w.s.spaces + {bs} && x.own == w.own + [bs] && x.k.kdir == w.k.kdir
    requires |x.k.tasks| == |w.k.tasks| + 1 && x.k.tasks[|w.k.tasks|].directory == DirOf(saddr, bs)
    requires forall t :: 0 <= t < |w.k.tasks| ==> x.k.tasks[t] == w.k.tasks[t]
    ensures Backed(saddr, kernel, x)
  {
    hide DirOf;
    assert x.own[|w.own|] == bs && forall t :: 0 <= t < |w.own| ==> x.own[t] == w.own[t];
  }

  /** What the first step of an exec does: the new chunk is made of free blocks, so the kernel
      holds none of them. */
  lemma CreatedSpaces(saddr: Word, kernel: Space, flags: Byte, w: World, bs: Space, t: System)
    requires Good(saddr, kernel, flags, w) && IsRam(t.ram) && StepOk(saddr, w.s, Create(bs, TASK_FLAGS), t)
    ensures Sound(saddr, t) && t.spaces == w.s.spaces + {bs} && bs !in w.s.spaces && kernel in t.spaces
    ensures DirOf(saddr, kernel) % PAGE == 0 && MapOf(saddr, t.ram, kernel) == Identity(flags)
    ensures HeldApart(t, w.held)
  {
    CreatedIsFresh(saddr, kernel, w, bs, t);
    StepKeeps(saddr, w.s, Create(bs, TASK_FLAGS), t);
    assert !Concerns(Create(bs, TASK_FLAGS), kernel);
    HeldAfterCreate(w.s.entries, t.entries, bs, w.held);
    hide Sound, MapOf, DirOf, Identity, T.UserMode;
  }

  lemma HeldAfterCreate(e: Table, f: Table, bs: Space, held: set<nat>)
    requires Grabbed(e, f, bs) && forall b :: b in held ==> b < |e| && !IsFree(e[b])
    ensures forall b :: b in held ==> b < |f| && !IsFree(f[b]) && b !in bs
  {
  }

  lemma StartGood(saddr: Word, kernel: Space, flags: Byte, w: World, bs: Space, x: World)
    requires Good(saddr, kernel, flags, w) && IsRam(x.s.ram) && Next(saddr, kernel, w, Start(bs), x)
    ensures Good(saddr, kernel, flags, x)
  {
    CreatedSpaces(saddr, kernel, flags, w, bs, x.s);
    hide Sound, StepOk, CanStart, Backed, MapOf, DirOf, Identity, T.UserMode, T.Step, T.Shaped;
    hide HeldApart, RecordsApart, Blank;
    StartKernel(w.k, DirOf(saddr, bs));
    StartBacked(saddr, kernel, w, bs, x);
    BlankIsApart(saddr, x.s.spaces);
    assert x.records[|w.records|] == Blank();
  }

  /** The chunk of a failed exec is gone again, and its blocks with it. */
  lemma DestroyedSpaces(saddr: Word, kernel: Space, flags: Byte, c: System, bs: Space, mapped: System, t: System,
                        held: set<nat>)
    requires Sound(saddr, c) && bs in c.spaces && kernel in c.spaces && kernel != bs && HeldApart(c, held)
    requires DirOf(saddr, kernel) % PAGE == 0 && MapOf(saddr, c.ram, kernel) == Identity(flags)
    requires IsRam(mapped.ram) && IsRam(t.ram)
    requires Moves(saddr, c, Operate(bs), mapped) && Moves(saddr, mapped, Destroy(bs), t)
    ensures Sound(saddr, t) && t.spaces == c.spaces - {bs} && MapOf(saddr, t.ram, kernel) == Identity(flags)
    ensures HeldApart(t, held)
  {
    StepKeeps(saddr, c, Operate(bs), mapped);
    SpacesStay(saddr, c, Operate(bs), mapped);
    HeldAfterStep(saddr, c, Operate(bs), mapped, held);
    StepKeeps(saddr, mapped, Destroy(bs), t);
    DestroyEffect(saddr, mapped, bs);
    assert !Concerns(Operate(bs), kernel) && !Concerns(Destroy(bs), kernel);
    hide Sound, MapOf, DirOf, Identity, IsFree;
  }

  /** A kernel step frees nothing it holds. */
  lemma HeldAfterStep(saddr: Word, s: System, a: Action, t: System, held: set<nat>)
    requires Sound(saddr, s) && IsRam(t.ram) && StepOk(saddr, s, a, t) && (a.Take? || a.Operate? || a.Store?)
    requires HeldApart(s, held)
    ensures t.spaces == s.spaces && HeldApart(t, HeldAfter(held, a))
  {
    if a.Take? {
      MarkedKeepsTaken(s.entries, a.start, a.count);
      if a.count > 0 {
        FreeInNoSpace(saddr, s, a.start);
        RunEntryTaken(UnsignedChar, 0, a.count);
      }
    }
    hide Sound, RunEntry, IsChunk, OnlyFrames, SameDirectory;
  }

  /** An exec that fails at the mapping: what it created is gone, what it did not is as it was. */
  lemma FailStartGood(saddr: Word, kernel: Space, flags: Byte, w: World, d: Doing, x: World)
    requires Good(saddr, kernel, flags, w) && IsRam(x.s.ram) && d.FailStart? && Next(saddr, kernel, w, d, x)
    ensures Good(saddr, kernel, flags, x) && x.k == w.k && x.s.spaces == w.s.spaces
  {
    var bs := d.bs;
    FailStartIs(saddr, kernel, flags, w, d, x);
    T.ExecFails(w.k, true, T.MapFails(DirOf(saddr, bs), d.error));
    hide *;
    CreatedSpaces(saddr, kernel, flags, w, bs, d.created);
    DestroyedSpaces(saddr, kernel, flags, d.created, bs, d.mapped, x.s, w.held);
    assert w.s.spaces + {bs} - {bs} == w.s.spaces;
    SameButMemory(saddr, kernel, flags, w, x);
  }

  /** The steps of an exec that fails at the mapping. */
  lemma FailStartIs(saddr: Word, kernel: Space, flags: Byte, w: World, d: Doing, x: World)
    requires Good(saddr, kernel, flags, w) && IsRam(x.s.ram) && d.FailStart? && Next(saddr, kernel, w, d, x)
    ensures Sound(saddr, w.s) && T.UserMode(w.k) && !w.k.halted && kernel in w.s.spaces
    ensures IsRam(d.created.ram) && IsRam(d.mapped.ram) && StepOk(saddr, w.s, Create(d.bs, TASK_FLAGS), d.created)
    ensures Moves(saddr, d.created, Operate(d.bs), d.mapped) && Moves(saddr, d.mapped, Destroy(d.bs), x.s)
    ensures x == w.(k := T.Step(w.k, T.Exec(true, T.MapFails(DirOf(saddr, d.bs), d.error))), s := x.s)
  {
    hide Sound, StepOk, Moves, T.UserMode, T.Step, T.Shaped, MapOf, Identity, DirOf, HeldApart, RecordsApart;
  }

  /** A good state stays good when only memory changes and all chunks stay. */
  lemma SameButMemory(saddr: Word, kernel: Space, flags: Byte, w: World, x: World)
    requires Good(saddr, kernel, flags, w) && x == w.(s := x.s)
    requires Sound(saddr, x.s) && x.s.spaces == w.s.spaces && HeldApart(x.s, w.held) && IsRam(x.s.ram)
    requires DirOf(saddr, kernel) % PAGE == 0 && MapOf(saddr, x.s.ram, kernel) == Identity(flags)
    ensures Good(saddr, kernel, flags, x)
  {
    hide Sound, T.UserMode, MapOf, Identity, DirOf, HeldApart, RecordsApart;
  }

  /** A free by the kernel is a step that spares every chunk. */
  lemma KernelFreeGood(saddr: Word, kernel: Space, flags: Byte, w: World, b: nat, x: World)
    requires Good(saddr, kernel, flags, w) && IsRam(x.s.ram) && Next(saddr, kernel, w, KernelFree(b), x)
    ensures Good(saddr, kernel, flags, x) && StepOk(saddr, w.s, FreeBlock(b), x.s)
  {
    if b !in w.held { FreeInNoSpace(saddr, w.s, b); }
    StepKeeps(saddr, w.s, FreeBlock(b), x.s);
    assert !Concerns(FreeBlock(b), kernel);
    hide Sound, T.UserMode, MapOf, DirOf, Identity, RecordsApart;
  }

  lemma GiveGood(saddr: Word, kernel: Space, flags: Byte, w: World, size: Word, p: Word, x: World)
    requires Good(saddr, kernel, flags, w) && IsRam(x.s.ram) && Next(saddr, kernel, w, Give(size, p), x)
    ensures Good(saddr, kernel, flags, x)
  {
    var c := w.k.current;
    assert w.own[c] != kernel;
    GiveKeeps(saddr, w.s, w.records[c], w.own[c], size, p, x.s, x.records[c]);
    StepKeeps(saddr, w.s, Operate(w.own[c]), x.s);
    HeldAfterStep(saddr, w.s, Operate(w.own[c]), x.s, w.held);
    assert !Concerns(Operate(w.own[c]), kernel);
    hide Sound, Gives, T.UserMode, MapOf, DirOf, Identity, HeldApart, RecordsApart;
  }

  /** process_free by the running program, whatever address it names, spares every chunk. */
  lemma ReturnGood(saddr: Word, kernel: Space, flags: Byte, w: World, p: Word, mid: System, x: World)
    requires Good(saddr, kernel, flags, w) && IsRam(x.s.ram) && Next(saddr, kernel, w, Return(p, mid), x)
    ensures Good(saddr, kernel, flags, x)
  {
    var c := w.k.current;
    var bs := w.own[c];
    assert bs != kernel;
    ReturnKeeps(saddr, w.s, w.records[c], bs, p, mid, x.s, x.records[c]);
    if x.s != w.s {
      StepKeeps(saddr, w.s, Operate(bs), mid);
      assert !Concerns(Operate(bs), kernel);
      var b := AddressToBlock(saddr, p);
      if x.s != mid {
        StepKeeps(saddr, mid, FreeBlock(b), x.s);
        assert !Concerns(FreeBlock(b), kernel);
      }
    }
    hide Sound, Returns, T.UserMode, MapOf, DirOf, Identity, RecordsApart;
  }

  lemma TrapGood(saddr: Word, kernel: Space, flags: Byte, w: World, e: T.Event, x: World)
    requires Good(saddr, kernel, flags, w) && IsRam(x.s.ram) && Next(saddr, kernel, w, Trap(e), x)
    ensures Good(saddr, kernel, flags, x)
  {
    T.StepKeepsUserMode(w.k, e);
    PlainKeepsTasks(w.k, e);
    assert x.k.current == w.k.current;
    hide Sound, T.UserMode, T.Step, MapOf, RecordsApart;
  }

  lemma MemoryGood(saddr: Word, kernel: Space, flags: Byte, w: World, a: Action, x: World)
    requires Good(saddr, kernel, flags, w) && IsRam(x.s.ram) && Next(saddr, kernel, w, Memory(a), x)
    ensures Good(saddr, kernel, flags, x)
  {
    StepKeeps(saddr, w.s, a, x.s);
    HeldAfterStep(saddr, w.s, a, x.s, w.held);
    hide Sound, StepOk, T.UserMode, MapOf, RecordsApart, HeldApart;
  }

  lemma NextGood(saddr: Word, kernel: Space, flags: Byte, w: World, d: Doing, x: World)
    requires Good(saddr, kernel, flags, w) && IsRam(x.s.ram) && Next(saddr, kernel, w, d, x)
    ensures Good(saddr, kernel, flags, x)
  {
    hide *;
    match d {
      case Trap(e) => TrapGood(saddr, kernel, flags, w, e, x);
      case Memory(a) => MemoryGood(saddr, kernel, flags, w, a, x);
      case KernelFree(b) => KernelFreeGood(saddr, kernel, flags, w, b, x);
      case Give(size, p) => GiveGood(saddr, kernel, flags, w, size, p, x);
      case Return(p, unmapped) => ReturnGood(saddr, kernel, flags, w, p, unmapped, x);
      case Start(bs) => StartGood(saddr, kernel, flags, w, bs, x);
      case FailStart(bs, error, created, mapped) => FailStartGood(saddr, kernel, flags, w, d, x);
    }
  }

  lemma SpacesStay(saddr: Word, s: System, a: Action, t: System)
    requires Sound(saddr, s) && IsRam(t.ram) && StepOk(saddr, s, a, t) && !a.Create? && !a.Destroy?
    ensures t.spaces == s.spaces
  {
  }

  /** A trap that creates no directory keeps the tasks and the kernel's directory. */
  lemma PlainKeepsTasks(k: T.Kernel, e: T.Event)
    requires T.Shaped(k) && Plain(e)
    ensures T.Step(k, e).tasks == k.tasks && T.Step(k, e).kdir == k.kdir
  {
  }

  // --- every run --------------------------------------------------------------------------

  ghost predicate Run(saddr: Word, kernel: Space, ws: seq<World>, ds: seq<Doing>) {
    && |ws| == |ds| + 1
    && forall i :: 0 <= i < |ds| ==> Follows(saddr, kernel, ws[i], ds[i], ws[i + 1])
  }

  ghost predicate Follows(saddr: Word, kernel: Space, w: World, d: Doing, x: World) {
    Sound(saddr, w.s) && T.Shaped(w.k) ==> IsRam(x.s.ram) && Next(saddr, kernel, w, d, x)
  }

  /** Over every run of traps, execs, kernel allocations and frees, and allocations and frees of
      the running program: no chunk loses a block, all directories are different, the active one
      is that of the current task, and the kernel's still maps every page to itself. Nothing is
      assumed about the directories execs create or the addresses programs free. */
  lemma {:induction false} RunStaysGood(saddr: Word, kernel: Space, flags: Byte, ws: seq<World>, ds: seq<Doing>,
                                        n: nat)
    requires Run(saddr, kernel, ws, ds) && Good(saddr, kernel, flags, ws[0]) && n <= |ds|
    ensures Good(saddr, kernel, flags, ws[n]) && T.DirectoriesApart(ws[n].k)
    ensures ws[n].k.active == DirOf(saddr, ws[n].own[ws[n].k.current])
    decreases n
  {
    if n > 0 {
      RunStaysGood(saddr, kernel, flags, ws, ds, n - 1);
      assert Follows(saddr, kernel, ws[n - 1], ds[n - 1], ws[n]);
      NextGood(saddr, kernel, flags, ws[n - 1], ds[n - 1], ws[n]);
    }
    BackedApart(saddr, kernel, ws[n]);
    hide Sound, Run, Follows, HeldApart, RecordsApart, MapOf, Identity, T.DirectoriesApart;
  }

  // --- isolation without premises on frees -------------------------------------------------

  /** The step is about the space: the kernel operates on it, or the running program, whose
      space it is, gets memory or gives it back. */
  predicate Touches(w: World, d: Doing, bs: Space) {
    match d
    case Memory(a) => Concerns(a, bs)
    case Give(_, _) => HasCurrent(w) && w.own[w.k.current] == bs
    case Return(_, _) => HasCurrent(w) && w.own[w.k.current] == bs
    case _ => false
  }

  ghost predicate SameSpace(saddr: Word, s: System, t: System, bs: Space) {
    && IsRam(s.ram) && IsRam(t.ram) && DirOf(saddr, bs) % PAGE == 0
    && bs in t.spaces && MapOf(saddr, t.ram, bs) == MapOf(saddr, s.ram, bs)
  }

  lemma StepSame(saddr: Word, s: System, a: Action, t: System, bs: Space)
    requires Sound(saddr, s) && IsRam(t.ram) && StepOk(saddr, s, a, t) && bs in s.spaces && !Concerns(a, bs)
    ensures SameSpace(saddr, s, t, bs)
  {
    StepKeeps(saddr, s, a, t);
    assert IsRam(s.ram);
    hide Sound, StepOk, MapOf, DirOf;
  }

  lemma SameTwice(saddr: Word, s: System, m: System, t: System, bs: Space)
    requires SameSpace(saddr, s, m, bs) && SameSpace(saddr, m, t, bs)
    ensures SameSpace(saddr, s, t, bs)
  {
    hide MapOf, DirOf;
  }

  lemma SameAtOnce(saddr: Word, s: System, bs: Space)
    requires Sound(saddr, s) && bs in s.spaces
    ensures SameSpace(saddr, s, s, bs)
  {
    PlacedParts(saddr, s.entries, s.ram, bs);
    hide MapOf;
  }

  /** Creating and destroying a chunk of a failed exec leaves every other map alone. */
  lemma FailStartSame(saddr: Word, kernel: Space, flags: Byte, w: World, d: Doing, x: World, bs: Space)
    requires Good(saddr, kernel, flags, w) && IsRam(x.s.ram) && d.FailStart? && Next(saddr, kernel, w, d, x)
    requires bs in w.s.spaces
    ensures SameSpace(saddr, w.s, x.s, bs)
  {
    var c := Create(d.bs, TASK_FLAGS);
    CreatedSpaces(saddr, kernel, flags, w, d.bs, d.created);
    StepSame(saddr, w.s, c, d.created, bs);
    assert bs != d.bs && bs in d.created.spaces;
    StepKeeps(saddr, d.created, Operate(d.bs), d.mapped);
    StepSame(saddr, d.created, Operate(d.bs), d.mapped, bs);
    StepSame(saddr, d.mapped, Destroy(d.bs), x.s, bs);
    hide Sound, StepOk, MapOf, DirOf;
    SameTwice(saddr, w.s, d.created, d.mapped, bs);
    SameTwice(saddr, w.s, d.mapped, x.s, bs);
  }

  /** What a program gives back is unmapped in its own space only. */
  lemma ReturnSame(saddr: Word, kernel: Space, flags: Byte, w: World, p: Word, mid: System, x: World, bs: Space)
    requires Good(saddr, kernel, flags, w) && IsRam(x.s.ram) && Next(saddr, kernel, w, Return(p, mid), x)
    requires bs in w.s.spaces && bs != w.own[w.k.current]
    ensures SameSpace(saddr, w.s, x.s, bs)
  {
    var c := w.k.current;
    ReturnKeeps(saddr, w.s, w.records[c], w.own[c], p, mid, x.s, x.records[c]);
    SameAtOnce(saddr, w.s, bs);
    if x.s != w.s {
      StepSame(saddr, w.s, Operate(w.own[c]), mid, bs);
      if x.s != mid {
        var b := AddressToBlock(saddr, p);
        StepSame(saddr, mid, FreeBlock(b), x.s, bs);
        SameTwice(saddr, w.s, mid, x.s, bs);
      }
    }
  }

  lemma NextIsolates(saddr: Word, kernel: Space, flags: Byte, w: World, d: Doing, x: World, bs: Space)
    requires Good(saddr, kernel, flags, w) && IsRam(x.s.ram) && Next(saddr, kernel, w, d, x)
    requires bs in w.s.spaces && !Touches(w, d, bs)
    ensures SameSpace(saddr, w.s, x.s, bs)
  {
    match d {
      case Trap(e) => SameAtOnce(saddr, w.s, bs);
      case Memory(a) => StepSame(saddr, w.s, a, x.s, bs);
      case KernelFree(b) =>
        KernelFreeGood(saddr, kernel, flags, w, b, x);
        StepSame(saddr, w.s, FreeBlock(b), x.s, bs);
      case Give(size, p) => StepSame(saddr, w.s, Operate(w.own[w.k.current]), x.s, bs);
      case Return(p, unmapped) => ReturnSame(saddr, kernel, flags, w, p, unmapped, x, bs);
      case Start(n) => StepSame(saddr, w.s, Create(n, TASK_FLAGS), x.s, bs);
      case FailStart(_, _, _, _) => FailStartSame(saddr, kernel, flags, w, d, x, bs);
    }
  }

  ghost predicate NeverTouched(ws: seq<World>, ds: seq<Doing>, bs: Space, n: nat)
    requires n <= |ds| && |ws| == |ds| + 1
  {
    forall i :: 0 <= i < n ==> !Touches(ws[i], ds[i], bs)
  }

  /** Over every run a space that is not operated on, and whose program is not the running one
      when it asks for or returns memory, keeps its whole map. */
  lemma {:induction false} RunIsolatesTasks(saddr: Word, kernel: Space, flags: Byte, ws: seq<World>, ds: seq<Doing>,
                                            bs: Space, n: nat)
    requires Run(saddr, kernel, ws, ds) && Good(saddr, kernel, flags, ws[0]) && n <= |ds|
    requires bs in ws[0].s.spaces && NeverTouched(ws, ds, bs, n)
    ensures SameSpace(saddr, ws[0].s, ws[n].s, bs)
    decreases n
  {
    if n == 0 {
      SameAtOnce(saddr, ws[0].s, bs);
    } else {
      RunIsolatesTasks(saddr, kernel, flags, ws, ds, bs, n - 1);
      RunStaysGood(saddr, kernel, flags, ws, ds, n - 1);
      assert Follows(saddr, kernel, ws[n - 1], ds[n - 1], ws[n]) && !Touches(ws[n - 1], ds[n - 1], bs);
      hide Next, Run, NeverTouched, Touches, MapOf, Identity, DirOf, RecordsSafe, HeldApart, Backed;
      NextIsolates(saddr, kernel, flags, ws[n - 1], ds[n - 1], ws[n], bs);
      SameTwice(saddr, ws[0].s, ws[n - 1].s, ws[n].s, bs);
    }
  }

  /** Booting gets there: from a memory with the kernel's chunk alone, the shell's chunk. */
  lemma BootIsGood(saddr: Word, kernel: Space, flags: Byte, s: System, shell: Space, t: System)
    requires Sound(saddr, s) && s.spaces == {kernel} && DirOf(saddr, kernel) % PAGE == 0
    requires MapOf(saddr, s.ram, kernel) == Identity(flags)
    requires IsRam(t.ram) && StepOk(saddr, s, Create(shell, TASK_FLAGS), t)
    ensures var k := T.Boot(DirOf(saddr, kernel), T.Loads(DirOf(saddr, shell)));
      Good(saddr, kernel, flags, World(k, t, [shell], [Blank()], {}))
  {
    NewDirectoryIsNew(saddr, s, t, shell, TASK_FLAGS);
    StepKeeps(saddr, s, Create(shell, TASK_FLAGS), t);
    T.BootReachesUserMode(DirOf(saddr, kernel), T.Loads(DirOf(saddr, shell)));
    BootTasks(DirOf(saddr, kernel), DirOf(saddr, shell));
    BlankIsApart(saddr, t.spaces);
    assert t.spaces == {kernel} + {shell};
    hide Sound, StepOk, MapOf, DirOf, T.UserMode, T.Boot, RecordsApart;
  }

  lemma BootTasks(kdir: Word, directory: Word)
    ensures var k := T.Boot(kdir, T.Loads(directory));
      k.kdir == kdir && |k.tasks| == 1 && k.current == 0 && k.tasks[0].directory == directory
  {
    assert T.FreeSlotFrom(T.BeforeShell(kdir).processes, 0) == 0;
  }
}
