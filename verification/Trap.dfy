/** Traps and exec as a state machine: which directory is active, which task and process
    are current, and which keyboard ring each key goes to and comes from. */
module Trap {
  import opened Words
  import opened Keyboard

  const MAX_PROCESSES: nat := 12
  const PAGE_FAULT: nat := 14
  const KEYBOARD_INTERRUPT: nat := 0x21

  type Vector = n: nat | n < 512

  datatype Option<T> = None | Some(value: T)

  datatype Task = Task(process: nat, directory: Word)

  datatype Process = Process(task: nat, ring: Ring)

  /** Tasks are kept in list order and named by their position: the loader only ever
      removes the newest. -1 stands for a null pointer. */
  datatype Kernel = Kernel(kdir: Word, active: Word, tasks: seq<Task>, current: int,
                           currentProcess: int, processes: seq<Option<Process>>, halted: bool)

  /** What reading, creating and mapping a program image came to. */
  datatype Load = FileFails(error: int) | MapFails(directory: Word, error: int) | Loads(directory: Word)

  datatype Event =
    | Interrupt(number: Vector, key: Byte)
    | GetKey
    | OtherSyscall(command: int)
    | Exec(copied: bool, load: Load)

  // --- the parts of the handlers as functions -------------------------------------------

  predicate Shaped(k: Kernel) {
    && |k.processes| == MAX_PROCESSES
    && (forall p :: 0 <= p < MAX_PROCESSES && k.processes[p].Some? ==> IsRing(k.processes[p].value.ring))
  }

  function KernelPaged(k: Kernel): (l: Kernel)
    ensures Shaped(k) ==> Shaped(l)
  {
    k.(active := k.kdir)
  }

  function TaskSwitched(k: Kernel, t: int): (l: Kernel)
    ensures Shaped(k) ==> Shaped(l)
  {
    if 0 <= t < |k.tasks| then k.(current := t, active := k.tasks[t].directory) else k
  }

  /** task_page: back to the current task's directory. */
  function TaskPaged(k: Kernel): (l: Kernel)
    ensures Shaped(k) ==> Shaped(l)
  {
    TaskSwitched(k, k.current)
  }

  function FreeSlotFrom(ps: seq<Option<Process>>, i: nat): (s: int)
    requires i <= |ps|
    ensures s == -1 || i <= s < |ps|
    ensures s >= 0 ==> ps[s].None? && forall j :: i <= j < s ==> ps[j].Some?
    ensures s < 0 ==> forall j :: i <= j < |ps| ==> ps[j].Some?
    decreases |ps| - i
  {
    if i == |ps| then -1 else if ps[i].None? then i else FreeSlotFrom(ps, i + 1)
  }

  /** The task list and current task after task_new. */
  function TaskAdded(k: Kernel, t: Task): Kernel {
    k.(tasks := k.tasks + [t], current := if k.tasks == [] then 0 else k.current)
  }

  /** After freeing the newest task; if it was current, the head follows. */
  function NewestRemoved(k: Kernel): Kernel
    requires k.tasks != []
  {
    var n := |k.tasks| - 1;
    k.(tasks := k.tasks[..n], current := if k.current != n then k.current else if n > 0 then 0 else -1)
  }

  function WithProcess(k: Kernel, p: nat, process: Process): Kernel {
    if p < |k.processes| then k.(processes := k.processes[p := Some(process)]) else k
  }

  /** The state with the ring of process p replaced. */
  function WithRing(k: Kernel, p: int, ring: Ring): Kernel {
    if 0 <= p < |k.processes| && k.processes[p].Some?
    then WithProcess(k, p, Process(k.processes[p].value.task, ring)) else k
  }

  function RingOf(k: Kernel, p: int): Ring {
    if 0 <= p < |k.processes| && k.processes[p].Some? then k.processes[p].value.ring else EmptyRing()
  }

  function TaskOf(k: Kernel, p: int): int {
    if 0 <= p < |k.processes| && k.processes[p].Some? then k.processes[p].value.task else -1
  }

  datatype LoadResult = LoadResult(kernel: Kernel, ret: int)

  /** process_load: state and result, a slot number or a negative error. */
  function Loaded(k: Kernel, load: Load): (l: LoadResult)
    ensures Shaped(k) ==> Shaped(l.kernel)
  {
    var slot := FreeSlotFrom(k.processes, 0);
    if slot < 0 then LoadResult(k, -ENOMEM)
    else match load
      case FileFails(error) => LoadResult(k, if error < 0 then error else -EIO)
      case MapFails(directory, error) =>
        LoadResult(NewestRemoved(TaskAdded(k, Task(slot, directory))), if error < 0 then error else -EINVAL)
      case Loads(directory) =>
        LoadResult(WithProcess(TaskAdded(k, Task(slot, directory)), slot, Process(|k.tasks|, EmptyRing())), slot)
  }

  /** process_load_switch. */
  function LoadedSwitched(k: Kernel, load: Load): (l: LoadResult)
    ensures Shaped(k) ==> Shaped(l.kernel)
  {
    var l := Loaded(k, load);
    if l.ret < 0 then l else LoadResult(l.kernel.(currentProcess := l.ret), l.ret)
  }

  /** What process_load answers: the lowest unused slot for a program that loads; -ENOMEM when
      every slot is used; otherwise the negative error of the step that failed. */
  ghost predicate Answers(k: Kernel, load: Load, ret: int)
    requires |k.processes| == 12
  {
    if forall p :: 0 <= p < 12 ==> k.processes[p].Some? then ret == -ENOMEM
    else if load.Loads? then
      0 <= ret < 12 && k.processes[ret].None? && forall p :: 0 <= p < ret ==> k.processes[p].Some?
    else ret < 0 && (load.error < 0 ==> ret == load.error)
  }

  lemma LoadAnswers(k: Kernel, load: Load)
    requires |k.processes| == 12
    ensures Answers(k, load, Loaded(k, load).ret) && LoadedSwitched(k, load).ret == Loaded(k, load).ret
  {
  }

  /** keyboard_push acts on the ring of current_process. */
  function KeyPushed(k: Kernel, c: Byte): Kernel
    requires Shaped(k)
  {
    WithRing(k, k.currentProcess, Pushed(RingOf(k, k.currentProcess), c))
  }

  /** Process whose ring keyboard_pop reads: the current task's. */
  function PopProcess(k: Kernel): int {
    if 0 <= k.current < |k.tasks| then k.tasks[k.current].process else -1
  }

  function KeyPopped(k: Kernel): Kernel
    requires Shaped(k)
  {
    WithRing(k, PopProcess(k), Popped(RingOf(k, PopProcess(k))).0)
  }

  /** What keyboard_pop returns. */
  function KeyRead(k: Kernel): Byte
    requires Shaped(k)
  {
    Popped(RingOf(k, PopProcess(k))).1
  }

  function Interrupted(k: Kernel, number: Vector, key: Byte): (l: Kernel)
    requires Shaped(k)
    ensures Shaped(l)
  {
    if number == PAGE_FAULT then k.(halted := true)
    else if number == KEYBOARD_INTERRUPT && key != 0 then TaskPaged(TaskPaged(KeyPushed(KernelPaged(k), key)))
    else TaskPaged(KernelPaged(k))
  }

  /** Loading a program and, if that went well, entering its task. */
  function Entered(k: Kernel, load: Load): (l: Kernel)
    ensures Shaped(k) ==> Shaped(l)
  {
    var l := LoadedSwitched(k, load);
    if l.ret < 0 then l.kernel else TaskSwitched(l.kernel, TaskOf(l.kernel, l.ret))
  }

  /** What a system call does under the kernel's directory. */
  function Commanded(k: Kernel, e: Event): (l: Kernel)
    requires Shaped(k) && !e.Interrupt?
    ensures Shaped(l)
  {
    match e
    case GetKey => KeyPopped(k)
    case OtherSyscall(command) => k
    case Exec(copied, load) => if copied then Entered(k, load) else k
  }

  /** The call enters a new program instead of returning. */
  predicate Enters(k: Kernel, e: Event) { e.Exec? && e.copied && LoadedSwitched(k, e.load).ret >= 0 }

  /** One trap taken from user mode, up to the return to user mode. */
  function Step(k: Kernel, e: Event): (l: Kernel)
    requires Shaped(k)
    ensures Shaped(l)
  {
    if k.halted then k
    else if e.Interrupt? then Interrupted(k, e.number, e.key)
    else
      var p := KernelPaged(k);
      if Enters(p, e) then Commanded(p, e) else TaskPaged(Commanded(p, e))
  }

  // --- the invariant of user mode -----------------------------------------------------------

  /** Tasks and processes name each other. */
  ghost predicate Paired(k: Kernel) {
    && (forall t :: 0 <= t < |k.tasks| ==>
          k.tasks[t].process < MAX_PROCESSES && TaskOf(k, k.tasks[t].process) == t)
    && (forall p :: 0 <= p < |k.processes| && k.processes[p].Some? ==>
          k.processes[p].value.task < |k.tasks| && k.tasks[k.processes[p].value.task].process == p)
  }

  /** All directories, the kernel's included, are different. */
  predicate DirectoriesApart(k: Kernel) {
    && (forall t :: 0 <= t < |k.tasks| ==> k.tasks[t].directory != k.kdir)
    && (forall t, u :: 0 <= t < u < |k.tasks| ==> k.tasks[t].directory != k.tasks[u].directory)
  }

  /** The current task is the newest, the active directory is its own, and current_process is
      its process. */
  ghost predicate InUser(k: Kernel) {
    && k.tasks != [] && k.current == |k.tasks| - 1
    && k.active == k.tasks[k.current].directory
    && k.currentProcess == k.tasks[k.current].process
  }

  ghost predicate UserMode(k: Kernel) {
    Shaped(k) && Paired(k) && InUser(k)
  }

  /** A key pushed while in user mode goes to the ring the program pops from. */
  lemma PushAndPopShareTheRing(k: Kernel, c: Byte)
    requires UserMode(k)
    ensures k.currentProcess == PopProcess(k) && k.processes[PopProcess(k)].Some?
    ensures RingOf(KeyPushed(k, c), PopProcess(k)) == Pushed(RingOf(k, PopProcess(k)), c)
    ensures forall p :: p != PopProcess(k) ==>
      RingOf(KeyPushed(k, c), p) == RingOf(k, p) && RingOf(KeyPopped(k), p) == RingOf(k, p)
  {
  }

  lemma RingUpdateKeepsUserMode(k: Kernel, p: nat, r: Ring)
    requires UserMode(k) && p < MAX_PROCESSES && k.processes[p].Some? && IsRing(r)
    ensures UserMode(WithRing(k, p, r))
  {
  }

  lemma KernelPagedReturns(k: Kernel)
    requires UserMode(k)
    ensures TaskPaged(KernelPaged(k)) == k
  {
  }

  /** A failed mapping leaves the tasks and the current task as they were. */
  lemma MapFailureUndone(k: Kernel, t: Task)
    requires k.tasks != [] && 0 <= k.current < |k.tasks|
    ensures NewestRemoved(TaskAdded(k, t)) == k
  {
    assert (k.tasks + [t])[..|k.tasks|] == k.tasks;
  }

  /** A successful exec makes the new process current and leaves the others alone. */
  lemma ExecSucceeds(k: Kernel, directory: Word)
    requires UserMode(k) && !k.halted
    requires FreeSlotFrom(k.processes, 0) >= 0
    ensures var l := Step(k, Exec(true, Loads(directory)));
      var slot := FreeSlotFrom(k.processes, 0);
      && UserMode(l) && l.tasks == k.tasks + [Task(slot, directory)] && l.current == |k.tasks|
      && l.currentProcess == slot && l.active == directory
      && l.processes == k.processes[slot := Some(Process(|k.tasks|, EmptyRing()))]
      && l.kdir == k.kdir && !l.halted
  {
    var l := Step(k, Exec(true, Loads(directory)));
    var slot := FreeSlotFrom(k.processes, 0);
    assert l.tasks == k.tasks + [Task(slot, directory)];
    assert Shaped(l);
    forall t | 0 <= t < |l.tasks|
      ensures l.tasks[t].process < MAX_PROCESSES && l.processes[l.tasks[t].process].Some?
      ensures l.processes[l.tasks[t].process].value.task == t
    {
      assert t < |k.tasks| ==> l.tasks[t] == k.tasks[t];
    }
  }

  /** An exec that fails, on the name, the file or the mapping, changes nothing. */
  lemma ExecFails(k: Kernel, copied: bool, load: Load)
    requires UserMode(k) && !k.halted
    requires !copied || !load.Loads? || FreeSlotFrom(k.processes, 0) < 0
    ensures Step(k, Exec(copied, load)) == k
  {
    var a := KernelPaged(k);
    if load.MapFails? {
      var slot := FreeSlotFrom(k.processes, 0);
      MapFailureUndone(a, Task(if slot < 0 then 0 else slot, load.directory));
    }
  }

  lemma StepKeepsUserMode(k: Kernel, e: Event)
    requires UserMode(k)
    ensures UserMode(Step(k, e))
  {
    if !k.halted {
      var p := PopProcess(k);
      match e
      case Interrupt(number, key) =>
        KernelPagedReturns(k);
        if number == KEYBOARD_INTERRUPT && key != 0 { PushStep(k, number, key); }
      case GetKey => PopStep(k);
      case OtherSyscall(command) => KernelPagedReturns(k);
      case Exec(copied, load) =>
        if copied && load.Loads? && FreeSlotFrom(k.processes, 0) >= 0 {
          ExecSucceeds(k, load.directory);
        } else {
          ExecFails(k, copied, load);
        }
    }
  }

  /** A key press changes one ring, that of the process in front. */
  lemma PushStep(k: Kernel, number: Vector, key: Byte)
    requires UserMode(k) && !k.halted && number == KEYBOARD_INTERRUPT && key != 0
    ensures var p := PopProcess(k);
      && 0 <= p < MAX_PROCESSES && k.processes[p].Some?
      && Step(k, Interrupt(number, key)) == WithRing(k, p, Pushed(RingOf(k, p), key))
      && UserMode(Step(k, Interrupt(number, key)))
  {
    RingUpdateKeepsUserMode(k, PopProcess(k), Pushed(RingOf(k, PopProcess(k)), key));
  }

  lemma PopStep(k: Kernel)
    requires UserMode(k) && !k.halted
    ensures var p := PopProcess(k);
      && 0 <= p < MAX_PROCESSES && k.processes[p].Some?
      && Step(k, GetKey) == WithRing(k, p, Popped(RingOf(k, p)).0)
      && UserMode(Step(k, GetKey))
  {
    RingUpdateKeepsUserMode(k, PopProcess(k), Popped(RingOf(k, PopProcess(k))).0);
  }

  /** What every trap but an exec does to the state: a page fault halts; a key press and a read
      change the ring of the program in front; everything else changes nothing. */
  lemma TrapEffect(k: Kernel, e: Event)
    requires UserMode(k) && !k.halted && !e.Exec?
    ensures var p := k.tasks[|k.tasks| - 1].process;
      && 0 <= p < |k.processes| && k.processes[p].Some?
      && var process := k.processes[p].value;
      Step(k, e) == match e
        case Interrupt(number, key) =>
          if number == 14 then k.(halted := true)
          else if number == 0x21 && key != 0 then
            k.(processes := k.processes[p := Some(Process(process.task, Pushed(process.ring, key)))])
          else k
        case GetKey => k.(processes := k.processes[p := Some(Process(process.task, Popped(process.ring).0))])
        case _ => k
  {
    KernelPagedReturns(k);
    if e.Interrupt? {
      if e.number == KEYBOARD_INTERRUPT && e.key != 0 { PushStep(k, e.number, e.key); }
    } else if e.GetKey? {
      PopStep(k);
    }
    hide Pushed, Popped;
  }

  /** The machine halts at a page fault only, and then for good. */
  lemma HaltsAtFaults(k: Kernel, e: Event)
    requires UserMode(k)
    ensures Step(k, e).halted <==> k.halted || (e.Interrupt? && e.number == 14)
    ensures k.halted ==> Step(k, e) == k
  {
    if !k.halted && !e.Exec? { TrapEffect(k, e); }
    if !k.halted && e.Exec? { StepExecRuns(k, e); }
  }

  lemma StepExecRuns(k: Kernel, e: Event)
    requires UserMode(k) && !k.halted && e.Exec?
    ensures !Step(k, e).halted
  {
    if e.copied && e.load.Loads? && FreeSlotFrom(k.processes, 0) >= 0 {
      ExecSucceeds(k, e.load.directory);
    } else {
      ExecFails(k, e.copied, e.load);
    }
  }

  // --- boot and every run ---------------------------------------------------------------------

  /** After the kernel's own directory is loaded, before any process. */
  function BeforeShell(kdir: Word): Kernel {
    Kernel(kdir, kdir, [], -1, -1, seq(MAX_PROCESSES, _ => None), false)
  }

  /** Loading the shell and running the first task; a failed load panics. */
  function Boot(kdir: Word, load: Load): (k: Kernel)
    ensures Shaped(k)
  {
    var l := LoadedSwitched(BeforeShell(kdir), load);
    if l.ret < 0 then l.kernel.(halted := true) else TaskSwitched(l.kernel, 0)
  }

  lemma BootReachesUserMode(kdir: Word, load: Load)
    ensures Boot(kdir, load).halted <==> !load.Loads?
    ensures load.Loads? ==>
      UserMode(Boot(kdir, load)) && Boot(kdir, load).currentProcess == 0
    ensures load.Loads? ==>
      && Boot(kdir, load).tasks == [Task(0, load.directory)] && Boot(kdir, load).kdir == kdir
      && forall p :: 0 < p < 12 ==> Boot(kdir, load).processes[p].None?
  {
    var k := BeforeShell(kdir);
    assert FreeSlotFrom(k.processes, 0) == 0;
    if load.Loads? {
      assert k.tasks + [Task(0, load.directory)] == [Task(0, load.directory)];
    }
  }

  ghost function Run(k: Kernel, es: seq<Event>): Kernel
    requires Shaped(k)
    decreases |es|
  {
    if es == [] then k else Run(Step(k, es[0]), es[1..])
  }

  /** In every state reachable from user mode by any interleaving of interrupts, system
      calls and execs, succeeding or failing, user mode is well formed again. */
  lemma {:induction false} RunStaysInUserMode(k: Kernel, es: seq<Event>)
    requires UserMode(k)
    ensures UserMode(Run(k, es))
    decreases |es|
  {
    if es != [] {
      StepKeepsUserMode(k, es[0]);
      RunStaysInUserMode(Step(k, es[0]), es[1..]);
    }
  }

  // --- what each process reads from the keyboard ------------------------------------------------

  /** The keyboard operation an event performs on the ring of process p. */
  function KeyOp(k: Kernel, e: Event, p: nat): seq<Op> {
    if k.halted then []
    else match e
      case Interrupt(number, key) =>
        if number == KEYBOARD_INTERRUPT && key != 0 && k.currentProcess == p then [Push(key)] else []
      case GetKey => if PopProcess(k) == p then [Pop] else []
      case _ => []
  }

  /** Keys typed while p was in front, and p's reads, in order. */
  ghost function KeyOps(k: Kernel, es: seq<Event>, p: nat): seq<Op>
    requires Shaped(k)
    decreases |es|
  {
    if es == [] then [] else KeyOp(k, es[0], p) + KeyOps(Step(k, es[0]), es[1..], p)
  }

  /** What p's reads returned. */
  ghost function Delivered(k: Kernel, es: seq<Event>, p: nat): seq<Byte>
    requires Shaped(k)
    decreases |es|
  {
    if es == [] then []
    else
      (if !k.halted && es[0].GetKey? && PopProcess(k) == p then [KeyRead(k)] else [])
      + Delivered(Step(k, es[0]), es[1..], p)
  }

  lemma RunLast(r: Ring, front: seq<Op>, op: Op)
    requires IsRing(r)
    ensures var s := Keyboard.Run(r, front);
      Keyboard.Run(r, front + [op]) == match op
        case Push(c) => (Pushed(s.0, c), s.1)
        case Pop => (Popped(s.0).0, s.1 + [Popped(s.0).1])
  {
    var ops := front + [op];
    assert ops[..|ops| - 1] == front && ops[|ops| - 1] == op;
    hide Pushed, Popped;
  }

  lemma RunOne(r: Ring, op: Op)
    requires IsRing(r)
    ensures Keyboard.Run(r, [op]) == match op
      case Push(c) => (Pushed(r, c), [])
      case Pop => (Popped(r).0, [Popped(r).1])
  {
    assert Keyboard.Run(r, []) == (r, []);
    assert [] + [op] == [op];
    var c := Popped(r).1;
    assert [] + [c] == [c];
    hide Pushed, Popped, Keyboard.Run;
    RunLast(r, [], op);
  }

  /** Runs of one ring compose. */
  lemma {:induction false} RunConcat(r: Ring, a: seq<Op>, b: seq<Op>)
    requires IsRing(r)
    ensures var s := Keyboard.Run(r, a);
      Keyboard.Run(r, a + b) == (Keyboard.Run(s.0, b).0, s.1 + Keyboard.Run(s.0, b).1)
    decreases |b|
  {
    var s := Keyboard.Run(r, a);
    if b == [] {
      assert a + b == a;
      assert Keyboard.Run(s.0, b) == (s.0, []);
      assert s.1 + [] == s.1;
    } else {
      hide Pushed, Popped, Keyboard.Run;
      var front, op := b[..|b| - 1], b[|b| - 1];
      assert b == front + [op] && a + b == (a + front) + [op];
      RunConcat(r, a, front);
      RunLast(r, a + front, op);
      RunLast(s.0, front, op);
      var f := Keyboard.Run(s.0, front);
      var x := Popped(f.0).1;
      assert (s.1 + f.1) + [x] == s.1 + (f.1 + [x]);
    }
  }

  lemma StepRing(k: Kernel, e: Event, p: nat)
    requires UserMode(k) && p < MAX_PROCESSES
    ensures var ops := KeyOp(k, e, p);
      && RingOf(Step(k, e), p) == Keyboard.Run(RingOf(k, p), ops).0
      && (if !k.halted && e.GetKey? && PopProcess(k) == p then [KeyRead(k)] else [])
           == Keyboard.Run(RingOf(k, p), ops).1
  {
    var r := RingOf(k, p);
    assert IsRing(r);
    assert Keyboard.Run(r, []) == (r, []);
    if !k.halted {
      match e
      case Interrupt(number, key) =>
        KernelPagedReturns(k);
        RunOne(r, Push(key));
        if number == KEYBOARD_INTERRUPT && key != 0 { PushStep(k, number, key); }
      case GetKey =>
        PopStep(k);
        RunOne(r, Pop);
      case OtherSyscall(command) => KernelPagedReturns(k);
      case Exec(copied, load) =>
        if copied && load.Loads? && FreeSlotFrom(k.processes, 0) >= 0 {
          ExecSucceeds(k, load.directory);
        } else {
          ExecFails(k, copied, load);
        }
    }
  }

  /** End to end: over any run, what process p reads is what its own ring gives for the
      keys typed while p was in front, whatever the other processes did in between. */
  lemma {:induction false} RunServesEachProcess(k: Kernel, es: seq<Event>, p: nat)
    requires UserMode(k) && p < MAX_PROCESSES
    ensures RingOf(Run(k, es), p) == Keyboard.Run(RingOf(k, p), KeyOps(k, es, p)).0
    ensures Delivered(k, es, p) == Keyboard.Run(RingOf(k, p), KeyOps(k, es, p)).1
    decreases |es|
  {
    if es != [] {
      var l := Step(k, es[0]);
      StepKeepsUserMode(k, es[0]);
      StepRing(k, es[0], p);
      RunServesEachProcess(l, es[1..], p);
      RunConcat(RingOf(k, p), KeyOp(k, es[0], p), KeyOps(l, es[1..], p));
    }
  }

  /** Hence, from boot and with at most 1024 keys waiting, every process reads its keys in
      the order they were typed to it, and zero exactly when none is waiting. */
  lemma KeysArriveInOrder(kdir: Word, directory: Word, es: seq<Event>, p: nat)
    requires p < MAX_PROCESSES
    requires WithinCapacity([], KeyOps(Boot(kdir, Loads(directory)), es, p))
    ensures var k := Boot(kdir, Loads(directory));
      Delivered(k, es, p) == QueueRun([], KeyOps(k, es, p)).1
  {
    var k := Boot(kdir, Loads(directory));
    BootReachesUserMode(kdir, Loads(directory));
    RunServesEachProcess(k, es, p);
    assert RingOf(k, p) == EmptyRing() by { BootRings(kdir, directory, p); }
    EmptyRepresents();
    RunRefinesQueue(EmptyRing(), [], KeyOps(k, es, p));
  }

  lemma BootRings(kdir: Word, directory: Word, p: nat)
    ensures RingOf(Boot(kdir, Loads(directory)), p) == EmptyRing()
  {
    assert FreeSlotFrom(BeforeShell(kdir).processes, 0) == 0;
  }
}
