/** The trap handlers as they run, field by field and over the linked list of tasks, each
    proved to be its part of the step function of the state machine. */
module TrapHandlers {
  import opened Words
  import opened Keyboard
  import opened Trap
  import opened TaskLink
  import L = TaskList

  /** A process: its task and its keyboard ring. */
  datatype Slot = Slot(task: L.Task, ring: Ring)

  /** Position of a task in the list, or the length of the list. */
  function IndexOf(order: seq<L.Task>, t: L.Task): (i: nat)
    ensures i <= |order| && (i < |order| ==> order[i] == t) && (t in order ==> i < |order|)
  {
    if order == [] || order[0] == t then 0 else 1 + IndexOf(order[1..], t)
  }

  lemma IndexAt(order: seq<L.Task>, j: nat)
    requires L.Distinct(order) && j < |order|
    ensures IndexOf(order, order[j]) == j
  {
    L.SameIndex(order, IndexOf(order, order[j]), j);
  }

  /** A task keeps its position when another joins at the end, or the last one leaves. */
  lemma IndexInFront(order: seq<L.Task>, last: L.Task, t: L.Task)
    requires L.Distinct(order + [last]) && t in order
    ensures IndexOf(order + [last], t) == IndexOf(order, t)
  {
    var all, i := order + [last], IndexOf(order, t);
    assert all[i] == t;
    IndexAt(all, i);
  }

  /** The process table as the state machine sees it: tasks by their positions. */
  function SeenProcesses(slots: seq<Option<Slot>>, order: seq<L.Task>): (ps: seq<Option<Process>>)
    ensures |ps| == |slots|
    ensures forall p :: 0 <= p < |slots| ==> ps[p] == SeenProcess(slots[p], order)
  {
    seq(|slots|, p requires 0 <= p < |slots| => SeenProcess(slots[p], order))
  }

  function SeenProcess(s: Option<Slot>, order: seq<L.Task>): Option<Process> {
    if s.None? then None else Some(Process(IndexOf(order, s.value.task), s.value.ring))
  }

  /** Every process's task is on the list, and its ring is one. */
  predicate SlotsOk(slots: seq<Option<Slot>>, order: seq<L.Task>) {
    && |slots| == MAX_PROCESSES
    && forall p :: 0 <= p < MAX_PROCESSES && slots[p].Some? ==>
         slots[p].value.task in order && IsRing(slots[p].value.ring)
  }

  /** The process table is seen alike before and after a task joins at the end. */
  lemma SeenInFront(slots: seq<Option<Slot>>, order: seq<L.Task>, last: L.Task)
    requires SlotsOk(slots, order) && L.Distinct(order + [last])
    ensures SlotsOk(slots, order + [last])
    ensures SeenProcesses(slots, order + [last]) == SeenProcesses(slots, order)
  {
    forall p | 0 <= p < |slots|
      ensures SeenProcess(slots[p], order + [last]) == SeenProcess(slots[p], order)
    {
      if slots[p].Some? { IndexInFront(order, last, slots[p].value.task); }
    }
  }

  class Machine {
    const kdir: Word
    const sched: L.Scheduler
    var active: Word
    var currentProcess: int
    var slots: seq<Option<Slot>>
    var halted: bool

    /** Position of the current task, or -1. */
    ghost var at: int

    ghost function State(): Kernel
      reads this, sched
    {
      Kernel(kdir, active, Seen(sched.order), at, currentProcess, SeenProcesses(slots, sched.order), halted)
    }

    ghost predicate Valid()
      reads this, sched, sched.order
    {
      Describes(State(), sched) && SlotsOk(slots, sched.order)
    }

    /** Every task on the list was there before or is new. */
    twostate predicate Grown()
      reads sched`order
    {
      forall t :: t in sched.order ==> t in old(sched.order) || fresh(t)
    }

    constructor (kdir: Word)
      ensures Valid() && State() == BeforeShell(kdir) && fresh(sched) && sched.order == []
    {
      this.kdir := kdir;
      sched := new L.Scheduler();
      active := kdir;
      slots := seq(MAX_PROCESSES, _ => None);
      halted := false;
      currentProcess := -1;
      at := -1;
    }

    method KernelPage()
      requires Valid()
      modifies this`active
      ensures Valid() && State() == KernelPaged(old(State())) && active == kdir
    {
      active := kdir;
    }

    method TaskSwitch(task: L.Task, ghost j: nat)
      requires Valid() && j < |sched.order| && sched.order[j] == task
      modifies this`active, this`at, sched`current
      ensures Valid() && State() == TaskSwitched(old(State()), j) && sched.order == old(sched.order)
    {
      Enter(sched, State(), task, j);
      active := task.directory;
      at := j;
    }

    method TaskPage()
      requires Valid() && sched.current != null
      modifies this`active, this`at, sched`current
      ensures Valid() && State() == TaskPaged(old(State())) && sched.order == old(sched.order)
      ensures sched.current != null
    {
      TaskSwitch(sched.current, at);
    }

    /** task_get_stack_item: the user stack is read under the task's directory, and the
        kernel's is active again afterwards. */
    method GetStackItem() returns (readUnder: Word)
      requires Valid() && sched.current != null
      modifies this`active
      ensures Valid() && State() == KernelPaged(old(State())) && active == kdir
      ensures 0 <= State().current < |State().tasks| && readUnder == State().tasks[State().current].directory
    {
      active := sched.current.directory;
      readUnder := active;
      KernelPage();
    }

    method KeyboardPush(c: Byte)
      requires Valid()
      modifies this`slots
      ensures Valid() && State() == KeyPushed(old(State()), c)
    {
      var p := currentProcess;
      if p < 0 || p >= |slots| || slots[p].None? { return; }
      if c == 0 {
        assert Pushed(RingOf(State(), p), c) == RingOf(State(), p);
        return;
      }
      PutRing(p, Pushed(slots[p].value.ring, c));
    }

    method PutRing(p: nat, ring: Ring)
      requires Valid() && p < |slots| && slots[p].Some? && IsRing(ring)
      modifies this`slots
      ensures Valid() && State() == WithRing(old(State()), p, ring)
    {
      slots := slots[p := Some(Slot(slots[p].value.task, ring))];
    }

    method KeyboardPop() returns (c: Byte)
      requires Valid()
      modifies this`slots
      ensures Valid() && State() == KeyPopped(old(State())) && c == KeyRead(old(State()))
    {
      if sched.current == null { return 0; }
      var p := sched.current.process;
      if p >= |slots| || slots[p].None? { return 0; }
      c := Popped(slots[p].value.ring).1;
      PutRing(p, Popped(slots[p].value.ring).0);
    }

    method GetFreeSlot() returns (slot: int)
      requires |slots| == MAX_PROCESSES
      ensures var s := FreeSlotFrom(State().processes, 0); slot == if s < 0 then -EISTKN else s
    {
      var i := 0;
      while i < MAX_PROCESSES
        invariant 0 <= i <= MAX_PROCESSES && |slots| == MAX_PROCESSES
        invariant FreeSlotFrom(State().processes, 0) == FreeSlotFrom(State().processes, i)
      {
        if slots[i].None? { return i; }
        i := i + 1;
      }
      slot := -EISTKN;
    }

    method TaskNew(process: nat, directory: Word) returns (task: L.Task)
      requires Valid()
      modifies this`at, sched, sched.order
      ensures Valid() && State() == TaskAdded(old(State()), Task(process, directory))
      ensures SlotsOk(slots, old(sched.order)) && fresh(task) && sched.order == old(sched.order) + [task]
    {
      ghost var k := State();
      task := AddTask(sched, k, process, directory);
      SeenInFront(slots, old(sched.order), task);
      if k.tasks == [] { at := 0; }
    }

    /** task_free of the newest task, which no process has yet. */
    method TaskFreeNewest(task: L.Task, ghost rest: seq<L.Task>)
      requires Valid() && sched.order == rest + [task] && SlotsOk(slots, rest)
      modifies this`at, sched, sched.order
      ensures Valid() && State() == NewestRemoved(old(State())) && sched.order == rest
    {
      ghost var k := State();
      SeenInFront(slots, rest, task);
      assert (rest + [task])[..|rest|] == rest && |k.tasks| == |rest| + 1;
      hide SeenProcesses, SlotsOk, Seen;
      RemoveTask(sched, k, task);
      at := if at != |rest| then at else if |rest| > 0 then 0 else -1;
    }

    /** A load that fails at the mapping: the task joins the list and leaves it again. */
    method AddAndUndo(slot: nat, directory: Word)
      requires Valid()
      modifies this`at, sched, sched.order
      ensures Valid() && State() == NewestRemoved(TaskAdded(old(State()), Task(slot, directory)))
      ensures sched.order == old(sched.order)
    {
      ghost var o := sched.order;
      hide Describes, Seen, SeenProcesses, TaskAdded, NewestRemoved, SlotsOk;
      var task := TaskNew(slot, directory);
      TaskFreeNewest(task, o);
    }

    /** A load that succeeds: the task joins the list, and its process the table. */
    method AddProcess(slot: nat, directory: Word)
      requires Valid() && slot < MAX_PROCESSES
      modifies this`at, this`slots, sched, sched.order
      ensures Valid() && slot < |slots|
      ensures State() == WithProcess(TaskAdded(old(State()), Task(slot, directory)), slot,
                                     Process(|old(State()).tasks|, EmptyRing()))
      ensures Grown()
    {
      ghost var n := |State().tasks|;
      hide Describes, Seen, SeenProcesses, TaskAdded, WithProcess, SlotsOk;
      var task := TaskNew(slot, directory);
      PutProcess(slot, task, n);
    }

    method PutProcess(slot: nat, task: L.Task, ghost j: nat)
      requires Valid() && slot < MAX_PROCESSES && j < |sched.order| && sched.order[j] == task
      modifies this`slots
      ensures Valid() && slot < |slots| && State() == WithProcess(old(State()), slot, Process(j, EmptyRing()))
    {
      ghost var o, before := sched.order, SeenProcesses(slots, sched.order);
      IndexAt(o, j);
      slots := slots[slot := Some(Slot(task, EmptyRing()))];
      assert SeenProcesses(slots, o) == before[slot := Some(Process(j, EmptyRing()))];
    }

    /** process_load and process_load_for_slot. */
    method ProcessLoad(load: Load) returns (ret: int)
      requires Valid()
      modifies this`at, this`slots, sched, sched.order
      ensures Valid() && ret == Loaded(old(State()), load).ret
      ensures State() == Loaded(old(State()), load).kernel
      ensures Answers(old(State()), load, ret)
      ensures Grown()
    {
      LoadAnswers(State(), load);
      var slot := GetFreeSlot();
      if slot < 0 { return -ENOMEM; }
      match load {
        case FileFails(error) => ret := if error < 0 then error else -EIO;
        case MapFails(directory, error) =>
          AddAndUndo(slot, directory);
          ret := if error < 0 then error else -EINVAL;
        case Loads(directory) =>
          AddProcess(slot, directory);
          ret := slot;
      }
    }

    method ProcessLoadSwitch(load: Load) returns (ret: int)
      requires Valid()
      modifies this`at, this`slots, this`currentProcess, sched, sched.order
      ensures Valid() && ret == LoadedSwitched(old(State()), load).ret
      ensures State() == LoadedSwitched(old(State()), load).kernel
      ensures Grown()
    {
      LoadedSwitchedIs(State(), load);
      hide LoadedSwitched, Loaded, Describes, SlotsOk, Seen, SeenProcesses;
      ret := ProcessLoad(load);
      if ret < 0 { return; }
      ProcessSwitch(ret);
    }

    method ProcessSwitch(p: int)
      requires Valid()
      modifies this`currentProcess
      ensures Valid() && State() == old(State()).(currentProcess := p)
    {
      currentProcess := p;
    }

    /** interrupt_handler, with the keyboard's callback the only one registered. `key` is the
        character of the scan code, zero for a release and for a key without one. */
    method InterruptHandler(number: Vector, released: bool, key: Byte)
      requires Valid() && UserMode(State()) && !halted && number != PAGE_FAULT && (released ==> key == 0)
      modifies this, sched`current
      ensures Valid() && State() == Step(old(State()), Interrupt(number, key)) && sched.order == old(sched.order)
    {
      CurrentIsSet(this);
      InterruptStep(State(), number, released, key);
      hide *;
      KernelPage();
      if number == KEYBOARD_INTERRUPT { KeyboardInterrupt(released, key); }
      TaskPage();
    }

    /** The keyboard callback: it returns early for a release, with the kernel's directory still
        active, and switches back to the task's after any key press. */
    method KeyboardInterrupt(released: bool, key: Byte)
      requires Valid() && sched.current != null
      modifies this, sched`current
      ensures Valid() && sched.current != null && sched.order == old(sched.order)
      ensures State() == if released then KernelPaged(old(State()))
                         else TaskPaged(KeyPushed(KernelPaged(old(State())), key))
    {
      PushNothing(KernelPaged(State()));
      hide *;
      KernelPage();
      if released { return; }
      if key != 0 { KeyboardPush(key); }
      TaskPage();
    }

    /** isr80h_handler. A successful exec enters the new task at once, so only the other
        commands reach the final switch back. */
    method Isr80hHandler(e: Event) returns (c: Byte)
      requires Valid() && UserMode(State()) && !halted && !e.Interrupt?
      modifies this, sched, sched.order
      ensures Valid() && State() == Step(old(State()), e)
      ensures e.GetKey? ==> c == KeyRead(old(State()))
      ensures Grown()
    {
      CurrentIsSet(this);
      SyscallStep(State(), e);
      hide *;
      KernelPage();
      var entered;
      c, entered := HandleCommand(e);
      if !entered { TaskPage(); }
    }

    /** isr80h_handle_command, under the kernel's directory: the result, and whether a new
        program was entered instead of returning. */
    method HandleCommand(e: Event) returns (c: Byte, entered: bool)
      requires Valid() && sched.current != null && active == kdir && !e.Interrupt?
      requires State().active == State().kdir && 0 <= State().current < |State().tasks| && Shaped(State())
      modifies this, sched, sched.order
      ensures Valid() && Grown() && State() == Commanded(old(State()), e)
      ensures entered == Enters(old(State()), e) && (!entered ==> sched.current != null)
      ensures e.GetKey? ==> c == KeyRead(old(State()))
    {
      c, entered := 0, false;
      CommandedIs(State(), e);
      hide Commanded, Enters, KernelPaged, KeyPopped, KeyRead, Entered, LoadedSwitched, Shaped;
      hide Describes, SlotsOk, Seen, SeenProcesses;
      match e {
        case GetKey => c := KeyboardPop();
        case OtherSyscall(command) => var d := GetStackItem();
        case Exec(copied, load) => entered := SyscallExec(copied, load);
      }
    }

    /** syscall6_process_load_start. */
    method SyscallExec(copied: bool, load: Load) returns (entered: bool)
      requires Valid() && sched.current != null && active == kdir
      requires State().active == State().kdir && 0 <= State().current < |State().tasks|
      modifies this, sched, sched.order
      ensures Valid() && (!copied ==> !entered && State() == old(State()))
      ensures copied ==>
        entered == (LoadedSwitched(old(State()), load).ret >= 0) && State() == Entered(old(State()), load)
      ensures !entered ==> sched.current != null
      ensures Grown()
    {
      AlreadyPaged(State());
      hide KernelPaged, Entered, LoadedSwitched, Describes, SlotsOk, Seen, SeenProcesses;
      var d := GetStackItem();
      if !copied { return false; }
      entered := ExecLoaded(load);
    }

    /** Load the program and, if that went well, enter it. */
    method ExecLoaded(load: Load) returns (entered: bool)
      requires Valid() && 0 <= State().current < |State().tasks|
      modifies this, sched, sched.order
      ensures Valid() && (!entered ==> sched.current != null)
      ensures entered == (LoadedSwitched(old(State()), load).ret >= 0) && State() == Entered(old(State()), load)
      ensures Grown()
    {
      hide *;
      ghost var k := State();
      LoadedSlot(k, load);
      StillCurrent(k, load);
      var ret := ProcessLoadSwitch(load);
      if ret < 0 {
        CurrentKept(this);
        return false;
      }
      EnterProcess(ret);
      entered := true;
    }

    /** Enter the task of a process in the table. */
    method EnterProcess(p: int)
      requires Valid() && 0 <= p < |State().processes| && State().processes[p].Some?
      modifies this`active, this`at, sched`current
      ensures Valid() && State() == TaskSwitched(old(State()), TaskOf(old(State()), p))
    {
      TaskSwitch(slots[p].value.task, IndexOf(sched.order, slots[p].value.task));
    }

    method Panic()
      requires Valid()
      modifies this`halted
      ensures Valid() && State() == old(State()).(halted := true)
    {
      halted := true;
    }

    /** kernel_main from the first process on; a task is entered at the head of the list. */
    method KernelMain(load: Load)
      requires Valid() && State() == BeforeShell(kdir)
      modifies this, sched, sched.order
      ensures Valid() && State() == Boot(kdir, load)
    {
      var ret := ProcessLoadSwitch(load);
      if ret < 0 {
        halted := true;
        return;
      }
      TaskSwitch(sched.head, 0);
    }
  }

  /** In user mode there is a current task. */
  lemma CurrentIsSet(m: Machine)
    requires m.Valid() && UserMode(m.State())
    ensures m.sched.current != null && 0 <= m.State().current < |m.State().tasks|
    ensures KernelPaged(m.State()).current == m.State().current && KernelPaged(m.State()).tasks == m.State().tasks
    ensures KernelPaged(m.State()).active == KernelPaged(m.State()).kdir
  {
  }

  lemma CurrentKept(m: Machine)
    requires m.Valid() && 0 <= m.State().current < |m.State().tasks|
    ensures m.sched.current != null
  {
  }

  lemma AlreadyPaged(k: Kernel)
    requires k.active == k.kdir
    ensures KernelPaged(k) == k
  {
  }

  lemma LoadedSwitchedIs(k: Kernel, load: Load)
    ensures var l := Loaded(k, load);
      LoadedSwitched(k, load) == if l.ret < 0 then l else LoadResult(l.kernel.(currentProcess := l.ret), l.ret)
  {
  }

  /** A successful load put a process into its slot, which is then entered. */
  lemma LoadedSlot(k: Kernel, load: Load)
    ensures var l := LoadedSwitched(k, load);
      && (l.ret >= 0 ==> l.ret < |l.kernel.processes| && l.kernel.processes[l.ret].Some?)
      && Entered(k, load) == if l.ret < 0 then l.kernel else TaskSwitched(l.kernel, TaskOf(l.kernel, l.ret))
  {
  }

  /** A failed load leaves the current task current. */
  lemma StillCurrent(k: Kernel, load: Load)
    requires 0 <= k.current < |k.tasks|
    ensures var l := LoadedSwitched(k, load);
      l.ret < 0 ==> 0 <= l.kernel.current < |l.kernel.tasks|
  {
  }

  /** The interrupt step, switch by switch. */
  lemma InterruptStep(k: Kernel, number: Vector, released: bool, key: Byte)
    requires Shaped(k) && !k.halted && number != PAGE_FAULT && (released ==> key == 0)
    ensures Step(k, Interrupt(number, key)) ==
      if number != KEYBOARD_INTERRUPT then TaskPaged(KernelPaged(k))
      else if released then TaskPaged(KernelPaged(KernelPaged(k)))
      else TaskPaged(TaskPaged(KeyPushed(KernelPaged(KernelPaged(k)), key)))
  {
    if key == 0 { PushNothing(KernelPaged(k)); }
    hide KeyPushed;
  }

  /** The system-call step: the kernel's directory, the command, and back unless a new program
      was entered. */
  lemma SyscallStep(k: Kernel, e: Event)
    requires Shaped(k) && !k.halted && !e.Interrupt?
    ensures var p := KernelPaged(k);
      && Shaped(p)
      && Step(k, e) == (if Enters(p, e) then Commanded(p, e) else TaskPaged(Commanded(p, e)))
      && (e.GetKey? ==> KeyRead(p) == KeyRead(k))
  {
    hide Entered, LoadedSwitched, TaskSwitched;
  }

  /** What each command does to the state. */
  lemma CommandedIs(k: Kernel, e: Event)
    requires Shaped(k) && !e.Interrupt? && k.active == k.kdir
    ensures e.GetKey? ==> Commanded(k, e) == KeyPopped(k) && !Enters(k, e)
    ensures e.OtherSyscall? ==> Commanded(k, e) == KernelPaged(k) && !Enters(k, e)
    ensures e.Exec? ==> Commanded(k, e) == (if e.copied then Entered(k, e.load) else k)
    ensures e.Exec? ==> (Enters(k, e) <==> e.copied && LoadedSwitched(k, e.load).ret >= 0)
  {
  }

  /** Pushing the zero character changes nothing. */
  lemma PushNothing(k: Kernel)
    requires Shaped(k)
    ensures KeyPushed(k, 0) == k
  {
  }

  /** Traps taken one after another until the machine halts, each at its handler. */
  method RunTraps(m: Machine, es: seq<Event>)
    requires m.Valid() && UserMode(m.State())
    modifies m, m.sched, m.sched.order
    ensures m.Valid() && UserMode(m.State()) && m.State() == Trap.Run(old(m.State()), es)
    decreases |es|
  {
    RunStep(m.State(), es);
    hide Step, UserMode, Trap.Run, Shaped, Describes, SlotsOk, Seen, SeenProcesses;
    if es == [] { return; }
    StepKeepsUserMode(m.State(), es[0]);
    if !m.halted { OneTrap(m, es[0]); }
    RunTraps(m, es[1..]);
  }

  /** One trap at its handler; a page fault panics before anything else. */
  method OneTrap(m: Machine, e: Event)
    requires m.Valid() && UserMode(m.State()) && !m.halted
    modifies m, m.sched, m.sched.order
    ensures m.Valid() && m.State() == Step(old(m.State()), e)
    ensures m.Grown()
  {
    FaultHalts(m.State(), e);
    hide Step, UserMode, Shaped, Describes, SlotsOk, Seen, SeenProcesses;
    if e.Interrupt? && e.number == 14 {
      m.Panic();
    } else if e.Interrupt? {
      m.InterruptHandler(e.number, e.key == 0, e.key);
    } else {
      var c := m.Isr80hHandler(e);
    }
  }

  lemma FaultHalts(k: Kernel, e: Event)
    requires Shaped(k)
    ensures PAGE_FAULT == 14 && (!k.halted && e.Interrupt? && e.number == 14 ==> Step(k, e) == k.(halted := true))
  {
  }

  lemma RunStep(k: Kernel, es: seq<Event>)
    requires Shaped(k)
    ensures Trap.Run(k, es) == if es == [] then k else Trap.Run(Step(k, es[0]), es[1..])
    ensures es != [] && k.halted ==> Step(k, es[0]) == k
  {
  }
}
