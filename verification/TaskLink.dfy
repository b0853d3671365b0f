/** The task sequence of the trap state machine is the linked list of tasks: what the loader
    does to one it does to the other. */
module TaskLink {
  import opened Words
  import TaskList
  import Trap

  /** The tasks of a list as the state machine sees them. */
  function Seen(order: seq<TaskList.Task>): (ts: seq<Trap.Task>)
    ensures |ts| == |order|
    ensures forall i :: 0 <= i < |order| ==> ts[i] == Trap.Task(order[i].process, order[i].directory)
  {
    seq(|order|, i requires 0 <= i < |order| => Trap.Task(order[i].process, order[i].directory))
  }

  /** Kernel state k describes the scheduler: same tasks in order, same current task. */
  ghost predicate Describes(k: Trap.Kernel, s: TaskList.Scheduler)
    reads s, s.order
  {
    && s.Valid() && k.tasks == Seen(s.order)
    && (if s.current == null then k.current == -1
        else 0 <= k.current < |s.order| && s.current == s.order[k.current])
  }

  /** task_new on the list is the addition of the state machine. */
  method AddTask(s: TaskList.Scheduler, ghost k: Trap.Kernel, process: nat, directory: Word)
    returns (task: TaskList.Task)
    requires Describes(k, s)
    modifies s, s.order
    ensures Describes(Trap.TaskAdded(k, Trap.Task(process, directory)), s)
    ensures fresh(task) && task.process == process && task.directory == directory
    ensures s.order == old(s.order) + [task]
  {
    ghost var o := s.order;
    task := s.TaskNew(process, directory);
    assert Seen(o + [task]) == Seen(o) + [Trap.Task(process, directory)];
  }

  /** The removal of the newest task is that of the state machine. */
  method RemoveTask(s: TaskList.Scheduler, ghost k: Trap.Kernel, task: TaskList.Task)
    requires Describes(k, s) && s.order != [] && task == s.order[|s.order| - 1]
    modifies s, s.order
    ensures Describes(Trap.NewestRemoved(k), s) && s.order == old(s.order)[..|old(s.order)| - 1]
  {
    ghost var o := s.order;
    s.RemoveNewest(task);
    assert Seen(o[..|o| - 1]) == Seen(o)[..|o| - 1];
  }

  /** A load that fails at the mapping leaves the list, its links included, describing the
      state it described before. */
  method AddAndRemove(s: TaskList.Scheduler, ghost k: Trap.Kernel, process: nat, directory: Word)
    requires Describes(k, s) && s.current != null
    modifies s, s.order
    ensures Describes(k, s) && s.order == old(s.order)
  {
    ghost var o := s.order;
    var task := AddTask(s, k, process, directory);
    RemoveTask(s, Trap.TaskAdded(k, Trap.Task(process, directory)), task);
    assert (o + [task])[..|o|] == o;
    Trap.MapFailureUndone(k, Trap.Task(process, directory));
  }

  /** Entering a task that is on the list is the switch of the state machine. */
  method Enter(s: TaskList.Scheduler, ghost k: Trap.Kernel, task: TaskList.Task, ghost j: nat)
    requires Describes(k, s) && j < |s.order| && s.order[j] == task
    modifies s`current
    ensures Describes(Trap.TaskSwitched(k, j), s) && Trap.TaskSwitched(k, j).active == task.directory
  {
    s.current := task;
  }
}
