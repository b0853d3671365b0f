/** The doubly linked list of tasks and round-robin selection over it. */
module TaskList {
  import opened Words

  class Task {
    const process: nat
    const directory: Word
    var next: Task?
    var prev: Task?

    constructor (process: nat, directory: Word)
      ensures this.process == process && this.directory == directory
      ensures next == null && prev == null
    {
      this.process := process;
      this.directory := directory;
      next, prev := null, null;
    }
  }

  /** The element at index i, or null past either end. */
  function At(order: seq<Task>, i: int): Task? {
    if 0 <= i < |order| then order[i] else null
  }

  predicate Distinct(order: seq<Task>) {
    forall i, j :: 0 <= i < j < |order| ==> order[i] != order[j]
  }

  /** The forward link at index k leads to the next element. */
  ghost predicate NextOk(order: seq<Task>, k: nat)
    requires k < |order|
    reads order[k]
  {
    order[k].next == At(order, k + 1)
  }

  ghost predicate PrevOk(order: seq<Task>, k: nat)
    requires k < |order|
    reads order[k]
  {
    order[k].prev == At(order, k - 1)
  }

  /** The forward link at index k leads to the next element that is not at index j. */
  ghost predicate NextSkips(order: seq<Task>, k: nat, j: nat)
    requires k < |order|
    reads order[k]
  {
    order[k].next == At(order, if k + 1 == j then j + 1 else k + 1)
  }

  ghost predicate NextLinked(order: seq<Task>)
    reads order
  {
    forall k: nat :: k < |order| ==> NextOk(order, k)
  }

  ghost predicate PrevLinked(order: seq<Task>)
    reads order
  {
    forall k: nat :: k < |order| ==> PrevOk(order, k)
  }

  function Without(order: seq<Task>, j: nat): (w: seq<Task>)
    requires j < |order|
    ensures |w| == |order| - 1
    ensures forall k :: 0 <= k < |w| ==> w[k] == order[if k < j then k else k + 1]
  {
    order[..j] + order[j + 1..]
  }

  class Scheduler {
    var head: Task?
    var tail: Task?
    var current: Task?

    /** The tasks in creation order. */
    ghost var order: seq<Task>

    /** Everything but the backward links: what any removal preserves. */
    ghost predicate ForwardValid()
      reads this, order
    {
      && Distinct(order) && NextLinked(order)
      && head == At(order, 0) && tail == At(order, |order| - 1)
      && (current == null <==> order == []) && (current != null ==> current in order)
    }

    /** One acyclic doubly linked list from head to tail, with the current task on it. */
    ghost predicate Valid()
      reads this, order
    {
      ForwardValid() && PrevLinked(order)
    }

    constructor ()
      ensures Valid() && order == []
    {
      head, tail, current := null, null, null;
      order := [];
    }

    /** The list part of task_new: a task joins at the tail; the first becomes current. */
    method TaskNew(process: nat, directory: Word) returns (task: Task)
      requires Valid()
      modifies this, order
      ensures Valid() && fresh(task) && order == old(order) + [task]
      ensures task.process == process && task.directory == directory
      ensures current == if old(order) == [] then task else old(current)
    {
      ghost var o := order;
      task := new Task(process, directory);
      if head == null {
        head, tail, current := task, task, task;
        order := [task];
        return;
      }
      tail.next := task;
      task.prev := tail;
      tail := task;
      order := o + [task];
      forall k: nat | k < |order| ensures NextOk(order, k) && PrevOk(order, k) {
        if k < |o| {
          assert old(NextOk(o, k)) && old(PrevOk(o, k));
          assert k < |o| - 1 ==> o[k] != o[|o| - 1];
        }
      }
    }

    /** task_get_next. */
    method GetNext() returns (task: Task?)
      requires current != null
      ensures task == if current.next == null then head else current.next
    {
      if current.next == null { return head; }
      task := current.next;
    }

    /** The link updates of task_list_remove. */
    method Unlink(task: Task, ghost j: nat)
      requires Valid() && j < |order| && order[j] == task
      modifies this`head, this`tail, order
      ensures PrevLinked(order)
      ensures forall k: nat :: k < |order| ==> NextSkips(order, k, j)
      ensures head == At(order, if j == 0 then 1 else 0)
      ensures tail == At(order, if j == |order| - 1 then j - 1 else |order| - 1)
    {
      assert NextOk(order, j) && PrevOk(order, j);
      if task.prev != null {
        assert task.prev == order[j - 1];
        task.prev.next := task.next;
      }
      if task == head { head := task.next; }
      if task == tail { tail := task.prev; }
      forall k: nat | k < |order|
        ensures PrevOk(order, k) && NextSkips(order, k, j)
      {
        assert old(NextOk(order, k)) && old(PrevOk(order, k));
      }
    }

    /** Unlink a task as task_list_remove does: the successor's backward link is never
        repaired, so the list stays well formed exactly when the task was the tail. */
    method ListRemove(task: Task, ghost j: nat)
      requires Valid() && j < |order| && order[j] == task
      modifies this, order
      ensures order == Without(old(order), j) && ForwardValid()
      ensures forall k: nat :: k < |order| && k != j ==> PrevOk(order, k)
      ensures j < |order| ==> order[j].prev == task
      ensures Valid() <==> j == |old(order)| - 1
      ensures current == if old(current) != task then old(current)
                         else if j + 1 < |old(order)| then old(order)[j + 1] else At(order, 0)
    {
      ghost var o := order;
      Unlink(task, j);
      assert NextSkips(o, j, j);
      if task == current { current := GetNext(); }
      order := Without(o, j);
      RemovedLinks(o, j);
      if old(current) != task { StillOnList(o, j, current); }
    }

    /** The removal the loader performs: the newest task, undoing its creation. */
    method RemoveNewest(task: Task)
      requires Valid() && order != [] && task == order[|order| - 1]
      modifies this, order
      ensures Valid() && order == old(order)[..|old(order)| - 1]
      ensures old(current) != task ==> current == old(current)
      ensures old(current) == task ==> current == At(order, 0)
    {
      ListRemove(task, |order| - 1);
    }

    /** One switch: to the task after the one at index s, or round to the first. */
    method SwitchToNext(ghost s: nat)
      requires NextLinked(order) && head == At(order, 0) && s < |order| && current == order[s]
      modifies this`current
      ensures current == order[if s + 1 < |order| then s + 1 else 0]
    {
      assert NextOk(order, s);
      current := GetNext();
    }

    /** Switching to the next task once per task visits every task once, in order from the
        one after the current task, and ends where it began. */
    method Cycle(ghost i: nat) returns (visited: seq<Task>)
      requires Valid() && i < |order| && current == order[i]
      modifies this`current
      ensures current == old(current) && visited == Round(order, i)
    {
      visited := [];
      ghost var n, k, o := |order|, 0, order;
      var first := true;
      var start := current;
      assert NextLinked(o) && Distinct(o) && head == At(o, 0) && Round(o, i)[..0] == [];
      assert Stop(n, i, 0) == i;
      hide *;
      while first || current != start
        invariant 0 <= k <= n && order == o && visited == Round(o, i)[..k]
        invariant NextLinked(o) && head == At(o, 0) && current == o[Stop(n, i, k)]
        invariant first <==> k == 0
        decreases n - k
      {
        StopStep(n, i, k);
        RoundStep(o, i, k);
        SwitchToNext(Stop(n, i, k));
        visited := visited + [current];
        first := false;
        k := k + 1;
      }
      SameIndex(o, Stop(n, i, k), i);
      StopEnds(n, i, k);
      assert Round(o, i)[..n] == Round(o, i);
    }
  }

  lemma SameIndex(order: seq<Task>, i: nat, j: nat)
    requires Distinct(order) && i < |order| && j < |order|
    ensures order[i] == order[j] <==> i == j
  {
    assert i < j ==> order[i] != order[j];
    assert j < i ==> order[j] != order[i];
  }

  lemma RoundStep(order: seq<Task>, i: nat, k: nat)
    requires i < |order| && k < |order|
    ensures Round(order, i)[..k + 1] == Round(order, i)[..k] + [order[Stop(|order|, i, k + 1)]]
  {
    hide Stop;
  }

  /** Index of the task that is current after k switches, starting from index i. */
  function Stop(n: nat, i: nat, k: nat): (s: nat)
    requires i < n && k <= n
    ensures s < n
  {
    if i + k < n then i + k else i + k - n
  }

  lemma StopStep(n: nat, i: nat, k: nat)
    requires i < n && k <= n && (k == 0 || Stop(n, i, k) != i)
    ensures k < n && Stop(n, i, k + 1) == if Stop(n, i, k) + 1 < n then Stop(n, i, k) + 1 else 0
  {
  }

  lemma StopEnds(n: nat, i: nat, k: nat)
    requires i < n && 0 < k <= n
    ensures Stop(n, i, k) == i <==> k == n
  {
  }

  function Round(order: seq<Task>, i: nat): (r: seq<Task>)
    requires i < |order|
    ensures |r| == |order|
    ensures forall k :: 0 <= k < |order| ==> r[k] == order[Stop(|order|, i, k + 1)]
  {
    order[i + 1..] + order[..i + 1]
  }

  /** The round is a rearrangement of all the tasks. */
  lemma RoundVisitsAll(order: seq<Task>, i: nat)
    requires i < |order|
    ensures multiset(Round(order, i)) == multiset(order)
  {
    assert order == order[..i + 1] + order[i + 1..];
  }

  /** What the list looks like after the links around index j were changed. */
  lemma RemovedLinks(o: seq<Task>, j: nat)
    requires j < |o| && Distinct(o) && PrevLinked(o)
    requires forall k: nat :: k < |o| ==> NextSkips(o, k, j)
    ensures Distinct(Without(o, j)) && NextLinked(Without(o, j))
    ensures forall k: nat :: k < |o| - 1 && k != j ==> PrevOk(Without(o, j), k)
    ensures j < |o| - 1 ==> Without(o, j)[j].prev == o[j] && !PrevOk(Without(o, j), j)
  {
    var w := Without(o, j);
    forall k: nat | k < |w|
      ensures NextOk(w, k)
      ensures if k == j then w[k].prev == o[j] else PrevOk(w, k)
    {
      var at := if k < j then k else k + 1;
      assert NextSkips(o, at, j);
      assert PrevOk(o, at);
    }
    if j < |w| { assert At(w, j - 1) != o[j]; }
  }

  lemma StillOnList(o: seq<Task>, j: nat, t: Task?)
    requires j < |o| && t in o && t != o[j]
    ensures t in Without(o, j)
  {
    var c :| 0 <= c < |o| && o[c] == t;
    assert Without(o, j)[if c < j then c else c - 1] == t;
  }
}
