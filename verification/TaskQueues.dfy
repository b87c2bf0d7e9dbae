/** The task queue on the heap: linked tasks with a head and a tail, as the workers and the server see it
    while they hold the queue mutex. */
module TaskQueues {
  import opened Store

  const MAX_COMMAND_SIZE: nat := 1024

  /** strncpy of at most MAX_COMMAND_SIZE - 1 characters into a task. */
  function Truncated(s: string): string {
    if |s| < MAX_COMMAND_SIZE then s else s[..MAX_COMMAND_SIZE - 1]
  }

  datatype Item = Item(client: int, command: string)

  class Task {
    const item: Item
    var next: Task?

    constructor (client: int, command: string)
      ensures item == Item(client, command) && next == null
    {
      item, next := Item(client, command), null;
    }
  }

  ghost function Nth(tasks: seq<Task>, i: int): Task? {
    if 0 <= i < |tasks| then tasks[i] else null
  }

  class TaskQueue {
    var head: Task?
    var tail: Task?
    var shuttingDown: bool
    ghost var tasks: seq<Task>

    ghost predicate Valid()
      reads this, tasks
    {
      && head == Nth(tasks, 0)
      && tail == Nth(tasks, |tasks| - 1)
      && (forall i :: 0 <= i < |tasks| ==> tasks[i].next == Nth(tasks, i + 1))
      && (forall i, j :: 0 <= i < j < |tasks| ==> tasks[i] != tasks[j])
    }

    /** The queued commands in FIFO order. */
    ghost function Contents(): (c: seq<Item>)
      reads this
      ensures |c| == |tasks| && forall i :: 0 <= i < |c| ==> c[i] == tasks[i].item
    {
      seq(|tasks|, i requires 0 <= i < |tasks| reads this => tasks[i].item)
    }

    constructor ()
      ensures Valid() && Contents() == [] && !shuttingDown
    {
      head, tail, shuttingDown := null, null, false;
      tasks := [];
    }

    /** worker_pool_submit: refuse once shutdown has begun, else append at the tail. */
    method Submit(client: int, command: string) returns (accepted: bool)
      requires Valid()
      modifies this, tasks
      ensures Valid() && shuttingDown == old(shuttingDown)
      ensures accepted == !old(shuttingDown)
      ensures Contents() == old(Contents()) + if accepted then [Item(client, Truncated(command))] else []
      ensures accepted ==> Contents()[|old(Contents())|].command == if |command| <= 1023 then command else command[..1023]
    {
      if shuttingDown { return false; }
      var task := new Task(client, Truncated(command));
      if tail == null {
        head, tail := task, task;
      } else {
        tail.next := task;
        tail := task;
      }
      tasks := tasks + [task];
      return true;
    }

    /** task_pop: unlink the head; null when the queue is empty. */
    method Pop() returns (task: Task?)
      requires Valid()
      modifies this, tasks
      ensures Valid() && shuttingDown == old(shuttingDown)
      ensures task == null <==> old(Contents()) == []
      ensures task != null ==> task.next == null && [task.item] + Contents() == old(Contents())
    {
      task := head;
      if task == null { return; }
      head := task.next;
      if head == null { tail := null; }
      task.next := null;
      tasks := tasks[1..];
    }

    /** The first critical section of worker_pool_destroy. */
    method BeginShutdown()
      requires Valid()
      modifies this
      ensures Valid() && shuttingDown && Contents() == old(Contents())
    {
      shuttingDown := true;
    }
  }
}
