/** The queue between the loop and the workers. */
module ThreadPool {
  import opened Message

  /** A request on its way to the handler: which connection it came from, and what it says. */
  datatype Task = Task(fd: int, id: nat, msg: Text)

  class ThreadPool {
    var tasks: seq<Task>
    var stopping: bool

    constructor ()
      ensures tasks == [] && !stopping
    {
      tasks, stopping := [], false;
    }

    /** submit, one locked region: a pool that is stopping drops what it is given. */
    method Submit(task: Task)
      modifies this`tasks
      ensures tasks == if stopping then old(tasks) else old(tasks) + [task]
    {
      if stopping {
        return;
      }
      tasks := tasks + [task];
    }

    /** The locked region of workerLoop behind its wait: leave, or take the oldest task. */
    method TakeTask() returns (leave: bool, task: Task)
      requires tasks != [] || stopping
      modifies this`tasks
      ensures leave == stopping
      ensures leave ==> tasks == old(tasks)
      ensures !leave ==> task == old(tasks)[0] && tasks == old(tasks)[1..]
    {
      if stopping {
        return true, Task(0, 0, []);
      }
      leave, task := false, tasks[0];
      tasks := tasks[1..];
    }
  }

  function TasksOf(fd: int, id: nat, msgs: seq<Text>): (ts: seq<Task>)
    ensures |ts| == |msgs|
  {
    seq(|msgs|, i requires 0 <= i < |msgs| => Task(fd, id, msgs[i]))
  }

  lemma TasksSnoc(fd: int, id: nat, msgs: seq<Text>, m: Text)
    ensures TasksOf(fd, id, msgs + [m]) == TasksOf(fd, id, msgs) + [Task(fd, id, m)]
  {
  }

  lemma TasksSplit(fd: int, id: nat, msgs: seq<Text>, i: nat, j: nat)
    requires i <= j <= |msgs|
    ensures TasksOf(fd, id, msgs[i..]) == TasksOf(fd, id, msgs[i..j]) + TasksOf(fd, id, msgs[j..])
  {
  }

  lemma NoTasks(fd: int, id: nat)
    ensures TasksOf(fd, id, []) == []
  {
  }
}
