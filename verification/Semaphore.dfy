// The semaphore as it works in place: an array of waiting processes shifted down at each post
// (Kernel/utils/semaphore.c:9-15, 72-106).
module SemaphoreCode {
  import opened PidQueue
  import opened SemaphoreSpec

  class Semaphore {
    var value: nat
    const queue: array<Pid>
    var waiting: nat
    var locked: bool

    ghost predicate Valid()
      reads this
    {
      queue.Length == PROCESS_LIMIT && waiting <= PROCESS_LIMIT
    }

    ghost function State(): Sem
      requires Valid()
      reads this, queue
    {
      Sem(value, queue[..waiting], locked)
    }

    constructor (value: nat)
      ensures Valid() && State() == OpenSem(value) && fresh(queue)
    {
      this.value := value;
      queue := new Pid[PROCESS_LIMIT];
      waiting := 0;
      locked := false;
    }

    /** One pass of the wait loop: the grant, the block, or the refusal of a full queue. */
    method Enter(p: Pid) returns (r: Outcome)
      requires Valid()
      modifies this, queue
      ensures Valid()
      ensures (State(), r) == if old(value) > 0 then (Sem(old(value) - 1, old(State()).queue, false), Acquired)
                              else if |old(State()).queue| == PROCESS_LIMIT then (old(State()), Full)
                              else (Sem(0, old(State()).queue + [p], false), Blocked)
    {
      if value == 0 {
        if waiting == PROCESS_LIMIT {
          return Full;
        }
        queue[waiting] := p;
        waiting := waiting + 1;
        locked := false;
        assert queue[..waiting] == old(queue[..waiting]) + [p];
        return Blocked;
      }
      value := value - 1;
      locked := false;
      return Acquired;
    }

    /** sem_wait by a process that finds the spin lock free. */
    method Wait(p: Pid) returns (r: Outcome)
      requires Valid() && !locked
      modifies this, queue
      ensures Valid() && (State(), r) == WaitSem(old(State()), p)
    {
      locked := true;
      r := Enter(p);
    }

    /** The same loop after the process has been woken; the lock is not taken. */
    method Resume(p: Pid) returns (r: Outcome)
      requires Valid()
      modifies this, queue
      ensures Valid() && (State(), r) == ResumeSem(old(State()), p)
    {
      r := Enter(p);
    }

    method Post() returns (r: Wakeup)
      requires Valid() && !locked
      modifies this, queue
      ensures Valid() && (State(), r) == PostSem(old(State()))
    {
      value := value + 1;
      if waiting == 0 {
        return Nobody;
      }
      r := Woke(queue[0]);
      waiting := waiting - 1;
      ShiftDown(waiting);
      assert queue[..waiting] == old(queue[..waiting])[1..];
    }

    /** What a kill does to this semaphore; `found` tells the caller to look no further. */
    method DeleteProcess(pid: Pid) returns (found: bool)
      requires Valid()
      modifies this, queue
      ensures Valid() && State() == KillSem(old(State()), pid) && found == (pid in old(State()).queue)
    {
      var j := 0;
      while j < waiting
        invariant j <= waiting && pid !in queue[..j] && State() == old(State())
        invariant forall k | 0 <= k < queue.Length :: queue[k] == old(queue[k])
      {
        if queue[j] == pid {
          assert queue[..waiting][j] == pid;
          waiting := waiting - 1;
          ShiftDown(waiting);
          assert queue[..waiting] == old(queue[..waiting])[1..];
          return true;
        }
        j := j + 1;
      }
      found := false;
    }

    /** Lines 102-103. */
    method ShiftDown(n: nat)
      requires n < queue.Length
      modifies queue
      ensures forall j | 0 <= j < n :: queue[j] == old(queue[j + 1])
    {
      var i := 0;
      while i < n
        invariant i <= n
        invariant forall j | 0 <= j < i :: queue[j] == old(queue[j + 1])
        invariant forall j | i <= j < queue.Length :: queue[j] == old(queue[j])
      {
        queue[i] := queue[i + 1];
        i := i + 1;
      }
    }
  }
}
