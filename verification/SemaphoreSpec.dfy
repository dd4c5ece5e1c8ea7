// Kernel semaphores as a protocol (Kernel/utils/semaphore.c:72-106).
//
// A system call runs with interrupts off until it calls the scheduler, so a wait up to its grant
// or its block is one step, and so is a whole post.  What a woken waiter does next is one step here
// too, although the code runs it with interrupts on and without the spin lock: the runs of this
// model are those on which no such continuation is interrupted.  SemaphoreInterleaving.dfy splits
// it and says what fails when one is.
module SemaphoreSpec {
  import opened PidQueue

  const PROCESS_LIMIT: nat := 10

  /** `locked` is the spin lock as it stands between steps. */
  datatype Sem = Sem(value: nat, queue: seq<Pid>, locked: bool)

  datatype Outcome = Acquired | Blocked | Full

  function OpenSem(value: nat): Sem {
    Sem(value, [], false)
  }

  /** sem_wait up to its grant or block.  With a full queue it returns with the lock held. */
  function WaitSem(s: Sem, p: Pid): (Sem, Outcome) {
    if s.value > 0 then (Sem(s.value - 1, s.queue, false), Acquired)
    else if |s.queue| == PROCESS_LIMIT then (s.(locked := true), Full)
    else (Sem(0, s.queue + [p], false), Blocked)
  }

  /** The loop test of sem_wait after a wakeup; the lock is not taken but is cleared on the way out. */
  function ResumeSem(s: Sem, p: Pid): (Sem, Outcome) {
    if s.value > 0 then (Sem(s.value - 1, s.queue, false), Acquired)
    else if |s.queue| == PROCESS_LIMIT then (s, Full)
    else (Sem(0, s.queue + [p], false), Blocked)
  }

  datatype Wakeup = Nobody | Woke(pid: Pid)

  function PostSem(s: Sem): (Sem, Wakeup) {
    if s.queue == [] then (Sem(s.value + 1, [], false), Nobody)
    else (Sem(s.value + 1, s.queue[1..], false), Woke(s.queue[0]))
  }

  /** deleteProcessFromSemaphores on a semaphore: if the process is queued, the queue is shifted
      down from its front. */
  function KillSem(s: Sem, pid: Pid): Sem {
    if pid in s.queue then s.(queue := s.queue[1..]) else s
  }

  // ---------------------------------------------------------------- runs

  /** One semaphore with its clients.  `woken` are ready again but have not re-checked yet;
      `holders` have waited and not posted since; the rest is history. */
  datatype World = World(
    sem: Sem,
    woken: set<Pid>,
    holders: set<Pid>,
    grants: nat,
    posts: nat,
    blocked: seq<Pid>,
    woke: seq<Pid>)

  datatype Step = Wait(p: Pid) | Resume(p: Pid) | Post(p: Pid)

  function Initial(value: nat): World {
    World(OpenSem(value), {}, {}, 0, 0, [], [])
  }

  /** A process is elsewhere when it is neither queued nor on its way back from the queue. */
  predicate Elsewhere(w: World, p: Pid) {
    p !in w.sem.queue && p !in w.woken
  }

  /** With the spin lock held, new waits and posts only spin. */
  predicate Enabled(w: World, s: Step) {
    match s
    case Wait(p) => !w.sem.locked && Elsewhere(w, p)
    case Resume(p) => p in w.woken
    case Post(p) => !w.sem.locked && Elsewhere(w, p)
  }

  function Grant(w: World, p: Pid, r: (Sem, Outcome)): World {
    var v := w.(sem := r.0, woken := w.woken - {p});
    match r.1
    case Acquired => v.(grants := w.grants + 1, holders := w.holders + {p})
    case Blocked => v.(blocked := w.blocked + [p])
    case Full => v
  }

  function Next(w: World, s: Step): World {
    match s
    case Wait(p) => Grant(w, p, WaitSem(w.sem, p))
    case Resume(p) => Grant(w, p, ResumeSem(w.sem, p))
    case Post(p) =>
      var r := PostSem(w.sem);
      var v := w.(sem := r.0, posts := w.posts + 1, holders := w.holders - {p});
      match r.1
      case Nobody => v
      case Woke(q) => v.(woken := w.woken + {q}, woke := w.woke + [q])
  }

  predicate AllEnabled(w: World, steps: seq<Step>)
    decreases |steps|
  {
    steps == [] || (Enabled(w, steps[0]) && AllEnabled(Next(w, steps[0]), steps[1..]))
  }

  function RunSteps(w: World, steps: seq<Step>): World
    decreases |steps|
  {
    if steps == [] then w else RunSteps(Next(w, steps[0]), steps[1..])
  }
}
