/**
 * The worker pool: any number of `queue_worker` loops over one `thread_queue`.
 *
 * A state of the pool is the queue and, for every worker, the point its loop has reached.
 * What the mutex makes atomic is one step; the reads made outside the mutex (`empty()` at the
 * top of `wait_data`, `empty()` in the loop and `top()`) are steps of their own, so every
 * interleaving of workers and pushers is a sequence of steps.
 */
module TaskPool {

  // A task runs its core once; a ring task runs it and pushes a successor, `times` counting
  // the runs that are left and a negative `times` meaning no end.
  datatype Task = Plain(core: int) | Ring(core: int, times: int)

  datatype Pc =
    | LoopHead                // about to call wait_data
    | Locking                 // the unlocked test saw an empty queue
    | Waiting                 // asleep on the condition variable
    | Notified                // woken, about to take the mutex again
    | Checking                // wait_data returned true
    | Reading                 // empty() said no, about to read top()
    | Popping(seen: Task)     // about to call safe_pop
    | Running(task: Task)     // popped, about to run the core
    | Finishing(task: Task)   // the core has run
    | Exited                  // wait_data returned false

  datatype Popped = Popped(worker: nat, task: Task)

  // `joined` (tasks handed in from outside), `pushed`, `popped` and `ran` (cores executed)
  // record the history; no step reads them.
  datatype Pool = Pool(queue: seq<Task>, pcs: seq<Pc>,
                       joined: seq<Task>, pushed: seq<Task>, popped: seq<Popped>, ran: seq<int>)

  // Whom notify_one wakes.
  datatype Wake = Nobody | Worker(w: nat)

  datatype Step =
    | Join(task: Task, wake: Wake)           // safe_push from outside
    | FastCheck(w: nat)                      // wait_data, before the mutex
    | LockedCheck(w: nat)                    // wait_data, under the mutex
    | Resume(w: nat)                         // wait_data, after the wait
    | EmptyCheck(w: nat)                     // _queue->empty()
    | ReadTop(w: nat, garbage: Task)         // _queue->top(); any value when the queue is empty
    | SafePop(w: nat)
    | RunCore(w: nat)
    | Finish(w: nat, wake: Wake)             // ring tasks push their successor
    | Spurious(w: nat)                       // a wake-up nobody asked for

  predicate CanWake(p: Pool, wake: Wake) {
    match wake
    case Nobody => forall v :: 0 <= v < |p.pcs| ==> !p.pcs[v].Waiting?
    case Worker(v) => v < |p.pcs| && p.pcs[v].Waiting?
  }

  predicate Respawns(t: Task) {
    t.Ring? && t.times != 0
  }

  function Successor(t: Task): Task
    requires Respawns(t)
  {
    Ring(t.core, if t.times > 0 then t.times - 1 else t.times)
  }

  predicate Enabled(p: Pool, s: Step) {
    if s.Join? then CanWake(p, s.wake)
    else
      && s.w < |p.pcs|
      && var pc := p.pcs[s.w];
      match s
      case FastCheck(_) => pc.LoopHead?
      case LockedCheck(_) => pc.Locking?
      case Resume(_) => pc.Notified?
      case EmptyCheck(_) => pc.Checking?
      case ReadTop(_, _) => pc.Reading?
      case SafePop(_) => pc.Popping?
      case RunCore(_) => pc.Running?
      case Finish(_, wake) => pc.Finishing? && (Respawns(pc.task) ==> CanWake(p, wake))
      case Spurious(_) => pc.Waiting?
  }

  function At(p: Pool, w: nat, pc: Pc): Pool
    requires w < |p.pcs|
  {
    p.(pcs := p.pcs[w := pc])
  }

  // safe_push: the task goes to the back and one sleeper, if there is one, is notified.
  function Push(p: Pool, t: Task, wake: Wake): Pool
    requires CanWake(p, wake)
  {
    var q := p.(queue := p.queue + [t], pushed := p.pushed + [t]);
    if wake.Nobody? then q else At(q, wake.w, Notified)
  }

  function Do(p: Pool, s: Step): Pool
    requires Enabled(p, s)
  {
    match s
    case Join(t, wake) => Push(p, t, wake).(joined := p.joined + [t])
    case FastCheck(w) => At(p, w, if p.queue != [] then Checking else Locking)
    case LockedCheck(w) => At(p, w, if p.queue == [] then Waiting else Checking)
    case Resume(w) => At(p, w, if p.queue == [] then Exited else Checking)
    case EmptyCheck(w) => At(p, w, if p.queue == [] then LoopHead else Reading)
    case ReadTop(w, garbage) => At(p, w, Popping(if p.queue == [] then garbage else p.queue[0]))
    case SafePop(w) =>
      if p.queue == [] then At(p, w, LoopHead)
      else At(p, w, Running(p.queue[0])).(queue := p.queue[1..], popped := p.popped + [Popped(w, p.queue[0])])
    case RunCore(w) =>
      var t := p.pcs[w].task;
      At(p, w, Finishing(t)).(ran := if t == Ring(t.core, 0) then p.ran else p.ran + [t.core])
    case Finish(w, wake) =>
      var t := p.pcs[w].task;
      At(if Respawns(t) then Push(p, Successor(t), wake) else p, w, LoopHead)
    case Spurious(w) => At(p, w, Notified)
  }

  // ---- Runs ----

  predicate IsRun(p: Pool, steps: seq<Step>)
    decreases |steps|
  {
    steps == [] || (Enabled(p, steps[0]) && IsRun(Do(p, steps[0]), steps[1..]))
  }

  function Final(p: Pool, steps: seq<Step>): Pool
    requires IsRun(p, steps)
    decreases |steps|
  {
    if steps == [] then p else Final(Do(p, steps[0]), steps[1..])
  }

  // `workers` threads that have just been started, over a queue that already holds `tasks`.
  function Start(workers: nat, tasks: seq<Task>): Pool {
    Pool(tasks, seq(workers, _ => LoopHead), tasks, tasks, [], [])
  }

  predicate NoSpurious(steps: seq<Step>) {
    forall i :: 0 <= i < |steps| ==> !steps[i].Spurious?
  }

  lemma {:induction false} RunConcat(p: Pool, a: seq<Step>, b: seq<Step>)
    requires IsRun(p, a) && IsRun(Final(p, a), b)
    decreases |a|
    ensures IsRun(p, a + b) && Final(p, a + b) == Final(Final(p, a), b)
  {
    if a == [] {
      assert a + b == b;
    } else {
      assert (a + b)[1..] == a[1..] + b;
      RunConcat(Do(p, a[0]), a[1..], b);
    }
  }

  // ---- The pool keeps a worker and never sleeps on work ----

  predicate Live(pc: Pc) {
    !pc.Exited?
  }

  predicate Awake(pc: Pc) {
    !pc.Exited? && !pc.Waiting?
  }

  // The inductive invariant: an empty queue leaves some live worker that has not been
  // notified, and a non-empty one some live worker that is not asleep.
  ghost predicate Staffed(p: Pool) {
    if p.queue == [] then exists w :: 0 <= w < |p.pcs| && Live(p.pcs[w]) && !p.pcs[w].Notified?
    else exists w :: 0 <= w < |p.pcs| && Awake(p.pcs[w])
  }

  lemma StepKeepsStaffed(p: Pool, s: Step)
    requires Staffed(p) && Enabled(p, s) && !s.Spurious?
    ensures Staffed(Do(p, s)) && |Do(p, s).pcs| == |p.pcs|
  {
    var q := Do(p, s);
    var v: nat :| v < |p.pcs| && Live(p.pcs[v]) && (if p.queue == [] then !p.pcs[v].Notified? else !p.pcs[v].Waiting?);
    assert Live(p.pcs[v]);
    if s.Join? {
      if s.wake.Worker? {
        assert Awake(q.pcs[s.wake.w]);
      } else {
        assert q.pcs == p.pcs;
        assert Live(q.pcs[v]);
        assert !p.pcs[v].Waiting?;
        assert Awake(q.pcs[v]);
      }
    } else {
      var u := q.pcs[s.w];
      if Live(u) && (if q.queue == [] then !u.Notified? else !u.Waiting?) {
      } else {
        assert s.w != v;
        assert q.pcs[v] == p.pcs[v];
      }
    }
  }

  // In every interleaving without spurious wake-ups.
  lemma {:induction false} RunKeepsStaffed(p: Pool, steps: seq<Step>)
    requires Staffed(p) && IsRun(p, steps) && NoSpurious(steps)
    decreases |steps|
    ensures Staffed(Final(p, steps)) && |Final(p, steps).pcs| == |p.pcs|
  {
    if steps != [] {
      StepKeepsStaffed(p, steps[0]);
      RunKeepsStaffed(Do(p, steps[0]), steps[1..]);
    }
  }

  lemma PoolNeverDiesOrSleepsOnWork(workers: nat, tasks: seq<Task>, steps: seq<Step>)
    requires workers > 0 && IsRun(Start(workers, tasks), steps) && NoSpurious(steps)
    ensures var p := Final(Start(workers, tasks), steps);
      && |p.pcs| == workers
      && (exists w :: 0 <= w < workers && Live(p.pcs[w]))
      && (p.queue != [] ==> exists w :: 0 <= w < workers && Awake(p.pcs[w]))
  {
    var p0 := Start(workers, tasks);
    assert Awake(p0.pcs[0]);
    RunKeepsStaffed(p0, steps);
  }

  // ---- Endless runs ----

  ghost predicate IsEndlessRun(state: nat -> Pool, step: nat -> Step) {
    forall n: nat :: Enabled(state(n), step(n)) && !step(n).Spurious? && state(n + 1) == Do(state(n), step(n))
  }

  lemma {:induction false} EndlessStaffed(state: nat -> Pool, step: nat -> Step, n: nat)
    requires IsEndlessRun(state, step) && Staffed(state(0))
    ensures Staffed(state(n)) && |state(n).pcs| == |state(0).pcs|
  {
    if n > 0 {
      EndlessStaffed(state, step, n - 1);
      StepKeepsStaffed(state(n - 1), step(n - 1));
    }
  }

  // An exited worker stays exited.
  lemma {:induction false} ExitIsForever(state: nat -> Pool, step: nat -> Step, w: nat, m: nat, n: nat)
    requires IsEndlessRun(state, step) && m <= n
    requires w < |state(m).pcs| && !Live(state(m).pcs[w])
    ensures w < |state(n).pcs| && !Live(state(n).pcs[w])
  {
    if m < n {
      ExitIsForever(state, step, w, m, n - 1);
      var p, s := state(n - 1), step(n - 1);
      assert Enabled(p, s) && state((n - 1) + 1) == Do(p, s);
      ExitedStays(p, s, w);
    }
  }

  lemma ExitedStays(p: Pool, s: Step, w: nat)
    requires Enabled(p, s) && w < |p.pcs| && !Live(p.pcs[w])
    ensures w < |Do(p, s).pcs| && !Live(Do(p, s).pcs[w])
  {
  }

  ghost predicate HasExited(state: nat -> Pool, w: nat, n: nat) {
    w < |state(n).pcs| && !Live(state(n).pcs[w])
  }

  ghost predicate EverExits(state: nat -> Pool, w: nat) {
    exists n: nat :: HasExited(state, w, n)
  }

  // If each of the first k workers exits at some time, they are all exited at one time.
  lemma {:induction false} AllExitedAt(state: nat -> Pool, step: nat -> Step, k: nat) returns (n: nat)
    requires IsEndlessRun(state, step) && Staffed(state(0)) && k <= |state(0).pcs|
    requires forall w: nat :: w < k ==> EverExits(state, w)
    ensures |state(n).pcs| == |state(0).pcs| && forall w :: 0 <= w < k ==> !Live(state(n).pcs[w])
  {
    if k == 0 {
      return 0;
    }
    var a := AllExitedAt(state, step, k - 1);
    assert EverExits(state, k - 1);
    var b: nat :| HasExited(state, k - 1, b);
    n := if a < b then b else a;
    EndlessStaffed(state, step, n);
    forall w: nat | w < k ensures !Live(state(n).pcs[w]) {
      ExitIsForever(state, step, w, if w < k - 1 then a else b, n);
    }
  }

  // In every endless run some worker never exits.
  lemma SomeWorkerNeverExits(state: nat -> Pool, step: nat -> Step, workers: nat, tasks: seq<Task>)
    requires workers > 0 && state(0) == Start(workers, tasks) && IsEndlessRun(state, step)
    ensures exists w: nat :: w < workers && !EverExits(state, w)
    ensures forall n: nat :: |state(n).pcs| == workers
  {
    assert Awake(state(0).pcs[0]);
    assert Staffed(state(0));
    forall n: nat ensures |state(n).pcs| == workers {
      EndlessStaffed(state, step, n);
    }
    if forall w: nat :: w < workers ==> EverExits(state, w) {
      var n := AllExitedAt(state, step, workers);
      EndlessStaffed(state, step, n);
    }
  }

  // ---- Progress: an awake worker left alone pops the head ----

  // How many of its own steps a worker is away from its next pop, on a non-empty queue.
  function Distance(pc: Pc): nat {
    match pc
    case Popping(_) => 1
    case Reading => 2
    case Checking => 3
    case LoopHead => 4
    case Locking => 4
    case Notified => 4
    case Finishing(_) => 5
    case Running(_) => 6
    case _ => 7
  }

  predicate StepOf(s: Step, w: nat) {
    !s.Join? && !s.Spurious? && s.w == w
  }

  function Sleeper(p: Pool, from: nat): (wake: Wake)
    requires from <= |p.pcs|
    requires forall v :: 0 <= v < from ==> !p.pcs[v].Waiting?
    ensures CanWake(p, wake)
    decreases |p.pcs| - from
  {
    if from == |p.pcs| then Nobody
    else if p.pcs[from].Waiting? then Worker(from)
    else Sleeper(p, from + 1)
  }

  function NextStep(p: Pool, w: nat): (s: Step)
    requires w < |p.pcs| && Awake(p.pcs[w])
    ensures Enabled(p, s) && StepOf(s, w)
  {
    match p.pcs[w]
    case LoopHead => FastCheck(w)
    case Locking => LockedCheck(w)
    case Notified => Resume(w)
    case Checking => EmptyCheck(w)
    case Reading => ReadTop(w, Plain(0))
    case Popping(_) => SafePop(w)
    case Running(_) => RunCore(w)
    case Finishing(_) => Finish(w, Sleeper(p, 0))
  }

  // A worker's own step on a non-empty queue is a pop or brings it nearer to one.
  lemma OwnStep(p: Pool, s: Step, w: nat)
    requires p.queue != [] && w < |p.pcs| && Awake(p.pcs[w]) && Enabled(p, s) && StepOf(s, w)
    ensures var q := Do(p, s);
      if s.SafePop? then q.popped == p.popped + [Popped(w, p.queue[0])] && Distance(p.pcs[w]) == 1
      else q.queue != [] && q.queue[0] == p.queue[0] && q.popped == p.popped
           && w < |q.pcs| && Awake(q.pcs[w]) && Distance(q.pcs[w]) == Distance(p.pcs[w]) - 1
  {
  }

  lemma {:induction false} AwakeWorkerPops(p: Pool, w: nat) returns (steps: seq<Step>)
    requires p.queue != [] && w < |p.pcs| && Awake(p.pcs[w])
    ensures IsRun(p, steps) && |steps| <= 6 && forall i :: 0 <= i < |steps| ==> StepOf(steps[i], w)
    ensures Final(p, steps).popped == p.popped + [Popped(w, p.queue[0])]
    ensures |steps| == Distance(p.pcs[w])
    decreases Distance(p.pcs[w])
  {
    var s := NextStep(p, w);
    var q := Do(p, s);
    OwnStep(p, s, w);
    if s.SafePop? {
      steps := [s];
      assert Final(q, steps[1..]) == q;
    } else {
      var rest := AwakeWorkerPops(q, w);
      steps := [s] + rest;
      assert steps[1..] == rest;
    }
  }

  // From every reachable state with work, one worker can take the head in at most six steps
  // of its own, whatever the others do not do.
  lemma HeadCanAlwaysBePopped(workers: nat, tasks: seq<Task>, steps: seq<Step>) returns (w: nat, more: seq<Step>)
    requires workers > 0 && IsRun(Start(workers, tasks), steps) && NoSpurious(steps)
    requires Final(Start(workers, tasks), steps).queue != []
    ensures var p := Final(Start(workers, tasks), steps);
      && IsRun(p, more) && |more| <= 6 && (forall i :: 0 <= i < |more| ==> StepOf(more[i], w))
      && Final(p, more).popped == p.popped + [Popped(w, p.queue[0])]
  {
    PoolNeverDiesOrSleepsOnWork(workers, tasks, steps);
    var p := Final(Start(workers, tasks), steps);
    w :| w < workers && Awake(p.pcs[w]);
    more := AwakeWorkerPops(p, w);
  }
}
