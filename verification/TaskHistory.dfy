/** What the pool's runs do to tasks: order, exactly-once, counting and rotation. */
module TaskHistory {
  import opened TaskPool

  // ---- First in, first out, exactly once ----

  function Tasks(popped: seq<Popped>): seq<Task> {
    seq(|popped|, i requires 0 <= i < |popped| => popped[i].task)
  }

  // The task a worker last popped.
  function LastTaken(popped: seq<Popped>, w: nat): seq<Task> {
    if popped == [] then []
    else if popped[|popped| - 1].worker == w then [popped[|popped| - 1].task]
    else LastTaken(popped[..|popped| - 1], w)
  }

  ghost predicate Fifo(p: Pool) {
    && p.pushed == Tasks(p.popped) + p.queue
    && forall w :: 0 <= w < |p.pcs| && (p.pcs[w].Running? || p.pcs[w].Finishing?) ==>
         LastTaken(p.popped, w) == [p.pcs[w].task]
  }

  lemma PopKeepsFifo(p: Pool, w: nat)
    requires Fifo(p) && Enabled(p, SafePop(w)) && p.queue != []
    ensures Fifo(Do(p, SafePop(w)))
  {
    var q := Do(p, SafePop(w));
    assert q.popped[..|q.popped| - 1] == p.popped;
    assert Tasks(q.popped) == Tasks(p.popped) + [p.queue[0]];
    assert p.queue == [p.queue[0]] + q.queue;
  }

  lemma StepKeepsFifo(p: Pool, s: Step)
    requires Fifo(p) && Enabled(p, s)
    ensures Fifo(Do(p, s))
  {
    if s.SafePop? && p.queue != [] {
      PopKeepsFifo(p, s.w);
    } else {
      var q := Do(p, s);
      assert q.popped == p.popped;
      assert q.pushed == p.pushed + q.queue[|p.queue|..] && q.queue[..|p.queue|] == p.queue;
    }
  }

  // In every interleaving the i-th pop takes the i-th push, no push is popped twice, and a
  // worker works on what it popped, whatever head it had read before.
  lemma {:induction false} EveryRunIsFifo(p: Pool, steps: seq<Step>)
    requires Fifo(p) && IsRun(p, steps)
    decreases |steps|
    ensures Fifo(Final(p, steps))
  {
    if steps != [] {
      StepKeepsFifo(p, steps[0]);
      EveryRunIsFifo(Do(p, steps[0]), steps[1..]);
    }
  }

  lemma PushedIsPoppedThenQueued(workers: nat, tasks: seq<Task>, steps: seq<Step>)
    requires IsRun(Start(workers, tasks), steps)
    ensures var p := Final(Start(workers, tasks), steps);
      && p.pushed == Tasks(p.popped) + p.queue
      && forall w :: 0 <= w < |p.pcs| && (p.pcs[w].Running? || p.pcs[w].Finishing?) ==>
           LastTaken(p.popped, w) == [p.pcs[w].task]
  {
    var p0 := Start(workers, tasks);
    assert p0.pushed == Tasks(p0.popped) + p0.queue;
    EveryRunIsFifo(p0, steps);
  }

  // ---- How often a core runs ----

  // The runs of core c that task t still stands for; an endless ring task stands for none here.
  function Owed(t: Task, c: int): nat {
    if t.core != c then 0
    else if t.Plain? then 1
    else if t.times > 0 then t.times
    else 0
  }

  function OwedAll(ts: seq<Task>, c: int): nat {
    if ts == [] then 0 else Owed(ts[0], c) + OwedAll(ts[1..], c)
  }

  // What a worker still owes core c.
  function OwedBy(pc: Pc, c: int): nat {
    match pc
    case Running(t) => Owed(t, c)
    case Finishing(t) => if Respawns(t) then Owed(Successor(t), c) else 0
    case _ => 0
  }

  function OwedByAll(pcs: seq<Pc>, c: int): nat {
    if pcs == [] then 0 else OwedBy(pcs[0], c) + OwedByAll(pcs[1..], c)
  }

  lemma {:induction false} OwedAllAppend(a: seq<Task>, b: seq<Task>, c: int)
    ensures OwedAll(a + b, c) == OwedAll(a, c) + OwedAll(b, c)
  {
    if a == [] {
      assert a + b == b;
    } else {
      assert (a + b)[1..] == a[1..] + b;
      OwedAllAppend(a[1..], b, c);
    }
  }

  lemma {:induction false} OwedByAllUpdate(pcs: seq<Pc>, w: nat, pc: Pc, c: int)
    requires w < |pcs|
    ensures OwedByAll(pcs[w := pc], c) == OwedByAll(pcs, c) - OwedBy(pcs[w], c) + OwedBy(pc, c)
  {
    if w > 0 {
      assert pcs[w := pc][1..] == pcs[1..][w - 1 := pc];
      OwedByAllUpdate(pcs[1..], w - 1, pc, c);
    } else {
      assert pcs[w := pc][1..] == pcs[1..];
    }
  }

  predicate Endless(t: Task) {
    t.Ring? && t.times < 0
  }

  predicate NoEndless(ts: seq<Task>, c: int) {
    forall i :: 0 <= i < |ts| ==> !(Endless(ts[i]) && ts[i].core == c)
  }

  function Runs(p: Pool, c: int): nat {
    multiset(p.ran)[c]
  }

  // The conservation law: runs done plus runs owed is what was handed in.
  ghost predicate Balanced(p: Pool, c: int) {
    && NoEndless(p.queue, c)
    && (forall w :: 0 <= w < |p.pcs| && (p.pcs[w].Running? || p.pcs[w].Finishing?) ==>
          !(Endless(p.pcs[w].task) && p.pcs[w].task.core == c))
    && Runs(p, c) + OwedAll(p.queue, c) + OwedByAll(p.pcs, c) == OwedAll(p.joined, c)
  }

  lemma PushOwes(p: Pool, t: Task, wake: Wake, c: int)
    requires CanWake(p, wake)
    ensures var q := Push(p, t, wake);
      && OwedAll(q.queue, c) == OwedAll(p.queue, c) + Owed(t, c)
      && OwedByAll(q.pcs, c) == OwedByAll(p.pcs, c)
  {
    OwedAllAppend(p.queue, [t], c);
    assert OwedAll([t], c) == Owed(t, c);
    if wake.Worker? {
      OwedByAllUpdate(p.pcs, wake.w, Notified, c);
    }
  }

  lemma JoinKeepsBalance(p: Pool, s: Step, c: int)
    requires s.Join? && Balanced(p, c) && Enabled(p, s) && NoEndless([s.task], c)
    ensures Balanced(Do(p, s), c)
  {
    assert [s.task][0] == s.task;
    PushOwes(p, s.task, s.wake, c);
    OwedAllAppend(p.joined, [s.task], c);
    assert OwedAll([s.task], c) == Owed(s.task, c);
  }

  lemma FinishKeepsBalance(p: Pool, s: Step, c: int)
    requires s.Finish? && Balanced(p, c) && Enabled(p, s)
    ensures Balanced(Do(p, s), c)
  {
    var t := p.pcs[s.w].task;
    if Respawns(t) {
      var r := Push(p, Successor(t), s.wake);
      PushOwes(p, Successor(t), s.wake, c);
      assert r.pcs[s.w] == p.pcs[s.w];
      OwedByAllUpdate(r.pcs, s.w, LoopHead, c);
    } else {
      OwedByAllUpdate(p.pcs, s.w, LoopHead, c);
    }
  }

  lemma PopKeepsBalance(p: Pool, w: nat, c: int)
    requires Balanced(p, c) && Enabled(p, SafePop(w)) && p.queue != []
    ensures Balanced(Do(p, SafePop(w)), c)
  {
    var q := Do(p, SafePop(w));
    OwedByAllUpdate(p.pcs, w, Running(p.queue[0]), c);
    assert OwedAll(p.queue, c) == Owed(p.queue[0], c) + OwedAll(q.queue, c);
  }

  lemma WorkerStepKeepsBalance(p: Pool, s: Step, c: int)
    requires !s.Join? && !s.Finish? && !(s.SafePop? && p.queue != []) && Balanced(p, c) && Enabled(p, s)
    ensures Balanced(Do(p, s), c)
  {
    var q := Do(p, s);
    OwedByAllUpdate(p.pcs, s.w, q.pcs[s.w], c);
    assert q.pcs == p.pcs[s.w := q.pcs[s.w]] && q.queue == p.queue && q.joined == p.joined;
    if s.RunCore? {
      assert Runs(q, c) == Runs(p, c) + OwedBy(p.pcs[s.w], c) - OwedBy(q.pcs[s.w], c);
    } else {
      assert OwedBy(q.pcs[s.w], c) == 0 == OwedBy(p.pcs[s.w], c);
    }
  }

  lemma StepKeepsBalance(p: Pool, s: Step, c: int)
    requires Balanced(p, c) && Enabled(p, s)
    requires s.Join? ==> NoEndless([s.task], c)
    ensures Balanced(Do(p, s), c)
  {
    hide Balanced;
    if s.Join? {
      JoinKeepsBalance(p, s, c);
    } else if s.Finish? {
      FinishKeepsBalance(p, s, c);
    } else if s.SafePop? && p.queue != [] {
      PopKeepsBalance(p, s.w, c);
    } else {
      WorkerStepKeepsBalance(p, s, c);
    }
  }

  lemma {:induction false} RunKeepsBalance(p: Pool, steps: seq<Step>, c: int)
    requires Balanced(p, c) && IsRun(p, steps)
    requires forall i :: 0 <= i < |steps| && steps[i].Join? ==> NoEndless([steps[i].task], c)
    decreases |steps|
    ensures Balanced(Final(p, steps), c)
  {
    if steps != [] {
      StepKeepsBalance(p, steps[0], c);
      RunKeepsBalance(Do(p, steps[0]), steps[1..], c);
    }
  }

  lemma {:induction false} NothingOwedAtStart(workers: nat, c: int)
    ensures OwedByAll(seq(workers, _ => LoopHead), c) == 0
  {
    if workers > 0 {
      assert seq(workers, _ => LoopHead)[1..] == seq(workers - 1, _ => LoopHead);
      NothingOwedAtStart(workers - 1, c);
    }
  }

  // With any number of workers and in every interleaving: the core of a ring task of
  // times = n runs at most n times, and exactly n times once the task is in nobody's hands.
  lemma RingRunsExactlyTimes(workers: nat, tasks: seq<Task>, steps: seq<Step>, c: int)
    requires IsRun(Start(workers, tasks), steps)
    requires NoEndless(tasks, c)
    requires forall i :: 0 <= i < |steps| && steps[i].Join? ==> NoEndless([steps[i].task], c)
    ensures var p := Final(Start(workers, tasks), steps);
      && Runs(p, c) <= OwedAll(p.joined, c)
      && (OwedAll(p.queue, c) == 0 && OwedByAll(p.pcs, c) == 0 ==> Runs(p, c) == OwedAll(p.joined, c))
      && (Runs(p, c) == OwedAll(p.joined, c) ==> OwedAll(p.queue, c) == 0 && OwedByAll(p.pcs, c) == 0)
  {
    NothingOwedAtStart(workers, c);
    RunKeepsBalance(Start(workers, tasks), steps, c);
  }

  // ---- Endless ring tasks rotate ----

  // The queue after j turns of taking the head and putting it back.
  function Rotated(q: seq<Task>, j: nat): (r: seq<Task>)
    requires q != []
    ensures |r| == |q|
  {
    if j == 0 then q else Rotated(q, j - 1)[1..] + [Rotated(q, j - 1)[0]]
  }

  lemma WholeTurn(a: nat, k: nat)
    requires k > 0
    ensures (k + a) % k == a % k
  {
    RemainderIsUnique(a / k + 1, a % k, k);
    assert k + a == (a / k + 1) * k + a % k;
  }

  lemma RemainderIsUnique(q: nat, r: nat, k: nat)
    requires r < k
    ensures (q * k + r) % k == r
  {
    var q' := (q * k + r) / k;
    if q' < q { MulOrder(q' + 1, q, k); }
    if q' > q { MulOrder(q + 1, q', k); }
  }

  lemma MulOrder(a: nat, b: nat, k: nat)
    requires a <= b
    ensures a * k <= b * k
  {
  }

  lemma {:induction false} RotatedAt(q: seq<Task>, j: nat, i: nat)
    requires i < |q|
    ensures Rotated(q, j)[i] == q[(i + j) % |q|]
  {
    if j > 0 {
      if i + 1 < |q| {
        RotatedAt(q, j - 1, i + 1);
      } else {
        RotatedAt(q, j - 1, 0);
        WholeTurn(j - 1, |q|);
      }
    }
  }

  ghost predicate Rotating(p: Pool, q: seq<Task>) {
    && q != [] && (forall i :: 0 <= i < |q| ==> Endless(q[i]))
    && |p.pcs| == 1
    && (forall j :: 0 <= j < |p.ran| ==> p.ran[j] == q[j % |q|].core)
    && var pc := p.pcs[0];
       match pc
       case Running(t) => [t] + p.queue == Rotated(q, |p.ran|)
       case Finishing(t) => |p.ran| > 0 && [t] + p.queue == Rotated(q, |p.ran| - 1)
       case Waiting => false
       case Notified => false
       case Exited => false
       case Locking => false
       case _ => p.queue == Rotated(q, |p.ran|)
  }

  // The steps the single worker has taken: six a turn, and where it stands in its turn.
  function StepsTaken(p: Pool): int
    requires |p.pcs| == 1
  {
    6 * |p.ran| +
    match p.pcs[0]
    case Checking => 1
    case Reading => 2
    case Popping(_) => 3
    case Running(_) => 4
    case Finishing(_) => -1
    case _ => 0
  }

  lemma StepKeepsRotation(p: Pool, s: Step, q: seq<Task>)
    requires Rotating(p, q) && Enabled(p, s) && !s.Join?
    ensures Rotating(Do(p, s), q) && StepsTaken(Do(p, s)) == StepsTaken(p) + 1
  {
    var r := Do(p, s);
    if s.RunCore? {
      var t := p.pcs[0].task;
      RotatedAt(q, |p.ran|, 0);
      assert t == Rotated(q, |p.ran|)[0] == q[|p.ran| % |q|];
    } else if s.Finish? {
      var t := p.pcs[0].task;
      RotatedAt(q, |p.ran| - 1, 0);
      assert t == Rotated(q, |p.ran| - 1)[0];
      assert Successor(t) == t;
      assert p.queue == Rotated(q, |p.ran| - 1)[1..];
    } else if s.SafePop? {
      assert [p.queue[0]] + r.queue == p.queue;
    }
  }

  lemma {:induction false} RunKeepsRotation(p: Pool, steps: seq<Step>, q: seq<Task>)
    requires Rotating(p, q) && IsRun(p, steps)
    requires forall i :: 0 <= i < |steps| ==> !steps[i].Join?
    decreases |steps|
    ensures Rotating(Final(p, steps), q) && StepsTaken(Final(p, steps)) == StepsTaken(p) + |steps|
  {
    if steps != [] {
      StepKeepsRotation(p, steps[0], q);
      RunKeepsRotation(Do(p, steps[0]), steps[1..], q);
    }
  }

  // One worker, k endless ring tasks and nobody else joining: the j-th turn is task j mod k,
  // a turn comes round every six steps, and the worker never sleeps or exits.
  lemma EndlessRingsRotate(q: seq<Task>, steps: seq<Step>)
    requires q != [] && (forall i :: 0 <= i < |q| ==> Endless(q[i]))
    requires IsRun(Start(1, q), steps) && forall i :: 0 <= i < |steps| ==> !steps[i].Join?
    ensures var p := Final(Start(1, q), steps);
      && |p.pcs| == 1 && Awake(p.pcs[0])
      && |p.ran| == (|steps| + 1) / 6
      && forall j :: 0 <= j < |p.ran| ==> p.ran[j] == q[j % |q|].core
  {
    RunKeepsRotation(Start(1, q), steps, q);
  }
}
