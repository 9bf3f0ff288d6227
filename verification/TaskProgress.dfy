/**
 * The pool's runs get somewhere: without endless ring tasks they end with all work done, and
 * in a fair endless run every pushed task is popped.
 */
module TaskProgress {
  import opened TaskPool
  import opened TaskHistory

  // ---- How many pops a task stands for ----

  // A ring task is popped once for every run and once more when its count is used up.
  function Pops(t: Task): nat {
    if t.Ring? && t.times > 0 then t.times + 1 else 1
  }

  function PopsAll(ts: seq<Task>): nat {
    if ts == [] then 0 else Pops(ts[0]) + PopsAll(ts[1..])
  }

  // What a worker's task still has in front of it.
  function PopsBy(pc: Pc): nat {
    if pc.Running? || pc.Finishing? then Pops(pc.task) - 1 else 0
  }

  function PopsByAll(pcs: seq<Pc>): nat {
    if pcs == [] then 0 else PopsBy(pcs[0]) + PopsByAll(pcs[1..])
  }

  predicate Finite(ts: seq<Task>) {
    forall i :: 0 <= i < |ts| ==> !Endless(ts[i])
  }

  // No endless task anywhere, and every pop that was handed in is done or still to come.
  ghost predicate Counted(p: Pool) {
    && Finite(p.queue)
    && (forall w :: 0 <= w < |p.pcs| && (p.pcs[w].Running? || p.pcs[w].Finishing?) ==> !Endless(p.pcs[w].task))
    && |p.popped| + PopsAll(p.queue) + PopsByAll(p.pcs) == PopsAll(p.joined)
    && |p.pushed| == |p.popped| + |p.queue|
  }

  lemma {:induction false} PopsAllAppend(a: seq<Task>, b: seq<Task>)
    ensures PopsAll(a + b) == PopsAll(a) + PopsAll(b)
  {
    if a == [] {
      assert a + b == b;
    } else {
      assert (a + b)[1..] == a[1..] + b;
      PopsAllAppend(a[1..], b);
    }
  }

  lemma PopsAllSnoc(a: seq<Task>, t: Task)
    ensures PopsAll(a + [t]) == PopsAll(a) + Pops(t)
  {
    PopsAllAppend(a, [t]);
    assert PopsAll([t]) == Pops(t);
  }

  lemma {:induction false} PopsByUpdate(pcs: seq<Pc>, w: nat, pc: Pc)
    requires w < |pcs|
    ensures PopsByAll(pcs[w := pc]) == PopsByAll(pcs) - PopsBy(pcs[w]) + PopsBy(pc)
  {
    if w > 0 {
      assert pcs[w := pc][1..] == pcs[1..][w - 1 := pc];
      PopsByUpdate(pcs[1..], w - 1, pc);
    } else {
      assert pcs[w := pc][1..] == pcs[1..];
    }
  }

  lemma {:induction false} AtLeastOnePopEach(ts: seq<Task>)
    ensures |ts| <= PopsAll(ts)
  {
    if ts != [] {
      AtLeastOnePopEach(ts[1..]);
    }
  }

  lemma PushCounts(p: Pool, t: Task, wake: Wake)
    requires CanWake(p, wake)
    ensures var q := Push(p, t, wake);
      && PopsAll(q.queue) == PopsAll(p.queue) + Pops(t) && PopsByAll(q.pcs) == PopsByAll(p.pcs)
      && |q.queue| == |p.queue| + 1 && |q.pushed| == |p.pushed| + 1
  {
    PopsAllSnoc(p.queue, t);
    if wake.Worker? {
      PopsByUpdate(p.pcs, wake.w, Notified);
    }
  }

  lemma JoinKeepsCount(p: Pool, s: Step)
    requires s.Join? && Counted(p) && Enabled(p, s) && !Endless(s.task)
    ensures Counted(Do(p, s))
  {
    PushCounts(p, s.task, s.wake);
    PopsAllSnoc(p.joined, s.task);
  }

  lemma FinishKeepsCount(p: Pool, s: Step)
    requires s.Finish? && Counted(p) && Enabled(p, s)
    ensures Counted(Do(p, s))
  {
    var t := p.pcs[s.w].task;
    if Respawns(t) {
      var r := Push(p, Successor(t), s.wake);
      PushCounts(p, Successor(t), s.wake);
      assert r.pcs[s.w] == p.pcs[s.w];
      PopsByUpdate(r.pcs, s.w, LoopHead);
    } else {
      PopsByUpdate(p.pcs, s.w, LoopHead);
    }
  }

  lemma PopKeepsCount(p: Pool, w: nat)
    requires Counted(p) && Enabled(p, SafePop(w)) && p.queue != []
    ensures Counted(Do(p, SafePop(w)))
  {
    PopsByUpdate(p.pcs, w, Running(p.queue[0]));
  }

  lemma WorkerStepKeepsCount(p: Pool, s: Step)
    requires !s.Join? && !s.Finish? && !(s.SafePop? && p.queue != []) && Counted(p) && Enabled(p, s)
    ensures Counted(Do(p, s))
  {
    hide PopsAll, PopsByAll;
    var q := Do(p, s);
    assert q.pcs == p.pcs[s.w := q.pcs[s.w]] && q.queue == p.queue && q.joined == p.joined;
    PopsByUpdate(p.pcs, s.w, q.pcs[s.w]);
  }

  lemma StepKeepsCount(p: Pool, s: Step)
    requires Counted(p) && Enabled(p, s) && (s.Join? ==> !Endless(s.task))
    ensures Counted(Do(p, s))
  {
    hide Counted;
    if s.Join? {
      JoinKeepsCount(p, s);
    } else if s.Finish? {
      FinishKeepsCount(p, s);
    } else if s.SafePop? && p.queue != [] {
      PopKeepsCount(p, s.w);
    } else {
      WorkerStepKeepsCount(p, s);
    }
  }

  lemma StartIsCounted(workers: nat, tasks: seq<Task>)
    requires Finite(tasks)
    ensures Counted(Start(workers, tasks))
  {
    NoPopsAtStart(workers);
  }

  lemma {:induction false} NoPopsAtStart(workers: nat)
    ensures PopsByAll(seq(workers, _ => LoopHead)) == 0
  {
    if workers > 0 {
      assert seq(workers, _ => LoopHead)[1..] == seq(workers - 1, _ => LoopHead);
      NoPopsAtStart(workers - 1);
    }
  }

  // ---- How many steps a run can take ----

  // The steps a worker can take before it sleeps, exits, or the queue changes.
  function Effort(pc: Pc, empty: bool): nat {
    match pc
    case Waiting => 0
    case Exited => 0
    case Notified => if empty then 1 else 4
    case Locking => if empty then 1 else 4
    case LoopHead => if empty then 2 else 4
    case Checking => 3
    case Reading => if empty then 4 else 2
    case Popping(_) => if empty then 3 else 1
    case Finishing(_) => if empty then 3 else 5
    case Running(_) => if empty then 4 else 6
  }

  function EffortAll(pcs: seq<Pc>, empty: bool): nat {
    if pcs == [] then 0 else Effort(pcs[0], empty) + EffortAll(pcs[1..], empty)
  }

  lemma {:induction false} EffortUpdate(pcs: seq<Pc>, w: nat, pc: Pc, empty: bool)
    requires w < |pcs|
    ensures EffortAll(pcs[w := pc], empty) == EffortAll(pcs, empty) - Effort(pcs[w], empty) + Effort(pc, empty)
  {
    if w > 0 {
      assert pcs[w := pc][1..] == pcs[1..][w - 1 := pc];
      EffortUpdate(pcs[1..], w - 1, pc, empty);
    } else {
      assert pcs[w := pc][1..] == pcs[1..];
    }
  }

  // A pop that empties the queue sends others back, a push gives them new work.
  lemma {:induction false} EffortSwitch(pcs: seq<Pc>)
    ensures EffortAll(pcs, true) <= EffortAll(pcs, false) + 2 * |pcs|
    ensures EffortAll(pcs, false) <= EffortAll(pcs, true) + 3 * |pcs|
  {
    if pcs != [] {
      EffortSwitch(pcs[1..]);
    }
  }

  function EffortOf(p: Pool): nat {
    EffortAll(p.pcs, p.queue == [])
  }

  // What a pop or a push may cost all workers together.
  function PopCost(workers: nat): nat {
    2 * workers + 6
  }

  function PushCost(workers: nat): nat {
    3 * workers + 5
  }

  lemma PushEffort(p: Pool, t: Task, wake: Wake)
    requires CanWake(p, wake)
    ensures EffortOf(Push(p, t, wake)) <= EffortOf(p) + 3 * |p.pcs| + 4
  {
    EffortSwitch(p.pcs);
    if wake.Worker? {
      EffortUpdate(p.pcs, wake.w, Notified, false);
    }
  }

  lemma FinishEffort(p: Pool, s: Step)
    requires s.Finish? && Enabled(p, s)
    ensures var q := Do(p, s);
      EffortOf(q) + 1 <= EffortOf(p) + if |q.pushed| > |p.pushed| then PushCost(|p.pcs|) else 0
  {
    var t := p.pcs[s.w].task;
    if Respawns(t) {
      var r := Push(p, Successor(t), s.wake);
      PushEffort(p, Successor(t), s.wake);
      assert r.pcs[s.w] == p.pcs[s.w];
      EffortUpdate(r.pcs, s.w, LoopHead, false);
    } else {
      EffortUpdate(p.pcs, s.w, LoopHead, p.queue == []);
    }
  }

  lemma PopEffort(p: Pool, w: nat)
    requires Enabled(p, SafePop(w)) && p.queue != []
    ensures EffortOf(Do(p, SafePop(w))) + 1 <= EffortOf(p) + PopCost(|p.pcs|)
  {
    EffortUpdate(p.pcs, w, Running(p.queue[0]), false);
    EffortSwitch(p.pcs[w := Running(p.queue[0])]);
  }

  lemma WorkerStepEffort(p: Pool, s: Step)
    requires !s.Join? && !s.Finish? && !s.Spurious? && !(s.SafePop? && p.queue != []) && Enabled(p, s)
    ensures EffortOf(Do(p, s)) + 1 <= EffortOf(p)
  {
    var q := Do(p, s);
    assert q.pcs == p.pcs[s.w := q.pcs[s.w]] && q.queue == p.queue;
    EffortUpdate(p.pcs, s.w, q.pcs[s.w], p.queue == []);
  }

  // Steps are paid for by the effort at hand, by pops and by pushes.
  function Budget(p: Pool): nat {
    PopCost(|p.pcs|) * |p.popped| + PushCost(|p.pcs|) * |p.pushed|
  }

  lemma BudgetOf(p: Pool, q: Pool, popped: nat, pushed: nat)
    requires |q.pcs| == |p.pcs| && |q.popped| == |p.popped| + popped && |q.pushed| == |p.pushed| + pushed
    ensures Budget(q) == Budget(p) + PopCost(|p.pcs|) * popped + PushCost(|p.pcs|) * pushed
  {
    hide PopCost, PushCost;
    var a, b := PopCost(|p.pcs|), PushCost(|p.pcs|);
    assert a * (|p.popped| + popped) == a * |p.popped| + a * popped;
    assert b * (|p.pushed| + pushed) == b * |p.pushed| + b * pushed;
  }

  lemma StepIsPaid(p: Pool, s: Step)
    requires Enabled(p, s) && !s.Spurious?
    ensures var q := Do(p, s); |q.pcs| == |p.pcs| && EffortOf(q) + 1 + Budget(p) <= EffortOf(p) + Budget(q)
  {
    hide EffortOf, Budget;
    var q := Do(p, s);
    if s.Join? {
      PushEffort(p, s.task, s.wake);
      assert EffortOf(q) == EffortOf(Push(p, s.task, s.wake)) by { JoinEffort(p, s); }
      BudgetOf(p, q, 0, 1);
    } else if s.Finish? {
      FinishEffort(p, s);
      BudgetOf(p, q, 0, if Respawns(p.pcs[s.w].task) then 1 else 0);
    } else if s.SafePop? && p.queue != [] {
      PopEffort(p, s.w);
      BudgetOf(p, q, 1, 0);
    } else {
      WorkerStepEffort(p, s);
      BudgetOf(p, q, 0, 0);
    }
  }

  lemma JoinEffort(p: Pool, s: Step)
    requires s.Join? && Enabled(p, s)
    ensures EffortOf(Do(p, s)) == EffortOf(Push(p, s.task, s.wake))
  {
  }

  predicate JoinsFinite(steps: seq<Step>) {
    forall i :: 0 <= i < |steps| && steps[i].Join? ==> !Endless(steps[i].task)
  }

  lemma {:induction false} RunIsPaid(p: Pool, steps: seq<Step>)
    requires Counted(p) && IsRun(p, steps) && NoSpurious(steps) && JoinsFinite(steps)
    decreases |steps|
    ensures var q := Final(p, steps);
      Counted(q) && |q.pcs| == |p.pcs| && EffortOf(q) + |steps| + Budget(p) <= EffortOf(p) + Budget(q)
  {
    hide Counted, EffortOf, Budget, Enabled, Do;
    if steps != [] {
      var s := steps[0];
      StepKeepsCount(p, s);
      StepIsPaid(p, s);
      RunIsPaid(Do(p, s), steps[1..]);
    }
  }

  lemma {:induction false} EffortAtStart(workers: nat, empty: bool)
    ensures EffortAll(seq(workers, _ => LoopHead), empty) <= 4 * workers
  {
    if workers > 0 {
      assert seq(workers, _ => LoopHead)[1..] == seq(workers - 1, _ => LoopHead);
      EffortAtStart(workers - 1, empty);
    }
  }

  lemma BudgetBound(p: Pool)
    requires Counted(p)
    ensures Budget(p) <= (PopCost(|p.pcs|) + PushCost(|p.pcs|)) * PopsAll(p.joined)
  {
    hide PopsAll, PopsByAll;
    var a, b, n := PopCost(|p.pcs|), PushCost(|p.pcs|), PopsAll(p.joined);
    hide PopCost, PushCost, Counted;
    assert |p.popped| <= n && |p.pushed| <= n by { PopsBounds(p); }
    MulOrder(|p.popped|, n, a);
    MulOrder(|p.pushed|, n, b);
    assert (a + b) * n == a * n + b * n;
  }

  lemma PopsBounds(p: Pool)
    requires Counted(p)
    ensures |p.popped| <= PopsAll(p.joined) && |p.pushed| <= PopsAll(p.joined)
  {
    AtLeastOnePopEach(p.queue);
  }

  // With any number of workers, in every interleaving without spurious wake-ups and endless
  // tasks: the run is at most so long, whatever is joined meanwhile.
  lemma EveryRunEnds(workers: nat, tasks: seq<Task>, steps: seq<Step>)
    requires Finite(tasks) && IsRun(Start(workers, tasks), steps) && NoSpurious(steps) && JoinsFinite(steps)
    ensures var p := Final(Start(workers, tasks), steps);
      |steps| <= (5 * workers + 11) * PopsAll(p.joined) + 4 * workers
  {
    hide Counted, Budget, PopsAll, IsRun, Final, NoSpurious, JoinsFinite;
    var p0 := Start(workers, tasks);
    StartIsCounted(workers, tasks);
    EffortAtStart(workers, tasks == []);
    RunIsPaid(p0, steps);
    BudgetBound(Final(p0, steps));
    assert PopCost(workers) + PushCost(workers) == 5 * workers + 11;
  }

  // ---- Where a run ends ----

  // Nothing is left but joining and spurious wake-ups.
  ghost predicate Quiet(p: Pool) {
    forall s: Step :: Enabled(p, s) ==> s.Join? || s.Spurious?
  }

  lemma AwakeIsNotQuiet(p: Pool, w: nat)
    requires w < |p.pcs| && Awake(p.pcs[w])
    ensures !Quiet(p)
  {
    var s := NextStep(p, w);
    assert Enabled(p, s);
  }

  lemma QuietWorkers(p: Pool)
    requires Quiet(p)
    ensures forall w :: 0 <= w < |p.pcs| ==> !Awake(p.pcs[w])
  {
    forall w | 0 <= w < |p.pcs| && Awake(p.pcs[w]) ensures false {
      AwakeIsNotQuiet(p, w);
    }
  }

  lemma {:induction false} IdleOwesNothing(pcs: seq<Pc>, c: int)
    requires forall w :: 0 <= w < |pcs| ==> !Awake(pcs[w])
    ensures OwedByAll(pcs, c) == 0
  {
    if pcs != [] {
      IdleOwesNothing(pcs[1..], c);
    }
  }

  // Where a run stops, the queue is empty, some worker waits for more, and every core has run
  // exactly as often as the tasks handed in say.
  lemma EveryRunEndsWithAllDone(workers: nat, tasks: seq<Task>, steps: seq<Step>, c: int)
    requires workers > 0 && Finite(tasks) && IsRun(Start(workers, tasks), steps)
    requires NoSpurious(steps) && JoinsFinite(steps) && Quiet(Final(Start(workers, tasks), steps))
    ensures var p := Final(Start(workers, tasks), steps);
      && p.queue == [] && |p.pcs| == workers
      && (forall w :: 0 <= w < workers ==> p.pcs[w].Waiting? || p.pcs[w].Exited?)
      && (exists w :: 0 <= w < workers && p.pcs[w].Waiting?)
      && Runs(p, c) == OwedAll(p.joined, c)
  {
    hide IsRun, Final, Quiet;
    var p := Final(Start(workers, tasks), steps);
    PoolNeverDiesOrSleepsOnWork(workers, tasks, steps);
    QuietWorkers(p);
    forall i | 0 <= i < |steps| && steps[i].Join? ensures NoEndless([steps[i].task], c) {
      assert !Endless(steps[i].task);
    }
    RingRunsExactlyTimes(workers, tasks, steps, c);
    IdleOwesNothing(p.pcs, c);
  }

  // ---- One worker ----

  function SoloLeft(pc: Pc): nat {
    match pc
    case LoopHead => 3
    case Checking => 2
    case Reading => 1
    case Popping(_) => 0
    case Running(_) => 5
    case Finishing(_) => 4
    case Locking => 2
    case _ => 1
  }

  // Six steps for every pop to come, and where the worker stands.
  function SoloMeasure(p: Pool): nat
    requires |p.pcs| == 1
  {
    6 * (PopsAll(p.queue) + PopsBy(p.pcs[0])) + SoloLeft(p.pcs[0])
  }

  // A single worker meets no empty queue behind wait_data and is never notified.
  ghost predicate Solo(p: Pool) {
    && |p.pcs| == 1
    && var pc := p.pcs[0];
       && (pc.Checking? || pc.Reading? || pc.Popping? ==> p.queue != [])
       && (pc.Locking? || pc.Waiting? ==> p.queue == [])
       && !pc.Notified? && !pc.Exited?
       && Finite(p.queue) && (pc.Running? || pc.Finishing? ==> !Endless(pc.task))
  }

  lemma SoloStep(p: Pool, s: Step)
    requires Solo(p) && Enabled(p, s) && !s.Join? && !s.Spurious?
    ensures var q := Do(p, s);
      Solo(q) && SoloMeasure(q) + 1 == SoloMeasure(p) && q.joined == p.joined
  {
    if s.Finish? && Respawns(p.pcs[0].task) {
      PopsAllSnoc(p.queue, Successor(p.pcs[0].task));
    }
  }

  predicate Alone(steps: seq<Step>) {
    forall i :: 0 <= i < |steps| ==> !steps[i].Join? && !steps[i].Spurious?
  }

  lemma {:induction false} SoloRun(p: Pool, steps: seq<Step>)
    requires Solo(p) && IsRun(p, steps) && Alone(steps)
    decreases |steps|
    ensures var q := Final(p, steps);
      Solo(q) && SoloMeasure(q) + |steps| == SoloMeasure(p) && q.joined == p.joined
  {
    hide Solo, SoloMeasure, Enabled, Do;
    if steps != [] {
      SoloStep(p, steps[0]);
      SoloRun(Do(p, steps[0]), steps[1..]);
    }
  }

  // With one worker and nobody joining, a run ends after exactly six steps for every pop and
  // two to fall asleep.  Then each core has run as often as its tasks say, and the queue is
  // empty: ring tasks of times = n have run n times and are gone.
  lemma SoloRunEndsWithAllDone(tasks: seq<Task>, steps: seq<Step>)
    requires Finite(tasks) && IsRun(Start(1, tasks), steps) && Alone(steps)
    ensures |steps| <= 6 * PopsAll(tasks) + 2
    ensures var p := Final(Start(1, tasks), steps);
      && (Quiet(p) <==> |steps| == 6 * PopsAll(tasks) + 2)
      && (Quiet(p) ==> p.queue == [] && p.pcs == [Waiting] && forall c :: Runs(p, c) == OwedAll(tasks, c))
  {
    var p0 := Start(1, tasks);
    SoloRun(p0, steps);
    var p := Final(p0, steps);
    if Quiet(p) {
      QuietWorkers(p);
      forall c ensures Runs(p, c) == OwedAll(tasks, c) {
        EveryRunEndsWithAllDone(1, tasks, steps, c);
      }
    } else if !Awake(p.pcs[0]) {
      WaitingIsQuiet(p);
    } else {
      AwakeHasMore(p);
    }
  }

  // A ring task of n times by itself: popped n + 1 times, six steps each, its core run n times.
  lemma SoloRingRun(core: int, times: nat, steps: seq<Step>)
    requires IsRun(Start(1, [Ring(core, times)]), steps) && Alone(steps)
    ensures |steps| <= 6 * times + 8
    ensures var p := Final(Start(1, [Ring(core, times)]), steps);
      && (Quiet(p) <==> |steps| == 6 * times + 8)
      && (Quiet(p) ==> p.queue == [] && |p.popped| == times + 1 && Runs(p, core) == times)
  {
    hide Quiet, IsRun, Final, Enabled, Do;
    var t := Ring(core, times);
    var p0 := Start(1, [t]);
    assert [t][1..] == [] && PopsAll([t]) == times + 1 && OwedAll([t], core) == times;
    StartIsCounted(1, [t]);
    RunIsPaid(p0, steps);
    SoloRun(p0, steps);
    SoloRunEndsWithAllDone([t], steps);
    var p := Final(p0, steps);
    if Quiet(p) {
      assert p.pcs[1..] == [] && PopsByAll(p.pcs) == 0;
      assert PopsAll(p.joined) == times + 1;
    }
  }

  lemma WaitingIsQuiet(p: Pool)
    requires |p.pcs| == 1 && !Awake(p.pcs[0])
    ensures Quiet(p)
  {
  }

  lemma AwakeHasMore(p: Pool)
    requires Solo(p) && Awake(p.pcs[0])
    ensures SoloMeasure(p) > 1
  {
  }

  // ---- Fair endless runs ----

  ghost predicate StepsAgain(step: nat -> Step, w: nat, n: nat) {
    exists m: nat :: m >= n && StepOf(step(m), w)
  }

  // Every worker that is neither asleep nor gone takes its next step at some time.
  ghost predicate Fair(state: nat -> Pool, step: nat -> Step) {
    forall n: nat, w: nat :: w < |state(n).pcs| && Awake(state(n).pcs[w]) ==> StepsAgain(step, w, n)
  }

  // The first step of w from n on.
  lemma {:induction false} FirstStepOf(step: nat -> Step, w: nat, n: nat, m: nat) returns (first: nat)
    requires n <= m && StepOf(step(m), w)
    ensures n <= first <= m && StepOf(step(first), w)
    ensures forall i: nat :: n <= i < first ==> !StepOf(step(i), w)
    decreases m - n
  {
    if StepOf(step(n), w) {
      first := n;
    } else {
      first := FirstStepOf(step, w, n + 1, m);
    }
  }

  lemma OthersLeaveAlone(p: Pool, s: Step, w: nat)
    requires Enabled(p, s) && !s.Spurious? && w < |p.pcs| && Awake(p.pcs[w]) && !StepOf(s, w)
    ensures |Do(p, s).pcs| == |p.pcs| && Do(p, s).pcs[w] == p.pcs[w]
  {
  }

  // Nothing is unpushed or unpopped, and without a pop the queue keeps its head.
  lemma StepGrows(p: Pool, s: Step)
    requires Enabled(p, s)
    ensures var q := Do(p, s);
      && p.pushed <= q.pushed && p.popped <= q.popped
      && (p.queue != [] && |q.popped| == |p.popped| ==> q.queue != [])
  {
  }

  lemma {:induction false} HistoryGrows(state: nat -> Pool, step: nat -> Step, n: nat, m: nat)
    requires IsEndlessRun(state, step) && n <= m
    ensures state(n).pushed <= state(m).pushed && state(n).popped <= state(m).popped
    ensures state(n).queue != [] && |state(m).popped| == |state(n).popped| ==> state(m).queue != []
    decreases m - n
  {
    hide Do, Enabled;
    if n < m {
      HistoryGrows(state, step, n, m - 1);
      assert Enabled(state(m - 1), step(m - 1)) && state((m - 1) + 1) == Do(state(m - 1), step(m - 1));
      StepGrows(state(m - 1), step(m - 1));
    }
  }

  lemma {:induction false} UntilFirstStep(state: nat -> Pool, step: nat -> Step, w: nat, n: nat, m: nat)
    requires IsEndlessRun(state, step) && n <= m && w < |state(n).pcs| && Awake(state(n).pcs[w])
    requires forall i: nat :: n <= i < m ==> !StepOf(step(i), w)
    ensures w < |state(m).pcs| && state(m).pcs[w] == state(n).pcs[w]
    decreases m - n
  {
    if n < m {
      UntilFirstStep(state, step, w, n, m - 1);
      assert Enabled(state(m - 1), step(m - 1)) && state((m - 1) + 1) == Do(state(m - 1), step(m - 1));
      OthersLeaveAlone(state(m - 1), step(m - 1), w);
    }
  }

  lemma {:induction false} SomebodyPops(state: nat -> Pool, step: nat -> Step, w: nat, n: nat) returns (m: nat)
    requires IsEndlessRun(state, step) && Fair(state, step)
    requires state(n).queue != [] && w < |state(n).pcs| && Awake(state(n).pcs[w])
    ensures m > n && |state(m).popped| > |state(n).popped|
    decreases Distance(state(n).pcs[w])
  {
    hide Do, Enabled, Awake;
    assert StepsAgain(step, w, n);
    var some: nat :| some >= n && StepOf(step(some), w);
    var i := FirstStepOf(step, w, n, some);
    UntilFirstStep(state, step, w, n, i);
    HistoryGrows(state, step, n, i);
    if |state(i).popped| > |state(n).popped| {
      return i;
    }
    assert Enabled(state(i), step(i)) && state(i + 1) == Do(state(i), step(i));
    OwnStep(state(i), step(i), w);
    if step(i).SafePop? {
      return i + 1;
    }
    HistoryGrows(state, step, i, i + 1);
    m := SomebodyPops(state, step, w, i + 1);
  }

  lemma {:induction false} EndlessFifo(state: nat -> Pool, step: nat -> Step, n: nat)
    requires IsEndlessRun(state, step) && Fifo(state(0))
    ensures Fifo(state(n))
  {
    if n > 0 {
      EndlessFifo(state, step, n - 1);
      assert Enabled(state(n - 1), step(n - 1)) && state((n - 1) + 1) == Do(state(n - 1), step(n - 1));
      StepKeepsFifo(state(n - 1), step(n - 1));
    }
  }

  lemma {:induction false} PopsCatchUp(state: nat -> Pool, step: nat -> Step, n: nat, k: nat) returns (m: nat)
    requires IsEndlessRun(state, step) && Fair(state, step) && Staffed(state(0)) && Fifo(state(0))
    requires k < |state(n).pushed|
    ensures m >= n && k < |state(m).popped|
    decreases k + 1 - |state(n).popped|
  {
    if k < |state(n).popped| {
      return n;
    }
    EndlessFifo(state, step, n);
    EndlessStaffed(state, step, n);
    var w: nat :| w < |state(n).pcs| && Awake(state(n).pcs[w]);
    var i := SomebodyPops(state, step, w, n);
    HistoryGrows(state, step, n, i);
    m := PopsCatchUp(state, step, i, k);
  }

  // In every fair endless run, with any number of workers and of joins, the k-th pushed task
  // is popped at last, by one worker and as the k-th.
  lemma EveryPushIsPopped(state: nat -> Pool, step: nat -> Step, workers: nat, tasks: seq<Task>, n: nat, k: nat) returns (m: nat)
    requires workers > 0 && state(0) == Start(workers, tasks) && IsEndlessRun(state, step) && Fair(state, step)
    requires k < |state(n).pushed|
    ensures m >= n && k < |state(m).popped| && state(m).popped[k].task == state(n).pushed[k]
  {
    hide IsEndlessRun, Fair;
    assert Awake(state(0).pcs[0]);
    assert Tasks(state(0).popped) == [];
    m := PopsCatchUp(state, step, n, k);
    HistoryGrows(state, step, n, m);
    EndlessFifo(state, step, m);
    assert Tasks(state(m).popped)[k] == state(m).pushed[k];
  }
}
