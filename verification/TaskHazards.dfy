/**
 * Where the pool's guarantees stop: how many workers may exit, what a spurious wake-up does,
 * and when the unlocked `top()` can meet an empty queue.
 */
module TaskHazards {
  import opened TaskPool

  // Of all the workers the first k are gone, the others stand at the loop head of an empty queue.
  ghost predicate FirstExited(p: Pool, workers: nat, k: nat) {
    && p.queue == [] && |p.pcs| == workers && k <= workers
    && forall w :: 0 <= w < |p.pcs| ==> p.pcs[w] == if w < k then Exited else LoopHead
  }

  // One step of a run that is being built.
  lemma Extend(p: Pool, steps: seq<Step>, s: Step)
    requires IsRun(p, steps) && Enabled(Final(p, steps), s)
    ensures IsRun(p, steps + [s]) && Final(p, steps + [s]) == Do(Final(p, steps), s)
  {
    var q := Final(p, steps);
    assert IsRun(q, [s]) by { assert [s][1..] == []; }
    assert Final(q, [s]) == Do(q, s) by { assert [s][1..] == []; }
    RunConcat(p, steps, [s]);
  }

  // The worker w falls asleep on an empty queue.
  lemma FallsAsleep(p: Pool, w: nat)
    requires p.queue == [] && w < |p.pcs| && p.pcs[w] == LoopHead
    ensures IsRun(p, [FastCheck(w), LockedCheck(w)]) && Final(p, [FastCheck(w), LockedCheck(w)]) == At(p, w, Waiting)
  {
    Extend(p, [], FastCheck(w));
    Extend(p, [FastCheck(w)], LockedCheck(w));
    assert [] + [FastCheck(w)] == [FastCheck(w)];
    assert [FastCheck(w)] + [LockedCheck(w)] == [FastCheck(w), LockedCheck(w)];
  }

  // The worker w takes the only task, runs it and is back at the loop head.
  lemma {:induction false} ServesOne(p: Pool, w: nat, core: int) returns (steps: seq<Step>)
    requires p.queue == [Plain(core)] && w < |p.pcs| && p.pcs[w] == LoopHead
    ensures IsRun(p, steps) && NoSpurious(steps)
    ensures Final(p, steps).queue == [] && Final(p, steps).pcs == p.pcs
  {
    var t := Plain(core);
    steps := [];
    Extend(p, steps, FastCheck(w)); steps := steps + [FastCheck(w)];
    Extend(p, steps, EmptyCheck(w)); steps := steps + [EmptyCheck(w)];
    Extend(p, steps, ReadTop(w, t)); steps := steps + [ReadTop(w, t)];
    Extend(p, steps, SafePop(w)); steps := steps + [SafePop(w)];
    Extend(p, steps, RunCore(w)); steps := steps + [RunCore(w)];
    Extend(p, steps, Finish(w, Nobody)); steps := steps + [Finish(w, Nobody)];
    assert Final(p, steps).pcs == p.pcs;
  }

  // A notified worker that finds the queue drained exits.
  lemma OneMoreExits(p: Pool, workers: nat, k: nat) returns (steps: seq<Step>)
    requires FirstExited(p, workers, k) && k + 1 < workers
    ensures IsRun(p, steps) && NoSpurious(steps) && FirstExited(Final(p, steps), workers, k + 1)
  {
    var last, t := |p.pcs| - 1, Plain(0);
    FallsAsleep(p, k);
    steps := [FastCheck(k), LockedCheck(k)];
    Extend(p, steps, Join(t, Worker(k))); steps := steps + [Join(t, Worker(k))];
    var q := Final(p, steps);
    assert q.queue == [t] && q.pcs == p.pcs[k := Notified];
    var more := ServesOne(q, last, 0);
    RunConcat(p, steps, more);
    steps := steps + more;
    Extend(p, steps, Resume(k)); steps := steps + [Resume(k)];
  }

  // All workers but one can be lost, for every size of the pool: "at least one" is exact.
  lemma {:induction false} AllButOneMayExit(workers: nat, k: nat) returns (steps: seq<Step>)
    requires k < workers
    ensures IsRun(Start(workers, []), steps) && NoSpurious(steps) && FirstExited(Final(Start(workers, []), steps), workers, k)
  {
    var p := Start(workers, []);
    if k == 0 {
      steps := [];
    } else {
      steps := AllButOneMayExit(workers, k - 1);
      var more := OneMoreExits(Final(p, steps), workers, k - 1);
      RunConcat(p, steps, more);
      steps := steps + more;
    }
  }

  // ---- One spurious wake-up ----

  function SpuriousCount(steps: seq<Step>): nat {
    if steps == [] then 0 else SpuriousCount(steps[..|steps| - 1]) + if steps[|steps| - 1].Spurious? then 1 else 0
  }

  lemma {:induction false} NoneIsSpurious(steps: seq<Step>)
    ensures SpuriousCount(steps) == 0 <==> NoSpurious(steps)
  {
    if steps != [] {
      var n := |steps| - 1;
      NoneIsSpurious(steps[..n]);
      assert NoSpurious(steps) <==> NoSpurious(steps[..n]) && !steps[n].Spurious?;
    }
  }

  lemma SpuriousSnoc(steps: seq<Step>, s: Step)
    ensures SpuriousCount(steps + [s]) == SpuriousCount(steps) + if s.Spurious? then 1 else 0
  {
    assert (steps + [s])[..|steps|] == steps;
  }

  ghost predicate NobodyLives(p: Pool) {
    forall w :: 0 <= w < |p.pcs| ==> !Live(p.pcs[w])
  }

  ghost predicate KillingRun(workers: nat, tasks: seq<Task>, steps: seq<Step>, spurious: nat) {
    && IsRun(Start(workers, tasks), steps) && SpuriousCount(steps) <= spurious
    && NobodyLives(Final(Start(workers, tasks), steps))
  }

  // All workers but one are lost without spurious wake-ups; one such wake-up takes the last.
  lemma OneSpuriousWakeUpKills(workers: nat) returns (steps: seq<Step>)
    requires workers > 0
    ensures KillingRun(workers, [], steps, 1)
  {
    var p, w := Start(workers, []), workers - 1;
    steps := AllButOneMayExit(workers, w);
    NoneIsSpurious(steps);
    FallsAsleep(Final(p, steps), w);
    RunConcat(p, steps, [FastCheck(w), LockedCheck(w)]);
    var asleep := steps + [FastCheck(w), LockedCheck(w)];
    NoneIsSpurious(asleep);
    Extend(p, asleep, Spurious(w));
    SpuriousSnoc(asleep, Spurious(w));
    var woken := asleep + [Spurious(w)];
    Extend(p, woken, Resume(w));
    SpuriousSnoc(woken, Resume(w));
    steps := woken + [Resume(w)];
  }

  // A pool of any size can lose all its workers if and only if one spurious wake-up is
  // allowed: wait_data tests with `if`, not `while`.
  lemma PoolDiesIffSpurious(workers: nat, spurious: nat)
    requires workers > 0
    ensures (exists tasks, steps :: KillingRun(workers, tasks, steps, spurious)) <==> spurious >= 1
  {
    if spurious >= 1 {
      var steps := OneSpuriousWakeUpKills(workers);
      assert KillingRun(workers, [], steps, spurious);
    } else {
      forall tasks, steps ensures !KillingRun(workers, tasks, steps, spurious) {
        NoneIsSpurious(steps);
        if IsRun(Start(workers, tasks), steps) && NoSpurious(steps) {
          PoolNeverDiesOrSleepsOnWork(workers, tasks, steps);
        }
      }
    }
  }

  // ---- The unlocked top() ----

  ghost predicate TopOfEmpty(p: Pool) {
    p.queue == [] && exists w :: 0 <= w < |p.pcs| && p.pcs[w].Reading?
  }

  ghost predicate SoloSafe(p: Pool) {
    |p.pcs| == 1 && (p.pcs[0].Checking? || p.pcs[0].Reading? || p.pcs[0].Popping? ==> p.queue != [])
  }

  lemma {:induction false} SoloRunIsSafe(p: Pool, steps: seq<Step>)
    requires SoloSafe(p) && IsRun(p, steps)
    decreases |steps|
    ensures SoloSafe(Final(p, steps))
  {
    if steps != [] {
      SoloRunIsSafe(Do(p, steps[0]), steps[1..]);
    }
  }

  ghost predicate RacyRun(workers: nat, steps: seq<Step>) {
    IsRun(Start(workers, []), steps) && TopOfEmpty(Final(Start(workers, []), steps))
  }

  lemma TwoWorkersRace(workers: nat) returns (steps: seq<Step>)
    requires workers >= 2
    ensures RacyRun(workers, steps)
  {
    var p, t := Start(workers, []), Plain(0);
    steps := [];
    Extend(p, steps, Join(t, Nobody)); steps := steps + [Join(t, Nobody)];
    Extend(p, steps, FastCheck(0)); steps := steps + [FastCheck(0)];
    Extend(p, steps, EmptyCheck(0)); steps := steps + [EmptyCheck(0)];
    Extend(p, steps, FastCheck(1)); steps := steps + [FastCheck(1)];
    Extend(p, steps, EmptyCheck(1)); steps := steps + [EmptyCheck(1)];
    Extend(p, steps, ReadTop(1, t)); steps := steps + [ReadTop(1, t)];
    Extend(p, steps, SafePop(1)); steps := steps + [SafePop(1)];
    assert Final(p, steps).pcs[0].Reading?;
  }

  // `top()` is read on an empty queue in some run exactly when there are two workers or more.
  lemma TopOfEmptyIffSeveralWorkers(workers: nat)
    requires workers > 0
    ensures (exists steps :: RacyRun(workers, steps)) <==> workers >= 2
  {
    if workers >= 2 {
      var steps := TwoWorkersRace(workers);
    } else {
      forall steps ensures !RacyRun(workers, steps) {
        if IsRun(Start(workers, []), steps) {
          SoloRunIsSafe(Start(workers, []), steps);
        }
      }
    }
  }
}
