/**
 * The shared object behind the pool: the queue, the sleepers and where each worker is.  Every
 * method is one uninterrupted section of the source and takes exactly one step of `TaskPool`,
 * so a user of the object keeps what the pool's runs keep: `Valid` says that what was pushed
 * is what was popped followed by the queue, and that some worker is there for the work.
 * Which sleeper notify_one wakes is the caller's choice.
 */
module ThreadQueue {
  import opened TaskPool
  import opened TaskHistory
  import opened TaskProgress

  // Every pop and every run of a core that was handed in is done or still to come.
  ghost predicate Tally(p: Pool) {
    Counted(p) && forall c :: Balanced(p, c)
  }

  lemma StepKeepsTally(p: Pool, s: Step)
    requires Tally(p) && Enabled(p, s) && (s.Join? ==> !Endless(s.task))
    ensures Tally(Do(p, s))
  {
    StepKeepsCount(p, s);
    forall c ensures Balanced(Do(p, s), c) {
      StepKeepsBalance(p, s, c);
    }
  }

  ghost predicate Kept(p: Pool) {
    Fifo(p) && (p.pcs != [] ==> Staffed(p))
  }

  lemma StepKeepsAll(p: Pool, s: Step)
    requires Kept(p) && Enabled(p, s) && !s.Spurious?
    ensures Kept(Do(p, s))
    ensures Tally(p) && (s.Join? ==> !Endless(s.task)) ==> Tally(Do(p, s))
  {
    hide Tally;
    StepKeepsFifo(p, s);
    if p.pcs != [] {
      StepKeepsStaffed(p, s);
    } else {
      assert s.Join?;
    }
    if Tally(p) && (s.Join? ==> !Endless(s.task)) {
      StepKeepsTally(p, s);
    }
  }

  class TaskQueue {
    var queue: seq<Task>
    var pcs: seq<Pc>
    ghost var joined: seq<Task>
    ghost var pushed: seq<Task>
    ghost var popped: seq<TaskPool.Popped>
    ghost var ran: seq<int>

    ghost function State(): Pool
      reads this
    {
      Pool(queue, pcs, joined, pushed, popped, ran)
    }

    ghost predicate Valid()
      reads this
    {
      Kept(State())
    }

    constructor (workers: nat)
      ensures Valid() && Tally(State()) && State() == Start(workers, [])
    {
      queue, pcs := [], seq(workers, _ => LoopHead);
      joined, pushed, popped, ran := [], [], [], [];
      new;
      StartIsCounted(workers, []);
      forall c ensures Balanced(State(), c) {
        NothingOwedAtStart(workers, c);
      }
      assert workers > 0 ==> Live(pcs[0]);
    }

    predicate IsEmpty()
      reads this
    {
      queue == []
    }

    method NotifyOne(wake: Wake)
      requires CanWake(State(), wake)
      modifies this`pcs
      ensures pcs == if wake.Nobody? then old(pcs) else old(pcs)[wake.w := Notified]
    {
      if wake.Worker? {
        pcs := pcs[wake.w := Notified];
      }
    }

    method SafePush(t: Task, wake: Wake)
      requires CanWake(State(), wake)
      modifies this`queue, this`pushed, this`pcs
      ensures State() == Push(old(State()), t, wake)
    {
      queue := queue + [t];
      pushed := pushed + [t];
      NotifyOne(wake);
    }

    // task_exec_unit::join_task
    method JoinTask(t: Task, wake: Wake)
      requires Valid() && Enabled(State(), Join(t, wake))
      modifies this
      ensures Valid() && State() == Do(old(State()), Join(t, wake))
      ensures old(Tally(State())) && !Endless(t) ==> Tally(State())
    {
      hide Kept, Tally;
      StepKeepsAll(State(), Join(t, wake));
      joined := joined + [t];
      SafePush(t, wake);
    }

    method WaitDataUnlocked(w: nat)
      requires Valid() && Enabled(State(), FastCheck(w))
      modifies this`pcs
      ensures Valid() && State() == Do(old(State()), FastCheck(w))
      ensures old(Tally(State())) ==> Tally(State())
    {
      hide Kept, Tally;
      StepKeepsAll(State(), FastCheck(w));
      if !IsEmpty() {
        pcs := pcs[w := Checking];
      } else {
        pcs := pcs[w := Locking];
      }
    }

    method WaitDataLocked(w: nat)
      requires Valid() && Enabled(State(), LockedCheck(w))
      modifies this`pcs
      ensures Valid() && State() == Do(old(State()), LockedCheck(w))
      ensures old(Tally(State())) ==> Tally(State())
    {
      hide Kept, Tally;
      StepKeepsAll(State(), LockedCheck(w));
      if IsEmpty() {
        pcs := pcs[w := Waiting];
      } else {
        pcs := pcs[w := Checking];
      }
    }

    // After the wait: the queue is looked at once more, and a false answer ends the worker's loop.
    method WaitDataResumed(w: nat)
      requires Valid() && Enabled(State(), Resume(w))
      modifies this`pcs
      ensures Valid() && State() == Do(old(State()), Resume(w))
      ensures old(Tally(State())) ==> Tally(State())
    {
      hide Kept, Tally;
      StepKeepsAll(State(), Resume(w));
      var hasData := !IsEmpty();
      pcs := pcs[w := if hasData then Checking else Exited];
    }

    method TestEmpty(w: nat)
      requires Valid() && Enabled(State(), EmptyCheck(w))
      modifies this`pcs
      ensures Valid() && State() == Do(old(State()), EmptyCheck(w))
      ensures old(Tally(State())) ==> Tally(State())
    {
      hide Kept, Tally;
      StepKeepsAll(State(), EmptyCheck(w));
      pcs := pcs[w := if IsEmpty() then LoopHead else Reading];
    }

    method Top(w: nat, garbage: Task)
      requires Valid() && Enabled(State(), ReadTop(w, garbage))
      modifies this`pcs
      ensures Valid() && State() == Do(old(State()), ReadTop(w, garbage))
      ensures old(Tally(State())) ==> Tally(State())
    {
      hide Kept, Tally;
      StepKeepsAll(State(), ReadTop(w, garbage));
      var seen := garbage;
      if !IsEmpty() {
        seen := queue[0];
      }
      pcs := pcs[w := Popping(seen)];
    }

    method Pop(w: nat) returns (ok: bool)
      requires Valid() && Enabled(State(), SafePop(w))
      modifies this`queue, this`pcs, this`popped
      ensures Valid() && State() == Do(old(State()), SafePop(w))
      ensures old(Tally(State())) ==> Tally(State())
      ensures ok <==> old(queue) != []
    {
      hide Kept, Tally;
      StepKeepsAll(State(), SafePop(w));
      if IsEmpty() {
        pcs := pcs[w := LoopHead];
        return false;
      }
      var t := queue[0];
      queue := queue[1..];
      popped := popped + [TaskPool.Popped(w, t)];
      pcs := pcs[w := Running(t)];
      ok := true;
    }

    // The first half of execute: the core, unless the ring task has used up its runs.
    method Execute(w: nat)
      requires Valid() && Enabled(State(), RunCore(w))
      modifies this`ran, this`pcs
      ensures Valid() && State() == Do(old(State()), RunCore(w))
      ensures old(Tally(State())) ==> Tally(State())
    {
      hide Kept, Tally;
      StepKeepsAll(State(), RunCore(w));
      var t := pcs[w].task;
      if !(t.Ring? && t.times == 0) {
        ran := ran + [t.core];
      }
      pcs := pcs[w := Finishing(t)];
    }

    // The second half: a ring task counts down and pushes its successor.
    method CreateNextRing(w: nat, wake: Wake)
      requires Valid() && Enabled(State(), Finish(w, wake))
      modifies this`queue, this`pushed, this`pcs
      ensures Valid() && State() == Do(old(State()), Finish(w, wake))
      ensures old(Tally(State())) ==> Tally(State())
    {
      hide Kept, Tally;
      StepKeepsAll(State(), Finish(w, wake));
      var t := pcs[w].task;
      if t.Ring? && t.times != 0 {
        var times := t.times;
        if times > 0 {
          times := times - 1;
        }
        SafePush(Ring(t.core, times), wake);
      }
      pcs := pcs[w := LoopHead];
    }

    // queue_worker::operator() of a single worker that nobody disturbs, up to the point where
    // it falls asleep: it empties the queue, and every core has run as often as its tasks say.
    method WorkAlone()
      requires Valid() && Tally(State()) && pcs == [LoopHead]
      modifies this
      ensures Valid() && Tally(State()) && joined == old(joined)
      ensures queue == [] && pcs == [Waiting] && Tasks(popped) == pushed
      ensures forall c :: Runs(State(), c) == OwedAll(joined, c)
    {
      hide Kept, Tally;
      while true
        invariant Valid() && Tally(State()) && pcs == [LoopHead] && joined == old(joined)
        decreases PopsAll(queue)
      {
        WaitDataUnlocked(0);
        if pcs[0] == Locking {
          WaitDataLocked(0);
          NothingLeft(State());
          return;
        }
        TestEmpty(0);
        ghost var t, rest := queue[0], queue[1..];
        Top(0, Plain(0));
        var ok := Pop(0);
        NoEndlessTaken(State());
        Execute(0);
        CreateNextRing(0, Nobody);
        PopsAllSnoc(rest, Ring(t.core, if t.Ring? && t.times > 0 then t.times - 1 else 0));
      }
    }
  }

  lemma NothingLeft(p: Pool)
    requires Kept(p) && Tally(p) && p.queue == [] && p.pcs == [Waiting]
    ensures Tasks(p.popped) == p.pushed
    ensures forall c :: Runs(p, c) == OwedAll(p.joined, c)
  {
    forall c ensures Runs(p, c) == OwedAll(p.joined, c) {
      assert Balanced(p, c);
      assert OwedByAll(p.pcs, c) == OwedBy(Waiting, c) + OwedByAll([], c) by { assert p.pcs[1..] == []; }
    }
    assert Tasks(p.popped) + [] == Tasks(p.popped);
  }

  lemma NoEndlessTaken(p: Pool)
    requires Tally(p) && |p.pcs| == 1 && p.pcs[0].Running?
    ensures !Endless(p.pcs[0].task)
  {
  }
}
