/** Reachable states of the guard protocol that its comments rule out: a running run whose stop flag the release of the
    run before it took away, two processes that took over one dead lock and both run, a live owner that lost its old
    lock and then removes its successor's, and a process that a disabled bot keeps from ever running an automation
    again. */
module AutomationRaces {
  import opened Options
  import opened AutomationRuns
  import opened AutomationLocks
  import opened AutomationLaunches
  import opened AutomationStops

  lemma {:induction false} AfterOne(sys: System, run: seq<Step>, step: Step)
    ensures After(sys, run + [step]) == Next(After(sys, run), step)
    decreases run
  {
    if run == [] {
      assert run + [step] == [step] && [step][1..] == [];
    } else {
      assert (run + [step])[1..] == run[1..] + [step];
      AfterOne(Next(sys, run[0]), run[1..], step);
    }
  }

  lemma ReachNext(sys: System, step: Step)
    requires Reachable(sys)
    ensures Reachable(Next(sys, step))
  {
    var run :| After(INITIAL, run) == sys;
    AfterOne(INITIAL, run, step);
  }

  lemma {:induction false} ReachGoOn(sys: System, t: Tid, n: nat)
    requires Reachable(sys)
    ensures Reachable(GoOn(sys, t, n))
    decreases n
  {
    if n > 0 {
      ReachNext(sys, Go(t, Works));
      ReachGoOn(GoStep(sys, t, Works), t, n - 1);
    }
  }

  lemma ReachAlone(sys: System, t: Tid, end: System)
    requires Reachable(sys) && Alone(sys, t, end)
    ensures Reachable(end)
  {
    var n: nat :| GoOn(sys, t, n) == end;
    ReachGoOn(sys, t, n);
  }

  /** Processes 1, 2 and 3 come up. */
  lemma ThreeProcesses() returns (sys: System)
    ensures Reachable(sys) && sys == INITIAL.(alive := {1, 2, 3})
  {
    assert After(INITIAL, []) == INITIAL;
    ReachNext(INITIAL, Spawn(1));
    var s1 := Next(INITIAL, Spawn(1));
    ReachNext(s1, Spawn(2));
    var s2 := Next(s1, Spawn(2));
    ReachNext(s2, Spawn(3));
    sys := Next(s2, Spawn(3));
  }

  // ---- Stretches of one launch, left alone ----

  /** A launch starts and passes guard 1. */
  lemma Starts(sys: System, slot: Slot) returns (end: System)
    requires Reachable(sys) && slot.pid in sys.alive && slot !in sys.shared.running
    ensures Reachable(end)
    ensures var t := sys.nextTid;
      end == sys.(threads := sys.threads[t := Thread(slot, Published, 0, false)], nextTid := t + 1,
                  shared := sys.shared.(running := sys.shared.running[slot := t],
                                        cancel := sys.shared.cancel[slot := Flag(t, 0)]))
  {
    var s1 := StartStep(sys, slot);
    ReachNext(sys, Start(slot));
    Enters(s1, sys.nextTid);
    ReachGoOn(s1, sys.nextTid, 2);
    end := GoOn(s1, sys.nextTid, 2);
  }

  /** It goes on without a lock path, up to the binding. */
  lemma GoesUnlocked(sys: System, t: Tid)
    requires Reachable(sys) && t in sys.threads && sys.threads[t].phase.Published?
    ensures Reachable(GoStep(sys, t, Fails))
    ensures GoStep(sys, t, Fails) == sys.(threads := sys.threads[t := sys.threads[t].(phase := Binding)])
  {
    ReachNext(sys, Go(t, Fails));
  }

  /** A launch without a lock path gets its run. */
  lemma Launches(sys: System, slot: Slot) returns (end: System)
    requires Reachable(sys) && slot.pid in sys.alive && slot !in sys.shared.running
    ensures Reachable(end)
    ensures var t := sys.nextTid;
      end == sys.(threads := sys.threads[t := Thread(slot, Prepared, 0, false)], nextTid := t + 1,
                  shared := sys.shared.(running := sys.shared.running[slot := t],
                                        cancel := sys.shared.cancel[slot := Flag(t, 0)]))
  {
    var t := sys.nextTid;
    var s1 := Starts(sys, slot);
    GoesUnlocked(s1, t);
    var s2 := GoStep(s1, t, Fails);
    ReachNext(s2, Go(t, Works));
    end := GoStep(s2, t, Works);
    assert end.threads == sys.threads[t := Thread(slot, Prepared, 0, false)];
  }

  /** A launch that finds no lock file gets its run and a lock of its own. */
  lemma LaunchesLocked(sys: System, slot: Slot) returns (end: System)
    requires Reachable(sys) && slot.pid in sys.alive && slot !in sys.shared.running && slot.auto !in sys.shared.locks
    ensures Reachable(end)
    ensures var t := sys.nextTid;
      && end.threads == sys.threads[t := Thread(slot, Prepared, 0, true)]
      && end.nextTid == t + 1 && end.alive == sys.alive && end.now == sys.now
      && end.shared.running == sys.shared.running[slot := t]
      && end.shared.locks == sys.shared.locks[slot.auto := LockFile(t, Some(slot.pid), sys.now)]
  {
    var t, s1 := sys.nextTid, StartStep(sys, slot);
    ReachNext(sys, Start(slot));
    LocksIn(s1, t);
    ReachAlone(s1, t, LockedIn(s1, t));
    var s2 := LockedIn(s1, t);
    ReachNext(s2, Go(t, Works));
    end := GoStep(s2, t, Works);
  }

  // ---- The crossed stop flag ----

  lemma FinishesHalf(sys: System, t: Tid) returns (end: System)
    requires Reachable(sys) && t in sys.threads && sys.threads[t].phase.Prepared?
    ensures Reachable(end)
    ensures end == sys.(threads := sys.threads[t := sys.threads[t].(phase := Unmarked(Finish))],
                        shared := sys.shared.(running := Remove(sys.shared.running, sys.threads[t].slot)))
  {
    var th, s1 := sys.threads[t], GoStep(sys, t, Works);
    ReachNext(sys, Go(t, Works));
    assert s1 == sys.(threads := sys.threads[t := th.(phase := Releasing(Finish))]);
    ReachNext(s1, Go(t, Works));
    end := GoStep(s1, t, Works);
    assert end.threads == sys.threads[t := th.(phase := Unmarked(Finish))];
  }

  /** `release_guards` is not one step: a run finishes, the next one starts between its two removals, and the second
      removal leaves a running run that `stop_run` reports as not running. */
  lemma StopMissesRunningRun() returns (sys: System, t: Tid)
    ensures Reachable(sys)
    ensures t in sys.threads && sys.threads[t].phase.Prepared? && !StopAnswers(sys, sys.threads[t].slot)
  {
    var slot := Slot(1, "a");
    var s0 := ThreeProcesses();
    var s1 := Launches(s0, slot);
    var s2 := FinishesHalf(s1, 0);
    var s3 := Launches(s2, slot);
    ReachNext(s3, Go(0, Works));
    sys, t := GoStep(s3, 0, Works), 1;
  }

  // ---- The raced takeover ----

  /** A launch that meets a stale lock, up to just before it removes the file. */
  lemma Judges(sys: System, slot: Slot) returns (end: System)
    requires Reachable(sys) && slot.pid in sys.alive && slot !in sys.shared.running && slot.auto in sys.shared.locks
    requires Stale(sys.now, sys.alive, sys.shared.locks[slot.auto])
    ensures Reachable(end) && end.nextTid == sys.nextTid + 1 && end.alive == sys.alive && end.now == sys.now
    ensures end.threads ==
      sys.threads[sys.nextTid := Thread(slot, Unpublished(Takeover(sys.shared.locks[slot.auto])), 0, false)]
    ensures end.shared.running == sys.shared.running && end.shared.locks == sys.shared.locks
  {
    var t := sys.nextTid;
    var s1 := Starts(sys, slot);
    Meets(s1, t);
    ReachGoOn(s1, t, 4);
    var s2 := GoOn(s1, t, 4);
    Releases(s2, t);
    ReachGoOn(s2, t, 2);
    end := GoOn(s2, t, 2);
  }

  /** From there: remove whatever lock file is there, take the guards and run. */
  lemma Wins(sys: System, t: Tid) returns (end: System)
    requires Reachable(sys) && t in sys.threads && sys.threads[t].phase.Unpublished?
    requires sys.threads[t].phase.next.Takeover? && sys.threads[t].depth == 0
    requires sys.threads[t].slot !in sys.shared.running
    ensures Reachable(end) && end.alive == sys.alive && end.now == sys.now
    ensures end.threads == sys.threads[t := Thread(sys.threads[t].slot, Prepared, 1, true)]
    ensures end.shared.running == sys.shared.running[sys.threads[t].slot := t]
    ensures Has(end, sys.threads[t].slot.auto, t)
  {
    ReachNext(sys, Go(t, Works));
    var s1 := GoStep(sys, t, Works);
    LocksIn(s1, t);
    ReachAlone(s1, t, LockedIn(s1, t));
    var s2 := LockedIn(s1, t);
    ReachNext(s2, Go(t, Works));
    end := GoStep(s2, t, Works);
    assert end.threads == sys.threads[t := Thread(sys.threads[t].slot, Prepared, 1, true)];
  }

  lemma DiesAlone(sys: System, pid: Pid)
    requires forall t <- sys.threads :: sys.threads[t].slot.pid == pid
    requires forall s <- sys.shared.running :: s.pid == pid
    ensures var end := DieStep(sys, pid);
      && end.threads == map[] && end.shared.running == map[] && end.alive == sys.alive - {pid}
      && end.shared.locks == sys.shared.locks && end.nextTid == sys.nextTid && end.now == sys.now
  {
  }

  /** Process 3 creates the lock file and dies; the lock names a dead owner. */
  lemma DeadLock() returns (sys: System)
    ensures Reachable(sys) && sys.threads == map[] && sys.shared.running == map[] && sys.alive == {1, 2}
    ensures sys.shared.locks == map["a" := LockFile(0, Some(3), 0)] && sys.nextTid == 1 && sys.now == 0
  {
    var s3 := ThreeProcesses();
    var s4 := LaunchesLocked(s3, Slot(3, "a"));
    ReachNext(s4, Die(3));
    DiesAlone(s4, 3);
    sys := DieStep(s4, 3);
  }

  /** Judging a lock stale and removing it are separate steps: both processes judge the dead lock, the first takes over,
      the second then removes the first one's fresh lock and creates its own, and both runs go on relying on a lock,
      all within one instant. */
  lemma TwoProcessesRun() returns (sys: System)
    ensures Reachable(sys) && sys.now == 0 && 1 in sys.threads && 2 in sys.threads
    ensures var t, u := sys.threads[1], sys.threads[2];
      && t.phase.Prepared? && u.phase.Prepared? && Guarded(t) && Guarded(u)
      && t.slot.pid != u.slot.pid && t.slot.auto == u.slot.auto
  {
    var s0 := DeadLock();
    var s1 := Judges(s0, Slot(1, "a"));
    var s2 := Judges(s1, Slot(2, "a"));
    var s3 := Wins(s2, 1);
    sys := Wins(s3, 2);
  }

  // ---- The old lock ----

  /** A live owner's lock is stale too once it is over six hours old: a second process judges it, removes the very file
      it judged, and runs beside the first one. */
  lemma OldRunLosesLock() returns (judged: System, sys: System)
    ensures Reachable(judged) && 1 in judged.threads && "a" in judged.shared.locks && Robs(judged, Go(1, Works), "a")
    ensures judged.threads[1].phase.next.seen == judged.shared.locks["a"]
    ensures Reachable(sys) && 0 in sys.threads && 1 in sys.threads && Has(sys, "a", 1)
    ensures var t, u := sys.threads[0], sys.threads[1];
      && t.phase.Prepared? && u.phase.Prepared? && Guarded(t) && Guarded(u) && t.slot.auto == u.slot.auto == "a"
      && t.slot.pid in sys.alive && t.slot.pid != u.slot.pid
  {
    var s0 := ThreeProcesses();
    var s1 := LaunchesLocked(s0, Slot(1, "a"));
    ReachNext(s1, Advance(6 * 3600 + 1));
    judged := Judges(Next(s1, Advance(6 * 3600 + 1)), Slot(2, "a"));
    sys := Wins(judged, 1);
  }

  /** The end of a run, up to just before it removes a lock file. */
  lemma FinishesToLock(sys: System, t: Tid) returns (end: System)
    requires Reachable(sys) && t in sys.threads && sys.threads[t].phase.Prepared?
    ensures Reachable(end) && end.shared.locks == sys.shared.locks
    ensures end.threads == sys.threads[t := sys.threads[t].(phase := Unpublished(Finish))]
  {
    var half := FinishesHalf(sys, t);
    ReachNext(half, Go(t, Works));
    end := GoStep(half, t, Works);
  }

  /** There is a second way to lose a lock, with no takeover: the run that was robbed ends, and its `release_guards`
      removes the file at the path, which is by now that of the run that took over. That run goes on without one, and
      the next launch finds no lock at all. */
  lemma RobbedRunTakesLock() returns (sys: System)
    ensures Reachable(sys) && 1 in sys.threads && sys.threads[1].phase.Prepared? && Guarded(sys.threads[1])
    ensures Has(sys, "a", 1) && !TakesOver(sys, Go(0, Works), "a")
    ensures var end := GoStep(sys, 0, Works);
      && Reachable(end) && 1 in end.threads && end.threads[1] == sys.threads[1] && "a" !in end.shared.locks
  {
    var judged, both := OldRunLosesLock();
    sys := FinishesToLock(both, 0);
    ReachNext(sys, Go(0, Works));
  }

  // ---- The stranded launch ----

  /** A launch whose bot is disabled returns no run and keeps the guards; the next launch, when the bot may be enabled
      again, is turned away by guard 1. */
  lemma DisabledBotBlocks() returns (sys: System, t: Tid, u: Tid)
    ensures Reachable(sys) && t in sys.threads && u in sys.threads && sys.threads[t].slot == sys.threads[u].slot
    ensures sys.threads[t].phase.Stranded? && Holds(sys.threads[t].phase) && sys.threads[u].phase.Done?
  {
    var slot := Slot(1, "a");
    var s0 := ThreeProcesses();
    var s1 := Starts(s0, slot);
    GoesUnlocked(s1, 0);
    var s2 := GoStep(s1, 0, Fails);
    ReachNext(s2, Go(0, BotUnavailable));
    var s3 := GoStep(s2, 0, BotUnavailable);
    assert s3.threads[0].phase.Stranded?;
    ReachNext(s3, Start(slot));
    var s4 := StartStep(s3, slot);
    ReachNext(s4, Go(1, Works));
    sys, t, u := GoStep(s4, 1, Works), 0, 1;
  }
}
