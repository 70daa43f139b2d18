/** One launch under every interleaving: that it ends, that it excludes others in its process, what its exits leave
    behind; and what it does when the others leave it alone. */
module AutomationLaunches {
  import opened Options
  import opened AutomationRuns
  import opened AutomationLocks

  /** Launching ends: a thread looks at the lock at most three times, once per depth, and each of its operations
      brings it closer to the end, whatever the others do. */
  lemma LaunchEnds(sys: System, t: Tid, luck: Luck)
    requires Reachable(sys) && t in sys.threads
    ensures var th := sys.threads[t];
      && th.depth < 3 && Rank(th) < 56
      && (!th.phase.Done? && !th.phase.Stranded? ==> 0 < Rank(GoStep(sys, t, luck).threads[t]) < Rank(th))
  {
    ReachableInv(sys);
    ActRank(sys, t, luck);
  }

  /** At most one run per automation holds the guards of a process, on every path of prepare. */
  lemma OneRunPerProcess(sys: System, t: Tid, u: Tid)
    requires Reachable(sys) && t in sys.threads && u in sys.threads && sys.threads[t].slot == sys.threads[u].slot
    requires Holds(sys.threads[t].phase) && Holds(sys.threads[u].phase)
    ensures t == u
  {
    ReachableInv(sys);
  }

  /** Both guard tables are free again once every launch of the slot has returned, unless one is stranded. */
  lemma GuardsReleased(sys: System, slot: Slot)
    requires Reachable(sys) && forall t <- sys.threads :: sys.threads[t].slot == slot ==> sys.threads[t].phase.Done?
    ensures slot !in sys.shared.running && slot !in sys.shared.cancel
  {
    ReachableInv(sys);
  }

  ghost predicate StrandedAt(sys: System, t: Tid, slot: Slot) {
    t in sys.threads && sys.threads[t].phase.Stranded? && sys.threads[t].slot == slot
  }

  lemma {:induction false} StrandedStays(sys: System, run: seq<Step>, t: Tid, slot: Slot)
    requires Exclusive(sys) && StrandedAt(sys, t, slot)
    requires forall s <- run :: s != Die(slot.pid)
    ensures StrandedAt(After(sys, run), t, slot)
    decreases run
  {
    if run != [] {
      NextExclusive(sys, run[0]);
      assert run[0] in run;
      assert forall s <- run[1..] :: s in run;
      StrandedStays(Next(sys, run[0]), run[1..], t, slot);
    }
  }

  /** A launch stranded by its missing or disabled bot keeps its process from ever running the automation again. */
  lemma StrandedBlocks(sys: System, run: seq<Step>, t: Tid, u: Tid)
    requires Reachable(sys) && t in sys.threads && sys.threads[t].phase.Stranded?
    requires forall s <- run :: s != Die(sys.threads[t].slot.pid)
    requires var ths := After(sys, run).threads; u in ths && u != t && ths[u].slot == sys.threads[t].slot
    ensures !Holds(After(sys, run).threads[u].phase)
  {
    ReachableInv(sys);
    StrandedStays(sys, run, t, sys.threads[t].slot);
    RunInv(sys, run);
  }

  // ---- A launch left alone ----

  function GoOn(sys: System, t: Tid, n: nat): System
    decreases n
  {
    if n == 0 then sys else GoOn(GoStep(sys, t, Works), t, n - 1)
  }

  lemma {:induction false} GoOnAdds(sys: System, t: Tid, m: nat, n: nat)
    ensures GoOn(GoOn(sys, t, m), t, n) == GoOn(sys, t, m + n)
    decreases m
  {
    if m > 0 { GoOnAdds(GoStep(sys, t, Works), t, m - 1, n); }
  }

  /** The launch gets from the one state to the other while nobody else acts. */
  ghost predicate Alone(sys: System, t: Tid, end: System) {
    exists n: nat :: GoOn(sys, t, n) == end
  }

  lemma AloneFor(sys: System, t: Tid, n: nat, end: System)
    requires GoOn(sys, t, n) == end
    ensures Alone(sys, t, end)
  {
  }

  lemma AloneStep(sys: System, t: Tid)
    ensures Alone(sys, t, GoStep(sys, t, Works))
  {
    AloneFor(sys, t, 1, GoStep(sys, t, Works));
  }

  lemma AloneAdds(sys: System, t: Tid, mid: System, end: System)
    requires Alone(sys, t, mid) && Alone(mid, t, end)
    ensures Alone(sys, t, end)
  {
    var m: nat :| GoOn(sys, t, m) == mid;
    var n: nat :| GoOn(mid, t, n) == end;
    GoOnAdds(sys, t, m, n);
    AloneFor(sys, t, m + n, end);
  }

  lemma TwoSteps(sys: System, t: Tid)
    ensures GoOn(sys, t, 2) == GoStep(GoStep(sys, t, Works), t, Works)
  {
    assert GoOn(GoStep(GoStep(sys, t, Works), t, Works), t, 0) == GoStep(GoStep(sys, t, Works), t, Works);
  }

  /** Guard 1 and the stop flag. */
  lemma Enters(sys: System, t: Tid)
    requires t in sys.threads && sys.threads[t].phase.Entering? && sys.threads[t].slot !in sys.shared.running
    ensures var th := sys.threads[t];
      GoOn(sys, t, 2) == sys.(threads := sys.threads[t := th.(phase := Published)],
                              shared := sys.shared.(running := sys.shared.running[th.slot := t],
                                                    cancel := sys.shared.cancel[th.slot := Flag(t, th.depth)]))
  {
    TwoSteps(sys, t);
    var s1 := GoStep(sys, t, Works);
    assert s1.threads[t].phase.Marked?;
  }

  /** The four operations that meet a lock file and judge it. */
  lemma Meets(sys: System, t: Tid)
    requires t in sys.threads && sys.threads[t].phase.Published? && sys.threads[t].slot.auto in sys.shared.locks
    ensures var th := sys.threads[t]; var l := sys.shared.locks[th.slot.auto];
      GoOn(sys, t, 4) == sys.(threads := sys.threads[t :=
        th.(phase := Releasing(if Stale(sys.now, sys.alive, l) then Takeover(l) else Skip))])
  {
    var th := sys.threads[t];
    var l := sys.shared.locks[th.slot.auto];
    var s1 := GoStep(sys, t, Works);
    assert s1 == sys.(threads := sys.threads[t := th.(phase := Refused)]);
    var s2 := GoStep(s1, t, Works);
    assert s2 == sys.(threads := sys.threads[t := th.(phase := PidRead(Some(l)))]);
    TwoSteps(sys, t);
    ReadsAge(sys, s2, t, l);
    GoOnAdds(sys, t, 2, 2);
  }

  lemma ReadsAge(sys: System, s2: System, t: Tid, l: LockFile)
    requires t in sys.threads && Lookup(sys.shared.locks, sys.threads[t].slot.auto) == Some(l)
    requires s2 == sys.(threads := sys.threads[t := sys.threads[t].(phase := PidRead(Some(l)))])
    ensures GoOn(s2, t, 2) == sys.(threads := sys.threads[t :=
      sys.threads[t].(phase := Releasing(if Stale(sys.now, sys.alive, l) then Takeover(l) else Skip))])
  {
    TwoSteps(s2, t);
    var s3 := GoStep(s2, t, Works);
    assert s3.threads[t].phase == AgeRead(Some(l), if Old(sys.now, l) then Some(l) else None);
  }

  /** Left alone, guard 2 turns a launch away if and only if there is a lock file that is not stale, and creates one if
      and only if there is none. */
  lemma LockRefusal(sys: System, t: Tid)
    requires t in sys.threads && sys.threads[t].phase.Published?
    ensures var a := sys.threads[t].slot.auto;
      && (GoOn(sys, t, 1).threads[t].phase.Created? <==> a !in sys.shared.locks)
      && (GoOn(sys, t, 4).threads[t].phase == Releasing(Skip) <==>
            a in sys.shared.locks && !Stale(sys.now, sys.alive, sys.shared.locks[a]))
  {
    if sys.threads[t].slot.auto in sys.shared.locks {
      Meets(sys, t);
    } else {
      var s2 := GoOn(sys, t, 2);
      GoOnAdds(sys, t, 2, 2);
      assert GoOn(s2, t, 2).threads[t].phase == Releasing(Finish);
    }
  }

  /** A lock file that vanishes once it has refused the launch turns it away all the same, however stale it was. */
  lemma VanishedLockRefuses(sys: System, t: Tid)
    requires t in sys.threads && sys.threads[t].phase.Refused? && sys.threads[t].slot.auto !in sys.shared.locks
    ensures GoOn(sys, t, 3).threads[t].phase == Releasing(Skip)
  {
    var th, s1 := sys.threads[t], GoStep(sys, t, Works);
    assert s1 == sys.(threads := sys.threads[t := th.(phase := PidRead(None))]);
    assert GoStep(s1, t, Works).threads[t].phase == AgeRead(None, None);
  }

  /** The first two operations of `release_guards`. */
  lemma Releases(sys: System, t: Tid)
    requires t in sys.threads && sys.threads[t].phase.Releasing?
    ensures var th := sys.threads[t];
      GoOn(sys, t, 2) == sys.(threads := sys.threads[t := th.(phase := Unpublished(th.phase.next))],
                              shared := sys.shared.(running := Remove(sys.shared.running, th.slot),
                                                    cancel := Remove(sys.shared.cancel, th.slot)))
  {
    var th, s1 := sys.threads[t], GoStep(sys, t, Works);
    TwoSteps(sys, t);
    assert s1 == sys.(threads := sys.threads[t := th.(phase := Unmarked(th.phase.next))],
                      shared := sys.shared.(running := Remove(sys.shared.running, th.slot)));
  }

  /** Where a takeover leads, from any point on the way to it. */
  function TakenOver(sys: System, t: Tid): System
    requires t in sys.threads
  {
    var th, sh := sys.threads[t], sys.shared;
    sys.(threads := sys.threads[t := th.(phase := Entering, depth := th.depth + 1)],
         shared := Shared(Remove(sh.running, th.slot), Remove(sh.cancel, th.slot), Remove(sh.locks, th.slot.auto)))
  }

  /** The rest of a takeover, from the verdict on. */
  lemma Withdraws(sys: System, t: Tid)
    requires t in sys.threads && sys.threads[t].phase.Releasing? && sys.threads[t].phase.next.Takeover?
    requires sys.threads[t].depth + 1 < MAX_PREPARE_DEPTH
    ensures Alone(sys, t, TakenOver(sys, t))
  {
    Releases(sys, t);
    var s2 := GoOn(sys, t, 2);
    AloneFor(sys, t, 2, s2);
    AloneStep(s2, t);
    AloneAdds(sys, t, s2, GoStep(s2, t, Works));
  }

  /** Meeting a stale lock with a retry left. */
  lemma TakesOverAlone(sys: System, t: Tid)
    requires t in sys.threads && sys.threads[t].phase.Published? && sys.threads[t].depth + 1 < MAX_PREPARE_DEPTH
    requires sys.threads[t].slot.auto in sys.shared.locks
    requires Stale(sys.now, sys.alive, sys.shared.locks[sys.threads[t].slot.auto])
    ensures Alone(sys, t, TakenOver(sys, t))
  {
    Meets(sys, t);
    var s4 := GoOn(sys, t, 4);
    AloneFor(sys, t, 4, s4);
    Withdraws(s4, t);
    AloneAdds(sys, t, s4, TakenOver(s4, t));
  }

  /** Guard 1, the stop flag and a lock file of its own: all the way to the binding. */
  function LockedIn(sys: System, t: Tid): System
    requires t in sys.threads
  {
    var th, sh := sys.threads[t], sys.shared;
    sys.(threads := sys.threads[t := th.(phase := Binding, lock := true)],
         shared := Shared(sh.running[th.slot := t], sh.cancel[th.slot := Flag(t, th.depth)],
                          sh.locks[th.slot.auto := LockFile(t, Some(th.slot.pid), sys.now)]))
  }

  lemma LocksIn(sys: System, t: Tid)
    requires t in sys.threads && sys.threads[t].phase.Entering?
    requires sys.threads[t].slot !in sys.shared.running && sys.threads[t].slot.auto !in sys.shared.locks
    ensures Alone(sys, t, LockedIn(sys, t))
  {
    Enters(sys, t);
    var s2 := GoOn(sys, t, 2);
    AloneFor(sys, t, 2, s2);
    AloneFor(s2, t, 2, GoOn(s2, t, 2));
    AloneAdds(sys, t, s2, GoOn(s2, t, 2));
    assert GoOn(s2, t, 2) == LockedIn(sys, t);
  }

  /** The lock of a dead owner blocks nobody: a launch that meets it, with a retry left and left alone, removes it,
      records its own and gets its run. */
  lemma DeadOwnerBlocksNobody(sys: System, t: Tid) returns (end: System)
    requires t in sys.threads && sys.threads[t].phase.Published? && sys.threads[t].depth < 2
    requires sys.threads[t].slot.auto in sys.shared.locks
    requires Dead(sys.alive, sys.shared.locks[sys.threads[t].slot.auto])
    ensures Alone(sys, t, end) && t in end.threads && end.threads[t].phase.Prepared? && Guarded(end.threads[t])
    ensures var slot := sys.threads[t].slot;
      Lookup(end.shared.locks, slot.auto) == Some(LockFile(t, Some(slot.pid), sys.now))
  {
    TakesOverAlone(sys, t);
    var s1 := TakenOver(sys, t);
    LocksIn(s1, t);
    var s2 := LockedIn(s1, t);
    AloneAdds(sys, t, s1, s2);
    AloneStep(s2, t);
    end := GoStep(s2, t, Works);
    AloneAdds(sys, t, s2, end);
  }
}
