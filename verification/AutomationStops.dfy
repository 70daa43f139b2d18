/** Stop flags, slot by slot: what `stop_run` reaches, what it never reaches, and the one way a run loses its flag. */
module AutomationStops {
  import opened AutomationRuns
  import opened AutomationLocks

  /** What `stop_run` answers for a slot. */
  predicate StopAnswers(sys: System, slot: Slot) {
    slot in sys.shared.cancel
  }

  /** A run of the slot is past its publish step and has not begun to withdraw. */
  ghost predicate Runs(sys: System, slot: Slot) {
    exists t <- sys.threads :: sys.threads[t].slot == slot && Active(sys.threads[t].phase)
  }

  /** `stop_run` finds every such run of the slot, and fetches its own flag. */
  ghost predicate Reaches(sys: System, slot: Slot) {
    forall t <- sys.threads | sys.threads[t].slot == slot && Active(sys.threads[t].phase) ::
      StopAnswers(sys, slot) && sys.shared.cancel[slot] == Flag(t, sys.threads[t].depth)
  }

  /** The second removal of a release in the slot. */
  predicate Unpublishes(sys: System, step: Step, slot: Slot) {
    && step.Go? && step.t in sys.threads && sys.threads[step.t].slot == slot
    && sys.threads[step.t].phase.Unmarked?
  }

  /** That removal while another run of the slot is past its publish step. */
  ghost predicate Crosses(sys: System, step: Step, slot: Slot) {
    Unpublishes(sys, step, slot) && Runs(sys, slot)
  }

  // ---- Exactly when a run loses its flag ----

  /** How a step changes CANCEL, at one slot whose owner stays. */
  lemma CancelAt(sys: System, step: Step, slot: Slot)
    requires Exclusive(sys) && (step.Die? ==> step.pid != slot.pid)
    ensures var cancel := Next(sys, step).shared.cancel;
      if Unpublishes(sys, step, slot) then slot !in cancel
      else if step.Go? && step.t in sys.threads && sys.threads[step.t].slot == slot
              && sys.threads[step.t].phase.Marked? then
        slot in cancel && cancel[slot] == Flag(step.t, sys.threads[step.t].depth)
      else
        (slot in cancel <==> slot in sys.shared.cancel) && (slot in cancel ==> cancel[slot] == sys.shared.cancel[slot])
  {
    if step.Go? && step.t in sys.threads { ActFlags(sys, step.t, step.luck); }
  }

  /** In every reachable state, whatever has happened before, a run past its publish step loses its entry in a step if
      and only if that step is the second removal of another run's release in its slot; what is lost stays lost. */
  lemma LostExactlyByCrossing(sys: System, step: Step, t: Tid)
    requires Reachable(sys) && t in sys.threads && Active(sys.threads[t].phase)
    requires t in Next(sys, step).threads && Active(Next(sys, step).threads[t].phase)
    ensures var slot := sys.threads[t].slot;
      slot !in Next(sys, step).shared.cancel <==> slot !in sys.shared.cancel || Unpublishes(sys, step, slot)
  {
    ReachableInv(sys);
    CancelAt(sys, step, sys.threads[t].slot);
  }

  /** A step's effect on who holds a slot. */
  lemma ActiveBefore(sys: System, step: Step, t: Tid)
    requires Exclusive(sys) && t in Next(sys, step).threads && Active(Next(sys, step).threads[t].phase)
    ensures t in sys.threads && Holds(sys.threads[t].phase) && Next(sys, step).threads[t].slot == sys.threads[t].slot
    ensures Next(sys, step).threads[t].depth == sys.threads[t].depth
    ensures !Active(sys.threads[t].phase) ==> step.Go? && step.t == t && sys.threads[t].phase.Marked?
    ensures !(step.Die? && step.pid == sys.threads[t].slot.pid)
  {
    if step.Go? && step.t in sys.threads { ActFlags(sys, step.t, step.luck); }
  }

  lemma CrossingLoses(sys: System, step: Step, slot: Slot)
    requires Exclusive(sys) && Crosses(sys, step, slot)
    ensures !Reaches(Next(sys, step), slot)
  {
    CancelAt(sys, step, slot);
    var u :| u in sys.threads && sys.threads[u].slot == slot && Active(sys.threads[u].phase);
    assert Next(sys, step).threads[u] == sys.threads[u];
  }

  lemma StaysReached(sys: System, step: Step, t: Tid)
    requires Exclusive(sys) && t in Next(sys, step).threads && Active(Next(sys, step).threads[t].phase)
    requires Reaches(sys, Next(sys, step).threads[t].slot) && !Crosses(sys, step, Next(sys, step).threads[t].slot)
    ensures var sys1 := Next(sys, step); var th1 := sys1.threads[t];
      StopAnswers(sys1, th1.slot) && sys1.shared.cancel[th1.slot] == Flag(t, th1.depth)
  {
    ActiveBefore(sys, step, t);
    CancelAt(sys, step, sys.threads[t].slot);
  }

  lemma StepReaches(sys: System, step: Step, slot: Slot)
    requires Inv(sys) && Reaches(sys, slot)
    ensures Reaches(Next(sys, step), slot) <==> !Crosses(sys, step, slot)
  {
    if Crosses(sys, step, slot) {
      CrossingLoses(sys, step, slot);
    } else {
      var sys1 := Next(sys, step);
      forall t | t in sys1.threads && sys1.threads[t].slot == slot && Active(sys1.threads[t].phase)
        ensures StopAnswers(sys1, slot) && sys1.shared.cancel[slot] == Flag(t, sys1.threads[t].depth)
      {
        StaysReached(sys, step, t);
      }
    }
  }

  // ---- Over runs ----

  ghost predicate NoCrossing(sys: System, run: seq<Step>, slot: Slot)
    decreases run
  {
    run != [] ==> !Crosses(sys, run[0], slot) && NoCrossing(Next(sys, run[0]), run[1..], slot)
  }

  ghost predicate ReachesThroughout(sys: System, run: seq<Step>, slot: Slot)
    decreases run
  {
    Reaches(sys, slot) && (run != [] ==> ReachesThroughout(Next(sys, run[0]), run[1..], slot))
  }

  lemma {:induction false} ReachesExactly(sys: System, run: seq<Step>, slot: Slot)
    requires Inv(sys) && Reaches(sys, slot)
    ensures ReachesThroughout(sys, run, slot) <==> NoCrossing(sys, run, slot)
    ensures NoCrossing(sys, run, slot) ==> Reaches(After(sys, run), slot)
    decreases run
  {
    if run != [] {
      StepReaches(sys, run[0], slot);
      NextInv(sys, run[0]);
      if !Crosses(sys, run[0], slot) { ReachesExactly(Next(sys, run[0]), run[1..], slot); }
    }
  }

  /** From any reachable state in which `stop_run` reaches the runs of a slot, as it does whenever none is past its
      publish step, it reaches them all along a run if and only if no release of that slot crosses one of them;
      crossings elsewhere play no part. At the end, a slot with no such run and no release under way gets false. */
  lemma StopReaches(sys: System, run: seq<Step>, slot: Slot)
    requires Reachable(sys) && Reaches(sys, slot)
    ensures ReachesThroughout(sys, run, slot) <==> NoCrossing(sys, run, slot)
    ensures StopAnswers(After(sys, run), slot) ==> exists t <- After(sys, run).threads ::
      var th := After(sys, run).threads[t]; th.slot == slot && (Active(th.phase) || th.phase.Unmarked?)
  {
    ReachableInv(sys);
    ReachesExactly(sys, run, slot);
    RunInv(sys, run);
    var end := After(sys, run);
    if StopAnswers(end, slot) { assert end.shared.cancel[slot].owner in end.threads; }
  }

  // ---- One-step releases never cross ----

  /** While a release of the slot stands between its two removals, no other launch of the slot acts. */
  ghost predicate ReleasesAtOnce(sys: System, run: seq<Step>, slot: Slot)
    decreases run
  {
    run != [] ==>
      && (forall t <- sys.threads | sys.threads[t].slot == slot && sys.threads[t].phase.Unmarked? ::
            run[0].Go? && run[0].t in sys.threads && sys.threads[run[0].t].slot == slot ==> run[0].t == t)
      && ReleasesAtOnce(Next(sys, run[0]), run[1..], slot)
  }

  /** Half released, the slot is free. */
  ghost predicate HalfIsFree(sys: System, slot: Slot) {
    forall t <- sys.threads | sys.threads[t].slot == slot && sys.threads[t].phase.Unmarked? ::
      slot !in sys.shared.running
  }

  lemma AtOnceStaysFree(sys: System, step: Step, slot: Slot)
    requires Exclusive(sys) && HalfIsFree(sys, slot)
    requires forall t <- sys.threads | sys.threads[t].slot == slot && sys.threads[t].phase.Unmarked? ::
      step.Go? && step.t in sys.threads && sys.threads[step.t].slot == slot ==> step.t == t
    ensures HalfIsFree(Next(sys, step), slot)
  {
    if step.Go? && step.t in sys.threads {
      ActMarks(sys, step.t, step.luck);
    }
  }

  lemma {:induction false} AtOnceNeverCrosses(sys: System, run: seq<Step>, slot: Slot)
    requires Exclusive(sys) && HalfIsFree(sys, slot) && ReleasesAtOnce(sys, run, slot)
    ensures NoCrossing(sys, run, slot)
    decreases run
  {
    if run != [] {
      AtOnceStaysFree(sys, run[0], slot);
      NextExclusive(sys, run[0]);
      AtOnceNeverCrosses(Next(sys, run[0]), run[1..], slot);
    }
  }

  /** Nobody of the slot is on the way out. */
  ghost predicate NoneHalf(sys: System, slot: Slot) {
    forall t <- sys.threads :: sys.threads[t].slot == slot ==> !sys.threads[t].phase.Unmarked?
  }

  /** With the two removals of `release_guards` as one step, `stop_run` answers true exactly while a run of the slot is
      past its publish step and not yet released. */
  lemma StopExact(sys: System, run: seq<Step>, slot: Slot)
    requires Reachable(sys) && Reaches(sys, slot) && NoneHalf(sys, slot) && ReleasesAtOnce(sys, run, slot)
    requires NoneHalf(After(sys, run), slot)
    ensures StopAnswers(After(sys, run), slot) <==> Runs(After(sys, run), slot)
  {
    ReachableInv(sys);
    AtOnceNeverCrosses(sys, run, slot);
    StopReaches(sys, run, slot);
    ReachesExactly(sys, run, slot);
  }

  // ---- A stop takes hold ----

  lemma {:induction false} StopsGrow(sys: System, run: seq<Step>)
    ensures sys.stops <= After(sys, run).stops && sys.raised <= After(sys, run).raised
    decreases run
  {
    if run != [] {
      assert sys.stops <= Next(sys, run[0]).stops && sys.raised <= Next(sys, run[0]).raised;
      StopsGrow(Next(sys, run[0]), run[1..]);
    }
  }

  lemma {:induction false} AfterAppend(sys: System, run: seq<Step>, run1: seq<Step>)
    ensures After(sys, run + run1) == After(After(sys, run), run1)
    decreases run
  {
    if run == [] {
      assert run + run1 == run1;
    } else {
      assert (run + run1)[1..] == run[1..] + run1;
      AfterAppend(Next(sys, run[0]), run[1..], run1);
    }
  }

  /** A `stop_run` of a slot whose run it reaches raises that run's own flag, however much happens between its two
      operations and however much after them; nothing takes a raised flag back. */
  lemma StopTakesHold(sys: System, slot: Slot, t: Tid, between: seq<Step>, later: seq<Step>)
    requires Reaches(sys, slot) && t in sys.threads && sys.threads[t].slot == slot && Active(sys.threads[t].phase)
    ensures var f := Flag(t, sys.threads[t].depth);
      f in After(sys, [StopRead(slot)] + between + [StopStore(f)] + later).raised
  {
    var f := Flag(t, sys.threads[t].depth);
    var read := [StopRead(slot)];
    var s1 := Next(sys, StopRead(slot));
    assert read[1..] == [];
    AfterAppend(sys, read, between);
    assert After(sys, read) == After(s1, []);
    StopsGrow(s1, between);
    var s2 := After(sys, read + between);
    AfterAppend(sys, read + between, [StopStore(f)]);
    assert [StopStore(f)][1..] == [];
    assert After(s2, [StopStore(f)]) == After(Next(s2, StopStore(f)), []);
    AfterAppend(sys, read + between + [StopStore(f)], later);
    StopsGrow(After(sys, read + between + [StopStore(f)]), later);
  }

  // ---- A stop never reaches a later run ----

  ghost predicate Untouched(sys: System, f: Flag, slot: Slot) {
    && f !in sys.raised && f !in sys.stops && f.owner < sys.nextTid
    && (f.owner in sys.threads ==> sys.threads[f.owner].slot == slot)
  }

  lemma {:induction false} RunUntouched(sys: System, run: seq<Step>, f: Flag, slot: Slot)
    requires Inv(sys) && Untouched(sys, f, slot)
    requires forall s <- run :: s != StopRead(slot)
    ensures f !in After(sys, run).raised
    decreases run
  {
    if run != [] {
      assert run[0] in run;
      assert forall s <- run[1..] :: s in run;
      NextInv(sys, run[0]);
      RunUntouched(Next(sys, run[0]), run[1..], f, slot);
    }
  }

  /** A launch publishes a fresh flag that is false, and stays so until somebody stops its slot after that: stops
      requested before, even those fetched and not yet stored, belong to earlier runs. */
  lemma FreshFlag(sys: System, t: Tid, run: seq<Step>)
    requires Reachable(sys) && t in sys.threads && sys.threads[t].phase.Marked?
    requires forall s <- run :: s != StopRead(sys.threads[t].slot)
    ensures var f, published := Flag(t, sys.threads[t].depth), GoStep(sys, t, Works);
      && StopAnswers(published, sys.threads[t].slot) && published.shared.cancel[sys.threads[t].slot] == f
      && f !in After(published, run).raised
  {
    ReachableInv(sys);
    var f := Flag(t, sys.threads[t].depth);
    assert Unborn(sys, f);
    NextInv(sys, Go(t, Works));
    RunUntouched(Next(sys, Go(t, Works)), run, f, sys.threads[t].slot);
  }
}
