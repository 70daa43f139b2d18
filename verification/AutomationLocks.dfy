/** The cross-process lock file under every interleaving, automation by automation: the two ways in which a run loses
    the file it relies on, that the files exclude until the first of them happens, why it does, and who may remove a
    file. */
module AutomationLocks {
  import opened Options
  import opened AutomationRuns

  // ---- Authorship, unconditionally ----

  /** A lock file is owned only along the path from its creation to the end of the run. */
  ghost predicate LockPhase(th: Thread) {
    && (th.phase.Created? ==> th.lock)
    && (th.lock ==>
      || th.phase.Created? || th.phase.Binding? || th.phase.Prepared? || th.phase.Stranded?
      || th.phase == Releasing(Finish) || th.phase == Unmarked(Finish) || th.phase == Unpublished(Finish))
  }

  /** The lock file that a takeover under way was judged on. */
  function Pending(p: Phase): Option<LockFile> {
    match p
    case Releasing(Takeover(l)) => Some(l)
    case Unmarked(Takeover(l)) => Some(l)
    case Unpublished(Takeover(l)) => Some(l)
    case _ => None
  }

  /** The lock file whose PID has been read and not been judged yet. */
  function Read(p: Phase): Option<LockFile> {
    match p
    case PidRead(r) => r
    case AgeRead(r, _) => r
    case _ => None
  }

  function Aged(p: Phase): Option<LockFile> {
    match p
    case AgeRead(_, l) => l
    case _ => None
  }

  ghost predicate Cites(p: Phase, l: LockFile) {
    Read(p) == Some(l) || Aged(p) == Some(l) || Pending(p) == Some(l)
  }

  /** The creator of a lock file for `a`, if it still runs, launched `a` and owns it or is done for good. */
  ghost predicate Author(sys: System, a: Auto, l: LockFile) {
    l.creator < sys.nextTid && (l.creator in sys.threads ==>
      var c := sys.threads[l.creator]; c.slot.auto == a && (c.lock || c.phase.Done?))
  }

  ghost predicate AllAuthored(sys: System, t: Tid)
    requires t in sys.threads
  {
    && t < sys.nextTid && LockPhase(sys.threads[t])
    && (Aged(sys.threads[t].phase).Some? ==> Old(sys.now, Aged(sys.threads[t].phase).value))
    && forall l | Cites(sys.threads[t].phase, l) :: Author(sys, sys.threads[t].slot.auto, l)
  }

  ghost predicate Authored(sys: System) {
    && (forall t <- sys.threads :: AllAuthored(sys, t))
    && (forall a <- sys.shared.locks :: Author(sys, a, sys.shared.locks[a]))
  }

  // ---- Relying on a lock ----

  /** Every run that relies on a lock for `a` finds its own lock file there. */
  ghost predicate Relies(sys: System, a: Auto) {
    forall t <- sys.threads | sys.threads[t].slot.auto == a && Guarded(sys.threads[t]) ::
      a in sys.shared.locks && sys.shared.locks[a].creator == t
  }

  ghost predicate InUse(sys: System, l: LockFile) {
    l.creator in sys.threads && Guarded(sys.threads[l.creator])
  }

  predicate TakesOver(sys: System, step: Step, a: Auto) {
    && step.Go? && step.t in sys.threads && sys.threads[step.t].slot.auto == a
    && sys.threads[step.t].phase.Unpublished? && sys.threads[step.t].phase.next.Takeover?
  }

  /** A takeover removes a lock file that its creator still relies on. */
  ghost predicate Robs(sys: System, step: Step, a: Auto) {
    TakesOver(sys, step, a) && a in sys.shared.locks && InUse(sys, sys.shared.locks[a])
  }

  // ---- One operation of one thread ----

  /** The lock files stay, and the thread cites nothing but what it cited or what is there now. */
  ghost predicate LockNeutral(th: Thread, th1: Thread, locks: map<Auto, LockFile>) {
    && th1.slot == th.slot && th1.lock == th.lock && LockPhase(th1)
    && (forall l | Cites(th1.phase, l) :: Cites(th.phase, l) || Lookup(locks, th.slot.auto) == Some(l))
    && (th.phase.Done? ==> th1.phase.Done?) && (th.phase.Stranded? ==> th1.phase.Stranded?)
  }

  ghost predicate Creates(sys: System, t: Tid, luck: Luck)
    requires t in sys.threads
  {
    sys.threads[t].phase.Published? && luck.Works? && sys.threads[t].slot.auto !in sys.shared.locks
  }

  ghost predicate Finishes(th: Thread) {
    th.phase == Unpublished(Finish) && th.lock
  }

  /** What an operation does to the lock files. */
  lemma ActLocks(sys: System, t: Tid, luck: Luck)
    requires t in sys.threads && LockPhase(sys.threads[t])
    ensures var th, a, locks := sys.threads[t], sys.threads[t].slot.auto, sys.shared.locks;
      var (th1, sh1) := Act(sys, t, luck);
      if TakesOver(sys, Go(t, luck), a) then
        && th1.slot == th.slot && th1.lock == th.lock && (th1.phase.Done? || th1.phase.Entering?)
        && sh1.locks == Remove(locks, a)
      else if Creates(sys, t, luck) then
        th1 == th.(phase := Created, lock := true) && sh1.locks == locks[a := LockFile(t, None, sys.now)]
      else if th.phase.Created? && luck.Works? then
        && th1 == th.(phase := Binding)
        && sh1.locks == locks[a := LockFile(if a in locks then locks[a].creator else t, Some(th.slot.pid), sys.now)]
      else if Finishes(th) then th1 == th.(phase := Done, lock := false) && sh1.locks == Remove(locks, a)
      else LockNeutral(th, th1, locks) && sh1.locks == locks
  {
    var th := sys.threads[t];
    if th.phase.Published? || Looking(th.phase) {
      LookLocks(sys, t, luck);
      assert !TakesOver(sys, Go(t, luck), th.slot.auto) && !Finishes(th);
    }
  }

  lemma LookLocks(sys: System, t: Tid, luck: Luck)
    requires t in sys.threads && LockPhase(sys.threads[t])
    requires sys.threads[t].phase.Published? || Looking(sys.threads[t].phase)
    ensures var th, a, locks := sys.threads[t], sys.threads[t].slot.auto, sys.shared.locks;
      var (th1, sh1) := Look(sys, t, luck);
      if Creates(sys, t, luck) then
        th1 == th.(phase := Created, lock := true) && sh1.locks == locks[a := LockFile(t, None, sys.now)]
      else if th.phase.Created? && luck.Works? then
        && th1 == th.(phase := Binding)
        && sh1.locks == locks[a := LockFile(if a in locks then locks[a].creator else t, Some(th.slot.pid), sys.now)]
      else LockNeutral(th, th1, locks) && sh1.locks == locks
  {
  }

  /** Threads may go, arrive without a lock, or move along; whoever owned a file still does or is done. */
  ghost predicate KeepsAuthors(sys: System, sys1: System) {
    && sys1.nextTid >= sys.nextTid
    && forall t <- sys1.threads | t < sys.nextTid ::
         && t in sys.threads && sys1.threads[t].slot == sys.threads[t].slot
         && (sys.threads[t].lock || sys.threads[t].phase.Done? ==> sys1.threads[t].lock || sys1.threads[t].phase.Done?)
  }

  lemma GoAuthors(sys: System, t: Tid, luck: Luck)
    requires Authored(sys) && t in sys.threads
    ensures KeepsAuthors(sys, GoStep(sys, t, luck))
  {
    assert AllAuthored(sys, t);
    ActLocks(sys, t, luck);
  }

  lemma GoAuthored(sys: System, t: Tid, luck: Luck)
    requires Authored(sys) && t in sys.threads
    ensures Authored(GoStep(sys, t, luck))
  {
    var a, sys1 := sys.threads[t].slot.auto, GoStep(sys, t, luck);
    assert AllAuthored(sys, t);
    ActLocks(sys, t, luck);
    GoAuthors(sys, t, luck);
    forall u | u in sys1.threads ensures AllAuthored(sys1, u) {
      assert AllAuthored(sys, u);
    }
    forall b | b in sys1.shared.locks ensures Author(sys1, b, sys1.shared.locks[b]) {
      assert b in sys.shared.locks ==> Author(sys, b, sys.shared.locks[b]);
    }
  }

  lemma NextAuthored(sys: System, step: Step)
    requires Authored(sys)
    ensures Authored(Next(sys, step))
  {
    if step.Go? && step.t in sys.threads {
      GoAuthored(sys, step.t, step.luck);
    } else {
      var sys1 := Next(sys, step);
      assert sys1.shared.locks == sys.shared.locks;
      forall u | u in sys1.threads ensures AllAuthored(sys1, u) {
        assert u in sys.threads ==> AllAuthored(sys, u);
      }
    }
  }

  // ---- Exactly when a run loses its lock ----

  lemma GoRelies(sys: System, t: Tid, luck: Luck, a: Auto)
    requires Authored(sys) && Relies(sys, a) && t in sys.threads
    ensures Relies(GoStep(sys, t, luck), a) <==> !Robs(sys, Go(t, luck), a)
  {
    var sys1 := GoStep(sys, t, luck);
    assert AllAuthored(sys, t);
    ActLocks(sys, t, luck);
    if Robs(sys, Go(t, luck), a) {
      var c := sys.shared.locks[a].creator;
      assert Author(sys, a, sys.shared.locks[a]);
      assert sys1.threads[c] == sys.threads[c];
    } else {
      forall u | u in sys1.threads && sys1.threads[u].slot.auto == a && Guarded(sys1.threads[u])
        ensures a in sys1.shared.locks && sys1.shared.locks[a].creator == u
      {
        assert u != t ==> Guarded(sys.threads[u]);
      }
    }
  }

  /** While the runs of `a` all have the lock files they rely on, a step takes one away if and only if it is the removal
      in a takeover of a file that is still in use. */
  lemma RobbedExactly(sys: System, step: Step, a: Auto)
    requires Authored(sys) && Relies(sys, a)
    ensures Relies(Next(sys, step), a) <==> !Robs(sys, step, a)
  {
    if step.Go? && step.t in sys.threads { GoRelies(sys, step.t, step.luck, a); }
  }

  // ---- Every reachable state ----

  ghost predicate Inv(sys: System) {
    Exclusive(sys) && Flagged(sys) && Authored(sys) && Shallow(sys)
  }

  lemma NextInv(sys: System, step: Step)
    requires Inv(sys)
    ensures Inv(Next(sys, step))
  {
    NextExclusive(sys, step);
    NextFlagged(sys, step);
    NextAuthored(sys, step);
    NextShallow(sys, step);
  }

  lemma {:induction false} RunInv(sys: System, run: seq<Step>)
    requires Inv(sys)
    ensures Inv(After(sys, run))
    decreases run
  {
    if run != [] {
      NextInv(sys, run[0]);
      RunInv(Next(sys, run[0]), run[1..]);
    }
  }

  lemma ReachableInv(sys: System)
    requires Reachable(sys)
    ensures Inv(sys)
  {
    var run :| After(INITIAL, run) == sys;
    RunInv(INITIAL, run);
  }

  // ---- The lock file of one launch, whatever has happened before ----

  /** The lock file of `a` is there, and launch `t` created it. */
  ghost predicate Has(sys: System, a: Auto, t: Tid) {
    a in sys.shared.locks && sys.shared.locks[a].creator == t
  }

  /** The end of a launch that owns a lock file of `a`: whatever file is there goes. */
  ghost predicate Ends(sys: System, step: Step, a: Auto) {
    step.Go? && step.t in sys.threads && sys.threads[step.t].slot.auto == a && Finishes(sys.threads[step.t])
  }

  /** `t` creates the lock file of `a`, or writes its PID when the file it created is gone. */
  ghost predicate Gains(sys: System, step: Step, a: Auto, t: Tid) {
    && step.Go? && step.t == t && step.luck.Works? && t in sys.threads && sys.threads[t].slot.auto == a
    && (sys.threads[t].phase.Published? || sys.threads[t].phase.Created?) && a !in sys.shared.locks
  }

  /** One step, for any launch and in any state with its authors in order. */
  lemma HasNext(sys: System, step: Step, a: Auto, t: Tid)
    requires Authored(sys)
    ensures Has(Next(sys, step), a, t) <==>
      Gains(sys, step, a, t) || (Has(sys, a, t) && !TakesOver(sys, step, a) && !Ends(sys, step, a))
  {
    if step.Go? && step.t in sys.threads {
      assert AllAuthored(sys, step.t);
      ActLocks(sys, step.t, step.luck);
    }
  }

  /** In every reachable state, robbed or not: a run that relies on a lock and has its file loses it in a step if and
      only if that step is the removal in some takeover of `a`, or the end of another run of `a` that owns a lock file,
      its own or no longer; and one that has lost it gets a file again only by writing its PID where none is. */
  lemma LosesLockExactly(sys: System, step: Step, t: Tid)
    requires Reachable(sys) && t in sys.threads && Guarded(sys.threads[t])
    requires t in Next(sys, step).threads && Guarded(Next(sys, step).threads[t])
    ensures var a := sys.threads[t].slot.auto;
      if Has(sys, a, t) then
        !Has(Next(sys, step), a, t) <==> TakesOver(sys, step, a) || (Ends(sys, step, a) && step.t != t)
      else
        Has(Next(sys, step), a, t) <==>
          step == Go(t, Works) && sys.threads[t].phase.Created? && a !in sys.shared.locks
  {
    ReachableInv(sys);
    assert AllAuthored(sys, t);
    HasNext(sys, step, sys.threads[t].slot.auto, t);
    if step.Go? && step.t == t { ActLocks(sys, t, step.luck); }
  }

  /** Going by the creations and removals of the run alone: whether `t`'s file is there at the end. */
  ghost predicate HasAfter(sys: System, run: seq<Step>, a: Auto, t: Tid, has: bool)
    decreases run
  {
    if run == [] then has
    else
      HasAfter(Next(sys, run[0]), run[1..], a, t,
               Gains(sys, run[0], a, t) || (has && !TakesOver(sys, run[0], a) && !Ends(sys, run[0], a)))
  }

  lemma {:induction false} HasAlong(sys: System, run: seq<Step>, a: Auto, t: Tid)
    requires Authored(sys)
    ensures Has(After(sys, run), a, t) <==> HasAfter(sys, run, a, t, Has(sys, a, t))
    decreases run
  {
    if run != [] {
      HasNext(sys, run[0], a, t);
      NextAuthored(sys, run[0]);
      HasAlong(Next(sys, run[0]), run[1..], a, t);
    }
  }

  // ---- Over runs ----

  /** No step of the run robs a run of `a`. */
  ghost predicate NoRobbery(sys: System, run: seq<Step>, a: Auto)
    decreases run
  {
    run != [] ==> !Robs(sys, run[0], a) && NoRobbery(Next(sys, run[0]), run[1..], a)
  }

  ghost predicate ReliesThroughout(sys: System, run: seq<Step>, a: Auto)
    decreases run
  {
    Relies(sys, a) && (run != [] ==> ReliesThroughout(Next(sys, run[0]), run[1..], a))
  }

  /** From any reachable state in which the runs of `a` have their lock files, they have them all along a run if and
      only if none of its steps robs `a`, whatever happens to other automations. */
  lemma {:induction false} ReliesExactly(sys: System, run: seq<Step>, a: Auto)
    requires Inv(sys) && Relies(sys, a)
    ensures ReliesThroughout(sys, run, a) <==> NoRobbery(sys, run, a)
    ensures NoRobbery(sys, run, a) ==> Relies(After(sys, run), a)
    decreases run
  {
    if run != [] {
      RobbedExactly(sys, run[0], a);
      NextInv(sys, run[0]);
      if !Robs(sys, run[0], a) { ReliesExactly(Next(sys, run[0]), run[1..], a); }
    }
  }

  /** No run relies on a lock of `a`: a robbery is over, at the latest, when this is so again. */
  ghost predicate Unused(sys: System, a: Auto) {
    forall t <- sys.threads :: sys.threads[t].slot.auto == a ==> !Guarded(sys.threads[t])
  }

  /** Across processes, two launches that rely on a lock for `a` are the same launch, unless a robbery of `a` has
      happened since its locks were last unused; other automations, their races and their age play no part. */
  lemma OneLockedRun(sys: System, run: seq<Step>, a: Auto, t: Tid, u: Tid)
    requires Reachable(sys) && Unused(sys, a) && NoRobbery(sys, run, a)
    requires var ths := After(sys, run).threads;
      && t in ths && ths[t].slot.auto == a && Guarded(ths[t])
      && u in ths && ths[u].slot.auto == a && Guarded(ths[u])
    ensures t == u
  {
    ReachableInv(sys);
    ReliesExactly(sys, run, a);
  }

  // ---- Why a takeover robs ----

  /** If the creator of `l` still relies on a lock, the PID in `l` is its own. */
  ghost predicate Signed(sys: System, l: LockFile) {
    InUse(sys, l) && l.pid.Some? ==> l.pid.value == sys.threads[l.creator].slot.pid
  }

  ghost predicate EvidenceOf(sys: System, t: Tid)
    requires t in sys.threads
  {
    var p := sys.threads[t].phase;
    && (Read(p).Some? ==> Signed(sys, Read(p).value))
    && (Pending(p).Some? && InUse(sys, Pending(p).value) ==> Old(sys.now, Pending(p).value))
  }

  /** The PIDs read for `a` are those of the creators, and a file in use is judged stale by age only. */
  ghost predicate Evidence(sys: System, a: Auto) {
    && (a in sys.shared.locks ==> Signed(sys, sys.shared.locks[a]))
    && forall t <- sys.threads | sys.threads[t].slot.auto == a :: EvidenceOf(sys, t)
  }

  /** Whoever authored a file and no longer relies on a lock never will again. */
  lemma InUseBefore(sys: System, step: Step, a: Auto, l: LockFile)
    requires Authored(sys) && Author(sys, a, l) && InUse(Next(sys, step), l)
    ensures InUse(sys, l) && Next(sys, step).threads[l.creator].slot == sys.threads[l.creator].slot
  {
    if step.Go? && step.t in sys.threads {
      assert AllAuthored(sys, step.t);
      ActLocks(sys, step.t, step.luck);
    }
  }

  lemma SignedStays(sys: System, step: Step, a: Auto, l: LockFile)
    requires Authored(sys) && Author(sys, a, l) && Signed(sys, l)
    ensures Signed(Next(sys, step), l)
  {
    if InUse(Next(sys, step), l) { InUseBefore(sys, step, a, l); }
  }

  lemma OthersEvidence(sys: System, step: Step, a: Auto, t: Tid)
    requires Authored(sys) && t in sys.threads && sys.threads[t].slot.auto == a && EvidenceOf(sys, t)
    requires t in Next(sys, step).threads && Next(sys, step).threads[t] == sys.threads[t]
    ensures EvidenceOf(Next(sys, step), t)
  {
    var p := sys.threads[t].phase;
    assert AllAuthored(sys, t);
    if Read(p).Some? { SignedStays(sys, step, a, Read(p).value); }
    if Pending(p).Some? && InUse(Next(sys, step), Pending(p).value) { InUseBefore(sys, step, a, Pending(p).value); }
    if step.Go? && step.t in sys.threads { assert GoStep(sys, step.t, step.luck).now == sys.now; }
  }

  /** What a thread newly knows of the lock file comes from the file that is there, or from a sound judgement. */
  lemma ActEvidence(sys: System, t: Tid, luck: Luck)
    requires t in sys.threads && Exclusive(sys) && AllAuthored(sys, t) && EvidenceOf(sys, t)
    requires sys.threads[t].slot.auto in sys.shared.locks ==> Signed(sys, sys.shared.locks[sys.threads[t].slot.auto])
    ensures var p := Act(sys, t, luck).0.phase;
      && (Read(p).Some? ==> Signed(sys, Read(p).value))
      && (Pending(p).Some? && InUse(sys, Pending(p).value) ==> Old(sys.now, Pending(p).value))
  {
    var p := sys.threads[t].phase;
    if p.Published? || Looking(p) { LookEvidence(sys, t, luck); }
  }

  lemma LookEvidence(sys: System, t: Tid, luck: Luck)
    requires t in sys.threads && Exclusive(sys) && AllAuthored(sys, t) && EvidenceOf(sys, t)
    requires sys.threads[t].phase.Published? || Looking(sys.threads[t].phase)
    requires sys.threads[t].slot.auto in sys.shared.locks ==> Signed(sys, sys.shared.locks[sys.threads[t].slot.auto])
    ensures var p := Look(sys, t, luck).0.phase;
      && (Read(p).Some? ==> Signed(sys, Read(p).value))
      && (Pending(p).Some? && InUse(sys, Pending(p).value) ==> Old(sys.now, Pending(p).value))
  {
    var p := sys.threads[t].phase;
    if p.AgeRead? && p.read.Some? && InUse(sys, p.read.value) {
      assert !Dead(sys.alive, p.read.value);
    }
  }

  lemma GoEvidence(sys: System, t: Tid, luck: Luck)
    requires Exclusive(sys) && Authored(sys) && t in sys.threads && Relies(sys, sys.threads[t].slot.auto)
    requires Evidence(sys, sys.threads[t].slot.auto)
    ensures Evidence(GoStep(sys, t, luck), sys.threads[t].slot.auto)
  {
    var a, step, sys1 := sys.threads[t].slot.auto, Go(t, luck), GoStep(sys, t, luck);
    assert AllAuthored(sys, t) && EvidenceOf(sys, t);
    ActLocks(sys, t, luck);
    ActEvidence(sys, t, luck);
    GoAuthored(sys, t, luck);
    assert AllAuthored(sys1, t);
    forall u | u in sys1.threads && sys1.threads[u].slot.auto == a ensures EvidenceOf(sys1, u) {
      if u == t {
        MineStays(sys, t, luck);
      } else {
        assert EvidenceOf(sys, u);
        OthersEvidence(sys, step, a, u);
      }
    }
    if a in sys1.shared.locks && a in sys.shared.locks && sys1.shared.locks[a] == sys.shared.locks[a] {
      assert Author(sys, a, sys.shared.locks[a]);
      SignedStays(sys, step, a, sys.shared.locks[a]);
    }
  }

  lemma MineStays(sys: System, t: Tid, luck: Luck)
    requires Authored(sys) && t in sys.threads
    requires var p := Act(sys, t, luck).0.phase;
      && (Read(p).Some? ==> Signed(sys, Read(p).value))
      && (Pending(p).Some? && InUse(sys, Pending(p).value) ==> Old(sys.now, Pending(p).value))
    ensures EvidenceOf(GoStep(sys, t, luck), t)
  {
    var a, p := sys.threads[t].slot.auto, Act(sys, t, luck).0.phase;
    var step, sys1 := Go(t, luck), GoStep(sys, t, luck);
    assert AllAuthored(sys, t);
    ActLocks(sys, t, luck);
    assert forall l | Cites(p, l) :: Author(sys, a, l) by {
      assert a in sys.shared.locks ==> Author(sys, a, sys.shared.locks[a]);
    }
    if Read(p).Some? { SignedStays(sys, step, a, Read(p).value); }
    if Pending(p).Some? && InUse(sys1, Pending(p).value) { InUseBefore(sys, step, a, Pending(p).value); }
  }

  lemma NextEvidence(sys: System, step: Step, a: Auto)
    requires Exclusive(sys) && Authored(sys) && Relies(sys, a) && Evidence(sys, a)
    ensures Evidence(Next(sys, step), a)
  {
    if step.Go? && step.t in sys.threads && sys.threads[step.t].slot.auto == a {
      GoEvidence(sys, step.t, step.luck);
    } else {
      var sys1 := Next(sys, step);
      StaysPut(sys, step, a);
      forall u | u in sys1.threads && sys1.threads[u].slot.auto == a ensures EvidenceOf(sys1, u) {
        if u in sys.threads {
          assert EvidenceOf(sys, u);
          if step.Advance? {
            LaterEvidence(sys, step.dt, u);
          } else {
            OthersEvidence(sys, step, a, u);
          }
        }
      }
      if a in sys.shared.locks {
        assert Author(sys, a, sys.shared.locks[a]);
        SignedStays(sys, step, a, sys.shared.locks[a]);
      }
    }
  }

  lemma LaterEvidence(sys: System, dt: nat, t: Tid)
    requires t in sys.threads && EvidenceOf(sys, t)
    ensures EvidenceOf(Next(sys, Advance(dt)), t)
  {
  }

  /** A step of no launch of `a` leaves its lock file and its launches where they are, but for those that end. */
  lemma StaysPut(sys: System, step: Step, a: Auto)
    requires Authored(sys) && !(step.Go? && step.t in sys.threads && sys.threads[step.t].slot.auto == a)
    ensures var sys1 := Next(sys, step);
      && Lookup(sys1.shared.locks, a) == Lookup(sys.shared.locks, a)
      && (forall t <- sys1.threads | sys1.threads[t].slot.auto == a && t in sys.threads ::
            sys1.threads[t] == sys.threads[t])
      && (forall t <- sys1.threads | t !in sys.threads :: sys1.threads[t].phase.Entering?)
  {
    if step.Go? && step.t in sys.threads {
      assert AllAuthored(sys, step.t);
      ActLocks(sys, step.t, step.luck);
    }
  }

  lemma UnusedIsSound(sys: System, a: Auto)
    requires Authored(sys) && Unused(sys, a)
    ensures Relies(sys, a) && Evidence(sys, a)
  {
    assert a in sys.shared.locks ==> Author(sys, a, sys.shared.locks[a]);
    forall t | t in sys.threads && sys.threads[t].slot.auto == a ensures EvidenceOf(sys, t) {
      assert AllAuthored(sys, t);
      assert forall l | Cites(sys.threads[t].phase, l) :: !InUse(sys, l);
    }
  }

  lemma {:induction false} EvidenceThroughout(sys: System, run: seq<Step>, a: Auto)
    requires Inv(sys) && Relies(sys, a) && Evidence(sys, a) && NoRobbery(sys, run, a)
    ensures Inv(After(sys, run)) && Relies(After(sys, run), a) && Evidence(After(sys, run), a)
    decreases run
  {
    if run != [] {
      RobbedExactly(sys, run[0], a);
      NextEvidence(sys, run[0], a);
      NextInv(sys, run[0]);
      EvidenceThroughout(Next(sys, run[0]), run[1..], a);
    }
  }

  /** The first robbery of `a` since its locks were last unused: the takeover removes another file than the one it
      judged, or the owner, which is alive, has held its lock for over six hours. */
  lemma WhyRobbed(sys: System, run: seq<Step>, step: Step, a: Auto)
    requires Reachable(sys) && Unused(sys, a) && NoRobbery(sys, run, a) && Robs(After(sys, run), step, a)
    ensures var mid := After(sys, run); var there := mid.shared.locks[a];
      && mid.threads[there.creator].slot.pid in mid.alive
      && (there != mid.threads[step.t].phase.next.seen || mid.now - there.born > 6 * 3600)
  {
    ReachableInv(sys);
    UnusedIsSound(sys, a);
    EvidenceThroughout(sys, run, a);
    assert EvidenceOf(After(sys, run), step.t);
  }

  // ---- Takeovers in one go ----

  /** Between reading the PID of a lock file and removing the file, or not. */
  predicate Midway(p: Phase) {
    p.PidRead? || p.AgeRead? || Pending(p).Some?
  }

  /** While `t` is midway, another launch of the automation acts, or a process comes up under a PID that `t` has
      read. */
  ghost predicate Disturbs(sys: System, step: Step, t: Tid)
    requires t in sys.threads
  {
    || (step.Go? && step.t != t && step.t in sys.threads && sys.threads[step.t].slot.auto == sys.threads[t].slot.auto)
    || (step.Spawn? && exists l: LockFile :: Cites(sys.threads[t].phase, l) && l.pid == Some(step.pid))
  }

  /** Looking at the lock of `a` and removing it count as one step. */
  ghost predicate TakeoversAtOnce(sys: System, run: seq<Step>, a: Auto)
    decreases run
  {
    run != [] ==>
      && (forall t <- sys.threads | sys.threads[t].slot.auto == a && Midway(sys.threads[t].phase) ::
            !Disturbs(sys, run[0], t))
      && TakeoversAtOnce(Next(sys, run[0]), run[1..], a)
  }

  /** What the launch has looked at is what is there, and if it judged it stale, it is. */
  ghost predicate JudgedIsThere(sys: System, t: Tid)
    requires t in sys.threads
  {
    var p := sys.threads[t].phase;
    && (forall l | Cites(p, l) :: Lookup(sys.shared.locks, sys.threads[t].slot.auto) == Some(l))
    && (Pending(p).Some? ==> Stale(sys.now, sys.alive, Pending(p).value))
  }

  ghost predicate AllJudged(sys: System, a: Auto) {
    forall t <- sys.threads | sys.threads[t].slot.auto == a :: JudgedIsThere(sys, t)
  }

  /** The operation of the only launch of `a` that acts. */
  lemma ActJudged(sys: System, t: Tid, luck: Luck)
    requires t in sys.threads && AllAuthored(sys, t) && JudgedIsThere(sys, t)
    ensures JudgedIsThere(GoStep(sys, t, luck), t)
  {
    ActLocks(sys, t, luck);
    var p := sys.threads[t].phase;
    assert p.AgeRead? && p.aged.Some? ==> Old(sys.now, p.aged.value);
  }

  lemma AtOnceKeeps(sys: System, step: Step, a: Auto)
    requires Authored(sys) && AllJudged(sys, a)
    requires forall t <- sys.threads | sys.threads[t].slot.auto == a && Midway(sys.threads[t].phase) ::
      !Disturbs(sys, step, t)
    ensures AllJudged(Next(sys, step), a)
  {
    var sys1 := Next(sys, step);
    forall u | u in sys1.threads && sys1.threads[u].slot.auto == a ensures JudgedIsThere(sys1, u) {
      if u in sys.threads {
        assert JudgedIsThere(sys, u) && AllAuthored(sys, u);
        if step.Go? && step.t in sys.threads && sys.threads[step.t].slot.auto == a {
          if u == step.t { ActJudged(sys, u, step.luck); } else { NotMidwayJudged(sys, step, u); }
        } else {
          StaysPut(sys, step, a);
          UndisturbedJudged(sys, step, u);
        }
      }
    }
  }

  lemma NotMidwayJudged(sys: System, step: Step, u: Tid)
    requires u in sys.threads && !Midway(sys.threads[u].phase)
    requires u in Next(sys, step).threads && Next(sys, step).threads[u] == sys.threads[u]
    ensures JudgedIsThere(Next(sys, step), u)
  {
  }

  lemma UndisturbedJudged(sys: System, step: Step, u: Tid)
    requires Authored(sys) && u in sys.threads && JudgedIsThere(sys, u)
    requires Midway(sys.threads[u].phase) ==> !Disturbs(sys, step, u)
    requires var a, sys1 := sys.threads[u].slot.auto, Next(sys, step);
      && !(step.Go? && step.t in sys.threads && sys.threads[step.t].slot.auto == a)
      && u in sys1.threads && sys1.threads[u] == sys.threads[u]
      && Lookup(sys1.shared.locks, a) == Lookup(sys.shared.locks, a)
    ensures JudgedIsThere(Next(sys, step), u)
  {
    var p := sys.threads[u].phase;
    if Pending(p).Some? { assert Cites(p, Pending(p).value); }
  }

  /** No launch of `a` relies on a lock or is looking at one. */
  ghost predicate Idle(sys: System, a: Auto) {
    forall t <- sys.threads ::
      sys.threads[t].slot.auto == a ==> !Guarded(sys.threads[t]) && !Midway(sys.threads[t].phase)
  }

  /** No run of `a` has held its lock for over six hours when a step happens. */
  ghost predicate YoungRuns(sys: System, run: seq<Step>, a: Auto)
    decreases run
  {
    run != [] ==>
      && (a in sys.shared.locks && InUse(sys, sys.shared.locks[a]) ==> sys.now - sys.shared.locks[a].born <= 6 * 3600)
      && YoungRuns(Next(sys, run[0]), run[1..], a)
  }

  lemma {:induction false} AtOnceNeverRobs(sys: System, run: seq<Step>, a: Auto)
    requires Inv(sys) && Relies(sys, a) && Evidence(sys, a) && AllJudged(sys, a)
    requires TakeoversAtOnce(sys, run, a) && YoungRuns(sys, run, a)
    ensures NoRobbery(sys, run, a)
    decreases run
  {
    if run != [] {
      if Robs(sys, run[0], a) {
        assert EvidenceOf(sys, run[0].t) && JudgedIsThere(sys, run[0].t);
        assert Cites(sys.threads[run[0].t].phase, sys.threads[run[0].t].phase.next.seen);
      }
      RobbedExactly(sys, run[0], a);
      NextEvidence(sys, run[0], a);
      AtOnceKeeps(sys, run[0], a);
      NextInv(sys, run[0]);
      AtOnceNeverRobs(Next(sys, run[0]), run[1..], a);
    }
  }

  /** With looking at a lock of `a` and removing it as one step, and no run of `a` over six hours old, the lock files
      exclude: two launches that rely on a lock for `a` are the same launch. */
  lemma AtOnceExcludes(sys: System, run: seq<Step>, a: Auto, t: Tid, u: Tid)
    requires Reachable(sys) && Idle(sys, a) && TakeoversAtOnce(sys, run, a) && YoungRuns(sys, run, a)
    requires var ths := After(sys, run).threads;
      && t in ths && ths[t].slot.auto == a && Guarded(ths[t])
      && u in ths && ths[u].slot.auto == a && Guarded(ths[u])
    ensures t == u
  {
    ReachableInv(sys);
    UnusedIsSound(sys, a);
    AtOnceNeverRobs(sys, run, a);
    OneLockedRun(sys, run, a, t, u);
  }

  lemma {:induction false} JudgedThroughout(sys: System, run: seq<Step>, a: Auto)
    requires Inv(sys) && AllJudged(sys, a) && TakeoversAtOnce(sys, run, a)
    ensures Inv(After(sys, run)) && AllJudged(After(sys, run), a)
    decreases run
  {
    if run != [] {
      AtOnceKeeps(sys, run[0], a);
      NextInv(sys, run[0]);
      JudgedThroughout(Next(sys, run[0]), run[1..], a);
    }
  }

  /** What a step that removes the lock file of `a` is: a takeover, which takes the very file it judged, and that is
      stale; or the end of a run that owns a lock file, which takes its own if and only if `own`. */
  ghost predicate Accounted(sys: System, step: Step, a: Auto, own: bool)
    requires a in sys.shared.locks
  {
    && step.Go? && step.t in sys.threads && sys.threads[step.t].slot.auto == a && sys.threads[step.t].phase.Unpublished?
    && match sys.threads[step.t].phase.next
       case Finish => sys.threads[step.t].lock && (sys.shared.locks[a].creator == step.t <==> own)
       case Takeover(seen) => sys.shared.locks[a] == seen && Stale(sys.now, sys.alive, seen)
       case Skip => false
  }

  lemma RemovalAccounted(sys: System, step: Step, a: Auto)
    requires Authored(sys) && AllJudged(sys, a) && a in sys.shared.locks && a !in Next(sys, step).shared.locks
    ensures step.Go? && Accounted(sys, step, a, Has(sys, a, step.t))
    ensures Relies(sys, a) && sys.threads[step.t].phase.next.Finish? ==> Has(sys, a, step.t)
  {
    if step.Go? && step.t in sys.threads {
      var th := sys.threads[step.t];
      assert AllAuthored(sys, step.t);
      ActLocks(sys, step.t, step.luck);
      if Pending(th.phase).Some? {
        assert JudgedIsThere(sys, step.t) && Cites(th.phase, Pending(th.phase).value);
      }
    }
  }

  /** A lock file of `a` goes only when a run of `a` that owns one ends, or in a takeover. With takeovers as one step
      what a takeover removes is the very file it judged, and it is stale. What the end of a run removes is its own file
      if and only if that has not been removed, by a takeover or by the end of another run, since the run last created
      it; without a robbery of `a` it always is. */
  lemma WhoRemovesLocks(sys: System, run: seq<Step>, step: Step, a: Auto)
    requires Reachable(sys) && Idle(sys, a) && TakeoversAtOnce(sys, run, a)
    requires a in After(sys, run).shared.locks && a !in Next(After(sys, run), step).shared.locks
    ensures step.Go? && Accounted(After(sys, run), step, a, HasAfter(sys, run, a, step.t, Has(sys, a, step.t)))
    ensures NoRobbery(sys, run, a) && After(sys, run).threads[step.t].phase.next.Finish? ==>
      After(sys, run).shared.locks[a].creator == step.t
  {
    ReachableInv(sys);
    UnusedIsSound(sys, a);
    JudgedThroughout(sys, run, a);
    RemovalAccounted(After(sys, run), step, a);
    HasAlong(sys, run, a, step.t);
    if NoRobbery(sys, run, a) { ReliesExactly(sys, run, a); }
  }
}
