/** The overlap guards of an automation run as a transition system over any number of processes and launch
    threads: the in-process RUNNING set, the stop-flag table, and the cross-process PID lock file.

    Every step is one atomic operation of the code. In particular `release_guards` is three steps, and meeting a lock
    file is five: the refused creation, reading the PID, reading the age, asking whether the PID lives, and, after the
    release, removing the file. */
module AutomationRuns {
  import opened Options

  type Auto = string
  type Pid = nat
  type Tid = nat

  /** An automation as one process sees it: RUNNING and CANCEL are per process. */
  datatype Slot = Slot(pid: Pid, auto: Auto)

  /** A stop flag's identity: the launch that published it, and at which retry. */
  datatype Flag = Flag(owner: Tid, serial: nat)

  /** A lock file: its recorded PID, if one was written, its modification time and (for the proofs) its creator. */
  datatype LockFile = LockFile(creator: Tid, pid: Option<Pid>, born: int)

  /** What follows a release: nothing, the end of a run that may own a lock file, or removing a lock file because
      `seen` was judged stale: its PID was dead, or it was over six hours old. */
  datatype Then = Skip | Finish | Takeover(seen: LockFile)

  datatype Phase =
    | Entering                 // before guard 1
    | Marked                   // in RUNNING
    | Published                // stop flag in CANCEL
    | Created                  // lock file created, PID not yet written
    | Refused                  // a lock file was there
    | PidRead(read: Option<LockFile>)                          // the file whose PID was read, if reading worked
    | AgeRead(read: Option<LockFile>, aged: Option<LockFile>)  // and the file found over six hours old, if it was
    | Binding                  // past both guards
    | Prepared                 // prepare returned Some; the run is on its way
    | Stranded                 // the bot is missing or disabled: returned None, guards kept
    | Releasing(next: Then)    // release_guards entered
    | Unmarked(next: Then)     // out of RUNNING
    | Unpublished(next: Then)  // out of CANCEL
    | Done

  datatype Thread = Thread(slot: Slot, phase: Phase, depth: nat, lock: bool)

  datatype Shared = Shared(running: map<Slot, Tid>, cancel: map<Slot, Flag>, locks: map<Auto, LockFile>)

  /** `raised` are the flags set so far, `stops` the flags a `stop_run` has fetched. */
  datatype System = System(now: int, alive: set<Pid>, shared: Shared, raised: set<Flag>, stops: set<Flag>,
                           threads: map<Tid, Thread>, nextTid: Tid)

  const MAX_PREPARE_DEPTH: nat := 3
  const SIX_HOURS: int := 6 * 3600

  /** How an operation outside the guards goes: the file system or the database works or not, the bot is there or
      not. */
  datatype Luck = Works | Fails | BotUnavailable

  datatype Step =
    | Start(slot: Slot)
    | Go(t: Tid, luck: Luck)
    | StopRead(slot: Slot)
    | StopStore(flag: Flag)
    | Advance(dt: nat)
    | Die(pid: Pid)
    | Spawn(pid: Pid)

  predicate Dead(alive: set<Pid>, l: LockFile) {
    l.pid.Some? && l.pid.value !in alive
  }

  predicate Old(now: int, l: LockFile) {
    now - l.born > SIX_HOURS
  }

  /** Dead recorded owner, or older than six hours; without a PID only age counts. */
  predicate Stale(now: int, alive: set<Pid>, l: LockFile) {
    Dead(alive, l) || Old(now, l)
  }

  /** The run holds the guards in this process. */
  predicate Holds(p: Phase) {
    p.Marked? || Active(p)
  }

  /** The run has published its stop flag and not begun to withdraw. */
  predicate Active(p: Phase) {
    p.Published? || Looking(p) || p.Binding? || p.Prepared? || p.Stranded? || p.Releasing?
  }

  /** Somewhere inside guard 2. */
  predicate Looking(p: Phase) {
    p.Created? || p.Refused? || p.PidRead? || p.AgeRead?
  }

  /** The run owns a lock file that it still relies on. */
  predicate Guarded(th: Thread) {
    th.lock && !th.phase.Stranded? && !th.phase.Done?
  }

  function Remove<K, V>(m: map<K, V>, k: K): (r: map<K, V>)
    ensures k !in r && forall x <- m.Keys :: x != k ==> x in r && r[x] == m[x]
    ensures r.Keys <= m.Keys
  {
    m - {k}
  }

  function Lookup<K, V>(m: map<K, V>, k: K): Option<V> {
    if k in m then Some(m[k]) else None
  }

  /** What the three looks at a lock file come to. */
  function Judge(alive: set<Pid>, read: Option<LockFile>, aged: Option<LockFile>): Then {
    if read.Some? && Dead(alive, read.value) then Takeover(read.value)
    else if aged.Some? then Takeover(aged.value)
    else Skip
  }

  /** Guard 2: no lock path or a file system hiccup goes on without it. */
  function Look(sys: System, t: Tid, luck: Luck): (Thread, Shared)
    requires t in sys.threads && (sys.threads[t].phase.Published? || Looking(sys.threads[t].phase))
  {
    var th, sh := sys.threads[t], sys.shared;
    var a := th.slot.auto;
    var there := Lookup(sh.locks, a);
    match th.phase
    case Published =>  // create_new
      if !luck.Works? then (th.(phase := Binding), sh)
      else if there.Some? then (th.(phase := Refused), sh)
      else (th.(phase := Created, lock := true), sh.(locks := sh.locks[a := LockFile(t, None, sys.now)]))
    case Created =>  // write the PID
      var creator := if there.Some? then there.value.creator else t;
      (th.(phase := Binding),
       if luck.Works? then sh.(locks := sh.locks[a := LockFile(creator, Some(th.slot.pid), sys.now)]) else sh)
    case Refused =>  // read_to_string
      (th.(phase := PidRead(if luck.Works? then there else None)), sh)
    case PidRead(read) =>  // metadata
      (th.(phase := AgeRead(read, if luck.Works? && there.Some? && Old(sys.now, there.value) then there else None)), sh)
    case AgeRead(read, aged) =>  // pid_alive
      (th.(phase := Releasing(Judge(sys.alive, read, aged))), sh)
  }

  /** `release_guards`, with what its caller does about the lock file. */
  function Release(sys: System, t: Tid): (Thread, Shared)
    requires t in sys.threads
    requires var p := sys.threads[t].phase; p.Releasing? || p.Unmarked? || p.Unpublished?
  {
    var th, sh := sys.threads[t], sys.shared;
    match th.phase
    case Releasing(next) => (th.(phase := Unmarked(next)), sh.(running := Remove(sh.running, th.slot)))
    case Unmarked(next) => (th.(phase := Unpublished(next)), sh.(cancel := Remove(sh.cancel, th.slot)))
    case Unpublished(Skip) => (th.(phase := Done), sh)
    case Unpublished(Finish) =>
      (th.(phase := Done, lock := false), if th.lock then sh.(locks := Remove(sh.locks, th.slot.auto)) else sh)
    case Unpublished(Takeover(_)) =>
      (if th.depth + 1 >= MAX_PREPARE_DEPTH then th.(phase := Done) else th.(phase := Entering, depth := th.depth + 1),
       sh.(locks := Remove(sh.locks, th.slot.auto)))
  }

  /** The next operation of a launch thread: prepare_run_inner, the run, release_guards. */
  function Act(sys: System, t: Tid, luck: Luck): (Thread, Shared)
    requires t in sys.threads
  {
    var th, sh := sys.threads[t], sys.shared;
    var p := th.phase;
    if p.Entering? then  // guard 1: RUNNING.insert
      if th.slot in sh.running then (th.(phase := Done), sh)
      else (th.(phase := Marked), sh.(running := sh.running[th.slot := t]))
    else if p.Marked? then (th.(phase := Published), sh.(cancel := sh.cancel[th.slot := Flag(t, th.depth)]))
    else if p.Published? || Looking(p) then Look(sys, t, luck)
    else if p.Binding? then
      (th.(phase := if luck.Works? then Prepared else if luck.Fails? then Releasing(Finish) else Stranded), sh)
    else if p.Prepared? then (th.(phase := Releasing(Finish)), sh)
    else if p.Stranded? || p.Done? then (th, sh)
    else Release(sys, t)
  }

  function GoStep(sys: System, t: Tid, luck: Luck): System {
    if t !in sys.threads then sys
    else
      var (th, sh) := Act(sys, t, luck);
      sys.(threads := sys.threads[t := th], shared := sh)
  }

  function StartStep(sys: System, slot: Slot): System {
    if slot.pid !in sys.alive then sys
    else sys.(threads := sys.threads[sys.nextTid := Thread(slot, Entering, 0, false)], nextTid := sys.nextTid + 1)
  }

  /** A process ends: its threads and statics are gone, its lock files stay. */
  function DieStep(sys: System, pid: Pid): System {
    var sh := sys.shared;
    sys.(alive := sys.alive - {pid},
         shared := sh.(running := map s | s in sh.running && s.pid != pid :: sh.running[s],
                       cancel := map s | s in sh.cancel && s.pid != pid :: sh.cancel[s]),
         threads := map t | t in sys.threads && sys.threads[t].slot.pid != pid :: sys.threads[t])
  }

  function Next(sys: System, step: Step): System {
    match step
    case Start(slot) => StartStep(sys, slot)
    case Go(t, luck) => GoStep(sys, t, luck)
    case StopRead(slot) =>
      if slot in sys.shared.cancel then sys.(stops := sys.stops + {sys.shared.cancel[slot]}) else sys
    case StopStore(flag) => if flag in sys.stops then sys.(raised := sys.raised + {flag}) else sys
    case Advance(dt) => sys.(now := sys.now + dt)
    case Die(pid) => DieStep(sys, pid)
    case Spawn(pid) => sys.(alive := sys.alive + {pid})
  }

  const INITIAL := System(0, {}, Shared(map[], map[], map[]), {}, {}, map[], 0)

  function After(sys: System, run: seq<Step>): System
    decreases run
  {
    if run == [] then sys else After(Next(sys, run[0]), run[1..])
  }

  ghost predicate Reachable(sys: System) {
    exists run :: After(INITIAL, run) == sys
  }

  // ---- Exclusion inside one process ----

  ghost predicate Exclusive(sys: System) {
    && (forall t <- sys.threads :: t < sys.nextTid && sys.threads[t].slot.pid in sys.alive)
    && (forall t <- sys.threads | Holds(sys.threads[t].phase) ::
          sys.threads[t].slot in sys.shared.running && sys.shared.running[sys.threads[t].slot] == t)
    && (forall s <- sys.shared.running :: sys.shared.running[s] in sys.threads
          && sys.threads[sys.shared.running[s]].slot == s && Holds(sys.threads[sys.shared.running[s]].phase))
  }

  /** RUNNING changes only as the thread enters or leaves the guarded phases. */
  ghost predicate Marks(th: Thread, th1: Thread, running: map<Slot, Tid>, running1: map<Slot, Tid>, t: Tid) {
    && th1.slot == th.slot
    && if Holds(th.phase) == Holds(th1.phase) then running1 == running
       else if Holds(th1.phase) then th.slot !in running && running1 == running[th.slot := t]
       else running1 == Remove(running, th.slot)
  }

  /** Guard 2 keeps RUNNING, CANCEL and the thread's place in both. */
  lemma LookKeeps(sys: System, t: Tid, luck: Luck)
    requires t in sys.threads && (sys.threads[t].phase.Published? || Looking(sys.threads[t].phase))
    ensures var th := sys.threads[t]; var (th1, sh1) := Look(sys, t, luck);
      && th1.slot == th.slot && th1.depth == th.depth && Active(th1.phase)
      && sh1.running == sys.shared.running && sh1.cancel == sys.shared.cancel
  {
  }

  lemma ActMarks(sys: System, t: Tid, luck: Luck)
    requires t in sys.threads
    ensures var (th, sh) := Act(sys, t, luck); Marks(sys.threads[t], th, sys.shared.running, sh.running, t)
  {
    var p := sys.threads[t].phase;
    if p.Published? || Looking(p) { LookKeeps(sys, t, luck); }
  }

  lemma GoExclusive(sys: System, t: Tid, th: Thread, sh: Shared)
    requires Exclusive(sys) && t in sys.threads && Marks(sys.threads[t], th, sys.shared.running, sh.running, t)
    ensures Exclusive(sys.(threads := sys.threads[t := th], shared := sh))
  {
  }

  lemma StartExclusive(sys: System, slot: Slot)
    requires Exclusive(sys)
    ensures Exclusive(StartStep(sys, slot))
  {
  }

  lemma DieExclusive(sys: System, pid: Pid)
    requires Exclusive(sys)
    ensures Exclusive(DieStep(sys, pid))
  {
  }

  lemma NextExclusive(sys: System, step: Step)
    requires Exclusive(sys)
    ensures Exclusive(Next(sys, step))
  {
    match step
    case Start(slot) => StartExclusive(sys, slot);
    case Go(t, luck) =>
      if t in sys.threads {
        ActMarks(sys, t, luck);
        var (th, sh) := Act(sys, t, luck);
        GoExclusive(sys, t, th, sh);
      }
    case Die(pid) => DieExclusive(sys, pid);
    case _ =>
  }

  // ---- Stop flags ----

  /** Every entry of CANCEL is the current flag of a thread of its slot that has not withdrawn it yet. */
  ghost predicate CancelOwned(sys: System) {
    forall s <- sys.shared.cancel :: var f := sys.shared.cancel[s];
      && f.owner in sys.threads && sys.threads[f.owner].slot == s && f.serial == sys.threads[f.owner].depth
      && (Active(sys.threads[f.owner].phase) || sys.threads[f.owner].phase.Unmarked?)
  }

  /** The entry of the slot of a run past its publish step, if it is there, is that run's own. */
  ghost predicate FlagOwn(sys: System, t: Tid)
    requires t in sys.threads
  {
    var th := sys.threads[t];
    Active(th.phase) && th.slot in sys.shared.cancel ==> sys.shared.cancel[th.slot] == Flag(t, th.depth)
  }

  /** The flag has not been published, at its thread's current retry or an earlier one. */
  ghost predicate Unborn(sys: System, f: Flag) {
    f.owner >= sys.nextTid || (f.owner in sys.threads &&
      var th := sys.threads[f.owner];
      f.serial > th.depth || (f.serial == th.depth && (th.phase.Entering? || th.phase.Marked?)))
  }

  ghost predicate Flagged(sys: System) {
    && CancelOwned(sys)
    && (forall t <- sys.threads :: FlagOwn(sys, t))
    && (forall f <- sys.raised + sys.stops :: !Unborn(sys, f))
  }

  lemma StartFlagged(sys: System, slot: Slot)
    requires Exclusive(sys) && Flagged(sys)
    ensures Flagged(StartStep(sys, slot))
  {
  }

  lemma DieFlagged(sys: System, pid: Pid)
    requires Exclusive(sys) && Flagged(sys)
    ensures Flagged(DieStep(sys, pid))
  {
  }

  lemma PublishFlagged(sys: System, t: Tid, sh: Shared)
    requires Exclusive(sys) && Flagged(sys) && t in sys.threads && sys.threads[t].phase.Marked?
    requires var th := sys.threads[t]; sh.cancel == sys.shared.cancel[th.slot := Flag(t, th.depth)]
    ensures Flagged(sys.(threads := sys.threads[t := sys.threads[t].(phase := Published)], shared := sh))
  {
  }

  lemma UnpublishFlagged(sys: System, t: Tid, th: Thread, sh: Shared)
    requires Exclusive(sys) && Flagged(sys)
    requires t in sys.threads && sys.threads[t].phase.Unmarked? && th.phase.Unpublished?
    requires th.slot == sys.threads[t].slot && th.depth == sys.threads[t].depth
    requires sh.cancel == Remove(sys.shared.cancel, th.slot)
    ensures Flagged(sys.(threads := sys.threads[t := th], shared := sh))
  {
  }

  /** Any other operation of a thread: CANCEL stays, and no thread becomes active or moves its flag. */
  ghost predicate FlagNeutral(th: Thread, th1: Thread) {
    && th1.slot == th.slot
    && (Active(th1.phase) ==> Active(th.phase) && th1.depth == th.depth)
    && (Active(th.phase) || th.phase.Unmarked? ==>
          (Active(th1.phase) || th1.phase.Unmarked?) && th1.depth == th.depth)
    && th1.depth >= th.depth
    && (th1.phase.Entering? || th1.phase.Marked? ==>
          th1.depth > th.depth || (th1.depth == th.depth && (th.phase.Entering? || th.phase.Marked?)))
  }

  lemma NeutralFlagged(sys: System, t: Tid, th: Thread, sh: Shared)
    requires Exclusive(sys) && Flagged(sys) && t in sys.threads && FlagNeutral(sys.threads[t], th)
    requires sh.cancel == sys.shared.cancel
    ensures Flagged(sys.(threads := sys.threads[t := th], shared := sh))
  {
  }

  lemma ActFlags(sys: System, t: Tid, luck: Luck)
    requires t in sys.threads
    ensures var th := sys.threads[t]; var (th1, sh1) := Act(sys, t, luck);
      if th.phase.Marked? then
        && th1 == th.(phase := Published)
        && sh1 == sys.shared.(cancel := sys.shared.cancel[th.slot := Flag(t, th.depth)])
      else if th.phase.Unmarked? then
        && th1 == th.(phase := Unpublished(th.phase.next))
        && sh1 == sys.shared.(cancel := Remove(sys.shared.cancel, th.slot))
      else FlagNeutral(th, th1) && sh1.cancel == sys.shared.cancel
  {
    var p := sys.threads[t].phase;
    if p.Published? || Looking(p) { LookKeeps(sys, t, luck); }
  }

  lemma GoFlagged(sys: System, t: Tid, luck: Luck)
    requires Exclusive(sys) && Flagged(sys)
    ensures Flagged(GoStep(sys, t, luck))
  {
    if t in sys.threads {
      ActFlags(sys, t, luck);
      var (th, sh) := Act(sys, t, luck);
      if sys.threads[t].phase.Marked? {
        PublishFlagged(sys, t, sh);
      } else if sys.threads[t].phase.Unmarked? {
        UnpublishFlagged(sys, t, th, sh);
      } else {
        NeutralFlagged(sys, t, th, sh);
      }
    }
  }

  lemma NextFlagged(sys: System, step: Step)
    requires Exclusive(sys) && Flagged(sys)
    ensures Flagged(Next(sys, step))
  {
    match step
    case Start(slot) => StartFlagged(sys, slot);
    case Go(t, luck) => GoFlagged(sys, t, luck);
    case Die(pid) => DieFlagged(sys, pid);
    case StopRead(slot) =>
      if slot in sys.shared.cancel {
        assert !Unborn(sys, sys.shared.cancel[slot]);
        assert forall f :: Unborn(Next(sys, step), f) == Unborn(sys, f);
      }
    case _ => assert forall f :: Unborn(Next(sys, step), f) == Unborn(sys, f);
  }

  // ---- The end of every launch ----

  ghost predicate Shallow(sys: System) {
    forall t <- sys.threads :: sys.threads[t].depth < MAX_PREPARE_DEPTH
  }

  /** A bound on the operations a launch thread has left. */
  function Rank(th: Thread): int {
    var left := match th.phase
      case Entering => 13
      case Marked => 12
      case Published => 11
      case Created => 8
      case Refused => 10
      case PidRead(_) => 9
      case AgeRead(_, _) => 8
      case Binding => 7
      case Prepared => 6
      case Releasing(_) => 5
      case Unmarked(_) => 4
      case Unpublished(_) => 3
      case Stranded => 0
      case Done => 0;
    14 * (MAX_PREPARE_DEPTH - th.depth) + left
  }

  lemma ActRank(sys: System, t: Tid, luck: Luck)
    requires t in sys.threads && sys.threads[t].depth < MAX_PREPARE_DEPTH
    ensures var th := sys.threads[t]; var (th1, _) := Act(sys, t, luck);
      && th1.depth < MAX_PREPARE_DEPTH
      && if th.phase.Done? || th.phase.Stranded? then th1 == th else Rank(th1) < Rank(th)
  {
  }

  lemma NextShallow(sys: System, step: Step)
    requires Shallow(sys)
    ensures Shallow(Next(sys, step))
  {
    if step.Go? && step.t in sys.threads { ActRank(sys, step.t, step.luck); }
  }
}
