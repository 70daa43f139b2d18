/** `prepare_run_inner`, `release_guards` and `stop_run` as they change one process's statics and the lock
    directory, one launch at a time: which exits hold the guards and which give them back. The steps of a launch that
    the others leave alone come to the same. */
module AutomationGuards {
  import opened Options
  import opened AutomationRuns
  import opened AutomationLaunches

  class StopFlag {
    var raised: bool

    constructor ()
      ensures !raised
    {
      raised := false;
    }
  }

  /** The bot an automation is bound to, as `get_bot` reports it. */
  datatype Bot = Unbound | BotMissing | BotDisabled | BotEnabled | BotReadFails

  /** The world launch `me` meets. `lockPath` is false for an in-memory database; `found(d)` is the lock file that is
      there at attempt `d`, whatever other processes did meanwhile; `creates` and `binds` say whether creating the
      file and binding the session work. */
  datatype World = World(me: Tid, pid: Pid, now: int, alive: set<Pid>, lockPath: bool, found: nat -> Option<LockFile>,
                         creates: bool, bot: Bot, binds: bool)
  {
    predicate Refuses(l: LockFile) {
      !Stale(now, alive, l)
    }

    function Mine(): LockFile {
      LockFile(me, Some(pid), now)
    }
  }

  datatype Outcome = Running(locked: bool) | SkippedBusy | SkippedLocked | SkippedBot | Failed

  /** What `prepare_run_inner` comes to. */
  function PrepareOutcome(w: World, busy: bool): Outcome {
    if busy then SkippedBusy
    else if Through(w, 0).None? then SkippedLocked
    else if w.bot.BotMissing? || w.bot.BotDisabled? then SkippedBot
    else if w.bot.BotReadFails? || !w.binds then Failed
    else Running(w.lockPath && w.creates)
  }

  /** The attempt at which guard 2 lets the launch through, if there is one. */
  function Through(w: World, depth: nat): (d: Option<nat>)
    requires depth < MAX_PREPARE_DEPTH
    ensures d.Some? ==> depth <= d.value < MAX_PREPARE_DEPTH && (!w.lockPath || w.found(d.value).None?)
    ensures d.Some? ==> forall k | depth <= k < d.value ::
      w.lockPath && w.found(k).Some? && !w.Refuses(w.found(k).value)
    ensures d.None? ==> w.lockPath && exists k | depth <= k < MAX_PREPARE_DEPTH ::
      w.found(k).Some? && (!w.Refuses(w.found(k).value) ==> k + 1 == MAX_PREPARE_DEPTH)
    decreases MAX_PREPARE_DEPTH - depth
  {
    if !w.lockPath || w.found(depth).None? then Some(depth)
    else if w.Refuses(w.found(depth).value) || depth + 1 >= MAX_PREPARE_DEPTH then None
    else Through(w, depth + 1)
  }

  /** The lock file is stale for the launch: its PID is recorded and dead, or it is over six hours old. */
  predicate Outdated(w: World, l: LockFile) {
    (l.pid.Some? && l.pid.value !in w.alive) || w.now - l.born > 6 * 3600
  }

  /** Guard 2 lets the launch in: there is no lock path, or one of its three looks finds no lock file, and those before
      it a stale one. */
  ghost predicate GetsIn(w: World) {
    !w.lockPath || exists d: nat :: d < 3 && InAt(w, d)
  }

  ghost predicate InAt(w: World, d: nat) {
    w.found(d).None? && forall k: nat | k < d :: w.found(k).Some? && Outdated(w, w.found(k).value)
  }

  lemma ThreeLooks(w: World)
    ensures Through(w, 0).Some? <==> GetsIn(w)
  {
    if w.lockPath {
      assert w.found(0).None? ==> InAt(w, 0);
      assert w.found(0).Some? && w.found(1).None? && Outdated(w, w.found(0).value) ==> InAt(w, 1);
      assert Through(w, 0) == Some(2) ==> InAt(w, 2);
    }
  }

  /** When `prepare_run_inner` ends in each of its ways, for all five things that can be the matter with the bot: a run
      needs both guards, a bot that is enabled or none at all, and a session that binds. */
  lemma OutcomeExactly(w: World, busy: bool)
    ensures var o := PrepareOutcome(w, busy); var guarded := !busy && GetsIn(w);
      && (o.SkippedBusy? <==> busy)
      && (o.SkippedLocked? <==> !busy && !GetsIn(w))
      && (o.SkippedBot? <==> guarded && (w.bot == BotMissing || w.bot == BotDisabled))
      && (o.Failed? <==> guarded && (w.bot == BotReadFails || ((w.bot == Unbound || w.bot == BotEnabled) && !w.binds)))
      && (o.Running? <==> guarded && (w.bot == Unbound || w.bot == BotEnabled) && w.binds)
      && (o.Running? ==> (o.locked <==> w.lockPath && w.creates))
  {
    ThreeLooks(w);
  }

  /** What a launch that guard 2 turns away leaves of the lock file, from its look at `depth` on: one it found that is
      not stale, or none at all when each of its looks found a stale one. */
  ghost predicate LeftLock(w: World, depth: nat, left: Option<LockFile>) {
    if left.Some? then !Outdated(w, left.value) && exists d: nat :: depth <= d < 3 && w.found(d) == left
    else forall d: nat | depth <= d < 3 :: w.found(d).Some? && Outdated(w, w.found(d).value)
  }

  class Guards {
    var running: set<Auto>
    var cancel: map<Auto, StopFlag>
    var locks: map<Auto, LockFile>

    constructor ()
      ensures running == {} && cancel == map[] && locks == map[]
    {
      running, cancel, locks := {}, map[], map[];
    }

    /** `release_guards`. */
    method ReleaseGuards(id: Auto, locked: bool)
      modifies this
      ensures running == old(running) - {id} && cancel == old(cancel) - {id}
      ensures locks == if locked then old(locks) - {id} else old(locks)
    {
      running := running - {id};
      cancel := cancel - {id};
      if locked {
        locks := locks - {id};
      }
    }

    /** `stop_run`. */
    method StopRun(id: Auto) returns (found: bool)
      modifies if id in cancel then {cancel[id]} else {}
      ensures found <==> id in cancel
      ensures found ==> cancel[id].raised
    {
      if id !in cancel {
        return false;
      }
      cancel[id].raised := true;
      return true;
    }

    /** Guard 2 at one attempt: the file is created, or found and judged. `there` is what other processes left. */
    method LookAtLock(id: Auto, w: World, there: Option<LockFile>) returns (found: bool, stale: bool, locked: bool)
      modifies this`locks
      ensures found == there.Some? && stale == (there.Some? && !w.Refuses(there.value))
      ensures locked == (there.None? && w.creates)
      ensures locks - {id} == old(locks) - {id}
      ensures locked ==> id in locks && locks[id] == w.Mine()
      ensures found ==> id in locks && locks[id] == there.value
    {
      locks := if there.Some? then locks[id := there.value] else locks - {id};
      found, stale, locked := id in locks, false, false;
      if found {
        stale := !w.Refuses(locks[id]);
      } else if w.creates {
        locks := locks[id := w.Mine()];
        locked := true;
      }
    }

    /** The launch holds both in-process guards: it is in RUNNING, with a stop flag of its own that is false. */
    twostate predicate Holds(id: Auto, new flag: StopFlag)
      reads this, flag
    {
      && running == old(running) + {id} && id in cancel && cancel[id] == flag && !flag.raised
      && cancel - {id} == old(cancel) - {id} && locks - {id} == old(locks) - {id}
    }

    /** The automation is in neither in-process table, and the other automations and their lock files are as they
        were. */
    twostate predicate GivenBack(id: Auto)
      reads this
    {
      running == old(running) - {id} && cancel == old(cancel) - {id} && locks - {id} == old(locks) - {id}
    }

    /** One look at both guards: in, or out again because of a lock file that is there. */
    method TryGuards(id: Auto, w: World, depth: nat) returns (through: bool, stale: bool, locked: bool, flag: StopFlag)
      requires id !in running
      modifies this
      ensures through <==> !w.lockPath || w.found(depth).None?
      ensures stale <==> !through && !w.Refuses(w.found(depth).value)
      ensures locked <==> through && w.lockPath && w.creates
      ensures fresh(flag) && (if through then Holds(id, flag) else GivenBack(id))
      ensures locked ==> id in locks && locks[id] == w.Mine()
      ensures !through ==> id in locks && w.found(depth) == Some(locks[id])
    {
      running := running + {id};
      flag := new StopFlag();
      cancel := cancel[id := flag];
      through, stale, locked := true, false, false;
      if w.lockPath {
        var found;
        found, stale, locked := LookAtLock(id, w, w.found(depth));
        if found {
          ReleaseGuards(id, false);
          through := false;
        }
      }
    }

    /** The guards of `prepare_run_inner`, with its bounded recursion: at most three looks at the lock. */
    method EnterGuards(id: Auto, w: World, depth: nat) returns (through: bool, locked: bool, flag: StopFlag)
      requires depth < MAX_PREPARE_DEPTH && id !in running
      modifies this
      ensures through <==> Through(w, depth).Some?
      ensures fresh(flag) && (if through then Holds(id, flag) else GivenBack(id))
      ensures locked <==> through && w.lockPath && w.creates
      ensures locked ==> id in locks && locks[id] == w.Mine()
      ensures !through ==> LeftLock(w, depth, Lookup(locks, id))
      decreases MAX_PREPARE_DEPTH - depth
    {
      var stale;
      through, stale, locked, flag := TryGuards(id, w, depth);
      if stale {
        locks := locks - {id};
        if depth + 1 < MAX_PREPARE_DEPTH {
          through, locked, flag := EnterGuards(id, w, depth + 1);
        }
      }
    }

    /** `prepare_run_inner`. Every exit without a run gives both in-process guards back, except that of the missing or
        disabled bot, which keeps them and the lock file; a busy automation is left alone. */
    method PrepareRun(id: Auto, w: World) returns (outcome: Outcome, flag: StopFlag?)
      modifies this
      ensures outcome == PrepareOutcome(w, id in old(running))
      ensures outcome.Running? || outcome.SkippedBot? ==> flag != null && fresh(flag) && Holds(id, flag)
      ensures outcome.SkippedBusy? ==> running == old(running) && cancel == old(cancel) && locks == old(locks)
      ensures outcome.SkippedLocked? || outcome.Failed? ==> GivenBack(id)
      ensures w.lockPath && w.creates && (outcome.Running? || outcome.SkippedBot?) ==>
        id in locks && locks[id] == LockFile(w.me, Some(w.pid), w.now)
      ensures w.lockPath && w.creates && outcome.Failed? ==> id !in locks
      ensures outcome.SkippedLocked? ==> LeftLock(w, 0, Lookup(locks, id))
    {
      if id in running {
        return SkippedBusy, null;
      }
      var through, locked, held := EnterGuards(id, w, 0);
      if !through {
        return SkippedLocked, null;
      }
      if w.bot.BotMissing? || w.bot.BotDisabled? {
        return SkippedBot, held;
      }
      if w.bot.BotReadFails? || !w.binds {
        ReleaseGuards(id, locked);
        return Failed, null;
      }
      return Running(locked), held;
    }
  }

  // ---- The steps of a launch come to the same ----

  /** The world that a launch meets in `sys` when nobody else acts. */
  function WorldOf(sys: System, t: Tid, path: bool, bot: Bot, binds: bool): World
    requires t in sys.threads
  {
    var th := sys.threads[t];
    World(t, th.slot.pid, sys.now, sys.alive, path,
          d => if d == 0 then Lookup(sys.shared.locks, th.slot.auto) else None, true, bot, binds)
  }

  /** How the step past both guards goes with this bot and session. */
  function LuckOf(bot: Bot, binds: bool): Luck {
    match bot
    case BotMissing => BotUnavailable
    case BotDisabled => BotUnavailable
    case BotReadFails => Fails
    case Unbound => if binds then Works else Fails
    case BotEnabled => if binds then Works else Fails
  }

  /** How `prepare_run_inner` leaves the launch and the tables. */
  ghost predicate EndsAs(sys: System, end: System, t: Tid, outcome: Outcome, locked: bool)
    requires t in sys.threads
  {
    var slot, sh, sh1 := sys.threads[t].slot, sys.shared, end.shared;
    t in end.threads &&
    match outcome
    case SkippedBusy => end.threads[t].phase.Done? && sh1 == sh
    case SkippedLocked =>
      end.threads[t].phase.Done? && sh1 == Shared(sh.running, Remove(sh.cancel, slot), sh.locks)
    case Failed =>
      && end.threads[t].phase.Done?
      && sh1 == Shared(sh.running, Remove(sh.cancel, slot), if locked then Remove(sh.locks, slot.auto) else sh.locks)
    case SkippedBot => end.threads[t].phase.Stranded? && InGuards(sys, end, t, locked)
    case Running(l) => end.threads[t].phase.Prepared? && l == locked && InGuards(sys, end, t, locked)
  }

  ghost predicate InGuards(sys: System, end: System, t: Tid, locked: bool)
    requires t in sys.threads && t in end.threads
  {
    var slot, sh, sh1 := sys.threads[t].slot, sys.shared, end.shared;
    && sh1.running == sh.running[slot := t]
    && Remove(sh1.cancel, slot) == Remove(sh.cancel, slot)
    && Lookup(sh1.cancel, slot) == Some(Flag(t, end.threads[t].depth))
    && end.threads[t].lock == locked
    && sh1.locks == if locked then sh.locks[slot.auto := LockFile(t, Some(slot.pid), sys.now)] else sh.locks
  }

  /** The launch withdraws without touching the lock file. */
  lemma Withdrawn(sys: System, t: Tid) returns (end: System)
    requires t in sys.threads && sys.threads[t].phase == Releasing(Skip)
    ensures Alone(sys, t, end) && t in end.threads && end.threads[t].phase.Done?
    ensures var sh, slot := sys.shared, sys.threads[t].slot;
      end.shared == sh.(running := Remove(sh.running, slot), cancel := Remove(sh.cancel, slot))
  {
    Releases(sys, t);
    var s2 := GoOn(sys, t, 2);
    AloneFor(sys, t, 2, s2);
    AloneStep(s2, t);
    end := GoStep(s2, t, Works);
    AloneAdds(sys, t, s2, end);
  }

  /** Guard 2 refuses: the lock file there is not stale. */
  lemma LockedEnds(sys: System, t: Tid) returns (end: System)
    requires t in sys.threads && sys.threads[t].phase.Entering? && sys.threads[t].slot !in sys.shared.running
    requires var a := sys.threads[t].slot.auto; a in sys.shared.locks && !Stale(sys.now, sys.alive, sys.shared.locks[a])
    ensures Alone(sys, t, end) && EndsAs(sys, end, t, SkippedLocked, true)
  {
    Enters(sys, t);
    var s2 := GoOn(sys, t, 2);
    AloneFor(sys, t, 2, s2);
    Meets(s2, t);
    var s6 := GoOn(s2, t, 4);
    AloneFor(s2, t, 4, s6);
    AloneAdds(sys, t, s2, s6);
    end := Withdrawn(s6, t);
    AloneAdds(sys, t, s6, end);
  }

  /** Both guards are passed, after a takeover. */
  lemma StaleThrough(sys: System, t: Tid) returns (mid: System)
    requires t in sys.threads && sys.threads[t].phase.Entering? && sys.threads[t].depth == 0
    requires sys.threads[t].slot !in sys.shared.running
    requires var a := sys.threads[t].slot.auto; a in sys.shared.locks && Stale(sys.now, sys.alive, sys.shared.locks[a])
    ensures Alone(sys, t, mid) && t in mid.threads && InGuards(sys, mid, t, true)
    ensures mid.threads[t] == sys.threads[t].(phase := Binding, lock := true, depth := 1)
  {
    Enters(sys, t);
    var s2 := GoOn(sys, t, 2);
    AloneFor(sys, t, 2, s2);
    TakesOverAlone(s2, t);
    var s3 := TakenOver(s2, t);
    AloneAdds(sys, t, s2, s3);
    LocksIn(s3, t);
    mid := LockedIn(s3, t);
    AloneAdds(sys, t, s3, mid);
  }

  /** Both guards are passed, after a takeover if there was a stale lock file. */
  lemma GetsThrough(sys: System, t: Tid) returns (mid: System)
    requires t in sys.threads && sys.threads[t].phase.Entering? && sys.threads[t].depth == 0
    requires sys.threads[t].slot !in sys.shared.running
    requires var a := sys.threads[t].slot.auto; a in sys.shared.locks ==> Stale(sys.now, sys.alive, sys.shared.locks[a])
    ensures Alone(sys, t, mid) && t in mid.threads && InGuards(sys, mid, t, true)
    ensures mid.threads[t].phase.Binding? && mid.threads[t].lock && mid.threads[t].slot == sys.threads[t].slot
  {
    if sys.threads[t].slot.auto in sys.shared.locks {
      mid := StaleThrough(sys, t);
    } else {
      LocksIn(sys, t);
      mid := LockedIn(sys, t);
    }
  }

  /** The binding fails and `release_guards` takes everything back. */
  lemma FailureEnds(sys: System, mid: System, t: Tid, locked: bool) returns (end: System)
    requires t in sys.threads && sys.threads[t].slot !in sys.shared.running
    requires t in mid.threads && InGuards(sys, mid, t, locked) && mid.threads[t].phase.Binding?
    requires mid.threads[t].slot == sys.threads[t].slot
    ensures Alone(GoStep(mid, t, Fails), t, end) && EndsAs(sys, end, t, Failed, locked)
  {
    var s1 := GoStep(mid, t, Fails);
    assert s1.threads[t] == mid.threads[t].(phase := Releasing(Finish)) && s1.shared == mid.shared;
    end := Finishing(s1, t);
    assert locked ==> end.shared.locks == Remove(mid.shared.locks, sys.threads[t].slot.auto);
  }

  /** The end of a launch that owns a lock file, or none. */
  lemma Finishing(sys: System, t: Tid) returns (end: System)
    requires t in sys.threads && sys.threads[t].phase == Releasing(Finish)
    ensures Alone(sys, t, end) && t in end.threads && end.threads[t].phase.Done?
    ensures var sh, th := sys.shared, sys.threads[t];
      end.shared == Shared(Remove(sh.running, th.slot), Remove(sh.cancel, th.slot),
                           if th.lock then Remove(sh.locks, th.slot.auto) else sh.locks)
  {
    Releases(sys, t);
    var s2 := GoOn(sys, t, 2);
    AloneFor(sys, t, 2, s2);
    AloneStep(s2, t);
    end := GoStep(s2, t, Works);
    AloneAdds(sys, t, s2, end);
  }

  /** From both guards on, whatever the bot and the session turn out to be. */
  lemma BindingEnds(sys: System, mid: System, t: Tid, w: World, locked: bool) returns (end: System)
    requires t in sys.threads && sys.threads[t].slot !in sys.shared.running
    requires t in mid.threads && InGuards(sys, mid, t, locked) && mid.threads[t].phase.Binding?
    requires mid.threads[t].slot == sys.threads[t].slot
    requires Through(w, 0).Some? && locked == (w.lockPath && w.creates)
    ensures Alone(GoStep(mid, t, LuckOf(w.bot, w.binds)), t, end)
    ensures EndsAs(sys, end, t, PrepareOutcome(w, false), locked)
  {
    if LuckOf(w.bot, w.binds).Fails? {
      end := FailureEnds(sys, mid, t, locked);
    } else {
      end := GoStep(mid, t, LuckOf(w.bot, w.binds));
      AloneFor(end, t, 0, end);
    }
  }

  /** A launch that the others leave alone goes, step by step, exactly where `prepare_run_inner` goes when it has the
      tables to itself: the same outcome, the same guards and the same lock file, whether the lock it meets is missing,
      stale or in force, and whatever is the matter with its bot and its session. */
  lemma StepsComeToTheSame(sys: System, t: Tid, bot: Bot, binds: bool) returns (mid: System, end: System)
    requires t in sys.threads && sys.threads[t].phase.Entering? && sys.threads[t].depth == 0
    ensures Alone(sys, t, mid) && (end == mid || Alone(GoStep(mid, t, LuckOf(bot, binds)), t, end))
    ensures EndsAs(sys, end, t,
                   PrepareOutcome(WorldOf(sys, t, true, bot, binds), sys.threads[t].slot in sys.shared.running), true)
  {
    var slot := sys.threads[t].slot;
    if slot in sys.shared.running {
      AloneStep(sys, t);
      mid := GoStep(sys, t, Works);
      end := mid;
    } else if slot.auto in sys.shared.locks && !Stale(sys.now, sys.alive, sys.shared.locks[slot.auto]) {
      mid := LockedEnds(sys, t);
      end := mid;
    } else {
      mid := GetsThrough(sys, t);
      end := BindingEnds(sys, mid, t, WorldOf(sys, t, true, bot, binds), true);
    }
  }

  /** The same for a launch without a lock path, or whose file system fails at the lock: it goes on with the in-process
      guards alone, whoever has a lock file there. */
  lemma BareStepsComeToTheSame(sys: System, t: Tid, bot: Bot, binds: bool) returns (end: System)
    requires t in sys.threads && sys.threads[t].phase.Entering? && !sys.threads[t].lock
    requires sys.threads[t].slot !in sys.shared.running
    ensures Alone(GoStep(GoStep(GoOn(sys, t, 2), t, Fails), t, LuckOf(bot, binds)), t, end)
    ensures EndsAs(sys, end, t, PrepareOutcome(WorldOf(sys, t, false, bot, binds), false), false)
  {
    Enters(sys, t);
    var mid := GoStep(GoOn(sys, t, 2), t, Fails);
    end := BindingEnds(sys, mid, t, WorldOf(sys, t, false, bot, binds), false);
  }

  // ---- Lock files without a PID ----

  /** When writing the PID fails the launch goes on all the same, and its lock file then keeps others out for six hours
      whether its process lives or not. */
  lemma UnsignedLockBlocks(sys: System, t: Tid, later: int, alive: set<Pid>)
    requires t in sys.threads && sys.threads[t].phase.Published? && sys.threads[t].slot.auto !in sys.shared.locks
    ensures var a, end := sys.threads[t].slot.auto, GoStep(GoStep(sys, t, Works), t, Fails);
      && end.threads[t].phase.Binding? && end.threads[t].lock
      && a in end.shared.locks && (Stale(later, alive, end.shared.locks[a]) <==> later - sys.now > 21600)
  {
  }
}
