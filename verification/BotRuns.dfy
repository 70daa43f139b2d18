/** The counted busy flag of bots: every reservation, mark and guard drop is one step under the map's lock, so any
    interleaving of threads is a sequence of them. */
module BotRuns {

  type Bot = string
  type GuardId = nat

  /** A live `RunGuard`, and whether it came from `reserve_run`. */
  datatype Guard = Guard(bot: Bot, reserved: bool)

  /** The map as the code keeps it, beside the guards that are out. */
  datatype Table = Table(counts: map<Bot, nat>, live: map<GuardId, Guard>, next: GuardId)

  datatype Op = Mark(bot: Bot) | Reserve(bot: Bot) | Drop(g: GuardId)

  function CountOf(counts: map<Bot, nat>, bot: Bot): nat {
    if bot in counts then counts[bot] else 0
  }

  function Decremented(counts: map<Bot, nat>, bot: Bot): map<Bot, nat> {
    if bot !in counts then counts
    else if counts[bot] <= 1 then counts - {bot}
    else counts[bot := counts[bot] - 1]
  }

  function Step(t: Table, op: Op): Table {
    match op
    case Mark(b) => Table(t.counts[b := CountOf(t.counts, b) + 1], t.live[t.next := Guard(b, false)], t.next + 1)
    case Reserve(b) =>
      if CountOf(t.counts, b) > 0 then t else Table(t.counts[b := 1], t.live[t.next := Guard(b, true)], t.next + 1)
    case Drop(g) =>
      if g !in t.live then t else Table(Decremented(t.counts, t.live[g].bot), t.live - {g}, t.next)
  }

  function Run(t: Table, ops: seq<Op>): Table
    decreases ops
  {
    if ops == [] then t else Run(Step(t, ops[0]), ops[1..])
  }

  const EMPTY := Table(map[], map[], 0)

  // ---- What every step keeps ----

  ghost function GuardsOf(live: map<GuardId, Guard>, bot: Bot): set<GuardId> {
    set g | g in live && live[g].bot == bot
  }

  /** The entry of a bot counts its live guards, and an idle bot has no entry. */
  ghost predicate Counted(t: Table, bot: Bot) {
    CountOf(t.counts, bot) == |GuardsOf(t.live, bot)| && (bot in t.counts ==> t.counts[bot] > 0)
  }

  /** At most one live guard of a bot is a reservation. */
  ghost predicate OneReservation(live: map<GuardId, Guard>) {
    forall g, h | g in live && h in live && live[g].bot == live[h].bot && live[g].reserved && live[h].reserved :: g == h
  }

  ghost predicate Consistent(t: Table) {
    (forall g <- t.live :: g < t.next) && (forall b :: Counted(t, b)) && OneReservation(t.live)
  }

  lemma AddGuard(live: map<GuardId, Guard>, g: GuardId, guard: Guard, b: Bot)
    requires g !in live
    ensures |GuardsOf(live[g := guard], b)| == |GuardsOf(live, b)| + if b == guard.bot then 1 else 0
  {
    assert GuardsOf(live[g := guard], b) == if b == guard.bot then GuardsOf(live, b) + {g} else GuardsOf(live, b);
  }

  lemma RemoveGuard(live: map<GuardId, Guard>, g: GuardId, b: Bot)
    requires g in live
    ensures |GuardsOf(live - {g}, b)| == |GuardsOf(live, b)| - if b == live[g].bot then 1 else 0
  {
    assert GuardsOf(live - {g}, b) == GuardsOf(live, b) - {g};
    assert b == live[g].bot ==> g in GuardsOf(live, b);
  }

  lemma StepCounts(t: Table, op: Op, b: Bot)
    requires Consistent(t)
    ensures Counted(Step(t, op), b)
  {
    assert Counted(t, b);
    match op
    case Mark(x) => AddGuard(t.live, t.next, Guard(x, false), b);
    case Reserve(x) => AddGuard(t.live, t.next, Guard(x, true), b);
    case Drop(g) => if g in t.live { assert Counted(t, t.live[g].bot); RemoveGuard(t.live, g, b); }
  }

  lemma IdleHasNoGuard(t: Table, b: Bot)
    requires Counted(t, b)
    ensures CountOf(t.counts, b) == 0 <==> forall g <- t.live :: t.live[g].bot != b
  {
    assert forall g <- t.live :: t.live[g].bot == b ==> g in GuardsOf(t.live, b);
    assert GuardsOf(t.live, b) == {} || exists g :: g in GuardsOf(t.live, b);
  }

  lemma StepConsistent(t: Table, op: Op)
    requires Consistent(t)
    ensures Consistent(Step(t, op))
  {
    forall b ensures Counted(Step(t, op), b) { StepCounts(t, op, b); }
    if op.Reserve? { IdleHasNoGuard(t, op.bot); }
  }

  lemma {:induction false} RunConsistent(t: Table, ops: seq<Op>)
    requires Consistent(t)
    ensures Consistent(Run(t, ops))
    decreases ops
  {
    if ops != [] {
      StepConsistent(t, ops[0]);
      RunConsistent(Step(t, ops[0]), ops[1..]);
    }
  }

  /** Over any sequence of reservations, marks and drops: a bot's count is the number of its live guards, so it reads
      idle exactly when none is alive; no zero is stored; no bot has two live reservations. */
  lemma CountsGuards(ops: seq<Op>, b: Bot)
    ensures var t := Run(EMPTY, ops);
      && CountOf(t.counts, b) == |GuardsOf(t.live, b)| && (b in t.counts ==> t.counts[b] > 0)
      && (CountOf(t.counts, b) == 0 <==> forall g <- t.live :: t.live[g].bot != b)
      && OneReservation(t.live)
  {
    assert forall x :: GuardsOf(map[], x) == {};
    assert forall x :: Counted(EMPTY, x);
    RunConsistent(EMPTY, ops);
    assert Counted(Run(EMPTY, ops), b);
    IdleHasNoGuard(Run(EMPTY, ops), b);
  }

  // ---- From the reservation to the drop ----

  /** The operation hands out the guard with the next id: a mark always, a reservation while no guard of the bot is
      alive. */
  ghost predicate Grants(t: Table, op: Op, b: Bot) {
    || op == Mark(b)
    || (op == Reserve(b) && forall g <- t.live :: t.live[g].bot != b)
  }

  lemma {:induction false} LivesUntilDropped(t: Table, ops: seq<Op>, g: GuardId)
    requires g in t.live && g < t.next && Drop(g) !in ops
    ensures g in Run(t, ops).live && Run(t, ops).live[g] == t.live[g]
    decreases ops
  {
    if ops != [] {
      assert ops[0] in ops;
      assert forall op <- ops[1..] :: op in ops;
      LivesUntilDropped(Step(t, ops[0]), ops[1..], g);
    }
  }

  /** Once a mark or a reservation is granted the bot is busy, whatever else happens, until that very guard is dropped:
      its count stays above zero and every reservation is refused. */
  lemma BusyUntilDropped(t: Table, op: Op, b: Bot, ops: seq<Op>)
    requires Consistent(t) && Grants(t, op, b) && Drop(t.next) !in ops
    ensures var t1 := Run(Step(t, op), ops);
      && t.next in t1.live && t1.live[t.next] == Guard(b, op.Reserve?)
      && CountOf(t1.counts, b) > 0 && Step(t1, Reserve(b)) == t1
  {
    assert Counted(t, b);
    IdleHasNoGuard(t, b);
    StepConsistent(t, op);
    RunConsistent(Step(t, op), ops);
    LivesUntilDropped(Step(t, op), ops, t.next);
    var t1 := Run(Step(t, op), ops);
    assert Counted(t1, b);
    IdleHasNoGuard(t1, b);
  }

  /** A drop ends that guard and no other, and the last one to go leaves the bot free to be reserved again. */
  lemma DropFrees(t: Table, g: GuardId)
    requires Consistent(t) && g in t.live
    ensures var t1, b := Step(t, Drop(g)), t.live[g].bot;
      && g !in t1.live && (forall h <- t.live :: h != g ==> h in t1.live && t1.live[h] == t.live[h])
      && ((forall h <- t.live :: h != g ==> t.live[h].bot != b) ==>
            b !in t1.counts && t1.next in Step(t1, Reserve(b)).live)
  {
    var t1, b := Step(t, Drop(g)), t.live[g].bot;
    StepConsistent(t, Drop(g));
    assert Counted(t1, b);
    IdleHasNoGuard(t1, b);
  }

  // ---- The map as it is changed in place ----

  class RunTable {
    var running: map<Bot, nat>
    ghost var live: map<GuardId, Guard>
    ghost var next: GuardId

    ghost function Value(): Table
      reads this
    {
      Table(running, live, next)
    }

    constructor ()
      ensures Value() == EMPTY
    {
      running, live, next := map[], map[], 0;
    }

    /** `is_running`. */
    method IsRunning(bot: Bot) returns (busy: bool)
      requires Consistent(Value())
      ensures busy <==> exists g :: g in live && live[g].bot == bot
    {
      assert Counted(Value(), bot);
      IdleHasNoGuard(Value(), bot);
      busy := bot in running && running[bot] > 0;
    }

    /** `increment` and the guard of `mark_running`. */
    method MarkRunning(bot: Bot) returns (ghost g: GuardId)
      modifies this
      ensures Value() == Step(old(Value()), Mark(bot)) && g == old(next)
    {
      g := next;
      running := running[bot := (if bot in running then running[bot] else 0) + 1];
      live, next := live[g := Guard(bot, false)], next + 1;
    }

    /** `reserve_run`: refused exactly while a guard of the bot is alive. */
    method ReserveRun(bot: Bot) returns (granted: bool, ghost g: GuardId)
      requires Consistent(Value())
      modifies this
      ensures Value() == Step(old(Value()), Reserve(bot)) && g == old(next)
      ensures granted <==> forall h | h in old(live) :: old(live)[h].bot != bot
    {
      g := next;
      assert Counted(Value(), bot);
      IdleHasNoGuard(Value(), bot);
      if (if bot in running then running[bot] else 0) > 0 {
        return false, g;
      }
      running := running[bot := 1];
      live, next := live[g := Guard(bot, true)], next + 1;
      granted := true;
    }

    /** `Drop for RunGuard`, with `decrement`: the entry goes with the last count. */
    method DropGuard(bot: Bot, ghost g: GuardId)
      requires g in live && live[g].bot == bot
      modifies this
      ensures Value() == Step(old(Value()), Drop(g))
    {
      if bot in running {
        if running[bot] <= 1 {
          running := running - {bot};
        } else {
          running := running[bot := running[bot] - 1];
        }
      }
      live := live - {g};
    }
  }
}
