/** Cron due-ness over a whole life of one automation row: ticks, scheduled and event runs, and the write of
    `record_run` that moves the clock. The schedule is an arbitrary set of instants. */
module CronClock {
  import opened Options

  datatype Source = Scheduled | Manual | Webhook | FsWatch | GitChange | Email

  /** A scheduled run's share of the time line: slots in (after, upTo]. */
  datatype Span = Span(after: int, upTo: int)

  /** `spans` records the scheduled runs that were written down. */
  datatype Row = Row(createdAt: int, lastRunAt: Option<int>, lastEventRunAt: Option<int>, flight: Option<Source>,
                     now: int, spans: seq<Span>)

  datatype Event =
    | Tick
    | Launch(source: Source)
    | Finish(recorded: bool)
    | Wait(seconds: nat)

  /** `last_run_at`, or else `created_at`. */
  function Since(row: Row): int {
    if row.lastRunAt.Some? then row.lastRunAt.value else row.createdAt
  }

  // ---- next_fire ----

  ghost predicate IsNext(slots: iset<int>, after: int, t: int) {
    t in slots && t > after && forall u | u in slots && u > after :: t <= u
  }

  lemma {:induction false} NextExists(slots: iset<int>, after: int, t: int)
    requires t in slots && t > after
    ensures exists n :: IsNext(slots, after, n)
    decreases t - after
  {
    if u :| u in slots && after < u < t {
      NextExists(slots, after, u);
    } else {
      assert IsNext(slots, after, t);
    }
  }

  /** `next_fire`: the first instant strictly after. */
  ghost function NextFire(slots: iset<int>, after: int): (n: Option<int>)
    ensures n.Some? ==> IsNext(slots, after, n.value)
    ensures n.None? ==> forall t | t in slots :: t <= after
  {
    if t :| t in slots && t > after then
      NextExists(slots, after, t);
      var n :| IsNext(slots, after, n);
      Some(n)
    else None
  }

  /** `due_automations` for an enabled cron row. */
  ghost predicate Due(row: Row, slots: iset<int>) {
    var n := NextFire(slots, Since(row));
    n.Some? && n.value <= row.now
  }

  /** Due means that some slot has passed since the last recorded scheduled run, however many. */
  lemma DueIffSlotPassed(row: Row, slots: iset<int>)
    ensures Due(row, slots) <==> exists t :: t in slots && Since(row) < t <= row.now
  {
  }

  ghost function Next(row: Row, e: Event, slots: iset<int>): Row {
    match e
    case Tick => if row.flight.None? && Due(row, slots) then row.(flight := Some(Scheduled)) else row
    case Launch(source) => if row.flight.None? && !source.Scheduled? then row.(flight := Some(source)) else row
    case Finish(recorded) =>
      if row.flight.None? then row
      else if !recorded then row.(flight := None)
      else if row.flight.value.Scheduled? then
        row.(flight := None, lastRunAt := Some(row.now), spans := row.spans + [Span(Since(row), row.now)])
      else row.(flight := None, lastEventRunAt := Some(row.now))
    case Wait(seconds) => row.(now := row.now + seconds)
  }

  ghost function After(row: Row, run: seq<Event>, slots: iset<int>): Row
    decreases run
  {
    if run == [] then row else After(Next(row, run[0], slots), run[1..], slots)
  }

  ghost predicate HoldsSlot(s: Span, slots: iset<int>) {
    exists t :: t in slots && s.after < t <= s.upTo
  }

  /** Where the first `k` spans end. */
  function Boundary(row: Row, k: nat): int
    requires k <= |row.spans|
  {
    if k == 0 then row.createdAt else row.spans[k - 1].upTo
  }

  /** The span starts where the one before it ended, and covers a slot. */
  ghost predicate Fits(row: Row, slots: iset<int>, i: nat) {
    i < |row.spans| && row.spans[i].after == Boundary(row, i) && HoldsSlot(row.spans[i], slots)
  }

  /** The recorded runs tile the time from creation to the last of them, and each covers at least one slot. */
  ghost predicate Tiled(row: Row, slots: iset<int>) {
    && row.createdAt <= Since(row) <= row.now
    && (forall i | 0 <= i < |row.spans| :: Fits(row, slots, i))
    && (row.lastRunAt == if row.spans == [] then None else Some(row.spans[|row.spans| - 1].upTo))
    && (row.flight == Some(Scheduled) ==> Due(row, slots))
  }

  lemma NextTiled(row: Row, e: Event, slots: iset<int>)
    requires Tiled(row, slots)
    ensures Tiled(Next(row, e, slots), slots)
  {
    var row1 := Next(row, e, slots);
    DueIffSlotPassed(row, slots);
    DueIffSlotPassed(row1, slots);
    forall i | 0 <= i < |row1.spans| ensures Fits(row1, slots, i) {
      if i < |row.spans| { assert Fits(row, slots, i); }
    }
  }

  lemma {:induction false} RunTiled(row: Row, run: seq<Event>, slots: iset<int>)
    requires Tiled(row, slots)
    ensures Tiled(After(row, run, slots), slots)
    decreases run
  {
    if run != [] {
      NextTiled(row, run[0], slots);
      RunTiled(Next(row, run[0], slots), run[1..], slots);
    }
  }

  const NEW: Row := Row(0, None, None, None, 0, [])

  function Created(at: int): Row {
    NEW.(createdAt := at, now := at)
  }

  // ---- Main results ----

  /** Recorded scheduled runs consume disjoint stretches of time, each with a slot in it. */
  lemma SpansDisjoint(at: int, run: seq<Event>, slots: iset<int>, i: nat, j: nat)
    requires i < j < |After(Created(at), run, slots).spans|
    ensures var spans := After(Created(at), run, slots).spans;
      spans[i].upTo <= spans[j].after && HoldsSlot(spans[i], slots) && HoldsSlot(spans[j], slots)
  {
    var row := After(Created(at), run, slots);
    RunTiled(Created(at), run, slots);
    SpansAscend(row, slots, i, j);
    assert Fits(row, slots, i) && Fits(row, slots, j);
  }

  lemma {:induction false} SpansAscend(row: Row, slots: iset<int>, i: nat, j: nat)
    requires Tiled(row, slots) && i < j < |row.spans|
    ensures row.spans[i].upTo <= row.spans[j].after
    decreases j
  {
    assert Fits(row, slots, j);
    if i + 1 < j {
      SpansAscend(row, slots, i, j - 1);
      assert Fits(row, slots, j - 1) && Fits(row, slots, j);
    }
  }

  /** However many slots were missed: at most one recorded run per slot, over any run of events. */
  lemma RunsAtMostSlots(at: int, run: seq<Event>, slots: iset<int>, passed: set<int>)
    requires forall t :: t in passed <==> t in slots && at < t <= After(Created(at), run, slots).now
    ensures |After(Created(at), run, slots).spans| <= |passed|
  {
    var row := After(Created(at), run, slots);
    RunTiled(Created(at), run, slots);
    AfterKeepsCreation(Created(at), run, slots);
    CountSpans(row, slots, |row.spans|, passed);
  }

  lemma {:induction false} AfterKeepsCreation(row: Row, run: seq<Event>, slots: iset<int>)
    ensures After(row, run, slots).createdAt == row.createdAt
    decreases run
  {
    if run != [] { AfterKeepsCreation(Next(row, run[0], slots), run[1..], slots); }
  }

  lemma {:induction false} CountSpans(row: Row, slots: iset<int>, k: nat, passed: set<int>)
    requires Tiled(row, slots) && k <= |row.spans|
    requires forall t | t in slots && row.createdAt < t <= Boundary(row, k) :: t in passed
    ensures k <= |passed|
    decreases k
  {
    if k > 0 {
      var s := row.spans[k - 1];
      assert Fits(row, slots, k - 1);
      var t :| t in slots && s.after < t <= s.upTo;
      SpanStarts(row, slots, k - 1);
      CountSpans(row, slots, k - 1, passed - {t});
    }
  }

  lemma {:induction false} SpanStarts(row: Row, slots: iset<int>, k: nat)
    requires Tiled(row, slots) && k < |row.spans|
    ensures row.createdAt <= row.spans[k].after
    decreases k
  {
    assert Fits(row, slots, k);
    if k > 0 {
      SpanStarts(row, slots, k - 1);
      assert Fits(row, slots, k - 1) && Fits(row, slots, k);
    }
  }

  /** Manual and event runs, however many, leave cron due-ness to the clock alone. */
  lemma {:induction false} EventRunsNeverMoveTheClock(row: Row, run: seq<Event>, slots: iset<int>)
    requires row.flight != Some(Scheduled) && Tick !in run
    ensures var row1 := After(row, run, slots);
      && Since(row1) == Since(row) && row1.spans == row.spans
      && (Due(row, slots) && row.now <= row1.now ==> Due(row1, slots))
    decreases run
  {
    if run != [] {
      assert run[0] in run;
      assert forall e <- run[1..] :: e in run;
      DueIffSlotPassed(row, slots);
      DueIffSlotPassed(Next(row, run[0], slots), slots);
      EventRunsNeverMoveTheClock(Next(row, run[0], slots), run[1..], slots);
    }
  }

  /** A scheduled run whose write fails consumes nothing: the row is due again at the next tick, and runs again. */
  lemma LostWriteRefires(row: Row, slots: iset<int>, seconds: nat)
    requires Tiled(row, slots) && row.flight == Some(Scheduled)
    ensures var row1 := After(row, [Finish(false), Wait(seconds), Tick], slots);
      row1.flight == Some(Scheduled) && row1.spans == row.spans
  {
    var r1 := Next(row, Finish(false), slots);
    var r2 := Next(r1, Wait(seconds), slots);
    DueIffSlotPassed(row, slots);
    DueIffSlotPassed(r2, slots);
    AfterThree(row, Finish(false), Wait(seconds), Tick, slots);
  }

  lemma AfterThree(row: Row, a: Event, b: Event, c: Event, slots: iset<int>)
    ensures After(row, [a, b, c], slots) == Next(Next(Next(row, a, slots), b, slots), c, slots)
  {
    var r1 := Next(row, a, slots);
    var r2 := Next(r1, b, slots);
    assert [a, b, c][1..] == [b, c] && [b, c][1..] == [c] && [c][1..] == [];
    assert After(r2, [c], slots) == After(Next(r2, c, slots), [], slots);
    assert After(r1, [b, c], slots) == After(r2, [c], slots);
  }

  /** An idle row that is due is launched by the tick. Recording its run moves the cron clock to that moment, leaves the
      event clock alone, and uses up every slot until then: the row is not due before another one comes. */
  lemma ScheduledRunRecorded(row: Row, slots: iset<int>, t: int, seconds: nat)
    requires row.flight.None? && t in slots && Since(row) < t <= row.now
    ensures var end := row.now + seconds; var row1 := After(row, [Tick, Wait(seconds), Finish(true)], slots);
      row1 == Row(row.createdAt, Some(end), row.lastEventRunAt, None, end, row.spans + [Span(Since(row), end)])
        && !Due(row1, slots)
  {
    DueIffSlotPassed(row, slots);
    AfterThree(row, Tick, Wait(seconds), Finish(true), slots);
    DueIffSlotPassed(After(row, [Tick, Wait(seconds), Finish(true)], slots), slots);
  }

  /** A recorded manual or event run moves the event clock and no other. */
  lemma EventRunRecorded(row: Row, slots: iset<int>, source: Source, seconds: nat)
    requires row.flight.None? && source != Scheduled
    ensures var end := row.now + seconds;
      After(row, [Launch(source), Wait(seconds), Finish(true)], slots) ==
        Row(row.createdAt, row.lastRunAt, Some(end), None, end, row.spans)
  {
    AfterThree(row, Launch(source), Wait(seconds), Finish(true), slots);
  }

  /** While a run is in flight, and when no slot has passed, a tick launches nothing. */
  lemma TickAlone(row: Row, slots: iset<int>)
    requires row.flight.Some? || forall t | t in slots :: !(Since(row) < t <= row.now)
    ensures Next(row, Tick, slots) == row
  {
    DueIffSlotPassed(row, slots);
  }

  // ---- The row as it is changed in place ----

  class Automation {
    var enabled: bool
    const isCron: bool
    const createdAt: int
    var lastRunAt: Option<int>
    var lastEventRunAt: Option<int>
    var flight: Option<Source>
    ghost var now: int
    ghost var spans: seq<Span>

    constructor (isCron: bool, createdAt: int)
      ensures enabled && this.isCron == isCron && Value() == Created(createdAt)
    {
      this.isCron, this.createdAt := isCron, createdAt;
      enabled, lastRunAt, lastEventRunAt, flight := true, None, None, None;
      now, spans := createdAt, [];
    }

    ghost function Value(): Row
      reads this
    {
      Row(createdAt, lastRunAt, lastEventRunAt, flight, now, spans)
    }

    /** `due_automations`, for this row; `nextFire` is what the cron library answers. */
    method IsDue(at: int, nextFire: int -> Option<int>, ghost slots: iset<int>) returns (due: bool)
      requires forall t :: nextFire(t) == NextFire(slots, t)
      requires at == now
      ensures due <==> enabled && isCron && Due(Value(), slots)
    {
      if !enabled || !isCron {
        return false;
      }
      var after := if lastRunAt.Some? then lastRunAt.value else createdAt;
      var n := nextFire(after);
      return n.Some? && n.value <= at;
    }

    /** This row's part of one scheduler pass. */
    method Tick(at: int, nextFire: int -> Option<int>, ghost slots: iset<int>)
      requires forall t :: nextFire(t) == NextFire(slots, t)
      requires at >= now
      modifies this`flight, this`now
      ensures Value() == if old(enabled) && isCron then After(old(Value()), [Wait(at - old(now)), Event.Tick], slots)
                         else After(old(Value()), [Wait(at - old(now))], slots)
    {
      ghost var wait := Wait(at - now);
      assert [wait, Event.Tick][1..] == [Event.Tick] && [Event.Tick][1..] == [] && [wait][1..] == [];
      assert forall r: Row :: After(r, [wait, Event.Tick], slots) == After(Next(r, wait, slots), [Event.Tick], slots);
      assert forall r: Row :: After(r, [Event.Tick], slots) == After(Next(r, Event.Tick, slots), [], slots);
      now := at;
      if flight.Some? {
        return;
      }
      var due := IsDue(at, nextFire, slots);
      if due {
        flight := Some(Scheduled);
      }
    }

    /** `finalize` with `record_run`: a scheduled run moves the cron clock, any other run the event clock. */
    method Finish(at: int, recorded: bool, ghost slots: iset<int>)
      requires at == now
      modifies this`flight, this`lastRunAt, this`lastEventRunAt, this`spans
      ensures Value() == Next(old(Value()), Event.Finish(recorded), slots)
    {
      if flight.None? {
        return;
      }
      if recorded {
        if flight.value.Scheduled? {
          spans := spans + [Span(Since(Value()), at)];
          lastRunAt := Some(at);
        } else {
          lastEventRunAt := Some(at);
        }
      }
      flight := None;
    }
  }
}
