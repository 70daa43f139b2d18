/** The two debounced file watchers as timed loops: `install_fs_watcher`'s thread, which loses a burst when its
    channel disconnects, and the document watcher's, which flushes it. Times are in ticks of the clock. */
module DebounceLoops {
  import opened Options

  /** What the channel delivers to a thread: the arrival times of the events, in order, and when the senders hang up. */
  datatype Channel = Channel(arrivals: seq<nat>, hangup: Option<nat>)

  ghost predicate Sorted(c: Channel) {
    && (forall i, j | 0 <= i < j < |c.arrivals| :: c.arrivals[i] <= c.arrivals[j])
    && (c.hangup.Some? ==> forall t <- c.arrivals :: t <= c.hangup.value)
  }

  /** A watcher's tuning: the ceiling on a burst, the quiet window that ends it, and whether a hang-up ends it too. */
  datatype Window = Window(maxBurst: nat, debounce: nat, flushes: bool)

  const FS_WINDOW := Window(10000, 1000, false)
  const DOCS_WINDOW := Window(15000, 2000, true)
  const HEARTBEAT_INTERVAL: nat := 60000

  /** One burst: the events from `first` up to `last`, the wake-up, and the fire, if it came to that. */
  datatype Burst = Burst(first: nat, last: nat, wake: nat, fire: Option<nat>)

  datatype Receipt = Received | TimedOut | Disconnected

  function Later(a: nat, b: nat): nat {
    if a > b then a else b
  }

  /** What `recv_timeout` returns when `next` is the first event not yet received, and when it returns. */
  function RecvTimeout(c: Channel, next: nat, now: nat, timeout: nat): (r: (Receipt, nat))
    ensures now <= r.1 <= now + timeout && (r.0.TimedOut? ==> r.1 == now + timeout)
    ensures r.0.Received? <==> next < |c.arrivals| && c.arrivals[next] <= now + timeout
    ensures r.0.Received? ==> r.1 == Later(now, c.arrivals[next])
    ensures r.0.Disconnected? ==> next >= |c.arrivals| && c.hangup.Some? && c.hangup.value <= r.1
  {
    if next < |c.arrivals| && c.arrivals[next] <= now + timeout then (Received, Later(now, c.arrivals[next]))
    else if next >= |c.arrivals| && c.hangup.Some? && c.hangup.value <= now + timeout then
      (Disconnected, Later(now, c.hangup.value))
    else (TimedOut, now + timeout)
  }

  // ---- What a sequence of bursts promises ----

  /** Where the first `k` bursts leave the event queue, and when their thread is back at its receive. */
  function Reached(bursts: seq<Burst>, k: nat): nat
    requires k <= |bursts|
  {
    if k == 0 then 0 else bursts[k - 1].last
  }

  function Free(bursts: seq<Burst>, k: nat, work: nat -> nat): nat
    requires k <= |bursts|
  {
    if k == 0 then 0
    else (if bursts[k - 1].fire.Some? then bursts[k - 1].fire.value else bursts[k - 1].wake) + work(k - 1)
  }

  /** What ends a burst: a quiet window after its last event, the ceiling, or a hang-up. */
  ghost predicate Over(c: Channel, w: Window, last: nat, wake: nat, fire: nat)
    requires 0 < last <= |c.arrivals|
  {
    || c.arrivals[last - 1] + w.debounce <= fire || wake + w.maxBurst <= fire
    || (w.flushes && last == |c.arrivals| && c.hangup.Some? && c.hangup.value <= fire)
  }

  /** A burst ended well: it is over, it fires between its wake-up and the ceiling plus one quiet window, when all its
      events have arrived; and if its first event was taken as it arrived, no later event had to wait for the fire. */
  ghost predicate Drained(c: Channel, w: Window, first: nat, last: nat, wake: nat, fire: nat) {
    && first < last <= |c.arrivals|
    && wake <= fire <= wake + w.maxBurst + w.debounce && Over(c, w, last, wake, fire)
    && (forall i | first <= i < last :: c.arrivals[i] <= fire)
    && (wake == c.arrivals[first] && last < |c.arrivals| ==> fire <= c.arrivals[last])
  }

  /** What cuts a burst off before it fires: having received every event, the thread is still short of the ceiling and
      the channel hangs up before a quiet window is over. A watcher that flushes on a hang-up loses none. */
  ghost predicate CutOff(c: Channel, w: Window, last: nat, wake: nat)
    requires 0 < last <= |c.arrivals|
  {
    var lastReceipt := Later(wake, c.arrivals[last - 1]);
    && !w.flushes && last == |c.arrivals| && c.hangup.Some?
    && lastReceipt < wake + w.maxBurst && c.hangup.value <= lastReceipt + w.debounce
  }

  /** Burst `k` takes up where the one before it left off and is not empty. Its first event wakes the thread as soon
      as that is free. It fires, and in time, unless it is cut off. */
  ghost predicate InTime(bursts: seq<Burst>, k: nat, c: Channel, w: Window, work: nat -> nat) {
    && k < |bursts|
    && var b := bursts[k];
       && b.first == Reached(bursts, k) && b.first < b.last <= |c.arrivals|
       && b.wake == Later(Free(bursts, k, work), c.arrivals[b.first])
       && (b.fire.Some? ==> Drained(c, w, b.first, b.last, b.wake, b.fire.value))
       && (b.fire.None? <==> CutOff(c, w, b.last, b.wake))
  }

  /** Every burst is in time, and every burst but perhaps the last fires. */
  ghost predicate AllInTime(bursts: seq<Burst>, c: Channel, w: Window, work: nat -> nat) {
    && (forall k | 0 <= k < |bursts| :: InTime(bursts, k, c, w, work))
    && (forall k | 0 <= k < |bursts| - 1 :: bursts[k].fire.Some?)
  }

  lemma OneMore(bursts: seq<Burst>, b: Burst, c: Channel, w: Window, work: nat -> nat)
    requires AllInTime(bursts, c, w, work) && (bursts != [] ==> bursts[|bursts| - 1].fire.Some?)
    requires b.first == Reached(bursts, |bursts|) && b.first < b.last <= |c.arrivals|
    requires b.wake == Later(Free(bursts, |bursts|, work), c.arrivals[b.first])
    requires b.fire.Some? ==> Drained(c, w, b.first, b.last, b.wake, b.fire.value)
    requires b.fire.None? <==> CutOff(c, w, b.last, b.wake)
    ensures AllInTime(bursts + [b], c, w, work)
  {
    forall k | 0 <= k <= |bursts| ensures InTime(bursts + [b], k, c, w, work) {
      assert Reached(bursts + [b], k) == Reached(bursts, k) && Free(bursts + [b], k, work) == Free(bursts, k, work);
      if k < |bursts| { assert InTime(bursts, k, c, w, work); }
    }
  }

  // ---- Main result: the bound as an event sees it ----

  /** With instant processing each burst is woken by its first event the moment that arrives. */
  lemma {:induction false} WokenAtOnce(bursts: seq<Burst>, c: Channel, w: Window, work: nat -> nat, k: nat)
    requires AllInTime(bursts, c, w, work) && k < |bursts| && forall i :: work(i) == 0
    ensures bursts[k].first < |c.arrivals| && bursts[k].wake == c.arrivals[bursts[k].first]
    decreases k
  {
    assert InTime(bursts, k, c, w, work);
    if k > 0 {
      assert InTime(bursts, k - 1, c, w, work);
      WokenAtOnce(bursts, c, w, work, k - 1);
    }
  }

  lemma {:induction false} InSomeBurst(bursts: seq<Burst>, c: Channel, w: Window, work: nat -> nat, e: nat, n: nat)
    returns (k: nat)
    requires AllInTime(bursts, c, w, work) && n <= |bursts| && e < Reached(bursts, n)
    ensures k < n && bursts[k].first <= e < bursts[k].last
    decreases n
  {
    k := n - 1;
    assert InTime(bursts, k, c, w, work);
    if e < bursts[k].first {
      k := InSomeBurst(bursts, c, w, work, e, k);
    }
  }

  /** Whatever the event timing: with instant processing every event is followed by a fire no later than the ceiling
      plus one quiet window after it, unless it was in the last burst and the hang-up cut that one off. */
  lemma EveryEventFires(bursts: seq<Burst>, c: Channel, w: Window, work: nat -> nat, e: nat) returns (k: nat)
    requires Sorted(c) && AllInTime(bursts, c, w, work) && e < Reached(bursts, |bursts|) && forall i :: work(i) == 0
    ensures k < |bursts| && bursts[k].first <= e < bursts[k].last <= |c.arrivals|
    ensures bursts[k].fire.Some? ==> c.arrivals[e] <= bursts[k].fire.value <= c.arrivals[e] + w.maxBurst + w.debounce
    ensures bursts[k].fire.None? ==> k == |bursts| - 1 && CutOff(c, w, bursts[k].last, bursts[k].wake)
  {
    k := InSomeBurst(bursts, c, w, work, e, |bursts|);
    assert InTime(bursts, k, c, w, work);
    WokenAtOnce(bursts, c, w, work, k);
  }

  // ---- The trigger watcher: install_fs_watcher ----

  /** The inner loop: drain until a quiet window has passed or the ceiling is reached. */
  method DrainFs(c: Channel, first: nat, wake: nat, w: Window) returns (last: nat, now: nat, connected: bool)
    requires Sorted(c) && first < |c.arrivals| && c.arrivals[first] <= wake && !w.flushes
    ensures first < last <= |c.arrivals|
    ensures connected ==> Drained(c, w, first, last, wake, now)
    ensures !connected <==> CutOff(c, w, last, wake)
  {
    last, now, connected := first + 1, wake, true;
    var deadline := wake + w.maxBurst;
    while now < deadline
      invariant first < last <= |c.arrivals| && wake <= now <= wake + w.maxBurst + w.debounce
      invariant forall i | first <= i < last :: c.arrivals[i] <= now
      invariant now == Later(wake, c.arrivals[last - 1])
      decreases |c.arrivals| - last
    {
      var (receipt, at) := RecvTimeout(c, last, now, w.debounce);
      now := at;
      match receipt
      case Received => last := last + 1;
      case TimedOut => return;
      case Disconnected => connected := false; return;
    }
  }

  /** The thread of `install_fs_watcher`, until it parks for good or its channel hangs up. `work(k)` is how long the
      k-th fire keeps it. Every event is in a burst, and a burst fires, in time, if and only if the hang-up does not cut
      it off, which it can do to the last one only. */
  method WatchFs(c: Channel, work: nat -> nat) returns (bursts: seq<Burst>)
    requires Sorted(c)
    ensures AllInTime(bursts, c, Window(10_000, 1_000, false), work) && Reached(bursts, |bursts|) == |c.arrivals|
    ensures c.hangup.None? ==> forall b <- bursts :: b.fire.Some?
  {
    bursts := [];
    var next, now := 0, 0;
    while next < |c.arrivals|  // rx.recv() with nothing left parks, or reports the hang-up
      invariant next == Reached(bursts, |bursts|) <= |c.arrivals| && now == Free(bursts, |bursts|, work)
      invariant AllInTime(bursts, c, FS_WINDOW, work) && forall b <- bursts :: b.fire.Some?
      decreases |c.arrivals| - next
    {
      var wake := Later(now, c.arrivals[next]);
      var last, at, connected := DrainFs(c, next, wake, FS_WINDOW);
      var b := Burst(next, last, wake, if connected then Some(at) else None);
      OneMore(bursts, b, c, FS_WINDOW, work);
      bursts := bursts + [b];
      if !connected {
        return;
      }
      next := last;
      now := at + work(|bursts| - 1);
    }
  }

  // ---- The document watcher: install ----

  /** The inner loop: any failing receive ends the burst, a hang-up too. */
  method DrainDocs(c: Channel, first: nat, wake: nat, w: Window) returns (last: nat, now: nat)
    requires Sorted(c) && first < |c.arrivals| && c.arrivals[first] <= wake && w.flushes
    ensures Drained(c, w, first, last, wake, now)
  {
    last, now := first + 1, wake;
    var deadline := wake + w.maxBurst;
    var ok := true;
    while now < deadline && ok
      invariant first < last <= |c.arrivals| && wake <= now <= wake + w.maxBurst + w.debounce
      invariant forall i | first <= i < last :: c.arrivals[i] <= now
      invariant wake == c.arrivals[first] && ok ==> now == c.arrivals[last - 1]
      invariant !ok && last < |c.arrivals| ==> now <= c.arrivals[last]
      invariant !ok ==> Over(c, w, last, wake, now)
      decreases |c.arrivals| - last, ok
    {
      var (receipt, at) := RecvTimeout(c, last, now, w.debounce);
      now := at;
      if receipt.Received? {
        last := last + 1;
      } else {
        ok := false;
      }
    }
  }

  /** The thread of the document watcher: it wakes up for the heartbeat too, and never loses a burst. */
  method WatchDocs(c: Channel, work: nat -> nat) returns (bursts: seq<Burst>)
    requires Sorted(c)
    ensures AllInTime(bursts, c, Window(15_000, 2_000, true), work) && Reached(bursts, |bursts|) == |c.arrivals|
    ensures forall b <- bursts :: b.fire.Some?
  {
    bursts := [];
    var next, now := 0, 0;
    while next < |c.arrivals|
      invariant next == Reached(bursts, |bursts|) <= |c.arrivals|
      invariant Free(bursts, |bursts|, work) <= now
      invariant next < |c.arrivals| ==>
        Later(now, c.arrivals[next]) == Later(Free(bursts, |bursts|, work), c.arrivals[next])
      invariant AllInTime(bursts, c, DOCS_WINDOW, work) && forall b <- bursts :: b.fire.Some?
      decreases |c.arrivals| - next, if next < |c.arrivals| && c.arrivals[next] > now then c.arrivals[next] - now else 0
    {
      var (receipt, wake) := RecvTimeout(c, next, now, HEARTBEAT_INTERVAL);
      match receipt
      case Received =>
        var last, at := DrainDocs(c, next, wake, DOCS_WINDOW);
        OneMore(bursts, Burst(next, last, wake, Some(at)), c, DOCS_WINDOW, work);
        bursts := bursts + [Burst(next, last, wake, Some(at))];
        next := last;
        now := at + work(|bursts| - 1);
      case Disconnected => assert false;
      case TimedOut => now := wake;
    }
  }
}

/** `fire_fs_automations`: the minimum interval between two launches of one automation, kept in its trigger state. */
module RefireInterval {
  import opened Options

  type U64 = n: nat | n < 0x1_0000_0000_0000_0000

  const DEFAULT_FS_MIN_INTERVAL_SECS: U64 := 60

  /** `min as i64` for a `u64`. */
  function AsI64(u: U64): int {
    if u < 0x8000_0000_0000_0000 then u else u - 0x1_0000_0000_0000_0000
  }

  function Minimum(interval: Option<U64>): U64 {
    if interval.Some? then interval.value else DEFAULT_FS_MIN_INTERVAL_SECS
  }

  predicate MayFire(interval: Option<U64>, last: Option<int>, now: int) {
    last.None? || now - last.value >= AsI64(Minimum(interval))
  }

  /** The launch times out of a sequence of fires, from a stored last-fire epoch. */
  function Launches(interval: Option<U64>, last: Option<int>, fires: seq<int>): (launches: seq<int>)
    decreases fires
  {
    if fires == [] then []
    else if MayFire(interval, last, fires[0]) then [fires[0]] + Launches(interval, Some(fires[0]), fires[1..])
    else Launches(interval, last, fires[1..])
  }

  ghost predicate NonDecreasing(fires: seq<int>) {
    forall i, j | 0 <= i < j < |fires| :: fires[i] <= fires[j]
  }

  ghost predicate Spaced(launches: seq<int>, gap: int) {
    forall i, j | 0 <= i < j < |launches| :: launches[j] - launches[i] >= gap
  }

  lemma {:induction false} LaunchesSpaced(interval: Option<U64>, last: Option<int>, fires: seq<int>)
    requires Minimum(interval) < 0x8000_0000_0000_0000 && NonDecreasing(fires)
    ensures var l := Launches(interval, last, fires);
      Spaced(l, Minimum(interval)) && (last.Some? ==> forall t <- l :: t - last.value >= Minimum(interval))
    decreases fires
  {
    if fires != [] {
      if MayFire(interval, last, fires[0]) {
        var rest := Launches(interval, Some(fires[0]), fires[1..]);
        LaunchesSpaced(interval, Some(fires[0]), fires[1..]);
        var l := [fires[0]] + rest;
        forall i, j | 0 <= i < j < |l| ensures l[j] - l[i] >= Minimum(interval) {
          assert rest[j - 1] in rest && (i > 0 ==> l[i] == rest[i - 1]);
        }
      } else {
        LaunchesSpaced(interval, last, fires[1..]);
      }
    }
  }

  /** Under a clock that never steps back, two launches of one automation are its minimum interval apart, for every
      sequence of fires, exactly when the configured interval survives the cast to a signed integer. */
  lemma IntervalKeptExactly(interval: Option<U64>)
    ensures (forall fires | NonDecreasing(fires) :: Spaced(Launches(interval, None, fires), Minimum(interval)))
      <==> Minimum(interval) < 0x8000_0000_0000_0000
  {
    if Minimum(interval) < 0x8000_0000_0000_0000 {
      forall fires | NonDecreasing(fires) ensures Spaced(Launches(interval, None, fires), Minimum(interval)) {
        LaunchesSpaced(interval, None, fires);
      }
    } else {
      var fires := [0, 0];
      assert fires[1..] == [0] && [0][1..] == [];
      assert Launches(interval, Some(0), [0]) == [0];
      var l := Launches(interval, None, fires);
      assert l == [0, 0] && l[1] - l[0] == 0;
      assert NonDecreasing(fires) && !Spaced(l, Minimum(interval));
    }
  }

  /** The stored epoch after a sequence of fires. */
  function LastLaunch(interval: Option<U64>, last: Option<int>, fires: seq<int>): Option<int>
    decreases fires
  {
    if fires == [] then last
    else LastLaunch(interval, if MayFire(interval, last, fires[0]) then Some(fires[0]) else last, fires[1..])
  }

  lemma {:induction false} OneMoreFire(interval: Option<U64>, last: Option<int>, fires: seq<int>, now: int)
    ensures var stored := LastLaunch(interval, last, fires); var fire := MayFire(interval, stored, now);
      && Launches(interval, last, fires + [now]) == Launches(interval, last, fires) + (if fire then [now] else [])
      && LastLaunch(interval, last, fires + [now]) == if fire then Some(now) else stored
    decreases fires
  {
    if fires == [] {
      assert [] + [now] == [now] && [now][1..] == [];
    } else {
      assert (fires + [now])[1..] == fires[1..] + [now];
      var fire := MayFire(interval, last, fires[0]);
      OneMoreFire(interval, if fire then Some(fires[0]) else last, fires[1..], now);
    }
  }

  /** The stored epoch is the last launch, or the one there at the start. */
  lemma {:induction false} StoredIsLast(interval: Option<U64>, last: Option<int>, fires: seq<int>)
    ensures var l := Launches(interval, last, fires);
      LastLaunch(interval, last, fires) == if l == [] then last else Some(l[|l| - 1])
    decreases fires
  {
    if fires != [] {
      StoredIsLast(interval, if MayFire(interval, last, fires[0]) then Some(fires[0]) else last, fires[1..]);
    }
  }

  lemma LastIsLatest(launches: seq<int>, gap: nat)
    requires launches != [] && Spaced(launches, gap)
    ensures launches[|launches| - 1] in launches && forall t <- launches :: t <= launches[|launches| - 1]
  {
    forall t | t in launches ensures t <= launches[|launches| - 1] {
      var i :| 0 <= i < |launches| && launches[i] == t;
    }
  }

  /** Which fires launch: under a clock that never steps back and an interval that survives the cast, a fire launches if
      and only if every launch before it, the stored one included, is at least the configured interval ago, a minute if
      none is configured. Nothing else keeps a fire from launching. */
  lemma LaunchesExactly(interval: Option<U64>, last: Option<int>, fires: seq<int>, now: int)
    requires var gap := if interval.Some? then interval.value else 60; gap < 0x8000_0000_0000_0000
    requires NonDecreasing(fires)
    ensures var l := Launches(interval, last, fires); var gap := if interval.Some? then interval.value else 60;
      Launches(interval, last, fires + [now]) ==
        if (last.Some? ==> now - last.value >= gap) && forall t <- l :: now - t >= gap then l + [now] else l
  {
    var l := Launches(interval, last, fires);
    OneMoreFire(interval, last, fires, now);
    StoredIsLast(interval, last, fires);
    LaunchesSpaced(interval, last, fires);
    if l != [] { LastIsLatest(l, Minimum(interval)); }
  }

  /** One automation's part of `fire_fs_automations`: the epoch moves before the launch. */
  class FileTrigger {
    const interval: Option<U64>
    var lastTriggerState: Option<int>
    var launches: seq<int>
    ghost var fires: seq<int>

    /** What was launched is what the whole history of fires calls for. */
    ghost predicate Valid()
      reads this
    {
      && launches == Launches(interval, None, fires)
      && lastTriggerState == LastLaunch(interval, None, fires)
    }

    constructor (interval: Option<U64>)
      ensures Valid() && this.interval == interval && fires == []
    {
      this.interval := interval;
      lastTriggerState, launches, fires := None, [], [];
    }

    method Fire(now: int)
      requires Valid()
      modifies this
      ensures Valid() && fires == old(fires) + [now]
    {
      OneMoreFire(interval, None, fires, now);
      fires := fires + [now];
      if lastTriggerState.None? || now - lastTriggerState.value >= AsI64(Minimum(interval)) {
        lastTriggerState := Some(now);
        launches := launches + [now];
      }
    }
  }
}
