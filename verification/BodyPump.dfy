/** The resumable download: the pump streams a response body into the partial file, and the download task retries
    it at the returned count, or later starts again from what is on disk. */
module BodyPump {
  import opened Options

  type Byte = bv8
  const U64_MAX: nat := 0xFFFF_FFFF_FFFF_FFFF

  /** How the disk and the caller take a chunk: written and accepted, torn after its first k bytes by a write error,
      or written and then refused by `on_chunk`. */
  datatype Fate = Accepted | TornAt(k: nat) | Refused

  /** What the select in the loop yields next. */
  datatype Arrival = Chunk(bytes: seq<Byte>, fate: Fate) | ReadFails | Cancel | Stall

  datatype Outcome = Completed | Cancelled | Stalled | ReadError | WriteError

  /** A response, from its n-th arrival on, to a request for the body from byte `at` on: its chunks are the next
      stretches of the body, and the stream ends without an error only once all of it is there. */
  ghost predicate Serves(arrivals: seq<Arrival>, n: nat, body: seq<Byte>, at: nat)
    requires n <= |arrivals|
    decreases |arrivals| - n
  {
    && at <= |body|
    && if n == |arrivals| then at == |body|
       else arrivals[n].Chunk? ==>
         arrivals[n].bytes <= body[at..] && Serves(arrivals, n + 1, body, at + |arrivals[n].bytes|)
  }

  /** The contents are the first `at` bytes of the body. */
  ghost predicate HoldsUpTo(contents: seq<Byte>, body: seq<Byte>, at: nat) {
    contents <= body && |contents| == at
  }

  /** The next stretch of the body, or a part of it, extends contents that hold the body up to there. */
  lemma Extends(contents: seq<Byte>, body: seq<Byte>, at: nat, bytes: seq<Byte>, k: nat)
    requires HoldsUpTo(contents, body, at) && bytes <= body[at..] && k <= |bytes|
    ensures HoldsUpTo(contents + bytes[..k], body, at + k)
  {
    assert forall i | 0 <= i < k :: body[at..][i] == body[at + i];
  }

  function SaturatingAdd(a: nat, b: nat): nat {
    if a + b > U64_MAX then U64_MAX else a + b
  }

  // ---- How a pump ends ----

  /** The loop goes no further than this. */
  predicate Stops(a: Arrival) {
    if a.Chunk? then a.bytes != [] && !a.fate.Accepted? else true
  }

  function FirstStop(arrivals: seq<Arrival>, from: nat): (n: nat)
    requires from <= |arrivals|
    ensures from <= n <= |arrivals|
    decreases |arrivals| - from
  {
    if from == |arrivals| || Stops(arrivals[from]) then from else FirstStop(arrivals, from + 1)
  }

  /** The bytes of an arrival that count as downloaded: a refused chunk is on disk, a torn one is not counted. */
  function Counted(a: Arrival): nat {
    if a.Chunk? && (a.bytes == [] || !a.fate.TornAt?) then |a.bytes| else 0
  }

  function Received(arrivals: seq<Arrival>, n: nat): nat
    requires n <= |arrivals|
  {
    if n == 0 then 0 else Received(arrivals, n - 1) + Counted(arrivals[n - 1])
  }

  function StopOutcome(a: Arrival): Outcome {
    match a
    case Cancel => Cancelled
    case Stall => Stalled
    case ReadFails => ReadError
    case Chunk(_, _) => WriteError
  }

  /** How many arrivals the loop takes: up to the first that stops it. */
  function Taken(arrivals: seq<Arrival>): (n: nat)
    ensures n <= |arrivals|
  {
    var n := FirstStop(arrivals, 0);
    if n == |arrivals| then n else n + 1
  }

  /** The outcome, which the first arrival that stops the loop decides, and the bytes counted by then. */
  function Ending(arrivals: seq<Arrival>, flushes: bool): (Outcome, nat) {
    var n := FirstStop(arrivals, 0);
    (if n < |arrivals| then StopOutcome(arrivals[n]) else if flushes then Completed else WriteError,
     Received(arrivals, Taken(arrivals)))
  }

  // ---- What the arrivals say ----

  /** An arrival that the loop goes past. */
  ghost predicate Passes(a: Arrival) {
    a.Chunk? && (a.bytes == [] || a.fate.Accepted?)
  }

  /** The first `n` arrivals are passed and the next one, if there is one, is not. */
  ghost predicate StopsAt(arrivals: seq<Arrival>, n: nat) {
    && n <= |arrivals| && (forall i | 0 <= i < n :: Passes(arrivals[i]))
    && (n < |arrivals| ==> !Passes(arrivals[n]))
  }

  /** Which arrival decides for which outcome; past the last one the final flush does. */
  ghost predicate Decides(arrivals: seq<Arrival>, n: nat, flushes: bool, outcome: Outcome)
    requires n <= |arrivals|
  {
    && (outcome == Cancelled <==> n < |arrivals| && arrivals[n] == Cancel)
    && (outcome == Stalled <==> n < |arrivals| && arrivals[n] == Stall)
    && (outcome == ReadError <==> n < |arrivals| && arrivals[n] == ReadFails)
    && (outcome == WriteError <==> if n < |arrivals| then arrivals[n].Chunk? else !flushes)
    && (outcome == Completed <==> n == |arrivals| && flushes)
  }

  /** The bytes of the first `n` arrivals. */
  function Joined(arrivals: seq<Arrival>, n: nat): seq<Byte>
    requires n <= |arrivals|
  {
    if n == 0 then []
    else Joined(arrivals, n - 1) + if arrivals[n - 1].Chunk? then arrivals[n - 1].bytes else []
  }

  /** The bytes of the arrival that stops the loop: those counted as downloaded, when `on_chunk` refused them, and
      those that reach the disk uncounted, when the write was torn. */
  function LastBytes(arrivals: seq<Arrival>, n: nat): (nat, nat) {
    if n < |arrivals| && arrivals[n].Chunk? then
      match arrivals[n].fate
      case TornAt(k) => (0, if k < |arrivals[n].bytes| then k else |arrivals[n].bytes|)
      case _ => (|arrivals[n].bytes|, 0)
    else (0, 0)
  }

  lemma {:induction false} FirstStopIs(arrivals: seq<Arrival>, from: nat, n: nat)
    requires StopsAt(arrivals, n) && from <= n
    ensures FirstStop(arrivals, from) == n
    decreases n - from
  {
    if from < n { FirstStopIs(arrivals, from + 1, n); }
  }

  lemma {:induction false} ReceivedIs(arrivals: seq<Arrival>, n: nat)
    requires n <= |arrivals| && forall i | 0 <= i < n :: Passes(arrivals[i])
    ensures Received(arrivals, n) == |Joined(arrivals, n)|
  {
    if n > 0 { ReceivedIs(arrivals, n - 1); }
  }

  /** The first arrival that is not passed decides the outcome; what was passed before it is counted, and of itself a
      refused chunk. */
  lemma EndingIs(arrivals: seq<Arrival>, n: nat, flushes: bool)
    requires StopsAt(arrivals, n)
    ensures Decides(arrivals, n, flushes, Ending(arrivals, flushes).0)
    ensures Ending(arrivals, flushes).1 == |Joined(arrivals, n)| + LastBytes(arrivals, n).0
  {
    FirstStopIs(arrivals, 0, n);
    ReceivedIs(arrivals, n);
  }

  lemma {:induction false} StopsSomewhere(arrivals: seq<Arrival>, from: nat) returns (n: nat)
    requires from <= |arrivals| && forall i | 0 <= i < from :: Passes(arrivals[i])
    ensures StopsAt(arrivals, n)
    decreases |arrivals| - from
  {
    n := from;
    if from < |arrivals| && Passes(arrivals[from]) { n := StopsSomewhere(arrivals, from + 1); }
  }

  /** The totals reported for the first `n` arrivals, one for each that counts. */
  function Totals(arrivals: seq<Arrival>, n: nat, start: nat): seq<nat>
    requires n <= |arrivals|
  {
    if n == 0 then []
    else if Counted(arrivals[n - 1]) == 0 then Totals(arrivals, n - 1, start)
    else Totals(arrivals, n - 1, start) + [start + Received(arrivals, n)]
  }

  function Last(totals: seq<nat>, above: nat): nat {
    if totals == [] then above else totals[|totals| - 1]
  }

  /** They strictly increase, from above a count. */
  ghost predicate Increasing(totals: seq<nat>, above: nat) {
    && (forall i | 0 <= i < |totals| :: above < totals[i])
    && (forall i, j | 0 <= i < j < |totals| :: totals[i] < totals[j])
  }

  /** The same, built up one total at a time. */
  ghost predicate Climbs(totals: seq<nat>, above: nat) {
    totals == [] ||
      (Climbs(totals[..|totals| - 1], above) && Last(totals[..|totals| - 1], above) < totals[|totals| - 1])
  }

  lemma {:induction false} ClimbsIncreases(totals: seq<nat>, above: nat)
    requires Climbs(totals, above)
    ensures Increasing(totals, above) && above <= Last(totals, above)
    ensures forall i | 0 <= i < |totals| :: totals[i] <= Last(totals, above)
  {
    if totals != [] {
      var init := totals[..|totals| - 1];
      ClimbsIncreases(init, above);
      assert forall i | 0 <= i < |init| :: totals[i] == init[i];
    }
  }

  lemma {:induction false} TotalsClimb(arrivals: seq<Arrival>, n: nat, start: nat)
    requires n <= |arrivals|
    ensures Climbs(Totals(arrivals, n, start), start)
    ensures Last(Totals(arrivals, n, start), start) == start + Received(arrivals, n)
  {
    if n > 0 {
      TotalsClimb(arrivals, n - 1, start);
    }
  }

  /** The totals given to `on_chunk` strictly increase, from above the start to the count at the end. */
  lemma TotalsIncrease(arrivals: seq<Arrival>, n: nat, start: nat)
    requires n <= |arrivals|
    ensures Increasing(Totals(arrivals, n, start), start)
    ensures Last(Totals(arrivals, n, start), start) == start + Received(arrivals, n)
    ensures n > 0 ==> Totals(arrivals, n - 1, start) <= Totals(arrivals, n, start)
  {
    TotalsClimb(arrivals, n, start);
    ClimbsIncreases(Totals(arrivals, n, start), start);
  }

  class PartialFile {
    var contents: seq<Byte>

    constructor (contents: seq<Byte>)
      ensures this.contents == contents
    {
      this.contents := contents;
    }
  }

  /** A non-empty chunk meets the disk: all of it is written, or the first k bytes before a write error. */
  method Write(file: PartialFile, bytes: seq<Byte>, fate: Fate) returns (ok: bool, ghost k: nat)
    modifies file
    ensures fate.TornAt? ==> k == if fate.k < |bytes| then fate.k else |bytes|
    ensures k <= |bytes| && file.contents == old(file.contents) + bytes[..k]
    ensures if ok then k == |bytes| && !fate.TornAt? else fate.TornAt?
  {
    if fate.TornAt? {
      var n := if fate.k <= |bytes| then fate.k else |bytes|;
      file.contents := file.contents + bytes[..n];
      return false, n;
    }
    file.contents := file.contents + bytes;
    assert bytes[..|bytes|] == bytes;
    return true, |bytes|;
  }

  /** What the select yields next, up to the point where the bytes count as downloaded: a stop, or a chunk appended to
      the file, which holds the body up to `at`. */
  method Receive(file: PartialFile, ghost body: seq<Byte>, arrivals: seq<Arrival>, n: nat, ghost at: nat)
    returns (stop: Option<Outcome>, size: nat, ghost torn: nat)
    requires n < |arrivals| && Serves(arrivals, n, body, at) && HoldsUpTo(file.contents, body, at)
    modifies file
    ensures stop == if Stops(arrivals[n]) then Some(StopOutcome(arrivals[n])) else None
    ensures size == Counted(arrivals[n]) && torn == (if Passes(arrivals[n]) then 0 else LastBytes(arrivals, n).1)
    ensures at + size + torn <= |body| && HoldsUpTo(file.contents, body, at + size + torn)
    ensures stop.None? ==> torn == 0 && Serves(arrivals, n + 1, body, at + size)
  {
    match arrivals[n]
    case Cancel => return Some(Cancelled), 0, 0;
    case Stall => return Some(Stalled), 0, 0;
    case ReadFails => return Some(ReadError), 0, 0;
    case Chunk(bytes, fate) =>
      if bytes == [] {
        return None, 0, 0;
      }
      ghost var before := file.contents;
      var ok, k := Write(file, bytes, fate);
      Extends(before, body, at, bytes, k);
      if !ok {
        return Some(WriteError), 0, k;
      }
      return if fate.Refused? then Some(WriteError) else None, |bytes|, 0;
  }

  /** The streaming loop, up to the first arrival that stops it. */
  method Stream(file: PartialFile, ghost body: seq<Byte>, arrivals: seq<Arrival>, start: nat)
    returns (stop: Option<Outcome>, downloaded: nat, totals: seq<nat>, ghost torn: nat)
    requires |body| <= U64_MAX && Serves(arrivals, 0, body, start) && HoldsUpTo(file.contents, body, start)
    modifies file
    ensures var n := FirstStop(arrivals, 0); stop == if n < |arrivals| then Some(StopOutcome(arrivals[n])) else None
    ensures downloaded == start + Received(arrivals, Taken(arrivals))
    ensures totals == Totals(arrivals, Taken(arrivals), start)
    ensures downloaded + torn <= |body| && HoldsUpTo(file.contents, body, downloaded + torn)
    ensures torn == LastBytes(arrivals, FirstStop(arrivals, 0)).1 && (stop.None? ==> downloaded == |body|)
  {
    downloaded, totals, torn := start, [], 0;
    var n := 0;
    while n < |arrivals|
      invariant n <= |arrivals| && FirstStop(arrivals, n) == FirstStop(arrivals, 0)
      invariant downloaded == start + Received(arrivals, n) && totals == Totals(arrivals, n, start)
      invariant Serves(arrivals, n, body, downloaded) && HoldsUpTo(file.contents, body, downloaded)
    {
      var size;
      stop, size, torn := Receive(file, body, arrivals, n, downloaded);
      if size > 0 {
        downloaded := SaturatingAdd(downloaded, size);
        totals := totals + [downloaded];
      }
      n := n + 1;
      if stop.Some? {
        return;
      }
    }
    stop, torn := None, 0;
  }

  /** `pump_body_to_file`; `totals` are the counts given to `on_chunk`. The partial file is always a prefix of the
      body. It is exactly as long as the returned count, but for the torn bytes of a failed write. The first arrival
      that stops the loop decides the outcome and the count. Completed means the whole body. */
  method Pump(file: PartialFile, ghost body: seq<Byte>, arrivals: seq<Arrival>, start: nat, resuming: bool,
              opens: bool, flushes: bool)
    returns (outcome: Outcome, downloaded: nat, totals: seq<nat>, ghost torn: nat)
    requires |body| <= U64_MAX && Serves(arrivals, 0, body, start)
    requires if resuming then HoldsUpTo(file.contents, body, start) else start == 0
    modifies file
    ensures !opens ==>
      file.contents == old(file.contents) && (outcome, downloaded, totals, torn) == (WriteError, start, [], 0)
    ensures opens ==> (outcome, downloaded) == (Ending(arrivals, flushes).0, start + Ending(arrivals, flushes).1)
    ensures opens ==> exists n :: PumpedTo(arrivals, n, start, flushes, outcome, downloaded, torn)
    ensures opens ==> totals == Totals(arrivals, Taken(arrivals), start)
    ensures opens ==> downloaded + torn <= |body| && HoldsUpTo(file.contents, body, downloaded + torn)
    ensures outcome.Completed? ==> downloaded == |body| && file.contents == body
  {
    if !opens {
      return WriteError, start, [], 0;
    }
    if !resuming {
      file.contents := [];
    }
    var stop;
    stop, downloaded, totals, torn := Stream(file, body, arrivals, start);
    if stop.Some? {
      outcome := stop.value;
    } else {
      outcome := if flushes then Completed else WriteError;
    }
    ghost var n := StopsSomewhere(arrivals, 0);
    EndingIs(arrivals, n, flushes);
    FirstStopIs(arrivals, 0, n);
    assert PumpedTo(arrivals, n, start, flushes, outcome, downloaded, torn);
  }

  /** The pump has stopped at arrival `n`, or at the end of the stream: what that says of its answer. */
  ghost predicate PumpedTo(arrivals: seq<Arrival>, n: nat, start: nat, flushes: bool, outcome: Outcome,
                           downloaded: nat, torn: nat)
  {
    && StopsAt(arrivals, n) && Decides(arrivals, n, flushes, outcome)
    && downloaded == start + |Joined(arrivals, n)| + LastBytes(arrivals, n).0 && torn == LastBytes(arrivals, n).1
  }

  /** One request of the download task: what the server streams from a given byte on, whether it honours a range
      (206) or sends the whole body again (200), and whether the disk lets the file be opened and flushed. */
  datatype Attempt = Attempt(serve: nat -> seq<Arrival>, honoursRange: bool, opens: bool, flushes: bool)

  ghost predicate Faithful(a: Attempt, body: seq<Byte>) {
    forall from: nat | from <= |body| :: Serves(a.serve(from), 0, body, from)
  }

  /** Where the n-th request starts, if the ones before it all ended in a stall or a read error. */
  function ResumeAt(attempts: seq<Attempt>, n: nat, size: nat): Option<nat>
    requires n <= |attempts|
  {
    if n == 0 then Some(size)
    else match ResumeAt(attempts, n - 1, size)
      case None => None
      case Some(at) =>
        var (outcome, downloaded) := AttemptEnds(attempts[n - 1], at);
        if outcome.Stalled? || outcome.ReadError? then Some(downloaded) else None
  }

  /** What the server sends to a request for the bytes from `at` on. */
  function Serving(a: Attempt, at: nat): seq<Arrival> {
    a.serve(if a.honoursRange then at else 0)
  }

  predicate Retryable(a: Arrival) {
    a == Stall || a == ReadFails
  }

  /** The request ends in a stall or a read error: the first arrival that is not passed is one. */
  ghost predicate BreaksOff(a: Attempt, at: nat) {
    var arrivals := Serving(a, at);
    a.opens && exists n: nat :: StopsAt(arrivals, n) && n < |arrivals| && Retryable(arrivals[n])
  }

  /** Every arrival is passed and the file is flushed. */
  ghost predicate GetsAll(a: Attempt, at: nat) {
    a.opens && a.flushes && StopsAt(Serving(a, at), |Serving(a, at)|)
  }

  lemma AttemptDecided(a: Attempt, at: nat)
    ensures AttemptEnds(a, at).0.Stalled? || AttemptEnds(a, at).0.ReadError? <==> BreaksOff(a, at)
    ensures AttemptEnds(a, at).0.Completed? <==> GetsAll(a, at)
  {
    var arrivals := Serving(a, at);
    var n := StopsSomewhere(arrivals, 0);
    EndingIs(arrivals, n, a.flushes);
    forall m: nat | StopsAt(arrivals, m) ensures m == n {
      FirstStopIs(arrivals, 0, n);
      FirstStopIs(arrivals, 0, m);
    }
  }

  /** The n-th request is made, all before it having broken off, and breaks off or gets all. */
  ghost predicate Broke(attempts: seq<Attempt>, n: nat, size: nat) {
    n < |attempts| && ResumeAt(attempts, n, size).Some? && BreaksOff(attempts[n], ResumeAt(attempts, n, size).value)
  }

  ghost predicate Got(attempts: seq<Attempt>, n: nat, size: nat) {
    n < |attempts| && ResumeAt(attempts, n, size).Some? && GetsAll(attempts[n], ResumeAt(attempts, n, size).value)
  }

  function AttemptEnds(a: Attempt, at: nat): (Outcome, nat) {
    var start := if a.honoursRange then at else 0;
    var (outcome, received) := Ending(a.serve(start), a.flushes);
    if a.opens then (outcome, start + received) else (WriteError, start)
  }

  ghost predicate Completes(attempts: seq<Attempt>, n: nat, size: nat) {
    n < |attempts| && var at := ResumeAt(attempts, n, size); at.Some? && AttemptEnds(attempts[n], at.value).0.Completed?
  }

  /** Whether the retries from the n-th request on, resumed at `at`, lead to a completion. */
  predicate Finishes(attempts: seq<Attempt>, n: nat, at: nat)
    requires n <= |attempts|
    decreases |attempts| - n
  {
    n < |attempts| &&
    var (outcome, downloaded) := AttemptEnds(attempts[n], at);
    outcome.Completed? || ((outcome.Stalled? || outcome.ReadError?) && Finishes(attempts, n + 1, downloaded))
  }

  /** They do exactly when some request completes and all before it ended in a stall or a read error. */
  lemma {:induction false} FinishesExactly(attempts: seq<Attempt>, n: nat, size: nat)
    requires n <= |attempts|
    ensures ResumeAt(attempts, n, size).Some? ==>
      (Finishes(attempts, n, ResumeAt(attempts, n, size).value) <==> exists k :: n <= k && Completes(attempts, k, size))
    ensures ResumeAt(attempts, n, size).None? ==> forall k | n <= k :: !Completes(attempts, k, size)
    decreases |attempts| - n
  {
    if n < |attempts| {
      FinishesExactly(attempts, n + 1, size);
      if Completes(attempts, n, size) {
        assert Finishes(attempts, n, ResumeAt(attempts, n, size).value);
      } else {
        assert forall k | n <= k && Completes(attempts, k, size) :: n + 1 <= k;
      }
    }
  }

  /** One request, from the bytes on disk on. */
  method Request(file: PartialFile, ghost body: seq<Byte>, a: Attempt, resumeFrom: nat)
    returns (outcome: Outcome, downloaded: nat)
    requires |body| <= U64_MAX && HoldsUpTo(file.contents, body, resumeFrom) && Faithful(a, body)
    modifies file
    ensures (outcome, downloaded) == AttemptEnds(a, resumeFrom) && file.contents <= body
    ensures outcome.Completed? ==> file.contents == body
    ensures outcome.Stalled? || outcome.ReadError? ==> HoldsUpTo(file.contents, body, downloaded)
  {
    var resuming := a.honoursRange && resumeFrom > 0;
    var start := if resuming then resumeFrom else 0;
    var totals;
    ghost var torn;
    outcome, downloaded, totals, torn := Pump(file, body, a.serve(start), start, resuming, a.opens, a.flushes);
  }

  /** The retry loop of the download task. It resumes from the bytes on disk, then at each returned count; only
      stalls and read errors are retried, so a torn write is never appended to within one task. Whatever stops it, the
      partial file is a prefix of the body, ready for the next task; and when it reports completion, it is the body. No
      request follows one that was cancelled, could not write or got everything; every other is followed by the next. */
  method Download(file: PartialFile, ghost body: seq<Byte>, attempts: seq<Attempt>)
    returns (completed: bool, ghost requests: nat)
    requires |body| <= U64_MAX && file.contents <= body && forall a <- attempts :: Faithful(a, body)
    modifies file
    ensures file.contents <= body
    ensures completed == Finishes(attempts, 0, |old(file.contents)|) && (completed ==> file.contents == body)
    ensures requests <= |attempts| && forall n | 0 <= n < requests - 1 :: Broke(attempts, n, |old(file.contents)|)
    ensures requests < |attempts| ==> requests > 0 && !Broke(attempts, requests - 1, |old(file.contents)|)
    ensures completed <==> requests > 0 && Got(attempts, requests - 1, |old(file.contents)|)
  {
    var resumeFrom: nat := |file.contents|;
    for n := 0 to |attempts|
      invariant HoldsUpTo(file.contents, body, resumeFrom)
      invariant Finishes(attempts, n, resumeFrom) == Finishes(attempts, 0, |old(file.contents)|)
      invariant ResumeAt(attempts, n, |old(file.contents)|) == Some(resumeFrom)
      invariant forall k | 0 <= k < n :: Broke(attempts, k, |old(file.contents)|)
      invariant n > 0 ==> !Got(attempts, n - 1, |old(file.contents)|)
    {
      AttemptDecided(attempts[n], resumeFrom);
      var outcome, downloaded := Request(file, body, attempts[n], resumeFrom);
      match outcome
      case Completed => return true, n + 1;
      case Stalled => resumeFrom := downloaded;
      case ReadError => resumeFrom := downloaded;
      case Cancelled => return false, n + 1;
      case WriteError => return false, n + 1;
    }
    return false, |attempts|;
  }
}
