/** What the locked sections of `checkpoints.rs` do to the table, row by row: the two gated inserts, the inline pass and
    the boot prune; and that the detached threads, step by step, come to these sections and to nothing else. */
module CheckpointSections {
  import opened Options
  import opened CheckpointRows
  import opened CheckpointCap
  import opened CheckpointProtocol

  // ---- The gated inserts ----

  /** A row as an insert records it, whose ref was written exactly when git could write it. */
  ghost predicate Records(row: Row, st: Store, git: Git, s: Session, message: Option<nat>, repo: Repo, snap: Snapshot,
                          now: int)
  {
    && row.id == st.nextId && row.session == s && row.message == message
    && row.tree == snap.tree && row.repo == repo && row.createdAt == now
    && (row.ref.Some? <==> snap.committed && repo in git.repos && RefKey(repo, s, st.nextId) !in git.failing)
    && (row.ref.Some? ==> row.ref.value == RefKey(repo, s, st.nextId))
  }

  /** The session of `row` has that row and no other, and the other sessions have what they had. */
  ghost predicate OnlyRow(rows: seq<Row>, row: Row, before: seq<Row>) {
    InSession(rows, row.session) == [row] && forall o | o != row.session :: InSession(rows, o) == InSession(before, o)
  }

  lemma FirstRowOf(rows: seq<Row>, row: Row)
    requires forall r <- rows :: r.session != row.session
    ensures OnlyRow(rows + [row], row, rows)
    ensures Turns(rows + [row], row.session) == if row.message.Some? then [row] else []
  {
    NoRows(rows, row.session);
    TurnsFewer(rows, row.session);
    assert [row][1..] == [];
    forall o ensures InSession(rows + [row], o) == InSession(rows, o) + (if o == row.session then [row] else []) {
      SessionAppend(rows, [row], o);
      assert InSession([row], o) == if o == row.session then [row] else [];
    }
    TurnsAppend(rows, [row], row.session);
  }

  lemma NoRows(rows: seq<Row>, s: Session)
    ensures Count(rows, s) == 0 <==> forall r <- rows :: r.session != s
  {
    TurnsAre(rows, s);
    if InSession(rows, s) != [] { assert InSession(rows, s)[0] in InSession(rows, s); }
  }

  /** `insert_baseline`: from a session that has a row nothing changes; otherwise the session has one row afterwards,
      the baseline with its ref, and the other sessions keep theirs. */
  lemma BaselineInserts(st: Store, git: Git, cap: int, s: Session, repo: Repo, snap: Snapshot, now: int)
    returns (row: Row)
    requires Ordered(st)
    ensures Records(row, st, git, s, None, repo, snap, now)
    ensures var st1 := InsertBaseline(st, git, cap, s, repo, snap, now);
      if exists r <- st.rows :: r.session == s then st1 == st
      else
        && OnlyRow(st1.rows, row, st.rows) && st1.nextId == st.nextId + 1
        && st1.refs == (if row.ref.Some? then st.refs[row.ref.value := snap.tree] else st.refs)
  {
    NoRows(st.rows, s);
    var mid := Insert(st, git, s, None, repo, snap, now);
    row := mid.rows[|st.rows|];
    if forall r <- st.rows :: r.session != s {
      FirstRowOf(st.rows, row);
      NothingPruned(mid, git, cap, s);
    }
  }

  /** The session's newest row already has this tree. */
  ghost predicate Repeats(rows: seq<Row>, s: Session, tree: Sha) {
    exists r <- rows :: r.session == s && r.tree == tree && forall x <- rows :: x.session == s ==> x.id <= r.id
  }

  lemma LatestIsNewest(rows: seq<Row>, s: Session, tree: Sha)
    requires Ascending(rows)
    ensures Repeats(rows, s, tree) <==> Latest(rows, s).Some? && Latest(rows, s).value.tree == tree
  {
    var mine := InSession(rows, s);
    TurnsAre(rows, s);
    SessionAscending(rows, s);
    if mine != [] {
      var last := mine[|mine| - 1];
      assert last in mine;
      forall x | x in rows && x.session == s ensures x.id <= last.id && (x.id == last.id ==> x == last) {
        assert x in mine;
        if x.id == last.id { SameRow(rows, x, last); }
      }
    }
  }

  lemma FirstThenRest(first: Row, rest: seq<Row>)
    requires Ascending(rest) && forall r <- rest :: first.id < r.id
    ensures Ascending([first] + rest)
  {
  }

  lemma {:induction false} SessionAscending(rows: seq<Row>, s: Session)
    requires Ascending(rows)
    ensures Ascending(InSession(rows, s)) && Ascending(Turns(rows, s))
  {
    if rows != [] {
      var rest := rows[1..];
      AscendingTail(rows);
      SessionAscending(rest, s);
      TurnsAre(rest, s);
      FirstThenRest(rows[0], InSession(rest, s));
      FirstThenRest(rows[0], Turns(rest, s));
      assert [] + InSession(rest, s) == InSession(rest, s) && [] + Turns(rest, s) == Turns(rest, s);
    }
  }

  /** `after_turn_insert`: nothing happens when the session's newest row has the snapshot's tree. Otherwise the turn's
      row is recorded, and then at most the oldest turn rows of the session go, none unless it is over its cap. */
  lemma TurnInserts(st: Store, git: Git, cap: int, s: Session, message: Option<nat>, repo: Repo, snap: Snapshot,
                    now: int)
    returns (row: Row, gone: seq<Row>)
    requires Ordered(st)
    ensures Records(row, st, git, s, message, repo, snap, now) && gone <= Turns(st.rows + [row], s)
    ensures var st1 := InsertTurn(st, git, cap, s, message, repo, snap, now);
      if Repeats(st.rows, s, snap.tree) then st1 == st
      else
        && st1.nextId == st.nextId + 1 && Ascending(st1.rows)
        && (forall r :: r in st1.rows <==> (r in st.rows || r == row) && r !in gone)
    ensures cap <= 0 || Count(st.rows, s) < cap ==> gone == []
  {
    var mid := Insert(st, git, s, message, repo, snap, now);
    row, gone := mid.rows[|st.rows|], Pruned(mid.rows, git, cap, s);
    LatestIsNewest(st.rows, s, snap.tree);
    InsertCounts(st, git, s, message, repo, snap, now);
    PruneTakesOldestTurns(mid, git, cap, s);
    PassOrders(mid, git, cap, s);
  }

  // ---- Which turn rows a pass takes ----

  /** git can reach the row's ref and will not delete it. */
  predicate Refused(r: Row, git: Git) {
    r.ref.Some? && r.repo in git.repos && r.ref.value in git.failing
  }

  /** `prune_over_cap` takes the i-th oldest turn row if and only if it is among the rows over the cap and the first
      eight, and git refuses neither its ref nor that of an older turn row. */
  lemma PassTakesExactly(st: Store, git: Git, cap: int, s: Session, i: nat)
    requires Ordered(st) && i < |Turns(st.rows, s)|
    ensures Turns(st.rows, s)[i] !in PruneOverCap(st, git, cap, s).rows <==>
      && cap > 0 && i < Count(st.rows, s) - cap && i < 8
      && forall j | 0 <= j <= i :: !Refused(Turns(st.rows, s)[j], git)
  {
    var turns, gone := Turns(st.rows, s), Pruned(st.rows, git, cap, s);
    PassTakes(st, git, cap, s);
    TurnsAre(st.rows, s);
    assert turns[i] in turns;
    SessionAscending(st.rows, s);
    assert gone == turns[..|gone|];
  }

  /** The boot prune takes the i-th oldest turn row of a session if and only if it is among the rows over the cap, or
      older than the cutoff; a row without a message only for its age. */
  lemma BootPruneTakesExactly(st: Store, cap: int, cutoff: Option<int>, s: Session, i: nat)
    requires Ordered(st) && i < |Turns(st.rows, s)|
    ensures var r := Turns(st.rows, s)[i];
      r !in BootPrune(st, cap, cutoff).rows <==>
        (cap > 0 && i < Count(st.rows, s) - cap) || (cutoff.Some? && r.createdAt < cutoff.value)
    ensures forall r <- st.rows | r.message.None? ::
      r !in BootPrune(st, cap, cutoff).rows <==> cutoff.Some? && r.createdAt < cutoff.value
  {
    var turns := Turns(st.rows, s);
    TurnsAre(st.rows, s);
    assert turns[i] in turns;
    SessionAscending(st.rows, s);
    BootPruneExact(st, cap, cutoff);
    forall r | r in st.rows && r.message.None? ensures r !in Turns(st.rows, r.session) {
      TurnsAre(st.rows, r.session);
    }
  }

  // ---- The threads ----

  /** The locked section of a thread that is ready is `insert_baseline` or `after_turn_insert`, and a boot prune's is
      `boot_prune`, which hands the refs of the rows it takes to the detached half. */
  lemma StepsAreSections(sys: System, t: nat, now: int, git: Git)
    ensures Next(sys, BaselineInsert(t, now), git).store ==
      if t in sys.threads && sys.threads[t].BaselineReady? then
        var p := sys.threads[t]; InsertBaseline(sys.store, git, sys.cap, p.session, p.repo, p.snap, now)
      else sys.store
    ensures Next(sys, TurnInsert(t, now), git).store ==
      if t in sys.threads && sys.threads[t].TurnReady? then
        var p := sys.threads[t]; InsertTurn(sys.store, git, sys.cap, p.session, p.message, p.repo, p.snap, now)
      else sys.store
    ensures forall cutoff :: var sys1 := Next(sys, BootPruneRows(cutoff), git);
      && sys1.store == BootPrune(sys.store, sys.cap, cutoff)
      && sys1.pending == sys.pending + Keys(Victims(sys.store.rows, sys.cap, cutoff))
  {
  }

  /** The gate lets this thread in, for this session and repository. */
  ghost predicate Admits(sys: System, step: Step, git: Git, t: nat, p: Phase) {
    && sys.enabled && p.repo in git.repos
    && if p.BaselineGated? then
         step == BaselineGate(t, p.session, p.repo) && forall r <- sys.store.rows :: r.session != p.session
       else p.TurnGated? && step == TurnGate(t, p.session, p.message, p.repo)
  }

  /** How far a thread has come since its gate. */
  function Gated(p: Phase): Phase {
    match p
    case BaselineReady(s, repo, _) => BaselineGated(s, repo)
    case TurnReady(s, message, repo, _) => TurnGated(s, message, repo)
    case _ => p
  }

  /** A thread is new in a step if and only if a gate lets it in: checkpoints are enabled, the directory is a work tree,
      and for a baseline the session has no row. */
  lemma GateExactly(sys: System, step: Step, git: Git, t: nat)
    requires t !in sys.threads
    ensures t in Next(sys, step, git).threads <==> exists p :: Admits(sys, step, git, t, p)
    ensures t in Next(sys, step, git).threads ==> Admits(sys, step, git, t, Next(sys, step, git).threads[t])
  {
    if step.BaselineGate? {
      NoRows(sys.store.rows, step.session);
      assert Admits(sys, step, git, t, BaselineGated(step.session, step.repo)) <==>
        t == step.t && t in Next(sys, step, git).threads;
    } else if step.TurnGate? {
      assert Admits(sys, step, git, t, TurnGated(step.session, step.message, step.repo)) <==>
        t == step.t && t in Next(sys, step, git).threads;
    }
  }

  ghost predicate AdmittedAt(sys: System, run: Run, i: nat, t: nat, p: Phase) {
    i < |run| && Admits(After(sys, run[..i]), run[i].0, run[i].1, t, p)
  }

  lemma AdmittedLater(sys: System, run: Run, i: nat, t: nat, p: Phase)
    requires run != [] && AdmittedAt(Next(sys, run[0].0, run[0].1), run[1..], i, t, p)
    ensures AdmittedAt(sys, run, i + 1, t, p)
  {
    assert run[..i + 1][0] == run[0] && run[..i + 1][1..] == run[1..][..i];
  }

  /** Every thread in flight was let in by a gate earlier in the run, for the session and repository it is about: over
      any run, nothing is inserted by a thread that no gate let in. */
  lemma {:induction false} InFlightWasAdmitted(sys: System, run: Run, t: nat)
    requires t in After(sys, run).threads
    ensures var p := Gated(After(sys, run).threads[t]);
      (t in sys.threads && Gated(sys.threads[t]) == p) || exists i: nat :: AdmittedAt(sys, run, i, t, p)
    decreases run
  {
    if run != [] {
      var sys1, p := Next(sys, run[0].0, run[0].1), Gated(After(sys, run).threads[t]);
      InFlightWasAdmitted(sys1, run[1..], t);
      if i: nat :| AdmittedAt(sys1, run[1..], i, t, p) {
        AdmittedLater(sys, run, i, t, p);
      } else if t !in sys.threads {
        GateExactly(sys, run[0].0, run[0].1, t);
        assert run[..0] == [];
        assert AdmittedAt(sys, run, 0, t, p);
      } else {
        StaysGated(sys, run[0].0, run[0].1, t);
      }
    }
  }

  lemma StaysGated(sys: System, step: Step, git: Git, t: nat)
    requires t in sys.threads && t in Next(sys, step, git).threads
    ensures Gated(Next(sys, step, git).threads[t]) == Gated(sys.threads[t])
  {
  }

  /** The three phases of one thread in a row. */
  function Phases(gate: Step, t: nat, taken: Option<Snapshot>, insert: Step, git: Git): Run {
    [(gate, git), (TakeSnapshot(t, taken), git), (insert, git)]
  }

  lemma AfterThree(sys: System, a: (Step, Git), b: (Step, Git), c: (Step, Git))
    ensures After(sys, [a, b, c]) == Next(Next(Next(sys, a.0, a.1), b.0, b.1), c.0, c.1)
  {
    var s1 := Next(sys, a.0, a.1);
    var s2 := Next(s1, b.0, b.1);
    assert [a, b, c][1..] == [b, c] && [b, c][1..] == [c] && [c][1..] == [];
    assert After(s2, [c]) == After(Next(s2, c.0, c.1), []);
    assert After(s1, [b, c]) == After(s2, [c]);
  }

  /** Left alone, the detached form of a baseline comes to the inline form: with checkpoints enabled, in a work tree
      whose snapshot works, `insert_baseline`; otherwise nothing. */
  lemma BaselineDetached(sys: System, t: nat, s: Session, repo: Repo, taken: Option<Snapshot>, now: int, git: Git)
    requires t !in sys.threads
    ensures After(sys, Phases(BaselineGate(t, s, repo), t, taken, BaselineInsert(t, now), git)).store ==
      if sys.enabled && repo in git.repos && taken.Some? then
        InsertBaseline(sys.store, git, sys.cap, s, repo, taken.value, now)
      else sys.store
  {
    AfterThree(sys, (BaselineGate(t, s, repo), git), (TakeSnapshot(t, taken), git), (BaselineInsert(t, now), git));
    StepsAreSections(Next(Next(sys, BaselineGate(t, s, repo), git), TakeSnapshot(t, taken), git), t, now, git);
  }

  /** The same for the checkpoint at the end of a turn. */
  lemma TurnDetached(sys: System, t: nat, s: Session, message: Option<nat>, repo: Repo, taken: Option<Snapshot>,
                     now: int, git: Git)
    requires t !in sys.threads
    ensures After(sys, Phases(TurnGate(t, s, message, repo), t, taken, TurnInsert(t, now), git)).store ==
      if sys.enabled && repo in git.repos && taken.Some? then
        InsertTurn(sys.store, git, sys.cap, s, message, repo, taken.value, now)
      else sys.store
  {
    AfterThree(sys, (TurnGate(t, s, message, repo), git), (TakeSnapshot(t, taken), git), (TurnInsert(t, now), git));
    StepsAreSections(Next(Next(sys, TurnGate(t, s, message, repo), git), TakeSnapshot(t, taken), git), t, now, git);
  }

  /** The detached half of a boot prune can always be finished, and then exactly the queued refs are gone. */
  lemma {:induction false} QueueDrains(sys: System) returns (run: Run)
    ensures AllReached(sys, run)
    ensures After(sys, run) == sys.(pending := {}, store := sys.store.(refs := sys.store.refs - sys.pending))
    decreases |sys.pending|
  {
    if sys.pending == {} {
      run := [];
      assert sys.store.refs - {} == sys.store.refs;
    } else {
      var key :| key in sys.pending;
      var step := (DetachedDelete(key), Git({key.repo}, {}));
      var sys1 := Next(sys, step.0, step.1);
      var rest := QueueDrains(sys1);
      run := [step] + rest;
      assert run[1..] == rest;
      assert sys.store.refs - {key} - (sys.pending - {key}) == sys.store.refs - sys.pending;
    }
  }
}
