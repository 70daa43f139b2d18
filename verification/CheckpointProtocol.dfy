/** The three-phase checkpoint threads as a transition system: any number of threads, the database lock dropped
    across every git snapshot, git free to fail at any ref, boot prunes with a detached ref half. */
module CheckpointProtocol {
  import opened Options
  import opened CheckpointRows

  /** Where a detached thread stands between its locked sections. */
  datatype Phase =
    | BaselineGated(session: Session, repo: Repo)
    | BaselineReady(session: Session, repo: Repo, snap: Snapshot)
    | TurnGated(session: Session, message: Option<nat>, repo: Repo)
    | TurnReady(session: Session, message: Option<nat>, repo: Repo, snap: Snapshot)

  /** `pending` are refs handed to a detached deletion; `leaked` and `baselines` only record history: refs whose
      row went while git could not delete them, and the ids inserted by `insert_baseline`. */
  datatype System = System(store: Store, cap: int, enabled: bool, threads: map<nat, Phase>,
                           pending: set<RefKey>, leaked: set<RefKey>, baselines: set<nat>)

  datatype Step =
    | BaselineGate(t: nat, session: Session, repo: Repo)
    | TurnGate(t: nat, session: Session, message: Option<nat>, repo: Repo)
    | TakeSnapshot(t: nat, taken: Option<Snapshot>)
    | BaselineInsert(t: nat, now: int)
    | TurnInsert(t: nat, now: int)
    | SafetyInsert(session: Session, message: Option<nat>, repo: Repo, snap: Snapshot, now: int)
    | BootPruneRows(cutoff: Option<int>)
    | DetachedDelete(key: RefKey)
    | Configure(cap: int, enabled: bool)

  /** Refs of rows that went while their repository was unreachable. */
  function Unreached(gone: seq<Row>, git: Git): (keys: set<RefKey>)
    ensures forall k :: k in keys <==> exists r <- gone :: r.ref == Some(k) && r.repo !in git.repos
  {
    set r <- gone | r.ref.Some? && r.repo !in git.repos :: r.ref.value
  }

  function Inserted(sys: System, git: Git, s: Session, message: Option<nat>, repo: Repo, snap: Snapshot, now: int,
                    prune: bool): System
  {
    var mid := Insert(sys.store, git, s, message, repo, snap, now);
    if !prune then sys.(store := mid)
    else
      sys.(store := PruneOverCap(mid, git, sys.cap, s),
           leaked := sys.leaked + Unreached(Pruned(mid.rows, git, sys.cap, s), git))
  }

  /** One atomic step; a step whose thread is not at that point does nothing. */
  function Next(sys: System, step: Step, git: Git): System {
    match step
    case BaselineGate(t, s, repo) =>
      if t !in sys.threads && sys.enabled && repo in git.repos && Count(sys.store.rows, s) == 0
      then sys.(threads := sys.threads[t := BaselineGated(s, repo)]) else sys
    case TurnGate(t, s, message, repo) =>
      if t !in sys.threads && sys.enabled && repo in git.repos
      then sys.(threads := sys.threads[t := TurnGated(s, message, repo)]) else sys
    case TakeSnapshot(t, taken) =>
      if t !in sys.threads then sys
      else (match sys.threads[t]
        case BaselineGated(s, repo) =>
          sys.(threads := if taken.Some? then sys.threads[t := BaselineReady(s, repo, taken.value)]
                          else sys.threads - {t})
        case TurnGated(s, message, repo) =>
          sys.(threads := if taken.Some? then sys.threads[t := TurnReady(s, message, repo, taken.value)]
                          else sys.threads - {t})
        case _ => sys)
    case BaselineInsert(t, now) =>
      if t !in sys.threads || !sys.threads[t].BaselineReady? then sys
      else
        var BaselineReady(s, repo, snap) := sys.threads[t];
        var done := sys.(threads := sys.threads - {t});
        if Count(sys.store.rows, s) > 0 then done
        else Inserted(done, git, s, None, repo, snap, now, true).(baselines := sys.baselines + {sys.store.nextId})
    case TurnInsert(t, now) =>
      if t !in sys.threads || !sys.threads[t].TurnReady? then sys
      else
        var TurnReady(s, message, repo, snap) := sys.threads[t];
        var done := sys.(threads := sys.threads - {t});
        var last := Latest(sys.store.rows, s);
        if last.Some? && last.value.tree == snap.tree then done
        else Inserted(done, git, s, message, repo, snap, now, true)
    case SafetyInsert(s, message, repo, snap, now) => Inserted(sys, git, s, message, repo, snap, now, false)
    case BootPruneRows(cutoff) =>
      sys.(store := BootPrune(sys.store, sys.cap, cutoff),
           pending := sys.pending + Keys(Victims(sys.store.rows, sys.cap, cutoff)))
    case DetachedDelete(key) =>
      if key !in sys.pending then sys
      else if key.repo in git.repos && key !in git.failing
      then sys.(store := sys.store.(refs := sys.store.refs - {key}), pending := sys.pending - {key})
      else sys.(pending := sys.pending - {key}, leaked := sys.leaked + {key})
    case Configure(cap, enabled) => sys.(cap := cap, enabled := enabled)
  }

  type Run = seq<(Step, Git)>

  function After(sys: System, run: Run): System
    decreases run
  {
    if run == [] then sys else After(Next(sys, run[0].0, run[0].1), run[1..])
  }

  const INITIAL := System(Store([], 1, map[]), 50, true, map[], {}, {}, {})

  // ---- What every step keeps ----

  ghost predicate RowRef(r: Row, refs: map<RefKey, Sha>) {
    r.ref.Some? ==>
      r.ref.value == RefKey(r.repo, r.session, r.id) && r.ref.value in refs && refs[r.ref.value] == r.tree
  }

  ghost predicate Owned(k: RefKey, rows: seq<Row>) {
    exists r <- rows :: r.ref == Some(k)
  }

  /** A baseline row comes before every other row of its session. */
  ghost predicate BaselineFirst(rows: seq<Row>, baselines: set<nat>) {
    forall b <- rows, r <- rows | b.id in baselines && b.session == r.session :: b.id <= r.id
  }

  /** `debt` are the refs that may lack a row: queued for deletion, or out of reach when their row went. */
  ghost predicate Inv(st: Store, debt: set<RefKey>, baselines: set<nat>) {
    && Ordered(st)
    && (forall r <- st.rows :: RowRef(r, st.refs))
    && (forall k <- st.refs.Keys :: k.id < st.nextId && (Owned(k, st.rows) || k in debt))
    && (forall k <- debt :: k.id < st.nextId && forall r <- st.rows :: r.id != k.id)
    && (forall b <- baselines :: b < st.nextId)
    && BaselineFirst(st.rows, baselines)
  }

  ghost predicate Invariant(sys: System) {
    Inv(sys.store, sys.pending + sys.leaked, sys.baselines)
  }

  /** An insert keeps what is kept of rows and refs, whichever ids then count as baselines. */
  lemma InsertKeepsFor(st: Store, debt: set<RefKey>, baselines: set<nat>, baselines1: set<nat>, st1: Store, row: Row)
    requires Inv(st, debt, baselines)
    requires st1.rows == st.rows + [row] && st1.nextId == st.nextId + 1 && row.id == st.nextId
    requires if row.ref.Some? then st1.refs == st.refs[row.ref.value := row.tree] else st1.refs == st.refs
    requires row.ref.Some? ==> row.ref.value == RefKey(row.repo, row.session, row.id)
    requires (forall b <- baselines1 :: b < st1.nextId) && BaselineFirst(st1.rows, baselines1)
    ensures Inv(st1, debt, baselines1)
  {
    forall r | r in st1.rows ensures RowRef(r, st1.refs) && r.id < st1.nextId && (r in st.rows || r == row) {
      assert r in st.rows ==> RowRef(r, st.refs);
    }
    forall k | k in st1.refs.Keys ensures k.id < st1.nextId && (Owned(k, st1.rows) || k in debt) {
    }
  }

  lemma InsertKeeps(st: Store, debt: set<RefKey>, baselines: set<nat>, git: Git, s: Session, message: Option<nat>,
                    repo: Repo, snap: Snapshot, now: int)
    requires Inv(st, debt, baselines)
    ensures Inv(Insert(st, git, s, message, repo, snap, now), debt, baselines)
    ensures Count(st.rows, s) == 0 ==>
      Inv(Insert(st, git, s, message, repo, snap, now), debt, baselines + {st.nextId})
  {
    var st1 := Insert(st, git, s, message, repo, snap, now);
    var row := st1.rows[|st.rows|];
    InsertKeepsFor(st, debt, baselines, baselines, st1, row);
    if Count(st.rows, s) == 0 {
      TurnsAre(st.rows, s);
      assert forall r <- st.rows :: r.session == s ==> r in InSession(st.rows, s);
      InsertKeepsFor(st, debt, baselines, baselines + {st.nextId}, st1, row);
    }
  }

  /** Rows may go when their refs go with them or become debt. */
  lemma RemoveKeeps(st: Store, debt: set<RefKey>, baselines: set<nat>, rows: seq<Row>, gone: set<Row>,
                    dropped: set<RefKey>, debt1: set<RefKey>)
    requires Inv(st, debt, baselines) && Ascending(rows)
    requires forall r :: r in st.rows <==> r in rows || r in gone
    requires forall r <- rows :: r !in gone
    requires forall k <- dropped :: exists r <- gone :: r.ref == Some(k)
    requires forall k <- debt1 :: k in debt || exists r <- gone :: r.ref == Some(k)
    requires debt <= debt1 && forall r <- gone | r.ref.Some? :: r.ref.value in dropped || r.ref.value in debt1
    ensures Inv(Store(rows, st.nextId, st.refs - dropped), debt1, baselines)
  {
    var refs1 := st.refs - dropped;
    forall k, r | r in rows && (k in dropped || k in debt1) ensures r.id != k.id {
      if k !in debt {
        var x :| x in gone && x.ref == Some(k);
        assert x in st.rows && RowRef(x, st.refs);
        if x.id == r.id { SameRow(st.rows, x, r); }
      }
    }
    forall r | r in rows ensures RowRef(r, refs1) {
      assert RowRef(r, st.refs);
    }
    forall k | k in refs1.Keys ensures Owned(k, rows) || k in debt1 {
      if Owned(k, st.rows) {
        var r :| r in st.rows && r.ref == Some(k);
        assert r in rows ==> Owned(k, rows);
      }
    }
    forall k | k in debt1 ensures k.id < st.nextId {
      if k !in debt {
        var x :| x in gone && x.ref == Some(k);
        assert x in st.rows && RowRef(x, st.refs);
      }
    }
  }

  lemma PruneKeeps(st: Store, debt: set<RefKey>, baselines: set<nat>, git: Git, cap: int, s: Session)
    requires Inv(st, debt, baselines)
    ensures Inv(PruneOverCap(st, git, cap, s), debt + Unreached(Pruned(st.rows, git, cap, s), git), baselines)
  {
    var gone := Pruned(st.rows, git, cap, s);
    assert gone == Turns(st.rows, s)[..|gone|];
    DropTurnsKeeps(st.rows, s, |gone|);
    TurnsAre(st.rows, s);
    assert forall r <- gone :: r in Turns(st.rows, s);
    RemoveKeeps(st, debt, baselines, DropTurns(st.rows, s, |gone|), (set r <- gone), RefsOf(gone, git),
                debt + Unreached(gone, git));
  }

  lemma BootPruneKeeps(st: Store, debt: set<RefKey>, baselines: set<nat>, cap: int, cutoff: Option<int>)
    requires Inv(st, debt, baselines)
    ensures Inv(BootPrune(st, cap, cutoff), debt + Keys(Victims(st.rows, cap, cutoff)), baselines)
  {
    var victims := Victims(st.rows, cap, cutoff);
    ExceptAscending(st.rows, Ids(victims));
    BootPruneExact(st, cap, cutoff);
    assert st.refs - {} == st.refs;
    RemoveKeeps(st, debt, baselines, BootPrune(st, cap, cutoff).rows, victims, {}, debt + Keys(victims));
  }

  /** Boot prune keeps exactly the rows that are neither over-cap oldest turns nor stale. */
  lemma BootPruneExact(st: Store, cap: int, cutoff: Option<int>)
    requires Ordered(st)
    ensures forall r :: r in BootPrune(st, cap, cutoff).rows <==> r in st.rows && !Victim(r, st.rows, cap, cutoff)
  {
    var victims := Victims(st.rows, cap, cutoff);
    forall r | r in st.rows ensures r.id in Ids(victims) <==> r in victims {
      if r.id in Ids(victims) {
        var v :| v in victims && v.id == r.id;
        SameRow(st.rows, v, r);
      }
    }
  }

  lemma InsertedKeeps(sys: System, git: Git, s: Session, message: Option<nat>, repo: Repo, snap: Snapshot, now: int,
                      prune: bool)
    requires Invariant(sys)
    ensures var sys1 := Inserted(sys, git, s, message, repo, snap, now, prune);
      && Invariant(sys1)
      && (Count(sys.store.rows, s) == 0 ==> Invariant(sys1.(baselines := sys.baselines + {sys.store.nextId})))
  {
    var debt := sys.pending + sys.leaked;
    var mid := Insert(sys.store, git, s, message, repo, snap, now);
    InsertKeeps(sys.store, debt, sys.baselines, git, s, message, repo, snap, now);
    if prune {
      var lost := Unreached(Pruned(mid.rows, git, sys.cap, s), git);
      assert sys.pending + (sys.leaked + lost) == debt + lost;
      PruneKeeps(mid, debt, sys.baselines, git, sys.cap, s);
      if Count(sys.store.rows, s) == 0 {
        PruneKeeps(mid, debt, sys.baselines + {sys.store.nextId}, git, sys.cap, s);
      }
    }
  }

  lemma DetachedKeeps(sys: System, key: RefKey, git: Git)
    requires Invariant(sys)
    ensures Invariant(Next(sys, DetachedDelete(key), git))
  {
    var sys1 := Next(sys, DetachedDelete(key), git);
    if key in sys.pending && key.repo in git.repos && key !in git.failing {
      if key in sys.leaked {
        assert sys1.pending + sys1.leaked == sys.pending + sys.leaked;
      } else {
        assert sys1.pending + sys1.leaked == sys.pending + sys.leaked - {key};
      }
    } else {
      assert sys1.pending + sys1.leaked == sys.pending + sys.leaked;
    }
  }

  lemma BootKeeps(sys: System, cutoff: Option<int>, git: Git)
    requires Invariant(sys)
    ensures Invariant(Next(sys, BootPruneRows(cutoff), git))
  {
    BootPruneKeeps(sys.store, sys.pending + sys.leaked, sys.baselines, sys.cap, cutoff);
    var keys := Keys(Victims(sys.store.rows, sys.cap, cutoff));
    assert sys.pending + keys + sys.leaked == sys.pending + sys.leaked + keys;
  }

  lemma BaselineInsertKeeps(sys: System, t: nat, now: int, git: Git)
    requires Invariant(sys)
    ensures Invariant(Next(sys, BaselineInsert(t, now), git))
  {
    if t in sys.threads && sys.threads[t].BaselineReady? {
      var p := sys.threads[t];
      InsertedKeeps(sys.(threads := sys.threads - {t}), git, p.session, None, p.repo, p.snap, now, true);
    }
  }

  lemma TurnInsertKeeps(sys: System, t: nat, now: int, git: Git)
    requires Invariant(sys)
    ensures Invariant(Next(sys, TurnInsert(t, now), git))
  {
    if t in sys.threads && sys.threads[t].TurnReady? {
      var p := sys.threads[t];
      InsertedKeeps(sys.(threads := sys.threads - {t}), git, p.session, p.message, p.repo, p.snap, now, true);
    }
  }

  lemma NextKeeps(sys: System, step: Step, git: Git)
    requires Invariant(sys)
    ensures Invariant(Next(sys, step, git))
  {
    match step
    case BaselineInsert(t, now) => BaselineInsertKeeps(sys, t, now, git);
    case TurnInsert(t, now) => TurnInsertKeeps(sys, t, now, git);
    case SafetyInsert(s, message, repo, snap, now) => InsertedKeeps(sys, git, s, message, repo, snap, now, false);
    case BootPruneRows(cutoff) => BootKeeps(sys, cutoff, git);
    case DetachedDelete(key) => DetachedKeeps(sys, key, git);
    case _ =>
      var sys1 := Next(sys, step, git);
      assert sys1.store == sys.store && sys1.pending == sys.pending && sys1.leaked == sys.leaked;
  }

  lemma {:induction false} RunKeeps(sys: System, run: Run)
    requires Invariant(sys)
    ensures Invariant(After(sys, run))
    decreases run
  {
    if run != [] {
      NextKeeps(sys, run[0].0, run[0].1);
      RunKeeps(Next(sys, run[0].0, run[0].1), run[1..]);
    }
  }

  // ---- Main results, over every run ----

  /** However the threads interleave, a session has at most one live row inserted as a baseline, and it is the
      session's oldest row. */
  lemma OneBaseline(run: Run, b: Row, r: Row)
    requires var sys := After(INITIAL, run); b in sys.store.rows && r in sys.store.rows && b.id in sys.baselines
    requires b.session == r.session
    ensures b.id <= r.id
    ensures r.id in After(INITIAL, run).baselines ==> r == b
  {
    RunKeeps(INITIAL, run);
  }

  /** The orphan refs of any reachable state are exactly the refs still queued for detached deletion and those
      whose row went while git could not delete them; every other ref has its live row. */
  lemma OrphansAccounted(run: Run, k: RefKey)
    requires k in After(INITIAL, run).store.refs
    ensures var sys := After(INITIAL, run); !Owned(k, sys.store.rows) <==> k in sys.pending || k in sys.leaked
  {
    RunKeeps(INITIAL, run);
    var sys := After(INITIAL, run);
    if Owned(k, sys.store.rows) {
      var r :| r in sys.store.rows && r.ref == Some(k);
      assert RowRef(r, sys.store.refs);
    }
  }

  /** A live row's ref exists and points at the row's own tree: no prune, detached or not, hits another row's ref. */
  lemma LiveRefsIntact(run: Run, r: Row)
    requires r in After(INITIAL, run).store.rows && r.ref.Some?
    ensures var refs := After(INITIAL, run).store.refs; r.ref.value in refs && refs[r.ref.value] == r.tree
  {
    RunKeeps(INITIAL, run);
    assert RowRef(r, After(INITIAL, run).store.refs);
  }

  /** git can reach the repositories this step may prune in, and a detached deletion it makes succeeds. */
  ghost predicate Reached(sys: System, step: Step, git: Git) {
    match step
    case DetachedDelete(key) => key in sys.pending ==> key.repo in git.repos && key !in git.failing
    case TurnInsert(t, _) =>
      && (forall r <- sys.store.rows :: r.repo in git.repos)
      && (t in sys.threads && sys.threads[t].TurnReady? ==> sys.threads[t].repo in git.repos)
    case _ => true
  }

  ghost predicate AllReached(sys: System, run: Run)
    decreases run
  {
    run != [] ==> Reached(sys, run[0].0, run[0].1) && AllReached(Next(sys, run[0].0, run[0].1), run[1..])
  }

  lemma TurnLeaksNothing(st: Store, git: Git, cap: int, s: Session, message: Option<nat>, repo: Repo, snap: Snapshot,
                         now: int)
    requires repo in git.repos && forall r <- st.rows :: r.repo in git.repos
    ensures Unreached(Pruned(Insert(st, git, s, message, repo, snap, now).rows, git, cap, s), git) == {}
  {
    var mid := Insert(st, git, s, message, repo, snap, now);
    var gone := Pruned(mid.rows, git, cap, s);
    TurnsAre(mid.rows, s);
    assert gone == Turns(mid.rows, s)[..|gone|];
    assert forall r <- gone :: r in Turns(mid.rows, s);
    assert forall r <- mid.rows :: r.repo in git.repos;
  }

  lemma BaselineLeaksNothing(st: Store, git: Git, cap: int, s: Session, repo: Repo, snap: Snapshot, now: int)
    requires Count(st.rows, s) == 0
    ensures Unreached(Pruned(Insert(st, git, s, None, repo, snap, now).rows, git, cap, s), git) == {}
  {
    var mid := Insert(st, git, s, None, repo, snap, now);
    var row := mid.rows[|st.rows|];
    TurnsFewer(st.rows, s);
    Append(st.rows, [row], s);
    assert Turns([row], s) == [];
    assert Turns(mid.rows, s) == [];
  }

  lemma NextLeaks(sys: System, step: Step, git: Git)
    requires Reached(sys, step, git)
    ensures Next(sys, step, git).leaked == sys.leaked
  {
    match step
    case TurnInsert(t, now) =>
      if t in sys.threads && sys.threads[t].TurnReady? {
        var p := sys.threads[t];
        TurnLeaksNothing(sys.store, git, sys.cap, p.session, p.message, p.repo, p.snap, now);
      }
    case BaselineInsert(t, now) =>
      if t in sys.threads && sys.threads[t].BaselineReady? {
        var p := sys.threads[t];
        if Count(sys.store.rows, p.session) == 0 {
          BaselineLeaksNothing(sys.store, git, sys.cap, p.session, p.repo, p.snap, now);
        }
      }
    case _ =>
  }

  /** Ref deletions may fail inline as often as they like: while git reaches the repositories and the detached
      deletions succeed, the only orphan refs are the ones still queued, so a drained queue leaves none. */
  lemma {:induction false} OnlyPendingOrphans(sys: System, run: Run)
    requires AllReached(sys, run)
    ensures After(sys, run).leaked == sys.leaked
    decreases run
  {
    if run != [] {
      NextLeaks(sys, run[0].0, run[0].1);
      OnlyPendingOrphans(Next(sys, run[0].0, run[0].1), run[1..]);
    }
  }

  /** An inline pass strands exactly the refs of the rows it takes whose repository is not a git work tree: of the refs
      left, those lack their row that lacked it before, and those. A failing deletion alone strands nothing: it stops
      the pass. */
  lemma PassOrphansExactly(st: Store, debt: set<RefKey>, baselines: set<nat>, git: Git, cap: int, s: Session, k: RefKey)
    requires Inv(st, debt, baselines)
    ensures k in PruneOverCap(st, git, cap, s).refs ==>
      (!Owned(k, PruneOverCap(st, git, cap, s).rows) <==>
        !Owned(k, st.rows) || k in Unreached(Pruned(st.rows, git, cap, s), git))
  {
    var gone, rows1 := Pruned(st.rows, git, cap, s), PruneOverCap(st, git, cap, s).rows;
    PassTakes(st, git, cap, s);
    if r :| r in gone && r.ref == Some(k) && r.repo !in git.repos {
      assert RowRef(r, st.refs);
      forall x | x in rows1 ensures x.ref != Some(k) {
        assert RowRef(x, st.refs);
        if x.id == r.id { SameRow(st.rows, x, r); }
      }
    }
    if Owned(k, st.rows) && !Owned(k, rows1) {
      var r :| r in st.rows && r.ref == Some(k);
      assert r in gone;
    }
    if Owned(k, rows1) {
      var r :| r in rows1 && r.ref == Some(k);
      assert r in st.rows;
    }
  }

  lemma PassTakes(st: Store, git: Git, cap: int, s: Session)
    requires Ordered(st)
    ensures var gone := Pruned(st.rows, git, cap, s);
      forall r ::
        (r in PruneOverCap(st, git, cap, s).rows <==> r in st.rows && r !in gone) && (r in gone ==> r in st.rows)
  {
    var gone := Pruned(st.rows, git, cap, s);
    assert gone == Turns(st.rows, s)[..|gone|];
    DropTurnsKeeps(st.rows, s, |gone|);
    TurnsAre(st.rows, s);
    assert forall r <- gone :: r in Turns(st.rows, s);
  }

  ghost predicate Reachable(sys: System) {
    exists run :: After(INITIAL, run) == sys
  }

  lemma {:induction false} AfterOne(sys: System, run: Run, step: Step, git: Git)
    ensures After(sys, run + [(step, git)]) == Next(After(sys, run), step, git)
    decreases run
  {
    var last := [(step, git)];
    if run == [] {
      assert run + last == last && last[1..] == [];
    } else {
      assert (run + last)[1..] == run[1..] + last;
      AfterOne(Next(sys, run[0].0, run[0].1), run[1..], step, git);
    }
  }

  lemma ReachNext(sys: System, step: Step, git: Git)
    requires Reachable(sys)
    ensures Reachable(Next(sys, step, git))
  {
    var run :| After(INITIAL, run) == sys;
    AfterOne(INITIAL, run, step, git);
  }

  /** A cap of one, and one turn row with a ref in repository `r`. */
  lemma FirstRow() returns (sys: System)
    ensures Reachable(sys) && sys.cap == 1 && sys.enabled && sys.pending == {} && sys.threads == map[]
    ensures var key := RefKey("r", "s", 1);
      sys.store == Store([Row(1, "s", Some(1), Some(key), "t0", "r", 0)], 2, map[key := "t0"])
  {
    var here := Git({"r"}, {});
    var insert := SafetyInsert("s", Some(1), "r", Snapshot("t0", true), 0);
    assert After(INITIAL, []) == INITIAL;
    ReachNext(INITIAL, Configure(1, true), here);
    var s1 := Next(INITIAL, Configure(1, true), here);
    ReachNext(s1, insert, here);
    sys := Next(s1, insert, here);
  }

  /** A turn checkpoint on its way in repository `q`. */
  lemma TurnOnItsWay(sys: System) returns (end: System)
    requires Reachable(sys) && sys.threads == map[] && sys.enabled
    ensures Reachable(end) && end == sys.(threads := map[0 := TurnReady("s", Some(2), "q", Snapshot("t1", true))])
  {
    var there := Git({"q"}, {});
    var snap := TakeSnapshot(0, Some(Snapshot("t1", true)));
    ReachNext(sys, TurnGate(0, "s", Some(2), "q"), there);
    var s1 := Next(sys, TurnGate(0, "s", Some(2), "q"), there);
    assert s1 == sys.(threads := map[0 := TurnGated("s", Some(2), "q")]);
    ReachNext(s1, snap, there);
    end := Next(s1, snap, there);
    assert end.threads == map[0 := TurnReady("s", Some(2), "q", Snapshot("t1", true))];
  }

  /** A pass at a cap of one over two turn rows of which the first one's repository is gone. */
  lemma TakesFirst(st: Store, first: Row, added: Row, git: Git, s: Session)
    requires st.rows == [first, added] && IsTurn(first, s) && IsTurn(added, s) && first.repo !in git.repos
    ensures PruneOverCap(st, git, 1, s).rows == [added] && PruneOverCap(st, git, 1, s).refs == st.refs
  {
    assert st.rows[1..] == [added] && [added][1..] == [] && [first][1..] == [];
    assert InSession([added], s) == [added] && InSession(st.rows, s) == [first, added];
    assert Turns([added], s) == [added] && Turns(st.rows, s) == [first] + Turns(st.rows[1..], s);
    assert Candidates(st.rows, 1, s) == [first];
    assert Pruned(st.rows, git, 1, s) == [first];
    assert RefsOf([first], git) == {};
    assert DropTurns(st.rows, s, 1) == DropTurns([added], s, 0);
  }

  /** While `r` is gone the new turn's prune takes the old row all the same, and its ref stays behind without a row. */
  lemma PassStrandsRef() returns (sys: System, k: RefKey)
    ensures Reachable(sys) && k in sys.store.refs && !Owned(k, sys.store.rows) && sys.pending == {}
  {
    var there := Git({"q"}, {});
    var alone := FirstRow();
    var s0 := TurnOnItsWay(alone);
    k := RefKey("r", "s", 1);
    var first := s0.store.rows[0];
    assert InSession(s0.store.rows, "s") == [first] by { assert s0.store.rows[1..] == []; }
    var mid := Insert(s0.store, there, "s", Some(2), "q", Snapshot("t1", true), 1);
    TakesFirst(mid, first, mid.rows[1], there, "s");
    ReachNext(s0, TurnInsert(0, 1), there);
    sys := Next(s0, TurnInsert(0, 1), there);
    assert sys.store == PruneOverCap(mid, there, 1, "s");
  }

  lemma NoOrphans(run: Run, k: RefKey)
    requires AllReached(INITIAL, run) && After(INITIAL, run).pending == {}
    requires k in After(INITIAL, run).store.refs
    ensures Owned(k, After(INITIAL, run).store.rows)
  {
    OnlyPendingOrphans(INITIAL, run);
    OrphansAccounted(run, k);
  }
}
