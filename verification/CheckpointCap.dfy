/** Where the per-session cap leads: how fast inline pruning converges, what it may take, and whether a new
    checkpoint survives the pass its own insert triggers. */
module CheckpointCap {
  import opened Options
  import opened CheckpointRows

  function Max(a: int, b: int): int { if a > b then a else b }
  function Min(a: int, b: int): int { if a < b then a else b }

  /** Rows of the session that no pass ever takes: baselines and other rows without a message. */
  function Fixed(rows: seq<Row>, s: Session): int {
    Count(rows, s) - |Turns(rows, s)|
  }

  /** The count a session settles at. */
  function Floor(rows: seq<Row>, cap: int, s: Session): int {
    if Fixed(rows, s) > cap then Fixed(rows, s) else cap
  }

  /** Pruning removes a prefix of the session's turn rows in age order, never more than eight, and nothing else:
      no row without a message, no row of another session. */
  lemma PruneTakesOldestTurns(st: Store, git: Git, cap: int, s: Session)
    requires Ascending(st.rows)
    ensures var gone := Pruned(st.rows, git, cap, s); var st1 := PruneOverCap(st, git, cap, s);
      && |gone| <= MAX_INLINE_PRUNE && gone <= Turns(st.rows, s)
      && (forall r :: r in st1.rows <==> r in st.rows && r !in gone)
      && (forall r <- st.rows :: r.message.None? || r.session != s ==> r in st1.rows)
      && Turns(st1.rows, s) == Turns(st.rows, s)[|gone|..]
      && Count(st1.rows, s) == Count(st.rows, s) - |gone|
      && (forall o | o != s :: InSession(st1.rows, o) == InSession(st.rows, o))
  {
    var gone := Pruned(st.rows, git, cap, s);
    TurnsAre(st.rows, s);
    DropTurnsEffect(st.rows, s, |gone|);
    DropTurnsKeeps(st.rows, s, |gone|);
    assert gone == Turns(st.rows, s)[..|gone|];
  }

  lemma {:induction false} AllDeleted(candidates: seq<Row>, git: Git)
    requires git.failing == {}
    ensures Deleted(candidates, git) == |candidates|
  {
    if candidates != [] { AllDeleted(candidates[1..], git); }
  }

  lemma InsertCounts(st: Store, git: Git, s: Session, message: Option<nat>, repo: Repo, snap: Snapshot, now: int)
    requires Ordered(st)
    ensures var st1 := Insert(st, git, s, message, repo, snap, now); var row := st1.rows[|st.rows|];
      && Ordered(st1) && Count(st1.rows, s) == Count(st.rows, s) + 1
      && Turns(st1.rows, s) == Turns(st.rows, s) + (if message.Some? then [row] else [])
  {
    var st1 := Insert(st, git, s, message, repo, snap, now);
    Append(st.rows, [st1.rows[|st.rows|]], s);
  }

  function NextCount(count: int, floor: int): int {
    if count + 1 <= floor then count + 1
    else if count + 1 - MAX_INLINE_PRUNE > floor then count + 1 - MAX_INLINE_PRUNE
    else floor
  }

  /** The count after a pass while git deletes every ref it is asked to. */
  lemma PassCounts(st: Store, git: Git, cap: int, s: Session)
    requires cap > 0 && git.failing == {}
    ensures var gone := |Pruned(st.rows, git, cap, s)|; var over := Count(st.rows, s) - cap;
      && gone == Max(0, Min(Min(over, MAX_INLINE_PRUNE), |Turns(st.rows, s)|))
      && Count(PruneOverCap(st, git, cap, s).rows, s) == Count(st.rows, s) - gone
      && |Turns(PruneOverCap(st, git, cap, s).rows, s)| == |Turns(st.rows, s)| - gone
  {
    AllDeleted(Candidates(st.rows, cap, s), git);
    DropTurnsTurns(st.rows, s, |Pruned(st.rows, git, cap, s)|);
    DropTurnsCount(st.rows, s, |Pruned(st.rows, git, cap, s)|);
  }

  lemma PassOrders(st: Store, git: Git, cap: int, s: Session)
    requires Ordered(st)
    ensures Ordered(PruneOverCap(st, git, cap, s))
  {
    DropTurnsAscending(st.rows, s, |Pruned(st.rows, git, cap, s)|);
    DropTurnsSubset(st.rows, s, |Pruned(st.rows, git, cap, s)|);
  }

  /** One pruning insert of a turn checkpoint while git deletes every ref it is asked to. */
  lemma PruningInsert(st: Store, git: Git, cap: int, s: Session, message: nat, repo: Repo, snap: Snapshot, now: int)
    requires Ordered(st) && cap > 0 && git.failing == {}
    ensures var st1 := Create(st, git, cap, s, Some(message), repo, snap, now, true);
      && Ordered(st1) && Fixed(st1.rows, s) == Fixed(st.rows, s)
      && Count(st1.rows, s) == NextCount(Count(st.rows, s), Floor(st.rows, cap, s))
  {
    InsertCounts(st, git, s, Some(message), repo, snap, now);
    TurnsFewer(st.rows, s);
    var mid := Insert(st, git, s, Some(message), repo, snap, now);
    PassCounts(mid, git, cap, s);
    PassOrders(mid, git, cap, s);
  }

  /** A turn, with what git does and what the cap is when its checkpoint is inserted. */
  datatype TurnInput = TurnInput(message: nat, repo: Repo, snap: Snapshot, now: int, git: Git, cap: int)

  function InsertOne(st: Store, s: Session, t: TurnInput): Store {
    Create(st, t.git, t.cap, s, Some(t.message), t.repo, t.snap, t.now, true)
  }

  /** One cap for all the turns, and git deletes every ref it is asked to. */
  ghost predicate Steady(turns: seq<TurnInput>, cap: int) {
    cap > 0 && forall t <- turns :: t.cap == cap && t.git.failing == {}
  }

  function InsertTurns(st: Store, s: Session, turns: seq<TurnInput>): Store
    decreases turns
  {
    if turns == [] then st
    else InsertTurns(InsertOne(st, s, turns[0]), s, turns[1..])
  }

  /** After n pruning inserts a session above its floor has shed seven rows per insert, down to the floor and no
      further; a session below it has grown by one per insert, up to the floor and no further. With at most `cap`
      message-less rows the floor is the cap itself. */
  lemma {:induction false} InlinePruneConverges(st: Store, cap: int, s: Session, turns: seq<TurnInput>)
    requires Ordered(st) && Steady(turns, cap)
    ensures var c := Count(st.rows, s); var f := Floor(st.rows, cap, s);
      var c1 := Count(InsertTurns(st, s, turns).rows, s);
      if c >= f then c1 == Max(f, c - 7 * |turns|) else c1 == Min(f, c + |turns|)
    decreases turns
  {
    if turns != [] {
      var t := turns[0];
      PruningInsert(st, t.git, cap, s, t.message, t.repo, t.snap, t.now);
      InlinePruneConverges(InsertOne(st, s, t), cap, s, turns[1..]);
    }
  }

  /** The cap is reached within ceil(excess / 7) pruning inserts. */
  lemma CapReachedInTime(st: Store, cap: int, s: Session, turns: seq<TurnInput>)
    requires Ordered(st) && Steady(turns, cap) && Fixed(st.rows, s) <= cap
    requires |turns| >= (Max(0, Count(st.rows, s) - cap) + 6) / 7
    ensures Count(InsertTurns(st, s, turns).rows, s) <= cap
  {
    InlinePruneConverges(st, cap, s, turns);
  }

  /** A new turn checkpoint outlives the prune of its own insert exactly when enough older turn rows are there to be
      taken instead of it, or git refuses one of them first; `create_checkpoint_inner` reports it as created either
      way. */
  lemma NewTurnSurvives(st: Store, git: Git, cap: int, s: Session, message: nat, repo: Repo, snap: Snapshot, now: int)
    requires Ordered(st)
    ensures var st1 := Create(st, git, cap, s, Some(message), repo, snap, now, true);
      (exists r <- st1.rows :: r.id == st.nextId) <==>
      || cap <= 0 || |Turns(st.rows, s)| >= Min(Count(st.rows, s) + 1 - cap, MAX_INLINE_PRUNE)
      || (exists r <- Turns(st.rows, s) :: !Deletable(r, git))
  {
    var mid := Insert(st, git, s, Some(message), repo, snap, now);
    var added := mid.rows[|st.rows|];
    InsertCounts(st, git, s, Some(message), repo, snap, now);
    NewToTurns(st, s, added);
    NewRowStays(mid, git, cap, s, added);
    var c := Candidates(mid.rows, cap, s);
    NewRowTaken(Turns(st.rows, s), added, c, git);
    assert |c| == |Turns(st.rows, s)| + 1 <==>
      cap > 0 && |Turns(st.rows, s)| < Min(Count(st.rows, s) + 1 - cap, MAX_INLINE_PRUNE);
  }

  lemma NewToTurns(st: Store, s: Session, added: Row)
    requires Ordered(st) && added.id == st.nextId
    ensures added !in Turns(st.rows, s)
  {
    TurnsAre(st.rows, s);
  }

  lemma NewRowTaken(older: seq<Row>, added: Row, candidates: seq<Row>, git: Git)
    requires added !in older && candidates <= older + [added] && Deletable(added, git)
    ensures added in candidates[..Deleted(candidates, git)] <==>
      |candidates| == |older| + 1 && forall r <- older :: Deletable(r, git)
  {
    var k := Deleted(candidates, git);
    LastInPrefix(older, added, candidates[..k]);
    assert forall i | 0 <= i < |candidates| && i < |older| :: candidates[i] == older[i];
    if |candidates| == |older| + 1 {
      assert candidates[|older|] == added;
      assert forall r <- older :: exists i :: 0 <= i < |older| && older[i] == r;
    }
  }

  /** The row under the newest id is there after a prune exactly when the prune did not take it. */
  lemma NewRowStays(st: Store, git: Git, cap: int, s: Session, newest: Row)
    requires Ordered(st) && newest in st.rows
    ensures (exists r <- PruneOverCap(st, git, cap, s).rows :: r.id == newest.id) <==>
      newest !in Pruned(st.rows, git, cap, s)
  {
    PruneTakesOldestTurns(st, git, cap, s);
    var rows := PruneOverCap(st, git, cap, s).rows;
    if r :| r in rows && r.id == newest.id {
      SameRow(st.rows, r, newest);
    }
  }

  lemma {:induction false} DropTurnsAppend(rows: seq<Row>, more: seq<Row>, s: Session, k: nat)
    requires k <= |Turns(rows, s)|
    ensures DropTurns(rows + more, s, k) == DropTurns(rows, s, k) + more
  {
    if rows == [] {
      assert rows + more == more;
    } else if k > 0 {
      assert (rows + more)[1..] == rows[1..] + more;
      DropTurnsAppend(rows[1..], more, s, if IsTurn(rows[0], s) then k - 1 else k);
    }
  }

  lemma LatestAppended(rows: seq<Row>, row: Row)
    ensures Latest(rows + [row], row.session) == Some(row)
  {
    SessionAppend(rows, [row], row.session);
    assert InSession([row], row.session) == [row];
  }

  /** The session's last row is the new one when the prune of its insert left it. */
  lemma NewRowIsLatest(st: Store, git: Git, cap: int, s: Session, row: Row)
    requires row.session == s && |Pruned(st.rows + [row], git, cap, s)| <= |Turns(st.rows, s)|
    ensures Latest(DropTurns(st.rows + [row], s, |Pruned(st.rows + [row], git, cap, s)|), s) == Some(row)
  {
    var k := |Pruned(st.rows + [row], git, cap, s)|;
    DropTurnsAppend(st.rows, [row], s, k);
    LatestAppended(DropTurns(st.rows, s, k), row);
  }

  /** Turn ends at which nothing changed since the last one leave no second checkpoint, whatever their message and
      time, as long as the first one's row outlived its own prune. */
  lemma RepeatedTurnIsSkipped(st: Store, git: Git, cap: int, s: Session, message: Option<nat>, repo: Repo,
                              snap: Snapshot, now: int, message1: Option<nat>, now1: int, git1: Git, cap1: int)
    requires Ordered(st)
    requires var st1 := InsertTurn(st, git, cap, s, message, repo, snap, now);
      st1 == st || exists r <- st1.rows :: r.id == st.nextId
    ensures var st1 := InsertTurn(st, git, cap, s, message, repo, snap, now);
      InsertTurn(st1, git1, cap1, s, message1, repo, snap, now1) == st1
  {
    var last := Latest(st.rows, s);
    if !(last.Some? && last.value.tree == snap.tree) {
      var mid := Insert(st, git, s, message, repo, snap, now);
      var row := mid.rows[|st.rows|];
      InsertCounts(st, git, s, message, repo, snap, now);
      SurvivorsFit(st, mid, git, cap, s, row);
      NewRowIsLatest(st, git, cap, s, row);
    }
  }

  lemma SurvivorsFit(st: Store, mid: Store, git: Git, cap: int, s: Session, row: Row)
    requires Ordered(st) && Ordered(mid) && mid.rows == st.rows + [row] && row.id == st.nextId
    requires Turns(mid.rows, s) == Turns(st.rows, s) + (if row.message.Some? then [row] else [])
    requires exists r <- PruneOverCap(mid, git, cap, s).rows :: r.id == st.nextId
    ensures |Pruned(mid.rows, git, cap, s)| <= |Turns(st.rows, s)|
  {
    NewRowStays(mid, git, cap, s, row);
    var gone := Pruned(mid.rows, git, cap, s);
    NewToTurns(st, s, row);
    LastInPrefix(Turns(st.rows, s), row, gone);
  }

  lemma LastInPrefix(rows: seq<Row>, last: Row, gone: seq<Row>)
    requires last !in rows && gone <= rows + [last]
    ensures last in gone <==> |gone| == |rows| + 1
  {
    if |gone| <= |rows| {
      assert forall i | 0 <= i < |gone| :: gone[i] == rows[i];
    } else {
      assert gone[|rows|] == last;
    }
  }

  /** For instance: at a cap of one, with only the baseline there, the new turn's own insert removes it. */
  lemma CapOneLosesNewTurn()
    ensures exists st: Store, git: Git ::
      && Ordered(st) && Count(st.rows, "s") == 1
      && forall r <- Create(st, git, 1, "s", Some(1), "repo", Snapshot("t", true), 0, true).rows :: r.id != st.nextId
  {
    var git := Git({"repo"}, {});
    var st := Store([Row(1, "s", None, None, "t0", "repo", 0)], 2, map[]);
    assert InSession(st.rows[1..], "s") == [] && Turns(st.rows[1..], "s") == [];
    NewTurnSurvives(st, git, 1, "s", 1, "repo", Snapshot("t", true), 0);
  }

  // ---- How long a row stays ----

  /** What one pruning insert does: the turn rows get a new one last and lose a prefix, and only that. */
  lemma InsertShifts(st: Store, s: Session, t: TurnInput) returns (gone: seq<Row>, row: Row)
    requires Ordered(st)
    ensures var st1 := InsertOne(st, s, t); var all := Turns(st.rows, s) + [row];
      && gone <= all && Turns(st1.rows, s) == all[|gone|..] && Count(st1.rows, s) == Count(st.rows, s) + 1 - |gone|
      && (forall r :: r in st1.rows <==> (r in st.rows || r == row) && r !in gone)
    ensures Ordered(InsertOne(st, s, t)) && row.id == st.nextId
  {
    InsertCounts(st, t.git, s, Some(t.message), t.repo, t.snap, t.now);
    var mid := Insert(st, t.git, s, Some(t.message), t.repo, t.snap, t.now);
    gone, row := Pruned(mid.rows, t.git, t.cap, s), mid.rows[|st.rows|];
    assert mid.rows == st.rows + [row];
    PruneTakesOldestTurns(mid, t.git, t.cap, s);
    PassOrders(mid, t.git, t.cap, s);
  }

  lemma {:induction false} NothingReturns(st: Store, s: Session, turns: seq<TurnInput>, r: Row)
    requires Ordered(st) && r.id < st.nextId && r !in st.rows
    ensures r !in InsertTurns(st, s, turns).rows
    decreases turns
  {
    if turns != [] {
      var gone, row := InsertShifts(st, s, turns[0]);
      NothingReturns(InsertOne(st, s, turns[0]), s, turns[1..], r);
    }
  }

  /** How many rows of the session these inserts have taken. */
  function Lost(st: Store, s: Session, turns: seq<TurnInput>): int {
    Count(st.rows, s) + |turns| - Count(InsertTurns(st, s, turns).rows, s)
  }

  /** The first of several pruning inserts. */
  lemma FirstInsert(st: Store, s: Session, turns: seq<TurnInput>) returns (st1: Store, gone: seq<Row>)
    requires Ordered(st) && turns != []
    ensures st1 == InsertOne(st, s, turns[0]) && Ordered(st1)
    ensures InsertTurns(st, s, turns) == InsertTurns(st1, s, turns[1..])
    ensures Lost(st, s, turns) == |gone| + Lost(st1, s, turns[1..])
    ensures forall p, r | 0 <= p < |Turns(st.rows, s)| && r == Turns(st.rows, s)[p] :: Moved(st1, s, |gone|, p, r)
  {
    TurnsAre(st.rows, s);
    var row;
    st1 := InsertOne(st, s, turns[0]);
    gone, row := InsertShifts(st, s, turns[0]);
    forall p, r | 0 <= p < |Turns(st.rows, s)| && r == Turns(st.rows, s)[p] ensures Moved(st1, s, |gone|, p, r) {
      assert r in Turns(st.rows, s);
      if p < |gone| { assert gone[p] == r; }
    }
  }

  /** Where a prune that took `k` rows leaves the turn row with `p` older ones: `k` places on, or gone. */
  ghost predicate Moved(st1: Store, s: Session, k: nat, p: nat, r: Row) {
    && r.id < st1.nextId
    && if k <= p then p - k < |Turns(st1.rows, s)| && Turns(st1.rows, s)[p - k] == r else r !in st1.rows
  }

  /** The count never exceeds what the inserts have put in. */
  lemma {:induction false} CountBounded(st: Store, s: Session, turns: seq<TurnInput>)
    requires Ordered(st)
    ensures Lost(st, s, turns) >= 0
    decreases turns
  {
    if turns != [] {
      var st1, gone := FirstInsert(st, s, turns);
      CountBounded(st1, s, turns[1..]);
    }
  }

  /** The turn row with `p` older ones before it outlives any number of pruning inserts exactly while they have taken
      no more than `p` rows, whatever the cap and git do from turn to turn. */
  lemma {:induction false} TurnOutlives(st: Store, s: Session, turns: seq<TurnInput>, p: nat, r: Row)
    requires Ordered(st) && p < |Turns(st.rows, s)| && r == Turns(st.rows, s)[p]
    ensures r in InsertTurns(st, s, turns).rows <==> Lost(st, s, turns) <= p
    decreases turns
  {
    if turns == [] {
      TurnsAre(st.rows, s);
      assert r in Turns(st.rows, s);
    } else {
      var st1, gone := FirstInsert(st, s, turns);
      assert Moved(st1, s, |gone|, p, r);
      if |gone| <= p {
        TurnOutlives(st1, s, turns[1..], p - |gone|, r);
      } else {
        NothingReturns(st1, s, turns[1..], r);
        CountBounded(st1, s, turns[1..]);
      }
    }
  }

  /** How many rows pruning inserts take of a session that starts at `count` rows and settles at `floor`, under one cap
      and while git deletes every ref. */
  function Taken(count: int, floor: int, n: nat): int {
    if count >= floor then Min(count - floor + n, MAX_INLINE_PRUNE * n) else Max(0, count + n - floor)
  }

  lemma TakenIs(st: Store, cap: int, s: Session, turns: seq<TurnInput>)
    requires Ordered(st) && Steady(turns, cap)
    ensures Lost(st, s, turns) == Taken(Count(st.rows, s), Floor(st.rows, cap, s), |turns|)
  {
    InlinePruneConverges(st, cap, s, turns);
  }

  /** A row without a message outlives them all. */
  lemma {:induction false} MessagelessOutlives(st: Store, s: Session, turns: seq<TurnInput>, r: Row)
    requires Ordered(st) && r in st.rows && r.message.None?
    ensures r in InsertTurns(st, s, turns).rows
    decreases turns
  {
    if turns != [] {
      var t := turns[0];
      InsertCounts(st, t.git, s, Some(t.message), t.repo, t.snap, t.now);
      var mid := Insert(st, t.git, s, Some(t.message), t.repo, t.snap, t.now);
      PruneTakesOldestTurns(mid, t.git, t.cap, s);
      PassOrders(mid, t.git, t.cap, s);
      MessagelessOutlives(InsertOne(st, s, t), s, turns[1..], r);
    }
  }

  lemma {:induction false} InsertTurnsOrders(st: Store, s: Session, turns: seq<TurnInput>)
    requires Ordered(st)
    ensures Ordered(InsertTurns(st, s, turns))
    decreases turns
  {
    if turns != [] {
      var gone, row := InsertShifts(st, s, turns[0]);
      InsertTurnsOrders(InsertOne(st, s, turns[0]), s, turns[1..]);
    }
  }
}
