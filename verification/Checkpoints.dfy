/** Checkpoint rows and hidden refs as values, and what each locked section of `checkpoints.rs` does to them.

    The database is the row list in id order; ids come from AUTOINCREMENT and are never reused. `refs` holds the
    hidden refs, named by repository, session and row id, each pointing at a commit of one tree. A working tree
    is identified with the hash its snapshot gets. */
module CheckpointRows {
  import opened Options

  type Session = string
  type Repo = string
  type Sha = string

  datatype RefKey = RefKey(repo: Repo, session: Session, id: nat)
  datatype Row = Row(id: nat, session: Session, message: Option<nat>, ref: Option<RefKey>, tree: Sha, repo: Repo,
                     createdAt: int)
  datatype Store = Store(rows: seq<Row>, nextId: nat, refs: map<RefKey, Sha>)

  /** A working-tree snapshot; `committed` is false only when no commit object was written. */
  datatype Snapshot = Snapshot(tree: Sha, committed: bool)

  /** What git would do at this moment: the directories that are work trees, and the refs it fails on. */
  datatype Git = Git(repos: set<Repo>, failing: set<RefKey>)

  const MAX_INLINE_PRUNE: int := 8

  // ---- Queries (db/checkpoints.rs) ----

  predicate IsTurn(r: Row, s: Session) {
    r.session == s && r.message.Some?
  }

  function InSession(rows: seq<Row>, s: Session): seq<Row> {
    if rows == [] then []
    else (if rows[0].session == s then [rows[0]] else []) + InSession(rows[1..], s)
  }

  /** `message_id IS NOT NULL ORDER BY id ASC`. */
  function Turns(rows: seq<Row>, s: Session): seq<Row> {
    if rows == [] then []
    else (if IsTurn(rows[0], s) then [rows[0]] else []) + Turns(rows[1..], s)
  }

  function Count(rows: seq<Row>, s: Session): nat {
    |InSession(rows, s)|
  }

  function Limit(rows: seq<Row>, n: int): seq<Row>
    requires n >= 0
  {
    if |rows| <= n then rows else rows[..n]
  }

  function Latest(rows: seq<Row>, s: Session): Option<Row> {
    var mine := InSession(rows, s);
    if mine == [] then None else Some(mine[|mine| - 1])
  }

  function Find(rows: seq<Row>, id: nat): (r: Option<Row>)
    ensures r.Some? ==> r.value in rows && r.value.id == id
    ensures r.None? ==> forall x <- rows :: x.id != id
  {
    if rows == [] then None else if rows[0].id == id then Some(rows[0]) else Find(rows[1..], id)
  }

  function Without(rows: seq<Row>, id: nat): seq<Row> {
    if rows == [] then [] else (if rows[0].id == id then [] else [rows[0]]) + Without(rows[1..], id)
  }

  /** The rows without the `k` oldest turn rows of `s`. */
  function DropTurns(rows: seq<Row>, s: Session, k: nat): seq<Row> {
    if rows == [] || k == 0 then rows
    else if IsTurn(rows[0], s) then DropTurns(rows[1..], s, k - 1)
    else [rows[0]] + DropTurns(rows[1..], s, k)
  }

  // ---- Row lists in id order ----

  ghost predicate Ascending(rows: seq<Row>) {
    forall i, j | 0 <= i < j < |rows| :: rows[i].id < rows[j].id
  }

  ghost predicate Ordered(st: Store) {
    Ascending(st.rows) && forall r <- st.rows :: r.id < st.nextId
  }

  lemma AscendingTail(rows: seq<Row>)
    requires Ascending(rows) && rows != []
    ensures Ascending(rows[1..]) && forall r <- rows[1..] :: rows[0].id < r.id
  {
  }

  lemma SameRow(rows: seq<Row>, a: Row, b: Row)
    requires Ascending(rows) && a in rows && b in rows && a.id == b.id
    ensures a == b
  {
    var i :| 0 <= i < |rows| && rows[i] == a;
    var j :| 0 <= j < |rows| && rows[j] == b;
  }

  lemma {:induction false} TurnsAre(rows: seq<Row>, s: Session)
    ensures forall r :: r in Turns(rows, s) <==> r in rows && IsTurn(r, s)
    ensures forall r :: r in InSession(rows, s) <==> r in rows && r.session == s
  {
    if rows != [] {
      TurnsAre(rows[1..], s);
      assert rows == [rows[0]] + rows[1..];
    }
  }

  lemma {:induction false} TurnsFewer(rows: seq<Row>, s: Session)
    ensures |Turns(rows, s)| <= Count(rows, s)
  {
    if rows != [] { TurnsFewer(rows[1..], s); }
  }

  lemma {:induction false} SessionAppend(a: seq<Row>, b: seq<Row>, s: Session)
    ensures InSession(a + b, s) == InSession(a, s) + InSession(b, s)
  {
    if a == [] {
      assert a + b == b;
    } else {
      assert (a + b)[1..] == a[1..] + b;
      SessionAppend(a[1..], b, s);
      if a[0].session == s {
        assert InSession(a + b, s) == [a[0]] + (InSession(a[1..], s) + InSession(b, s));
      } else {
        assert InSession(a + b, s) == InSession(a[1..], s) + InSession(b, s);
      }
    }
  }

  lemma {:induction false} TurnsAppend(a: seq<Row>, b: seq<Row>, s: Session)
    ensures Turns(a + b, s) == Turns(a, s) + Turns(b, s)
  {
    if a == [] {
      assert a + b == b;
    } else {
      assert (a + b)[1..] == a[1..] + b;
      TurnsAppend(a[1..], b, s);
      if IsTurn(a[0], s) {
        assert Turns(a + b, s) == [a[0]] + (Turns(a[1..], s) + Turns(b, s));
      } else {
        assert Turns(a + b, s) == Turns(a[1..], s) + Turns(b, s);
      }
    }
  }

  lemma Append(a: seq<Row>, b: seq<Row>, s: Session)
    ensures InSession(a + b, s) == InSession(a, s) + InSession(b, s)
    ensures Turns(a + b, s) == Turns(a, s) + Turns(b, s)
  {
    SessionAppend(a, b, s);
    TurnsAppend(a, b, s);
  }

  lemma {:induction false} DropTurnsTurns(rows: seq<Row>, s: Session, k: nat)
    requires k <= |Turns(rows, s)|
    ensures Turns(DropTurns(rows, s, k), s) == Turns(rows, s)[k..]
  {
    if rows != [] && k > 0 {
      var rest := rows[1..];
      if IsTurn(rows[0], s) {
        DropTurnsTurns(rest, s, k - 1);
        assert Turns(rows, s)[k..] == Turns(rest, s)[k - 1..];
      } else {
        DropTurnsTurns(rest, s, k);
        TurnsAppend([rows[0]], DropTurns(rest, s, k), s);
        assert Turns([rows[0]], s) == [];
      }
    }
  }

  lemma {:induction false} DropTurnsCount(rows: seq<Row>, s: Session, k: nat)
    requires k <= |Turns(rows, s)|
    ensures Count(DropTurns(rows, s, k), s) == Count(rows, s) - k
  {
    if rows != [] && k > 0 {
      var rest := rows[1..];
      if IsTurn(rows[0], s) {
        DropTurnsCount(rest, s, k - 1);
      } else {
        DropTurnsCount(rest, s, k);
        assert DropTurns(rows, s, k)[1..] == DropTurns(rest, s, k);
      }
    }
  }

  lemma {:induction false} DropTurnsOthers(rows: seq<Row>, s: Session, k: nat, o: Session)
    requires o != s
    ensures InSession(DropTurns(rows, s, k), o) == InSession(rows, o)
  {
    if rows != [] && k > 0 {
      var rest := rows[1..];
      if IsTurn(rows[0], s) {
        DropTurnsOthers(rest, s, k - 1, o);
      } else {
        DropTurnsOthers(rest, s, k, o);
        assert DropTurns(rows, s, k)[1..] == DropTurns(rest, s, k);
      }
    }
  }

  /** Removing the first `k` turn rows of one session, seen by every query. */
  lemma DropTurnsEffect(rows: seq<Row>, s: Session, k: nat)
    requires k <= |Turns(rows, s)|
    ensures Turns(DropTurns(rows, s, k), s) == Turns(rows, s)[k..]
    ensures Count(DropTurns(rows, s, k), s) == Count(rows, s) - k
    ensures forall o | o != s :: InSession(DropTurns(rows, s, k), o) == InSession(rows, o)
  {
    DropTurnsTurns(rows, s, k);
    DropTurnsCount(rows, s, k);
    forall o | o != s ensures InSession(DropTurns(rows, s, k), o) == InSession(rows, o) {
      DropTurnsOthers(rows, s, k, o);
    }
  }

  lemma {:induction false} DropTurnsSubset(rows: seq<Row>, s: Session, k: nat)
    ensures forall r <- DropTurns(rows, s, k) :: r in rows
  {
    if rows != [] && k > 0 { DropTurnsSubset(rows[1..], s, if IsTurn(rows[0], s) then k - 1 else k); }
  }

  lemma {:induction false} DropTurnsAscending(rows: seq<Row>, s: Session, k: nat)
    requires Ascending(rows)
    ensures Ascending(DropTurns(rows, s, k))
  {
    if rows != [] && k > 0 {
      AscendingTail(rows);
      if IsTurn(rows[0], s) {
        DropTurnsAscending(rows[1..], s, k - 1);
      } else {
        DropTurnsAscending(rows[1..], s, k);
        DropTurnsSubset(rows[1..], s, k);
      }
    }
  }

  lemma {:induction false} DropTurnsMembers(rows: seq<Row>, s: Session, k: nat, r: Row)
    requires Ascending(rows) && k <= |Turns(rows, s)|
    ensures r in DropTurns(rows, s, k) <==> r in rows && r !in Turns(rows, s)[..k]
  {
    if rows != [] && k > 0 {
      var first, rest := rows[0], rows[1..];
      AscendingTail(rows);
      assert rows == [first] + rest;
      if IsTurn(first, s) {
        DropTurnsMembers(rest, s, k - 1, r);
        assert Turns(rows, s)[..k] == [first] + Turns(rest, s)[..k - 1];
      } else {
        DropTurnsMembers(rest, s, k, r);
        assert DropTurns(rows, s, k) == [first] + DropTurns(rest, s, k);
        assert first !in Turns(rest, s)[..k] by { TurnsAre(rest, s); TakenIn(Turns(rest, s), k, first); }
        assert Turns(rows, s) == Turns(rest, s);
      }
    }
  }

  lemma TakenIn(rows: seq<Row>, k: nat, r: Row)
    requires k <= |rows| && r !in rows
    ensures r !in rows[..k]
  {
  }

  lemma DropTurnsKeeps(rows: seq<Row>, s: Session, k: nat)
    requires Ascending(rows) && k <= |Turns(rows, s)|
    ensures Ascending(DropTurns(rows, s, k))
    ensures forall r :: r in DropTurns(rows, s, k) <==> r in rows && r !in Turns(rows, s)[..k]
  {
    DropTurnsAscending(rows, s, k);
    forall r ensures r in DropTurns(rows, s, k) <==> r in rows && r !in Turns(rows, s)[..k] {
      DropTurnsMembers(rows, s, k, r);
    }
  }

  /** Deleting by id the next turn row is dropping one more. */
  lemma {:induction false} DropOneMore(rows: seq<Row>, s: Session, k: nat)
    requires Ascending(rows) && k < |Turns(rows, s)|
    ensures Without(DropTurns(rows, s, k), Turns(rows, s)[k].id) == DropTurns(rows, s, k + 1)
  {
    var rest := rows[1..];
    AscendingTail(rows);
    if IsTurn(rows[0], s) {
      assert Turns(rows, s) == [rows[0]] + Turns(rest, s);
      if k == 0 {
        WithoutAbsent(rest, rows[0].id);
      } else {
        DropOneMore(rest, s, k - 1);
      }
    } else {
      var next := Turns(rest, s)[k];
      assert Turns(rows, s) == Turns(rest, s);
      TurnsAre(rest, s);
      assert next in rest;
      DropOneMore(rest, s, k);
      var cut := DropTurns(rest, s, k);
      assert DropTurns(rows, s, k) == [rows[0]] + cut;
      assert ([rows[0]] + cut)[1..] == cut;
    }
  }

  lemma {:induction false} WithoutAbsent(rows: seq<Row>, id: nat)
    requires forall r <- rows :: r.id != id
    ensures Without(rows, id) == rows
  {
    if rows != [] { WithoutAbsent(rows[1..], id); }
  }

  lemma {:induction false} WithoutKeeps(rows: seq<Row>, id: nat)
    ensures forall r :: r in Without(rows, id) <==> r in rows && r.id != id
    ensures Ascending(rows) ==> Ascending(Without(rows, id))
  {
    if rows != [] {
      WithoutKeeps(rows[1..], id);
      assert rows == [rows[0]] + rows[1..];
    }
  }

  // ---- Inline pruning ----

  /** A row the prune can take: it has no ref, its repository is gone, or git deletes its ref. */
  predicate Deletable(r: Row, git: Git) {
    r.ref.None? || r.repo !in git.repos || r.ref.value !in git.failing
  }

  /** How many candidates go before the first one git refuses. */
  function Deleted(candidates: seq<Row>, git: Git): (k: nat)
    ensures k <= |candidates|
    ensures forall i | 0 <= i < k :: Deletable(candidates[i], git)
    ensures k < |candidates| ==> !Deletable(candidates[k], git)
  {
    if candidates == [] || !Deletable(candidates[0], git) then 0 else 1 + Deleted(candidates[1..], git)
  }

  /** The refs that go with these rows: those git can reach. */
  function RefsOf(rows: seq<Row>, git: Git): (keys: set<RefKey>)
    ensures forall k :: k in keys <==> exists r <- rows :: r.ref == Some(k) && r.repo in git.repos
  {
    set r <- rows | r.ref.Some? && r.repo in git.repos :: r.ref.value
  }

  /** The candidates of one inline pass: the oldest turn rows over the cap, at most eight. */
  function Candidates(rows: seq<Row>, cap: int, s: Session): (c: seq<Row>)
    ensures |c| <= MAX_INLINE_PRUNE && c <= Turns(rows, s)
  {
    var over := Count(rows, s) - cap;
    if cap <= 0 || over <= 0 then []
    else Limit(Turns(rows, s), if over < MAX_INLINE_PRUNE then over else MAX_INLINE_PRUNE)
  }

  /** The rows one inline pass takes. */
  function Pruned(rows: seq<Row>, git: Git, cap: int, s: Session): seq<Row> {
    var c := Candidates(rows, cap, s);
    c[..Deleted(c, git)]
  }

  /** `prune_over_cap`. */
  function PruneOverCap(st: Store, git: Git, cap: int, s: Session): Store {
    var gone := Pruned(st.rows, git, cap, s);
    st.(rows := DropTurns(st.rows, s, |gone|), refs := st.refs - RefsOf(gone, git))
  }

  lemma NothingPruned(st: Store, git: Git, cap: int, s: Session)
    requires Candidates(st.rows, cap, s) == []
    ensures PruneOverCap(st, git, cap, s) == st
  {
    NothingShed(st, [], s, git);
  }

  lemma RefsOfOneMore(rows: seq<Row>, i: nat, git: Git)
    requires i < |rows|
    ensures RefsOf(rows[..i + 1], git) == RefsOf(rows[..i], git) + RefsOf([rows[i]], git)
  {
    assert rows[..i + 1] == rows[..i] + [rows[i]];
  }

  /** A row gone with the ref git can reach. */
  function Delete(st: Store, ckpt: Row, git: Git): Store {
    st.(rows := Without(st.rows, ckpt.id), refs := st.refs - RefsOf([ckpt], git))
  }

  /** The store after `i` of the candidates, the oldest turn rows of `s`, are gone. */
  function Shed(st: Store, candidates: seq<Row>, i: nat, s: Session, git: Git): Store
    requires i <= |candidates|
  {
    st.(rows := DropTurns(st.rows, s, i), refs := st.refs - RefsOf(candidates[..i], git))
  }

  lemma NothingShed(st: Store, candidates: seq<Row>, s: Session, git: Git)
    ensures Shed(st, candidates, 0, s, git) == st
  {
    assert st.refs - RefsOf([], git) == st.refs;
  }

  /** One iteration of the deletion loop. */
  lemma OneMoreDeleted(st: Store, candidates: seq<Row>, i: nat, s: Session, git: Git)
    requires Ascending(st.rows) && candidates <= Turns(st.rows, s) && i < |candidates|
    ensures Delete(Shed(st, candidates, i, s, git), candidates[i], git) == Shed(st, candidates, i + 1, s, git)
  {
    DropOneMore(st.rows, s, i);
    RefsOfOneMore(candidates, i, git);
    assert st.refs - RefsOf(candidates[..i], git) - RefsOf([candidates[i]], git)
      == st.refs - RefsOf(candidates[..i + 1], git);
  }

  // ---- Inserting ----

  /** The insert half of `create_checkpoint_inner`: the row, then its ref when git can write it. */
  function Insert(st: Store, git: Git, s: Session, message: Option<nat>, repo: Repo, snap: Snapshot, now: int): Store {
    var key := RefKey(repo, s, st.nextId);
    var wrote := snap.committed && repo in git.repos && key !in git.failing;
    Store(st.rows + [Row(st.nextId, s, message, if wrote then Some(key) else None, snap.tree, repo, now)],
          st.nextId + 1,
          if wrote then st.refs[key := snap.tree] else st.refs)
  }

  /** `create_checkpoint_inner`. */
  function Create(st: Store, git: Git, cap: int, s: Session, message: Option<nat>, repo: Repo, snap: Snapshot,
                  now: int, prune: bool): Store
  {
    var st1 := Insert(st, git, s, message, repo, snap, now);
    if prune then PruneOverCap(st1, git, cap, s) else st1
  }

  /** `insert_baseline`: the count gate is checked again under the lock. */
  function InsertBaseline(st: Store, git: Git, cap: int, s: Session, repo: Repo, snap: Snapshot, now: int): Store {
    if Count(st.rows, s) > 0 then st else Create(st, git, cap, s, None, repo, snap, now, true)
  }

  /** `after_turn_insert`: skipped when the tree is that of the session's last checkpoint. */
  function InsertTurn(st: Store, git: Git, cap: int, s: Session, message: Option<nat>, repo: Repo, snap: Snapshot,
                      now: int): Store
  {
    var last := Latest(st.rows, s);
    if last.Some? && last.value.tree == snap.tree then st
    else Create(st, git, cap, s, message, repo, snap, now, true)
  }

  // ---- Boot pruning ----

  /** A row the boot prune removes: among the over-cap oldest turns of its session, or older than the cutoff. */
  predicate Victim(r: Row, rows: seq<Row>, cap: int, cutoff: Option<int>) {
    || (cap > 0 && Count(rows, r.session) > cap && r in Limit(Turns(rows, r.session), Count(rows, r.session) - cap))
    || (cutoff.Some? && r.createdAt < cutoff.value)
  }

  function Except(rows: seq<Row>, ids: set<nat>): (r: seq<Row>)
    ensures forall x :: x in r <==> x in rows && x.id !in ids
  {
    if rows == [] then []
    else
      assert rows == [rows[0]] + rows[1..];
      (if rows[0].id in ids then [] else [rows[0]]) + Except(rows[1..], ids)
  }

  lemma {:induction false} ExceptNone(rows: seq<Row>)
    ensures Except(rows, {}) == rows
  {
    if rows != [] { ExceptNone(rows[1..]); }
  }

  lemma {:induction false} ExceptOneMore(rows: seq<Row>, ids: set<nat>, id: nat)
    ensures Without(Except(rows, ids), id) == Except(rows, ids + {id})
  {
    if rows != [] {
      var r, kept := rows[0], Except(rows[1..], ids);
      ExceptOneMore(rows[1..], ids, id);
      if r.id in ids {
        assert Except(rows, ids) == kept && Except(rows, ids + {id}) == Except(rows[1..], ids + {id});
      } else {
        assert Except(rows, ids) == [r] + kept;
        assert ([r] + kept)[1..] == kept;
        assert Without([r] + kept, id) == (if r.id == id then [] else [r]) + Without(kept, id);
      }
    }
  }

  lemma {:induction false} ExceptAscending(rows: seq<Row>, ids: set<nat>)
    requires Ascending(rows)
    ensures Ascending(Except(rows, ids))
  {
    if rows != [] {
      ExceptAscending(rows[1..], ids);
      assert forall r <- rows[1..] :: rows[0].id < r.id;
    }
  }

  function Victims(rows: seq<Row>, cap: int, cutoff: Option<int>): set<Row> {
    set r <- rows | Victim(r, rows, cap, cutoff)
  }

  function Ids(rs: set<Row>): set<nat> {
    set r <- rs :: r.id
  }

  function IdsOf(rs: seq<Row>): set<nat> {
    set r <- rs :: r.id
  }

  lemma IdsOfOneMore(rs: seq<Row>, i: nat)
    requires i < |rs|
    ensures IdsOf(rs[..i + 1]) == IdsOf(rs[..i]) + {rs[i].id}
  {
    assert rs[..i + 1] == rs[..i] + [rs[i]];
  }

  function Keys(rs: set<Row>): set<RefKey> {
    set r <- rs | r.ref.Some? :: r.ref.value
  }

  /** The database half of `boot_prune`; the refs are left to the detached thread. */
  function BootPrune(st: Store, cap: int, cutoff: Option<int>): Store {
    st.(rows := Except(st.rows, Ids(Victims(st.rows, cap, cutoff))))
  }
}
