/** Restoring: a safety row of the current tree first, then the checkout, then the optional conversation rollback.
    Restores are undoable through their safety rows; conversations only when nothing was rolled back. */
module CheckpointRestores {
  import opened Options
  import opened CheckpointRows
  import opened CheckpointCap
  import opened CheckpointStores
  import opened CheckpointProtocol

  /** The store, the working trees that exist, and the message ids (from 1) of each conversation. */
  datatype World = World(store: Store, trees: map<Repo, Sha>, messages: map<Session, set<nat>>)

  /** How the git half of a restore goes; a failing checkout may leave any tree behind. */
  datatype Fate = SnapshotFails | CheckoutFails(left: Sha) | Works

  datatype Outcome = NotFound | RepoGone | SnapshotFailed | CheckoutFailed | Restored(safety: nat, deleted: nat)

  datatype Request = Request(id: nat, rollback: bool, fate: Fate, failing: set<RefKey>, now: int)

  function Messages(w: World, s: Session): set<nat> {
    if s in w.messages then w.messages[s] else {}
  }

  /** `delete_chat_messages_after`: keep ids up to the bound, nothing when there is none. */
  function RollBack(messages: set<nat>, bound: Option<nat>): set<nat> {
    if bound.None? then {} else set m <- messages | m <= bound.value
  }

  ghost predicate IsHighWater(messages: set<nat>, mark: Option<nat>) {
    && (mark.None? <==> messages == {})
    && (mark.Some? ==> mark.value in messages && forall m <- messages :: m <= mark.value)
  }

  /** `COALESCE(MAX(id), 0)`, with 0 read as no message. */
  function HighWater(messages: set<nat>): (mark: Option<nat>)
    ensures IsHighWater(messages, mark)
  {
    if messages == {} then None
    else
      Greatest(messages);
      var m :| m in messages && forall x <- messages :: x <= m;
      Some(m)
  }

  ghost predicate IsGreatest(s: set<nat>, m: nat) {
    m in s && forall x <- s :: x <= m
  }

  lemma {:induction false} Greatest(s: set<nat>)
    requires s != {}
    ensures exists m <- s :: forall x <- s :: x <= m
  {
    var a :| a in s;
    var rest := s - {a};
    if rest == {} {
      assert forall x <- s :: x == a || x in rest;
      assert IsGreatest(s, a);
    } else {
      Greatest(rest);
      var m :| m in rest && forall x <- rest :: x <= m;
      OneMore(s, rest, a, m);
    }
  }

  lemma OneMore(s: set<nat>, rest: set<nat>, a: nat, m: nat)
    requires a in s && rest == s - {a} && IsGreatest(rest, m)
    ensures IsGreatest(s, if a > m then a else m)
  {
    forall x | x in s ensures x == a || x in rest {
    }
  }

  /** `restore`. */
  function AfterRestore(w: World, r: Request): (World, Outcome) {
    var found := Find(w.store.rows, r.id);
    if found.None? then (w, NotFound)
    else
      var ckpt := found.value;
      if ckpt.repo !in w.trees then (w, RepoGone)
      else if r.fate.SnapshotFails? then (w, SnapshotFailed)
      else
        var messages := Messages(w, ckpt.session);
        var git := Git(w.trees.Keys, r.failing);
        var snap := Snapshot(w.trees[ckpt.repo], true);
        var store := Insert(w.store, git, ckpt.session, HighWater(messages), ckpt.repo, snap, r.now);
        if r.fate.CheckoutFails? then
          (World(store, w.trees[ckpt.repo := r.fate.left], w.messages), CheckoutFailed)
        else
          var kept := RollBack(messages, ckpt.message);
          (World(store, w.trees[ckpt.repo := ckpt.tree],
                 if r.rollback then w.messages[ckpt.session := kept] else w.messages),
           Restored(w.store.nextId, if r.rollback then |messages - kept| else 0))
  }

  // ---- Rows ----

  lemma {:induction false} FindExtends(rows: seq<Row>, more: seq<Row>, id: nat)
    ensures Find(rows, id).Some? ==> Find(rows + more, id) == Find(rows, id)
    ensures Find(rows, id).None? ==> Find(rows + more, id) == Find(more, id)
  {
    if rows == [] {
      assert rows + more == more;
    } else {
      assert (rows + more)[1..] == rows[1..] + more;
      FindExtends(rows[1..], more, id);
    }
  }

  lemma InsertFinds(st: Store, git: Git, s: Session, message: Option<nat>, repo: Repo, snap: Snapshot, now: int)
    requires Ordered(st)
    ensures var st1 := Insert(st, git, s, message, repo, snap, now);
      Ordered(st1) && st.rows <= st1.rows && Find(st1.rows, st.nextId) == Some(st1.rows[|st.rows|])
  {
    FindExtends(st.rows, [Insert(st, git, s, message, repo, snap, now).rows[|st.rows|]], st.nextId);
  }

  /** A row that puts the trees and, as far as it goes, the conversation of `w` back. */
  ghost predicate Safety(w: World, ckpt: Row, safety: Option<Row>) {
    && ckpt.repo in w.trees && safety.Some?
    && safety.value.session == ckpt.session && safety.value.repo == ckpt.repo && safety.value.tree == w.trees[ckpt.repo]
    && safety.value.message == HighWater(Messages(w, ckpt.session))
  }

  /** No restore deletes a checkpoint: the table only grows, by the safety row, which holds the tree as it was. */
  lemma RestoreOnlyAdds(w: World, r: Request)
    requires Ordered(w.store)
    ensures var (w1, o) := AfterRestore(w, r); var found := Find(w.store.rows, r.id);
      && w.store.rows <= w1.store.rows && Ordered(w1.store)
      && (o.Restored? || o.CheckoutFailed? ==>
            found.Some? && Safety(w, found.value, Find(w1.store.rows, w.store.nextId)))
      && (o.Restored? ==> o.safety == w.store.nextId)
      && (!o.Restored? && !o.CheckoutFailed? ==> w1 == w)
  {
    var (w1, o) := AfterRestore(w, r);
    if o.Restored? || o.CheckoutFailed? {
      var ckpt := Find(w.store.rows, r.id).value;
      InsertFinds(w.store, Git(w.trees.Keys, r.failing), ckpt.session, HighWater(Messages(w, ckpt.session)), ckpt.repo,
                  Snapshot(w.trees[ckpt.repo], true), r.now);
    }
  }

  /** Which answer a restore gives is decided by the request, the row and the repository alone. A checkout that fails
      comes after the safety row: the row is there, the tree is whatever the checkout left, the conversation is as it
      was. The three earlier failures change nothing. */
  lemma RestoreExactly(w: World, r: Request)
    requires Ordered(w.store)
    ensures var (w1, o) := AfterRestore(w, r); var found := Find(w.store.rows, r.id);
      && (o.NotFound? <==> forall x <- w.store.rows :: x.id != r.id)
      && (o.RepoGone? <==> found.Some? && found.value.repo !in w.trees)
      && (o.NotFound? || o.RepoGone? || o.SnapshotFailed? ==> w1 == w)
      && (found.Some? && found.value.repo in w.trees ==> Fated(w, r, found.value, w1, o))
  {
    RestoreOnlyAdds(w, r);
    var found := Find(w.store.rows, r.id);
    if found.Some? && found.value.repo in w.trees && !r.fate.SnapshotFails? {
      var ckpt := found.value;
      InsertFinds(w.store, Git(w.trees.Keys, r.failing), ckpt.session, HighWater(Messages(w, ckpt.session)), ckpt.repo,
                  Snapshot(w.trees[ckpt.repo], true), r.now);
    }
  }

  /** How the git half decides it. */
  ghost predicate Fated(w: World, r: Request, ckpt: Row, w1: World, o: Outcome)
    requires ckpt.repo in w.trees
  {
    match r.fate
    case SnapshotFails => o == SnapshotFailed && w1 == w
    case CheckoutFails(left) =>
      && o == CheckoutFailed && w1.trees == w.trees[ckpt.repo := left] && w1.messages == w.messages
      && Recorded(w, r, ckpt, w1)
    case Works =>
      && o.Restored? && o.safety == w.store.nextId && w1.trees == w.trees[ckpt.repo := ckpt.tree]
      && Recorded(w, r, ckpt, w1)
  }

  /** The table has grown by the safety row, which is the one that the id of `Restored` finds. */
  ghost predicate Recorded(w: World, r: Request, ckpt: Row, w1: World) {
    var safety := Find(w1.store.rows, w.store.nextId);
    && Safety(w, ckpt, safety) && safety.value.createdAt == r.now
    && w1.store.rows == w.store.rows + [safety.value]
  }

  /** What a restore does to the store is the `SafetyInsert` step of the checkpoint threads' protocol. */
  lemma RestoreIsStep(w: World, r: Request, ckpt: Row, sys: System)
    requires Find(w.store.rows, r.id) == Some(ckpt) && ckpt.repo in w.trees && !r.fate.SnapshotFails?
    requires sys.store == w.store
    ensures var mark, snap := HighWater(Messages(w, ckpt.session)), Snapshot(w.trees[ckpt.repo], true);
      AfterRestore(w, r).0.store ==
        Next(sys, SafetyInsert(ckpt.session, mark, ckpt.repo, snap, r.now), Git(w.trees.Keys, r.failing)).store
  {
  }

  // ---- Undo ----

  /** What a restore that finds its row does to the trees. */
  lemma RestoreSets(w: World, r: Request, ckpt: Row)
    requires Find(w.store.rows, r.id) == Some(ckpt) && ckpt.repo in w.trees && r.fate.Works?
    ensures AfterRestore(w, r).1.Restored? && AfterRestore(w, r).0.trees == w.trees[ckpt.repo := ckpt.tree]
  {
  }

  /** The row the first world would give out next is, in the second, the way back to the first one's trees: it
      holds the tree of the one repository in which they may differ. */
  ghost predicate Undoable(w: World, w1: World) {
    var safety := Find(w1.store.rows, w.store.nextId);
    && Ordered(w1.store)
    && safety.Some? && safety.value.repo in w.trees && safety.value.tree == w.trees[safety.value.repo]
    && w1.trees.Keys == w.trees.Keys
    && forall repo <- w.trees.Keys :: repo == safety.value.repo || w1.trees[repo] == w.trees[repo]
  }

  lemma RestoreUndoable(w: World, r: Request)
    requires Ordered(w.store) && (AfterRestore(w, r).1.Restored? || AfterRestore(w, r).1.CheckoutFailed?)
    ensures Undoable(w, AfterRestore(w, r).0)
  {
    RestoreOnlyAdds(w, r);
    var repo, t := RestoreTouches(w, r);
    var w1 := AfterRestore(w, r).0;
    assert w1.trees == w.trees[repo := t];
    assert Find(w1.store.rows, w.store.nextId).value.repo == repo;
  }

  lemma RestoreTouches(w: World, r: Request) returns (repo: Repo, t: Sha)
    requires AfterRestore(w, r).1.Restored? || AfterRestore(w, r).1.CheckoutFailed?
    ensures repo == Find(w.store.rows, r.id).value.repo && repo in w.trees
    ensures AfterRestore(w, r).0.trees == w.trees[repo := t]
  {
    var ckpt := Find(w.store.rows, r.id).value;
    repo := ckpt.repo;
    t := if r.fate.CheckoutFails? then r.fate.left else ckpt.tree;
  }

  /** In any world that still has the safety row and whose trees are `w1`'s, restoring it goes back. */
  lemma WayBack(w: World, w1: World, w2: World, u: Request)
    requires Undoable(w, w1) && Find(w2.store.rows, u.id) == Find(w1.store.rows, u.id) && w2.trees == w1.trees
    requires u.fate.Works? && u.id == w.store.nextId
    ensures AfterRestore(w2, u).1.Restored? && AfterRestore(w2, u).0.trees == w.trees
  {
    var safety := Find(w1.store.rows, u.id).value;
    RestoreSets(w2, u, safety);
    assert w2.trees[safety.repo := safety.tree] == w.trees;
  }

  lemma PrefixFinds(rows: seq<Row>, rows2: seq<Row>, id: nat)
    requires rows <= rows2 && Find(rows, id).Some?
    ensures Find(rows2, id) == Find(rows, id)
  {
    assert rows2 == rows + rows2[|rows|..];
    FindExtends(rows, rows2[|rows|..], id);
  }

  /** Restoring the safety row of a restore, even of one whose checkout broke halfway, gives the trees of before, as
      long as the row is still there. */
  lemma UndoOne(w: World, r: Request, w2: World, u: Request)
    requires Ordered(w.store) && (AfterRestore(w, r).1.Restored? || AfterRestore(w, r).1.CheckoutFailed?)
    requires Find(w2.store.rows, u.id) == Find(AfterRestore(w, r).0.store.rows, u.id)
    requires w2.trees == AfterRestore(w, r).0.trees && u.fate.Works? && u.id == w.store.nextId
    ensures AfterRestore(w2, u).1.Restored? && AfterRestore(w2, u).0.trees == w.trees
  {
    RestoreUndoable(w, r);
    WayBack(w, AfterRestore(w, r).0, w2, u);
  }

  /** A chain of successful restores and the ids of the safety rows they recorded. */
  function RestoreAll(w: World, rs: seq<Request>): Option<(World, seq<nat>)>
    decreases rs
  {
    if rs == [] then Some((w, []))
    else
      var (w1, o) := AfterRestore(w, rs[0]);
      if !o.Restored? then None
      else match RestoreAll(w1, rs[1..])
        case None => None
        case Some((w2, safeties)) => Some((w2, [o.safety] + safeties))
  }

  lemma {:induction false} RestoreAllAppend(w: World, rs: seq<Request>, last: Request)
    requires RestoreAll(w, rs).Some?
    ensures var w1 := RestoreAll(w, rs).value.0; var (w2, o) := AfterRestore(w1, last);
      o.Restored? ==> RestoreAll(w, rs + [last]).Some? && RestoreAll(w, rs + [last]).value.0 == w2
    decreases rs
  {
    if rs == [] {
      assert rs + [last] == [last] && [last][1..] == [];
    } else {
      assert (rs + [last])[1..] == rs[1..] + [last];
      RestoreAllAppend(AfterRestore(w, rs[0]).0, rs[1..], last);
    }
  }

  lemma {:induction false} RestoreAllOnlyAdds(w: World, rs: seq<Request>)
    requires Ordered(w.store) && RestoreAll(w, rs).Some?
    ensures var (w1, safeties) := RestoreAll(w, rs).value;
      w.store.rows <= w1.store.rows && Ordered(w1.store) && |safeties| == |rs|
    decreases rs
  {
    if rs != [] {
      RestoreOnlyAdds(w, rs[0]);
      RestoreAllOnlyAdds(AfterRestore(w, rs[0]).0, rs[1..]);
    }
  }

  ghost predicate Reverses(undo: seq<Request>, safeties: seq<nat>) {
    |undo| == |safeties| && forall i | 0 <= i < |undo| :: undo[i].fate.Works? && undo[i].id == safeties[|undo| - 1 - i]
  }

  /** The first restore of a chain, seen from outside. */
  lemma RestoreAllFirst(w: World, rs: seq<Request>) returns (wa: World)
    requires Ordered(w.store) && rs != [] && RestoreAll(w, rs).Some?
    ensures Undoable(w, wa) && RestoreAll(wa, rs[1..]).Some?
    ensures var (w1, safeties) := RestoreAll(wa, rs[1..]).value;
      RestoreAll(w, rs).value == (w1, [w.store.nextId] + safeties)
  {
    wa := AfterRestore(w, rs[0]).0;
    RestoreOnlyAdds(w, rs[0]);
    RestoreUndoable(w, rs[0]);
  }

  lemma ReversesFirst(undo: seq<Request>, first: nat, rest: seq<nat>) returns (init: seq<Request>, last: Request)
    requires Reverses(undo, [first] + rest)
    ensures undo == init + [last] && Reverses(init, rest) && last.fate.Works? && last.id == first
  {
    init, last := undo[..|undo| - 1], undo[|undo| - 1];
  }

  /** The undo of a first restore, after the later ones have been undone. */
  lemma UndoFirst(w: World, wa: World, rest: seq<Request>, init: seq<Request>, last: Request)
    requires Undoable(w, wa) && RestoreAll(wa, rest).Some?
    requires var w1 := RestoreAll(wa, rest).value.0;
      RestoreAll(w1, init).Some? && RestoreAll(w1, init).value.0.trees == wa.trees
    requires last.fate.Works? && last.id == w.store.nextId
    ensures var w1 := RestoreAll(wa, rest).value.0;
      RestoreAll(w1, init + [last]).Some? && RestoreAll(w1, init + [last]).value.0.trees == w.trees
  {
    RestoreAllOnlyAdds(wa, rest);
    var w1 := RestoreAll(wa, rest).value.0;
    RestoreAllOnlyAdds(w1, init);
    PrefixFinds(wa.store.rows, RestoreAll(w1, init).value.0.store.rows, last.id);
    WayBack(w, wa, RestoreAll(w1, init).value.0, last);
    RestoreAllAppend(w1, init, last);
  }

  /** Any chain of successful restores, across any sessions and repositories, is undone by restoring its safety
      checkpoints newest first: every undo succeeds and the working trees are what they were. */
  lemma {:induction false} UndoChain(w: World, rs: seq<Request>, undo: seq<Request>)
    requires Ordered(w.store) && RestoreAll(w, rs).Some? && Reverses(undo, RestoreAll(w, rs).value.1)
    ensures var w1 := RestoreAll(w, rs).value.0;
      RestoreAll(w1, undo).Some? && RestoreAll(w1, undo).value.0.trees == w.trees
    decreases rs
  {
    if rs != [] {
      var wa := RestoreAllFirst(w, rs);
      var init, last := ReversesFirst(undo, w.store.nextId, RestoreAll(wa, rs[1..]).value.1);
      UndoChain(wa, rs[1..], init);
      UndoFirst(w, wa, rs[1..], init, last);
    }
  }

  // ---- Undo after more turns ----

  /** The safety row of a successful restore, and its place among its session's turn rows: last, if it has a message. */
  lemma SafetyIsLast(w: World, r: Request)
    requires Ordered(w.store) && AfterRestore(w, r).1.Restored?
    ensures var ckpt, st1 := Find(w.store.rows, r.id).value, AfterRestore(w, r).0.store;
      var safety := Find(st1.rows, w.store.nextId).value; var turns := Turns(st1.rows, ckpt.session);
      && safety in st1.rows && safety.session == ckpt.session && Find(st1.rows, w.store.nextId).Some?
      && (safety.message.Some? ==> turns != [] && turns[|turns| - 1] == safety)
  {
    var ckpt := Find(w.store.rows, r.id).value;
    var git, snap := Git(w.trees.Keys, r.failing), Snapshot(w.trees[ckpt.repo], true);
    var mark := HighWater(Messages(w, ckpt.session));
    RestoreOnlyAdds(w, r);
    InsertFinds(w.store, git, ckpt.session, mark, ckpt.repo, snap, r.now);
    InsertCounts(w.store, git, ckpt.session, mark, ckpt.repo, snap, r.now);
  }

  /** A restore followed by any number of turns of its session, each pruning under a cap of its own, with git failing as
      it likes: the safety row can still be restored, and then the trees are those of before, if and only if the row
      has no message or the turns' prunes have taken fewer rows than there were turn rows when it was recorded; after
      that it is gone and the restore finds nothing. */
  lemma UndoAfterTurns(w: World, r: Request, turns: seq<TurnInput>, w2: World, u: Request)
    requires Ordered(w.store) && AfterRestore(w, r).1.Restored?
    requires var w1, s := AfterRestore(w, r).0, Find(w.store.rows, r.id).value.session;
      w2.store == InsertTurns(w1.store, s, turns) && w2.trees == w1.trees
    requires u.fate.Works? && u.id == w.store.nextId
    ensures var st1, s := AfterRestore(w, r).0.store, Find(w.store.rows, r.id).value.session;
      if Find(st1.rows, u.id).value.message.None? || Lost(st1, s, turns) < |Turns(st1.rows, s)| then
        AfterRestore(w2, u).1.Restored? && AfterRestore(w2, u).0.trees == w.trees
      else AfterRestore(w2, u).1.NotFound?
  {
    var w1, s := AfterRestore(w, r).0, Find(w.store.rows, r.id).value.session;
    RestoreOnlyAdds(w, r);
    SafetyIsLast(w, r);
    var safety := Find(w1.store.rows, u.id).value;
    if safety.message.Some? {
      LastTurnStays(w1.store, s, turns, safety);
    } else {
      MessagelessOutlives(w1.store, s, turns, safety);
    }
    SafetyFound(w1.store, s, turns, safety);
    if safety in w2.store.rows { UndoOne(w, r, w2, u); }
  }

  /** Under one cap and while git deletes every ref, the number of turns alone decides. */
  lemma {:induction false} UndoAfterSteadyTurns(w: World, r: Request, cap: int, turns: seq<TurnInput>, w2: World,
                                                u: Request)
    requires Ordered(w.store) && AfterRestore(w, r).1.Restored? && Steady(turns, cap)
    requires var w1, s := AfterRestore(w, r).0, Find(w.store.rows, r.id).value.session;
      w2.store == InsertTurns(w1.store, s, turns) && w2.trees == w1.trees
    requires u.fate.Works? && u.id == w.store.nextId
    ensures var st1, s := AfterRestore(w, r).0.store, Find(w.store.rows, r.id).value.session;
      AfterRestore(w2, u).1.Restored? <==>
        || Find(st1.rows, u.id).value.message.None?
        || Taken(Count(st1.rows, s), Floor(st1.rows, cap, s), |turns|) < |Turns(st1.rows, s)|
  {
    RestoreOnlyAdds(w, r);
    UndoAfterTurns(w, r, turns, w2, u);
    TakenIs(AfterRestore(w, r).0.store, cap, Find(w.store.rows, r.id).value.session, turns);
  }

  lemma LastTurnStays(st: Store, s: Session, turns: seq<TurnInput>, row: Row)
    requires Ordered(st)
    requires Turns(st.rows, s) != [] && Turns(st.rows, s)[|Turns(st.rows, s)| - 1] == row
    ensures row in InsertTurns(st, s, turns).rows <==> Lost(st, s, turns) < |Turns(st.rows, s)|
  {
    TurnOutlives(st, s, turns, |Turns(st.rows, s)| - 1, row);
  }

  /** Looking for the row by its id finds it, or, once it is gone, nothing: its id is not given out again. */
  lemma SafetyFound(st: Store, s: Session, turns: seq<TurnInput>, row: Row)
    requires Ordered(st) && row in st.rows
    ensures Find(InsertTurns(st, s, turns).rows, row.id) ==
      if row in InsertTurns(st, s, turns).rows then Some(row) else None
  {
    var st2 := InsertTurns(st, s, turns);
    InsertTurnsOrders(st, s, turns);
    var found := Find(st2.rows, row.id);
    if found.Some? {
      OnlyNewIds(st, s, turns, found.value);
      if found.value in st.rows { SameRow(st.rows, found.value, row); }
    }
  }

  lemma {:induction false} OnlyNewIds(st: Store, s: Session, turns: seq<TurnInput>, x: Row)
    requires Ordered(st) && x in InsertTurns(st, s, turns).rows
    ensures x in st.rows || x.id >= st.nextId
    decreases turns
  {
    if turns != [] {
      var gone, row := InsertShifts(st, s, turns[0]);
      OnlyNewIds(InsertOne(st, s, turns[0]), s, turns[1..], x);
    }
  }

  // ---- Conversations ----

  function RollBackAll(messages: set<nat>, bounds: seq<Option<nat>>): set<nat> {
    if bounds == [] then messages else RollBackAll(RollBack(messages, bounds[0]), bounds[1..])
  }

  function Bound(b: Option<nat>): nat {
    if b.Some? then b.value else 0
  }

  /** Rolling back any number of times is rolling back once, to the smallest bound, a missing bound being 0. */
  lemma {:induction false} RollBacksCollapse(messages: set<nat>, bounds: seq<Option<nat>>, least: nat)
    requires forall m <- messages :: m >= 1
    requires exists b <- bounds :: Bound(b) == least
    requires forall b <- bounds :: least <= Bound(b)
    ensures RollBackAll(messages, bounds) == set m <- messages | m <= least
  {
    RollBacksKeep(messages, bounds);
  }

  lemma {:induction false} RollBacksKeep(messages: set<nat>, bounds: seq<Option<nat>>)
    requires forall m <- messages :: m >= 1
    ensures RollBackAll(messages, bounds) == set m <- messages | forall b <- bounds :: m <= Bound(b)
  {
    if bounds != [] {
      var kept := RollBack(messages, bounds[0]);
      RollBacksKeep(kept, bounds[1..]);
      assert forall b :: b in bounds <==> b == bounds[0] || b in bounds[1..];
      assert kept == set m <- messages | m <= Bound(bounds[0]);
      forall m <- messages ensures (forall b <- bounds :: m <= Bound(b)) <==>
          m in kept && forall b <- bounds[1..] :: m <= Bound(b)
      {
        assert bounds[0] in bounds;
      }
    }
  }

  /** What a restore does to the conversations: with a rollback, the checkpoint's session keeps exactly the messages up
      to the bound, a missing bound being 0, and the others all of theirs; the count returned is that of the messages
      gone. Without one, nothing goes. */
  lemma RestoreConversations(w: World, r: Request, o: Session)
    requires AfterRestore(w, r).1.Restored?
    requires forall m <- Messages(w, o) :: m >= 1
    ensures var (w1, outcome) := AfterRestore(w, r); var ckpt := Find(w.store.rows, r.id).value;
      if r.rollback && o == ckpt.session then
        && Messages(w1, o) == (set m <- Messages(w, o) | m <= Bound(ckpt.message))
        && outcome.deleted == |Messages(w, o)| - |Messages(w1, o)|
      else Messages(w1, o) == Messages(w, o) && (!r.rollback ==> outcome.deleted == 0)
  {
    var ckpt := Find(w.store.rows, r.id).value;
    var before := Messages(w, o);
    var kept := RollBack(before, ckpt.message);
    assert kept == set m <- before | m <= Bound(ckpt.message);
    assert before == kept + (before - kept);
  }

  /** A safety row keeps the whole conversation it was taken in: rolling back to it deletes only later messages. */
  lemma SafetyKeepsConversation(messages: set<nat>, later: set<nat>)
    requires forall m <- messages :: m >= 1
    requires forall m <- messages, n <- later :: m < n
    ensures RollBack(messages + later, HighWater(messages)) == messages
  {
  }

  /** Undoing a restore does not bring messages back: the conversation is the same again exactly when the restore
      left it alone or the checkpoint was at or past its last message. */
  lemma UndoConversation(w: World, r: Request, u: Request)
    requires Ordered(w.store) && u.fate.Works? && u.id == w.store.nextId && AfterRestore(w, r).1.Restored?
    requires forall m <- Messages(w, Find(w.store.rows, r.id).value.session) :: m >= 1
    ensures var ckpt := Find(w.store.rows, r.id).value; var before := Messages(w, ckpt.session);
      Messages(AfterRestore(AfterRestore(w, r).0, u).0, ckpt.session) == before <==>
      !r.rollback || forall m <- before :: m <= Bound(ckpt.message)
  {
    RestoreOnlyAdds(w, r);
    var ckpt := Find(w.store.rows, r.id).value;
    var before, w1 := Messages(w, ckpt.session), AfterRestore(w, r).0;
    var safety := Find(w1.store.rows, u.id).value;
    assert RollBack(before, HighWater(before)) == before;
    if r.rollback {
      var kept := RollBack(before, ckpt.message);
      assert Messages(w1, ckpt.session) == kept;
      assert RollBack(kept, HighWater(before)) == kept;
      assert kept == before <==> forall m <- before :: m <= Bound(ckpt.message);
    } else {
      assert Messages(w1, ckpt.session) == before;
    }
  }

  /** The bounds that a chain of restores rolls one session's conversation back to. */
  function Bounds(w: World, rs: seq<Request>, o: Session): seq<Option<nat>>
    decreases rs
  {
    if rs == [] then []
    else
      var found := Find(w.store.rows, rs[0].id);
      (if rs[0].rollback && found.Some? && found.value.session == o then [found.value.message] else [])
      + Bounds(AfterRestore(w, rs[0]).0, rs[1..], o)
  }

  lemma RestoreRolls(w: World, r: Request, o: Session)
    requires AfterRestore(w, r).1.Restored?
    ensures var ckpt := Find(w.store.rows, r.id).value;
      Messages(AfterRestore(w, r).0, o) ==
        if r.rollback && ckpt.session == o then RollBack(Messages(w, o), ckpt.message) else Messages(w, o)
  {
  }

  /** A chain of restores leaves of each conversation what its rollbacks leave. */
  lemma {:induction false} ChainRolls(w: World, rs: seq<Request>, o: Session)
    requires RestoreAll(w, rs).Some?
    ensures Messages(RestoreAll(w, rs).value.0, o) == RollBackAll(Messages(w, o), Bounds(w, rs, o))
    ensures Messages(RestoreAll(w, rs).value.0, o) <= Messages(w, o)
    decreases rs
  {
    if rs != [] {
      var wa, found := AfterRestore(w, rs[0]).0, Find(w.store.rows, rs[0].id).value;
      RestoreRolls(w, rs[0], o);
      ChainRolls(wa, rs[1..], o);
      if rs[0].rollback && found.session == o {
        assert Bounds(w, rs, o) == [found.message] + Bounds(wa, rs[1..], o);
      } else {
        assert Bounds(w, rs, o) == Bounds(wa, rs[1..], o);
      }
    }
  }

  lemma {:induction false} RestoreAllSplits(w: World, rs: seq<Request>, last: Request)
    requires RestoreAll(w, rs + [last]).Some?
    ensures RestoreAll(w, rs).Some?
    ensures var (w2, o) := AfterRestore(RestoreAll(w, rs).value.0, last);
      o.Restored? && RestoreAll(w, rs + [last]).value.0 == w2
    decreases rs
  {
    if rs == [] {
      assert rs + [last] == [last] && [last][1..] == [];
    } else {
      assert (rs + [last])[1..] == rs[1..] + [last];
      RestoreAllSplits(AfterRestore(w, rs[0]).0, rs[1..], last);
    }
  }

  /** Restoring a safety row loses no message of a conversation that has only shrunk since it was recorded. */
  lemma SafetyLosesNothing(w: World, r: Request, w2: World, u: Request, o: Session)
    requires Ordered(w.store) && AfterRestore(w, r).1.Restored? && AfterRestore(w2, u).1.Restored?
    requires u.id == w.store.nextId && AfterRestore(w, r).0.store.rows <= w2.store.rows
    requires Messages(w2, o) <= Messages(w, o)
    ensures Messages(AfterRestore(w2, u).0, o) == Messages(w2, o)
  {
    RestoreOnlyAdds(w, r);
    PrefixFinds(AfterRestore(w, r).0.store.rows, w2.store.rows, u.id);
    RestoreRolls(w2, u, o);
    var safety := Find(w2.store.rows, u.id).value;
    if safety.session == o { assert RollBack(Messages(w2, o), HighWater(Messages(w, o))) == Messages(w2, o); }
  }

  /** Undoing a chain brings no message back and loses none. */
  lemma {:induction false} UndoKeepsMessages(w: World, rs: seq<Request>, undo: seq<Request>, o: Session)
    requires Ordered(w.store) && RestoreAll(w, rs).Some? && Reverses(undo, RestoreAll(w, rs).value.1)
    requires RestoreAll(RestoreAll(w, rs).value.0, undo).Some?
    ensures Messages(RestoreAll(RestoreAll(w, rs).value.0, undo).value.0, o) == Messages(RestoreAll(w, rs).value.0, o)
    decreases rs
  {
    if rs != [] {
      var wa, w1 := AfterRestore(w, rs[0]).0, RestoreAll(w, rs).value.0;
      RestoreOnlyAdds(w, rs[0]);
      var init, last := ReversesFirst(undo, w.store.nextId, RestoreAll(wa, rs[1..]).value.1);
      RestoreAllSplits(w1, init, last);
      UndoKeepsMessages(wa, rs[1..], init, o);
      LastUndoKeeps(w, rs, init, last, o);
    }
  }

  lemma LastUndoKeeps(w: World, rs: seq<Request>, init: seq<Request>, last: Request, o: Session)
    requires Ordered(w.store) && rs != [] && RestoreAll(w, rs).Some? && last.id == w.store.nextId
    requires RestoreAll(RestoreAll(w, rs).value.0, init).Some?
    requires var w1 := RestoreAll(w, rs).value.0; var w2 := RestoreAll(w1, init).value.0;
      AfterRestore(w2, last).1.Restored? && Messages(w2, o) == Messages(w1, o)
    ensures var w2 := RestoreAll(RestoreAll(w, rs).value.0, init).value.0;
      Messages(AfterRestore(w2, last).0, o) == Messages(w2, o)
  {
    var wa, w1 := AfterRestore(w, rs[0]).0, RestoreAll(w, rs).value.0;
    RestoreOnlyAdds(w, rs[0]);
    RestoreAllOnlyAdds(wa, rs[1..]);
    RestoreAllOnlyAdds(w1, init);
    ChainRolls(w, rs, o);
    SafetyLosesNothing(w, rs[0], RestoreAll(w1, init).value.0, last, o);
  }

  /** After any chain of restores and its undo each conversation is what one rollback to the chain's smallest bound
      leaves of it, whatever rollbacks the undo asks for; the whole of it when the chain rolled nothing back. */
  lemma ChainConversations(w: World, rs: seq<Request>, undo: seq<Request>, o: Session, least: nat)
    requires Ordered(w.store) && RestoreAll(w, rs).Some? && Reverses(undo, RestoreAll(w, rs).value.1)
    requires forall m <- Messages(w, o) :: m >= 1
    ensures var w1 := RestoreAll(w, rs).value.0; var bounds := Bounds(w, rs, o);
      RestoreAll(w1, undo).Some? && var left := Messages(RestoreAll(w1, undo).value.0, o);
      && (bounds == [] ==> left == Messages(w, o))
      && ((exists b <- bounds :: Bound(b) == least) && (forall b <- bounds :: least <= Bound(b)) ==>
            left == set m <- Messages(w, o) | m <= least)
  {
    UndoChain(w, rs, undo);
    ChainRolls(w, rs, o);
    UndoKeepsMessages(w, rs, undo, o);
    var bounds := Bounds(w, rs, o);
    if (exists b <- bounds :: Bound(b) == least) && (forall b <- bounds :: least <= Bound(b)) {
      RollBacksCollapse(Messages(w, o), bounds, least);
    }
  }

  /** A message past the checkpoint does not come back. */
  lemma UndoLoses(w: World, r: Request, u: Request, m: nat)
    requires Ordered(w.store) && AfterRestore(w, r).1.Restored? && r.rollback && u.fate.Works? && u.id == w.store.nextId
    requires var ckpt := Find(w.store.rows, r.id).value; m in Messages(w, ckpt.session) && m > Bound(ckpt.message)
    ensures AfterRestore(AfterRestore(w, r).0, u).1.Restored?
    ensures AfterRestore(AfterRestore(w, r).0, u).0.trees == w.trees
    ensures m !in Messages(AfterRestore(AfterRestore(w, r).0, u).0, Find(w.store.rows, r.id).value.session)
  {
    var w1, o := AfterRestore(w, r).0, Find(w.store.rows, r.id).value.session;
    UndoOne(w, r, w1, u);
    RestoreRolls(w, r, o);
    RestoreRolls(w1, u, o);
  }

  /** For instance: a checkpoint at message 1, a conversation of two messages, a restore with rollback and its undo. The
      tree is back; message 2 is not. */
  lemma UndoLosesMessage() returns (w: World, r: Request, u: Request)
    ensures Ordered(w.store) && AfterRestore(w, r).1.Restored? && u.id == w.store.nextId && u.fate.Works?
    ensures AfterRestore(AfterRestore(w, r).0, u).0.trees == w.trees
    ensures 2 in Messages(w, "s") && 2 !in Messages(AfterRestore(AfterRestore(w, r).0, u).0, "s")
  {
    var ckpt := Row(1, "s", Some(1), None, "t0", "repo", 0);
    w := World(Store([ckpt], 2, map[]), map["repo" := "t1"], map["s" := {1, 2}]);
    r, u := Request(1, true, Works, {}, 0), Request(2, true, Works, {}, 0);
    assert Find(w.store.rows, 1) == Some(ckpt);
    RestoreSets(w, r, ckpt);
    UndoLoses(w, r, u, 2);
  }

  // ---- The workspace as it is changed in place ----

  class Workspace {
    const store: CheckpointStore
    var trees: map<Repo, Sha>
    var messages: map<Session, set<nat>>

    constructor (store: CheckpointStore, trees: map<Repo, Sha>)
      ensures this.store == store && this.trees == trees && messages == map[]
    {
      this.store, this.trees, messages := store, trees, map[];
    }

    ghost function Value(): World
      reads this, store
    {
      World(store.Value(), trees, messages)
    }

    /** `rollback_conversation`. */
    method RollbackConversation(ckpt: Row) returns (deleted: nat)
      modifies this`messages
      ensures var before := Messages(old(Value()), ckpt.session); var kept := RollBack(before, ckpt.message);
        messages == old(messages)[ckpt.session := kept] && deleted == |before - kept|
    {
      var before := if ckpt.session in messages then messages[ckpt.session] else {};
      var kept := RollBack(before, ckpt.message);
      messages := messages[ckpt.session := kept];
      deleted := |before - kept|;
    }

    /** `restore`. */
    method Restore(r: Request) returns (outcome: Outcome)
      requires Ordered(store.Value())
      modifies this, store
      ensures (Value(), outcome) == AfterRestore(old(Value()), r)
    {
      var found := Find(store.rows, r.id);
      if found.None? {
        return NotFound;
      }
      var ckpt := found.value;
      if ckpt.repo !in trees {
        return RepoGone;
      }
      if r.fate.SnapshotFails? {
        return SnapshotFailed;
      }
      var snap := Snapshot(trees[ckpt.repo], true);
      var mark := HighWater(if ckpt.session in messages then messages[ckpt.session] else {});
      var safety := store.Create(ckpt.session, mark, ckpt.repo, snap, Git(trees.Keys, r.failing), r.now, false);
      if r.fate.CheckoutFails? {
        trees := trees[ckpt.repo := r.fate.left];
        return CheckoutFailed;
      }
      trees := trees[ckpt.repo := ckpt.tree];
      var deleted := 0;
      if r.rollback {
        deleted := RollbackConversation(ckpt);
      }
      return Restored(safety, deleted);
    }
  }
}
