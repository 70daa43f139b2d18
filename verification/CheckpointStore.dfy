/** The checkpoint table and the hidden refs as one mutable store: the loops of `prune_over_cap` and `boot_prune`
    and the insert paths, each proved against its value-level meaning. */
module CheckpointStores {
  import opened Options
  import opened CheckpointRows

  class CheckpointStore {
    var rows: seq<Row>
    var nextId: nat
    var refs: map<RefKey, Sha>
    var maxPerSession: int
    var maxAgeDays: int

    ghost function Value(): Store
      reads this
    {
      Store(rows, nextId, refs)
    }

    constructor ()
      ensures Value() == Store([], 1, map[]) && maxPerSession == 50 && maxAgeDays == 0
    {
      rows, nextId, refs := [], 1, map[];
      maxPerSession, maxAgeDays := 50, 0;
    }

    /** `delete_checkpoint_with_ref`: the ref goes first, and a ref git will not delete keeps its row. */
    method DeleteWithRef(ckpt: Row, git: Git) returns (gone: bool)
      modifies this`rows, this`refs
      ensures gone <==> Deletable(ckpt, git)
      ensures !gone <==> ckpt.ref.Some? && ckpt.repo in git.repos && ckpt.ref.value in git.failing
      ensures Value() == if gone then Delete(old(Value()), ckpt, git) else old(Value())
    {
      if ckpt.ref.Some? {
        if ckpt.repo in git.repos {
          if ckpt.ref.value in git.failing {
            return false;
          }
          refs := refs - {ckpt.ref.value};
          assert RefsOf([ckpt], git) == {ckpt.ref.value} by { assert ckpt in [ckpt]; }
        }
      }
      rows := Without(rows, ckpt.id);
      return true;
    }

    /** `prune_over_cap`. */
    method PruneOverCap(s: Session, git: Git)
      requires Ordered(Value())
      modifies this`rows, this`refs
      ensures Value() == CheckpointRows.PruneOverCap(old(Value()), git, maxPerSession, s)
    {
      ghost var before := Value();
      if maxPerSession <= 0 {
        NothingPruned(before, git, maxPerSession, s);
        return;
      }
      var over := Count(rows, s) - maxPerSession;
      if over <= 0 {
        NothingPruned(before, git, maxPerSession, s);
        return;
      }
      var take := if over < MAX_INLINE_PRUNE then over else MAX_INLINE_PRUNE;
      var candidates := Limit(Turns(rows, s), take);
      assert candidates == Candidates(before.rows, maxPerSession, s);
      DeleteOldest(candidates, s, git);
      assert Value() == CheckpointRows.PruneOverCap(before, git, maxPerSession, s);
    }

    /** The loop of `prune_over_cap`: stops at the first candidate whose ref git will not delete. */
    method DeleteOldest(candidates: seq<Row>, s: Session, git: Git)
      requires Ordered(Value()) && candidates <= Turns(rows, s)
      modifies this`rows, this`refs
      ensures Value() == Shed(old(Value()), candidates, Deleted(candidates, git), s, git)
    {
      ghost var before := Value();
      NothingShed(before, candidates, s, git);
      for i := 0 to |candidates|
        invariant i <= Deleted(candidates, git)
        invariant Value() == Shed(before, candidates, i, s, git)
      {
        var deleted := DeleteWithRef(candidates[i], git);
        if !deleted {
          return;
        }
        OneMoreDeleted(before, candidates, i, s, git);
      }
    }

    /** The row, then its ref under the row's id, then the ref's name into the row. */
    method InsertRow(s: Session, message: Option<nat>, repo: Repo, snap: Snapshot, git: Git, now: int) returns (id: nat)
      modifies this`rows, this`nextId, this`refs
      ensures Value() == Insert(old(Value()), git, s, message, repo, snap, now) && id == old(nextId)
    {
      id := nextId;
      var row := Row(id, s, message, None, snap.tree, repo, now);
      nextId := nextId + 1;
      if snap.committed {
        var key := RefKey(repo, s, id);
        if repo in git.repos && key !in git.failing {
          refs := refs[key := snap.tree];
          row := row.(ref := Some(key));
        }
      }
      rows := rows + [row];
    }

    /** The locked part of `create_checkpoint_inner`. */
    method Create(s: Session, message: Option<nat>, repo: Repo, snap: Snapshot, git: Git, now: int, prune: bool)
      returns (id: nat)
      requires Ordered(Value())
      modifies this`rows, this`nextId, this`refs
      ensures Value() == CheckpointRows.Create(old(Value()), git, maxPerSession, s, message, repo, snap, now, prune)
      ensures id == old(nextId) && Ordered(Value())
    {
      id := InsertRow(s, message, repo, snap, git, now);
      assert Ordered(Value());
      if prune {
        ghost var gone := Pruned(rows, git, maxPerSession, s);
        DropTurnsAscending(rows, s, |gone|);
        DropTurnsSubset(rows, s, |gone|);
        PruneOverCap(s, git);
      }
    }

    /** `insert_baseline`, with its second look at the count. */
    method InsertBaseline(s: Session, repo: Repo, snap: Snapshot, git: Git, now: int)
      requires Ordered(Value())
      modifies this`rows, this`nextId, this`refs
      ensures Ordered(Value())
      ensures Value() == CheckpointRows.InsertBaseline(old(Value()), git, maxPerSession, s, repo, snap, now)
    {
      if Count(rows, s) > 0 {
        return;
      }
      var id := Create(s, None, repo, snap, git, now, true);
    }

    /** `after_turn_insert`, with its dedup gate. */
    method InsertTurn(s: Session, message: Option<nat>, repo: Repo, snap: Snapshot, git: Git, now: int)
      requires Ordered(Value())
      modifies this`rows, this`nextId, this`refs
      ensures Ordered(Value())
      ensures Value() == CheckpointRows.InsertTurn(old(Value()), git, maxPerSession, s, message, repo, snap, now)
    {
      var last := Latest(rows, s);
      if last.Some? && last.value.tree == snap.tree {
        return;
      }
      var id := Create(s, message, repo, snap, git, now, true);
    }

    /** `checkpoint_session_ids`: every session that has a row, each once. */
    method SessionIds() returns (sids: seq<Session>)
      ensures forall s :: s in sids <==> exists r <- rows :: r.session == s
      ensures forall i, j | 0 <= i < j < |sids| :: sids[i] != sids[j]
    {
      sids := [];
      for i := 0 to |rows|
        invariant forall s :: s in sids <==> exists r <- rows[..i] :: r.session == s
        invariant forall i, j | 0 <= i < j < |sids| :: sids[i] != sids[j]
      {
        assert rows[..i + 1] == rows[..i] + [rows[i]];
        if rows[i].session !in sids {
          sids := sids + [rows[i].session];
        }
      }
      assert rows[..|rows|] == rows;
    }

    /** The over-cap half of `boot_prune`'s victims. */
    method OverCapVictims() returns (victims: seq<Row>)
      ensures forall r :: r in victims <==> r in rows && Victim(r, rows, maxPerSession, None)
    {
      victims := [];
      if maxPerSession <= 0 {
        return;
      }
      var sids := SessionIds();
      for i := 0 to |sids|
        invariant forall r :: r in victims <==>
          r in rows && r.session in sids[..i] && Victim(r, rows, maxPerSession, None)
      {
        assert sids[..i + 1] == sids[..i] + [sids[i]];
        var over := Count(rows, sids[i]) - maxPerSession;
        TurnsAre(rows, sids[i]);
        if over > 0 {
          victims := victims + Limit(Turns(rows, sids[i]), over);
        }
      }
      assert sids[..|sids|] == sids;
    }

    /** Over the cap or too old: what `boot_prune` takes. */
    method BootVictims(now: int) returns (victims: seq<Row>, ghost cutoff: Option<int>)
      ensures cutoff == if maxAgeDays > 0 then Some(now - maxAgeDays * 86400) else None
      ensures Holds(victims, Victims(rows, maxPerSession, cutoff))
    {
      victims := OverCapVictims();
      cutoff := None;
      if maxAgeDays > 0 {
        var limit := now - maxAgeDays * 86400;
        cutoff := Some(limit);
        var stale := OlderThan(limit);
        victims := victims + stale;
      }
    }

    /** The loop over `delete_checkpoint`. */
    method DeleteRows(victims: seq<Row>)
      modifies this`rows
      ensures rows == Except(old(rows), IdsOf(victims))
    {
      ghost var rows0 := rows;
      ExceptNone(rows0);
      assert IdsOf(victims[..0]) == {};
      for i := 0 to |victims|
        invariant rows == Except(rows0, IdsOf(victims[..i]))
      {
        ExceptOneMore(rows0, IdsOf(victims[..i]), victims[i].id);
        IdsOfOneMore(victims, i);
        rows := Without(rows, victims[i].id);
      }
      assert victims[..|victims|] == victims;
    }

    /** `boot_prune`: rows go now, their refs are returned grouped by repository for the detached half. */
    method BootPrune(now: int) returns (byRepo: map<Repo, seq<RefKey>>)
      modifies this`rows
      ensures var cutoff := if maxAgeDays > 0 then Some(now - maxAgeDays * 86400) else None;
        && Value() == CheckpointRows.BootPrune(old(Value()), maxPerSession, cutoff)
        && GroupsOf(byRepo, Victims(old(rows), maxPerSession, cutoff))
    {
      var victims;
      ghost var cutoff;
      victims, cutoff := BootVictims(now);
      ghost var all := Victims(rows, maxPerSession, cutoff);
      byRepo := GroupRefs(victims);
      SameRows(victims, all);
      DeleteRows(victims);
    }

    /** `checkpoints_older_than`. */
    method OlderThan(cutoff: int) returns (stale: seq<Row>)
      ensures forall r :: r in stale <==> r in rows && r.createdAt < cutoff
    {
      stale := [];
      for i := 0 to |rows|
        invariant forall r :: r in stale <==> r in rows[..i] && r.createdAt < cutoff
      {
        assert rows[..i + 1] == rows[..i] + [rows[i]];
        if rows[i].createdAt < cutoff {
          stale := stale + [rows[i]];
        }
      }
      assert rows[..|rows|] == rows;
    }

    /** `prune_ref_groups`: whatever git can delete goes, whatever it cannot stays. */
    method PruneRefGroups(byRepo: map<Repo, seq<RefKey>>, git: Git)
      modifies this`refs
      ensures forall k :: k in refs <==> k in old(refs) && !Collected(byRepo, byRepo.Keys, git, k)
      ensures forall k <- refs :: refs[k] == old(refs)[k]
    {
      var todo := byRepo.Keys;
      ghost var refs0 := refs;
      while todo != {}
        invariant todo <= byRepo.Keys
        invariant forall k :: k in refs <==> k in refs0 && !Collected(byRepo, byRepo.Keys - todo, git, k)
        invariant forall k <- refs :: refs[k] == refs0[k]
      {
        var repo :| repo in todo;
        ghost var done := byRepo.Keys - todo;
        if repo in git.repos {
          refs := refs - set k <- byRepo[repo] | k !in git.failing;
        }
        forall k ensures Collected(byRepo, done + {repo}, git, k) <==>
            Collected(byRepo, done, git, k) || (repo in git.repos && k in byRepo[repo] && k !in git.failing)
        {
        }
        todo := todo - {repo};
        assert byRepo.Keys - todo == done + {repo};
      }
    }

    static method GroupRefs(victims: seq<Row>) returns (byRepo: map<Repo, seq<RefKey>>)
      ensures Groups(byRepo, victims)
    {
      byRepo := map[];
      for i := 0 to |victims|
        invariant forall repo, k :: Grouped(byRepo, repo, k) <==> HasRef(victims[..i], repo, k)
      {
        var ckpt := victims[i];
        OneMoreRef(victims, i);
        ghost var grouped := byRepo;
        if ckpt.ref.Some? {
          var group := if ckpt.repo in byRepo then byRepo[ckpt.repo] else [];
          byRepo := byRepo[ckpt.repo := group + [ckpt.ref.value]];
        }
        assert forall repo, k :: Grouped(byRepo, repo, k) <==>
          Grouped(grouped, repo, k) || (ckpt.ref == Some(k) && ckpt.repo == repo);
      }
      assert victims[..|victims|] == victims;
    }
  }

  ghost predicate Grouped(byRepo: map<Repo, seq<RefKey>>, repo: Repo, k: RefKey) {
    repo in byRepo && k in byRepo[repo]
  }

  /** `k` is grouped under one of these repositories and git deletes it. */
  ghost predicate Collected(byRepo: map<Repo, seq<RefKey>>, repos: set<Repo>, git: Git, k: RefKey) {
    exists repo <- repos :: repo in byRepo && repo in git.repos && k in byRepo[repo] && k !in git.failing
  }

  ghost predicate HasRef(rows: seq<Row>, repo: Repo, k: RefKey) {
    exists r <- rows :: r.ref == Some(k) && r.repo == repo
  }

  ghost predicate Groups(byRepo: map<Repo, seq<RefKey>>, rows: seq<Row>) {
    forall repo, k :: Grouped(byRepo, repo, k) <==> HasRef(rows, repo, k)
  }

  /** Each ref of these rows is grouped under its row's repository, and nothing else is. */
  ghost predicate GroupsOf(byRepo: map<Repo, seq<RefKey>>, rows: set<Row>) {
    forall repo, k :: Grouped(byRepo, repo, k) <==> exists r <- rows :: r.ref == Some(k) && r.repo == repo
  }

  ghost predicate Holds(rows: seq<Row>, all: set<Row>) {
    forall r :: r in rows <==> r in all
  }

  lemma SameRows(victims: seq<Row>, all: set<Row>)
    requires Holds(victims, all)
    ensures IdsOf(victims) == Ids(all)
  {
  }

  lemma OneMoreRef(rows: seq<Row>, i: nat)
    requires i < |rows|
    ensures forall repo, k :: HasRef(rows[..i + 1], repo, k) <==>
      HasRef(rows[..i], repo, k) || (rows[i].ref == Some(k) && rows[i].repo == repo)
  {
    assert rows[..i + 1] == rows[..i] + [rows[i]];
  }
}
