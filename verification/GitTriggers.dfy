/** Git triggers: the comparison of a repository's head with the one last seen, over all rows of one pass and over
    any number of passes. */
module GitTriggers {
  import opened Options

  type Sha = string

  datatype Row = Row(id: nat, enabled: bool, isGit: bool, state: Option<Sha>)

  /** `should_fire_git`. */
  predicate ShouldFire(state: Option<Sha>, head: Sha) {
    state.Some? && state.value != head
  }

  /** What one pass sees of a row: its head, unless the row does not take part or git gives no answer. */
  function Seen(row: Row, head: Option<Sha>): Option<Sha> {
    if row.enabled && row.isGit then head else None
  }

  /** The row after a pass, and whether it fires. */
  function Pass(row: Row, head: Option<Sha>): (Row, bool) {
    var seen := Seen(row, head);
    if seen.None? then (row, false) else (row.(state := seen), ShouldFire(row.state, seen.value))
  }

  /** The ids of the first `n` rows that fire, in row order. */
  function Fired(rows: seq<Row>, heads: seq<Option<Sha>>, n: nat): seq<nat>
    requires n <= |rows| == |heads|
  {
    if n == 0 then []
    else Fired(rows, heads, n - 1) + if Pass(rows[n - 1], heads[n - 1]).1 then [rows[n - 1].id] else []
  }

  class TriggerTable {
    var rows: seq<Row>

    constructor (rows: seq<Row>)
      ensures this.rows == rows
    {
      this.rows := rows;
    }

    /** `evaluate_git_triggers`; `heads[i]` is what `git rev-parse` answers for row i. */
    method Evaluate(heads: seq<Option<Sha>>) returns (fired: seq<nat>)
      requires |heads| == |rows|
      modifies this
      ensures |rows| == |old(rows)| && forall i | 0 <= i < |rows| :: rows[i] == Pass(old(rows)[i], heads[i]).0
      ensures fired == Fired(old(rows), heads, |heads|)
    {
      fired := [];
      ghost var before := rows;
      for n := 0 to |rows|
        invariant |rows| == |before| && forall i | n <= i < |rows| :: rows[i] == before[i]
        invariant forall i | 0 <= i < n :: rows[i] == Pass(before[i], heads[i]).0
        invariant fired == Fired(before, heads, n)
      {
        var a := rows[n];
        if a.enabled && a.isGit && heads[n].Some? {
          var head := heads[n].value;
          if !ShouldFire(a.state, head) {
            if a.state != Some(head) {
              rows := rows[n := a.(state := Some(head))];
            }
          } else {
            rows := rows[n := a.(state := Some(head))];
            fired := fired + [a.id];
          }
        }
      }
    }
  }

  // ---- One row over many passes ----

  /** The state after these observations. */
  function StateAfter(seen: seq<Option<Sha>>): Option<Sha> {
    if seen == [] then None
    else if seen[|seen| - 1].Some? then seen[|seen| - 1]
    else StateAfter(seen[..|seen| - 1])
  }

  /** A row followed over passes that each see `seen[k]`. */
  function Followed(row: Row, seen: seq<Option<Sha>>): (Row, seq<bool>) {
    if seen == [] then (row, [])
    else
      var (before, fires) := Followed(row, seen[..|seen| - 1]);
      var (after, fire) := Pass(before, seen[|seen| - 1]);
      (after, fires + [fire])
  }

  lemma {:induction false} FollowedState(row: Row, seen: seq<Option<Sha>>)
    requires row.enabled && row.isGit && row.state.None?
    ensures Followed(row, seen).0 == row.(state := StateAfter(seen)) && |Followed(row, seen).1| == |seen|
  {
    if seen != [] { FollowedState(row, seen[..|seen| - 1]); }
  }

  /** Observation j is the last one before k. */
  ghost predicate LastBefore(seen: seq<Option<Sha>>, j: int, k: int) {
    0 <= j < k <= |seen| && seen[j].Some? && forall m | j < m < k :: seen[m].None?
  }

  lemma {:induction false} StateIsLast(seen: seq<Option<Sha>>, k: nat)
    requires k <= |seen|
    ensures forall j | LastBefore(seen, j, k) :: StateAfter(seen[..k]) == seen[j]
    ensures StateAfter(seen[..k]).Some? ==> exists j :: LastBefore(seen, j, k)
  {
    if k > 0 {
      var n := k - 1;
      StateIsLast(seen, n);
      assert seen[..k][..n] == seen[..n];
      if seen[n].Some? {
        assert LastBefore(seen, n, k);
      } else {
        assert forall j | LastBefore(seen, j, k) :: LastBefore(seen, j, n);
        if j :| LastBefore(seen, j, n) {
          assert LastBefore(seen, j, k);
        }
      }
    }
  }

  lemma {:induction false} FiresAre(row: Row, seen: seq<Option<Sha>>, k: nat)
    requires row.enabled && row.isGit && row.state.None? && k < |seen|
    ensures |Followed(row, seen).1| == |seen|
    ensures Followed(row, seen).1[k] <==> seen[k].Some? && ShouldFire(StateAfter(seen[..k]), seen[k].value)
  {
    var init := seen[..|seen| - 1];
    FollowedState(row, seen);
    FollowedState(row, init);
    if k < |init| {
      FiresAre(row, init, k);
      assert init[..k] == seen[..k];
    } else {
      assert seen[..k] == init;
    }
  }

  /** A new row fires at a pass exactly when git answers and the head differs from the one of the last pass at which git
      answered: never on first sight, never on an unchanged head, never because git failed in between, and on every
      change that a pass gets to see. */
  lemma FiresExactlyOnChange(row: Row, seen: seq<Option<Sha>>, k: nat)
    requires row.enabled && row.isGit && row.state.None? && k < |seen|
    ensures |Followed(row, seen).1| == |seen|
    ensures Followed(row, seen).1[k] <==> seen[k].Some? && exists j :: LastBefore(seen, j, k) && seen[j] != seen[k]
  {
    FiresAre(row, seen, k);
    StateIsLast(seen, k);
  }

  /** A row that is disabled or has another trigger never fires and keeps its state, whatever git answers. */
  lemma {:induction false} OthersNeverFire(row: Row, seen: seq<Option<Sha>>)
    requires !row.enabled || !row.isGit
    ensures Followed(row, seen).0 == row && |Followed(row, seen).1| == |seen|
    ensures forall k | 0 <= k < |seen| :: !Followed(row, seen).1[k]
  {
    if seen != [] { OthersNeverFire(row, seen[..|seen| - 1]); }
  }

  /** git answers for an enabled git row with another head than the one last seen. */
  ghost predicate Fires(row: Row, head: Option<Sha>) {
    row.enabled && row.isGit && head.Some? && row.state.Some? && head != row.state
  }

  /** The places of the first `n` rows that fire. */
  ghost function Places(rows: seq<Row>, heads: seq<Option<Sha>>, n: nat): (at: seq<nat>)
    requires n <= |rows| == |heads|
    ensures forall j | 0 <= j < |at| :: at[j] < n
  {
    if n == 0 then []
    else Places(rows, heads, n - 1) + if Fires(rows[n - 1], heads[n - 1]) then [n - 1] else []
  }

  lemma {:induction false} PlacesAre(rows: seq<Row>, heads: seq<Option<Sha>>, n: nat, i: nat)
    requires n <= |rows| == |heads|
    ensures i in Places(rows, heads, n) <==> i < n && Fires(rows[i], heads[i])
  {
    if n > 0 { PlacesAre(rows, heads, n - 1, i); }
  }

  /** What a pass returns: the ids of exactly the rows that fire, each once, in row order. */
  lemma {:induction false} FiredInOrder(rows: seq<Row>, heads: seq<Option<Sha>>, n: nat)
    requires n <= |rows| == |heads|
    ensures var at, ids := Places(rows, heads, n), Fired(rows, heads, n);
      && |ids| == |at| && (forall j | 0 <= j < |at| :: ids[j] == rows[at[j]].id)
      && (forall i, j | 0 <= i < j < |at| :: at[i] < at[j])
    ensures forall i :: i in Places(rows, heads, n) <==> 0 <= i < n && Fires(rows[i], heads[i])
  {
    if n > 0 { FiredInOrder(rows, heads, n - 1); }
    forall i: nat ensures i in Places(rows, heads, n) <==> i < n && Fires(rows[i], heads[i]) {
      PlacesAre(rows, heads, n, i);
    }
  }
}
