/** The page diagnostics: a ring of the last hundred entries of each kind, under one sequence counter, read
    incrementally by a cursor. */
module Diagnostics {

  const MAX: nat := 100

  datatype Kind = Console | Network
  datatype Entry = Entry(number: nat, kind: Kind, text: string)

  /** `diag`: the counter and one array per kind. */
  class Diag {
    var latest: nat
    var console: seq<Entry>
    var network: seq<Entry>
    ghost var log: seq<Entry>

    ghost predicate Valid()
      reads this
    {
      && Logged(log, latest)
      && console == LastOf(log, Console) && network == LastOf(log, Network)
    }

    constructor ()
      ensures Valid() && log == [] && latest == 0
    {
      latest, console, network, log := 0, [], [], [];
    }

    /** `push`. */
    method Push(kind: Kind, text: string)
      requires Valid()
      modifies this
      ensures Valid() && latest == old(latest) + 1 && log == old(log) + [Entry(latest, kind, text)]
    {
      latest := latest + 1;
      var entry := Entry(latest, kind, text);
      PushKeeps(log, entry, Console);
      PushKeeps(log, entry, Network);
      log := log + [entry];
      if kind.Console? {
        console := PushOnto(console, entry);
      } else {
        network := PushOnto(network, entry);
      }
    }

    /** The splice in `push`. */
    static method PushOnto(arr: seq<Entry>, entry: Entry) returns (r: seq<Entry>)
      requires |arr| <= MAX
      ensures r == Tail(arr + [entry])
    {
      r := arr + [entry];
      if |r| > MAX {
        r := r[|r| - MAX..];
      }
    }

    /** `diag_read_js`: the entries after the cursor, and the cursor to resume with. */
    method Read(kind: Kind, since: nat) returns (entries: seq<Entry>, cursor: nat)
      requires Valid()
      ensures entries == Newer(LastOf(log, kind), since) && cursor == latest
    {
      var arr := if kind.Console? then console else network;
      entries := [];
      for i := 0 to |arr|
        invariant entries == Newer(arr[..i], since)
      {
        NewerOneMore(arr, i, since);
        if arr[i].number > since {
          entries := entries + [arr[i]];
        }
      }
      assert arr[..|arr|] == arr;
      cursor := latest;
    }
  }

  // ---- The log ----

  /** Entry i of the log carries number i + 1. */
  ghost predicate Logged(log: seq<Entry>, latest: nat) {
    |log| == latest && forall i | 0 <= i < |log| :: log[i].number == i + 1
  }

  function Of(log: seq<Entry>, kind: Kind): seq<Entry> {
    if log == [] then [] else (if log[0].kind == kind then [log[0]] else []) + Of(log[1..], kind)
  }

  function LastOf(log: seq<Entry>, kind: Kind): seq<Entry> {
    Tail(Of(log, kind))
  }

  function Tail(s: seq<Entry>): seq<Entry> {
    if |s| <= MAX then s else s[|s| - MAX..]
  }

  function Newer(s: seq<Entry>, since: nat): seq<Entry> {
    if s == [] then [] else (if s[0].number > since then [s[0]] else []) + Newer(s[1..], since)
  }

  lemma {:induction false} OfAppend(a: seq<Entry>, b: seq<Entry>, kind: Kind)
    ensures Of(a + b, kind) == Of(a, kind) + Of(b, kind)
  {
    if a == [] {
      assert a + b == b;
    } else {
      assert (a + b)[1..] == a[1..] + b;
      OfAppend(a[1..], b, kind);
      if a[0].kind == kind {
        assert Of(a + b, kind) == [a[0]] + (Of(a[1..], kind) + Of(b, kind));
      } else {
        assert Of(a + b, kind) == Of(a[1..], kind) + Of(b, kind);
      }
    }
  }

  lemma OfOneMore(log: seq<Entry>, e: Entry, kind: Kind)
    ensures Of(log + [e], kind) == Of(log, kind) + if e.kind == kind then [e] else []
  {
    OfAppend(log, [e], kind);
    assert [e][1..] == [];
  }

  /** Appending and cutting back to the limit is what the ring does. */
  lemma TailOneMore(s: seq<Entry>, e: Entry)
    ensures |Tail(s)| <= MAX && Tail(s + [e]) == Tail(Tail(s) + [e])
  {
  }

  /** One more entry, seen from the ring of either kind. */
  lemma PushKeeps(log: seq<Entry>, e: Entry, kind: Kind)
    ensures |LastOf(log, kind)| <= MAX
    ensures LastOf(log + [e], kind) == if e.kind == kind then Tail(LastOf(log, kind) + [e]) else LastOf(log, kind)
  {
    OfOneMore(log, e, kind);
    if e.kind == kind { TailOneMore(Of(log, kind), e); } else { assert Of(log, kind) + [] == Of(log, kind); }
  }

  lemma TailAppend(a: seq<Entry>, b: seq<Entry>)
    ensures |b| >= MAX ==> Tail(a + b) == Tail(b)
    ensures |b| < MAX ==> Tail(b) == b && exists from | 0 <= from <= |a| :: Tail(a + b) == a[from..] + b
  {
    if |b| < MAX {
      var from := if |a| + |b| <= MAX then 0 else |a| + |b| - MAX;
      assert Tail(a + b) == a[from..] + b;
    }
  }

  lemma {:induction false} NewerAppend(a: seq<Entry>, b: seq<Entry>, since: nat)
    ensures Newer(a + b, since) == Newer(a, since) + Newer(b, since)
  {
    if a == [] {
      assert a + b == b;
    } else {
      assert (a + b)[1..] == a[1..] + b;
      NewerAppend(a[1..], b, since);
      if a[0].number > since {
        assert Newer(a + b, since) == [a[0]] + (Newer(a[1..], since) + Newer(b, since));
      } else {
        assert Newer(a + b, since) == Newer(a[1..], since) + Newer(b, since);
      }
    }
  }

  lemma NewerOneMore(s: seq<Entry>, i: nat, since: nat)
    requires i < |s|
    ensures Newer(s[..i + 1], since) ==
      if s[i].number > since then Newer(s[..i], since) + [s[i]] else Newer(s[..i], since)
  {
    assert s[..i + 1] == s[..i] + [s[i]];
    NewerAppend(s[..i], [s[i]], since);
    assert Newer([s[i]], since) == if s[i].number > since then [s[i]] else [];
    assert Newer(s[..i], since) + [] == Newer(s[..i], since);
  }

  lemma {:induction false} NewerAll(s: seq<Entry>, since: nat)
    requires forall e <- s :: e.number > since
    ensures Newer(s, since) == s
  {
    if s != [] { NewerAll(s[1..], since); }
  }

  lemma {:induction false} NewerNone(s: seq<Entry>, since: nat)
    requires forall e <- s :: e.number <= since
    ensures Newer(s, since) == []
  {
    if s != [] { NewerNone(s[1..], since); }
  }

  lemma {:induction false} OfMembers(log: seq<Entry>, kind: Kind)
    ensures forall e <- Of(log, kind) :: e in log
  {
    if log != [] { OfMembers(log[1..], kind); }
  }

  /** The ring of `before + since0`, read from between the two. */
  lemma NewerOfRing(before: seq<Entry>, since0: seq<Entry>, since: nat)
    requires (forall e <- before :: e.number <= since) && forall e <- since0 :: e.number > since
    ensures Newer(Tail(before + since0), since) == Tail(since0)
  {
    TailAppend(before, since0);
    if |since0| >= MAX {
      NewerAll(Tail(since0), since);
    } else {
      var from :| 0 <= from <= |before| && Tail(before + since0) == before[from..] + since0;
      NewerAppend(before[from..], since0, since);
      NewerNone(before[from..], since);
      NewerAll(since0, since);
    }
  }

  /** A read with the cursor of an earlier read gives exactly what arrived of the kind since then, in order, but no
      more than the last hundred: nothing twice, and nothing lost while at most a hundred of the kind arrive between
      two reads. */
  lemma ReadGivesTheNew(log: seq<Entry>, latest: nat, kind: Kind, since: nat)
    requires Logged(log, latest) && since <= latest
    ensures Newer(LastOf(log, kind), since) == Tail(Of(log[since..], kind))
    ensures var arrived := Of(log[since..], kind);
      Newer(LastOf(log, kind), since) == if |arrived| <= 100 then arrived else arrived[|arrived| - 100..]
  {
    var before, since0 := log[..since], log[since..];
    assert log == before + since0;
    OfAppend(before, since0, kind);
    OfMembers(before, kind);
    OfMembers(since0, kind);
    assert forall e <- before :: e.number <= since;
    assert forall e <- since0 :: e.number > since;
    NewerOfRing(Of(before, kind), Of(since0, kind), since);
  }

  // ---- A reader over time ----

  datatype Event = Arrive(kind: Kind, text: string) | Poll

  /** Everything a resuming reader of one kind has been given, starting at cursor `since`. */
  function Given(log: seq<Entry>, kind: Kind, since: nat, events: seq<Event>): seq<Entry>
    decreases events
  {
    if events == [] then []
    else match events[0]
      case Arrive(k, text) => Given(log + [Entry(|log| + 1, k, text)], kind, since, events[1..])
      case Poll => Newer(LastOf(log, kind), since) + Given(log, kind, |log|, events[1..])
  }

  function Grown(log: seq<Entry>, events: seq<Event>): seq<Entry>
    decreases events
  {
    if events == [] then log
    else match events[0]
      case Arrive(k, text) => Grown(log + [Entry(|log| + 1, k, text)], events[1..])
      case Poll => Grown(log, events[1..])
  }

  /** At each poll at most a hundred entries of the kind are new. */
  ghost predicate Keeps(log: seq<Entry>, kind: Kind, since: nat, events: seq<Event>)
    decreases events
  {
    events != [] ==>
      match events[0]
      case Arrive(k, text) => Keeps(log + [Entry(|log| + 1, k, text)], kind, since, events[1..])
      case Poll => (since <= |log| ==> |Of(log[since..], kind)| <= 100) && Keeps(log, kind, |log|, events[1..])
  }

  /** Over any interleaving of both kinds of entries and the polls of one reader: the polls together give each entry
      of the reader's kind once, in order, up to the last poll, provided each poll comes within a hundred of them. */
  lemma {:induction false} NothingLostOrRepeated(log: seq<Entry>, kind: Kind, since: nat, events: seq<Event>)
    requires Logged(log, |log|) && since <= |log| && Keeps(log, kind, since, events)
    requires events != [] && events[|events| - 1].Poll?
    ensures log <= Grown(log, events)
    ensures Given(log, kind, since, events) == Of(Grown(log, events)[since..], kind)
    decreases events
  {
    match events[0]
    case Arrive(k, text) =>
      var e := Entry(|log| + 1, k, text);
      NothingLostOrRepeated(log + [e], kind, since, events[1..]);
    case Poll =>
      ReadGivesTheNew(log, |log|, kind, since);
      if |events| > 1 {
        NothingLostOrRepeated(log, kind, |log|, events[1..]);
        PollAdds(log, Grown(log, events), kind, since);
      } else {
        assert events[1..] == [];
        assert Given(log, kind, since, events) == Newer(LastOf(log, kind), since) + [];
      }
  }

  /** What arrived before a poll and what arrives after it. */
  lemma PollAdds(log: seq<Entry>, all: seq<Entry>, kind: Kind, since: nat)
    requires log <= all && since <= |log|
    ensures Of(all[since..], kind) == Of(log[since..], kind) + Of(all[|log|..], kind)
  {
    assert all[since..] == log[since..] + all[|log|..];
    OfAppend(log[since..], all[|log|..], kind);
  }
}
