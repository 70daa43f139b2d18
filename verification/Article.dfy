/** The two selection loops of the reader view's `_grabArticle`: the bounded insertion of top candidates,
    and the sieve that retries with fewer flags. */
module StableOrders {

  /** `i` precedes `j` in a stable descending sort of `scores`. */
  predicate Before(scores: seq<real>, i: nat, j: nat)
    requires i < |scores| && j < |scores|
  {
    scores[i] > scores[j] || (scores[i] == scores[j] && i < j)
  }

  ghost predicate Indices(scores: seq<real>, order: seq<nat>) {
    forall i | 0 <= i < |order| :: order[i] < |scores|
  }

  ghost predicate Descending(scores: seq<real>, order: seq<nat>)
    requires Indices(scores, order)
  {
    forall a, b | 0 <= a < b < |order| :: Before(scores, order[a], order[b])
  }

  /** `order` lists every index once, as a stable descending sort does. */
  ghost predicate IsStableOrder(scores: seq<real>, order: seq<nat>) {
    && Indices(scores, order)
    && |order| == |scores|
    && (forall i: nat | i < |scores| :: i in order)
    && Descending(scores, order)
  }

  function Insert(scores: seq<real>, order: seq<nat>, c: nat): (r: seq<nat>)
    requires c < |scores| && Indices(scores, order)
    ensures Indices(scores, r) && |r| == |order| + 1
    ensures forall i :: i in r <==> i in order || i == c
  {
    if order == [] || scores[c] > scores[order[0]] then [c] + order
    else [order[0]] + Insert(scores, order[1..], c)
  }

  function StableOrder(scores: seq<real>): (r: seq<nat>)
    ensures Indices(scores, r) && |r| == |scores|
  {
    if scores == [] then []
    else Insert(scores, StableOrder(scores[..|scores| - 1]), |scores| - 1)
  }

  lemma {:induction false} InsertOrdered(scores: seq<real>, order: seq<nat>, c: nat)
    requires c < |scores| && Indices(scores, order) && Descending(scores, order)
    requires forall i | 0 <= i < |order| :: order[i] < c
    ensures Descending(scores, Insert(scores, order, c))
  {
    var r := Insert(scores, order, c);
    if order == [] {
    } else if scores[c] > scores[order[0]] {
      forall a, b | 0 <= a < b < |r| ensures Before(scores, r[a], r[b]) {
        if a == 0 && b > 1 { assert Before(scores, order[0], order[b - 1]); }
      }
    } else {
      var rest := order[1..];
      InsertOrdered(scores, rest, c);
      var s := Insert(scores, rest, c);
      forall b | 0 < b < |r| ensures Before(scores, r[0], r[b]) {
        assert r[b] == s[b - 1] && s[b - 1] in s;
        if s[b - 1] != c {
          var k :| 0 <= k < |rest| && rest[k] == s[b - 1];
          assert Before(scores, order[0], order[k + 1]);
        }
      }
    }
  }

  /** The insertion definition is the stable descending sort. */
  lemma {:induction false} StableOrderIsSorted(scores: seq<real>)
    ensures IsStableOrder(scores, StableOrder(scores))
  {
    if scores != [] {
      var init, c := scores[..|scores| - 1], |scores| - 1;
      StableOrderIsSorted(init);
      var o := StableOrder(init);
      assert Descending(scores, o) by {
        assert forall a, b | 0 <= a < b < |o| :: Before(init, o[a], o[b]);
      }
      InsertOrdered(scores, o, c);
      var r := Insert(scores, o, c);
      assert StableOrder(scores) == r;
      forall i: nat | i < |scores| ensures i in r {
        assert i == c || i in o;
      }
    }
  }

  /** There is only one such order. */
  lemma {:induction false} StableOrderUnique(scores: seq<real>, r: seq<nat>, s: seq<nat>, k: nat)
    requires IsStableOrder(scores, r) && IsStableOrder(scores, s)
    requires k <= |r|
    ensures r[..k] == s[..k]
  {
    if k > 0 {
      var i := k - 1;
      StableOrderUnique(scores, r, s, i);
      assert forall j | 0 <= j < i :: r[j] == r[..i][j] == s[..i][j] == s[j];
      assert r[i] in s && s[i] in r;
      var a :| 0 <= a < |s| && s[a] == r[i];
      var b :| 0 <= b < |r| && r[b] == s[i];
      assert r[..k] == r[..i] + [r[i]] && s[..k] == s[..i] + [s[i]];
    }
  }

  function Take(order: seq<nat>, n: nat): seq<nat> {
    if |order| <= n then order else order[..n]
  }

  lemma TakeStep(first: nat, rest: seq<nat>, n: nat)
    requires n > 0
    ensures Take([first] + rest, n) == [first] + Take(rest, n - 1)
  {
  }

  lemma InsertStep(scores: seq<real>, first: nat, rest: seq<nat>, c: nat)
    requires c < |scores| && first < |scores| && Indices(scores, [first] + rest) && Indices(scores, rest)
    requires scores[c] <= scores[first]
    ensures Insert(scores, [first] + rest, c) == [first] + Insert(scores, rest, c)
  {
    assert ([first] + rest)[1..] == rest;
  }

  /** Inserting into the first `n` and cutting again is the same as inserting into the whole order. */
  lemma {:induction false} TakeInsert(scores: seq<real>, order: seq<nat>, c: nat, n: nat)
    requires c < |scores| && Indices(scores, order)
    ensures Take(Insert(scores, order, c), n) == Take(Insert(scores, Take(order, n), c), n)
  {
    if order != [] && n > 0 {
      var first, rest := order[0], order[1..];
      assert order == [first] + rest;
      TakeStep(first, rest, n);
      var cut := Take(rest, n - 1);
      if scores[c] > scores[first] {
        TakeStep(c, order, n);
        TakeStep(c, [first] + cut, n);
      } else {
        InsertStep(scores, first, rest, c);
        InsertStep(scores, first, cut, c);
        TakeStep(first, Insert(scores, rest, c), n);
        TakeStep(first, Insert(scores, cut, c), n);
        TakeInsert(scores, rest, c, n - 1);
      }
    }
  }

  /** The position the insertion loop finds. */
  lemma {:induction false} InsertAt(scores: seq<real>, order: seq<nat>, c: nat, t: nat)
    requires c < |scores| && Indices(scores, order) && t <= |order|
    requires forall u | 0 <= u < t :: scores[c] <= scores[order[u]]
    ensures t == |order| || scores[c] > scores[order[t]] ==> Insert(scores, order, c) == order[..t] + [c] + order[t..]
    ensures Take(Insert(scores, order, c), t) == order[..t]
  {
    if t > 0 {
      InsertAt(scores, order[1..], c, t - 1);
      var s := Insert(scores, order[1..], c);
      assert scores[c] <= scores[order[0]];
      assert Insert(scores, order, c) == [order[0]] + s;
      assert Take(Insert(scores, order, c), t) == [order[0]] + Take(s, t - 1);
    }
  }

  lemma {:induction false} InsertExtends(short: seq<real>, scores: seq<real>, order: seq<nat>, c: nat)
    requires |short| <= |scores| && scores[..|short|] == short
    requires c < |short| && Indices(short, order)
    ensures Indices(scores, order) && Insert(short, order, c) == Insert(scores, order, c)
  {
    if order != [] { InsertExtends(short, scores, order[1..], c); }
  }
}

module TopCandidateLoop {
  import opened StableOrders

  function Scale(score: real, linkDensity: real): real {
    score * (1.0 - linkDensity)
  }

  ghost function Scaled(score: seq<real>, density: seq<real>): (r: seq<real>)
    requires |score| == |density|
    ensures |r| == |score| && forall i | 0 <= i < |r| :: r[i] == Scale(score[i], density[i])
    ensures forall i | 0 <= i < |r| :: r[i] == score[i] - score[i] * density[i]
  {
    seq(|score|, i requires 0 <= i < |score| => Scale(score[i], density[i]))
  }

  /** The inner loop: splice candidate `c` in front of the first entry it beats, and pop what exceeds `n`. */
  method Offer(score: array<real>, top: seq<nat>, c: nat, n: nat) returns (r: seq<nat>)
    requires c < score.Length && Indices(score[..], top) && |top| <= n
    ensures r == Take(Insert(score[..], top, c), n)
  {
    r := top;
    var t := 0;
    while t < n
      invariant 0 <= t <= n && t <= |top| && r == top
      invariant forall u | 0 <= u < t :: score[..][c] <= score[..][top[u]]
    {
      if t >= |r| || score[c] > score[r[t]] {
        InsertAt(score[..], top, c, t);
        r := r[..t] + [c] + r[t..];
        if |r| > n {
          r := r[..|r| - 1];
        }
        return;
      }
      t := t + 1;
    }
    InsertAt(score[..], top, c, t);
  }

  /** The best `n` of one more score follow from the best `n` so far. */
  lemma OneMoreInOrder(final: seq<real>, c: nat, n: nat)
    requires c < |final|
    ensures var seen, top := final[..c + 1], Take(StableOrder(final[..c]), n);
      Indices(seen, top) && Take(StableOrder(seen), n) == Take(Insert(seen, top, c), n)
  {
    var seen := final[..c + 1];
    assert seen[..c] == final[..c];
    TakeInsert(seen, StableOrder(final[..c]), c, n);
  }

  /** One more candidate scaled in place and offered. */
  method Consider(score: array<real>, ghost final: seq<real>, top: seq<nat>, c: nat, n: nat) returns (r: seq<nat>)
    requires |final| == score.Length && c < score.Length
    requires forall i | 0 <= i <= c :: score[i] == final[i]
    requires Indices(final[..c], top) && top == Take(StableOrder(final[..c]), n)
    ensures Indices(final[..c + 1], r) && r == Take(StableOrder(final[..c + 1]), n)
  {
    ghost var seen := final[..c + 1];
    OneMoreInOrder(final, c, n);
    assert score[..][..c + 1] == seen;
    InsertExtends(seen, score[..], top, c);
    r := Offer(score, top, c, n);
  }

  /** The candidate loop: scales each candidate's score in place and keeps the best `n` candidates. */
  method TopCandidates(score: array<real>, density: seq<real>, n: nat) returns (top: seq<nat>)
    requires |density| == score.Length
    modifies score
    ensures score[..] == Scaled(old(score[..]), density)
    ensures top == Take(StableOrder(score[..]), n)
  {
    ghost var final := Scaled(score[..], density);
    top := [];
    for c := 0 to score.Length
      invariant forall i | 0 <= i < c :: score[i] == final[i]
      invariant forall i | c <= i < score.Length :: score[i] == old(score[i])
      invariant Indices(final[..c], top) && top == Take(StableOrder(final[..c]), n)
    {
      score[c] := Scale(score[c], density[c]);
      top := Consider(score, final, top, c, n);
    }
    assert final[..score.Length] == final == score[..];
  }
}

module FlagSieve {
  import opened Options
  import opened StableOrders

  const FLAG_STRIP_UNLIKELYS: bv8 := 0x1
  const FLAG_WEIGHT_CLASSES: bv8 := 0x2
  const FLAG_CLEAN_CONDITIONALLY: bv8 := 0x4

  datatype Attempt<C> = Attempt(articleContent: C, textLength: nat)

  function Active(flags: bv8): (n: nat)
    ensures n <= 3
  {
    (if flags & FLAG_STRIP_UNLIKELYS > 0 then 1 else 0)
    + (if flags & FLAG_WEIGHT_CLASSES > 0 then 1 else 0)
    + (if flags & FLAG_CLEAN_CONDITIONALLY > 0 then 1 else 0)
  }

  /** The flags after a failed pass: the first active one is dropped. */
  function Strip(flags: bv8): bv8 {
    if flags & FLAG_STRIP_UNLIKELYS > 0 then flags & !FLAG_STRIP_UNLIKELYS
    else if flags & FLAG_WEIGHT_CLASSES > 0 then flags & !FLAG_WEIGHT_CLASSES
    else flags & !FLAG_CLEAN_CONDITIONALLY
  }

  /** The flags of pass `i`. */
  function FlagsAt(flags: bv8, i: nat): bv8 {
    if i == 0 then flags else Strip(FlagsAt(flags, i - 1))
  }

  lemma StripDrops(flags: bv8)
    ensures Active(flags) > 0 ==> Active(Strip(flags)) == Active(flags) - 1
  {
    if flags & FLAG_STRIP_UNLIKELYS > 0 {
      var f := flags & !FLAG_STRIP_UNLIKELYS;
      assert f & 1 == 0 && f & 2 == flags & 2 && f & 4 == flags & 4;
    } else if flags & FLAG_WEIGHT_CLASSES > 0 {
      var f := flags & !FLAG_WEIGHT_CLASSES;
      assert f & 1 == flags & 1 && f & 2 == 0 && f & 4 == flags & 4;
    } else {
      var f := flags & !FLAG_CLEAN_CONDITIONALLY;
      assert f & 1 == flags & 1 && f & 2 == flags & 2 && f & 4 == 0;
    }
  }

  /** The flags of a later pass, by the order in which they are given up: none comes on, WEIGHT_CLASSES goes only once
      STRIP_UNLIKELYS is off, and CLEAN_CONDITIONALLY only once both of these are. */
  ghost predicate GivenUpInOrder(flags: bv8, f: bv8) {
    && f & !flags == 0
    && (f & 2 == 0 ==> flags & 2 == 0 || f & 1 == 0)
    && (f & 4 == 0 ==> flags & 4 == 0 || f & 3 == 0)
  }

  lemma StripInOrder(flags: bv8, f: bv8)
    requires GivenUpInOrder(flags, f)
    ensures GivenUpInOrder(flags, Strip(f)) && Strip(f) & 0xF8 == f & 0xF8
  {
  }

  /** At pass `i` exactly `i` of the flags active at the start have been given up, in this order, until none is left. */
  lemma {:induction false} PassesInOrder(flags: bv8, i: nat)
    ensures GivenUpInOrder(flags, FlagsAt(flags, i)) && FlagsAt(flags, i) & 0xF8 == flags & 0xF8
    ensures Active(FlagsAt(flags, i)) == if i < Active(flags) then Active(flags) - i else 0
  {
    if i > 0 {
      PassesInOrder(flags, i - 1);
      var f := FlagsAt(flags, i - 1);
      StripInOrder(flags, f);
      if Active(f) > 0 { StripDrops(f); } else { NothingToStrip(f); }
    }
  }

  lemma NothingToStrip(f: bv8)
    requires Active(f) == 0
    ensures Active(Strip(f)) == 0
  {
    assert f & 1 == 0 && f & 2 == 0 && f & 4 == 0;
    assert Strip(f) == f & !4;
  }

  /** With all three flags active the four passes run with all of them, without STRIP_UNLIKELYS, with
      CLEAN_CONDITIONALLY alone, and with none. */
  lemma FourPasses()
    ensures FlagsAt(7, 0) == 7 && FlagsAt(7, 1) == 6 && FlagsAt(7, 2) == 4 && FlagsAt(7, 3) == 0
  {
    assert FlagsAt(7, 1) == Strip(FlagsAt(7, 0));
    assert FlagsAt(7, 2) == Strip(FlagsAt(7, 1));
  }

  /** What a pass extracts. The flags differ on every pass, so this leaves each pass free. */
  type Extract<!C> = bv8 -> Attempt<C>

  function Tried<C>(run: Extract<C>, flags: bv8, k: nat): (r: seq<Attempt<C>>)
    ensures |r| == k
  {
    if k == 0 then [] else Tried(run, flags, k - 1) + [run(FlagsAt(flags, k - 1))]
  }

  lemma TriedGrows<C>(before: seq<Attempt<C>>, run: Extract<C>, flags: bv8, k: nat)
    ensures before + Tried(run, flags, k) + [run(FlagsAt(flags, k))] == before + Tried(run, flags, k + 1)
  {
  }

  function Lengths<C>(attempts: seq<Attempt<C>>): seq<real> {
    seq(|attempts|, i requires 0 <= i < |attempts| => attempts[i].textLength as real)
  }

  /** `attempts.sort` by descending text length; JavaScript's sort is stable. */
  function Sorted<C>(attempts: seq<Attempt<C>>): (r: seq<Attempt<C>>)
    ensures |r| == |attempts|
  {
    var order := StableOrder(Lengths(attempts));
    seq(|order|, i requires 0 <= i < |order| => attempts[order[i]])
  }

  /** Attempt `j` is the longest, and the earliest of those as long. */
  ghost predicate EarliestLongest<C>(attempts: seq<Attempt<C>>, j: nat) {
    && j < |attempts|
    && (forall i | 0 <= i < |attempts| :: attempts[i].textLength <= attempts[j].textLength)
    && (forall i | 0 <= i < j :: attempts[i].textLength < attempts[j].textLength)
  }

  /** What is returned once no attempt reached the threshold. */
  ghost predicate Best<C>(attempts: seq<Attempt<C>>, article: Option<C>) {
    && (article.None? <==> forall a <- attempts :: a.textLength == 0)
    && (article.Some? ==> exists j: nat :: EarliestLongest(attempts, j) && article.value == attempts[j].articleContent)
  }

  lemma SortedHead<C>(attempts: seq<Attempt<C>>) returns (j: nat)
    requires attempts != []
    ensures EarliestLongest(attempts, j) && Sorted(attempts)[0] == attempts[j]
  {
    var l := Lengths(attempts);
    StableOrderIsSorted(l);
    var order := StableOrder(l);
    j := order[0];
    forall i: nat | i < |attempts| && i != j
      ensures attempts[i].textLength < attempts[j].textLength ||
        (attempts[i].textLength == attempts[j].textLength && j < i)
    {
      assert i in order;
      var k :| 0 <= k < |order| && order[k] == i;
      assert Before(l, order[0], order[k]);
    }
  }

  class Readability<C> {
    var flags: bv8
    var attempts: seq<Attempt<C>>
    const charThreshold: nat

    constructor (charThreshold: nat)
      ensures this.charThreshold == charThreshold && attempts == [] && flags == 7
    {
      this.charThreshold := charThreshold;
      flags := FLAG_STRIP_UNLIKELYS | FLAG_WEIGHT_CLASSES | FLAG_CLEAN_CONDITIONALLY;
      attempts := [];
    }

    /** The branch chain after a short attempt: drop the first active flag, if there is one. */
    method RemoveFirstFlag() returns (removed: bool)
      modifies this`flags
      ensures removed <==> Active(old(flags)) > 0
      ensures removed ==> flags == Strip(old(flags)) && Active(flags) == Active(old(flags)) - 1
      ensures GivenUpInOrder(old(flags), flags) && (!removed ==> flags == old(flags))
    {
      StripDrops(flags);
      removed := true;
      if flags & FLAG_STRIP_UNLIKELYS > 0 {
        flags := flags & !FLAG_STRIP_UNLIKELYS;
      } else if flags & FLAG_WEIGHT_CLASSES > 0 {
        flags := flags & !FLAG_WEIGHT_CLASSES;
      } else if flags & FLAG_CLEAN_CONDITIONALLY > 0 {
        flags := flags & !FLAG_CLEAN_CONDITIONALLY;
      } else {
        removed := false;
      }
    }

    /** Out of flags: sort the attempts and take the first, unless even that one has no text. */
    method BestAttempt() returns (article: Option<C>)
      requires attempts != []
      modifies this`attempts
      ensures attempts == Sorted(old(attempts))
      ensures Best(old(attempts), article)
    {
      ghost var j := SortedHead(attempts);
      attempts := Sorted(attempts);
      if attempts[0].textLength == 0 {
        return None;
      }
      return Some(attempts[0].articleContent);
    }

    /** The retry loop of `_grabArticle`: at most one pass per active flag and one more. It returns the first
        attempt that reaches the threshold; with none, the earliest longest of all attempts, or nothing when
        they are all empty. */
    method GrabArticle(run: Extract<C>) returns (article: Option<C>, ghost passes: nat)
      modifies this
      ensures 1 <= passes <= 1 + Active(old(flags)) <= 4
      ensures forall i | 0 <= i < passes - 1 :: run(FlagsAt(old(flags), i)).textLength < charThreshold
      ensures var last := run(FlagsAt(old(flags), passes - 1));
        if last.textLength >= charThreshold then
          article == Some(last.articleContent) && attempts == old(attempts) + Tried(run, old(flags), passes - 1)
        else
          var all := old(attempts) + Tried(run, old(flags), passes);
          passes == 1 + Active(old(flags)) && attempts == Sorted(all) && Best(all, article)
    {
      passes := 0;
      ghost var flags0, attempts0 := flags, attempts;
      while true
        invariant flags == FlagsAt(flags0, passes)
        invariant Active(flags) == Active(flags0) - passes
        invariant attempts == attempts0 + Tried(run, flags0, passes)
        invariant forall i | 0 <= i < passes :: run(FlagsAt(flags0, i)).textLength < charThreshold
        decreases Active(flags)
      {
        var attempt := run(flags);
        passes := passes + 1;
        if attempt.textLength >= charThreshold {
          return Some(attempt.articleContent), passes;
        }
        attempts := attempts + [attempt];
        TriedGrows(attempts0, run, flags0, passes - 1);
        var removed := RemoveFirstFlag();
        if !removed {
          article := BestAttempt();
          return;
        }
      }
    }
  }
}
