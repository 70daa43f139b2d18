/** An ordered element forest and the cursors that walk it.

    `Cons(node, kids, rest)` is an element, its child elements and its later siblings, so a forest is
    the binary first-child / next-sibling view that `firstElementChild` and `nextElementSibling` give.
    A `Path` is a cursor: `Down` enters the children, `Right` moves to the next sibling. */
module Forests {
  import opened Options

  datatype Forest<N> = Nil | Cons(node: N, kids: Forest<N>, rest: Forest<N>)
  datatype Dir = Down | Right
  type Path = seq<Dir>

  /** The clean-up predicate: an element together with its child forest. */
  type Filter<!N> = (N, Forest<N>) -> bool

  function Nodes<N>(f: Forest<N>): set<N> {
    match f
    case Nil => {}
    case Cons(n, k, r) => {n} + Nodes(k) + Nodes(r)
  }

  function Size<N>(f: Forest<N>): nat {
    match f
    case Nil => 0
    case Cons(_, k, r) => 1 + Size(k) + Size(r)
  }

  /** No element occurs twice. */
  ghost predicate Distinct<N>(f: Forest<N>) {
    match f
    case Nil => true
    case Cons(n, k, r) =>
      && n !in Nodes(k) && n !in Nodes(r) && Nodes(k) !! Nodes(r)
      && Distinct(k) && Distinct(r)
  }

  function Head<N>(f: Forest<N>): Option<N> {
    if f.Cons? then Some(f.node) else None
  }

  // ---- Cursors ----

  predicate Valid<N>(f: Forest<N>, p: Path) {
    p == [] || (f.Cons? && Valid(if p[0].Down? then f.kids else f.rest, p[1..]))
  }

  function Focus<N>(f: Forest<N>, p: Path): Forest<N>
    requires Valid(f, p)
  {
    if p == [] then f else Focus(if p[0].Down? then f.kids else f.rest, p[1..])
  }

  function Replace<N>(f: Forest<N>, p: Path, g: Forest<N>): Forest<N>
    requires Valid(f, p)
  {
    if p == [] then g
    else if p[0].Down? then Cons(f.node, Replace(f.kids, p[1..], g), f.rest)
    else Cons(f.node, f.kids, Replace(f.rest, p[1..], g))
  }

  /** The first element at or after the cursor in document order. */
  function After<N>(f: Forest<N>, p: Path): Option<N>
    requires Valid(f, p)
  {
    if p == [] then Head(f)
    else if p[0].Right? then After(f.rest, p[1..])
    else match After(f.kids, p[1..])
      case Some(n) => Some(n)
      case None => Head(f.rest)
  }

  /** The first element strictly after everything at the cursor: where climbing out of it leads. */
  function Beyond<N>(f: Forest<N>, p: Path): Option<N>
    requires Valid(f, p)
  {
    if p == [] then None
    else if p[0].Right? then Beyond(f.rest, p[1..])
    else match Beyond(f.kids, p[1..])
      case Some(n) => Some(n)
      case None => Head(f.rest)
  }

  /** The cursor of the parent element, if the cursor is not at top level. */
  function Enclosing(p: Path): (u: Option<Path>)
    ensures u.Some? ==> |u.value| < |p|
  {
    if p == [] then None
    else match Enclosing(p[1..])
      case Some(u) => Some([p[0]] + u)
      case None => if p[0].Down? then Some([]) else None
  }

  lemma {:induction false} ValidAppend<N>(f: Forest<N>, p: Path, s: Path)
    requires Valid(f, p)
    ensures Valid(f, p + s) <==> Valid(Focus(f, p), s)
    ensures Valid(f, p + s) ==> Focus(f, p + s) == Focus(Focus(f, p), s)
  {
    if p == [] {
      assert p + s == s;
    } else {
      assert (p + s)[1..] == p[1..] + s;
      ValidAppend(if p[0].Down? then f.kids else f.rest, p[1..], s);
    }
  }

  lemma {:induction false} ReplaceAppend<N>(f: Forest<N>, p: Path, g: Forest<N>, s: Path, x: Forest<N>)
    requires Valid(f, p) && Valid(g, s)
    ensures Valid(Replace(f, p, g), p + s)
    ensures Focus(Replace(f, p, g), p + s) == Focus(g, s)
    ensures Replace(Replace(f, p, g), p + s, x) == Replace(f, p, Replace(g, s, x))
    ensures After(Replace(f, p, g), p + s) == if After(g, s).Some? then After(g, s) else Beyond(f, p)
  {
    if p == [] {
      assert p + s == s;
    } else {
      assert (p + s)[1..] == p[1..] + s;
      ReplaceAppend(if p[0].Down? then f.kids else f.rest, p[1..], g, s, x);
    }
  }

  lemma {:induction false} ReplaceFocus<N>(f: Forest<N>, p: Path)
    requires Valid(f, p)
    ensures Replace(f, p, Focus(f, p)) == f
  {
    if p != [] { ReplaceFocus(if p[0].Down? then f.kids else f.rest, p[1..]); }
  }

  lemma {:induction false} FocusNodes<N>(f: Forest<N>, p: Path)
    requires Valid(f, p)
    ensures Nodes(Focus(f, p)) <= Nodes(f)
    ensures Distinct(f) ==> Distinct(Focus(f, p))
  {
    if p != [] { FocusNodes(if p[0].Down? then f.kids else f.rest, p[1..]); }
  }

  lemma {:induction false} ReplaceDistinct<N>(f: Forest<N>, p: Path, g: Forest<N>)
    requires Valid(f, p) && Distinct(f) && Distinct(g) && Nodes(g) <= Nodes(Focus(f, p))
    ensures Distinct(Replace(f, p, g)) && Nodes(Replace(f, p, g)) <= Nodes(f)
  {
    if p != [] {
      var sub := if p[0].Down? then f.kids else f.rest;
      ReplaceDistinct(sub, p[1..], g);
    }
  }

  /** The element that follows a subtree in document order is not one of the subtree's own. */
  lemma {:induction false} BeyondOutside<N>(f: Forest<N>, p: Path)
    requires Valid(f, p) && Distinct(f)
    ensures Beyond(f, p).Some? ==> Beyond(f, p).value in Nodes(f) && Beyond(f, p).value !in Nodes(Focus(f, p))
  {
    if p != [] {
      var sub := if p[0].Down? then f.kids else f.rest;
      BeyondOutside(sub, p[1..]);
      FocusNodes(sub, p[1..]);
    }
  }

  lemma {:induction false} AfterInside<N>(f: Forest<N>, p: Path)
    requires Valid(f, p)
    ensures After(f, p).Some? ==> After(f, p).value in Nodes(f)
  {
    if p != [] { AfterInside(if p[0].Down? then f.kids else f.rest, p[1..]); }
  }

  /** One pre-order step: into the children, or past the whole subtree. */
  lemma {:induction false} AfterStep<N>(f: Forest<N>, p: Path)
    requires Valid(f, p) && Focus(f, p).Cons?
    ensures Valid(f, p + [Down]) && Valid(f, p + [Right])
    ensures After(f, p + [Down]) ==
      if Focus(f, p).kids.Cons? then Some(Focus(f, p).kids.node) else After(f, p + [Right])
    ensures Valid(Replace(f, p, Focus(f, p).rest), p)
    ensures After(Replace(f, p, Focus(f, p).rest), p) == After(f, p + [Right])
  {
    if p == [] {
      assert (p + [Down])[1..] == [] && (p + [Right])[1..] == [];
    } else {
      assert (p + [Down])[1..] == p[1..] + [Down];
      assert (p + [Right])[1..] == p[1..] + [Right];
      AfterStep(if p[0].Down? then f.kids else f.rest, p[1..]);
    }
  }

  // ---- Pruning: what the clean-up is meant to leave ----

  /** Recursive pruning: drop each matching element with its whole subtree. */
  function Prune<N>(f: Forest<N>, drop: Filter<N>): Forest<N> {
    match f
    case Nil => Nil
    case Cons(n, k, r) => if drop(n, k) then Prune(r, drop) else Cons(n, Prune(k, drop), Prune(r, drop))
  }

  /** The forest that results if everything before the cursor stays and the rest is pruned. */
  function Finish<N>(f: Forest<N>, p: Path, drop: Filter<N>): Forest<N>
    requires Valid(f, p)
  {
    if p == [] then Prune(f, drop)
    else if p[0].Right? then Cons(f.node, f.kids, Finish(f.rest, p[1..], drop))
    else Cons(f.node, Finish(f.kids, p[1..], drop), Prune(f.rest, drop))
  }

  /** How many elements the cursor has still to visit. */
  function Work<N>(f: Forest<N>, p: Path): nat
    requires Valid(f, p)
  {
    if p == [] then Size(f)
    else if p[0].Right? then Work(f.rest, p[1..])
    else Work(f.kids, p[1..]) + Size(f.rest)
  }

  lemma {:induction false} Exhausted<N>(f: Forest<N>, p: Path, drop: Filter<N>)
    requires Valid(f, p) && After(f, p).None?
    ensures Finish(f, p, drop) == f && Work(f, p) == 0
  {
    if p != [] { Exhausted(if p[0].Down? then f.kids else f.rest, p[1..], drop); }
  }

  /** The cursor moved on to the element it is due to visit, when it stands past the end of a sibling list. */
  function Settle<N>(f: Forest<N>, p: Path): (q: Path)
    requires Valid(f, p) && After(f, p).Some?
    ensures Valid(f, q) && Focus(f, q).Cons? && Focus(f, q).node == After(f, p).value
  {
    if p == [] then []
    else if p[0].Right? then [Right] + Settle(f.rest, p[1..])
    else if After(f.kids, p[1..]).Some? then [Down] + Settle(f.kids, p[1..])
    else assert [Right][1..] == []; [Right]
  }

  lemma {:induction false} SettleKeeps<N>(f: Forest<N>, p: Path, drop: Filter<N>)
    requires Valid(f, p) && After(f, p).Some?
    ensures Finish(f, Settle(f, p), drop) == Finish(f, p, drop)
    ensures Work(f, Settle(f, p)) == Work(f, p)
  {
    if p != [] {
      var q := Settle(f, p);
      if p[0].Right? {
        SettleKeeps(f.rest, p[1..], drop);
        assert q[1..] == Settle(f.rest, p[1..]);
      } else if After(f.kids, p[1..]).Some? {
        SettleKeeps(f.kids, p[1..], drop);
        assert q[1..] == Settle(f.kids, p[1..]);
      } else {
        Exhausted(f.kids, p[1..], drop);
        assert q[1..] == [];
      }
    }
  }

  /** Keeping the visited element and dropping it each leave the final result as it was, and use up work. */
  lemma {:induction false} FinishStep<N>(f: Forest<N>, p: Path, drop: Filter<N>)
    requires Valid(f, p) && Focus(f, p).Cons?
    ensures var g := Focus(f, p); var cut := Replace(f, p, g.rest);
      && Valid(f, p + [Down]) && Valid(cut, p)
      && Work(f, p + [Down]) < Work(f, p) && Work(cut, p) < Work(f, p)
      && (if drop(g.node, g.kids) then Finish(cut, p, drop) == Finish(f, p, drop)
          else Finish(f, p + [Down], drop) == Finish(f, p, drop))
  {
    if p == [] {
      assert (p + [Down])[1..] == [];
    } else {
      assert (p + [Down])[1..] == p[1..] + [Down];
      FinishStep(if p[0].Down? then f.kids else f.rest, p[1..], drop);
    }
  }

  // ---- What pruning means, element by element ----

  /** The element at the cursor, or one of its ancestors, matches on its original content. */
  ghost predicate Condemned<N>(f: Forest<N>, p: Path, drop: Filter<N>)
    requires Valid(f, p) && Focus(f, p).Cons?
  {
    exists i | 0 <= i <= |p| ::
      && (i == |p| || p[i].Down?)
      && Valid(f, p[..i]) && Focus(f, p[..i]).Cons? && drop(Focus(f, p[..i]).node, Focus(f, p[..i]).kids)
  }

  lemma {:induction false} CondemnedStep<N>(f: Forest<N>, p: Path, drop: Filter<N>)
    requires Valid(f, p) && Focus(f, p).Cons? && p != []
    ensures var sub := if p[0].Down? then f.kids else f.rest;
      Condemned(f, p, drop) <==> (p[0].Down? && drop(f.node, f.kids)) || Condemned(sub, p[1..], drop)
  {
    var sub := if p[0].Down? then f.kids else f.rest;
    forall i | 0 < i <= |p|
      ensures p[..i][1..] == p[1..][..i - 1]
      ensures Valid(f, p[..i]) <==> Valid(sub, p[1..][..i - 1])
      ensures Valid(f, p[..i]) ==> Focus(f, p[..i]) == Focus(sub, p[1..][..i - 1])
    {
      assert p[..i][1..] == p[1..][..i - 1];
    }
    if Condemned(sub, p[1..], drop) {
      var j :| 0 <= j <= |p[1..]| && (j == |p[1..]| || p[1..][j].Down?) && Valid(sub, p[1..][..j])
        && Focus(sub, p[1..][..j]).Cons? && drop(Focus(sub, p[1..][..j]).node, Focus(sub, p[1..][..j]).kids);
      assert p[..j + 1][1..] == p[1..][..j];
      assert Valid(f, p[..j + 1]);
    }
    if p[0].Down? && drop(f.node, f.kids) {
      assert p[..0] == [];
      assert Valid(f, p[..0]) && Focus(f, p[..0]) == f;
    }
    if Condemned(f, p, drop) {
      var i :| 0 <= i <= |p| && (i == |p| || p[i].Down?) && Valid(f, p[..i])
        && Focus(f, p[..i]).Cons? && drop(Focus(f, p[..i]).node, Focus(f, p[..i]).kids);
      if i == 0 {
        assert p[..0] == [];
      } else {
        assert p[..i][1..] == p[1..][..i - 1];
        assert Valid(sub, p[1..][..i - 1]);
      }
    }
  }

  ghost predicate Kept<N>(f: Forest<N>, p: Path, drop: Filter<N>, x: N) {
    Valid(f, p) && Focus(f, p).Cons? && Focus(f, p).node == x && !Condemned(f, p, drop)
  }

  lemma {:induction false} KeptStaysAt<N>(f: Forest<N>, p: Path, drop: Filter<N>, x: N)
    requires Kept(f, p, drop, x)
    ensures x in Nodes(Prune(f, drop))
  {
    if p == [] {
      assert p[..0] == [];
      assert Valid(f, p[..0]) && Focus(f, p[..0]) == f;
    } else {
      CondemnedStep(f, p, drop);
      KeptStaysAt(if p[0].Down? then f.kids else f.rest, p[1..], drop, x);
    }
  }

  lemma {:induction false} StaysKept<N>(f: Forest<N>, drop: Filter<N>, x: N) returns (p: Path)
    requires x in Nodes(Prune(f, drop))
    ensures Kept(f, p, drop, x)
  {
    if !drop(f.node, f.kids) && x == f.node {
      p := [];
      assert forall i | 0 <= i <= |p| :: p[..i] == [];
    } else if !drop(f.node, f.kids) && x in Nodes(Prune(f.kids, drop)) {
      var q := StaysKept(f.kids, drop, x);
      p := [Down] + q;
      assert p[1..] == q;
      CondemnedStep(f, p, drop);
    } else {
      var q := StaysKept(f.rest, drop, x);
      p := [Right] + q;
      assert p[1..] == q;
      CondemnedStep(f, p, drop);
    }
  }

  /** An element survives exactly when it occurs at a place where neither it nor an ancestor matches. */
  lemma PruneKeepsExactly<N>(f: Forest<N>, drop: Filter<N>, x: N)
    ensures x in Nodes(Prune(f, drop)) <==> exists p :: Kept(f, p, drop, x)
  {
    if x in Nodes(Prune(f, drop)) {
      var p := StaysKept(f, drop, x);
    }
    if p :| Kept(f, p, drop, x) {
      KeptStaysAt(f, p, drop, x);
    }
  }

  // ---- Document order ----

  function Preorder<N>(f: Forest<N>): (s: seq<N>)
    ensures forall x <- s :: x in Nodes(f)
  {
    match f
    case Nil => []
    case Cons(n, k, r) => [n] + Preorder(k) + Preorder(r)
  }

  /** The entries of `s` that lie in `keep`, in order. */
  function Only<N(==)>(s: seq<N>, keep: set<N>): seq<N> {
    if s == [] then [] else (if s[0] in keep then [s[0]] else []) + Only(s[1..], keep)
  }

  lemma {:induction false} OnlyAppend<N>(s: seq<N>, t: seq<N>, keep: set<N>)
    ensures Only(s + t, keep) == Only(s, keep) + Only(t, keep)
  {
    if s == [] {
      assert s + t == t;
    } else {
      assert (s + t)[1..] == s[1..] + t;
      OnlyAppend(s[1..], t, keep);
    }
  }

  lemma {:induction false} OnlyAgree<N>(s: seq<N>, a: set<N>, b: set<N>)
    requires forall x | x in s :: x in a <==> x in b
    ensures Only(s, a) == Only(s, b)
  {
    if s != [] { OnlyAgree(s[1..], a, b); }
  }

  /** Pruning never reorders: the survivors stand in their original document order. */
  lemma {:induction false} PruneKeepsOrder<N>(f: Forest<N>, drop: Filter<N>)
    requires Distinct(f)
    ensures Nodes(Prune(f, drop)) <= Nodes(f)
    ensures Preorder(Prune(f, drop)) == Only(Preorder(f), Nodes(Prune(f, drop)))
  {
    match f
    case Nil =>
    case Cons(n, k, r) =>
      PruneKeepsOrder(k, drop);
      PruneKeepsOrder(r, drop);
      var keep := Nodes(Prune(f, drop));
      OnlyAppend([n], Preorder(k), keep);
      OnlyAppend([n] + Preorder(k), Preorder(r), keep);
      OnlyAgree(Preorder(r), keep, Nodes(Prune(r, drop)));
      if drop(n, k) {
        OnlyAgree(Preorder(k), keep, {});
        OnlyNone(Preorder(k));
      } else {
        OnlyAgree(Preorder(k), keep, Nodes(Prune(k, drop)));
      }
  }

  lemma {:induction false} OnlyNone<N>(s: seq<N>)
    ensures Only(s, {}) == []
  {
    if s != [] { OnlyNone(s[1..]); }
  }
}
