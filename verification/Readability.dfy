/** The in-place clean-up walk of the reader view: `_getNextNode`, `_removeAndGetNext` and
    `_cleanMatchedNodes` over linked elements, proved to leave the recursively pruned tree. */
module ReadabilityWalk {
  import opened Options
  import opened Forests

  /** The element links that the walk reads and `remove()` rewrites. */
  class Node {
    var parentNode: Node?
    var firstElementChild: Node?
    var nextElementSibling: Node?
    var previousElementSibling: Node?

    method SetFirst(child: Node?, ghost all: set<Node>)
      requires this in all
      modifies this`firstElementChild
      ensures Snapshot(all) == old(Snapshot(all))[this := old(Snapshot(all))[this].(first := child)]
    {
      firstElementChild := child;
    }

    method SetNext(sibling: Node?, ghost all: set<Node>)
      requires this in all
      modifies this`nextElementSibling
      ensures Snapshot(all) == old(Snapshot(all))[this := old(Snapshot(all))[this].(next := sibling)]
    {
      nextElementSibling := sibling;
    }

    method SetPrevious(sibling: Node?, ghost all: set<Node>)
      requires this in all
      modifies this`previousElementSibling
      ensures Snapshot(all) == old(Snapshot(all))[this := old(Snapshot(all))[this].(prev := sibling)]
    {
      previousElementSibling := sibling;
    }

    method Detach(ghost all: set<Node>)
      requires this in all
      modifies this`parentNode, this`nextElementSibling, this`previousElementSibling
      ensures Snapshot(all) == old(Snapshot(all))[this := Links(null, old(Snapshot(all))[this].first, null, null)]
    {
      parentNode, nextElementSibling, previousElementSibling := null, null, null;
    }

    /** DOM `remove()`: unlink this element, with its subtree, from its parent and siblings. */
    method Remove(ghost all: set<Node>)
      requires Unlinkable(Snapshot(all), this)
      modifies all
      ensures Snapshot(all) == Unlink(old(Snapshot(all)), this)
    {
      var parent, prev, next := parentNode, previousElementSibling, nextElementSibling;
      if prev != null {
        prev.SetNext(next, all);
      } else if parent != null {
        parent.SetFirst(next, all);
      }
      if next != null {
        next.SetPrevious(prev, all);
      }
      Detach(all);
    }
  }

  // ---- The links as a value ----

  datatype Links = Links(parent: Node?, first: Node?, next: Node?, prev: Node?)
  type Heap = map<Node, Links>

  ghost function Snapshot(all: set<Node>): Heap
    reads all
  {
    map n | n in all :: Links(n.parentNode, n.firstElementChild, n.nextElementSibling, n.previousElementSibling)
  }

  /** The elements that unlinking `n` writes to are all there. */
  ghost predicate Unlinkable(h: Heap, n: Node) {
    && n in h && (h[n].prev != null ==> h[n].prev in h) && (h[n].next != null ==> h[n].next in h)
    && (h[n].parent != null && h[n].prev == null ==> h[n].parent in h)
  }

  ghost function Unlink(h: Heap, n: Node): Heap
    requires Unlinkable(h, n)
  {
    var l := h[n];
    var h1 := if l.prev != null then h[l.prev := h[l.prev].(next := l.next)]
              else if l.parent != null then h[l.parent := h[l.parent].(first := l.next)]
              else h;
    var h2 := if l.next != null then h1[l.next := h1[l.next].(prev := l.prev)] else h1;
    h2[n := Links(null, h2[n].first, null, null)]
  }

  function Ref(f: Forest<Node>): Node? {
    if f.Cons? then f.node else null
  }

  function AsRef(o: Option<Node>): Node? {
    if o.Some? then o.value else null
  }

  /** The links in `h` spell out exactly the forest `f` below `parent` and after `prev`. */
  ghost predicate Linked(h: Heap, f: Forest<Node>, parent: Node?, prev: Node?)
    decreases f
  {
    match f
    case Nil => true
    case Cons(n, k, r) =>
      && n in h && h[n] == Links(parent, Ref(k), Ref(r), prev)
      && Linked(h, k, n, null) && Linked(h, r, parent, n)
  }

  lemma {:induction false} LinkedFrame(h: Heap, h': Heap, f: Forest<Node>, parent: Node?, prev: Node?)
    requires Linked(h, f, parent, prev)
    requires forall n | n in Nodes(f) :: n in h' && n in h && h'[n] == h[n]
    ensures Linked(h', f, parent, prev)
    decreases f
  {
    match f
    case Nil =>
    case Cons(n, k, r) =>
      LinkedFrame(h, h', k, n, null);
      LinkedFrame(h, h', r, parent, n);
  }

  lemma {:induction false} LinkedFocus(h: Heap, f: Forest<Node>, parent: Node?, prev: Node?, p: Path)
    requires Linked(h, f, parent, prev) && Valid(f, p) && Focus(f, p).Cons?
    ensures var g := Focus(f, p);
      g.node in h && g.node in Nodes(f) && h[g.node].first == Ref(g.kids) && h[g.node].next == Ref(g.rest)
    ensures Linked(h, Focus(f, p).kids, Focus(f, p).node, null)
    decreases p
  {
    if p != [] {
      if p[0].Down? { LinkedFocus(h, f.kids, f.node, null, p[1..]); }
      else { LinkedFocus(h, f.rest, parent, f.node, p[1..]); }
    }
  }

  /** Whatever `Unlink` writes at an element below the head lies inside the same forest. */
  lemma {:induction false} Neighbours(h: Heap, f: Forest<Node>, parent: Node?, prev: Node?, p: Path)
    requires Linked(h, f, parent, prev) && Valid(f, p) && Focus(f, p).Cons?
    ensures Focus(f, p).node in h
    ensures var l := h[Focus(f, p).node];
      && (l.next != null ==> l.next in Nodes(f))
      && (if p == [] then l.prev == prev && l.parent == parent
          else if l.prev != null then l.prev in Nodes(f)
          else l.parent != null && l.parent in Nodes(f))
    decreases p
  {
    if p != [] {
      if p[0].Down? { Neighbours(h, f.kids, f.node, null, p[1..]); }
      else { Neighbours(h, f.rest, parent, f.node, p[1..]); }
    }
  }

  lemma {:induction false} LinkedIn(h: Heap, f: Forest<Node>, parent: Node?, prev: Node?)
    requires Linked(h, f, parent, prev)
    ensures Nodes(f) <= h.Keys
    decreases f
  {
    if f.Cons? {
      LinkedIn(h, f.kids, f.node, null);
      LinkedIn(h, f.rest, parent, f.node);
    }
  }

  ghost predicate Outside(h: Heap, x: Node?, f: Forest<Node>) {
    x == null || (x in h && x !in Nodes(f))
  }

  lemma CanUnlink(h: Heap, f: Forest<Node>, parent: Node?, prev: Node?, p: Path)
    requires Linked(h, f, parent, prev) && Valid(f, p) && Focus(f, p).Cons?
    requires Outside(h, parent, f) && Outside(h, prev, f)
    ensures Unlinkable(h, Focus(f, p).node)
  {
    LinkedIn(h, f, parent, prev);
    Neighbours(h, f, parent, prev, p);
  }

  lemma CutHead(h: Heap, f: Forest<Node>, parent: Node?, prev: Node?)
    requires Linked(h, f, parent, prev) && Distinct(f) && f.Cons? && Outside(h, parent, f) && Outside(h, prev, f)
    requires Unlinkable(h, f.node)
    ensures Linked(Unlink(h, f.node), f.rest, parent, prev)
  {
    var r, h' := f.rest, Unlink(h, f.node);
    if r.Cons? {
      LinkedIn(h, r, parent, f.node);
      LinkedFrame(h, h', r.kids, r.node, null);
      LinkedFrame(h, h', r.rest, parent, r.node);
    }
  }

  /** A cut among the children of the head leaves the head and its later siblings linked. */
  lemma CutBelow(h: Heap, f: Forest<Node>, parent: Node?, prev: Node?, p: Path)
    requires Linked(h, f, parent, prev) && Distinct(f) && f.Cons? && Valid(f.kids, p) && Focus(f.kids, p).Cons?
    requires Unlinkable(h, Focus(f.kids, p).node)
    requires var g := Focus(f.kids, p); Linked(Unlink(h, g.node), Replace(f.kids, p, g.rest), f.node, null)
    ensures var g := Focus(f.kids, p);
      Linked(Unlink(h, g.node), Cons(f.node, Replace(f.kids, p, g.rest), f.rest), parent, prev)
  {
    LinkedIn(h, f, parent, prev);
    Neighbours(h, f.kids, f.node, null, p);
    FocusNodes(f.kids, p);
    LinkedFrame(h, Unlink(h, Focus(f.kids, p).node), f.rest, parent, f.node);
  }

  /** A cut among the later siblings leaves the head and its children linked. */
  lemma CutBeside(h: Heap, f: Forest<Node>, parent: Node?, prev: Node?, p: Path)
    requires Linked(h, f, parent, prev) && Distinct(f) && f.Cons? && Valid(f.rest, p) && Focus(f.rest, p).Cons?
    requires Unlinkable(h, Focus(f.rest, p).node)
    requires var g := Focus(f.rest, p); Linked(Unlink(h, g.node), Replace(f.rest, p, g.rest), parent, f.node)
    ensures var g := Focus(f.rest, p);
      Linked(Unlink(h, g.node), Cons(f.node, f.kids, Replace(f.rest, p, g.rest)), parent, prev)
  {
    LinkedIn(h, f, parent, prev);
    Neighbours(h, f.rest, parent, f.node, p);
    FocusNodes(f.rest, p);
    LinkedFrame(h, Unlink(h, Focus(f.rest, p).node), f.kids, f.node, null);
  }

  /** Unlinking the element at a cursor leaves links for the forest with that subtree cut out. */
  lemma {:induction false} UnlinkCuts(h: Heap, f: Forest<Node>, parent: Node?, prev: Node?, p: Path)
    requires Linked(h, f, parent, prev) && Distinct(f) && Valid(f, p) && Focus(f, p).Cons?
    requires Outside(h, parent, f) && Outside(h, prev, f)
    ensures Unlinkable(h, Focus(f, p).node)
    ensures Linked(Unlink(h, Focus(f, p).node), Replace(f, p, Focus(f, p).rest), parent, prev)
    decreases p
  {
    CanUnlink(h, f, parent, prev, p);
    if p == [] {
      CutHead(h, f, parent, prev);
    } else if p[0].Down? {
      UnlinkCuts(h, f.kids, f.node, null, p[1..]);
      CutBelow(h, f, parent, prev, p[1..]);
    } else {
      UnlinkCuts(h, f.rest, parent, f.node, p[1..]);
      CutBeside(h, f, parent, prev, p[1..]);
    }
  }

  /** Following `parentNode` from an element without a next sibling keeps the document-order successor. */
  lemma {:induction false} Climb(h: Heap, f: Forest<Node>, parent: Node?, prev: Node?, p: Path)
    requires Linked(h, f, parent, prev) && Valid(f, p) && Focus(f, p).Cons?
    ensures Valid(f, p + [Right]) && Focus(f, p).node in h
    ensures var up := Enclosing(p); var g := Focus(f, p);
      && (up.Some? ==> Valid(f, up.value) && Focus(f, up.value).Cons? && Valid(f, up.value + [Right]))
      && h[g.node].parent == (if up.Some? then Focus(f, up.value).node else parent)
      && (g.rest.Cons? ==> After(f, p + [Right]) == Some(g.rest.node))
      && (g.rest.Nil? ==> After(f, p + [Right]) == (if up.Some? then After(f, up.value + [Right]) else None))
    decreases p
  {
    if p == [] {
      assert (p + [Right])[1..] == [];
    } else {
      assert (p + [Right])[1..] == p[1..] + [Right];
      var inner := Enclosing(p[1..]);
      if p[0].Down? {
        Climb(h, f.kids, f.node, null, p[1..]);
      } else {
        Climb(h, f.rest, parent, f.node, p[1..]);
      }
      if inner.Some? {
        var up := [p[0]] + inner.value;
        assert up[1..] == inner.value;
        assert (up + [Right])[1..] == inner.value + [Right];
      } else if p[0].Down? {
        assert ([] + [Right])[1..] == [];
      }
    }
  }

  // ---- The walk ----

  ghost predicate Document(doc: Forest<Node>, all: set<Node>)
    reads all
  {
    Nodes(doc) <= all && Distinct(doc) && Linked(Snapshot(all), doc, null, null)
  }

  /** `_getNextNode`. */
  method GetNextNode(node: Node, ignoreSelfAndKids: bool, ghost doc: Forest<Node>, ghost p: Path, ghost all: set<Node>)
    returns (next: Node?)
    requires Document(doc, all)
    requires Valid(doc, p) && Focus(doc, p).Cons? && Focus(doc, p).node == node
    ensures Valid(doc, p + [Right])
    ensures next == if !ignoreSelfAndKids && Focus(doc, p).kids.Cons? then Focus(doc, p).kids.node
                    else AsRef(After(doc, p + [Right]))
  {
    ghost var h := Snapshot(all);
    LinkedFocus(h, doc, null, null, p);
    Climb(h, doc, null, null, p);
    if !ignoreSelfAndKids && node.firstElementChild != null {
      return node.firstElementChild;
    }
    if node.nextElementSibling != null {
      return node.nextElementSibling;
    }
    var up := node.parentNode;
    ghost var q := Enclosing(p);
    if up != null {
      LinkedFocus(h, doc, null, null, q.value);
    }
    while up != null && up.nextElementSibling == null
      invariant up == null ==> After(doc, p + [Right]).None?
      invariant up != null ==>
        && q.Some? && Valid(doc, q.value) && Focus(doc, q.value).Cons? && Focus(doc, q.value).node == up
        && Valid(doc, q.value + [Right]) && After(doc, q.value + [Right]) == After(doc, p + [Right])
        && up in all && h[up].next == up.nextElementSibling && h[up].next == Ref(Focus(doc, q.value).rest)
      decreases if up == null then 0 else 1 + |q.value|
    {
      Climb(h, doc, null, null, q.value);
      up := up.parentNode;
      q := Enclosing(q.value);
      if up != null {
        LinkedFocus(h, doc, null, null, q.value);
      }
    }
    if up != null {
      Climb(h, doc, null, null, q.value);
      return up.nextElementSibling;
    }
    return null;
  }

  /** `_removeAndGetNext`: the successor is taken before the element is unlinked. */
  method RemoveAndGetNext(node: Node, ghost doc: Forest<Node>, ghost p: Path, ghost all: set<Node>)
    returns (next: Node?)
    requires Document(doc, all)
    requires Valid(doc, p) && Focus(doc, p).Cons? && Focus(doc, p).node == node
    modifies all
    ensures Document(Replace(doc, p, Focus(doc, p).rest), all)
    ensures Valid(doc, p + [Right]) && next == AsRef(After(doc, p + [Right]))
  {
    next := GetNextNode(node, true, doc, p, all);
    UnlinkCuts(Snapshot(all), doc, null, null, p);
    FocusNodes(doc, p);
    ReplaceDistinct(doc, p, Focus(doc, p).rest);
    node.Remove(all);
  }

  /** What a filter reads off an element: the child forest below it. */
  method Below(node: Node, ghost doc: Forest<Node>, ghost p: Path, ghost all: set<Node>) returns (kids: Forest<Node>)
    requires Document(doc, all)
    requires Valid(doc, p) && Focus(doc, p).Cons? && Focus(doc, p).node == node
    ensures kids == Focus(doc, p).kids
  {
    LinkedFocus(Snapshot(all), doc, null, null, p);
    FocusNodes(doc, p);
    kids := ReadForest(node.firstElementChild, Focus(doc, p).kids, node, null, all);
  }

  method ReadForest(first: Node?, ghost f: Forest<Node>, ghost parent: Node?, ghost prev: Node?, ghost all: set<Node>)
    returns (r: Forest<Node>)
    requires Nodes(f) <= all && Linked(Snapshot(all), f, parent, prev) && first == Ref(f)
    ensures r == f
    decreases f
  {
    if first == null {
      return Nil;
    }
    var kids := ReadForest(first.firstElementChild, f.kids, first, null, all);
    var rest := ReadForest(first.nextElementSibling, f.rest, parent, first, all);
    var node: Node := first;
    return Cons(node, kids, rest);
  }

  // ---- The clean-up, one element at a time ----

  /** Where `_getNextNode(e, true)` leads is not an element of e's own subtree. */
  lemma Marker(doc: Forest<Node>, pe: Path)
    requires Valid(doc, pe) && Focus(doc, pe).Cons? && Distinct(doc)
    ensures Valid(doc, pe + [Right])
    ensures var m := After(doc, pe + [Right]);
      && (m.Some? ==> m.value !in Nodes(Focus(doc, pe).kids))
      && m == (if Focus(doc, pe).rest.Cons? then Some(Focus(doc, pe).rest.node) else Beyond(doc, pe))
  {
    var g := Focus(doc, pe);
    ReplaceFocus(doc, pe);
    assert [Right][1..] == [];
    ReplaceAppend(doc, pe, g, [Right], Nil);
    BeyondOutside(doc, pe);
    FocusNodes(doc, pe);
  }

  /** A cursor into the children of `e`, seen from the whole document. */
  lemma Cursor(doc: Forest<Node>, pe: Path, inner: Forest<Node>, q: Path, x: Forest<Node>)
    requires Valid(doc, pe) && Focus(doc, pe).Cons? && Valid(inner, q) && Valid(doc, pe + [Right]) && Distinct(doc)
    ensures var g := Focus(doc, pe); var full := pe + [Down] + q;
      var cur := Replace(doc, pe, Cons(g.node, inner, g.rest));
      && Valid(cur, full) && Focus(cur, full) == Focus(inner, q)
      && Replace(cur, full, x) == Replace(doc, pe, Cons(g.node, Replace(inner, q, x), g.rest))
      && After(cur, full) == if After(inner, q).Some? then After(inner, q) else After(doc, pe + [Right])
  {
    var g := Focus(doc, pe);
    var s := [Down] + q;
    assert s[1..] == q;
    assert pe + [Down] + q == pe + s;
    ReplaceAppend(doc, pe, Cons(g.node, inner, g.rest), s, x);
    Marker(doc, pe);
  }

  /** The document while the children of its element at `pe` have become `inner`. */
  ghost function Within(doc: Forest<Node>, pe: Path, inner: Forest<Node>): Forest<Node>
    requires Valid(doc, pe) && Focus(doc, pe).Cons?
  {
    Replace(doc, pe, Cons(Focus(doc, pe).node, inner, Focus(doc, pe).rest))
  }

  /** The loop invariant: `next` is the element due at cursor `q` of `inner` (or the marker when none is
      left), and pruning what is still ahead gives the wanted result. */
  ghost predicate Walking(doc: Forest<Node>, pe: Path, inner: Forest<Node>, q: Path, next: Node?, drop: Filter<Node>) {
    && Distinct(doc) && Valid(doc, pe) && Focus(doc, pe).Cons? && Valid(doc, pe + [Right])
    && Distinct(inner) && Nodes(inner) <= Nodes(Focus(doc, pe).kids) && Valid(inner, q)
    && next == AsRef(if After(inner, q).Some? then After(inner, q) else After(doc, pe + [Right]))
    && Finish(inner, q, drop) == Prune(Focus(doc, pe).kids, drop)
  }

  lemma Start(doc: Forest<Node>, pe: Path, drop: Filter<Node>)
    requires Distinct(doc) && Valid(doc, pe) && Focus(doc, pe).Cons?
    ensures Valid(doc, pe + [Right])
    ensures var kids := Focus(doc, pe).kids;
      && Within(doc, pe, kids) == doc
      && Walking(doc, pe, kids, [], if kids.Cons? then kids.node else AsRef(After(doc, pe + [Right])), drop)
  {
    Marker(doc, pe);
    FocusNodes(doc, pe);
    ReplaceFocus(doc, pe);
  }

  /** One iteration, on values. */
  lemma Visit(doc: Forest<Node>, pe: Path, inner: Forest<Node>, q0: Path, next: Node, drop: Filter<Node>)
    returns (q: Path)
    requires Walking(doc, pe, inner, q0, next, drop) && next != AsRef(After(doc, pe + [Right]))
    ensures Valid(inner, q) && Focus(inner, q).Cons?
    ensures var cur := Within(doc, pe, inner); var full := pe + [Down] + q; var g := Focus(inner, q);
      && g.node == next && Valid(cur, full) && Focus(cur, full) == g && Valid(cur, full + [Right])
      && var past := AsRef(After(cur, full + [Right]));
      if drop(next, g.kids) then
        var cut := Replace(inner, q, g.rest);
        && Replace(cur, full, g.rest) == Within(doc, pe, cut)
        && Walking(doc, pe, cut, q, past, drop) && Work(cut, q) < Work(inner, q0)
      else
        && Walking(doc, pe, inner, q + [Down], if g.kids.Cons? then g.kids.node else past, drop)
        && Work(inner, q + [Down]) < Work(inner, q0)
  {
    SettleKeeps(inner, q0, drop);
    q := Settle(inner, q0);
    var g := Focus(inner, q);
    Cursor(doc, pe, inner, q, g.rest);
    FinishStep(inner, q, drop);
    AfterStep(inner, q);
    AfterStep(Within(doc, pe, inner), pe + [Down] + q);
    if drop(next, g.kids) {
      FocusNodes(inner, q);
      ReplaceDistinct(inner, q, g.rest);
      Cursor(doc, pe, Replace(inner, q, g.rest), q, Nil);
    } else {
      Cursor(doc, pe, inner, q + [Down], Nil);
      assert pe + [Down] + q + [Down] == pe + [Down] + (q + [Down]);
    }
  }

  /** Nothing is left to visit once the walk stands on the marker. */
  lemma Stop(doc: Forest<Node>, pe: Path, inner: Forest<Node>, q: Path, next: Node?, drop: Filter<Node>)
    requires Walking(doc, pe, inner, q, next, drop)
    requires next == null || next == AsRef(After(doc, pe + [Right]))
    ensures inner == Prune(Focus(doc, pe).kids, drop)
  {
    Marker(doc, pe);
    AfterInside(inner, q);
    Exhausted(inner, q, drop);
  }

  /** `_cleanMatchedNodes`: in the document, the children of `e` become the pruned children and nothing
      else changes. */
  method CleanMatchedNodes(e: Node, drop: Filter<Node>, ghost doc: Forest<Node>, ghost pe: Path, ghost all: set<Node>)
    requires Document(doc, all)
    requires Valid(doc, pe) && Focus(doc, pe).Cons? && Focus(doc, pe).node == e
    modifies all
    ensures Document(Within(doc, pe, Prune(Focus(doc, pe).kids, drop)), all)
  {
    ghost var inner, q: Path := Focus(doc, pe).kids, [];
    var endOfSearchMarkerNode := GetNextNode(e, true, doc, pe, all);
    var next := GetNextNode(e, false, doc, pe, all);
    Start(doc, pe, drop);
    while next != null && next != endOfSearchMarkerNode
      invariant Walking(doc, pe, inner, q, next, drop)
      invariant Document(Within(doc, pe, inner), all)
      decreases Work(inner, q)
    {
      q := Visit(doc, pe, inner, q, next, drop);
      ghost var cur, full, g := Within(doc, pe, inner), pe + [Down] + q, Focus(inner, q);
      var below := Below(next, cur, full, all);
      if drop(next, below) {
        next := RemoveAndGetNext(next, cur, full, all);
        inner := Replace(inner, q, g.rest);
      } else {
        next := GetNextNode(next, false, cur, full, all);
        q := q + [Down];
      }
    }
    Stop(doc, pe, inner, q, next, drop);
  }
}
