/** The shared element census: the page snapshot, the page read and the description resolver number the interactive
    elements in three separate loops, and the resolver picks the best match. */
module Census {
  import opened Options

  /** An element that the shared selector matched. `relayRef` is its `data-relay-ref` attribute; `text` is its label,
      already cut to 120 characters. */
  class Element {
    var relayRef: Option<nat>
    const overlay: bool
    const width: int
    const height: int
    const tag: string
    const text: string
    const ariaLabel: string
    const placeholder: string
    const name: string
    const id: string

    constructor (overlay: bool, width: int, height: int, tag: string, text: string, ariaLabel: string,
                 placeholder: string, name: string, id: string)
      ensures this.overlay == overlay && this.width == width && this.height == height && this.tag == tag
      ensures this.text == text && this.ariaLabel == ariaLabel && this.placeholder == placeholder
      ensures this.name == name && this.id == id && relayRef.None?
    {
      this.overlay, this.width, this.height, this.tag := overlay, width, height, tag;
      this.text, this.ariaLabel, this.placeholder := text, ariaLabel, placeholder;
      this.name, this.id, relayRef := name, id, None;
    }
  }

  predicate Targetable(e: Element) {
    !e.overlay && e.width != 0 && e.height != 0
  }

  /** The targetable elements in document order. */
  function CensusOf(els: seq<Element>): (c: seq<Element>)
    ensures forall e <- c :: e in els && Targetable(e)
    ensures |c| <= |els|
  {
    if els == [] then []
    else
      var last := els[|els| - 1];
      CensusOf(els[..|els| - 1]) + if Targetable(last) then [last] else []
  }

  /** The census has exactly the elements that are no overlay of the app and have an extent. */
  lemma {:induction false} CensusHolds(els: seq<Element>, e: Element)
    ensures e in CensusOf(els) <==> e in els && !e.overlay && e.width != 0 && e.height != 0
  {
    if els != [] {
      var init, last := els[..|els| - 1], els[|els| - 1];
      assert els == init + [last];
      CensusHolds(init, e);
    }
  }

  lemma CensusGrows(els: seq<Element>, i: nat)
    requires i < |els|
    ensures CensusOf(els[..i + 1]) == CensusOf(els[..i]) + if Targetable(els[i]) then [els[i]] else []
  {
    assert els[..i + 1][..i] == els[..i];
  }

  ghost predicate Distinct(els: seq<Element>) {
    forall i, j | 0 <= i < j < |els| :: els[i] != els[j]
  }

  /** Each element of the census carries its position in it. */
  ghost predicate Numbered(census: seq<Element>)
    reads census
  {
    forall i | 0 <= i < |census| :: census[i].relayRef == Some(i)
  }

  /** The step all three loops share: number the element, if it is targetable, with the count so far. */
  method Tag(els: seq<Element>, i: nat, total: nat) returns (tagged: bool)
    requires Distinct(els) && i < |els|
    requires total == |CensusOf(els[..i])| && Numbered(CensusOf(els[..i]))
    modifies if Targetable(els[i]) then {els[i]} else {}
    ensures tagged <==> Targetable(els[i])
    ensures Numbered(CensusOf(els[..i + 1]))
    ensures CensusOf(els[..i + 1]) == CensusOf(els[..i]) + if tagged then [els[i]] else []
  {
    CensusGrows(els, i);
    assert els[i] !in els[..i];
    tagged := Targetable(els[i]);
    if tagged {
      els[i].relayRef := Some(total);
    }
  }

  /** `tagInteractiveElements` of the page read. */
  method TagInteractiveElements(els: seq<Element>) returns (refs: seq<Element>)
    requires Distinct(els)
    modifies els
    ensures refs == CensusOf(els) && Numbered(refs)
    ensures forall e <- els | !Targetable(e) :: e.relayRef == old(e.relayRef)
  {
    refs := [];
    for i := 0 to |els|
      invariant refs == CensusOf(els[..i])
      invariant Numbered(CensusOf(els[..i]))
      invariant forall e <- els | !Targetable(e) :: e.relayRef == old(e.relayRef)
    {
      var tagged := Tag(els, i, |refs|);
      if tagged {
        refs := refs + [els[i]];
      }
    }
    assert els[..|els|] == els;
  }

  const MAX_LIST: nat := 250

  /** The positions in the census whose element answers the query. */
  function Hits(census: seq<Element>, matches: Element -> bool): (h: seq<nat>)
    ensures forall k :: k in h <==> 0 <= k < |census| && matches(census[k])
    ensures forall j | 0 <= j < |h| :: h[j] < |census|
    ensures forall i, j | 0 <= i < j < |h| :: h[i] < h[j]
  {
    if census == [] then []
    else
      var n := |census| - 1;
      Hits(census[..n], matches) + if matches(census[n]) then [n] else []
  }

  function Cut(s: seq<nat>): seq<nat> {
    if |s| <= MAX_LIST then s else s[..MAX_LIST]
  }

  /** The count and the listing after the first `i` elements. */
  ghost predicate Listing(els: seq<Element>, i: nat, matches: Element -> bool, total: nat, lines: seq<nat>)
    requires i <= |els|
  {
    total == |CensusOf(els[..i])| && lines == Cut(Hits(CensusOf(els[..i]), matches))
  }

  lemma ListingGrows(els: seq<Element>, i: nat, matches: Element -> bool, total: nat, lines: seq<nat>)
    requires i < |els| && Listing(els, i, matches, total, lines)
    ensures !Targetable(els[i]) ==> Listing(els, i + 1, matches, total, lines)
    ensures Targetable(els[i]) ==> Listing(els, i + 1, matches, total + 1,
                                           if matches(els[i]) && |lines| < MAX_LIST then lines + [total] else lines)
  {
    CensusGrows(els, i);
    var census := CensusOf(els[..i]);
    assert (census + [els[i]])[..|census|] == census;
    assert !Targetable(els[i]) ==> CensusOf(els[..i + 1]) == census;
  }

  /** One iteration of the snapshot's loop. */
  method Consider(els: seq<Element>, i: nat, matches: Element -> bool, total: nat, lines: seq<nat>)
    returns (total1: nat, lines1: seq<nat>)
    requires Distinct(els) && i < |els| && Listing(els, i, matches, total, lines) && Numbered(CensusOf(els[..i]))
    modifies if Targetable(els[i]) then {els[i]} else {}
    ensures Listing(els, i + 1, matches, total1, lines1) && Numbered(CensusOf(els[..i + 1]))
  {
    ListingGrows(els, i, matches, total, lines);
    total1, lines1 := total, lines;
    var hit := matches(els[i]);
    var tagged := Tag(els, i, total);
    if tagged {
      total1 := total + 1;
      if hit && |lines| < MAX_LIST {
        lines1 := lines + [total];
      }
    }
  }

  /** The snapshot's one loop: the query filters what is listed, never what is numbered. */
  method Snapshot(els: seq<Element>, matches: Element -> bool) returns (total: nat, lines: seq<nat>)
    requires Distinct(els)
    modifies els
    ensures total == |CensusOf(els)| && Numbered(CensusOf(els))
    ensures var hits := Hits(CensusOf(els), matches); lines == if |hits| <= 250 then hits else hits[..250]
    ensures forall e <- els | !Targetable(e) :: e.relayRef == old(e.relayRef)
  {
    total, lines := 0, [];
    for i := 0 to |els|
      invariant Listing(els, i, matches, total, lines)
      invariant Numbered(CensusOf(els[..i]))
      invariant forall e <- els | !Targetable(e) :: e.relayRef == old(e.relayRef)
    {
      total, lines := Consider(els, i, matches, total, lines);
    }
    assert els[..|els|] == els;
  }

  // ---- The resolver ----

  datatype MatchType = NoMatch | Substring | Exact

  function Candidates(e: Element): seq<string> {
    [e.text, e.ariaLabel, e.placeholder, e.name, e.id]
  }

  predicate Contains(s: string, t: string) {
    exists i | 0 <= i <= |s| - |t| :: OccursAt(s, t, i)
  }

  predicate OccursAt(s: string, t: string, i: nat)
    requires i + |t| <= |s|
  {
    s[i..i + |t|] == t
  }

  /** An element matches exactly when a non-empty field equals the description, and as a substring when none does but
      one contains it. */
  ghost function Kind(e: Element, want: string, lower: string -> string): MatchType {
    if exists c <- Candidates(e) :: lower(c) != "" && lower(c) == want then Exact
    else if exists c <- Candidates(e) :: lower(c) != "" && Contains(lower(c), want) then Substring
    else NoMatch
  }

  /** The candidate loop: a substring hit is kept until an exact one ends the search. */
  method MatchOf(e: Element, want: string, lower: string -> string) returns (m: MatchType)
    ensures m == Kind(e, want, lower)
  {
    m := NoMatch;
    var candidates := Candidates(e);
    for c := 0 to |candidates|
      invariant forall k | 0 <= k < c :: lower(candidates[k]) == "" || lower(candidates[k]) != want
      invariant m == NoMatch || m == Substring
      invariant m.Substring? <==>
        exists k | 0 <= k < c :: lower(candidates[k]) != "" && Contains(lower(candidates[k]), want)
    {
      var cv := lower(candidates[c]);
      if cv == "" { continue; }
      if cv == want {
        assert candidates[c] in Candidates(e);
        return Exact;
      }
      if Contains(cv, want) { m := Substring; }
    }
    if m.Substring? {
      var k :| 0 <= k < |candidates| && lower(candidates[k]) != "" && Contains(lower(candidates[k]), want);
      assert candidates[k] in Candidates(e);
    }
  }

  function TagRank(tag: string): (r: nat)
    ensures r <= 5
  {
    if tag == "button" then 0
    else if tag == "input" then 1
    else if tag == "a" then 2
    else if tag == "[role=button]" then 3
    else if tag == "select" then 4
    else 5
  }

  function Score(e: Element, m: MatchType, typing: bool): nat {
    (if m.Exact? then 0 else 1000) + |e.text| + TagRank(e.tag) * 10
    + if typing && e.tag != "input" && e.tag != "textarea" then 500 else 0
  }

  datatype Best = Best(ref: nat, matchType: MatchType, score: nat)

  /** A description to resolve, already lower-cased and trimmed, and whether it is for typing. */
  datatype Query = Query(want: string, lower: string -> string, typing: bool)

  ghost function KindFor(e: Element, q: Query): MatchType {
    Kind(e, q.want, q.lower)
  }

  ghost function ScoreFor(e: Element, q: Query): nat {
    Score(e, KindFor(e, q), q.typing)
  }

  /** The winner among the first `n` elements: a match that no earlier match ties and none beats; there is none only
      when nothing matches. */
  ghost predicate FirstMinimum(tagged: seq<Element>, n: nat, q: Query, best: Option<Best>)
    requires n <= |tagged|
  {
    match best
    case None => forall i | 0 <= i < n :: KindFor(tagged[i], q).NoMatch?
    case Some(b) =>
      && b.ref < n && !KindFor(tagged[b.ref], q).NoMatch?
      && b.matchType == KindFor(tagged[b.ref], q) && b.score == ScoreFor(tagged[b.ref], q)
      && (forall i | 0 <= i < n && !KindFor(tagged[i], q).NoMatch? :: b.score <= ScoreFor(tagged[i], q))
      && (forall i | 0 <= i < b.ref && !KindFor(tagged[i], q).NoMatch? :: b.score < ScoreFor(tagged[i], q))
  }

  /** The best-match loop, over the tagged elements. */
  method BestMatch(tagged: seq<Element>, q: Query) returns (best: Option<Best>)
    ensures FirstMinimum(tagged, |tagged|, q, best)
  {
    best := None;
    for i := 0 to |tagged|
      invariant FirstMinimum(tagged, i, q, best)
    {
      var m := MatchOf(tagged[i], q.want, q.lower);
      if !m.NoMatch? {
        var score := Score(tagged[i], m, q.typing);
        if best.None? || score < best.value.score {
          best := Some(Best(i, m, score));
        }
      }
    }
  }

  /** The resolver's description branch: number as the other readers do, then pick. */
  method Resolve(els: seq<Element>, q: Query) returns (best: Option<Best>)
    requires Distinct(els)
    modifies els
    ensures Numbered(CensusOf(els))
    ensures FirstMinimum(CensusOf(els), |CensusOf(els)|, q, best)
    ensures forall e <- els | !Targetable(e) :: e.relayRef == old(e.relayRef)
  {
    var tagged := TagInteractiveElements(els);
    best := BestMatch(tagged, q);
  }

  /** The resolver answers with an exact match exactly when there is one, whatever the lengths, tags and action. */
  lemma ExactWins(tagged: seq<Element>, q: Query, best: Option<Best>)
    requires FirstMinimum(tagged, |tagged|, q, best)
    requires forall e <- tagged :: |e.text| <= 120
    ensures best.Some? && best.value.matchType.Exact? <==> exists e <- tagged :: KindFor(e, q).Exact?
  {
    if e :| e in tagged && KindFor(e, q).Exact? {
      var i :| 0 <= i < |tagged| && tagged[i] == e;
      assert ScoreFor(tagged[i], q) <= 120 + 50 + 500;
    }
  }

  /** `indexOf` finds the text wherever it occurs. */
  lemma ContainsExactly(s: string, t: string)
    ensures Contains(s, t) <==> exists before: string, after: string :: s == before + t + after
  {
    if Contains(s, t) {
      var i :| 0 <= i <= |s| - |t| && OccursAt(s, t, i);
      assert s == s[..i] + t + s[i + |t|..];
    }
    if before: string, after: string :| s == before + t + after {
      assert OccursAt(s, t, |before|);
    }
  }

  /** A match in any one of the five fields is enough, and in nothing else: an equal one for an exact match, one that
      contains the description for a substring match, unless the field is empty. */
  lemma FieldsDecide(e: Element, q: Query)
    ensures KindFor(e, q).Exact? <==> FieldIs(e, (c: string) => q.lower(c) != "" && q.lower(c) == q.want)
    ensures KindFor(e, q).NoMatch? <==>
      !FieldIs(e, (c: string) => q.lower(c) != "" && (q.lower(c) == q.want || Contains(q.lower(c), q.want)))
  {
    assert [e.text, e.ariaLabel, e.placeholder, e.name, e.id] == Candidates(e);
  }

  ghost predicate FieldIs(e: Element, p: string -> bool) {
    p(e.text) || p(e.ariaLabel) || p(e.placeholder) || p(e.name) || p(e.id)
  }

  const TAG_ORDER: seq<string> := ["button", "input", "a", "[role=button]", "select"]

  /** The score of a match: a thousand if it is not exact, a point for each character of the label, ten for each place
      of its tag in the tag order, in which all other tags come last, and the penalty. */
  lemma ScoreExactly(e: Element, q: Query, place: nat)
    requires place <= 5 && if place < 5 then e.tag == TAG_ORDER[place] else e.tag !in TAG_ORDER
    ensures ScoreFor(e, q) == (if KindFor(e, q).Exact? then 0 else 1000) + |e.text| + 10 * place + Penalty(e, q)
  {
    assert place == 5 ==> forall i | 0 <= i < 5 :: TAG_ORDER[i] != e.tag;
  }

  /** The handicap of an element that one cannot type into, when typing is what the query is for. */
  function Penalty(e: Element, q: Query): int {
    if q.typing && e.tag !in {"input", "textarea"} then 500 else 0
  }

  /** Between two matches of one kind the shorter label wins exactly when it is shorter by more than ten characters for
      each place its tag ranks lower, and five hundred if only it is penalised: tags do not only break ties. */
  lemma ShorterLabelWins(e: Element, f: Element, q: Query)
    requires KindFor(e, q) == KindFor(f, q) && |e.text| < |f.text|
    ensures ScoreFor(e, q) < ScoreFor(f, q) <==>
      10 * (TagRank(e.tag) - TagRank(f.tag)) + Penalty(e, q) - Penalty(f, q) < |f.text| - |e.text|
  {
  }

  /** For instance: a link whose label is five characters loses to a button whose label is nine. */
  lemma LongerLabelCanWin(e: Element, f: Element, q: Query, best: Option<Best>)
    requires KindFor(e, q) == KindFor(f, q) && !KindFor(e, q).NoMatch? && !q.typing
    requires e.tag == "a" && |e.text| == 5 && f.tag == "button" && |f.text| == 9
    requires FirstMinimum([e, f], 2, q, best)
    ensures best.Some? && best.value.ref == 1
  {
    assert [e, f][0] == e && [e, f][1] == f;
    ShorterLabelWins(e, f, q);
  }
}
