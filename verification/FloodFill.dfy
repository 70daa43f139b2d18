/** The logo script's backdrop removal: a border-seeded mask grown with wrap-around shifts until it is
    stable, proved to be exactly the dark region 4-connected to the image border. */
module FloodFill {

  const NEAR_MAXC: bv8 := 35

  datatype Rgb = Rgb(r: bv8, g: bv8, b: bv8)
  type Pixel = (int, int)

  function MaxChannel(p: Rgb): bv8 {
    var rg := if p.r > p.g then p.r else p.g;
    if rg > p.b then rg else p.b
  }

  // ---- Plain connectedness, with no wrap-around ----

  ghost predicate Inside(h: nat, w: nat, p: Pixel) {
    0 <= p.0 < h && 0 <= p.1 < w
  }

  ghost predicate OnBorder(h: nat, w: nat, p: Pixel) {
    Inside(h, w, p) && (p.0 == 0 || p.0 == h - 1 || p.1 == 0 || p.1 == w - 1)
  }

  ghost predicate Adjacent(p: Pixel, q: Pixel) {
    || (p.0 == q.0 && (p.1 == q.1 + 1 || q.1 == p.1 + 1))
    || (p.1 == q.1 && (p.0 == q.0 + 1 || q.0 == p.0 + 1))
  }

  /** A walk of adjacent dark pixels that starts on the border. */
  ghost predicate BorderWalk(h: nat, w: nat, near: set<Pixel>, walk: seq<Pixel>) {
    && walk != [] && OnBorder(h, w, walk[0])
    && (forall i | 0 <= i < |walk| :: walk[i] in near)
    && (forall i | 0 < i < |walk| :: Adjacent(walk[i - 1], walk[i]))
  }

  ghost predicate Connected(h: nat, w: nat, near: set<Pixel>, p: Pixel) {
    exists walk :: BorderWalk(h, w, near, walk) && walk[|walk| - 1] == p
  }

  lemma SeedConnected(h: nat, w: nat, near: set<Pixel>, p: Pixel)
    requires p in near && OnBorder(h, w, p)
    ensures Connected(h, w, near, p)
  {
    assert BorderWalk(h, w, near, [p]);
  }

  lemma GrowConnected(h: nat, w: nat, near: set<Pixel>, p: Pixel, q: Pixel)
    requires Connected(h, w, near, p) && q in near && Adjacent(p, q)
    ensures Connected(h, w, near, q)
  {
    var walk :| BorderWalk(h, w, near, walk) && walk[|walk| - 1] == p;
    assert BorderWalk(h, w, near, walk + [q]);
  }

  /** A set that holds every dark border pixel and is closed under dark neighbours holds every connected pixel. */
  lemma {:induction false} ClosedHoldsWalk(h: nat, w: nat, near: set<Pixel>, s: set<Pixel>, walk: seq<Pixel>)
    requires forall p | p in near && OnBorder(h, w, p) :: p in s
    requires forall p, q | p in s && q in near && Adjacent(p, q) :: q in s
    requires BorderWalk(h, w, near, walk)
    ensures walk[|walk| - 1] in s
  {
    if |walk| > 1 {
      var init := walk[..|walk| - 1];
      assert BorderWalk(h, w, near, init);
      ClosedHoldsWalk(h, w, near, s, init);
      assert Adjacent(init[|init| - 1], walk[|walk| - 1]);
    }
  }

  // ---- Arrays as pixel sets ----

  ghost function On(a: array2<bool>): set<Pixel>
    reads a
  {
    set i, j | 0 <= i < a.Length0 && 0 <= j < a.Length1 && a[i, j] :: (i, j)
  }

  /** `np.roll(bg, di, 0)` and `np.roll(bg, dj, 1)` read at (i, j): the value one step back, wrapping around. */
  function Rolled(bg: array2<bool>, i: int, j: int, di: int, dj: int): bool
    requires 0 <= i < bg.Length0 && 0 <= j < bg.Length1
    reads bg
  {
    bg[(i - di) % bg.Length0, (j - dj) % bg.Length1]
  }

  /** Adjacent on the torus: the last row is followed by the first one, and so are the columns. */
  ghost predicate WrapAdjacent(h: nat, w: nat, p: Pixel, q: Pixel) {
    || (p.0 == q.0 && (Follows(w, p.1, q.1) || Follows(w, q.1, p.1)))
    || (p.1 == q.1 && (Follows(h, p.0, q.0) || Follows(h, q.0, p.0)))
  }

  ghost predicate Follows(n: nat, x: int, y: int) {
    y == x + 1 || (x == n - 1 && y == 0)
  }

  ghost predicate AnyRoll(bg: array2<bool>, i: int, j: int)
    requires 0 <= i < bg.Length0 && 0 <= j < bg.Length1
    reads bg
  {
    Rolled(bg, i, j, 1, 0) || Rolled(bg, i, j, -1, 0) || Rolled(bg, i, j, 0, 1) || Rolled(bg, i, j, 0, -1)
  }

  /** A roll that is set comes from a neighbour on the torus. */
  lemma RolledFrom(bg: array2<bool>, i: int, j: int, di: int, dj: int) returns (p: Pixel)
    requires 0 <= i < bg.Length0 && 0 <= j < bg.Length1
    requires (di == 0 && dj in {-1, 1}) || (dj == 0 && di in {-1, 1})
    requires Rolled(bg, i, j, di, dj)
    ensures p in On(bg) && WrapAdjacent(bg.Length0, bg.Length1, p, (i, j))
  {
    p := ((i - di) % bg.Length0, (j - dj) % bg.Length1);
    OneBack(i, di, bg.Length0);
    OneBack(j, dj, bg.Length1);
  }

  /** A neighbour on the torus that is set shows up in one of the four rolls. */
  lemma RollsShow(bg: array2<bool>, p: Pixel, i: int, j: int)
    requires 0 <= i < bg.Length0 && 0 <= j < bg.Length1
    requires p in On(bg) && WrapAdjacent(bg.Length0, bg.Length1, p, (i, j))
    ensures AnyRoll(bg, i, j)
  {
    OneBack(i, 0, bg.Length0);
    OneBack(j, 0, bg.Length1);
    if p.0 == i && Follows(bg.Length1, p.1, j) {
      OneBack(j, 1, bg.Length1);
      assert Rolled(bg, i, j, 0, 1);
    } else if p.0 == i && Follows(bg.Length1, j, p.1) {
      OneBack(j, -1, bg.Length1);
      assert Rolled(bg, i, j, 0, -1);
    } else if Follows(bg.Length0, p.0, i) {
      OneBack(i, 1, bg.Length0);
      assert Rolled(bg, i, j, 1, 0);
    } else {
      OneBack(i, -1, bg.Length0);
      assert Rolled(bg, i, j, -1, 0);
    }
  }

  /** One step back around a ring of `n`. */
  lemma OneBack(x: int, d: int, n: nat)
    requires 0 <= x < n && d in {-1, 0, 1}
    ensures d == 0 ==> (x - d) % n == x
    ensures d == 1 ==> (x - d) % n == if x == 0 then n - 1 else x - 1
    ensures d == -1 ==> (x - d) % n == if x == n - 1 then 0 else x + 1
  {
    if x - d == n {
      WholeRing(n);
    } else if x - d == -1 {
      BelowRing(n);
    } else {
      SmallMod(x - d, n);
    }
  }

  lemma WholeRing(n: nat)
    requires n > 0
    ensures n % n == 0
  {
  }

  lemma BelowRing(n: nat)
    requires n > 0
    ensures -1 % n == n - 1
  {
  }

  lemma SmallMod(x: int, n: int)
    requires 0 <= x < n
    ensures x % n == x
  {
  }

  // ---- The script's steps ----

  /** `near = im.max(axis=2) <= NEAR_MAXC`. */
  method NearMask(im: array2<Rgb>) returns (near: array2<bool>)
    ensures fresh(near) && near.Length0 == im.Length0 && near.Length1 == im.Length1
    ensures On(near) == Dark(im)
  {
    near := new bool[im.Length0, im.Length1]((i, j)
      requires 0 <= i < im.Length0 && 0 <= j < im.Length1 reads im => MaxChannel(im[i, j]) <= NEAR_MAXC);
  }

  ghost function Dark(im: array2<Rgb>): set<Pixel>
    reads im
  {
    set i, j | 0 <= i < im.Length0 && 0 <= j < im.Length1 &&
      im[i, j].r <= 35 && im[i, j].g <= 35 && im[i, j].b <= 35 :: (i, j)
  }

  /** `(grow == bg).all()`. */
  method AllEqual(a: array2<bool>, b: array2<bool>) returns (same: bool)
    requires a.Length0 == b.Length0 && a.Length1 == b.Length1
    ensures same <==> On(a) == On(b)
  {
    for i := 0 to a.Length0
      invariant forall y, x | 0 <= y < i && 0 <= x < a.Length1 :: a[y, x] == b[y, x]
    {
      for j := 0 to a.Length1
        invariant forall x | 0 <= x < j :: a[i, x] == b[i, x]
      {
        if a[i, j] != b[i, j] {
          assert (i, j) in On(a) <==> (i, j) !in On(b);
          return false;
        }
      }
    }
    return true;
  }

  /** `bg[r, :] = near[r, :]`. */
  method CopyRow(near: array2<bool>, bg: array2<bool>, r: nat)
    requires bg.Length0 == near.Length0 && bg.Length1 == near.Length1 && r < near.Length0 && bg != near
    modifies bg
    ensures forall i, j | 0 <= i < bg.Length0 && 0 <= j < bg.Length1 ::
      bg[i, j] == if i == r then near[i, j] else old(bg[i, j])
  {
    forall j | 0 <= j < bg.Length1 { bg[r, j] := near[r, j]; }
  }

  /** `bg[:, c] = near[:, c]`. */
  method CopyColumn(near: array2<bool>, bg: array2<bool>, c: nat)
    requires bg.Length0 == near.Length0 && bg.Length1 == near.Length1 && c < near.Length1 && bg != near
    modifies bg
    ensures forall i, j | 0 <= i < bg.Length0 && 0 <= j < bg.Length1 ::
      bg[i, j] == if j == c then near[i, j] else old(bg[i, j])
  {
    forall i | 0 <= i < bg.Length0 { bg[i, c] := near[i, c]; }
  }

  /** The mask seeded with the near pixels of the four border lines. */
  method Seed(near: array2<bool>) returns (bg: array2<bool>)
    requires near.Length0 > 0 && near.Length1 > 0
    ensures fresh(bg) && bg.Length0 == near.Length0 && bg.Length1 == near.Length1
    ensures forall p :: p in On(bg) <==> p in On(near) && OnBorder(near.Length0, near.Length1, p)
  {
    var h, w := near.Length0, near.Length1;
    bg := new bool[h, w]((i, j) => false);
    CopyRow(near, bg, 0);
    CopyRow(near, bg, h - 1);
    CopyColumn(near, bg, 0);
    CopyColumn(near, bg, w - 1);
  }

  /** `bg | (near & (the four rolls of bg))`: adds the near pixels with a set neighbour on the torus. */
  method Grow(near: array2<bool>, bg: array2<bool>) returns (grow: array2<bool>)
    requires bg.Length0 == near.Length0 && bg.Length1 == near.Length1
    ensures fresh(grow) && grow.Length0 == near.Length0 && grow.Length1 == near.Length1
    ensures forall q :: q in On(grow) <==>
      q in On(bg) || (q in On(near) && exists p :: p in On(bg) && WrapAdjacent(near.Length0, near.Length1, p, q))
  {
    grow := new bool[near.Length0, near.Length1]((i, j)
      requires 0 <= i < near.Length0 && 0 <= j < near.Length1 reads near, bg =>
      bg[i, j] || (near[i, j] &&
        (Rolled(bg, i, j, 1, 0) || Rolled(bg, i, j, -1, 0) || Rolled(bg, i, j, 0, 1) || Rolled(bg, i, j, 0, -1))));
    forall q: Pixel | Inside(near.Length0, near.Length1, q)
      ensures AnyRoll(bg, q.0, q.1) <==> exists p :: p in On(bg) && WrapAdjacent(near.Length0, near.Length1, p, q)
    {
      RollsAreNeighbours(bg, q);
    }
  }

  lemma RollsAreNeighbours(bg: array2<bool>, q: Pixel)
    requires Inside(bg.Length0, bg.Length1, q)
    ensures AnyRoll(bg, q.0, q.1) <==> exists p :: p in On(bg) && WrapAdjacent(bg.Length0, bg.Length1, p, q)
  {
    var (i, j) := q;
    if p :| p in On(bg) && WrapAdjacent(bg.Length0, bg.Length1, p, q) { RollsShow(bg, p, i, j); }
    if Rolled(bg, i, j, 1, 0) { var p := RolledFrom(bg, i, j, 1, 0); }
    if Rolled(bg, i, j, -1, 0) { var p := RolledFrom(bg, i, j, -1, 0); }
    if Rolled(bg, i, j, 0, 1) { var p := RolledFrom(bg, i, j, 0, 1); }
    if Rolled(bg, i, j, 0, -1) { var p := RolledFrom(bg, i, j, 0, -1); }
  }

  /** The wrap-around adds nothing: once every near pixel of the border is set, growing on the torus adds exactly the
      near pixels with a plain neighbour that is set. */
  lemma GrowIsPlain(h: nat, w: nat, near: set<Pixel>, bg: set<Pixel>, grow: set<Pixel>)
    requires forall p | p in near && OnBorder(h, w, p) :: p in bg
    requires bg <= near && forall p <- near :: Inside(h, w, p)
    requires forall q :: q in grow <==> q in bg || (q in near && exists p :: p in bg && WrapAdjacent(h, w, p, q))
    ensures forall q :: q in grow <==> q in bg || (q in near && exists p :: p in bg && Adjacent(p, q))
  {
    forall q: Pixel | q in near && q !in bg
      ensures (exists p :: p in bg && WrapAdjacent(h, w, p, q)) <==> exists p :: p in bg && Adjacent(p, q)
    {
      assert Inside(h, w, q) && !OnBorder(h, w, q);
      forall p | p in bg ensures WrapAdjacent(h, w, p, q) <==> Adjacent(p, q) {
        assert Inside(h, w, p);
      }
    }
  }

  lemma SubsetSize(a: set<Pixel>, b: set<Pixel>)
    requires a <= b
    ensures |a| <= |b| && (|a| == |b| ==> a == b)
  {
    assert b == a + (b - a);
    assert |b| == |a| + |b - a|;
  }

  /** What the loop keeps: all near border pixels are set, and nothing but near pixels connected to the border. */
  ghost predicate Flooding(h: nat, w: nat, near: set<Pixel>, bg: set<Pixel>) {
    && bg <= near && (forall p <- near :: Inside(h, w, p))
    && (forall p | p in near && OnBorder(h, w, p) :: p in bg)
    && forall p <- bg :: Connected(h, w, near, p)
  }

  /** A grow step keeps it and loses nothing, and one that adds nothing leaves nothing to add. */
  lemma GrowFloods(h: nat, w: nat, near: set<Pixel>, bg: set<Pixel>, grow: set<Pixel>)
    requires Flooding(h, w, near, bg)
    requires forall q :: q in grow <==> q in bg || (q in near && exists p :: p in bg && WrapAdjacent(h, w, p, q))
    ensures bg <= grow && Flooding(h, w, near, grow)
    ensures grow == bg ==> forall p :: p in bg <==> Connected(h, w, near, p)
  {
    GrowIsPlain(h, w, near, bg, grow);
    forall q | q in grow && q !in bg ensures Connected(h, w, near, q) {
      var p :| p in bg && Adjacent(p, q);
      GrowConnected(h, w, near, p, q);
    }
    if grow == bg { StableIsAll(h, w, near, bg); }
  }

  lemma StableIsAll(h: nat, w: nat, near: set<Pixel>, bg: set<Pixel>)
    requires Flooding(h, w, near, bg)
    requires forall q :: q in bg <==> q in bg || (q in near && exists p :: p in bg && Adjacent(p, q))
    ensures forall p :: p in bg <==> Connected(h, w, near, p)
  {
    forall p, q | p in bg && q in near && Adjacent(p, q) ensures q in bg {
    }
    forall p | Connected(h, w, near, p) ensures p in bg {
      var walk :| BorderWalk(h, w, near, walk) && walk[|walk| - 1] == p;
      ClosedHoldsWalk(h, w, near, bg, walk);
    }
  }

  /** Grow until stable: the result is exactly the near pixels connected to the border. */
  method Flood(near: array2<bool>) returns (bg: array2<bool>)
    requires near.Length0 > 0 && near.Length1 > 0
    ensures bg.Length0 == near.Length0 && bg.Length1 == near.Length1
    ensures forall p :: p in On(bg) <==> Connected(near.Length0, near.Length1, On(near), p)
  {
    var h, w := near.Length0, near.Length1;
    bg := Seed(near);
    forall p | p in On(bg) ensures Connected(h, w, On(near), p) { SeedConnected(h, w, On(near), p); }
    while true
      invariant bg.Length0 == h && bg.Length1 == w && fresh(bg)
      invariant Flooding(h, w, On(near), On(bg))
      decreases |On(near)| - |On(bg)|
    {
      var grow := Grow(near, bg);
      GrowFloods(h, w, On(near), On(bg), On(grow));
      var same := AllEqual(grow, bg);
      if same {
        return;
      }
      SubsetSize(On(bg), On(grow));
      SubsetSize(On(grow), On(near));
      bg := grow;
    }
  }

  /** Steps 1 and 2: a pixel becomes transparent exactly when dark pixels connect it to the border. */
  method BackdropAlpha(im: array2<Rgb>) returns (alpha: array2<bv8>)
    requires im.Length0 > 0 && im.Length1 > 0
    ensures alpha.Length0 == im.Length0 && alpha.Length1 == im.Length1
    ensures forall i, j | 0 <= i < im.Length0 && 0 <= j < im.Length1 ::
      alpha[i, j] == if Connected(im.Length0, im.Length1, Dark(im), (i, j)) then 0 else 255
  {
    var near := NearMask(im);
    var bg := Flood(near);
    alpha := new bv8[im.Length0, im.Length1]((i, j)
      requires 0 <= i < bg.Length0 && 0 <= j < bg.Length1 reads bg => if bg[i, j] then 0 else 255);
    assert forall i, j | 0 <= i < bg.Length0 && 0 <= j < bg.Length1 :: bg[i, j] <==> (i, j) in On(bg);
  }
}
