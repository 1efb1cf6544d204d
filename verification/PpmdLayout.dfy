/**
  The units of the PPMd allocator as a picture: from the start of the units area to its end lie blocks, in use or
  free, and one gap. What each operation does to the picture keeps it a partition.
*/
module PpmdLayout {

  // ----- Sizes ----------------------------------------------------------------------------------------------

  const NUM_INDEXES := 38

  /** Indx2Units: 1 2 3 4 6 8 10 12 15 18 21 24 28 and so on by fours to 128. */
  function I2U(i: nat): (nu: nat)
    ensures 1 <= nu
    ensures i < NUM_INDEXES ==> nu <= 128
  {
    if i < 4 then i + 1 else if i < 8 then 2 * i - 2 else if i < 12 then 3 * i - 9 else 4 * i - 20
  }

  /** Units2Indx: the smallest size that is large enough. */
  function U2I(nu: nat): (i: nat)
    requires 1 <= nu <= 128
    ensures i < NUM_INDEXES && I2U(i) >= nu
    ensures forall j: nat | j < i :: I2U(j) < nu
    ensures I2U(i) != nu ==> i > 0 && 1 <= nu - I2U(i - 1) <= 3
  {
    if nu <= 4 then nu - 1 else if nu <= 12 then (nu + 1) / 2 + 1 else if nu <= 24 then (nu + 2) / 3 + 3 else (nu + 3) / 4 + 5
  }

  /** No smaller index will do. */
  lemma Least(nu: nat, j: nat)
    requires 1 <= nu <= 128 && I2U(j) >= nu
    ensures U2I(nu) <= j
  {
  }

  lemma SizesOrdered(i: nat, j: nat)
    requires i <= j
    ensures I2U(i) <= I2U(j)
  {
  }

  lemma SizesGrow(i: nat, j: nat)
    requires i < j
    ensures I2U(i) < I2U(j)
  {
  }

  // ----- Blocks -----------------------------------------------------------------------------------------------

  datatype Tile = Used(len: nat) | Free(len: nat)

  /** Units from `start` to `end`; the gap from `lo` to `hi` may be empty. */
  datatype Layout = Layout(start: nat, lo: nat, hi: nat, end: nat, tiles: map<nat, Tile>)

  /** Where a block or the gap begins, or the area ends. */
  predicate Stop(y: Layout, x: nat) {
    x in y.tiles || x == y.end || (y.lo < y.hi && x == y.lo)
  }

  predicate Fits(y: Layout, s: nat)
    requires s in y.tiles
  {
    var e := s + y.tiles[s].len;
    y.start <= s < e <= y.end && Stop(y, e) && (y.lo < y.hi ==> e <= y.lo || y.hi <= s)
  }

  predicate Apart(y: Layout, s: nat, t: nat) {
    s in y.tiles && t in y.tiles && s < t ==> s + y.tiles[s].len <= t
  }

  /** One after another, without holes. */
  ghost predicate Tiled(y: Layout) {
    && 0 < y.start <= y.end && y.lo <= y.hi <= y.end
    && Stop(y, y.start) && (y.lo < y.hi ==> y.start <= y.lo && Stop(y, y.hi))
    && (forall s {:trigger Fits(y, s)} | s in y.tiles :: Fits(y, s))
    && (forall s, t {:trigger Apart(y, s, t)} :: Apart(y, s, t))
  }

  predicate Inside(y: Layout, s: nat, u: nat) {
    s in y.tiles && s <= u < s + y.tiles[s].len
  }

  predicate InGap(y: Layout, u: nat) {
    y.lo <= u < y.hi
  }

  /** Every unit of the area is in the gap or in a block, and not in two. */
  lemma Partition(y: Layout, u: nat)
    requires Tiled(y) && y.start <= u < y.end
    ensures InGap(y, u) <==> !exists s :: Inside(y, s, u)
    ensures forall s, t | Inside(y, s, u) && Inside(y, t, u) :: s == t
  {
    Covered(y, u, y.start);
    forall s | Inside(y, s, u)
      ensures !InGap(y, u)
    {
      assert Fits(y, s);
    }
    forall s, t | Inside(y, s, u) && Inside(y, t, u)
      ensures s == t
    {
      assert Apart(y, s, t) && Apart(y, t, s);
    }
  }

  lemma {:induction false} Covered(y: Layout, u: nat, x: nat)
    requires Tiled(y) && Stop(y, x) && x <= u < y.end
    ensures InGap(y, u) || exists s :: Inside(y, s, u)
    decreases y.end - x
  {
    if x in y.tiles {
      assert Fits(y, x);
      if !Inside(y, x, u) {
        Covered(y, u, x + y.tiles[x].len);
      }
    } else if u >= y.hi {
      Covered(y, u, y.hi);
    }
  }

  // ----- Operations on blocks ----------------------------------------------------------------------------------

  /** A block is taken or given back. */
  function Marked(y: Layout, s: nat, t: Tile): Layout {
    y.(tiles := y.tiles[s := t])
  }

  lemma MarkedTiled(y: Layout, s: nat, t: Tile)
    requires Tiled(y) && s in y.tiles && t.len == y.tiles[s].len
    ensures Tiled(Marked(y, s, t))
  {
    var z := Marked(y, s, t);
    forall r | r in z.tiles
      ensures Fits(z, r)
    {
      assert Fits(y, r);
    }
    forall a, b
      ensures Apart(z, a, b)
    {
      assert Apart(y, a, b);
    }
  }

  /** A block is cut in two. */
  function Cut(y: Layout, s: nat, t: Tile, t': Tile): Layout {
    y.(tiles := y.tiles[s := t][s + t.len := t'])
  }

  ghost predicate Cuts(y: Layout, s: nat, t: Tile, t': Tile) {
    Tiled(y) && s in y.tiles && 1 <= t.len && 1 <= t'.len && t.len + t'.len == y.tiles[s].len
  }

  lemma CutFits(y: Layout, s: nat, t: Tile, t': Tile, r: nat)
    requires Cuts(y, s, t, t') && r in Cut(y, s, t, t').tiles
    ensures Fits(Cut(y, s, t, t'), r)
  {
    assert Fits(y, s);
    assert r in y.tiles ==> Fits(y, r);
  }

  lemma CutApart(y: Layout, s: nat, t: Tile, t': Tile, a: nat, b: nat)
    requires Cuts(y, s, t, t')
    ensures Apart(Cut(y, s, t, t'), a, b)
  {
    assert Apart(y, a, b) && Apart(y, s, b) && Apart(y, a, s) && Apart(y, s, a);
  }

  lemma CutTiled(y: Layout, s: nat, t: Tile, t': Tile)
    requires Cuts(y, s, t, t')
    ensures Tiled(Cut(y, s, t, t')) && s + t.len !in y.tiles
  {
    hide Fits, Apart;
    var z := Cut(y, s, t, t');
    CutMiddle(y, s, t, t');
    CutEnds(y, s, t, t');
    forall r | r in z.tiles
      ensures Fits(z, r)
    {
      CutFits(y, s, t, t', r);
    }
    forall a, b
      ensures Apart(z, a, b)
    {
      CutApart(y, s, t, t', a, b);
    }
  }

  lemma CutMiddle(y: Layout, s: nat, t: Tile, t': Tile)
    requires Cuts(y, s, t, t')
    ensures s + t.len !in y.tiles
  {
    assert Apart(y, s, s + t.len);
  }

  lemma CutEnds(y: Layout, s: nat, t: Tile, t': Tile)
    requires Cuts(y, s, t, t')
    ensures var z := Cut(y, s, t, t'); Stop(z, y.start) && (y.lo < y.hi ==> Stop(z, y.hi))
  {
    hide Fits, Apart;
  }

  /** Two neighbours become one. */
  function Joined(y: Layout, s: nat, t: Tile): Layout
    requires s in y.tiles
  {
    y.(tiles := (y.tiles - {s + y.tiles[s].len})[s := t])
  }

  ghost predicate Joins(y: Layout, s: nat, t: Tile) {
    && Tiled(y) && s in y.tiles && s + y.tiles[s].len in y.tiles
    && t.len == y.tiles[s].len + y.tiles[s + y.tiles[s].len].len
  }

  lemma JoinedFits(y: Layout, s: nat, t: Tile, r: nat)
    requires Joins(y, s, t) && r in Joined(y, s, t).tiles
    ensures Fits(Joined(y, s, t), r)
  {
    var n := s + y.tiles[s].len;
    assert Fits(y, s) && Fits(y, n) && Fits(y, r) && Apart(y, r, s) && Apart(y, s, r) && Apart(y, n, n + y.tiles[n].len);
  }

  lemma JoinedApart(y: Layout, s: nat, t: Tile, a: nat, b: nat)
    requires Joins(y, s, t)
    ensures Apart(Joined(y, s, t), a, b)
  {
    assert Apart(y, a, b) && Apart(y, s + y.tiles[s].len, b) && Apart(y, s, b);
  }

  lemma JoinedTiled(y: Layout, s: nat, t: Tile)
    requires Joins(y, s, t)
    ensures Tiled(Joined(y, s, t))
  {
    hide Fits, Apart;
    var z := Joined(y, s, t);
    forall r | r in z.tiles
      ensures Fits(z, r)
    {
      JoinedFits(y, s, t, r);
    }
    forall a, b
      ensures Apart(z, a, b)
    {
      JoinedApart(y, s, t, a, b);
    }
    JoinedEnds(y, s, t);
  }

  lemma JoinedEnds(y: Layout, s: nat, t: Tile)
    requires Joins(y, s, t)
    ensures var z := Joined(y, s, t); Stop(z, y.start) && (y.lo < y.hi ==> Stop(z, y.hi))
  {
    assert Fits(y, s) && Fits(y, s + y.tiles[s].len);
  }

  /** A block from the low end of the gap. */
  function FromGap(y: Layout, n: nat): Layout {
    y.(lo := y.lo + n, tiles := y.tiles[y.lo := Used(n)])
  }

  lemma FromGapTiled(y: Layout, n: nat)
    requires Tiled(y) && 1 <= n <= y.hi - y.lo
    ensures Tiled(FromGap(y, n)) && y.lo !in y.tiles
  {
    var z := FromGap(y, n);
    assert y.lo in y.tiles ==> Fits(y, y.lo);
    forall r | r in z.tiles
      ensures Fits(z, r)
    {
      if r != y.lo {
        assert Fits(y, r);
      }
    }
    forall a, b
      ensures Apart(z, a, b)
    {
      assert Apart(y, a, b);
      if a != y.lo && a in y.tiles {
        assert Fits(y, a);
      }
      if b != y.lo && b in y.tiles {
        assert Fits(y, b);
      }
    }
  }

  /** One unit from the high end of the gap. */
  function FromTop(y: Layout): Layout
    requires y.hi > 0
  {
    y.(hi := y.hi - 1, tiles := y.tiles[y.hi - 1 := Used(1)])
  }

  lemma FromTopFits(y: Layout, r: nat)
    requires Tiled(y) && y.lo < y.hi && r in FromTop(y).tiles
    ensures Fits(FromTop(y), r)
  {
    assert r in y.tiles ==> Fits(y, r);
  }

  lemma FromTopApart(y: Layout, a: nat, b: nat)
    requires Tiled(y) && y.lo < y.hi
    ensures Apart(FromTop(y), a, b)
  {
    assert Apart(y, a, b);
    assert a in y.tiles ==> Fits(y, a);
    assert b in y.tiles ==> Fits(y, b);
  }

  lemma FromTopEnds(y: Layout)
    requires Tiled(y) && y.lo < y.hi
    ensures y.hi - 1 !in y.tiles
    ensures var z := FromTop(y); Stop(z, y.start) && (z.lo < z.hi ==> Stop(z, z.hi))
  {
    assert y.hi - 1 in y.tiles ==> Fits(y, y.hi - 1);
  }

  lemma FromTopTiled(y: Layout)
    requires Tiled(y) && y.lo < y.hi
    ensures Tiled(FromTop(y)) && y.hi - 1 !in y.tiles
  {
    hide Apart, Fits;
    var z := FromTop(y);
    FromTopEnds(y);
    forall r | r in z.tiles
      ensures Fits(z, r)
    {
      FromTopFits(y, r);
    }
    forall a, b
      ensures Apart(z, a, b)
    {
      FromTopApart(y, a, b);
    }
  }

  /** The area grows at its start. */
  function Grown(y: Layout, n: nat): Layout
    requires n <= y.start
  {
    y.(start := y.start - n, tiles := y.tiles[y.start - n := Used(n)])
  }

  lemma GrownTiled(y: Layout, n: nat)
    requires Tiled(y) && 1 <= n < y.start
    ensures Tiled(Grown(y, n)) && y.start - n !in y.tiles
  {
    var z, m := Grown(y, n), y.start - n;
    assert m in y.tiles ==> Fits(y, m);
    forall r | r in z.tiles
      ensures Fits(z, r)
    {
      if r != m {
        assert Fits(y, r);
      }
    }
    forall a, b
      ensures Apart(z, a, b)
    {
      assert Apart(y, a, b);
      if b != m && b in y.tiles {
        assert Fits(y, b);
      }
    }
  }
}
