/** The doubly linked list of free blocks that GlueFreeBlocks makes, and what gluing does to it. */
module PpmdGlue {
  import opened PpmdLayout
  import opened PpmdLists

  /** The words link d, forwards and backwards. */
  ghost predicate DList(next: seq<nat>, prev: seq<nat>, d: seq<nat>) {
    |next| == |prev| && forall k: nat {:trigger Pair(next, prev, d, k)} :: Pair(next, prev, d, k)
  }

  predicate Pair(next: seq<nat>, prev: seq<nat>, d: seq<nat>, k: nat) {
    k + 1 < |d| ==>
      && d[k] < |next| && d[k + 1] < |prev| && next[d[k]] == d[k + 1] && prev[d[k + 1]] == d[k]
  }

  /** A list that starts and ends at its head. */
  function Ring(head: nat, l: seq<nat>): seq<nat> {
    [head] + l + [head]
  }

  function Without(l: seq<nat>, j: nat): seq<nat>
    requires j < |l|
  {
    l[..j] + l[j + 1..]
  }

  lemma PushFront(next: seq<nat>, prev: seq<nat>, e: seq<nat>, node: nat)
    requires DList(next, prev, e) && e != [] && e[0] < |next| && node < |next| && node !in e && NoDup(e)
    ensures DList(next[node := e[0]], prev[e[0] := node], [node] + e)
  {
    var d := [node] + e;
    var next', prev' := next[node := e[0]], prev[e[0] := node];
    forall k: nat
      ensures Pair(next', prev', d, k)
    {
      if 0 < k < |e| {
        assert d[k] == e[k - 1] && d[k + 1] == e[k];
        assert Pair(next, prev, e, k - 1);
        assert e[k] != e[0];
      }
    }
  }

  lemma Close(next: seq<nat>, prev: seq<nat>, l: seq<nat>, head: nat)
    requires var e := l + [head]; DList(next, prev, e) && head < |next| && NoDup(e) && e[0] < |next|
    ensures var n := (l + [head])[0]; DList(next[head := n], prev[n := head], Ring(head, l))
  {
    var e := l + [head];
    var d := Ring(head, l);
    assert d == [head] + e;
    var next', prev' := next[head := e[0]], prev[e[0] := head];
    forall k: nat
      ensures Pair(next', prev', d, k)
    {
      if 0 < k < |e| {
        assert d[k] == e[k - 1] && d[k + 1] == e[k];
        assert Pair(next, prev, e, k - 1);
        assert e[k - 1] != e[|e| - 1] && e[k] != e[0];
      }
    }
  }

  /** Taking a block out. */
  lemma TakeOut(next: seq<nat>, prev: seq<nat>, l: seq<nat>, head: nat, j: nat)
    requires DList(next, prev, Ring(head, l)) && j < |l| && NoDup(l) && head !in l
    ensures l[j] < |next|
    ensures var p, n := prev[l[j]], next[l[j]];
            p < |next| && n < |next| && DList(next[p := n], prev[n := p], Ring(head, Without(l, j)))
  {
    var d := Ring(head, l);
    assert Pair(next, prev, d, j) && Pair(next, prev, d, j + 1) && d[j + 1] == l[j];
    var p, n := prev[l[j]], next[l[j]];
    assert p == d[j] && n == d[j + 2];
    var c := Ring(head, Without(l, j));
    var next', prev' := next[p := n], prev[n := p];
    forall k: nat
      ensures Pair(next', prev', c, k)
    {
      if k < j {
        assert c[k] == d[k] && c[k + 1] == d[k + 1] && Pair(next, prev, d, k);
        RingDistinct(l, head, k, j);
        RingDistinct(l, head, k + 1, j + 2);
      } else if k == j {
        assert c[k] == d[j] && c[k + 1] == d[j + 2];
      } else if k + 1 < |c| {
        assert c[k] == d[k + 1] && c[k + 1] == d[k + 2] && Pair(next, prev, d, k + 1);
        RingDistinct(l, head, j, k + 1);
        RingDistinct(l, head, j + 2, k + 2);
      }
    }
  }

  lemma RingDistinct(l: seq<nat>, head: nat, a: nat, b: nat)
    requires NoDup(l) && head !in l && a < b <= |l| + 1 && !(a == 0 && b == |l| + 1)
    ensures Ring(head, l)[a] != Ring(head, l)[b]
  {
  }

  lemma NoDupWithout(l: seq<nat>, j: nat)
    requires NoDup(l) && j < |l|
    ensures NoDup(Without(l, j)) && l[j] !in Without(l, j) && forall s | s in Without(l, j) :: s in l
    ensures Elements(Without(l, j)) == Elements(l) - {l[j]}
  {
    var c := Without(l, j);
    assert forall k | 0 <= k < |c| :: c[k] == if k < j then l[k] else l[k + 1];
    forall x | x in l && x != l[j]
      ensures x in c
    {
      var k :| 0 <= k < |l| && l[k] == x;
      assert c[if k < j then k else k - 1] == x;
    }
  }

  lemma NoDupFront(e: seq<nat>, x: nat)
    requires NoDup(e) && x !in e
    ensures NoDup([x] + e)
  {
  }

  lemma NoDupTail(e: seq<nat>)
    requires NoDup(e) && e != []
    ensures NoDup(e[1..]) && e[0] !in e[1..]
  {
  }

  lemma KeptTwice(a: seq<nat>, b: seq<nat>, c: seq<nat>, y: Layout)
    requires Kept(a, b, y) && Kept(b, c, y)
    ensures Kept(a, c, y)
  {
  }

  /** One word, of a block that is not in use, of the gap or past the end. */
  lemma KeptOne(before: seq<nat>, y: Layout, s: nat, x: nat)
    requires Tiled(y) && s < |before| && (IsFree(y, s) || s == y.end || (y.lo < y.hi && s == y.lo))
    ensures Kept(before, before[s := x], y)
  {
    KeptWrite(before, before, y, s, x);
  }

  // ----- Stamps ---------------------------------------------------------------------------------------------

  function Stamp(w: nat): nat {
    w % 0x10000
  }

  function Size(w: nat): nat {
    w / 0x10000
  }

  /** Blocks in use have stamps other than 0. */
  ghost predicate Stamped(first: seq<nat>, y: Layout) {
    forall s | s in y.tiles && y.tiles[s].Used? :: s < |first| && Stamp(first[s]) != 0
  }

  lemma StampsKept(a: seq<nat>, b: seq<nat>, y: Layout)
    requires Tiled(y) && Kept(a, b, y) && Stamped(a, y)
    ensures Stamped(b, y)
  {
    forall s | s in y.tiles && y.tiles[s].Used?
      ensures s < |b| && Stamp(b[s]) != 0
    {
      assert Fits(y, s) && Inside(y, s, s);
      assert Held(y, s);
    }
  }

  lemma HeldSame(y: Layout, z: Layout, u: nat)
    requires InUse(y.tiles) == InUse(z.tiles) && Held(y, u)
    ensures Held(z, u)
  {
    var s :| Inside(y, s, u) && y.tiles[s].Used?;
    assert s in InUse(y.tiles) && s in InUse(z.tiles);
    assert Inside(z, s, u);
  }

  lemma KeptAs(a: seq<nat>, b: seq<nat>, y: Layout, z: Layout)
    requires Kept(a, b, y) && InUse(y.tiles) == InUse(z.tiles)
    ensures Kept(a, b, z)
  {
    forall u: nat | u < |a| && Held(z, u)
      ensures b[u] == a[u]
    {
      HeldSame(z, y, u);
    }
  }

  lemma StampedAs(first: seq<nat>, y: Layout, z: Layout)
    requires Stamped(first, y) && InUse(y.tiles) == InUse(z.tiles)
    ensures Stamped(first, z)
  {
    forall s | s in z.tiles && z.tiles[s].Used?
      ensures s < |first| && Stamp(first[s]) != 0
    {
      assert s in InUse(z.tiles) && s in InUse(y.tiles);
    }
  }

  lemma InUseJoined(m: map<nat, Tile>, s: nat, n: nat, k: nat)
    requires s in m && m[s].Free? && n in m && m[n].Free?
    ensures InUse((m - {n})[s := Free(k)]) == InUse(m)
  {
  }

  lemma KeptThen(a: seq<nat>, b: seq<nat>, c: seq<nat>, y: Layout, z: Layout)
    requires Kept(a, b, y) && Kept(b, c, z) && InUse(y.tiles) == InUse(z.tiles)
    ensures Kept(a, c, z)
  {
    hide InUse;
    KeptAs(a, b, y, z);
    KeptTwice(a, b, c, z);
  }

  lemma RingNext(next: seq<nat>, prev: seq<nat>, l: seq<nat>, head: nat, pos: nat)
    requires DList(next, prev, Ring(head, l)) && pos <= |l| && head < |next|
    ensures pos < |l| ==> l[pos] < |next| && next[l[pos]] == (l + [head])[pos + 1]
    ensures pos == 0 ==> next[head] == (l + [head])[0]
  {
    var d := Ring(head, l);
    assert Pair(next, prev, d, pos) && Pair(next, prev, d, pos + 1);
    assert pos < |l| ==> d[pos + 1] == l[pos] && d[pos + 2] == (l + [head])[pos + 1];
    assert d[1] == (l + [head])[0];
  }

  lemma TailElements(r: seq<nat>)
    requires NoDup(r) && r != []
    ensures Elements(r) - {r[0]} == Elements(r[1..]) && forall s | s in r[1..] :: s in r && s != r[0]
  {
    NoDupTail(r);
    assert r == [r[0]] + r[1..];
  }

  lemma KeptLess(a: seq<nat>, b: seq<nat>, y: Layout, z: Layout)
    requires Kept(a, b, z) && forall s | s in InUse(y.tiles) :: s in InUse(z.tiles) && InUse(y.tiles)[s] <= InUse(z.tiles)[s]
    ensures Kept(a, b, y)
  {
    forall u: nat | u < |a| && Held(y, u)
      ensures Held(z, u)
    {
      var s :| Inside(y, s, u) && y.tiles[s].Used?;
      assert s in InUse(y.tiles);
      assert Inside(z, s, u);
    }
  }

  lemma KeptThrough(a: seq<nat>, b: seq<nat>, c: seq<nat>, y: Layout, z: Layout)
    requires Kept(a, b, y) && Kept(b, c, z) && InUse(y.tiles) == InUse(z.tiles)
    ensures Kept(a, c, y)
  {
    hide InUse;
    KeptAs(b, c, z, y);
    KeptTwice(a, b, c, y);
  }

  /** What is inside a block is inside no other, and starts none. */
  lemma OnlyInside(y: Layout, s: nat, u: nat)
    requires Tiled(y) && Inside(y, s, u)
    ensures forall r | Inside(y, r, u) :: r == s
    ensures u != s ==> u !in y.tiles
    ensures y.tiles[s].Free? ==> !Held(y, u)
    ensures u < y.end
  {
    assert Fits(y, s);
    forall r | Inside(y, r, u)
      ensures r == s
    {
      assert Apart(y, r, s) && Apart(y, s, r);
    }
    assert Apart(y, s, u);
  }

  // ----- What gluing achieves --------------------------------------------------------------------------------

  /** A free block is not followed by another that could be glued to it. */
  predicate Final(m: map<nat, Tile>, s: nat) {
    s in m && m[s].Free? ==>
      var t := s + m[s].len;
      t in m && m[t].Free? ==> m[s].len + m[t].len >= 0x10000
  }

  ghost predicate Coalesced(m: map<nat, Tile>) {
    forall s: nat {:trigger Final(m, s)} :: Final(m, s)
  }

  /** A block before one that grows stays final. */
  lemma FinalJoined(y: Layout, n: nat, nu: nat, s: nat)
    requires Tiled(y) && IsFree(y, n) && IsFree(y, n + y.tiles[n].len) && nu == y.tiles[n].len + y.tiles[n + y.tiles[n].len].len
    requires s != n && Final(y.tiles, s)
    ensures Final(Joined(y, n, Free(nu)).tiles, s)
  {
    assert Apart(y, s, n) && Apart(y, n, s);
  }

  /** What becomes of a free block of 128 units or fewer: one block of a size, or two. */
  function LastPieces(s: nat, nu: nat): map<nat, Tile>
    requires 1 <= nu <= 128
  {
    var i := U2I(nu);
    if I2U(i) == nu then map[s := Free(nu)]
    else
      var k := I2U(i - 1);
      map[s := Free(k)][s + k := Free(nu - k)]
  }

  /** Of a longer one 128 units are cut off as often as it takes. */
  function Pieces(s: nat, nu: nat): (m: map<nat, Tile>)
    requires nu >= 1
    ensures s in m
    decreases nu
  {
    if nu > 128 then map[s := Free(128)] + Pieces(s + 128, nu - 128) else LastPieces(s, nu)
  }

  lemma PiecesStep(m: map<nat, Tile>, s: nat, nu: nat)
    requires nu > 128
    ensures m[s := Free(128)][s + 128 := Free(nu - 128)] + Pieces(s + 128, nu - 128) == m + Pieces(s, nu)
  {
  }

  /** The pieces of blocks l. */
  function AllPieces(m: map<nat, Tile>, l: seq<nat>): map<nat, Tile>
    requires forall s | s in l :: s in m && m[s].len >= 1
  {
    if l == [] then map[] else AllPieces(m, l[..|l| - 1]) + Pieces(l[|l| - 1], m[l[|l| - 1]].len)
  }

  /** Free blocks l are all there are, and each has been cut into its pieces. */
  ghost predicate Recut(m: map<nat, Tile>, l: seq<nat>, m': map<nat, Tile>) {
    && NoDup(l) && (forall s: nat :: s in l <==> s in m && m[s].Free?) && (forall s | s in l :: m[s].len >= 1)
    && m' == m + AllPieces(m, l)
  }

  /** The n units from dst hold what those from src held; nothing else has changed. */
  ghost predicate Copied(before: seq<nat>, after: seq<nat>, dst: nat, src: nat, n: nat) {
    && |before| == |after| && dst + n <= |before| && src + n <= |before|
    && forall u: nat {:trigger after[u]} | u < |before| :: after[u] == if dst <= u < dst + n then before[src + (u - dst)] else before[u]
  }

  lemma CopiedOn(before: seq<nat>, after: seq<nat>, dst: nat, src: nat, n: nat)
    requires Copied(before, after, dst, src, n) && dst + n < |before| && src + n < |before|
    requires src + n < dst || dst + n <= src
    ensures Copied(before, after[dst + n := after[src + n]], dst, src, n + 1)
  {
    assert after[src + n] == before[src + n];
  }

  /** The first n units of a block have moved from src to dst; the other blocks in use hold what they held. */
  ghost predicate MovedTo(before: seq<nat>, after: seq<nat>, y: Layout, src: nat, dst: nat, n: nat) {
    && |before| == |after| && src + n <= |before| && dst + n <= |before|
    && (forall u: nat | dst <= u < dst + n :: after[u] == before[src + (u - dst)])
    && (forall s, u: nat | u < |before| && s != src && Inside(y, s, u) && y.tiles[s].Used? :: after[u] == before[u])
  }

  lemma CopyMoves(before: seq<nat>, after: seq<nat>, after': seq<nat>, y: Layout, z: Layout, src: nat, dst: nat, n: nat)
    requires Tiled(y) && Copied(before, after, dst, src, n) && Kept(after, after', z)
    requires IsFree(y, dst) && n <= y.tiles[dst].len && src in y.tiles && y.tiles[src].Used?
    requires z.tiles == y.tiles[dst := Used(y.tiles[dst].len)][src := Free(y.tiles[src].len)]
    ensures MovedTo(before, after', y, src, dst, n)
  {
    forall u: nat | dst <= u < dst + n
      ensures after'[u] == before[src + (u - dst)]
    {
      assert Inside(z, dst, u);
      assert Held(z, u);
    }
    forall s, u: nat | u < |before| && s != src && Inside(y, s, u) && y.tiles[s].Used?
      ensures after'[u] == before[u]
    {
      assert Inside(z, s, u);
      assert Held(z, u);
      OnlyInside(y, s, u);
      assert !Inside(y, dst, u);
    }
  }

  lemma KeptMoves(before: seq<nat>, after: seq<nat>, y: Layout, z: Layout, src: nat, n: nat)
    requires Kept(before, after, z) && src + n <= |before| && src in y.tiles && y.tiles[src].Used? && n <= y.tiles[src].len
    requires InUse(z.tiles) == InUse(y.tiles)[src := n]
    ensures MovedTo(before, after, y, src, src, n)
  {
    forall u: nat | src <= u < src + n
      ensures after[u] == before[u]
    {
      assert src in InUse(z.tiles) && Inside(z, src, u);
      assert Held(z, u);
    }
    forall s, u: nat | u < |before| && s != src && Inside(y, s, u) && y.tiles[s].Used?
      ensures after[u] == before[u]
    {
      assert s in InUse(y.tiles) && s in InUse(z.tiles) && Inside(z, s, u);
      assert Held(z, u);
    }
  }
}
