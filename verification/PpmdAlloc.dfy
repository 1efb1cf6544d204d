/**
  The sub-allocator of Ppmd7.c. Memory is counted in units of three words: the first is the link of a free block, or
  its stamp and size while blocks are glued together. Each operation keeps the picture of PpmdLayout a partition,
  every free block in the list for its size, and what is in blocks in use.
*/
module PpmdAlloc {
  import opened PpmdLayout
  import opened PpmdLists
  import opened PpmdGlue

  const UNIT_SIZE := 12

  class Allocator {
    /** The words of the units; the unit at `end` is the head of the list in GlueFreeBlocks. */
    const first: array<nat>
    const next: array<nat>
    const prev: array<nat>
    const end: nat
    const freeList: array<nat>
    var text: nat
    var unitsStart: nat
    var loUnit: nat
    var hiUnit: nat
    var glueCount: nat

    ghost var tiles: map<nat, Tile>
    ghost var lists: Lists

    ghost function Y(): Layout
      reads this
    {
      Layout(unitsStart, loUnit, hiUnit, end, tiles)
    }

    ghost predicate Memory()
      reads this
    {
      && |lists| == NUM_INDEXES && first.Length == end + 1 && next.Length == end + 1 && prev.Length == end + 1 && freeList.Length == NUM_INDEXES
      && first != next && first != prev && next != prev && freeList != first && freeList != next && freeList != prev
    }

    ghost predicate Sound(loose: set<nat>)
      reads this, first, freeList
    {
      Memory() && Tiled(Y()) && Listed(Y(), lists, loose) && Linked(first[..], freeList[..], lists)
    }

    ghost predicate Valid()
      reads this, first, freeList
    {
      Sound({})
    }

    constructor (units: nat, start: nat, text: nat)
      requires 0 < start < units
      ensures Valid() && fresh(first) && fresh(next) && fresh(prev) && fresh(freeList) && tiles == map[]
      ensures end == units && unitsStart == start && loUnit == start && hiUnit == units
    {
      first, next, prev := new nat[units + 1](i => 0), new nat[units + 1](i => 0), new nat[units + 1](i => 0);
      end := units;
      freeList := new nat[NUM_INDEXES](i => 0);
      this.text, unitsStart, loUnit, hiUnit, glueCount := text, start, start, units, 0;
      tiles, lists := map[], seq(NUM_INDEXES, i => []);
    }

    // ----- Free lists -----------------------------------------------------------------------------------------

    method InsertNode(node: nat, indx: nat, ghost loose: set<nat>)
      requires Sound(loose) && indx < NUM_INDEXES && node in loose && FreeOf(Y(), node, I2U(indx))
      modifies first, freeList, `lists
      ensures Sound(loose - {node}) && lists == Pushed(old(lists), indx, node)
      ensures 0 < node < first.Length && first[..] == old(first[..])[node := first[node]]
    {
      hide Tiled, Linked, Pushed;
      PushListed(Y(), lists, loose, indx, node);
      LooseUnlisted(node, loose);
      PushLinked(first[..], freeList[..], lists, indx, node);
      first[node] := freeList[indx];
      freeList[indx] := node;
      lists := Pushed(lists, indx, node);
      assert first[..] == old(first[..])[node := old(freeList[indx])];
      assert freeList[..] == old(freeList[..])[indx := node];
    }

    lemma LooseUnlisted(node: nat, loose: set<nat>)
      requires Sound(loose) && node in loose
      ensures Unlisted(lists, node) && 0 < node < first.Length
    {
      assert IsFree(Y(), node) && Fits(Y(), node);
    }

    method RemoveNode(indx: nat, ghost loose: set<nat>) returns (node: nat)
      requires Sound(loose) && indx < NUM_INDEXES && lists[indx] != []
      modifies freeList, `lists, `tiles
      ensures Sound(loose) && FreeOf(old(Y()), node, I2U(indx)) && Y() == Marked(old(Y()), node, Used(I2U(indx)))
    {
      hide Tiled, Linked;
      PopListed(Y(), lists, loose, indx);
      PopLinked(first[..], freeList[..], lists, indx);
      node := freeList[indx];
      MarkedTiled(Y(), node, Used(I2U(indx)));
      freeList[indx] := first[node];
      tiles := tiles[node := Used(I2U(indx))];
      lists := Popped(lists, indx);
      assert freeList[..] == old(freeList[..])[indx := first[node]];
    }

    /** Blocks stay as they are. */
    twostate predicate Others(except: set<nat>)
      reads this, first
    {
      forall u | u in old(tiles) && u !in except :: u in tiles && tiles[u] == old(tiles[u]) && (u < first.Length ==> first[u] == old(first[u]))
    }

    lemma LooseBlocks(loose: set<nat>)
      requires Sound(loose)
      ensures forall s | s in loose :: s in tiles && tiles[s].Free?
    {
      assert forall s | s in loose :: IsFree(Y(), s);
    }

    ghost method CutLoose(s: nat, k: nat, n: nat, loose: set<nat>)
      requires Sound(loose) && s in loose && FreeOf(Y(), s, k + n) && 1 <= k && 1 <= n
      modifies `tiles
      ensures Sound(loose + {s + k}) && s + k !in old(tiles) && s + k !in loose && tiles == old(tiles)[s := Free(k)][s + k := Free(n)]
      ensures InUse(tiles) == InUse(old(tiles))
    {
      hide Tiled, Linked, Listed, InUse;
      ghost var m := tiles;
      LooseBlocks(loose);
      CutTiled(Y(), s, Free(k), Free(n));
      CutListed(Y(), lists, loose, s, Free(k), Free(n));
      InUseCut(m, s, k, n);
      tiles := tiles[s := Free(k)][s + k := Free(n)];
      assert loose - {s} + {s} + {s + k} == loose + {s + k};
    }

    lemma LastCut(m: map<nat, Tile>, s: nat, nu: nat)
      requires 1 <= nu <= 128 && s in m && m[s] == Free(nu)
      ensures m + LastPieces(s, nu) ==
                if I2U(U2I(nu)) == nu then m
                else var k := I2U(U2I(nu) - 1); m[s := Free(k)][s + k := Free(nu - k)]
    {
      hide I2U, U2I;
    }

    /** A loose block goes to the lists, in two parts if it is of no size. */
    method FileRest(s: nat, nu: nat, ghost loose: set<nat>)
      requires Sound(loose) && s in loose && FreeOf(Y(), s, nu) && 1 <= nu <= 128
      modifies first, freeList, `lists, `tiles
      ensures Sound(loose - {s}) && InUse(tiles) == InUse(old(tiles)) && Kept(old(first[..]), first[..], Y()) && Others({s})
      ensures tiles == old(tiles) + LastPieces(s, nu)
    {
      hide Tiled, Linked, Listed, Kept, InUse, Pushed, LastPieces;
      var i := U2I(nu);
      ghost var before, m := first[..], tiles;
      LastCut(m, s, nu);
      KeptSame(before, Y());
      if I2U(i) != nu {
        i := i - 1;
        var k := I2U(i);
        CutLoose(s, k, nu - k, loose);
        KeptSame(before, Y());
        InsertNode(s + k, nu - k - 1, loose + {s + k});
        assert loose + {s + k} - {s + k} == loose;
        KeptWrite(before, before, Y(), s + k, first[s + k]);
      }
      ghost var middle := first[..];
      InsertNode(s, i, loose);
      KeptWrite(before, middle, Y(), s, first[s]);
    }

    lemma LastReplaces(m: map<nat, Tile>, s: nat, nu: nat)
      requires 1 <= nu <= 128
      ensures m[s := Free(nu)] + LastPieces(s, nu) == m + LastPieces(s, nu)
    {
    }

    /** Gives back what a block in use has too much of. */
    method SplitBlock(ptr: nat, oldIndx: nat, newIndx: nat)
      requires Valid() && newIndx < oldIndx < NUM_INDEXES && ptr in tiles && tiles[ptr] == Used(I2U(oldIndx))
      modifies first, freeList, `lists, `tiles
      ensures Valid() && InUse(tiles) == InUse(old(tiles))[ptr := I2U(newIndx)]
      ensures Kept(old(first[..]), first[..], Y())
      ensures var k, n := I2U(newIndx), I2U(oldIndx) - I2U(newIndx);
              1 <= n <= 128 && tiles == old(tiles)[ptr := Used(k)] + LastPieces(ptr + k, n)
    {
      hide Tiled, Linked, Listed, I2U, U2I, Kept, InUse, LastPieces;
      SizesGrow(newIndx, oldIndx);
      var nu := I2U(oldIndx) - I2U(newIndx);
      var p2 := ptr + I2U(newIndx);
      ghost var m := tiles;
      CutTiled(Y(), ptr, Used(I2U(newIndx)), Free(nu));
      CutListed(Y(), lists, {}, ptr, Used(I2U(newIndx)), Free(nu));
      tiles := tiles[ptr := Used(I2U(newIndx))][p2 := Free(nu)];
      InUseShrunk(m, ptr, I2U(newIndx), nu);
      assert {} - {ptr} + {} + {p2} == {p2};
      LastReplaces(m[ptr := Used(I2U(newIndx))], p2, nu);
      FileRest(p2, nu, {p2});
      assert {p2} - {p2} == {};
    }

    // ----- Gluing: the free blocks are gathered -----------------------------------------------------------------

    /** Writes the first word of a unit that is in no list. */
    method SetFirst(u: nat, x: nat, ghost loose: set<nat>)
      requires Sound(loose) && Unlisted(lists, u) && u < first.Length
      modifies first
      ensures Sound(loose) && first[..] == old(first[..])[u := x]
    {
      hide Tiled, Linked, Listed;
      LinkedFrame(first[..], freeList[..], lists, u, x);
      first[u] := x;
    }

    /** Stamp 0 and the size. */
    ghost predicate Sized(l: seq<nat>)
      reads this, first
    {
      forall s | s in l :: IsFree(Y(), s) && tiles[s].len < 0x10000 && s < first.Length && first[s] == 0x10000 * tiles[s].len
    }

    /** Blocks l are gathered; the rest of a list, from nx on, still is to be. */
    ghost predicate Gathering(l: seq<nat>, rest: seq<nat>, n: nat, nx: nat, indx: nat)
      reads this, first, next, prev, freeList
    {
      && indx < NUM_INDEXES && Sound(Elements(l) + Elements(rest)) && Sized(l) && Chain(first[..], nx, rest)
      && NoDup(rest) && NoDup(l + [end]) && (forall s | s in rest :: s !in l && FreeOf(Y(), s, I2U(indx)))
      && n == (l + [end])[0] && DList(next[..], prev[..], l + [end])
    }

    lemma BlocksBelowEnd(loose: set<nat>, s: nat)
      requires Sound(loose) && s in loose
      ensures IsFree(Y(), s) && 0 < s < end && Unlisted(lists, s)
    {
      LooseUnlisted(s, loose);
      assert IsFree(Y(), s) && Fits(Y(), s);
    }

    /** What gathering one block needs to know. */
    lemma NextToGather(l: seq<nat>, rest: seq<nat>, n: nat, nx: nat, indx: nat)
      requires Gathering(l, rest, n, nx, indx) && rest != []
      ensures nx == rest[0] && IsFree(Y(), nx) && nx < end && Unlisted(lists, nx) && nx !in l + [end] && NoDup([nx] + (l + [end]))
      ensures n <= end && (IsFree(Y(), n) || n == end)
      ensures NoDup(rest[1..]) && nx !in rest[1..]
    {
      BlocksBelowEnd(Elements(l) + Elements(rest), rest[0]);
      assert rest[0] in rest;
      NoDupFront(l + [end], nx);
      NoDupTail(rest);
      assert l != [] ==> l[0] in l;
    }

    method LinkOne(nx: nat, n: nat, ghost e: seq<nat>)
      requires Memory() && Tiled(Y()) && DList(next[..], prev[..], e) && e != [] && n == e[0] && n <= end && nx < end && nx !in e && NoDup(e)
      requires IsFree(Y(), nx) && (IsFree(Y(), n) || n == end)
      modifies next, prev
      ensures DList(next[..], prev[..], [nx] + e)
      ensures Kept(old(next[..]), next[..], Y()) && Kept(old(prev[..]), prev[..], Y())
    {
      hide Tiled, Kept, DList, NoDup;
      PushFront(next[..], prev[..], e, nx);
      KeptOne(next[..], Y(), nx, n);
      KeptOne(prev[..], Y(), n, nx);
      next[nx] := n;
      prev[n] := nx;
      assert next[..] == old(next[..])[nx := n] && prev[..] == old(prev[..])[n := nx];
    }

    method GatherOne(indx: nat, nx: nat, n: nat, ghost l: seq<nat>, ghost rest: seq<nat>) returns (nx': nat)
      requires Gathering(l, rest, n, nx, indx) && rest != []
      modifies first, next, prev
      ensures Gathering([nx] + l, rest[1..], nx, nx', indx)
      ensures Kept(old(first[..]), first[..], Y()) && Kept(old(next[..]), next[..], Y()) && Kept(old(prev[..]), prev[..], Y())
    {
      hide Tiled, Linked, Listed, Kept, DList, NoDup;
      ghost var loose := Elements(l) + Elements(rest);
      NextToGather(l, rest, n, nx, indx);
      LinkOne(nx, n, l + [end]);
      assert [nx] + (l + [end]) == [nx] + l + [end];
      nx' := first[nx];
      ghost var before := first[..];
      KeptOne(before, Y(), nx, 0x10000 * I2U(indx));
      SetFirst(nx, 0x10000 * I2U(indx), loose);
      assert Elements([nx] + l) + Elements(rest[1..]) == loose;
      ChainOn(before, nx, rest, 0x10000 * I2U(indx));
    }

    lemma ChainOn(first0: seq<nat>, nx: nat, rest: seq<nat>, x: nat)
      requires Chain(first0, nx, rest) && rest != [] && nx !in rest[1..]
      ensures nx < |first0| && Chain(first0[nx := x], first0[nx], rest[1..])
    {
      forall k: nat | k < |rest[1..]|
        ensures 0 < rest[1..][k] < |first0| && first0[nx := x][rest[1..][k]] == At(rest[1..], k + 1)
      {
        assert rest[1..][k] == rest[k + 1];
      }
    }

    /** All blocks of some lists are gathered. */
    ghost predicate Gathered(l: seq<nat>, n: nat)
      reads this, first, next, prev, freeList
    {
      Sound(Elements(l)) && Sized(l) && NoDup(l + [end]) && n == (l + [end])[0] && DList(next[..], prev[..], l + [end])
    }

    /** What is in use is as it was before. */
    twostate predicate Undisturbed()
      reads this, first, next, prev
    {
      Kept(old(first[..]), first[..], Y()) && Kept(old(next[..]), next[..], Y()) && Kept(old(prev[..]), prev[..], Y())
    }

    method DropList(indx: nat, n: nat, ghost l: seq<nat>) returns (nx: nat, ghost rest: seq<nat>)
      requires Gathered(l, n) && indx < NUM_INDEXES
      modifies freeList, `lists
      ensures Gathering(l, rest, n, nx, indx) && lists == old(lists)[indx := []]
    {
      hide Tiled, Linked, Listed, DList, NoDup;
      DropListed(Y(), lists, Elements(l), indx);
      DropLinked(first[..], freeList[..], lists, indx);
      nx, rest := freeList[indx], lists[indx];
      freeList[indx] := 0;
      lists := lists[indx := []];
      assert freeList[..] == old(freeList[..])[indx := 0];
    }

    lemma GatheredAll(l: seq<nat>, n: nat, indx: nat)
      requires Gathering(l, [], n, 0, indx)
      ensures Gathered(l, n)
    {
      assert Elements(l) + Elements([]) == Elements(l);
    }

    lemma RestEmpty(l: seq<nat>, rest: seq<nat>, n: nat, nx: nat, indx: nat)
      requires Gathering(l, rest, n, nx, indx)
      ensures nx == 0 <==> rest == []
    {
    }

    method GatherList(indx: nat, n: nat, ghost l: seq<nat>) returns (n': nat, ghost l': seq<nat>)
      requires Gathered(l, n) && indx < NUM_INDEXES && Memory()
      modifies first, next, prev, freeList, `lists
      ensures Gathered(l', n') && Memory() && lists == old(lists)[indx := []] && Undisturbed()
    {
      hide Gathering, Gathered, Kept;
      n', l' := n, l;
      ghost var rest;
      var nx;
      nx, rest := DropList(indx, n, l);
      assert first[..] == old(first[..]) && next[..] == old(next[..]) && prev[..] == old(prev[..]);
      KeptSame(first[..], Y());
      KeptSame(next[..], Y());
      KeptSame(prev[..], Y());
      RestEmpty(l', rest, n', nx, indx);
      while nx != 0
        invariant Gathering(l', rest, n', nx, indx) && (nx == 0 <==> rest == [])
        invariant lists == old(lists)[indx := []] && Undisturbed()
        decreases |rest|
      {
        ghost var f, x, p := first[..], next[..], prev[..];
        var nx' := GatherOne(indx, nx, n', l', rest);
        KeptTwice(old(first[..]), f, first[..], Y());
        KeptTwice(old(next[..]), x, next[..], Y());
        KeptTwice(old(prev[..]), p, prev[..], Y());
        l', rest, n', nx := [nx] + l', rest[1..], nx, nx';
        RestEmpty(l', rest, n', nx, indx);
      }
      GatheredAll(l', n', indx);
    }

    /** The free blocks of all lists are gathered. */
    method GatherAll() returns (n: nat, ghost l: seq<nat>)
      requires Valid()
      modifies first, next, prev, freeList, `lists
      ensures Gathered(l, n) && n == (l + [end])[0] && lists == seq(NUM_INDEXES, i => []) && Undisturbed()
    {
      hide Gathered, Kept;
      KeptSame(first[..], Y());
      KeptSame(next[..], Y());
      KeptSame(prev[..], Y());
      n, l := end, [];
      NothingGathered();
      for i := 0 to NUM_INDEXES
        invariant Gathered(l, n) && Memory() && (forall j | 0 <= j < i :: lists[j] == []) && Undisturbed()
      {
        ghost var f, x, p := first[..], next[..], prev[..];
        n, l := GatherList(i, n, l);
        KeptTwice(old(first[..]), f, first[..], Y());
        KeptTwice(old(next[..]), x, next[..], Y());
        KeptTwice(old(prev[..]), p, prev[..], Y());
      }
      GatheredFirst(l, n);
    }

    lemma GatheredFirst(l: seq<nat>, n: nat)
      requires Gathered(l, n)
      ensures n == (l + [end])[0]
    {
    }

    lemma NothingGathered()
      requires Valid()
      ensures Gathered([], end) && Memory()
    {
      hide Tiled, Linked;
      assert Elements([]) == {} && [] + [end] == [end];
    }

    // ----- Gluing: neighbours become one -------------------------------------------------------------------------

    /** Stamps stop the gluing at the end of the area and at the gap. */
    ghost predicate Fenced()
      reads this, first
    {
      && end < first.Length && Stamp(first[end]) != 0
      && (loUnit < hiUnit ==> loUnit < first.Length && Stamp(first[loUnit]) != 0)
    }

    /** All free blocks are in the ring, and those in use are stamped. */
    ghost predicate Gluing(l: seq<nat>)
      reads this, first, next, prev, freeList
    {
      && Sound(Elements(l)) && lists == seq(NUM_INDEXES, i => []) && Sized(l) && NoDup(l)
      && DList(next[..], prev[..], Ring(end, l)) && Fenced() && Stamped(first[..], Y())
    }

    /** The gap is no block. */
    lemma GapNoBlock()
      requires Tiled(Y()) && loUnit < hiUnit
      ensures loUnit !in tiles && loUnit < end
    {
      assert loUnit in tiles ==> Fits(Y(), loUnit);
    }

    lemma NoneListed(u: nat)
      requires lists == seq(NUM_INDEXES, i => [])
      ensures Unlisted(lists, u)
    {
    }

    method CloseRing(n: nat, ghost l: seq<nat>)
      requires Gathered(l, n) && lists == seq(NUM_INDEXES, i => []) && Stamped(first[..], Y())
      modifies first, next, prev
      ensures Gluing(l) && Undisturbed()
    {
      hide Tiled, Linked, Listed, Kept, DList, NoDup, Stamped;
      RingClosed(n, l);
      KeptOne(next[..], Y(), end, n);
      KeptOne(prev[..], Y(), n, end);
      ghost var f := first[..];
      NoneListed(end);
      KeptOne(first[..], Y(), end, 0x10000 * Size(first[end]) + 1);
      SetFirst(end, 0x10000 * Size(first[end]) + 1, Elements(l));
      next[end] := n;
      prev[n] := end;
      assert next[..] == old(next[..])[end := n] && prev[..] == old(prev[..])[n := end];
      if loUnit != hiUnit {
        GapBounds();
        GapNoBlock();
        NoneListed(loUnit);
        ghost var g := first[..];
        KeptOne(first[..], Y(), loUnit, 0x10000 * Size(first[loUnit]) + 1);
        SetFirst(loUnit, 0x10000 * Size(first[loUnit]) + 1, Elements(l));
        KeptTwice(f, g, first[..], Y());
      }
      StampsKept(f, first[..], Y());
    }

    lemma GapBounds()
      requires Tiled(Y())
      ensures loUnit <= hiUnit <= end
    {
    }

    lemma RingClosed(n: nat, l: seq<nat>)
      requires Gathered(l, n)
      ensures n <= end && (IsFree(Y(), n) || n == end) && NoDup(l) && end !in l
      ensures DList(next[..][end := n], prev[..][n := end], Ring(end, l))
      ensures forall s | s in l :: s < end
    {
      forall s | s in l
        ensures s < end
      {
        BlocksBelowEnd(Elements(l), s);
      }
      assert l != [] ==> l[0] in l;
      assert forall j, k | 0 <= j < k < |l| :: l[j] == (l + [end])[j] && l[k] == (l + [end])[k];
      Close(next[..], prev[..], l, end);
    }

    lemma AllGathered(l: seq<nat>, m: nat)
      requires Gluing(l) && IsFree(Y(), m)
      ensures m in l
    {
      hide Linked, DList, NoDup, Tiled;
      assert m !in Elements(l) ==> Filed(lists, m, tiles[m].len);
    }

    /** The unit after a free block is another, or is stamped. */
    lemma After(l: seq<nat>, n: nat) returns (j: nat)
      requires Gluing(l) && n in l
      ensures n < first.Length && n in tiles && Size(first[n]) == tiles[n].len && n + tiles[n].len < first.Length
      ensures Stamp(first[n + tiles[n].len]) == 0 ==>
                && j < |l| && l[j] == n + tiles[n].len && l[j] != n
                && IsFree(Y(), l[j]) && Size(first[l[j]]) == tiles[l[j]].len
    {
      hide Linked, DList, NoDup;
      var m := n + tiles[n].len;
      assert IsFree(Y(), n) && Fits(Y(), n);
      j := 0;
      if Stamp(first[m]) == 0 {
        assert IsFree(Y(), m);
        AllGathered(l, m);
        j :| j < |l| && l[j] == m;
      }
    }

    /** What merging needs to know. */
    ghost predicate Mergeable(n: nat, m: nat, nu: nat, l: seq<nat>, j: nat)
      reads this, first, next, prev, freeList
    {
      && Gluing(l) && n in l && j < |l| && l[j] == m && m != n && IsFree(Y(), n) && IsFree(Y(), m)
      && m == n + tiles[n].len && nu == tiles[n].len + tiles[m].len < 0x10000
    }

    lemma MergeBlocks(n: nat, m: nat, nu: nat, l: seq<nat>, j: nat)
      requires Mergeable(n, m, nu, l, j)
      ensures var z := Joined(Y(), n, Free(nu));
              && Tiled(z) && Listed(z, lists, Elements(Without(l, j))) && NoDup(Without(l, j)) && InUse(z.tiles) == InUse(tiles)
              && IsFree(z, n) && n < end && (loUnit < hiUnit ==> n != loUnit)
      ensures forall s | s in Without(l, j) :: s in l && s != m
    {
      hide Linked, DList, Listed, NoDup, InUse, Tiled;
      JoinedTiled(Y(), n, Free(nu));
      JoinListed(Y(), lists, Elements(l), n, Free(nu));
      NoDupWithout(l, j);
      InUseJoined(tiles, n, m, nu);
      BlockPlace(n);
    }

    lemma BlockPlace(n: nat)
      requires Tiled(Y()) && n in tiles
      ensures n < end && (loUnit < hiUnit ==> n != loUnit)
    {
      assert Fits(Y(), n);
      if loUnit < hiUnit {
        GapNoBlock();
      }
    }

    lemma MergeLinks(n: nat, m: nat, nu: nat, l: seq<nat>, j: nat)
      requires Mergeable(n, m, nu, l, j)
      ensures m < prev.Length && m < next.Length
      ensures var p, x := prev[m], next[m];
              && p <= end && x <= end && (IsFree(Y(), p) || p == end) && (IsFree(Y(), x) || x == end)
              && DList(next[..][p := x], prev[..][x := p], Ring(end, Without(l, j)))
    {
      hide Linked, Listed;
      assert forall s | s in l :: IsFree(Y(), s);
      EndNotIn(l);
      TakeOut(next[..], prev[..], l, end, j);
      var d := Ring(end, l);
      assert Pair(next[..], prev[..], d, j) && Pair(next[..], prev[..], d, j + 1);
      assert d[j + 1] == m;
    }

    lemma EndNotIn(l: seq<nat>)
      requires Sound(Elements(l))
      ensures end !in l
    {
      forall s | s in l
        ensures s < end
      {
        BlocksBelowEnd(Elements(l), s);
      }
    }

    method Relink(n: nat, m: nat, ghost nu: nat, ghost l: seq<nat>, ghost j: nat)
      requires Mergeable(n, m, nu, l, j)
      modifies next, prev
      ensures DList(next[..], prev[..], Ring(end, Without(l, j)))
      ensures Kept(old(next[..]), next[..], Y()) && Kept(old(prev[..]), prev[..], Y())
    {
      hide Tiled, Linked, Listed, Kept, DList, NoDup, Stamped;
      MergeLinks(n, m, nu, l, j);
      var p, x := prev[m], next[m];
      KeptOne(next[..], Y(), p, x);
      KeptOne(prev[..], Y(), x, p);
      next[p] := x;
      prev[x] := p;
      assert next[..] == old(next[..])[p := x] && prev[..] == old(prev[..])[x := p];
    }

    /** The block at j of the ring, which comes after n, is taken out and becomes a part of n. */
    method Merge(n: nat, m: nat, nu: nat, ghost l: seq<nat>, ghost j: nat)
      requires Mergeable(n, m, nu, l, j)
      modifies first, next, prev, `tiles
      ensures Gluing(Without(l, j)) && InUse(tiles) == InUse(old(tiles)) && Undisturbed()
      ensures FreeOf(Y(), n, nu) && n in old(tiles) && Y() == Joined(old(Y()), n, Free(nu))
    {
      hide Tiled, Linked, Listed, Kept, DList, NoDup, Stamped, InUse;
      MergeBlocks(n, m, nu, l, j);
      Relink(n, m, nu, l, j);
      ghost var y, f, l' := Y(), first[..], Without(l, j);
      tiles := (tiles - {m})[n := Free(nu)];
      assert Y() == Joined(y, n, Free(nu));
      KeptAs(old(next[..]), next[..], y, Y());
      KeptAs(old(prev[..]), prev[..], y, Y());
      StampedAs(f, y, Y());
      NoneListed(n);
      KeptOne(f, Y(), n, 0x10000 * nu);
      SetFirst(n, 0x10000 * nu, Elements(l'));
      StampsKept(f, first[..], Y());
    }

    /** Block n takes in the free blocks after it, as far as its size allows. */
    method GlueBlock(n: nat, ghost l: seq<nat>, ghost pos: nat) returns (ghost l': seq<nat>, ghost pos': nat)
      requires Gluing(l) && pos < |l| && l[pos] == n
      modifies first, next, prev, `tiles
      ensures Gluing(l') && pos' < |l'| && l'[pos'] == n && |l'| - pos' <= |l| - pos
      ensures InUse(tiles) == InUse(old(tiles)) && Undisturbed()
      ensures Final(tiles, n) && (forall s | s != n && Final(old(tiles), s) :: Final(tiles, s))
      ensures forall s | s in l'[..pos'] :: s in l[..pos]
    {
      hide Gluing, Kept, InUse, Final;
      l', pos' := l, pos;
      GluingMemory(l);
      ghost var j := After(l, n);
      var nu: nat := Size(first[n]);
      KeptSame(first[..], Y());
      KeptSame(next[..], Y());
      KeptSame(prev[..], Y());
      while true
        invariant Gluing(l') && Memory() && pos' < |l'| && l'[pos'] == n && |l'| - pos' <= |l| - pos
        invariant FreeOf(Y(), n, nu) && InUse(tiles) == InUse(old(tiles)) && Undisturbed()
        invariant forall s | s != n && Final(old(tiles), s) :: Final(tiles, s)
        invariant forall s | s in l'[..pos'] :: s in l[..pos]
        decreases |l'|
      {
        j := After(l', n);
        var node2 := n + nu;
        nu := nu + Size(first[node2]);
        if Stamp(first[node2]) != 0 || nu >= 0x10000 {
          StopsFinal(l', n);
          break;
        }
        ghost var f, x, p, y := first[..], next[..], prev[..], Y();
        MayMerge(n, node2, nu, l', j);
        MergeFinal(l', n, nu);
        Merge(n, node2, nu, l', j);
        KeptThen(old(first[..]), f, first[..], y, Y());
        KeptThen(old(next[..]), x, next[..], y, Y());
        KeptThen(old(prev[..]), p, prev[..], y, Y());
        BeforePos(l', j, pos');
        l', pos' := Without(l', j), if j < pos' then pos' - 1 else pos';
      }
    }

    lemma StopsFinal(l: seq<nat>, n: nat)
      requires Gluing(l) && n in l && n in tiles && n + tiles[n].len < first.Length
      requires Stamp(first[n + tiles[n].len]) != 0 || tiles[n].len + Size(first[n + tiles[n].len]) >= 0x10000
      ensures Final(tiles, n)
    {
      hide Linked, DList, NoDup, Tiled;
      var m := n + tiles[n].len;
      if IsFree(Y(), m) {
        AllGathered(l, m);
      }
    }

    lemma MergeFinal(l: seq<nat>, n: nat, nu: nat)
      requires Gluing(l) && IsFree(Y(), n) && IsFree(Y(), n + tiles[n].len) && nu == tiles[n].len + tiles[n + tiles[n].len].len
      ensures forall s | s != n && Final(tiles, s) :: Final(Joined(Y(), n, Free(nu)).tiles, s)
    {
      hide Linked, DList, NoDup, Tiled, Final, Listed;
      forall s | s != n && Final(tiles, s)
        ensures Final(Joined(Y(), n, Free(nu)).tiles, s)
      {
        FinalJoined(Y(), n, nu, s);
      }
    }

    lemma BeforePos(l: seq<nat>, j: nat, pos: nat)
      requires j < |l| && pos < |l| && j != pos
      ensures var pos' := if j < pos then pos - 1 else pos; forall s | s in Without(l, j)[..pos'] :: s in l[..pos]
    {
      var pos' := if j < pos then pos - 1 else pos;
      var w := Without(l, j)[..pos'];
      forall k | 0 <= k < |w|
        ensures w[k] in l[..pos]
      {
        assert w[k] == l[..pos][if k < j then k else k + 1];
      }
    }

    lemma GluingMemory(l: seq<nat>)
      requires Gluing(l)
      ensures Memory() && forall s | s in l :: IsFree(Y(), s)
    {
    }

    lemma MayMerge(n: nat, m: nat, nu: nat, l: seq<nat>, j: nat)
      requires Gluing(l) && n in l && j < |l| && l[j] == m && m != n && IsFree(Y(), n) && IsFree(Y(), m)
      requires m == n + tiles[n].len && nu == tiles[n].len + tiles[m].len < 0x10000
      ensures Mergeable(n, m, nu, l, j)
    {
    }

    /** Every block of the ring takes in what comes after it. */
    method GlueAll(n0: nat, ghost l: seq<nat>) returns (ghost l': seq<nat>)
      requires Gluing(l) && n0 == (l + [end])[0]
      modifies first, next, prev, `tiles
      ensures Gluing(l') && InUse(tiles) == InUse(old(tiles)) && Undisturbed() && Coalesced(tiles)
    {
      hide Gluing, Kept, InUse, Final, Coalesced;
      l' := l;
      var n := n0;
      ghost var pos: nat := 0;
      GluingMemory(l);
      KeptSame(first[..], Y());
      KeptSame(next[..], Y());
      KeptSame(prev[..], Y());
      while n != end
        invariant Gluing(l') && Memory() && pos <= |l'| && n == (l' + [end])[pos]
        invariant InUse(tiles) == InUse(old(tiles)) && Undisturbed()
        invariant forall s | s in l'[..pos] :: Final(tiles, s)
        decreases |l'| - pos
      {
        ghost var f, x, p, y := first[..], next[..], prev[..], Y();
        ghost var before := l'[..pos];
        NotBefore(l', pos);
        l', pos := GlueBlock(n, l', pos);
        KeptThen(old(first[..]), f, first[..], y, Y());
        KeptThen(old(next[..]), x, next[..], y, Y());
        KeptThen(old(prev[..]), p, prev[..], y, Y());
        GluingNext(l', pos);
        n := next[n];
        assert l'[..pos + 1] == l'[..pos] + [l'[pos]];
        pos := pos + 1;
      }
      AllFinal(l', pos);
    }

    lemma NotBefore(l: seq<nat>, pos: nat)
      requires Gluing(l) && pos < |l|
      ensures l[pos] !in l[..pos]
    {
      hide Linked, Listed, DList, Tiled;
    }

    lemma AllFinal(l: seq<nat>, pos: nat)
      requires Gluing(l) && pos <= |l| && (l + [end])[pos] == end && forall s | s in l[..pos] :: Final(tiles, s)
      ensures Coalesced(tiles)
    {
      hide Linked, Listed, DList, Tiled;
      GluingEnd(l);
      assert l[..|l|] == l;
      forall s: nat
        ensures Final(tiles, s)
      {
        if IsFree(Y(), s) {
          AllGathered(l, s);
        }
      }
    }

    lemma GluingEnd(l: seq<nat>)
      requires Gluing(l)
      ensures end !in l && NoDup(l) && forall s: nat :: s in l <==> s in tiles && tiles[s].Free?
    {
      hide Linked, Listed, DList, Tiled, NoDup;
      EndNotIn(l);
      forall s: nat
        ensures s in l <==> s in tiles && tiles[s].Free?
      {
        if IsFree(Y(), s) {
          AllGathered(l, s);
        }
      }
    }

    lemma GluingNext(l: seq<nat>, pos: nat)
      requires Gluing(l) && pos <= |l|
      ensures Memory() && (pos < |l| ==> l[pos] < next.Length && next[l[pos]] == (l + [end])[pos + 1])
      ensures pos == 0 ==> next[end] == (l + [end])[0]
    {
      hide Tiled, Listed, Linked, DList;
      RingNext(next[..], prev[..], l, end, pos);
    }

    // ----- Gluing: the lists are filled again ----------------------------------------------------------------------

    method FilePiece(s: nat, nu: nat, ghost loose: set<nat>)
      requires Sound(loose) && s in loose && FreeOf(Y(), s, nu) && nu > 128
      modifies first, freeList, `lists, `tiles
      ensures Sound(loose - {s} + {s + 128}) && InUse(tiles) == InUse(old(tiles)) && Kept(old(first[..]), first[..], Y())
      ensures Others({s}) && s + 128 !in old(tiles) && FreeOf(Y(), s + 128, nu - 128)
      ensures tiles == old(tiles)[s := Free(128)][s + 128 := Free(nu - 128)]
    {
      hide Tiled, Linked, Listed, Kept, InUse, Pushed;
      CutLoose(s, 128, nu - 128, loose);
      ghost var before := first[..];
      InsertNode(s, NUM_INDEXES - 1, loose + {s + 128});
      assert loose + {s + 128} - {s} == loose - {s} + {s + 128};
      KeptSame(before, Y());
      KeptWrite(before, before, Y(), s, first[s]);
    }

    /** A block of any size goes to the lists, in parts. */
    method FileBlock(n: nat, nu0: nat, ghost loose: set<nat>)
      requires Sound(loose) && n in loose && FreeOf(Y(), n, nu0) && 1 <= nu0
      modifies first, freeList, `lists, `tiles
      ensures Sound(loose - {n}) && InUse(tiles) == InUse(old(tiles)) && Kept(old(first[..]), first[..], Y()) && Others({n})
      ensures tiles == old(tiles) + Pieces(n, nu0)
    {
      hide Tiled, Linked, Listed, Kept, InUse, Sound, Pieces, LastPieces;
      var node: nat, nu: nat := n, nu0;
      ghost var rest := loose - {n};
      assert rest + {n} == loose && n !in rest;
      KeptSame(first[..], Y());
      RestInTiles(loose);
      while nu > 128
        invariant node !in rest && Sound(rest + {node}) && FreeOf(Y(), node, nu) && 1 <= nu
        invariant node == n || node !in old(tiles)
        invariant tiles + Pieces(node, nu) == old(tiles) + Pieces(n, nu0)
        invariant InUse(tiles) == InUse(old(tiles)) && Kept(old(first[..]), first[..], Y()) && Others({n})
        decreases nu
      {
        ghost var f, y := first[..], Y();
        PiecesStep(tiles, node, nu);
        FilePiece(node, nu, rest + {node});
        KeptThen(old(first[..]), f, first[..], y, Y());
        assert rest + {node} - {node} + {node + 128} == rest + {node + 128};
        nu := nu - 128;
        node := node + 128;
      }
      ghost var f, y := first[..], Y();
      LastOfPieces(node, nu);
      FileRest(node, nu, rest + {node});
      KeptThen(old(first[..]), f, first[..], y, Y());
      assert rest + {node} - {node} == rest;
    }

    lemma LastOfPieces(s: nat, nu: nat)
      requires 1 <= nu <= 128
      ensures Pieces(s, nu) == LastPieces(s, nu)
    {
    }

    lemma RestInTiles(loose: set<nat>)
      requires Sound(loose)
      ensures forall s | s in loose :: s in tiles
    {
      LooseBlocks(loose);
    }

    /** Blocks r are still to be filed. */
    ghost predicate Filling(r: seq<nat>, n: nat)
      reads this, first, next, freeList
    {
      && Sound(Elements(r)) && Sized(r) && NoDup(r) && n == (r + [end])[0]
      && forall k | 0 <= k < |r| :: r[k] < next.Length && next[r[k]] == (r + [end])[k + 1]
    }

    lemma FillingStarts(l: seq<nat>)
      requires Gluing(l)
      ensures Memory() && Filling(l, next[end])
    {
      hide Tiled, Listed, Linked, DList, NoDup;
      GluingNext(l, 0);
      forall k: nat | k < |l|
        ensures l[k] < next.Length && next[l[k]] == (l + [end])[k + 1]
      {
        GluingNext(l, k);
      }
    }

    lemma FillingNext(r: seq<nat>, n: nat)
      requires Filling(r, n) && r != []
      ensures n == r[0] && n in Elements(r) && Elements(r) - {n} == Elements(r[1..]) && NoDup(r[1..])
      ensures forall s | s in r[1..] :: s in tiles && s != n && s < first.Length
    {
      hide Tiled, Listed, Linked;
      NoDupTail(r);
      TailElements(r);
      assert forall s | s in r :: IsFree(Y(), s);
    }

    lemma FillingLinks(r: seq<nat>, n: nat)
      requires Filling(r, n) && r != []
      ensures n < next.Length && next[n] == (r[1..] + [end])[0]
      ensures forall k | 0 <= k < |r[1..]| :: r[1..][k] < next.Length && next[r[1..][k]] == (r[1..] + [end])[k + 1]
    {
      hide Tiled, Listed, Linked, NoDup, Sized;
      assert forall k | 0 <= k < |r[1..]| :: r[1..][k] == r[k + 1];
      assert r[1..] + [end] == (r + [end])[1..];
    }

    method FillOne(n: nat, ghost r: seq<nat>) returns (n': nat)
      requires Filling(r, n) && r != []
      modifies first, freeList, `lists, `tiles
      ensures Filling(r[1..], n') && InUse(tiles) == InUse(old(tiles)) && Kept(old(first[..]), first[..], Y())
      ensures n == r[0] && n in old(tiles) && old(tiles)[n].len >= 1 && tiles == old(tiles) + Pieces(n, old(tiles)[n].len)
      ensures forall u | u in old(tiles) && u != n :: u in tiles && tiles[u] == old(tiles)[u]
    {
      hide Tiled, Listed, Linked, Kept, InUse, NoDup, Pieces;
      BlockHasSize(r, n);
      FillingNext(r, n);
      FillingLinks(r, n);
      n' := next[n];
      FileBlock(n, Size(first[n]), Elements(r));
    }

    lemma BlockHasSize(r: seq<nat>, n: nat)
      requires Filling(r, n) && r != []
      ensures n < first.Length && FreeOf(Y(), n, Size(first[n])) && Size(first[n]) >= 1 && n < next.Length
    {
      assert r[0] in r && IsFree(Y(), r[0]) && Fits(Y(), r[0]);
    }

    /** Blocks r are what is left of l to be filed; the others have been cut up. */
    ghost predicate CutSoFar(m: map<nat, Tile>, l: seq<nat>, r: seq<nat>)
      reads this
    {
      && |r| <= |l| && r == l[|l| - |r|..] && (forall s | s in l :: s in m && m[s].len >= 1)
      && (forall s | s in r :: s in tiles && tiles[s] == m[s]) && tiles == m + AllPieces(m, l[..|l| - |r|])
    }

    lemma CutSoFarNext(m: map<nat, Tile>, l: seq<nat>, r: seq<nat>, before: map<nat, Tile>)
      requires r != [] && |r| <= |l| && r == l[|l| - |r|..] && NoDup(r) && (forall s | s in l :: s in m && m[s].len >= 1)
      requires (forall s | s in r :: s in before && before[s] == m[s]) && before == m + AllPieces(m, l[..|l| - |r|])
      requires tiles == before + Pieces(r[0], m[r[0]].len)
      requires forall u | u in before && u != r[0] :: u in tiles && tiles[u] == before[u]
      ensures CutSoFar(m, l, r[1..])
    {
      hide Pieces, AllPieces, NoDup;
      NoDupTail(r);
      var k := |l| - |r|;
      assert r[0] == l[k] && r[1..] == l[k + 1..];
      PiecesOn(m, l, k);
    }

    lemma PiecesOn(m: map<nat, Tile>, l: seq<nat>, k: nat)
      requires k < |l| && forall s | s in l :: s in m && m[s].len >= 1
      ensures m + AllPieces(m, l[..k]) + Pieces(l[k], m[l[k]].len) == m + AllPieces(m, l[..k + 1])
    {
      hide Pieces;
      var done := l[..k + 1];
      assert done[..|done| - 1] == l[..k] && done[|done| - 1] == l[k];
      assert AllPieces(m, done) == AllPieces(m, l[..k]) + Pieces(l[k], m[l[k]].len);
    }

    lemma CutSoFarStarts(l: seq<nat>)
      requires Gluing(l)
      ensures CutSoFar(tiles, l, l)
    {
      hide Linked, Listed, DList, NoDup;
      assert l[..0] == [] && tiles + map[] == tiles;
      forall s | s in l
        ensures s in tiles && tiles[s].len >= 1
      {
        assert IsFree(Y(), s) && Fits(Y(), s);
      }
    }

    method FillAll(ghost l: seq<nat>)
      requires Gluing(l)
      modifies first, freeList, `lists, `tiles
      ensures Valid() && InUse(tiles) == InUse(old(tiles)) && Kept(old(first[..]), first[..], Y())
      ensures (forall s | s in l :: s in old(tiles) && old(tiles)[s].len >= 1) && tiles == old(tiles) + AllPieces(old(tiles), l)
    {
      hide Filling, Gluing, Kept, InUse, Tiled, Listed, Linked, CutSoFar, Pieces;
      ghost var r := l;
      FillingStarts(l);
      CutSoFarStarts(l);
      KeptSame(first[..], Y());
      var n := next[end];
      while n != end
        invariant Filling(r, n) && InUse(tiles) == InUse(old(tiles)) && Kept(old(first[..]), first[..], Y())
        invariant CutSoFar(old(tiles), l, r)
        decreases |r|
      {
        ghost var f, y := first[..], Y();
        FillingMore(r, n);
        FilledSoFar(old(tiles), l, r, n);
        n := FillOne(n, r);
        KeptThen(old(first[..]), f, first[..], y, Y());
        CutSoFarNext(old(tiles), l, r, y.tiles);
        r := r[1..];
      }
      FillingDone(r);
      CutSoFarDone(old(tiles), l, r);
    }

    lemma FilledSoFar(m: map<nat, Tile>, l: seq<nat>, r: seq<nat>, n: nat)
      requires Filling(r, n) && r != [] && CutSoFar(m, l, r)
      ensures |r| <= |l| && r == l[|l| - |r|..] && NoDup(r) && (forall s | s in l :: s in m && m[s].len >= 1)
      ensures (forall s | s in r :: s in tiles && tiles[s] == m[s]) && tiles == m + AllPieces(m, l[..|l| - |r|])
    {
    }

    lemma CutSoFarDone(m: map<nat, Tile>, l: seq<nat>, r: seq<nat>)
      requires CutSoFar(m, l, r) && r == []
      ensures (forall s | s in l :: s in m && m[s].len >= 1) && tiles == m + AllPieces(m, l)
    {
      assert l[..|l|] == l;
    }

    lemma FillingMore(r: seq<nat>, n: nat)
      requires Filling(r, n) && n != end
      ensures r != []
    {
    }

    lemma FillingDone(r: seq<nat>)
      requires Filling(r, end)
      ensures Valid() && r == []
    {
      EndNotIn(r);
      assert |r| > 0 ==> end in r;
      assert Elements([]) == {};
    }

    /** GlueFreeBlocks. Free blocks that follow one another become one, as far as sizes below 2^16 go; these are cut up
        again for the lists. */
    method GlueFreeBlocks() returns (ghost merged: map<nat, Tile>, ghost l: seq<nat>)
      requires Valid() && Stamped(first[..], Y())
      modifies first, next, prev, freeList, `lists, `tiles, `glueCount
      ensures Valid() && InUse(tiles) == InUse(old(tiles)) && Undisturbed() && glueCount == 255
      ensures Tiled(Y().(tiles := merged)) && InUse(merged) == InUse(tiles) && Coalesced(merged) && Recut(merged, l, tiles)
    {
      hide Tiled, Listed, Linked, Kept, InUse, Gathered, Gluing, Stamped, Coalesced;
      glueCount := 255;
      var n;
      n, l := GatherAll();
      ghost var f1, x1, p1, y := first[..], next[..], prev[..], Y();
      StampsKept(old(first[..]), f1, Y());
      CloseRing(n, l);
      ghost var f2, x2, p2 := first[..], next[..], prev[..];
      KeptThen(old(first[..]), f1, f2, y, Y());
      KeptThen(old(next[..]), x1, x2, y, Y());
      KeptThen(old(prev[..]), p1, p2, y, Y());
      l := GlueAll(n, l);
      ghost var f3, y3 := first[..], Y();
      KeptThen(old(first[..]), f2, f3, y, Y());
      KeptThen(old(next[..]), x2, next[..], y, Y());
      KeptThen(old(prev[..]), p2, prev[..], y, Y());
      ghost var x3, p3 := next[..], prev[..];
      merged := tiles;
      GluingEnd(l);
      GluingTiled(l);
      FillAll(l);
      assert next[..] == x3 && prev[..] == p3;
      KeptThen(old(first[..]), f3, first[..], y3, Y());
      KeptAs(old(next[..]), x3, y3, Y());
      KeptAs(old(prev[..]), p3, y3, Y());
    }

    lemma GluingTiled(l: seq<nat>)
      requires Gluing(l)
      ensures Tiled(Y())
    {
      hide Tiled, Listed, Linked, DList, NoDup;
    }

    // ----- Allocation ------------------------------------------------------------------------------------------------

    /** A new block of a size is in use; what was in use still is, and holds what it held. */
    twostate predicate Allocated(ok: bool, ptr: nat, indx: nat)
      reads this, first, next, prev, freeList
    {
      && Valid() && Kept(old(first[..]), first[..], old(Y())) && Kept(old(next[..]), next[..], old(Y())) && Kept(old(prev[..]), prev[..], old(Y()))
      && if ok then ptr !in InUse(old(tiles)) && InUse(tiles) == InUse(old(tiles))[ptr := I2U(indx)]
         else InUse(tiles) == InUse(old(tiles))
    }

    // ----- Where a block comes from ----------------------------------------------------------------------------------

    /** Room from below the units area, when there is enough; it is taken from its end. */
    twostate predicate FromBelow(ok: bool, ptr: nat, indx: nat)
      reads this
    {
      && ok == (UNIT_SIZE * old(unitsStart) - text > UNIT_SIZE * I2U(indx))
      && unitsStart == old(unitsStart) - (if ok then I2U(indx) else 0) && (ok ==> ptr == unitsStart)
    }

    /** The first block of the shortest length that was to be had. */
    twostate predicate FromLarger(ptr: nat, indx: nat)
      reads this, freeList
    {
      exists i: nat | indx < i < NUM_INDEXES ::
        && NoneWithin(old(freeList[..]), indx + 1, i) && i < freeList.Length && old(freeList[..])[i] != 0
        && FreeOf(old(Y()), ptr, I2U(i))
    }

    /** All lists of longer blocks are empty, after gluing also that of the length itself: then comes room from below. */
    twostate predicate LastResort(ok: bool)
      reads this
    {
      !ok || unitsStart != old(unitsStart)
    }

    /** What AllocUnitsRare does with lists, room and counter. */
    twostate predicate Rarely(ok: bool, ptr: nat, indx: nat)
      reads this, freeList
    {
      && glueCount == (if old(glueCount) == 0 then 255 else old(glueCount)) - (if LastResort(ok) then 1 else 0)
      && (LastResort(ok) ==>
            && FromBelow(ok, ptr, indx)
            && NoneWithin(freeList[..], if old(glueCount) == 0 then indx else indx + 1, NUM_INDEXES))
      && (old(glueCount) != 0 ==>
            && (LastResort(ok) <==> NoneWithin(old(freeList[..]), indx + 1, NUM_INDEXES))
            && (if LastResort(ok) then freeList[..] == old(freeList[..]) else FromLarger(ptr, indx)))
    }

    /** There is no memory: no free block is long enough, and there is not enough room below. */
    ghost predicate NoMemory(indx: nat)
      reads this, freeList
    {
      && NoneWithin(freeList[..], indx, NUM_INDEXES)
      && (forall s | s in tiles && tiles[s].Free? :: tiles[s].len < I2U(indx))
      && UNIT_SIZE * unitsStart - text <= UNIT_SIZE * I2U(indx)
    }

    lemma NoneLong(indx: nat)
      requires Valid() && indx < NUM_INDEXES && NoneWithin(freeList[..], indx, NUM_INDEXES)
      ensures forall s | s in tiles && tiles[s].Free? :: tiles[s].len < I2U(indx)
    {
      hide Tiled, Linked;
      forall s | s in tiles && tiles[s].Free?
        ensures tiles[s].len < I2U(indx)
      {
        var n := tiles[s].len;
        assert IsFree(Y(), s);
        assert Filed(lists, s, n);
        EmptyHead(first[..], freeList[..], lists, U2I(n));
      }
    }

    /** RemoveNode, when the list is not empty. */
    method TakeNode(indx: nat) returns (node: nat)
      requires Valid() && indx < NUM_INDEXES && freeList[indx] != 0
      modifies freeList, `lists, `tiles
      ensures node !in InUse(old(tiles)) && InUse(tiles) == InUse(old(tiles))[node := I2U(indx)]
      ensures Valid() && FreeOf(old(Y()), node, I2U(indx)) && tiles == old(tiles)[node := Used(I2U(indx))]
    {
      hide Tiled, Linked, Listed;
      EmptyHead(first[..], freeList[..], lists, indx);
      assert freeList[..][indx] == freeList[indx];
      ghost var m := tiles;
      node := RemoveNode(indx, {});
      InUseMarked(m, node, Used(I2U(indx)));
    }

    /** A larger block, cut down; or room from below the units area; or nothing. */
    method TakeLarger(indx: nat) returns (ok: bool, ptr: nat)
      requires Valid() && indx < NUM_INDEXES && glueCount > 0 && text <= UNIT_SIZE * unitsStart
      modifies first, freeList, `lists, `tiles, `unitsStart, `glueCount
      ensures Allocated(ok, ptr, indx) && text <= UNIT_SIZE * unitsStart
      ensures LastResort(ok) <==> NoneWithin(old(freeList[..]), indx + 1, NUM_INDEXES)
      ensures glueCount == old(glueCount) - if LastResort(ok) then 1 else 0
      ensures if LastResort(ok) then FromBelow(ok, ptr, indx) && freeList[..] == old(freeList[..]) else FromLarger(ptr, indx)
    {
      hide Tiled, Linked, Listed, Kept, InUse, I2U, U2I;
      ptr := 0;
      var i := indx;
      while true
        invariant indx <= i < NUM_INDEXES && NoneWithin(freeList[..], indx + 1, i + 1)
        decreases NUM_INDEXES - i
      {
        i := i + 1;
        if i == NUM_INDEXES {
          glueCount := glueCount - 1;
          ok, ptr := GrowArea(I2U(indx));
          Unmoved(old(Y()));
          return;
        }
        if freeList[i] != 0 {
          break;
        }
      }
      ok := true;
      ptr := TakeCut(i, indx);
    }

    lemma Unmoved(y: Layout)
      ensures Kept(first[..], first[..], y) && Kept(next[..], next[..], y) && Kept(prev[..], prev[..], y)
    {
    }

    method GrowArea(nu: nat) returns (ok: bool, ptr: nat)
      requires Valid() && 1 <= nu && text <= UNIT_SIZE * unitsStart
      modifies `tiles, `unitsStart
      ensures Valid() && Kept(first[..], first[..], old(Y())) && Kept(next[..], next[..], old(Y())) && Kept(prev[..], prev[..], old(Y()))
      ensures if ok then ptr !in InUse(old(tiles)) && InUse(tiles) == InUse(old(tiles))[ptr := nu] else InUse(tiles) == InUse(old(tiles))
      ensures text <= UNIT_SIZE * unitsStart
      ensures ok == (UNIT_SIZE * old(unitsStart) - text > UNIT_SIZE * nu)
      ensures unitsStart == old(unitsStart) - (if ok then nu else 0) && (ok ==> ptr == unitsStart)
    {
      hide Linked, Listed;
      ok, ptr := UNIT_SIZE * unitsStart - text > UNIT_SIZE * nu, 0;
      if ok {
        ghost var y := Y();
        GrownTiled(Y(), nu);
        unitsStart := unitsStart - nu;
        ptr := unitsStart;
        InUseMarked(tiles, ptr, Used(nu));
        tiles := tiles[ptr := Used(nu)];
        NewListed(y, Y(), lists, {}, ptr, nu);
      }
    }

    method TakeCut(i: nat, indx: nat) returns (ptr: nat)
      requires Valid() && indx < i < NUM_INDEXES && freeList[i] != 0
      modifies first, freeList, `lists, `tiles
      ensures Allocated(true, ptr, indx) && FreeOf(old(Y()), ptr, I2U(i))
    {
      hide Tiled, Linked, Listed, Kept, InUse, I2U, U2I;
      ptr := TakeNode(i);
      ghost var f := first[..];
      assert f == old(first[..]);
      SplitBlock(ptr, i, indx);
      KeptLess(f, first[..], old(Y()), Y());
      Unmoved(old(Y()));
    }

    /** The start of AllocUnitsRare: from time to time, free blocks are glued together. */
    method GlueSometimes() returns (glued: bool)
      requires Valid() && Stamped(first[..], Y())
      modifies first, next, prev, freeList, `lists, `tiles, `glueCount
      ensures Valid() && InUse(tiles) == InUse(old(tiles)) && glued == (old(glueCount) == 0)
      ensures glueCount == (if glued then 255 else old(glueCount)) && (!glued ==> freeList[..] == old(freeList[..]) && Y() == old(Y()))
      ensures Kept(old(first[..]), first[..], old(Y())) && Kept(old(next[..]), next[..], old(Y())) && Kept(old(prev[..]), prev[..], old(Y()))
    {
      hide Tiled, Linked, Listed, Kept, InUse, Stamped;
      ghost var y := Y();
      glued := glueCount == 0;
      if glued {
        ghost var merged, l := GlueFreeBlocks();
        KeptAs(old(first[..]), first[..], Y(), y);
        KeptAs(old(next[..]), next[..], Y(), y);
        KeptAs(old(prev[..]), prev[..], Y(), y);
      } else {
        Unmoved(y);
      }
    }

    /** AllocUnitsRare. */
    method AllocUnitsRare(indx: nat) returns (ok: bool, ptr: nat)
      requires Valid() && Stamped(first[..], Y()) && indx < NUM_INDEXES && text <= UNIT_SIZE * unitsStart
      modifies first, next, prev, freeList, `lists, `tiles, `unitsStart, `glueCount
      ensures Allocated(ok, ptr, indx) && text <= UNIT_SIZE * unitsStart
      ensures Rarely(ok, ptr, indx)
    {
      hide Tiled, Linked, Listed, Kept, InUse, I2U, U2I, Stamped;
      var glued := GlueSometimes();
      ghost var f, x, p, y := first[..], next[..], prev[..], Y();
      if glued && freeList[indx] != 0 {
        ok := true;
        ptr := TakeNode(indx);
        assert first[..] == f && next[..] == x && prev[..] == p;
        return;
      }
      ok, ptr := TakeLarger(indx);
      KeptThrough(old(first[..]), f, first[..], old(Y()), y);
      KeptThrough(old(next[..]), x, next[..], old(Y()), y);
      KeptThrough(old(prev[..]), p, prev[..], old(Y()), y);
    }

    /** AllocUnits: from the list, from the gap, or by harder means. */
    method AllocUnits(indx: nat) returns (ok: bool, ptr: nat)
      requires Valid() && Stamped(first[..], Y()) && indx < NUM_INDEXES && text <= UNIT_SIZE * unitsStart
      modifies first, next, prev, freeList, `lists, `tiles, `unitsStart, `loUnit, `glueCount
      ensures Allocated(ok, ptr, indx) && text <= UNIT_SIZE * unitsStart
      ensures if old(freeList[..])[indx] != 0 then
                ok && FreeOf(old(Y()), ptr, I2U(indx)) && unchanged(`unitsStart, `loUnit, `glueCount)
              else if I2U(indx) <= old(hiUnit - loUnit) then
                ok && ptr == old(loUnit) && loUnit == ptr + I2U(indx) && unchanged(`unitsStart, `glueCount)
              else loUnit == old(loUnit) && Rarely(ok, ptr, indx)
      ensures !ok ==> NoMemory(indx) && I2U(indx) > hiUnit - loUnit
    {
      hide Tiled, Linked, Listed, Kept, InUse, U2I, Stamped;
      Unmoved(Y());
      ok := true;
      if freeList[indx] != 0 {
        ptr := TakeNode(indx);
        assert first[..] == old(first[..]) && next[..] == old(next[..]) && prev[..] == old(prev[..]);
      } else if I2U(indx) <= hiUnit - loUnit {
        ptr := TakeGap(I2U(indx));
        assert first[..] == old(first[..]) && next[..] == old(next[..]) && prev[..] == old(prev[..]);
      } else {
        ok, ptr := AllocUnitsRare(indx);
        if !ok {
          NoneLong(indx);
        }
      }
    }

    method TakeGap(nu: nat) returns (ptr: nat)
      requires Valid() && 1 <= nu <= hiUnit - loUnit
      modifies `tiles, `loUnit
      ensures ptr == old(loUnit) && loUnit == ptr + nu
      ensures Valid() && ptr !in InUse(old(tiles)) && InUse(tiles) == InUse(old(tiles))[ptr := nu]
    {
      hide Linked, Listed;
      ghost var y := Y();
      FromGapTiled(Y(), nu);
      ptr := loUnit;
      loUnit := loUnit + nu;
      InUseMarked(tiles, ptr, Used(nu));
      tiles := tiles[ptr := Used(nu)];
      NewListed(y, Y(), lists, {}, ptr, nu);
    }

    /** A unit for a context: from the high end of the gap, from its list, or by harder means. */
    method AllocContext() returns (ok: bool, ptr: nat)
      requires Valid() && Stamped(first[..], Y()) && text <= UNIT_SIZE * unitsStart
      modifies first, next, prev, freeList, `lists, `tiles, `unitsStart, `hiUnit, `glueCount
      ensures Allocated(ok, ptr, 0) && text <= UNIT_SIZE * unitsStart
      ensures if old(hiUnit != loUnit) then
                ok && ptr == hiUnit == old(hiUnit) - 1 && unchanged(`unitsStart, `glueCount)
              else if old(freeList[..])[0] != 0 then
                ok && FreeOf(old(Y()), ptr, 1) && unchanged(`unitsStart, `hiUnit, `glueCount)
              else hiUnit == old(hiUnit) && Rarely(ok, ptr, 0)
      ensures !ok ==> NoMemory(0) && hiUnit == loUnit
    {
      hide Linked, Listed, Kept, InUse, U2I, Stamped;
      Unmoved(Y());
      ok := true;
      if hiUnit != loUnit {
        ptr := TakeTop();
        assert first[..] == old(first[..]) && next[..] == old(next[..]) && prev[..] == old(prev[..]);
      } else if freeList[0] != 0 {
        ptr := TakeNode(0);
        assert first[..] == old(first[..]) && next[..] == old(next[..]) && prev[..] == old(prev[..]);
      } else {
        ok, ptr := AllocUnitsRare(0);
        if !ok {
          NoneLong(0);
        }
      }
    }

    method TakeTop() returns (ptr: nat)
      requires Valid() && loUnit != hiUnit
      modifies `tiles, `hiUnit
      ensures ptr == hiUnit == old(hiUnit) - 1
      ensures Valid() && ptr !in InUse(old(tiles)) && InUse(tiles) == InUse(old(tiles))[ptr := 1]
    {
      hide Linked, Listed;
      ghost var y := Y();
      FromTopTiled(Y());
      hiUnit := hiUnit - 1;
      ptr := hiUnit;
      InUseMarked(tiles, ptr, Used(1));
      tiles := tiles[ptr := Used(1)];
      NewListed(y, Y(), lists, {}, ptr, 1);
    }

    // ----- Giving back -----------------------------------------------------------------------------------------------

    /** A block in use is given back whole. */
    method FreeBlock(ptr: nat, indx: nat)
      requires Valid() && indx < NUM_INDEXES && ptr in tiles && tiles[ptr] == Used(I2U(indx))
      modifies first, freeList, `lists, `tiles
      ensures Valid() && InUse(tiles) == InUse(old(tiles)) - {ptr} && Kept(old(first[..]), first[..], Y())
      ensures tiles == old(tiles)[ptr := Free(I2U(indx))]
    {
      hide Tiled, Linked, Listed, Kept, InUse, I2U, Pushed;
      MarkedTiled(Y(), ptr, Free(I2U(indx)));
      MarkListed(Y(), lists, {}, ptr, Free(I2U(indx)));
      InUseMarked(tiles, ptr, Free(I2U(indx)));
      tiles := tiles[ptr := Free(I2U(indx))];
      assert {} - {ptr} + {ptr} == {ptr};
      ghost var before := first[..];
      InsertNode(ptr, indx, {ptr});
      assert {ptr} - {ptr} == {};
      KeptSame(before, Y());
      KeptWrite(before, before, Y(), ptr, first[ptr]);
    }

    /** MyMem12Cpy, between two blocks in use. */
    method CopyUnits(dst: nat, src: nat, n: nat)
      requires Valid() && dst in tiles && src in tiles && tiles[dst].Used? && tiles[src].Used? && dst != src
      requires n <= tiles[dst].len && n <= tiles[src].len
      modifies first, next, prev
      ensures Valid()
      ensures Copied(old(first[..]), first[..], dst, src, n) && Copied(old(next[..]), next[..], dst, src, n) && Copied(old(prev[..]), prev[..], dst, src, n)
    {
      hide Copied, Tiled, Listed, Linked;
      BlocksApart(dst, src);
      CopiedNone(dst, src);
      for i := 0 to n
        invariant Valid()
        invariant Copied(old(first[..]), first[..], dst, src, i) && Copied(old(next[..]), next[..], dst, src, i) && Copied(old(prev[..]), prev[..], dst, src, i)
      {
        UsedUnlisted(dst, dst + i);
        CopiedOn(old(first[..]), first[..], dst, src, i);
        CopiedOn(old(next[..]), next[..], dst, src, i);
        CopiedOn(old(prev[..]), prev[..], dst, src, i);
        ghost var x, p := next[..], prev[..];
        SetFirst(dst + i, first[src + i], {});
        next[dst + i] := next[src + i];
        prev[dst + i] := prev[src + i];
        assert next[..] == x[dst + i := x[src + i]] && prev[..] == p[dst + i := p[src + i]];
      }
    }

    lemma CopiedNone(dst: nat, src: nat)
      requires Memory() && dst <= end && src <= end
      ensures Copied(first[..], first[..], dst, src, 0) && Copied(next[..], next[..], dst, src, 0) && Copied(prev[..], prev[..], dst, src, 0)
    {
    }

    lemma BlocksApart(a: nat, b: nat)
      requires Valid() && a in tiles && b in tiles && a != b
      ensures a + tiles[a].len <= end && b + tiles[b].len <= end
      ensures a + tiles[a].len <= b || b + tiles[b].len <= a
    {
      assert Fits(Y(), a) && Fits(Y(), b) && Apart(Y(), a, b) && Apart(Y(), b, a);
    }

    lemma UsedUnlisted(s: nat, u: nat)
      requires Valid() && s in tiles && tiles[s].Used? && Inside(Y(), s, u)
      ensures Unlisted(lists, u) && u < first.Length
    {
      hide Linked;
      OnlyInside(Y(), s, u);
      forall i
        ensures !InList(lists, i, u)
      {
        assert InList(lists, i, u) ==> FreeOf(Y(), u, I2U(i));
      }
    }

    /** Contents: the first newNU units are where the result says, and other blocks hold what they held. */
    twostate predicate Moved(src: nat, dst: nat, n: nat)
      reads this, first, next, prev
    {
      && MovedTo(old(first[..]), first[..], old(Y()), src, dst, n)
      && MovedTo(old(next[..]), next[..], old(Y()), src, dst, n) && MovedTo(old(prev[..]), prev[..], old(Y()), src, dst, n)
    }

    /** ShrinkUnits: a smaller block for the first newNU units of a block that was large enough for oldNU. */
    method ShrinkUnits(oldPtr: nat, oldNU: nat, newNU: nat) returns (ptr: nat)
      requires Valid() && 1 <= newNU <= oldNU <= 128 && oldPtr in tiles && tiles[oldPtr] == Used(I2U(U2I(oldNU)))
      modifies first, next, prev, freeList, `lists, `tiles
      ensures Valid() && InUse(tiles) == (InUse(old(tiles)) - {oldPtr})[ptr := I2U(U2I(newNU))]
      ensures ptr == oldPtr || ptr !in InUse(old(tiles))
      ensures ptr == oldPtr <==> U2I(oldNU) == U2I(newNU) || old(freeList[..])[U2I(newNU)] == 0
      ensures Moved(oldPtr, ptr, newNU)
    {
      hide Tiled, Linked, Listed, Kept, I2U, U2I, MovedTo, InUse;
      var i0, i1 := U2I(oldNU), U2I(newNU);
      ShrinkSizes(oldNU, newNU);
      InUseHas(oldPtr, I2U(i1));
      if i0 == i1 {
        ptr := oldPtr;
        NotMoved(oldPtr, newNU);
        return;
      }
      if freeList[i1] != 0 {
        ptr := ShrinkTo(oldPtr, i0, i1, newNU);
      } else {
        ptr := oldPtr;
        ghost var y := Y();
        BlocksApartEnd(oldPtr);
        SplitBlock(oldPtr, i0, i1);
        Unmoved(Y());
        MovesLess(old(first[..]), first[..], y, Y(), oldPtr, I2U(i1), newNU);
        MovesLess(old(next[..]), next[..], y, Y(), oldPtr, I2U(i1), newNU);
        MovesLess(old(prev[..]), prev[..], y, Y(), oldPtr, I2U(i1), newNU);
      }
    }

    /** Into a block from the list, with the old one given back. */
    method ShrinkTo(oldPtr: nat, i0: nat, i1: nat, n: nat) returns (ptr: nat)
      requires Valid() && i1 < i0 < NUM_INDEXES && oldPtr in tiles && tiles[oldPtr] == Used(I2U(i0)) && freeList[i1] != 0
      requires n <= I2U(i1) <= I2U(i0)
      modifies first, next, prev, freeList, `lists, `tiles
      ensures Valid() && InUse(tiles) == (InUse(old(tiles)) - {oldPtr})[ptr := I2U(i1)]
      ensures ptr !in InUse(old(tiles)) && Moved(oldPtr, ptr, n)
    {
      hide Tiled, Linked, Listed, Kept, I2U, U2I, MovedTo, InUse, Copied;
      ghost var y, f, x, p := Y(), first[..], next[..], prev[..];
      ptr := TakeNode(i1);
      assert first[..] == f && next[..] == x && prev[..] == p;
      CopyUnits(ptr, oldPtr, n);
      ghost var f1, x1, p1 := first[..], next[..], prev[..];
      ghost var m := tiles;
      FreeBlock(oldPtr, i0);
      Unmoved(Y());
      assert InUse(y.tiles)[ptr := I2U(i1)] - {oldPtr} == (InUse(y.tiles) - {oldPtr})[ptr := I2U(i1)];
      CopyMoves(f, f1, first[..], y, Y(), oldPtr, ptr, n);
      CopyMoves(x, x1, next[..], y, Y(), oldPtr, ptr, n);
      CopyMoves(p, p1, prev[..], y, Y(), oldPtr, ptr, n);
    }

    lemma ShrinkSizes(oldNU: nat, newNU: nat)
      requires 1 <= newNU <= oldNU <= 128
      ensures U2I(newNU) <= U2I(oldNU) && newNU <= I2U(U2I(newNU)) <= I2U(U2I(oldNU))
    {
      Least(newNU, U2I(oldNU));
      SizesOrdered(U2I(newNU), U2I(oldNU));
    }

    lemma InUseHas(s: nat, n: nat)
      requires s in tiles && tiles[s].Used?
      ensures s in InUse(tiles) && InUse(tiles)[s] == tiles[s].len
      ensures (InUse(tiles) - {s})[s := tiles[s].len] == InUse(tiles)
      ensures (InUse(tiles) - {s})[s := n] == InUse(tiles)[s := n]
    {
    }

    lemma BlocksApartEnd(s: nat)
      requires Valid() && s in tiles
      ensures s + tiles[s].len <= end
    {
      assert Fits(Y(), s);
    }

    lemma NotMoved(s: nat, n: nat)
      requires Valid() && s in tiles && n <= tiles[s].len
      ensures MovedTo(first[..], first[..], Y(), s, s, n) && MovedTo(next[..], next[..], Y(), s, s, n) && MovedTo(prev[..], prev[..], Y(), s, s, n)
    {
      BlocksApartEnd(s);
    }
  }

  lemma MovesLess(before: seq<nat>, after: seq<nat>, y: Layout, z: Layout, src: nat, k: nat, n: nat)
    requires Kept(before, after, z) && src + k <= |before| && src in y.tiles && y.tiles[src].Used? && n <= k <= y.tiles[src].len
    requires InUse(z.tiles) == InUse(y.tiles)[src := k]
    ensures MovedTo(before, after, y, src, src, n)
  {
    KeptMoves(before, after, y, z, src, k);
  }

  // ----- The tables ------------------------------------------------------------------------------------------------

  ghost predicate IndexedTo(units2Indx: seq<nat>, k: nat) {
    k <= |units2Indx| == 128 && forall nu | 1 <= nu <= k :: units2Indx[nu - 1] == U2I(nu)
  }

  /** The entries for the sizes that index i is the smallest for. */
  method FillIndex(units2Indx: array<nat>, i: nat, k0: nat) returns (k: nat)
    requires i < NUM_INDEXES && k0 == (if i == 0 then 0 else I2U(i - 1)) && IndexedTo(units2Indx[..], k0)
    modifies units2Indx
    ensures k == I2U(i) && IndexedTo(units2Indx[..], k)
  {
    hide U2I;
    k := k0;
    var step: nat := Step(i);
    Steps(i);
    while step != 0
      invariant k + step == I2U(i) && k0 <= k && IndexedTo(units2Indx[..], k)
      decreases step
    {
      Units(i, k + 1);
      units2Indx[k] := i;
      k := k + 1;
      step := step - 1;
    }
  }

  /** Ppmd7_Construct: the tables are those sizes. */
  method Construct() returns (units2Indx: array<nat>, indx2Units: array<nat>)
    ensures units2Indx.Length == 128 && indx2Units.Length == NUM_INDEXES
    ensures forall i | 0 <= i < NUM_INDEXES :: indx2Units[i] == I2U(i)
    ensures forall nu | 1 <= nu <= 128 :: units2Indx[nu - 1] == U2I(nu)
  {
    hide U2I;
    units2Indx, indx2Units := new nat[128](i => 0), new nat[NUM_INDEXES](i => 0);
    var k: nat := 0;
    for i := 0 to NUM_INDEXES
      invariant k == (if i == 0 then 0 else I2U(i - 1)) && IndexedTo(units2Indx[..], k)
      invariant forall j | 0 <= j < i :: indx2Units[j] == I2U(j)
    {
      k := FillIndex(units2Indx, i, k);
      indx2Units[i] := k;
    }
  }

  lemma Units(i: nat, nu: nat)
    requires i < NUM_INDEXES && (i == 0 || I2U(i - 1) < nu) && 1 <= nu <= I2U(i)
    ensures U2I(nu) == i
  {
    Least(nu, i);
    var j := U2I(nu);
    if j < i {
      SizesOrdered(j, i - 1);
    }
  }

  function Step(i: nat): nat {
    if i >= 12 then 4 else i / 4 + 1
  }

  lemma Steps(i: nat)
    ensures I2U(i) == (if i == 0 then 0 else I2U(i - 1)) + Step(i)
  {
  }
}
