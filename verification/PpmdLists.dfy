/** The free lists of the PPMd allocator: every free block is in the list for its size, or for a while loose. */
module PpmdLists {
  import opened PpmdLayout

  type Lists = seq<seq<nat>>

  predicate InList(lists: Lists, i: nat, s: nat) {
    i < |lists| && s in lists[i]
  }

  predicate FreeOf(y: Layout, s: nat, n: nat) {
    s in y.tiles && y.tiles[s] == Free(n)
  }

  predicate IsFree(y: Layout, s: nat) {
    s in y.tiles && y.tiles[s].Free?
  }

  /** In the list for its size, which must be one of the sizes. */
  predicate Filed(lists: Lists, s: nat, n: nat) {
    1 <= n <= 128 && I2U(U2I(n)) == n && InList(lists, U2I(n), s)
  }

  predicate NoDup(l: seq<nat>) {
    forall j, k | 0 <= j < k < |l| :: l[j] != l[k]
  }

  /** The lists hold each free block once, except the loose ones, and nothing else. */
  ghost predicate Listed(y: Layout, lists: Lists, loose: set<nat>) {
    && |lists| == NUM_INDEXES
    && (forall i, s {:trigger InList(lists, i, s)} | InList(lists, i, s) :: FreeOf(y, s, I2U(i)) && s !in loose)
    && (forall i | 0 <= i < |lists| :: NoDup(lists[i]))
    && (forall s | s in loose :: IsFree(y, s))
    && (forall s {:trigger IsFree(y, s)} | IsFree(y, s) && s !in loose :: Filed(lists, s, y.tiles[s].len))
  }

  /** Only loose blocks have changed. */
  ghost predicate Stays(y: Layout, y': Layout, loose: set<nat>, loose': set<nat>) {
    && (forall s | s in loose' :: IsFree(y', s))
    && (forall s {:trigger IsFree(y, s)} | IsFree(y, s) && s !in loose :: s in y'.tiles && y'.tiles[s] == y.tiles[s] && s !in loose')
    && (forall s {:trigger IsFree(y', s)} | IsFree(y', s) && s !in loose' :: s in y.tiles && y.tiles[s] == y'.tiles[s] && s !in loose)
  }

  lemma ListedStays(y: Layout, y': Layout, lists: Lists, loose: set<nat>, loose': set<nat>)
    requires Listed(y, lists, loose) && Stays(y, y', loose, loose')
    ensures Listed(y', lists, loose')
  {
    forall i, s | InList(lists, i, s)
      ensures FreeOf(y', s, I2U(i)) && s !in loose'
    {
      assert FreeOf(y, s, I2U(i)) && IsFree(y, s);
    }
    forall s | IsFree(y', s) && s !in loose'
      ensures Filed(lists, s, y'.tiles[s].len)
    {
      assert IsFree(y, s);
    }
  }

  function Pushed(lists: Lists, i: nat, s: nat): Lists
    requires i < |lists|
  {
    lists[i := [s] + lists[i]]
  }

  lemma PushListed(y: Layout, lists: Lists, loose: set<nat>, i: nat, s: nat)
    requires Listed(y, lists, loose) && i < NUM_INDEXES && s in loose && FreeOf(y, s, I2U(i))
    ensures Listed(y, Pushed(lists, i, s), loose - {s})
  {
    var lists' := Pushed(lists, i, s);
    forall j, r | InList(lists', j, r)
      ensures FreeOf(y, r, I2U(j)) && r !in loose - {s}
    {
      if !(j == i && r == s) {
        assert InList(lists, j, r);
      }
    }
    assert !InList(lists, i, s);
    assert NoDup(lists[i]);
    forall r | IsFree(y, r) && r !in loose - {s}
      ensures Filed(lists', r, y.tiles[r].len)
    {
      if r == s {
        OneSize(i);
      } else {
        assert Filed(lists, r, y.tiles[r].len);
      }
    }
  }

  lemma OneSize(i: nat)
    requires i < NUM_INDEXES
    ensures U2I(I2U(i)) == i
  {
    var j := U2I(I2U(i));
    if j < i {
      SizesGrow(j, i);
    }
  }

  function Popped(lists: Lists, i: nat): Lists
    requires i < |lists| && lists[i] != []
  {
    lists[i := lists[i][1..]]
  }

  lemma PopListed(y: Layout, lists: Lists, loose: set<nat>, i: nat)
    requires Listed(y, lists, loose) && i < NUM_INDEXES && lists[i] != []
    ensures var s := lists[i][0];
            FreeOf(y, s, I2U(i)) && s !in loose && Listed(Marked(y, s, Used(I2U(i))), Popped(lists, i), loose)
  {
    var s, lists' := lists[i][0], Popped(lists, i);
    var y' := Marked(y, s, Used(I2U(i)));
    assert InList(lists, i, s) && NoDup(lists[i]);
    forall j, r | InList(lists', j, r)
      ensures FreeOf(y', r, I2U(j)) && r !in loose
    {
      assert InList(lists, j, r);
      if r == s {
        assert FreeOf(y, s, I2U(j));
        OneSize(i);
        OneSize(j);
      }
    }
    forall r | r in loose
      ensures IsFree(y', r)
    {
      assert IsFree(y, r);
    }
    forall r | IsFree(y', r) && r !in loose
      ensures Filed(lists', r, y'.tiles[r].len)
    {
      assert IsFree(y, r) && Filed(lists, r, y.tiles[r].len);
    }
  }

  // ----- Operations on blocks and the loose ones -----------------------------------------------------------

  function LooseIf(t: Tile, s: nat): set<nat> {
    if t.Free? then {s} else {}
  }

  lemma MarkListed(y: Layout, lists: Lists, loose: set<nat>, s: nat, t: Tile)
    requires Tiled(y) && Listed(y, lists, loose) && s in y.tiles && (y.tiles[s].Used? || s in loose)
    ensures Listed(Marked(y, s, t), lists, loose - {s} + LooseIf(t, s))
  {
    hide Fits, Apart, Tiled;
    var y', loose' := Marked(y, s, t), loose - {s} + LooseIf(t, s);
    assert forall r | r in loose :: IsFree(y, r);
    assert Stays(y, y', loose, loose');
    ListedStays(y, y', lists, loose, loose');
  }

  lemma CutListed(y: Layout, lists: Lists, loose: set<nat>, s: nat, t: Tile, t': Tile)
    requires Cuts(y, s, t, t') && Listed(y, lists, loose) && (y.tiles[s].Used? || s in loose)
    ensures Listed(Cut(y, s, t, t'), lists, loose - {s} + LooseIf(t, s) + LooseIf(t', s + t.len))
  {
    hide Fits, Apart, Tiled, InList, NoDup, FreeOf, Filed;
    var y', loose' := Cut(y, s, t, t'), loose - {s} + LooseIf(t, s) + LooseIf(t', s + t.len);
    CutTiled(y, s, t, t');
    assert forall r | r in loose :: IsFree(y, r);
    assert Stays(y, y', loose, loose');
    ListedStays(y, y', lists, loose, loose');
  }

  lemma JoinListed(y: Layout, lists: Lists, loose: set<nat>, s: nat, t: Tile)
    requires Joins(y, s, t) && Listed(y, lists, loose) && t.Free? && s in loose && s + y.tiles[s].len in loose
    ensures Listed(Joined(y, s, t), lists, loose - {s + y.tiles[s].len})
  {
    var n := s + y.tiles[s].len;
    var y', loose' := Joined(y, s, t), loose - {n};
    assert Fits(y, s);
    hide Fits, Apart, Tiled;
    assert forall r | r in loose :: IsFree(y, r);
    assert Stays(y, y', loose, loose');
    ListedStays(y, y', lists, loose, loose');
  }

  /** A new block in use, where there was none. */
  lemma NewListed(y: Layout, y': Layout, lists: Lists, loose: set<nat>, s: nat, n: nat)
    requires Listed(y, lists, loose) && s !in y.tiles && y'.tiles == y.tiles[s := Used(n)]
    ensures Listed(y', lists, loose)
  {
    assert forall r | r in loose :: IsFree(y, r);
    assert Stays(y, y', loose, loose);
    ListedStays(y, y', lists, loose, loose);
  }

  // ----- Links -----------------------------------------------------------------------------------------------

  function At(l: seq<nat>, k: nat): nat {
    if k < |l| then l[k] else 0
  }

  /** The first words of the units link the list, from its head to 0. */
  predicate Chain(first: seq<nat>, head: nat, l: seq<nat>) {
    head == At(l, 0) && forall k: nat | k < |l| :: 0 < l[k] < |first| && first[l[k]] == At(l, k + 1)
  }

  ghost predicate Linked(first: seq<nat>, freeList: seq<nat>, lists: Lists) {
    |freeList| == |lists| && forall i | 0 <= i < |lists| :: Chain(first, freeList[i], lists[i])
  }

  ghost predicate Unlisted(lists: Lists, s: nat) {
    forall i {:trigger InList(lists, i, s)} :: !InList(lists, i, s)
  }

  lemma ChainFrame(first: seq<nat>, head: nat, l: seq<nat>, u: nat, x: nat)
    requires Chain(first, head, l) && u !in l && u < |first|
    ensures Chain(first[u := x], head, l)
  {
  }

  lemma LinkedFrame(first: seq<nat>, freeList: seq<nat>, lists: Lists, u: nat, x: nat)
    requires Linked(first, freeList, lists) && Unlisted(lists, u) && u < |first|
    ensures Linked(first[u := x], freeList, lists)
  {
    hide Chain;
    forall i | 0 <= i < |lists|
      ensures Chain(first[u := x], freeList[i], lists[i])
    {
      assert !InList(lists, i, u);
      ChainFrame(first, freeList[i], lists[i], u, x);
    }
  }

  lemma PushLinked(first: seq<nat>, freeList: seq<nat>, lists: Lists, i: nat, s: nat)
    requires Linked(first, freeList, lists) && i < |lists| && Unlisted(lists, s) && 0 < s < |first|
    ensures Linked(first[s := freeList[i]], freeList[i := s], Pushed(lists, i, s))
  {
    LinkedFrame(first, freeList, lists, s, freeList[i]);
    var first', lists' := first[s := freeList[i]], Pushed(lists, i, s);
    assert Chain(first', freeList[i], lists[i]);
    assert Chain(first', s, [s] + lists[i]) by {
      forall k: nat | k < |[s] + lists[i]|
        ensures 0 < ([s] + lists[i])[k] < |first'| && first'[([s] + lists[i])[k]] == At([s] + lists[i], k + 1)
      {
        if k > 0 {
          assert ([s] + lists[i])[k] == lists[i][k - 1];
        }
      }
    }
  }

  lemma PopLinked(first: seq<nat>, freeList: seq<nat>, lists: Lists, i: nat)
    requires Linked(first, freeList, lists) && i < |lists| && lists[i] != []
    ensures freeList[i] == lists[i][0] && 0 < lists[i][0] < |first|
    ensures Linked(first, freeList[i := first[lists[i][0]]], Popped(lists, i))
  {
    var l := lists[i];
    assert Chain(first, freeList[i], l);
    assert Chain(first, first[l[0]], l[1..]) by {
      forall k: nat | k < |l[1..]|
        ensures 0 < l[1..][k] < |first| && first[l[1..][k]] == At(l[1..], k + 1)
      {
        assert l[1..][k] == l[k + 1];
      }
    }
  }

  lemma DropLinked(first: seq<nat>, freeList: seq<nat>, lists: Lists, i: nat)
    requires Linked(first, freeList, lists) && i < |lists|
    ensures Chain(first, freeList[i], lists[i]) && Linked(first, freeList[i := 0], lists[i := []])
  {
    hide Chain;
    var freeList', lists' := freeList[i := 0], lists[i := []];
    forall j | 0 <= j < |lists'|
      ensures Chain(first, freeList'[j], lists'[j])
    {
      if j == i {
        ChainEmpty(first);
      }
    }
  }

  lemma ChainEmpty(first: seq<nat>)
    ensures Chain(first, 0, [])
  {
  }

  /** No list from i up to j has a block. */
  predicate NoneWithin(freeList: seq<nat>, i: nat, j: nat) {
    j <= |freeList| && forall k | i <= k < j :: freeList[k] == 0
  }

  lemma EmptyHead(first: seq<nat>, freeList: seq<nat>, lists: Lists, i: nat)
    requires Linked(first, freeList, lists) && i < |lists|
    ensures freeList[i] == 0 <==> lists[i] == []
  {
    assert Chain(first, freeList[i], lists[i]);
  }

  // ----- What is in use --------------------------------------------------------------------------------------

  /** The blocks in use, with their sizes. */
  ghost function InUse(m: map<nat, Tile>): map<nat, nat> {
    map s | s in m && m[s].Used? :: m[s].len
  }

  ghost predicate Held(y: Layout, u: nat) {
    exists s :: Inside(y, s, u) && y.tiles[s].Used?
  }

  lemma InUseMarked(m: map<nat, Tile>, s: nat, t: Tile)
    ensures InUse(m[s := t]) == if t.Used? then InUse(m)[s := t.len] else InUse(m) - {s}
  {
  }

  lemma InUseCut(m: map<nat, Tile>, s: nat, k: nat, n: nat)
    requires s in m && m[s].Free? && s + k !in m
    ensures InUse(m[s := Free(k)][s + k := Free(n)]) == InUse(m)
  {
  }

  lemma InUseShrunk(m: map<nat, Tile>, s: nat, k: nat, n: nat)
    requires s in m && s + k !in m && 1 <= k
    ensures InUse(m[s := Used(k)][s + k := Free(n)]) == InUse(m)[s := k]
  {
  }

  lemma FreeNotHeld(y: Layout, s: nat)
    requires Tiled(y) && IsFree(y, s)
    ensures !Held(y, s)
  {
    forall r | Inside(y, r, s)
      ensures r == s
    {
      assert Apart(y, r, s) && Apart(y, s, r);
    }
  }

  /** A word that changed is in no block in use. */
  ghost predicate Kept(before: seq<nat>, after: seq<nat>, y: Layout) {
    |before| == |after| && forall u: nat | u < |before| && Held(y, u) :: after[u] == before[u]
  }

  lemma KeptSame(first: seq<nat>, y: Layout)
    ensures Kept(first, first, y)
  {
  }

  lemma KeptWrite(before: seq<nat>, after: seq<nat>, y: Layout, s: nat, x: nat)
    requires Tiled(y) && Kept(before, after, y) && s < |after| && (IsFree(y, s) || s == y.end || (y.lo < y.hi && s == y.lo))
    ensures Kept(before, after[s := x], y)
  {
    if IsFree(y, s) {
      FreeNotHeld(y, s);
    } else {
      forall r | r in y.tiles
        ensures !Inside(y, r, s)
      {
        assert Fits(y, r);
      }
    }
  }

  function Elements(l: seq<nat>): set<nat> {
    set x | x in l
  }

  /** A list becomes loose as a whole. */
  lemma DropListed(y: Layout, lists: Lists, loose: set<nat>, i: nat)
    requires Listed(y, lists, loose) && i < NUM_INDEXES
    ensures Listed(y, lists[i := []], loose + Elements(lists[i]))
    ensures forall s | s in lists[i] :: FreeOf(y, s, I2U(i)) && s !in loose
    ensures NoDup(lists[i])
  {
    var lists', loose' := lists[i := []], loose + Elements(lists[i]);
    assert forall s | s in lists[i] :: InList(lists, i, s);
    forall j, s | InList(lists', j, s)
      ensures FreeOf(y, s, I2U(j)) && s !in loose'
    {
      assert InList(lists, j, s);
      if s in lists[i] {
        assert InList(lists, i, s);
        OneSize(i);
        OneSize(j);
      }
    }
    forall s | s in loose'
      ensures IsFree(y, s)
    {
      assert s in lists[i] ==> InList(lists, i, s);
    }
    forall s | IsFree(y, s) && s !in loose'
      ensures Filed(lists', s, y.tiles[s].len)
    {
      assert Filed(lists, s, y.tiles[s].len);
    }
  }
}
