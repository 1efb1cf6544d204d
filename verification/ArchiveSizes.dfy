/** The sizes of the files of a 7z archive, and where in the output of its folder a file is. */
module ArchiveSizes {
  import opened Words
  import opened ArchiveFolders
  import opened ArchiveFiles

  const TWO64: int := 0x1_0000_0000_0000_0000

  /** A 64-bit word. */
  function Word64(x: int): nat {
    x % TWO64
  }

  function Total(s: seq<nat>): nat {
    if s == [] then 0 else Total(s[..|s| - 1]) + s[|s| - 1]
  }

  lemma TotalMore(s: seq<nat>, x: nat)
    ensures Total(s + [x]) == Total(s) + x
  {
    assert (s + [x])[..|s|] == s;
  }

  // ----- Substreams ------------------------------------------------------------------------------------------

  /** The substreams of a folder: all sizes but the last are given, and that is what is left, as a 64-bit word. */
  function SubSizes(unpack: nat, given: seq<nat>): seq<nat> {
    given + [Word64(unpack - Total(given))]
  }

  /** They add up to the folder's size just when the sizes given do not exceed it. */
  lemma SubSizesTotal(unpack: nat, given: seq<nat>)
    requires unpack < TWO64
    ensures Total(SubSizes(unpack, given)) == unpack <==> Total(given) <= unpack
  {
    var last := Word64(unpack - Total(given));
    TotalMore(given, last);
    if Total(given) <= unpack {
      DivUnique(unpack - Total(given), TWO64, 0, unpack - Total(given));
    }
  }

  /** Sizes that exceed it: 100 of 50 bytes. */
  lemma SubSizesExceed()
    ensures SubSizes(50, [100]) == [100, TWO64 - 50]
    ensures Total(SubSizes(50, [100])) != 50
  {
    assert [100][..0] == [] && Total([100]) == Total([]) + 100;
    DivUnique(50 - 100, TWO64, -1, TWO64 - 50);
    SubSizesTotal(50, [100]);
  }

  datatype Numbers = TooFew | Numbers(values: seq<nat>, rest: seq<byte>)

  function OneMore(r: Numbers): (r': Numbers)
    ensures r'.Numbers? ==> r.Numbers? && |r'.values| == |r.values| + 1
  {
    if r.TooFew? || NumberAt(r.rest).None? then TooFew
    else Numbers(r.values + [NumberAt(r.rest).value], r.rest[1 + Extra(r.rest[0])..])
  }

  /** n numbers, one after the other, and what follows them. */
  function NumbersAt(d: seq<byte>, n: nat): (r: Numbers)
    ensures r.Numbers? ==> |r.values| == n
  {
    if n == 0 then Numbers([], d) else OneMore(NumbersAt(d, n - 1))
  }

  /** One more number after others that were read before it. */
  lemma MoreAfter(r: Numbers, s: Numbers)
    requires r.Numbers? && s.Numbers?
    ensures OneMore(Numbers(r.values + s.values, s.rest))
         == if OneMore(s).TooFew? then TooFew else Numbers(r.values + OneMore(s).values, OneMore(s).rest)
  {
    hide NumberAt, Extra;
    if NumberAt(s.rest).Some? {
      var v := NumberAt(s.rest).value;
      assert r.values + (s.values + [v]) == r.values + s.values + [v];
    }
  }

  lemma {:induction false} NumbersOn(d: seq<byte>, m: nat, n: nat)
    ensures NumbersAt(d, m).TooFew? ==> NumbersAt(d, m + n).TooFew?
    ensures NumbersAt(d, m).Numbers? ==>
      var r := NumbersAt(d, m); var s := NumbersAt(r.rest, n);
      NumbersAt(d, m + n) == if s.TooFew? then TooFew else Numbers(r.values + s.values, s.rest)
    decreases n
  {
    hide OneMore;
    var r := NumbersAt(d, m);
    if n == 0 {
      if r.Numbers? {
        assert r.values + [] == r.values;
      }
    } else {
      NumbersOn(d, m, n - 1);
      assert NumbersAt(d, m + n) == OneMore(NumbersAt(d, m + n - 1));
      if r.Numbers? && NumbersAt(r.rest, n - 1).Numbers? {
        MoreAfter(r, NumbersAt(r.rest, n - 1));
      } else {
        assert OneMore(TooFew) == TooFew;
      }
    }
  }

  /** How many sizes are given for the first n folders, and how many there are. */
  function Wanted(numUnpack: seq<nat>, sized: bool, n: nat): nat
    requires n <= |numUnpack|
  {
    if n == 0 then 0
    else Wanted(numUnpack, sized, n - 1) + if sized && numUnpack[n - 1] > 0 then numUnpack[n - 1] - 1 else 0
  }

  function Written(numUnpack: seq<nat>, sized: bool, n: nat): nat
    requires n <= |numUnpack|
  {
    if n == 0 then 0
    else Written(numUnpack, sized, n - 1) + if numUnpack[n - 1] == 0 then 0 else if sized then numUnpack[n - 1] else 1
  }

  /** Sizes lie where the streams of their folder are counted, if they are given; otherwise if and only if no folder has
      more than one stream. */
  lemma {:induction false} WrittenInPlace(numUnpack: seq<nat>, sized: bool, n: nat)
    requires n <= |numUnpack|
    ensures Written(numUnpack, sized, n) <= SumTo(numUnpack, n)
    ensures Written(numUnpack, sized, n) == SumTo(numUnpack, n) <==> sized || forall f | 0 <= f < n :: numUnpack[f] <= 1
    decreases n
  {
    if n > 0 {
      WrittenInPlace(numUnpack, sized, n - 1);
    }
  }

  lemma {:induction false} Rising(numUnpack: seq<nat>, sized: bool, m: nat, n: nat)
    requires m <= n <= |numUnpack|
    ensures Written(numUnpack, sized, m) <= Written(numUnpack, sized, n)
    ensures Wanted(numUnpack, sized, m) <= Wanted(numUnpack, sized, n)
    decreases n
  {
    if m < n {
      Rising(numUnpack, sized, m, n - 1);
    }
  }

  /** The sizes of the substreams of folder f are in their place. */
  ghost predicate Placed(out: seq<nat>, numUnpack: seq<nat>, sized: bool, unpack: seq<nat>, given: seq<nat>, f: nat)
    requires f < |numUnpack| && f < |unpack|
  {
    Rising(numUnpack, sized, f, f + 1);
    numUnpack[f] > 0 ==>
      && Written(numUnpack, sized, f + 1) <= |out| && Wanted(numUnpack, sized, f + 1) <= |given|
      && out[Written(numUnpack, sized, f)..Written(numUnpack, sized, f + 1)]
         == SubSizes(unpack[f], given[Wanted(numUnpack, sized, f)..Wanted(numUnpack, sized, f + 1)])
  }

  lemma PlacedOn(out: seq<nat>, out': seq<nat>, numUnpack: seq<nat>, sized: bool, unpack: seq<nat>, given: seq<nat>,
                 u: nat, g: seq<nat>, f: nat)
    requires f < |numUnpack| && f < |unpack| && Placed(out, numUnpack, sized, unpack, given, f)
    requires Written(numUnpack, sized, f + 1) <= |out'| && Written(numUnpack, sized, f + 1) <= |out|
    requires out'[..Written(numUnpack, sized, f + 1)] == out[..Written(numUnpack, sized, f + 1)]
    ensures Placed(out', numUnpack, sized, unpack + [u], given + g, f)
  {
    Rising(numUnpack, sized, f, f + 1);
    if numUnpack[f] > 0 {
      var a, b := Written(numUnpack, sized, f), Written(numUnpack, sized, f + 1);
      assert out'[a..b] == out'[..b][a..b] && out[a..b] == out[..b][a..b];
      var m, n := Wanted(numUnpack, sized, f), Wanted(numUnpack, sized, f + 1);
      assert (given + g)[m..n] == given[m..n];
    }
  }

  lemma SumWraps(h: nat, n: int)
    ensures Word64(Word64(h) + n) == Word64(h + n) && Word64(n - Word64(h)) == Word64(n - h)
  {
    var q := h / TWO64;
    DivUnique(h % TWO64 + n, TWO64, (h + n) / TWO64 - q, (h + n) % TWO64);
    DivUnique(n - h % TWO64, TWO64, (n - h) / TWO64 + q, (n - h) % TWO64);
  }

  /** The array with sizes written from si0 on. */
  ghost predicate Patched(now: seq<nat>, before: seq<nat>, si0: nat, sizes: seq<nat>) {
    si0 + |sizes| <= |before| && now == before[..si0] + sizes + before[si0 + |sizes|..]
  }

  lemma PatchedNone(before: seq<nat>, si0: nat)
    requires si0 <= |before|
    ensures Patched(before, before, si0, [])
  {
  }

  lemma PatchedMore(now: seq<nat>, before: seq<nat>, si0: nat, sizes: seq<nat>, size: nat)
    requires Patched(now, before, si0, sizes) && si0 + |sizes| < |before|
    ensures |now| == |before| && Patched(now[si0 + |sizes| := size], before, si0, sizes + [size])
  {
  }

  method Put(unpackSizes: array<nat>, si: nat, size: nat)
    requires si < unpackSizes.Length
    modifies unpackSizes
    ensures unpackSizes[..] == old(unpackSizes[..])[si := size]
  {
    unpackSizes[si] := size;
  }

  lemma AtFirst(d: seq<byte>)
    ensures Word64(Total([])) == 0 && NumbersAt(d, 0) == Numbers([], d)
  {
  }

  lemma NumbersNext(d: seq<byte>, n: nat)
    ensures NumbersAt(d, n + 1) == OneMore(NumbersAt(d, n))
  {
    hide OneMore;
  }

  /** One more number. */
  method ReadNext(sd: SzData, ghost d: seq<byte>, ghost given: seq<nat>) returns (ok: bool, size: nat)
    requires NumbersAt(d, |given|) == Numbers(given, sd.data)
    modifies sd
    ensures ok == NumbersAt(d, |given| + 1).Numbers?
    ensures ok ==> NumbersAt(d, |given| + 1) == Numbers(given + [size], sd.data)
  {
    hide NumberAt, Extra, NumbersAt;
    NumbersNext(d, |given|);
    ok, size := sd.ReadNumber();
  }

  /** What reading sizes comes to: `Missing` when a number is, `NoPlace` when one has no place in the array. */
  datatype Outcome = Done | Missing | NoPlace

  /** The sizes given for one folder, and their sum. */
  method ReadGiven(sd: SzData, numSubstreams: nat, unpackSizes: array<nat>, si0: nat)
    returns (o: Outcome, si: nat, sum: nat, ghost given: seq<nat>)
    requires numSubstreams > 0 && si0 <= unpackSizes.Length
    modifies sd, unpackSizes
    ensures o.Done? ==> NumbersAt(old(sd.data), numSubstreams - 1) == Numbers(given, sd.data)
    ensures o.Done? ==> si == si0 + |given| <= unpackSizes.Length && sum == Word64(Total(given))
    ensures o.Done? ==> Patched(unpackSizes[..], old(unpackSizes[..]), si0, given)
    ensures o.Missing? ==> NumbersAt(old(sd.data), numSubstreams - 1).TooFew?
    ensures o.NoPlace? ==> si0 + numSubstreams - 1 > unpackSizes.Length
  {
    hide NumbersAt, Total, Patched, Word64;
    si, sum, given := si0, 0, [];
    ghost var d, before: seq<nat>, now: seq<nat> := sd.data, unpackSizes[..], unpackSizes[..];
    AtFirst(d);
    PatchedNone(before, si0);
    for j := 1 to numSubstreams
      invariant si == si0 + |given| <= unpackSizes.Length && |given| == j - 1 && sum == Word64(Total(given))
      invariant NumbersAt(d, |given|) == Numbers(given, sd.data) && Patched(now, before, si0, given)
      invariant unpackSizes[..] == now && |before| == unpackSizes.Length
    {
      NumbersOn(d, j, numSubstreams - 1 - j);
      var ok, size := ReadNext(sd, d, given);
      if !ok {
        return Missing, si, sum, given;
      }
      if si == unpackSizes.Length {
        return NoPlace, si, sum, given;
      }
      Put(unpackSizes, si, size);
      Adds(now, before, si0, given, size);
      si, sum, given, now := si + 1, Word64(sum + size), given + [size], now[si := size];
    }
    o := Done;
  }

  lemma Adds(now: seq<nat>, before: seq<nat>, si0: nat, given: seq<nat>, size: nat)
    requires Patched(now, before, si0, given) && si0 + |given| < |before| == |now|
    ensures Patched(now[si0 + |given| := size], before, si0, given + [size])
    ensures Word64(Total(given + [size])) == Word64(Word64(Total(given)) + size)
  {
    hide Total, Word64, Patched;
    PatchedMore(now, before, si0, given, size);
    TotalMore(given, size);
    SumWraps(Total(given), size);
  }

  /** The sizes of one folder: those given, and what is left. */
  method ReadFolderSizes(sd: SzData, numSubstreams: nat, sized: bool, unpack: nat, unpackSizes: array<nat>, si0: nat)
    returns (o: Outcome, si: nat, ghost given: seq<nat>)
    requires numSubstreams > 0 && si0 <= unpackSizes.Length
    modifies sd, unpackSizes
    ensures o.Done? ==> NumbersAt(old(sd.data), if sized then numSubstreams - 1 else 0) == Numbers(given, sd.data)
    ensures o.Done? ==> si == si0 + (if sized then numSubstreams else 1) <= unpackSizes.Length
    ensures o.Done? ==> Patched(unpackSizes[..], old(unpackSizes[..]), si0, SubSizes(unpack, given))
    ensures o.Missing? ==> NumbersAt(old(sd.data), if sized then numSubstreams - 1 else 0).TooFew?
    ensures o.NoPlace? ==> si0 + (if sized then numSubstreams else 1) > unpackSizes.Length
  {
    hide NumbersAt, Total, Patched, Word64;
    var sum := 0;
    o, si, given := Done, si0, [];
    ghost var d, before: seq<nat> := sd.data, unpackSizes[..];
    AtFirst(d);
    PatchedNone(before, si0);
    if sized {
      o, si, sum, given := ReadGiven(sd, numSubstreams, unpackSizes, si0);
      if !o.Done? {
        return;
      }
    }
    if si == unpackSizes.Length {
      return NoPlace, si, given;
    }
    ghost var now: seq<nat> := unpackSizes[..];
    SumWraps(Total(given), unpack);
    PatchedMore(now, before, si0, given, Word64(unpack - sum));
    Put(unpackSizes, si, Word64(unpack - sum));
    si := si + 1;
  }

  // ----- All folders -----------------------------------------------------------------------------------------

  /** A folder as it is accepted, with the sizes of its output streams. */
  ghost predicate Unpacks(f: Folder, outSizes: seq<nat>) {
    && |outSizes| == NumOut(f.coders) > 0 && |f.bindPairs| < NumOut(f.coders)
    && forall k | 0 <= k < |outSizes| :: outSizes[k] < TWO64
  }

  /** The size of the last output stream that is not bound. */
  ghost predicate UnpackSize(f: Folder, outSizes: seq<nat>, size: nat) {
    exists main: nat | main < |outSizes| ::
      && !OutBound(f.bindPairs, main) && size == outSizes[main]
      && forall k | main < k < |outSizes| :: OutBound(f.bindPairs, k)
  }

  ghost predicate AllPlaced(out: seq<nat>, numUnpack: seq<nat>, sized: bool, unpack: seq<nat>, given: seq<nat>, n: nat) {
    && n <= |numUnpack| && n <= |unpack|
    && forall f: nat | f < n :: Placed(out, numUnpack, sized, unpack, given, f)
  }

  lemma PlacedEmpty(out: seq<nat>, numUnpack: seq<nat>, sized: bool, unpack: seq<nat>, given: seq<nat>, i: nat)
    requires AllPlaced(out, numUnpack, sized, unpack, given, i) && |unpack| == i < |numUnpack| && numUnpack[i] == 0
    requires Written(numUnpack, sized, i) <= |out|
    ensures AllPlaced(out, numUnpack, sized, unpack + [0], given, i + 1)
  {
    hide Written, Wanted, SubSizes;
    forall f: nat | f < i + 1
      ensures Placed(out, numUnpack, sized, unpack + [0], given, f)
    {
      if f < i {
        Rising(numUnpack, sized, f + 1, i);
        PlacedOn(out, out, numUnpack, sized, unpack, given, 0, [], f);
        assert given + [] == given;
      }
    }
  }

  lemma PlacedNext(now: seq<nat>, out: seq<nat>, numUnpack: seq<nat>, sized: bool, unpack: seq<nat>, given: seq<nat>,
                   i: nat, u: nat, g: seq<nat>)
    requires AllPlaced(out, numUnpack, sized, unpack, given, i) && |unpack| == i < |numUnpack| && numUnpack[i] > 0
    requires |given| == Wanted(numUnpack, sized, i) && |g| == if sized then numUnpack[i] - 1 else 0
    requires Patched(now, out, Written(numUnpack, sized, i), SubSizes(u, g))
    ensures AllPlaced(now, numUnpack, sized, unpack + [u], given + g, i + 1)
  {
    hide Placed, Written, Wanted, SubSizes, Patched;
    PatchedParts(now, out, Written(numUnpack, sized, i), SubSizes(u, g));
    forall f: nat | f < i + 1
      ensures Placed(now, numUnpack, sized, unpack + [u], given + g, f)
    {
      if f < i {
        PlacedBefore(now, out, numUnpack, sized, unpack, given, i, u, g, f);
      } else {
        PlacedHere(now, numUnpack, sized, unpack, given, i, u, g);
      }
    }
  }

  lemma PlacedHere(now: seq<nat>, numUnpack: seq<nat>, sized: bool, unpack: seq<nat>, given: seq<nat>,
                   i: nat, u: nat, g: seq<nat>)
    requires |unpack| == i < |numUnpack| && numUnpack[i] > 0
    requires |given| == Wanted(numUnpack, sized, i) && |g| == if sized then numUnpack[i] - 1 else 0
    requires Written(numUnpack, sized, i) + |SubSizes(u, g)| <= |now|
    requires now[Written(numUnpack, sized, i)..Written(numUnpack, sized, i) + |SubSizes(u, g)|] == SubSizes(u, g)
    ensures Placed(now, numUnpack, sized, unpack + [u], given + g, i)
  {
    Rising(numUnpack, sized, i, i + 1);
    assert Wanted(numUnpack, sized, i + 1) == |given| + |g| && (given + g)[|given|..|given| + |g|] == g;
    assert Written(numUnpack, sized, i + 1) == Written(numUnpack, sized, i) + |SubSizes(u, g)|;
    assert (unpack + [u])[i] == u;
  }

  lemma PlacedBefore(now: seq<nat>, out: seq<nat>, numUnpack: seq<nat>, sized: bool, unpack: seq<nat>, given: seq<nat>,
                     i: nat, u: nat, g: seq<nat>, f: nat)
    requires f < i <= |numUnpack| && i <= |unpack| && Placed(out, numUnpack, sized, unpack, given, f)
    requires Written(numUnpack, sized, i) <= |out| == |now|
    requires now[..Written(numUnpack, sized, i)] == out[..Written(numUnpack, sized, i)]
    ensures Placed(now, numUnpack, sized, unpack + [u], given + g, f)
  {
    hide Written, Wanted, SubSizes, Placed;
    Rising(numUnpack, sized, f + 1, i);
    var a, b := Written(numUnpack, sized, f + 1), Written(numUnpack, sized, i);
    assert now[..b][..a] == now[..a] && out[..b][..a] == out[..a];
    PlacedOn(out, now, numUnpack, sized, unpack, given, u, g, f);
  }

  lemma PatchedParts(now: seq<nat>, before: seq<nat>, si0: nat, sizes: seq<nat>)
    requires Patched(now, before, si0, sizes)
    ensures si0 + |sizes| <= |now| == |before| && now[..si0] == before[..si0] && now[si0..si0 + |sizes|] == sizes
  {
  }

  /** SzFolder_GetUnpackSize, for a folder that unpacks. */
  method FolderSize(f: Folder, outSizes: seq<nat>) returns (size: nat)
    requires Unpacks(f, outSizes)
    ensures size < TWO64 && UnpackSize(f, outSizes, size)
  {
    ghost var main;
    size, main := GetUnpackSize(f, outSizes);
    assert !OutBound(f.bindPairs, main);
  }

  /** The loop that reads how many streams each folder has. They are added up as 32-bit words. */
  method ReadCounts(sd: SzData, numFolders: nat) returns (ok: bool, numUnpack: seq<nat>, total: word)
    modifies sd
    ensures var r := NumbersAt(old(sd.data), numFolders);
            ok <==> r.Numbers? && forall f | 0 <= f < numFolders :: r.values[f] < 0x8000_0000
    ensures ok ==> NumbersAt(old(sd.data), numFolders) == Numbers(numUnpack, sd.data)
    ensures ok ==> total == SumTo(numUnpack, numFolders) % TWO32
  {
    hide NumbersAt, SumTo;
    numUnpack, total := [], 0;
    ghost var d := sd.data;
    AtFirst(d);
    CountsNone();
    for i := 0 to numFolders
      invariant |numUnpack| == i && NumbersAt(d, i) == Numbers(numUnpack, sd.data)
      invariant total == SumTo(numUnpack, i) % TWO32
      invariant forall f | 0 <= f < i :: numUnpack[f] < 0x8000_0000
    {
      NumbersOn(d, i + 1, numFolders - (i + 1));
      var numStreams;
      ok, numStreams := ReadNext32(sd, d, numUnpack);
      if !ok {
        assert var r := NumbersAt(d, numFolders); r.TooFew? || r.values[i] >= 0x8000_0000;
        return;
      }
      CountsMore(numUnpack, numStreams);
      numUnpack, total := numUnpack + [numStreams], (total + numStreams) % TWO32;
    }
    ok := true;
  }

  method ReadNext32(sd: SzData, ghost d: seq<byte>, ghost given: seq<nat>) returns (ok: bool, n: nat)
    requires NumbersAt(d, |given|) == Numbers(given, sd.data)
    modifies sd
    ensures ok ==> n < 0x8000_0000 && NumbersAt(d, |given| + 1) == Numbers(given + [n], sd.data)
    ensures !ok ==> var r := NumbersAt(d, |given| + 1); r.TooFew? || r.values[|given|] >= 0x8000_0000
  {
    hide NumberAt, Extra, NumbersAt;
    NumbersNext(d, |given|);
    ok, n := sd.ReadNumber32();
  }

  lemma CountsNone()
    ensures SumTo([], 0) == 0
  {
  }

  lemma CountsMore(numUnpack: seq<nat>, n: nat)
    ensures SumTo(numUnpack + [n], |numUnpack| + 1) % TWO32 == (SumTo(numUnpack, |numUnpack|) % TWO32 + n) % TWO32
  {
    SumOfFirst(numUnpack, [n], |numUnpack|);
    var s := numUnpack + [n];
    assert s[|numUnpack|] == n && SumTo(s, |s|) == SumTo(s, |s| - 1) + s[|s| - 1];
    WordSum(SumTo(numUnpack, |numUnpack|), n);
  }

  lemma {:induction false} SumOfFirst(s: seq<nat>, t: seq<nat>, n: nat)
    requires n <= |s|
    ensures SumTo(s + t, n) == SumTo(s, n)
    decreases n
  {
    if n > 0 {
      SumOfFirst(s, t, n - 1);
    }
  }

  /** The loop over the folders in SzReadSubStreamsInfo, with as many places as the counts of streams add up to as 32-bit
      words. The sizes of each folder's substreams are put in its place, empty folders taking none. If no number is missing,
      every size has a place if and only if there are enough. */
  method ReadSubSizes(sd: SzData, folders: seq<Folder>, outSizes: seq<seq<nat>>, numUnpack: seq<nat>, sized: bool,
                      unpackSizes: array<nat>)
    returns (o: Outcome, ghost unpack: seq<nat>, ghost given: seq<nat>)
    requires |folders| == |outSizes| == |numUnpack| && unpackSizes.Length == SumTo(numUnpack, |numUnpack|) % TWO32
    requires forall f | 0 <= f < |folders| :: Unpacks(folders[f], outSizes[f])
    modifies sd, unpackSizes
    ensures o.Done? <==>
      && NumbersAt(old(sd.data), Wanted(numUnpack, sized, |numUnpack|)).Numbers?
      && Written(numUnpack, sized, |numUnpack|) <= unpackSizes.Length
    ensures o.Missing? ==> NumbersAt(old(sd.data), Wanted(numUnpack, sized, |numUnpack|)).TooFew?
    ensures o.NoPlace? ==> Written(numUnpack, sized, |numUnpack|) > unpackSizes.Length
    ensures o.Done? ==> NumbersAt(old(sd.data), Wanted(numUnpack, sized, |numUnpack|)) == Numbers(given, sd.data)
    ensures o.Done? ==> |unpack| == |folders| && AllPlaced(unpackSizes[..], numUnpack, sized, unpack, given, |numUnpack|)
    ensures o.Done? ==> forall f | 0 <= f < |folders| && numUnpack[f] > 0 ::
      unpack[f] < TWO64 && UnpackSize(folders[f], outSizes[f], unpack[f])
  {
    hide NumbersAt, Patched, SubSizes, AllPlaced, Placed, UnpackSize, Unpacks, SumTo, Written, Wanted;
    var si := 0;
    unpack, given := [], [];
    ghost var d, now: seq<nat> := sd.data, unpackSizes[..];
    AtFirst(d);
    NonePlaced(now, numUnpack, sized);
    for i := 0 to |folders|
      invariant si == Written(numUnpack, sized, i) <= unpackSizes.Length
      invariant |given| == Wanted(numUnpack, sized, i) && |unpack| == i
      invariant NumbersAt(d, |given|) == Numbers(given, sd.data) && unpackSizes[..] == now
      invariant AllPlaced(now, numUnpack, sized, unpack, given, i)
      invariant forall f | 0 <= f < i && numUnpack[f] > 0 ::
        unpack[f] < TWO64 && UnpackSize(folders[f], outSizes[f], unpack[f])
    {
      Places(numUnpack, sized, i);
      if numUnpack[i] == 0 {
        PlacedEmpty(now, numUnpack, sized, unpack, given, i);
        unpack := unpack + [0];
      } else {
        var size := FolderSize(folders[i], outSizes[i]);
        ghost var g;
        ghost var k := if sized then numUnpack[i] - 1 else 0;
        NumbersOn(d, |given|, k);
        NumbersOn(d, Wanted(numUnpack, sized, i + 1), Wanted(numUnpack, sized, |numUnpack|) - Wanted(numUnpack, sized, i + 1));
        o, si, g := ReadFolderSizes(sd, numUnpack[i], sized, size, unpackSizes, si);
        if !o.Done? {
          return;
        }
        PlacedNext(unpackSizes[..], now, numUnpack, sized, unpack, given, i, size, g);
        unpack, given, now := unpack + [size], given + g, unpackSizes[..];
      }
    }
    o := Done;
  }

  /** There are enough places if the counts add up to less than 2^32. When sizes are given, only if. */
  lemma EnoughPlaces(numUnpack: seq<nat>, sized: bool)
    ensures var n := |numUnpack|;
            && (SumTo(numUnpack, n) < TWO32 ==> Written(numUnpack, sized, n) <= SumTo(numUnpack, n) % TWO32)
            && (sized ==> (Written(numUnpack, sized, n) <= SumTo(numUnpack, n) % TWO32 <==> SumTo(numUnpack, n) < TWO32))
  {
    hide SumTo, Written;
    WrittenInPlace(numUnpack, sized, |numUnpack|);
    Remainder(SumTo(numUnpack, |numUnpack|));
  }

  /** Three folders whose streams add up to 2^32: no place is left, not even for one size a folder. */
  lemma PlacesWrap(sized: bool)
    ensures var s := [0x7FFF_FFFF, 0x7FFF_FFFF, 2];
            SumTo(s, 3) % TWO32 == 0 && Written(s, sized, 3) == if sized then TWO32 else 3
  {
    var s := [0x7FFF_FFFF, 0x7FFF_FFFF, 2];
    assert SumTo(s, 1) == SumTo(s, 0) + s[0] && SumTo(s, 2) == SumTo(s, 1) + s[1] && SumTo(s, 3) == SumTo(s, 2) + s[2];
    DivUnique(SumTo(s, 3), TWO32, 1, 0);
    assert Written(s, sized, 1) == if sized then s[0] else 1;
    assert Written(s, sized, 2) == if sized then s[0] + s[1] else 2;
  }

  lemma NonePlaced(out: seq<nat>, numUnpack: seq<nat>, sized: bool)
    ensures AllPlaced(out, numUnpack, sized, [], [], 0)
    ensures Written(numUnpack, sized, 0) == 0 && Wanted(numUnpack, sized, 0) == 0
  {
  }

  lemma Places(numUnpack: seq<nat>, sized: bool, i: nat)
    requires i < |numUnpack|
    ensures Written(numUnpack, sized, i + 1) <= Written(numUnpack, sized, |numUnpack|)
    ensures Wanted(numUnpack, sized, i + 1) <= Wanted(numUnpack, sized, |numUnpack|)
    ensures Written(numUnpack, sized, i + 1)
         == Written(numUnpack, sized, i) + if numUnpack[i] == 0 then 0 else if sized then numUnpack[i] else 1
    ensures Wanted(numUnpack, sized, i + 1)
         == Wanted(numUnpack, sized, i) + if sized && numUnpack[i] > 0 then numUnpack[i] - 1 else 0
  {
    Rising(numUnpack, sized, i + 1, |numUnpack|);
  }

  // ----- Files -----------------------------------------------------------------------------------------------

  /** The size of file j: streams are given to the files that have one, in order. */
  function FileSize(hasStream: seq<bool>, sizes: seq<nat>, j: nat): nat
    requires j < |hasStream|
  {
    if hasStream[j] && Count(hasStream, j) < |sizes| then sizes[Count(hasStream, j)] else 0
  }

  function FileSizes(hasStream: seq<bool>, sizes: seq<nat>): (r: seq<nat>)
    ensures |r| == |hasStream| && forall j: nat | j < |r| :: r[j] == FileSize(hasStream, sizes, j)
  {
    seq(|hasStream|, j requires 0 <= j < |hasStream| => FileSize(hasStream, sizes, j))
  }

  /** The loop that gives the files their sizes. */
  method GiveSizes(hasStream: seq<bool>, unpackSizes: seq<nat>, files: array<nat>)
    requires files.Length == |hasStream| && Count(hasStream, |hasStream|) <= |unpackSizes|
    modifies files
    ensures files[..] == FileSizes(hasStream, unpackSizes)
  {
    hide Count;
    var sizeIndex := 0;
    NoneCounted(hasStream);
    for i := 0 to |hasStream|
      invariant sizeIndex == Count(hasStream, i)
      invariant forall j: nat | j < i :: files[j] == FileSize(hasStream, unpackSizes, j)
    {
      Counted(hasStream, i);
      if hasStream[i] {
        files[i] := unpackSizes[sizeIndex];
        sizeIndex := sizeIndex + 1;
      } else {
        files[i] := 0;
      }
    }
  }

  lemma NoneCounted(hasStream: seq<bool>)
    ensures Count(hasStream, 0) == 0
  {
  }

  lemma Counted(hasStream: seq<bool>, i: nat)
    requires i < |hasStream|
    ensures Count(hasStream, i + 1) == Count(hasStream, i) + if hasStream[i] then 1 else 0
    ensures Count(hasStream, i + 1) <= Count(hasStream, |hasStream|)
  {
    CountGrows(hasStream, i + 1, |hasStream|);
  }

  // ----- Places ----------------------------------------------------------------------------------------------

  /** Where SzArEx_Extract looks for what comes after the files from a to b: it adds sizes cut to 32 bits. */
  function Offset(files: seq<nat>, a: nat, b: nat): nat
    requires a <= b <= |files|
  {
    if a == b then 0 else Offset(files, a, b - 1) + files[b - 1] % TWO32
  }

  function Span(files: seq<nat>, a: nat, b: nat): nat
    requires a <= b <= |files|
  {
    if a == b then 0 else Span(files, a, b - 1) + files[b - 1]
  }

  predicate Short(files: seq<nat>, a: nat, b: nat)
    requires a <= b <= |files|
  {
    forall k | a <= k < b :: files[k] < TWO32
  }

  lemma Remainder(x: nat)
    ensures x % TWO32 <= x && x % TWO32 < TWO32 && (x % TWO32 == x <==> x < TWO32)
  {
    if x < TWO32 {
      DivUnique(x, TWO32, 0, x);
    }
  }

  /** The place is right if and only if no file before it has 2^32 bytes or more. */
  lemma {:induction false} OffsetExact(files: seq<nat>, a: nat, b: nat)
    requires a <= b <= |files|
    ensures Offset(files, a, b) <= Span(files, a, b)
    ensures Offset(files, a, b) == Span(files, a, b) <==> Short(files, a, b)
    decreases b
  {
    if a < b {
      OffsetExact(files, a, b - 1);
      Remainder(files[b - 1]);
    }
  }

  /** After a file of 2^32 bytes the next is looked for at the same place. */
  lemma OffsetWrong(n: nat)
    ensures Offset([TWO32, n], 0, 1) == 0 && Span([TWO32, n], 0, 1) == TWO32
  {
    DivUnique(TWO32, TWO32, 1, 0);
  }

  /** A range of files is as long as the streams it takes. */
  lemma {:induction false} SpanOfStreams(hasStream: seq<bool>, sizes: seq<nat>, a: nat, b: nat)
    requires a <= b <= |hasStream| && Count(hasStream, b) <= |sizes|
    ensures Count(hasStream, a) <= Count(hasStream, b)
    ensures Span(FileSizes(hasStream, sizes), a, b) == Total(sizes[Count(hasStream, a)..Count(hasStream, b)])
    decreases b
  {
    CountGrows(hasStream, a, b);
    if a < b {
      CountGrows(hasStream, a, b - 1);
      SpanOfStreams(hasStream, sizes, a, b - 1);
      if hasStream[b - 1] {
        var m, n := Count(hasStream, a), Count(hasStream, b - 1);
        assert sizes[m..n + 1] == sizes[m..n] + [sizes[n]];
        TotalMore(sizes[m..n], sizes[n]);
      }
    }
  }

  lemma {:induction false} SpanGrows(files: seq<nat>, a: nat, b: nat, c: nat)
    requires a <= b <= c <= |files|
    ensures Span(files, a, b) <= Span(files, a, c)
    decreases c
  {
    if b < c {
      SpanGrows(files, a, b, c - 1);
    }
  }

  /** Each file from a to b, and what comes then, begins where the one before ends. */
  ghost predicate Chained(files: seq<nat>, a: nat, b: nat)
    requires a <= b <= |files|
  {
    forall j | a <= j < b :: Offset(files, a, j) + files[j] == Offset(files, a, j + 1)
  }

  /** The first file begins at 0, each other where the one before ends, and the last ends at the end. */
  ghost predicate Tiled(files: seq<nat>, a: nat, b: nat, unpack: nat)
    requires a < b <= |files|
  {
    Chained(files, a, b - 1) && Offset(files, a, b - 1) + files[b - 1] == unpack
  }

  ghost predicate AllInside(files: seq<nat>, a: nat, b: nat, unpack: nat)
    requires a <= b <= |files|
  {
    forall j | a <= j < b :: Offset(files, a, j) + files[j] <= unpack
  }

  lemma ChainedShort(files: seq<nat>, a: nat, b: nat)
    requires a <= b <= |files|
    ensures Chained(files, a, b) <==> Short(files, a, b)
  {
    if Chained(files, a, b) {
      forall k | a <= k < b
        ensures files[k] < TWO32
      {
        assert Offset(files, a, k) + files[k] == Offset(files, a, k + 1);
        Remainder(files[k]);
      }
    }
    if Short(files, a, b) {
      forall j | a <= j < b
        ensures Offset(files, a, j) + files[j] == Offset(files, a, j + 1)
      {
        Remainder(files[j]);
      }
    }
  }

  lemma TiledFiles(files: seq<nat>, a: nat, b: nat, unpack: nat)
    requires a < b <= |files|
    ensures Tiled(files, a, b, unpack) <==> Span(files, a, b) == unpack && Short(files, a, b - 1)
  {
    hide Chained, Offset, Short;
    ChainedShort(files, a, b - 1);
    OffsetExact(files, a, b - 1);
  }

  lemma InsideSpan(files: seq<nat>, a: nat, b: nat)
    requires a <= b <= |files|
    ensures AllInside(files, a, b, Span(files, a, b))
  {
    hide Offset;
    forall j | a <= j < b
      ensures Offset(files, a, j) + files[j] <= Span(files, a, b)
    {
      OffsetExact(files, a, j);
      SpanGrows(files, a, j + 1, b);
    }
  }

  lemma InsideShort(files: seq<nat>, a: nat, b: nat, unpack: nat)
    requires a < b <= |files| && AllInside(files, a, b, unpack) && Short(files, a, b - 1)
    ensures Span(files, a, b) <= unpack
  {
    hide Offset, Short;
    OffsetExact(files, a, b - 1);
    assert Offset(files, a, b - 1) + files[b - 1] <= unpack;
  }

  /** Folder f is complete, and its substreams have been given their sizes. */
  ghost predicate SizedFolder(x: Index, f: nat, i: nat, sizes: seq<nat>, unpack: nat, given: seq<nat>) {
    && Sized(x) && f < |x.numUnpack| && x.numUnpack[f] > 0 && i <= |x.fileMap| && Complete(x, f, i)
    && unpack < TWO64 && SumTo(x.numUnpack, f + 1) <= |sizes|
    && sizes[SumTo(x.numUnpack, f)..SumTo(x.numUnpack, f + 1)] == SubSizes(unpack, given)
  }

  /** What the loop over the folders leaves gives each complete folder its sizes, if sizes are given or no folder has
      more than one stream. */
  lemma PlacedSized(x: Index, f: nat, i: nat, out: seq<nat>, sized: bool, unpack: seq<nat>, given: seq<nat>)
    requires Sized(x) && f < |x.numUnpack| && x.numUnpack[f] > 0 && i <= |x.fileMap| && Complete(x, f, i)
    requires AllPlaced(out, x.numUnpack, sized, unpack, given, |x.numUnpack|) && unpack[f] < TWO64
    requires sized || forall g | 0 <= g < |x.numUnpack| :: x.numUnpack[g] <= 1
    ensures Wanted(x.numUnpack, sized, f) <= Wanted(x.numUnpack, sized, f + 1) <= |given|
    ensures SizedFolder(x, f, i, out, unpack[f], given[Wanted(x.numUnpack, sized, f)..Wanted(x.numUnpack, sized, f + 1)])
  {
    hide Complete, SubSizes, Wanted, Written, SumTo;
    Rising(x.numUnpack, sized, f, f + 1);
    WrittenInPlace(x.numUnpack, sized, f);
    WrittenInPlace(x.numUnpack, sized, f + 1);
    assert Placed(out, x.numUnpack, sized, unpack, given, f);
  }

  lemma FolderSpan(x: Index, f: nat, i: nat, sizes: seq<nat>, unpack: nat, given: seq<nat>)
    requires SizedFolder(x, f, i, sizes, unpack, given)
    ensures var s := Span(FileSizes(x.hasStream, sizes), x.start[f], x.finish[f]);
            s >= Total(given) && (s == unpack <==> Total(given) <= unpack)
  {
    SpanOfStreams(x.hasStream, sizes, x.start[f], x.finish[f]);
    SubSizesTotal(unpack, given);
    TotalMore(given, Word64(unpack - Total(given)));
  }

  /** The files of a complete folder tile its output if and only if the sizes given do not exceed it and no file but the
      last has 2^32 bytes or more. */
  lemma Tiles(x: Index, f: nat, i: nat, sizes: seq<nat>, unpack: nat, given: seq<nat>)
    requires SizedFolder(x, f, i, sizes, unpack, given)
    ensures var files, a, b := FileSizes(x.hasStream, sizes), x.start[f], x.finish[f];
            Tiled(files, a, b, unpack) <==> Total(given) <= unpack && Short(files, a, b - 1)
  {
    hide FileSizes, Complete, Total, Short, Tiled, AllInside, Span;
    FolderRange(x, f, i);
    var files, a, b := FileSizes(x.hasStream, sizes), x.start[f], x.finish[f];
    FolderSpan(x, f, i, sizes, unpack, given);
    TiledFiles(files, a, b, unpack);
  }

  lemma FolderRange(x: Index, f: nat, i: nat)
    requires Sized(x) && f < |x.numUnpack| && x.numUnpack[f] > 0 && i <= |x.fileMap| && Complete(x, f, i)
    ensures x.start[f] < x.finish[f] <= i <= |x.hasStream|
  {
  }

  /** If the sizes given do not exceed the folder's, every file is inside its output. With no file but the last of 2^32
      bytes or more, only if. */
  lemma Inside(x: Index, f: nat, i: nat, sizes: seq<nat>, unpack: nat, given: seq<nat>)
    requires SizedFolder(x, f, i, sizes, unpack, given)
    ensures var files, a, b := FileSizes(x.hasStream, sizes), x.start[f], x.finish[f];
            && (Total(given) <= unpack ==> AllInside(files, a, b, unpack))
            && (Short(files, a, b - 1) ==> (AllInside(files, a, b, unpack) <==> Total(given) <= unpack))
  {
    hide FileSizes, Complete, Total, Short, Tiled, AllInside, Span;
    FolderRange(x, f, i);
    var files, a, b := FileSizes(x.hasStream, sizes), x.start[f], x.finish[f];
    FolderSpan(x, f, i, sizes, unpack, given);
    InsideSpan(files, a, b);
    if Short(files, a, b - 1) && AllInside(files, a, b, unpack) {
      InsideShort(files, a, b, unpack);
    }
  }

  const HALF: nat := 0x8000_0000_0000_0000

  lemma ThreeTimes(h: nat)
    ensures Total([h, h, h]) == 3 * h
  {
    TotalMore([], h);
    TotalMore([h], h);
    TotalMore([h, h], h);
    assert [] + [h] == [h] && [h] + [h] == [h, h] && [h, h] + [h] == [h, h, h];
  }

  /** Sizes that are multiples of 2^32 do not move what follows them. */
  lemma NoneMoved(h: nat)
    requires h % TWO32 == 0
    ensures AllInside([h, h, h, 0], 0, 4, h)
  {
    var files := [h, h, h, 0];
    assert Offset(files, 0, 1) == Offset(files, 0, 0);
    assert Offset(files, 0, 2) == Offset(files, 0, 1);
    assert Offset(files, 0, 3) == Offset(files, 0, 2);
  }

  /** Files of 2^63 bytes, three given for a folder of as many: they all lie inside, at its start. */
  lemma InsideAnyway()
    ensures SubSizes(HALF, [HALF, HALF, HALF]) == [HALF, HALF, HALF, 0] && Total([HALF, HALF, HALF]) > HALF
    ensures AllInside([HALF, HALF, HALF, 0], 0, 4, HALF)
  {
    hide Total, AllInside;
    ThreeTimes(HALF);
    DivUnique(HALF - 3 * HALF, TWO64, -1, 0);
    DivUnique(HALF, TWO32, 0x8000_0000, 0);
    NoneMoved(HALF);
  }

  /** Offsets of fewer than 2^32 files fit in 64 bits. */
  lemma {:induction false} OffsetFits(files: seq<nat>, a: nat, b: nat)
    requires a <= b <= |files|
    ensures Offset(files, a, b) <= (b - a) * (TWO32 - 1)
    decreases b
  {
    if a < b {
      OffsetFits(files, a, b - 1);
      Remainder(files[b - 1]);
    }
  }
}
