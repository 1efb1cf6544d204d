/**
  SzArEx_Extract: the output of the folder decoded last is kept for the next call. The step on values says exactly when
  that cannot be noticed.
*/
module ArchiveExtract {
  import opened Words
  import opened ArchiveFiles
  import opened ArchiveSizes

  /** What decoding a folder and checking its CRC comes to; either way the buffer has been written. */
  datatype Decoded = Output(bytes: seq<byte>) | Failed(left: seq<byte>)

  datatype File = File(folder: Option<nat>, size: nat, crc: Option<word>)

  /** An archive: its files, the folders by what decoding them gives, and where the files of each folder start. */
  datatype Archive = Archive(files: seq<File>, folders: seq<Decoded>, start: seq<nat>, crc: seq<byte> -> word)

  predicate ValidArchive(a: Archive) {
    && |a.files| < TWO32 && |a.start| == |a.folders|
    && (forall i | 0 <= i < |a.files| :: a.files[i].size < TWO64 && ValidFolder(a, i))
  }

  predicate ValidFolder(a: Archive, i: nat)
    requires i < |a.files|
  {
    var f := a.files[i].folder;
    f.Some? ==> f.value < |a.folders| && f.value < |a.start| && a.start[f.value] <= i
  }

  function Sizes(a: Archive): (r: seq<nat>)
    ensures |r| == |a.files| && forall i | 0 <= i < |r| :: r[i] == a.files[i].size
  {
    seq(|a.files|, i requires 0 <= i < |a.files| => a.files[i].size)
  }

  /** Where the file is in the output of its folder. */
  function Place(a: Archive, i: nat): nat
    requires ValidArchive(a) && i < |a.files| && a.files[i].folder.Some?
  {
    assert ValidFolder(a, i);
    Offset(Sizes(a), a.start[a.files[i].folder.value], i)
  }

  function Contents(d: Decoded): seq<byte> {
    if d.Output? then d.bytes else d.left
  }

  /** The null pointer is None; a folder without output leaves it. */
  datatype Cache = Cache(block: Option<nat>, buffer: Option<seq<byte>>, size: nat)

  /** Outside: no error is found, but the range of the file is not inside the buffer; nothing is said of its bytes. */
  datatype Result = Ok(bytes: seq<byte>) | ErrorDecode | ErrorFail | ErrorCrc | Outside

  const EMPTY := Cache(None, None, 0)

  /** The file in the output of its folder. Place and size are added as 64-bit words. */
  function Found(a: Archive, i: nat, buffer: Option<seq<byte>>, size: nat): Result
    requires ValidArchive(a) && i < |a.files| && a.files[i].folder.Some?
    requires buffer.Some? ==> |buffer.value| == size
    requires buffer.None? ==> size == 0
  {
    var f, place := a.files[i], Place(a, i);
    if Word64(place + f.size) > size then ErrorFail
    else if place + f.size > size then Outside
    else
      var bytes := if buffer.Some? then buffer.value[place..place + f.size] else [];
      if f.crc.Some? && a.crc(bytes) != f.crc.value then ErrorCrc else Ok(bytes)
  }

  lemma PlaceFits(a: Archive, i: nat)
    requires ValidArchive(a) && i < |a.files| && a.files[i].folder.Some?
    ensures Place(a, i) < TWO64
  {
    assert ValidFolder(a, i);
    var b := a.start[a.files[i].folder.value];
    OffsetFits(Sizes(a), b, i);
    assert (i - b) * (TWO32 - 1) <= TWO32 * (TWO32 - 1) by {
      Product(i - b, TWO32, TWO32 - 1);
    }
  }

  lemma Product(x: nat, y: nat, z: nat)
    requires x <= y
    ensures x * z <= y * z
  {
  }

  /** The test of the range is right if and only if the sum of place and size does not come out small again. */
  lemma RangeTest(a: Archive, i: nat, buffer: Option<seq<byte>>, size: nat)
    requires ValidArchive(a) && i < |a.files| && a.files[i].folder.Some? && size < TWO64
    requires buffer.Some? ==> |buffer.value| == size
    requires buffer.None? ==> size == 0
    ensures var sum := Place(a, i) + a.files[i].size;
            (Found(a, i, buffer, size) == ErrorFail <==> sum > size) <==> sum < TWO64 || sum - TWO64 > size
  {
    PlaceFits(a, i);
    var sum := Place(a, i) + a.files[i].size;
    if sum < TWO64 {
      DivUnique(sum, TWO64, 0, sum);
    } else {
      DivUnique(sum, TWO64, 1, sum - TWO64);
    }
  }

  /** A file is found just when its range is inside the buffer and the CRC, where there is one, is that of its bytes. */
  lemma FoundMeans(a: Archive, i: nat, buffer: seq<byte>)
    requires ValidArchive(a) && i < |a.files| && a.files[i].folder.Some? && |buffer| < TWO64
    ensures var r, f, place := Found(a, i, Some(buffer), |buffer|), a.files[i], Place(a, i);
            && (r.Ok? ==> place + f.size <= |buffer| && r.bytes == buffer[place..place + f.size])
            && (place + f.size <= |buffer| ==>
                  var good := f.crc.None? || a.crc(buffer[place..place + f.size]) == f.crc.value;
                  r == if good then Ok(buffer[place..place + f.size]) else ErrorCrc)
  {
    hide Place;
    RangeTest(a, i, Some(buffer), |buffer|);
    if Place(a, i) + a.files[i].size <= |buffer| {
      DivUnique(Place(a, i) + a.files[i].size, TWO64, 0, Place(a, i) + a.files[i].size);
    }
  }

  /** Where all files of a folder are inside its output, no call fails the test, and none goes outside. */
  lemma InsideFound(a: Archive, i: nat, b: nat, buffer: Option<seq<byte>>, size: nat)
    requires ValidArchive(a) && i < b <= |a.files| && a.files[i].folder.Some? && size < TWO64
    requires buffer.Some? ==> |buffer.value| == size
    requires buffer.None? ==> size == 0
    requires ValidFolder(a, i) && AllInside(Sizes(a), a.start[a.files[i].folder.value], b, size)
    ensures var r := Found(a, i, buffer, size);
            r.ErrorCrc? || (r.Ok? && |r.bytes| == a.files[i].size)
  {
    RangeTest(a, i, buffer, size);
  }

  /** So it is with every file of a complete folder whose given sizes do not exceed it. */
  lemma GivenFits(a: Archive, i: nat, x: Index, f: nat, n: nat, sizes: seq<nat>, given: seq<nat>,
                  buffer: Option<seq<byte>>, size: nat)
    requires ValidArchive(a) && SizedFolder(x, f, n, sizes, size, given) && Total(given) <= size
    requires Sizes(a) == FileSizes(x.hasStream, sizes) && a.start == x.start
    requires i < n <= |a.files| && a.files[i].folder == Some(f) && x.fileMap[i] == f
    requires buffer.Some? ==> |buffer.value| == size
    requires buffer.None? ==> size == 0
    ensures var r := Found(a, i, buffer, size);
            r.ErrorCrc? || (r.Ok? && |r.bytes| == a.files[i].size)
  {
    hide Found, Total, FileSizes;
    Inside(x, f, n, sizes, size, given);
    assert ValidFolder(a, i);
    InsideFound(a, i, x.finish[f], buffer, size);
  }

  /** A buffer holds what its folder came to, whether or not that was an error. */
  ghost predicate Reachable(a: Archive, c: Cache) {
    c.buffer.Some? ==>
      && c.block.Some? && c.block.value < |a.folders| && c.size == |c.buffer.value| > 0
      && c.buffer.value == Contents(a.folders[c.block.value])
  }

  /** It is what is left of a failure. */
  ghost predicate Spoiled(a: Archive, c: Cache) {
    c.buffer.Some? && c.block.Some? && c.block.value < |a.folders| && a.folders[c.block.value].Failed?
  }

  function Stored(d: Decoded): Option<seq<byte>> {
    if Contents(d) == [] then None else Some(Contents(d))
  }

  ghost function Step(a: Archive, c: Cache, i: nat): (r: (Cache, Result))
    requires ValidArchive(a) && Reachable(a, c) && i < |a.files|
    ensures Reachable(a, r.0)
  {
    assert ValidFolder(a, i);
    var f := a.files[i];
    if f.folder.None? then (EMPTY, Ok([]))
    else if c.buffer.Some? && c.block == f.folder then (c, Found(a, i, c.buffer, c.size))
    else
      var d := a.folders[f.folder.value];
      var c' := Cache(f.folder, Stored(d), |Contents(d)|);
      (c', if d.Failed? then ErrorDecode else Found(a, i, c'.buffer, c'.size))
  }

  /** The cache shows in a call if and only if it holds what is left of a failure of the very folder. */
  lemma CacheShows(a: Archive, c: Cache, i: nat)
    requires ValidArchive(a) && Reachable(a, c) && i < |a.files|
    ensures Step(a, c, i).1 == Step(a, EMPTY, i).1 <==> !(Spoiled(a, c) && c.block == a.files[i].folder)
  {
  }

  /** The results of a run of calls. */
  ghost function Results(a: Archive, c: Cache, calls: seq<nat>): (r: seq<Result>)
    requires ValidArchive(a) && Reachable(a, c) && forall k | 0 <= k < |calls| :: calls[k] < |a.files|
    ensures |r| == |calls|
    decreases |calls|
  {
    if calls == [] then []
    else
      var r := Step(a, c, calls[0]);
      [r.1] + Results(a, r.0, calls[1..])
  }

  /** As long as no folder has failed, every call of a run gives what it gives with an empty cache. */
  lemma {:induction false} Transparent(a: Archive, c: Cache, calls: seq<nat>, n: nat)
    requires ValidArchive(a) && Reachable(a, c) && !Spoiled(a, c)
    requires forall k | 0 <= k < |calls| :: calls[k] < |a.files|
    requires n < |calls| && forall k | 0 <= k < n :: Results(a, c, calls)[k] != ErrorDecode
    ensures Results(a, c, calls)[n] == Step(a, EMPTY, calls[n]).1
    decreases |calls|
  {
    var r := Step(a, c, calls[0]);
    CacheShows(a, c, calls[0]);
    if n > 0 {
      assert Results(a, c, calls)[0] == r.1;
      var rest := Results(a, r.0, calls[1..]);
      assert forall k | 0 <= k < n - 1 :: rest[k] == Results(a, c, calls)[k + 1];
      Transparent(a, r.0, calls[1..], n - 1);
    }
  }

  const ZERO := (s: seq<byte>) => 0

  /** After a failure the same call is answered from what is left in the buffer. */
  lemma FailureRemembered()
    ensures var a := Archive([File(Some(0), 1, None)], [Failed([7])], [0], ZERO);
            ValidArchive(a) && Results(a, EMPTY, [0, 0]) == [ErrorDecode, Ok([7])]
  {
    var a := Archive([File(Some(0), 1, None)], [Failed([7])], [0], ZERO);
    assert ValidFolder(a, 0);
    DivUnique(1, TWO64, 0, 1);
    var r := Step(a, EMPTY, 0);
    assert r == (Cache(Some(0), Some([7]), 1), ErrorDecode);
    assert [7][0..1] == [7];
    assert Step(a, r.0, 0) == (r.0, Ok([7]));
    assert Results(a, r.0, [0]) == [Ok([7])] + Results(a, r.0, []);
    assert [0, 0][1..] == [0];
  }

  /** A folder of 50 bytes for whose first file 100 are given. The second file is at 100 with 2^64 - 50 bytes, and the
      test lets it pass. */
  lemma SizeWraps(folder: seq<byte>)
    requires |folder| == 50
    ensures var s := SubSizes(50, [100]);
            var a := Archive([File(Some(0), s[0], None), File(Some(0), s[1], None)], [Output(folder)], [0], ZERO);
            ValidArchive(a) && Step(a, EMPTY, 0).1 == ErrorFail && Step(a, EMPTY, 1).1 == Outside
  {
    SubSizesExceed();
    var s := SubSizes(50, [100]);
    var a := Archive([File(Some(0), s[0], None), File(Some(0), s[1], None)], [Output(folder)], [0], ZERO);
    assert ValidFolder(a, 0) && ValidFolder(a, 1);
    DivUnique(100, TWO64, 0, 100);
    DivUnique(100, TWO32, 0, 100);
    DivUnique(TWO64 + 50, TWO64, 1, 50);
    assert Offset(Sizes(a), 0, 1) == Offset(Sizes(a), 0, 0) + 100;
  }

  class Extractor {
    const a: Archive
    var blockIndex: Option<nat>
    var outBuffer: Option<seq<byte>>
    var outBufferSize: nat

    ghost function C(): Cache
      reads this
    {
      Cache(blockIndex, outBuffer, outBufferSize)
    }

    constructor (a: Archive)
      ensures this.a == a && C() == EMPTY
    {
      this.a := a;
      blockIndex, outBuffer, outBufferSize := None, None, 0;
    }

    /** The loop that adds up the sizes before the file, as 64-bit words. */
    method FindPlace(fileIndex: nat) returns (offset: nat)
      requires ValidArchive(a) && fileIndex < |a.files| && a.files[fileIndex].folder.Some?
      ensures offset == Place(a, fileIndex)
    {
      hide Word64;
      assert ValidFolder(a, fileIndex);
      var first := a.start[a.files[fileIndex].folder.value];
      offset := 0;
      for i := first to fileIndex
        invariant offset == Offset(Sizes(a), first, i)
      {
        NoWrap(first, i);
        offset := Word64(offset + a.files[i].size % TWO32);
      }
    }

    lemma NoWrap(first: nat, i: nat)
      requires ValidArchive(a) && first <= i < |a.files|
      ensures Offset(Sizes(a), first, i + 1) == Word64(Offset(Sizes(a), first, i) + a.files[i].size % TWO32)
    {
      var sum := Offset(Sizes(a), first, i + 1);
      OffsetFits(Sizes(a), first, i + 1);
      Product(i + 1 - first, TWO32, TWO32 - 1);
      DivUnique(sum, TWO64, 0, sum);
    }

    /** SzArEx_Extract. */
    method Extract(fileIndex: nat) returns (r: Result)
      requires ValidArchive(a) && Reachable(a, C()) && fileIndex < |a.files|
      modifies this
      ensures Reachable(a, C()) && (C(), r) == Step(a, old(C()), fileIndex)
    {
      hide Place, Word64;
      assert ValidFolder(a, fileIndex);
      var f := a.files[fileIndex];
      if f.folder.None? {
        blockIndex, outBuffer, outBufferSize := None, None, 0;
        return Ok([]);
      }
      if outBuffer.None? || blockIndex != f.folder {
        var d := a.folders[f.folder.value];
        blockIndex, outBuffer := f.folder, None;
        outBufferSize := |Contents(d)|;
        if outBufferSize != 0 {
          outBuffer := Some(Contents(d));
        }
        if d.Failed? {
          return ErrorDecode;
        }
      }
      var offset := FindPlace(fileIndex);
      if Word64(offset + f.size) > outBufferSize {
        return ErrorFail;
      }
      if offset + f.size > outBufferSize {
        return Outside;
      }
      var bytes := if outBuffer.Some? then outBuffer.value[offset..offset + f.size] else [];
      if f.crc.Some? && a.crc(bytes) != f.crc.value {
        return ErrorCrc;
      }
      r := Ok(bytes);
    }
  }
}
