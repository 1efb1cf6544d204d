/** Files and folders of a 7z archive: which folder a file is in. */
module ArchiveFiles {
  import opened Words

  // ----- Files and folders -----------------------------------------------------------------------------------

  /** How many of the first n files have a stream. */
  function Count(hasStream: seq<bool>, n: nat): nat
    requires n <= |hasStream|
  {
    if n == 0 then 0 else Count(hasStream, n - 1) + if hasStream[n - 1] then 1 else 0
  }

  /** How many streams the first n folders have. */
  function SumTo(numUnpack: seq<nat>, n: nat): nat
    requires n <= |numUnpack|
  {
    if n == 0 then 0 else SumTo(numUnpack, n - 1) + numUnpack[n - 1]
  }

  lemma {:induction false} SumGrows(numUnpack: seq<nat>, m: nat, n: nat)
    requires m <= n <= |numUnpack|
    ensures SumTo(numUnpack, m) <= SumTo(numUnpack, n)
  {
    if m < n {
      SumGrows(numUnpack, m, n - 1);
    }
  }

  lemma {:induction false} CountGrows(hasStream: seq<bool>, m: nat, n: nat)
    requires m <= n <= |hasStream|
    ensures Count(hasStream, m) <= Count(hasStream, n)
  {
    if m < n {
      CountGrows(hasStream, m, n - 1);
    }
  }

  datatype Index = Index(numUnpack: seq<nat>, hasStream: seq<bool>, start: seq<nat>, finish: seq<nat>, fileMap: seq<int>)

  predicate Sized(x: Index) {
    |x.start| == |x.finish| == |x.numUnpack| && |x.fileMap| == |x.hasStream|
  }

  /** The files of folder f are one range, which begins where the streams of the folders before are used up, and ends
      with the last of its own streams. */
  ghost predicate Complete(x: Index, f: nat, i: nat)
    requires Sized(x) && f < |x.numUnpack| && i <= |x.fileMap|
  {
    if x.numUnpack[f] == 0 then forall j | 0 <= j < i :: x.fileMap[j] != f
    else
      && x.start[f] < x.finish[f] <= i
      && (forall j | 0 <= j < i :: x.fileMap[j] == f <==> x.start[f] <= j < x.finish[f])
      && Count(x.hasStream, x.start[f]) == SumTo(x.numUnpack, f)
      && Count(x.hasStream, x.finish[f]) == SumTo(x.numUnpack, f + 1)
  }

  /** A folder whose first files have been seen. */
  ghost predicate Open(x: Index, f: nat, index: nat, i: nat)
    requires Sized(x) && i <= |x.fileMap|
  {
    index > 0 ==>
      && f < |x.numUnpack| && index < x.numUnpack[f] && x.start[f] < i
      && (forall j | 0 <= j < i :: x.fileMap[j] == f <==> x.start[f] <= j)
      && Count(x.hasStream, x.start[f]) == SumTo(x.numUnpack, f)
  }

  /** After i files: folders below `folder` are complete, and `index` streams of that one have been seen. */
  ghost predicate Filled(x: Index, i: nat, folder: nat, index: nat) {
    && Sized(x) && i <= |x.fileMap| && folder <= |x.numUnpack|
    && (forall j | 0 <= j < i :: -1 <= x.fileMap[j] <= folder && (x.fileMap[j] == folder ==> index > 0))
    && (forall j | 0 <= j < i :: x.fileMap[j] == -1 ==> !x.hasStream[j])
    && (forall f: nat | f < folder :: Complete(x, f, i))
    && Open(x, folder, index, i) && Count(x.hasStream, i) == SumTo(x.numUnpack, folder) + index
  }

  lemma CompleteOn(x: Index, y: Index, f: nat, i: nat)
    requires Sized(x) && f < |x.numUnpack| && i < |x.fileMap| && Complete(x, f, i) && Sized(y)
    requires y.numUnpack == x.numUnpack && y.hasStream == x.hasStream && |y.fileMap| == |x.fileMap|
    requires y.start[f] == x.start[f] && y.finish[f] == x.finish[f]
    requires y.fileMap[..i] == x.fileMap[..i] && y.fileMap[i] != f
    ensures Complete(y, f, i + 1)
  {
    assert forall j | 0 <= j < i :: y.fileMap[j] == x.fileMap[j] by {
      assert forall j | 0 <= j < i :: y.fileMap[j] == y.fileMap[..i][j] && x.fileMap[j] == x.fileMap[..i][j];
    }
  }

  /** A file without a stream, between folders. */
  lemma EmptyBetween(x: Index, i: nat, folder: nat)
    requires Filled(x, i, folder, 0) && i < |x.fileMap| && !x.hasStream[i]
    ensures Filled(x.(fileMap := x.fileMap[i := -1]), i + 1, folder, 0)
  {
    var y, n := x.(fileMap := x.fileMap[i := -1]), i + 1;
    forall f: nat | f < folder
      ensures Complete(y, f, n)
    {
      CompleteOn(x, y, f, i);
    }
  }

  /** A folder without streams is passed over. */
  lemma EmptyFolder(x: Index, i: nat, folder: nat)
    requires Filled(x, i, folder, 0) && folder < |x.numUnpack| && x.numUnpack[folder] == 0
    ensures Filled(x.(start := x.start[folder := i]), i, folder + 1, 0)
  {
    var y := x.(start := x.start[folder := i]);
    forall f: nat | f < folder + 1
      ensures Complete(y, f, i)
    {
      if f < folder {
        assert Complete(x, f, i);
      }
    }
  }

  /** A file without a stream, within a folder. */
  lemma EmptyWithin(x: Index, i: nat, folder: nat, index: nat)
    requires Filled(x, i, folder, index) && index > 0 && i < |x.fileMap| && !x.hasStream[i]
    ensures Filled(x.(fileMap := x.fileMap[i := folder]), i + 1, folder, index)
  {
    var y, n := x.(fileMap := x.fileMap[i := folder]), i + 1;
    forall f: nat | f < folder
      ensures Complete(y, f, n)
    {
      CompleteOn(x, y, f, i);
    }
  }

  /** A file with a stream, which begins a folder or goes on with one. */
  ghost predicate TakesStream(x: Index, i: nat, folder: nat, index: nat) {
    && Filled(x, i, folder, index) && i < |x.fileMap| && x.hasStream[i] && folder < |x.numUnpack| && x.numUnpack[folder] > 0
    && (index == 0 ==> x.start[folder] == i)
  }

  lemma StreamOpen(x: Index, i: nat, folder: nat, index: nat)
    requires TakesStream(x, i, folder, index) && index + 1 < x.numUnpack[folder]
    ensures Filled(x.(fileMap := x.fileMap[i := folder]), i + 1, folder, index + 1)
  {
    var y, n := x.(fileMap := x.fileMap[i := folder]), i + 1;
    forall f: nat | f < folder
      ensures Complete(y, f, n)
    {
      CompleteOn(x, y, f, i);
    }
  }

  lemma StreamCloses(x: Index, i: nat, folder: nat, index: nat)
    requires TakesStream(x, i, folder, index) && index + 1 == x.numUnpack[folder]
    ensures Filled(x.(fileMap := x.fileMap[i := folder], finish := x.finish[folder := i + 1]), i + 1, folder + 1, 0)
  {
    var y, n := x.(fileMap := x.fileMap[i := folder], finish := x.finish[folder := i + 1]), i + 1;
    forall f: nat | f < folder + 1
      ensures Complete(y, f, n)
    {
      if f < folder {
        CompleteOn(x, y, f, i);
      }
    }
  }

  /** A new folder begins at file i. */
  lemma Begins(x: Index, i: nat, folder: nat)
    requires Filled(x, i, folder, 0) && folder < |x.numUnpack|
    ensures Filled(x.(start := x.start[folder := i]), i, folder, 0)
  {
    var y := x.(start := x.start[folder := i]);
    forall f: nat | f < folder
      ensures Complete(y, f, i)
    {
      assert Complete(x, f, i);
    }
  }

  class Filler {
    const numUnpack: seq<nat>
    const hasStream: seq<bool>
    const start: array<nat>
    const fileMap: array<int>
    ghost var finish: seq<nat>

    ghost function X(): Index
      reads this, start, fileMap
    {
      Index(numUnpack, hasStream, start[..], finish, fileMap[..])
    }

    constructor (numUnpack: seq<nat>, hasStream: seq<bool>)
      ensures this.numUnpack == numUnpack && this.hasStream == hasStream
      ensures fresh(start) && fresh(fileMap) && Sized(X())
    {
      this.numUnpack, this.hasStream := numUnpack, hasStream;
      start, fileMap := new nat[|numUnpack|](i => 0), new int[|hasStream|](i => -1);
      finish := seq(|numUnpack|, i => 0);
    }

    /** The loop that looks for a folder with streams; it fails when there is none left. */
    method NextFolder(i: nat, folder0: nat) returns (ok: bool, folder: nat)
      requires Filled(X(), i, folder0, 0)
      modifies start
      ensures ok ==> folder < |numUnpack| && numUnpack[folder] > 0 && Filled(X(), i, folder, 0) && start[folder] == i
      ensures !ok ==> Count(hasStream, i) == SumTo(numUnpack, |numUnpack|)
    {
      hide Filled, Count, SumTo;
      folder := folder0;
      while true
        invariant Filled(X(), i, folder, 0)
        decreases |numUnpack| - folder
      {
        Bounds(i, folder, 0);
        if folder >= |numUnpack| {
          return false, folder;
        }
        ghost var x := X();
        Begins(x, i, folder);
        start[folder] := i;
        assert start[..] == x.start[folder := i];
        if numUnpack[folder] != 0 {
          return true, folder;
        }
        EmptyFolder(x, i, folder);
        folder := folder + 1;
      }
    }

    lemma Bounds(i: nat, folder: nat, index: nat)
      requires Filled(X(), i, folder, index)
      ensures folder <= |numUnpack| && i <= |hasStream| && start.Length == |numUnpack| && fileMap.Length == |hasStream|
      ensures Count(hasStream, i) == SumTo(numUnpack, folder) + index
      ensures index > 0 ==> folder < |numUnpack| && index < numUnpack[folder]
    {
    }

    /** One file. */
    method FillOne(i: nat, folder0: nat, index0: nat) returns (ok: bool, folder: nat, index: nat)
      requires Filled(X(), i, folder0, index0) && i < |hasStream|
      modifies start, fileMap, `finish
      ensures ok ==> Filled(X(), i + 1, folder, index)
      ensures !ok ==> SumTo(numUnpack, |numUnpack|) < Count(hasStream, i + 1)
    {
      hide Filled, SumTo;
      ok, folder, index := true, folder0, index0;
      Bounds(i, folder, index);
      var emptyStream := !hasStream[i];
      if emptyStream && index == 0 {
        EmptyBetween(X(), i, folder);
        Put(i, -1);
        return;
      }
      if index == 0 {
        ok, folder := NextFolder(i, folder);
        if !ok {
          return;
        }
        Bounds(i, folder, index);
      }
      ghost var x := X();
      if emptyStream {
        EmptyWithin(x, i, folder, index);
        Put(i, folder);
        return;
      }
      Takes(i, folder, index);
      Put(i, folder);
      index := index + 1;
      if index >= numUnpack[folder] {
        StreamCloses(x, i, folder, index - 1);
        finish := finish[folder := i + 1];
        folder, index := folder + 1, 0;
      } else {
        StreamOpen(x, i, folder, index - 1);
      }
    }

    method Put(i: nat, f: int)
      requires i < fileMap.Length
      modifies fileMap
      ensures fileMap[..] == old(fileMap[..])[i := f]
    {
      fileMap[i] := f;
    }

    lemma Takes(i: nat, folder: nat, index: nat)
      requires Filled(X(), i, folder, index) && i < |hasStream| && hasStream[i] && folder < |numUnpack| && numUnpack[folder] > 0
      requires folder < start.Length && (index == 0 ==> start[folder] == i)
      ensures TakesStream(X(), i, folder, index) && |finish| == |numUnpack|
    {
    }

    /** The loop over the files in SzArEx_Fill: it fails exactly when more files have streams than the folders do. */
    method Fill() returns (ok: bool, folder: nat, index: nat)
      requires Sized(X())
      modifies start, fileMap, `finish
      ensures ok <==> Count(hasStream, |hasStream|) <= SumTo(numUnpack, |numUnpack|)
      ensures ok ==> Filled(X(), |hasStream|, folder, index)
    {
      hide Filled, Count, SumTo;
      folder, index := 0, 0;
      NothingFilled();
      for i := 0 to |hasStream|
        invariant Filled(X(), i, folder, index)
      {
        ok, folder, index := FillOne(i, folder, index);
        if !ok {
          CountGrows(hasStream, i + 1, |hasStream|);
          return;
        }
      }
      ok := true;
      Bounds(|hasStream|, folder, index);
      if index > 0 {
        SumMore(folder);
        SumGrows(numUnpack, folder + 1, |numUnpack|);
      } else {
        SumGrows(numUnpack, folder, |numUnpack|);
      }
    }

    lemma NothingFilled()
      requires Sized(X())
      ensures Filled(X(), 0, 0, 0)
    {
    }

    lemma SumMore(f: nat)
      requires f < |numUnpack|
      ensures SumTo(numUnpack, f + 1) == SumTo(numUnpack, f) + numUnpack[f]
    {
    }
  }
}
