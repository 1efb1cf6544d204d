/** Folders of a 7z archive, read from the header by 7zIn.c: coders joined by bind pairs. */
module ArchiveFolders {
  import opened Words

  datatype Coder = Coder(methodId: seq<byte>, numIn: nat, numOut: nat, props: seq<byte>)

  datatype BindPair = BindPair(inIndex: nat, outIndex: nat)

  datatype Folder = Folder(coders: seq<Coder>, bindPairs: seq<BindPair>, packStreams: seq<nat>)

  const NUM_FOLDER_CODERS_MAX := 32
  const NUM_CODER_STREAMS_MAX := 32

  function NumIn(coders: seq<Coder>): nat {
    if coders == [] then 0 else NumIn(coders[..|coders| - 1]) + coders[|coders| - 1].numIn
  }

  function NumOut(coders: seq<Coder>): nat {
    if coders == [] then 0 else NumOut(coders[..|coders| - 1]) + coders[|coders| - 1].numOut
  }

  lemma NoCoders()
    ensures NumIn([]) == 0 && NumOut([]) == 0
  {
  }

  lemma OneCoder(coders: seq<Coder>, c: Coder)
    ensures NumIn(coders + [c]) == NumIn(coders) + c.numIn && NumOut(coders + [c]) == NumOut(coders) + c.numOut
  {
    assert (coders + [c])[..|coders|] == coders;
  }

  predicate InBound(pairs: seq<BindPair>, i: nat) {
    exists k | 0 <= k < |pairs| :: pairs[k].inIndex == i
  }

  predicate OutBound(pairs: seq<BindPair>, i: nat) {
    exists k | 0 <= k < |pairs| :: pairs[k].outIndex == i
  }

  // ----- The pigeonhole --------------------------------------------------------------------------------------

  /** Fewer values than numbers below n leave one out. */
  lemma {:induction false} Pigeonhole(used: seq<nat>, n: nat) returns (free: nat)
    requires |used| < n
    ensures free < n && free !in used
    decreases n, 0
  {
    free := n - 1;
    if n - 1 in used {
      var k :| 0 <= k < |used| && used[k] == n - 1;
      // One value is n - 1: the others are fewer than n - 1.
      free := PigeonholeFewer(used, n - 1, k);
    }
  }

  lemma {:induction false} PigeonholeFewer(used: seq<nat>, n: nat, k: nat) returns (free: nat)
    requires k < |used| <= n && used[k] == n
    ensures free < n && free !in used
    decreases n, 1
  {
    var others := used[..k] + used[k + 1..];
    free := Pigeonhole(others, n);
    forall j | 0 <= j < |used|
      ensures used[j] != free
    {
      assert j < k ==> others[j] == used[j];
      assert j > k ==> others[j - 1] == used[j];
    }
  }

  function OutIndices(pairs: seq<BindPair>): seq<nat> {
    seq(|pairs|, k requires 0 <= k < |pairs| => pairs[k].outIndex)
  }

  function InIndices(pairs: seq<BindPair>): seq<nat> {
    seq(|pairs|, k requires 0 <= k < |pairs| => pairs[k].inIndex)
  }

  /** One bind pair less than output streams leaves an output stream unbound; so for input streams. */
  lemma UnboundOut(pairs: seq<BindPair>, n: nat)
    requires |pairs| < n
    ensures exists i: nat :: i < n && !OutBound(pairs, i)
  {
    var free := Pigeonhole(OutIndices(pairs), n);
    assert !OutBound(pairs, free) by {
      assert forall k | 0 <= k < |pairs| :: OutIndices(pairs)[k] == pairs[k].outIndex;
    }
  }

  lemma UnboundIn(pairs: seq<BindPair>, n: nat)
    requires |pairs| < n
    ensures exists i: nat :: i < n && !InBound(pairs, i)
  {
    var free := Pigeonhole(InIndices(pairs), n);
    assert !InBound(pairs, free) by {
      assert forall k | 0 <= k < |pairs| :: InIndices(pairs)[k] == pairs[k].inIndex;
    }
  }

  /** SzFolder_FindBindPairForInStream. */
  method FindBindPairForInStream(pairs: seq<BindPair>, inStreamIndex: nat) returns (r: int)
    ensures r >= 0 ==> r < |pairs| && pairs[r].inIndex == inStreamIndex
    ensures r < 0 <==> !InBound(pairs, inStreamIndex)
  {
    for i := 0 to |pairs|
      invariant forall k | 0 <= k < i :: pairs[k].inIndex != inStreamIndex
    {
      if pairs[i].inIndex == inStreamIndex {
        return i;
      }
    }
    r := -1;
  }

  /** SzFolder_FindBindPairForOutStream. */
  method FindBindPairForOutStream(pairs: seq<BindPair>, outStreamIndex: nat) returns (r: int)
    ensures r >= 0 ==> r < |pairs| && pairs[r].outIndex == outStreamIndex
    ensures r < 0 <==> !OutBound(pairs, outStreamIndex)
  {
    for i := 0 to |pairs|
      invariant forall k | 0 <= k < i :: pairs[k].outIndex != outStreamIndex
    {
      if pairs[i].outIndex == outStreamIndex {
        return i;
      }
    }
    r := -1;
  }

  /** SzFolder_GetUnpackSize: the size of the last output stream that is not bound. In a folder with one bind pair
      less than output streams there is one, so that the search does not fall through. */
  method GetUnpackSize(f: Folder, unpackSizes: seq<nat>) returns (size: nat, ghost main: nat)
    requires NumOut(f.coders) <= |unpackSizes| && (NumOut(f.coders) > 0 ==> |f.bindPairs| < NumOut(f.coders))
    ensures NumOut(f.coders) == 0 ==> size == 0
    ensures NumOut(f.coders) > 0 ==>
      && main < NumOut(f.coders) && !OutBound(f.bindPairs, main) && size == unpackSizes[main]
      && forall i | main < i < NumOut(f.coders) :: OutBound(f.bindPairs, i)
  {
    var i: int := CountOut(f.coders);
    if i == 0 {
      return 0, 0;
    }
    UnboundOut(f.bindPairs, NumOut(f.coders));
    i := i - 1;
    while i >= 0
      invariant -1 <= i < NumOut(f.coders)
      invariant forall k | i < k < NumOut(f.coders) :: OutBound(f.bindPairs, k)
    {
      var r := FindBindPairForOutStream(f.bindPairs, i);
      if r < 0 {
        return unpackSizes[i], i;
      }
      i := i - 1;
    }
    assert false;
  }

  /** SzFolder_GetNumOutStreams. */
  method CountOut(coders: seq<Coder>) returns (n: nat)
    ensures n == NumOut(coders)
  {
    n := 0;
    for i := 0 to |coders|
      invariant n == NumOut(coders[..i])
    {
      assert coders[..i + 1][..i] == coders[..i];
      n := n + coders[i].numOut;
    }
    assert coders[..|coders|] == coders;
  }

  // ----- Reading -----------------------------------------------------------------------------------------------

  /** How many bytes follow the first byte of a number: its leading ones. */
  function Extra(first: byte): (k: nat)
    ensures k <= 8
  {
    if first < 0x80 then 0 else if first < 0xC0 then 1 else if first < 0xE0 then 2 else if first < 0xF0 then 3
    else if first < 0xF8 then 4 else if first < 0xFC then 5 else if first < 0xFE then 6 else if first < 0xFF then 7 else 8
  }

  /** The bit that is looked at after i bytes. */
  function Mask(i: nat): (m: nat)
    requires i < 8
    ensures 1 <= m <= 0x80
  {
    if i == 0 then 0x80 else if i == 1 then 0x40 else if i == 2 then 0x20 else if i == 3 then 0x10
    else if i == 4 then 8 else if i == 5 then 4 else if i == 6 then 2 else 1
  }

  function Shift(k: nat): (s: nat)
    ensures s > 0
  {
    if k == 0 then 1 else 0x100 * Shift(k - 1)
  }

  /** Least significant byte first. */
  function Little(b: seq<byte>): nat {
    if b == [] then 0 else Little(b[..|b| - 1]) + Shift(|b| - 1) * b[|b| - 1] as int
  }

  /** A number takes one byte and as many more as that says; the rest of the first byte is its high part. */
  function NumberAt(d: seq<byte>): Option<nat> {
    if d == [] || |d| <= Extra(d[0]) then None
    else
      var k := Extra(d[0]);
      Some(Little(d[1..k + 1]) + if k < 8 then Shift(k) * (d[0] as int % Mask(k)) else 0)
  }

  // ----- What bytes describe -----------------------------------------------------------------------------------

  /** A value and what follows it, if the bytes describe one. */
  datatype Parsed<T> = Broken | Parsed(value: T, rest: seq<byte>)

  function NumberIn(d: seq<byte>): Parsed<nat> {
    if NumberAt(d).None? then Broken else Parsed(NumberAt(d).value, d[1 + Extra(d[0])..])
  }

  /** A number below 2^31. */
  function SmallIn(d: seq<byte>): Parsed<nat> {
    var n := NumberIn(d);
    if n.Broken? || n.value >= 0x8000_0000 then Broken else n
  }

  function BytesIn(d: seq<byte>, n: nat): Parsed<seq<byte>> {
    if n <= |d| then Parsed(d[..n], d[n..]) else Broken
  }

  /** How many streams go into a coder, and then how many come out. */
  datatype Streams = Streams(numIn: nat, numOut: nat)

  function TwoSmallIn(d: seq<byte>): Parsed<Streams> {
    var a := SmallIn(d);
    if a.Broken? then Broken
    else
      var b := SmallIn(a.rest);
      if b.Broken? then Broken else Parsed(Streams(a.value, b.value), b.rest)
  }

  /** Flags in the first byte of a coder's description; its low digit is the length of the method's name. */
  predicate HasStreams(main: byte) {
    main as int / 0x10 % 2 == 1
  }

  predicate HasProps(main: byte) {
    main as int / 0x20 % 2 == 1
  }

  predicate HasMore(main: byte) {
    main >= 0x80
  }

  function StreamsIn(main: byte, d: seq<byte>): Parsed<Streams> {
    if HasStreams(main) then TwoSmallIn(d) else Parsed(Streams(1, 1), d)
  }

  function PropsIn(main: byte, d: seq<byte>): Parsed<seq<byte>> {
    if HasProps(main) then
      var n := NumberIn(d);
      if n.Broken? then Broken else BytesIn(n.rest, n.value)
    else Parsed([], d)
  }

  /** One description: name, streams, properties. */
  function DescriptionIn(main: byte, d: seq<byte>): Parsed<Coder>
  {
    var id := BytesIn(d, main as int % 0x10);
    if id.Broken? then Broken
    else
      var s := StreamsIn(main, id.rest);
      if s.Broken? then Broken
      else
        var p := PropsIn(main, s.rest);
        if p.Broken? then Broken else Parsed(Coder(id.value, s.value.numIn, s.value.numOut, p.value), p.rest)
  }

  lemma NumberShorter(d: seq<byte>)
    ensures NumberIn(d).Parsed? ==> |NumberIn(d).rest| < |d|
  {
    hide Little, Shift, Mask;
  }

  lemma StreamsShorter(main: byte, d: seq<byte>)
    requires StreamsIn(main, d).Parsed?
    ensures |StreamsIn(main, d).rest| <= |d|
  {
    hide NumberIn;
    if HasStreams(main) {
      NumberShorter(d);
      NumberShorter(SmallIn(d).rest);
    }
  }

  lemma PropsShorter(main: byte, d: seq<byte>)
    requires PropsIn(main, d).Parsed?
    ensures |PropsIn(main, d).rest| <= |d|
  {
    hide NumberIn;
    NumberShorter(d);
  }

  lemma DescriptionShorter(main: byte, d: seq<byte>)
    requires DescriptionIn(main, d).Parsed?
    ensures |DescriptionIn(main, d).rest| <= |d|
  {
    hide StreamsIn, PropsIn;
    var id := BytesIn(d, main as int % 0x10);
    StreamsShorter(main, id.rest);
    PropsShorter(main, StreamsIn(main, id.rest).rest);
  }

  /** Further descriptions of the same coder are passed over. */
  function AfterMore(main: byte, d: seq<byte>): Option<seq<byte>>
    decreases |d|
  {
    if !HasMore(main) then Some(d)
    else if d == [] then None
    else
      var c := DescriptionIn(d[0], d[1..]);
      if c.Broken? then None
      else
        DescriptionShorter(d[0], d[1..]);
        AfterMore(d[0], c.rest)
  }

  function CoderIn(d: seq<byte>): Parsed<Coder> {
    if d == [] then Broken
    else
      var c := DescriptionIn(d[0], d[1..]);
      if c.Broken? || |c.value.methodId| > 8 then Broken
      else if c.value.numIn > NUM_CODER_STREAMS_MAX || c.value.numOut > NUM_CODER_STREAMS_MAX then Broken
      else
        var rest := AfterMore(d[0], c.rest);
        if rest.None? then Broken else Parsed(c.value, rest.value)
  }

  function CodersIn(d: seq<byte>, n: nat): (r: Parsed<seq<Coder>>)
    ensures r.Parsed? ==> |r.value| == n
  {
    if n == 0 then Parsed([], d)
    else
      var r := CodersIn(d, n - 1);
      if r.Broken? then Broken
      else
        var c := CoderIn(r.rest);
        if c.Broken? then Broken else Parsed(r.value + [c.value], c.rest)
  }

  /** Bind pairs, the input stream of each before its output stream. */
  function PairsIn(d: seq<byte>, n: nat): (r: Parsed<seq<BindPair>>)
    ensures r.Parsed? ==> |r.value| == n
  {
    if n == 0 then Parsed([], d)
    else
      var r := PairsIn(d, n - 1);
      if r.Broken? then Broken
      else
        var p := TwoSmallIn(r.rest);
        if p.Broken? then Broken else Parsed(r.value + [BindPair(p.value.numIn, p.value.numOut)], p.rest)
  }

  function SmallsIn(d: seq<byte>, n: nat): (r: Parsed<seq<nat>>)
    ensures r.Parsed? ==> |r.value| == n
  {
    if n == 0 then Parsed([], d)
    else
      var r := SmallsIn(d, n - 1);
      if r.Broken? then Broken
      else
        var x := SmallIn(r.rest);
        if x.Broken? then Broken else Parsed(r.value + [x.value], x.rest)
  }

  /** The first input stream below n that is not bound, or n. */
  function FirstUnbound(pairs: seq<BindPair>, n: nat): (p: nat)
    ensures p <= n && (p < n ==> !InBound(pairs, p)) && forall q | 0 <= q < p :: InBound(pairs, q)
  {
    if n == 0 then 0
    else
      var p := FirstUnbound(pairs, n - 1);
      if p < n - 1 || !InBound(pairs, n - 1) then p else n
  }

  /** Pack streams are given unless there is just one, which is then the input stream that is not bound. */
  function PacksIn(d: seq<byte>, numIn: nat, pairs: seq<BindPair>): Parsed<seq<nat>>
    requires |pairs| <= numIn
  {
    if numIn - |pairs| == 1 then Parsed([FirstUnbound(pairs, numIn)], d) else SmallsIn(d, numIn - |pairs|)
  }

  function FolderIn(d: seq<byte>): Parsed<Folder> {
    var n := SmallIn(d);
    if n.Broken? || n.value > NUM_FOLDER_CODERS_MAX then Broken
    else
      var c := CodersIn(n.rest, n.value);
      if c.Broken? || NumOut(c.value) == 0 then Broken
      else
        var p := PairsIn(c.rest, NumOut(c.value) - 1);
        if p.Broken? || NumIn(c.value) < |p.value| then Broken
        else
          var s := PacksIn(p.rest, NumIn(c.value), p.value);
          if s.Broken? then Broken else Parsed(Folder(c.value, p.value, s.value), s.rest)
  }

  // ----- Reading it --------------------------------------------------------------------------------------------

  /** What is left of a header. */
  class SzData {
    var data: seq<byte>

    constructor (data: seq<byte>)
      ensures this.data == data
    {
      this.data := data;
    }

    method ReadByte() returns (ok: bool, b: byte)
      modifies this
      ensures ok == (old(data) != [])
      ensures if ok then b == old(data)[0] && data == old(data)[1..] else data == old(data)
    {
      ok, b := data != [], 0;
      if ok {
        b, data := data[0], data[1..];
      }
    }

    method ReadBytes(size: nat) returns (ok: bool, b: seq<byte>)
      modifies this
      ensures ok == (size <= |old(data)|)
      ensures ok ==> b == old(data)[..size] && data == old(data)[size..]
    {
      b := [];
      for i := 0 to size
        invariant i <= |old(data)| && b == old(data)[..i] && data == old(data)[i..]
      {
        var x;
        ok, x := ReadByte();
        if !ok {
          return;
        }
        b := b + [x];
      }
      ok := true;
    }

    method SkipDataSize(size: nat) returns (ok: bool)
      modifies this
      ensures ok == (size <= |old(data)|)
      ensures data == if ok then old(data)[size..] else old(data)
    {
      ok := size <= |data|;
      if ok {
        data := data[size..];
      }
    }

    /** SzReadNumber. */
    method ReadNumber() returns (ok: bool, value: nat)
      modifies this
      ensures ok == NumberAt(old(data)).Some?
      ensures ok ==> value == NumberAt(old(data)).value && data == old(data)[1 + Extra(old(data)[0])..]
      ensures |data| <= |old(data)|
    {
      hide Mask, Extra, Shift, Little, NumberAt;
      ghost var d := data;
      LittleNone();
      NumberNone();
      var firstByte;
      value := 0;
      ok, firstByte := ReadByte();
      if !ok {
        return;
      }
      assert d[1..1] == [];
      for i := 0 to 8
        invariant |d| > i && data == d[1 + i..] && Extra(firstByte) >= i && value == Little(d[1..1 + i])
      {
        MaskTest(firstByte, i);
        NumberStep(d, i);
        var mask := Mask(i);
        if firstByte as int / mask % 2 == 0 {
          value := value + Shift(i) * (firstByte as int % mask);
          return;
        }
        var b;
        ok, b := ReadByte();
        if !ok {
          return;
        }
        LittleMore(d, i);
        value := value + Shift(i) * b as int;
      }
      NumberStep(d, 8);
    }

    lemma LittleNone()
      ensures Little([]) == 0
    {
    }

    lemma NumberNone()
      ensures NumberAt([]).None?
    {
    }

    lemma LittleMore(d: seq<byte>, i: nat)
      requires 1 + i < |d|
      ensures Little(d[1..2 + i]) == Little(d[1..1 + i]) + Shift(i) * d[1 + i] as int
    {
      hide Shift;
      assert d[1..2 + i][..i] == d[1..1 + i];
    }

    /** What is known after i further bytes. */
    lemma NumberStep(d: seq<byte>, i: nat)
      requires i < |d| && Extra(d[0]) >= i
      ensures Extra(d[0]) > i && |d| == 1 + i ==> NumberAt(d).None?
      ensures Extra(d[0]) == i < 8 ==> NumberAt(d) == Some(Little(d[1..1 + i]) + Shift(i) * (d[0] as int % Mask(i)))
      ensures Extra(d[0]) == i == 8 ==> NumberAt(d) == Some(Little(d[1..1 + i]))
    {
      hide Extra, Mask, Shift, Little;
    }

    /** SzReadNumber32. */
    method ReadNumber32() returns (ok: bool, value: nat)
      modifies this
      ensures ok == (NumberAt(old(data)).Some? && NumberAt(old(data)).value < 0x8000_0000)
      ensures ok ==> value == NumberAt(old(data)).value && data == old(data)[1 + Extra(old(data)[0])..]
      ensures |data| <= |old(data)|
    {
      ok, value := ReadNumber();
      ok := ok && value < 0x8000_0000;
    }

    // ----- Folders -------------------------------------------------------------------------------------------

    method ReadTwo32() returns (ok: bool, s: Streams)
      modifies this
      ensures ok == TwoSmallIn(old(data)).Parsed?
      ensures ok ==> TwoSmallIn(old(data)) == Parsed(s, data)
    {
      hide NumberAt, Extra;
      var a, b := 0, 0;
      ok, a := ReadNumber32();
      if ok {
        ok, b := ReadNumber32();
      }
      s := Streams(a, b);
    }

    method ReadStreams(main: byte) returns (ok: bool, s: Streams)
      modifies this
      ensures ok == StreamsIn(main, old(data)).Parsed?
      ensures ok ==> StreamsIn(main, old(data)) == Parsed(s, data)
    {
      hide TwoSmallIn;
      ok, s := true, Streams(1, 1);
      if main as int / 0x10 % 2 == 1 {
        ok, s := ReadTwo32();
      }
    }

    method ReadProps(main: byte) returns (ok: bool, props: seq<byte>)
      modifies this
      ensures ok == PropsIn(main, old(data)).Parsed?
      ensures ok ==> PropsIn(main, old(data)) == Parsed(props, data)
    {
      hide NumberAt, Extra;
      ok, props := true, [];
      if main as int / 0x20 % 2 == 1 {
        var propertiesSize;
        ok, propertiesSize := ReadNumber();
        if ok {
          ok, props := ReadBytes(propertiesSize);
        }
      }
    }

    /** A further description: the bytes of its name and properties are not kept. */
    method SkipDescription(main: byte) returns (ok: bool)
      modifies this
      ensures ok == DescriptionIn(main, old(data)).Parsed?
      ensures ok ==> DescriptionIn(main, old(data)).rest == data
    {
      hide StreamsIn, PropsIn;
      ok := SkipDataSize(main as int % 0x10);
      if !ok {
        return;
      }
      var s;
      ok, s := ReadStreams(main);
      if !ok {
        return;
      }
      ok := SkipProps(main);
    }

    method SkipProps(main: byte) returns (ok: bool)
      modifies this
      ensures ok == PropsIn(main, old(data)).Parsed?
      ensures ok ==> PropsIn(main, old(data)).rest == data
    {
      hide NumberAt, Extra;
      ok := true;
      if main as int / 0x20 % 2 == 1 {
        var propertiesSize;
        ok, propertiesSize := ReadNumber();
        if ok {
          ok := SkipDataSize(propertiesSize);
        }
      }
    }

    /** The optional parts of a coder, for each further description that is given and skipped. */
    method SkipAlternatives(mainByte0: byte) returns (ok: bool)
      modifies this
      ensures ok == AfterMore(mainByte0, old(data)).Some?
      ensures ok ==> AfterMore(mainByte0, old(data)) == Some(data)
    {
      hide DescriptionIn;
      var mainByte := mainByte0;
      while mainByte >= 0x80
        invariant AfterMore(mainByte, data) == AfterMore(mainByte0, old(data))
        decreases |data|
      {
        ghost var d := data;
        ok, mainByte := ReadByte();
        if !ok {
          return;
        }
        ok := SkipDescription(mainByte);
        if !ok {
          return;
        }
        DescriptionShorter(d[0], d[1..]);
      }
      ok := true;
    }

    method ReadCoder() returns (ok: bool, coder: Coder)
      modifies this
      ensures ok == CoderIn(old(data)).Parsed?
      ensures ok ==> CoderIn(old(data)) == Parsed(coder, data)
    {
      hide StreamsIn, PropsIn, AfterMore;
      var mainByte, id;
      coder := Coder([], 0, 0, []);
      ok, mainByte := ReadByte();
      if !ok {
        return;
      }
      ok, id := ReadBytes(mainByte as int % 0x10);
      if !ok || |id| > 8 {
        return false, coder;
      }
      var s;
      ok, s := ReadStreams(mainByte);
      if !ok || s.numIn > NUM_CODER_STREAMS_MAX || s.numOut > NUM_CODER_STREAMS_MAX {
        return false, coder;
      }
      var props;
      ok, props := ReadProps(mainByte);
      if !ok {
        return;
      }
      coder := Coder(id, s.numIn, s.numOut, props);
      ok := SkipAlternatives(mainByte);
    }

    method ReadCoders(n: nat) returns (ok: bool, coders: seq<Coder>, numInStreams: nat, numOutStreams: nat)
      modifies this
      ensures ok == CodersIn(old(data), n).Parsed?
      ensures ok ==> CodersIn(old(data), n) == Parsed(coders, data)
      ensures ok ==> numInStreams == NumIn(coders) && numOutStreams == NumOut(coders)
    {
      hide CoderIn, NumIn, NumOut;
      NoCoders();
      coders, numInStreams, numOutStreams := [], 0, 0;
      for i := 0 to n
        invariant CodersIn(old(data), i) == Parsed(coders, data)
        invariant numInStreams == NumIn(coders) && numOutStreams == NumOut(coders)
      {
        var coder;
        ok, coder := ReadCoder();
        if !ok {
          CodersBroken(old(data), i + 1, n);
          return;
        }
        OneCoder(coders, coder);
        coders := coders + [coder];
        numInStreams, numOutStreams := numInStreams + coder.numIn, numOutStreams + coder.numOut;
      }
      ok := true;
    }

    method ReadBindPairs(n: nat) returns (ok: bool, pairs: seq<BindPair>)
      modifies this
      ensures ok == PairsIn(old(data), n).Parsed?
      ensures ok ==> PairsIn(old(data), n) == Parsed(pairs, data)
    {
      hide TwoSmallIn;
      pairs := [];
      for i := 0 to n
        invariant PairsIn(old(data), i) == Parsed(pairs, data)
      {
        var s;
        ok, s := ReadTwo32();
        if !ok {
          PairsBroken(old(data), i + 1, n);
          return;
        }
        pairs := pairs + [BindPair(s.numIn, s.numOut)];
      }
      ok := true;
    }

    /** SzGetNextFolderItem: reads the folder that the bytes describe, and fails exactly when they describe none. The search
        for the one pack stream always finds an input stream. */
    method GetNextFolderItem() returns (ok: bool, folder: Folder)
      modifies this
      ensures ok == FolderIn(old(data)).Parsed?
      ensures ok ==> FolderIn(old(data)) == Parsed(folder, data) && Accepted(folder)
    {
      hide CodersIn, PairsIn, PacksIn, NumberAt, Extra, NumIn, NumOut;
      ghost var d := data;
      folder := Folder([], [], []);
      var numCoders;
      ok, numCoders := ReadNumber32();
      if !ok || numCoders > NUM_FOLDER_CODERS_MAX {
        return false, folder;
      }
      var coders, numInStreams, numOutStreams;
      ok, coders, numInStreams, numOutStreams := ReadCoders(numCoders);
      if !ok || numOutStreams == 0 {
        return false, folder;
      }
      var pairs;
      ok, pairs := ReadBindPairs(numOutStreams - 1);
      if !ok || numInStreams < |pairs| {
        return false, folder;
      }
      var packStreams;
      ok, packStreams := ReadPackStreams(numInStreams, pairs);
      folder := Folder(coders, pairs, packStreams);
      if ok {
        FolderAccepted(d);
      }
    }

    method ReadPackStreams(numInStreams: nat, pairs: seq<BindPair>) returns (ok: bool, packStreams: seq<nat>)
      requires |pairs| <= numInStreams
      modifies this
      ensures ok == PacksIn(old(data), numInStreams, pairs).Parsed?
      ensures ok ==> PacksIn(old(data), numInStreams, pairs) == Parsed(packStreams, data)
    {
      hide NumberAt, Extra, SmallIn;
      var numPackStreams := numInStreams - |pairs|;
      packStreams := [];
      if numPackStreams == 1 {
        UnboundIn(pairs, numInStreams);
        for i := 0 to numInStreams
          invariant data == old(data) && forall k | 0 <= k < i :: InBound(pairs, k)
        {
          var r := FindBindPairForInStream(pairs, i);
          if r < 0 {
            FirstIs(pairs, numInStreams, i);
            return true, [i];
          }
        }
        assert false;
      }
      for i := 0 to numPackStreams
        invariant SmallsIn(old(data), i) == Parsed(packStreams, data)
      {
        var x;
        ok, x := ReadOne32();
        if !ok {
          SmallsBroken(old(data), i + 1, numPackStreams);
          return;
        }
        packStreams := packStreams + [x];
      }
      ok := true;
    }

    method ReadOne32() returns (ok: bool, x: nat)
      modifies this
      ensures ok == SmallIn(old(data)).Parsed?
      ensures ok ==> SmallIn(old(data)) == Parsed(x, data)
    {
      hide NumberAt, Extra;
      ok, x := ReadNumber32();
    }
  }

  lemma FirstIs(pairs: seq<BindPair>, n: nat, i: nat)
    requires i < n && !InBound(pairs, i) && forall k | 0 <= k < i :: InBound(pairs, k)
    ensures FirstUnbound(pairs, n) == i
  {
    hide InBound, FirstUnbound;
    var p := FirstUnbound(pairs, n);
  }

  lemma {:induction false} CodersBroken(d: seq<byte>, m: nat, n: nat)
    requires m <= n && CodersIn(d, m).Broken?
    ensures CodersIn(d, n).Broken?
  {
    hide CoderIn;
    if m < n {
      CodersBroken(d, m, n - 1);
    }
  }

  lemma {:induction false} PairsBroken(d: seq<byte>, m: nat, n: nat)
    requires m <= n && PairsIn(d, m).Broken?
    ensures PairsIn(d, n).Broken?
  {
    hide TwoSmallIn;
    if m < n {
      PairsBroken(d, m, n - 1);
    }
  }

  lemma {:induction false} SmallsBroken(d: seq<byte>, m: nat, n: nat)
    requires m <= n && SmallsIn(d, m).Broken?
    ensures SmallsIn(d, n).Broken?
  {
    hide SmallIn;
    if m < n {
      SmallsBroken(d, m, n - 1);
    }
  }

  lemma {:induction false} CodersSmall(d: seq<byte>, n: nat)
    requires CodersIn(d, n).Parsed?
    ensures forall c | c in CodersIn(d, n).value :: c.numIn <= NUM_CODER_STREAMS_MAX && c.numOut <= NUM_CODER_STREAMS_MAX
  {
    hide DescriptionIn, AfterMore;
    if n > 0 {
      CodersSmall(d, n - 1);
    }
  }

  /** What is read is connected as it should be. */
  lemma FolderAccepted(d: seq<byte>)
    requires FolderIn(d).Parsed?
    ensures Accepted(FolderIn(d).value)
  {
    hide CodersIn, PairsIn, SmallsIn, SmallIn, NumIn, NumOut;
    var n := SmallIn(d);
    var c := CodersIn(n.rest, n.value);
    var p := PairsIn(c.rest, NumOut(c.value) - 1);
    CodersSmall(n.rest, n.value);
    var f := FolderIn(d).value;
    assert f.coders == c.value && f.bindPairs == p.value;
    if NumIn(c.value) == |p.value| + 1 {
      UnboundIn(p.value, NumIn(c.value));
      assert f.packStreams == [FirstUnbound(p.value, NumIn(c.value))];
    }
  }

  /** What is known of a folder that has been read. */
  ghost predicate Accepted(f: Folder) {
    && |f.coders| <= NUM_FOLDER_CODERS_MAX
    && (forall c | c in f.coders :: c.numIn <= NUM_CODER_STREAMS_MAX && c.numOut <= NUM_CODER_STREAMS_MAX)
    && 0 < NumOut(f.coders) && |f.bindPairs| == NumOut(f.coders) - 1
    && |f.packStreams| + |f.bindPairs| == NumIn(f.coders)
    && (|f.packStreams| == 1 ==> f.packStreams[0] < NumIn(f.coders) && !InBound(f.bindPairs, f.packStreams[0]))
  }

  lemma MaskTest(first: byte, i: nat)
    requires i < 8 && Extra(first) >= i
    ensures first as int / Mask(i) % 2 == 0 <==> Extra(first) == i
  {
  }
}
