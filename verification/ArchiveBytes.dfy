/** Folders written down: what is read of them is what was written. */
module ArchiveBytes {
  import opened Words
  import opened ArchiveFolders

  // ----- Numbers ---------------------------------------------------------------------------------------------

  /** k bytes, least significant first. */
  function Bytes(v: nat, k: nat): (b: seq<byte>)
    ensures |b| == k
  {
    if k == 0 then [] else Bytes(v, k - 1) + [v / Shift(k - 1) % 0x100]
  }

  lemma {:induction false} BytesBelow(v: nat, k: nat)
    ensures Little(Bytes(v, k)) == v % Shift(k)
    decreases k
  {
    hide Little;
    if k == 0 {
      LittleNone();
    } else {
      BytesBelow(v, k - 1);
      var s, b := Shift(k - 1), Bytes(v, k);
      assert b[..k - 1] == Bytes(v, k - 1);
      LittleLast(b);
      NextByte(v, s);
    }
  }

  lemma LittleNone()
    ensures Little([]) == 0
  {
  }

  lemma LittleLast(b: seq<byte>)
    requires b != []
    ensures Little(b) == Little(b[..|b| - 1]) + Shift(|b| - 1) * b[|b| - 1] as int
  {
  }

  lemma NextByte(v: nat, s: nat)
    requires s > 0
    ensures v % (0x100 * s) == v % s + s * (v / s % 0x100)
  {
    var q, r := v / s, v % s;
    assert v == s * q + r && q == 0x100 * (q / 0x100) + q % 0x100;
    assert s * q == s * (0x100 * (q / 0x100)) + s * (q % 0x100);
    assert s * (0x100 * (q / 0x100)) == 0x100 * s * (q / 0x100);
    Within(s, q % 0x100, r);
    DivUnique(v, 0x100 * s, q / 0x100, s * (q % 0x100) + r);
  }

  lemma Within(s: nat, q: nat, r: nat)
    requires q < 0x100 && r < s
    ensures s * q + r < 0x100 * s
  {
    assert s * q <= s * 0xFF;
  }

  /** The first byte with k leading ones. */
  function Ones(k: nat): byte
    requires k <= 8
  {
    if k == 8 then 0xFF else 0x100 - 2 * Mask(k)
  }

  /** A number that k bytes and what is left of the first one have room for. */
  predicate Roomy(v: nat, k: nat) {
    k <= 8 && if k < 8 then v / Shift(k) < Mask(k) else v < Shift(8)
  }

  function Form(v: nat, k: nat): (b: seq<byte>)
    requires Roomy(v, k)
    ensures |b| == k + 1
  {
    [Ones(k) + if k < 8 then v / Shift(k) else 0] + Bytes(v, k)
  }

  lemma FirstByte(k: nat, high: nat)
    requires k <= 8 && (if k < 8 then high < Mask(k) else high == 0)
    ensures Extra(Ones(k) + high) == k && (k < 8 ==> (Ones(k) + high) % Mask(k) == high)
  {
    if k < 8 {
      DivUnique(Ones(k) + high, Mask(k), Ones(k) as int / Mask(k), high);
    }
  }

  /** A number is read back from every form that has room for it. */
  lemma NumberRead(v: nat, k: nat, rest: seq<byte>)
    requires Roomy(v, k)
    ensures NumberIn(Form(v, k) + rest) == Parsed(v, rest)
  {
    hide Little, Shift, Bytes, Ones, Mask, Extra, NumberAt;
    var d, high := Form(v, k) + rest, if k < 8 then v / Shift(k) else 0;
    FirstByte(k, high);
    assert d[0] == Ones(k) + high && d[1..k + 1] == Bytes(v, k) && d[k + 1..] == rest;
    BytesBelow(v, k);
    NumberIs(d, k, high);
    Parts(v, k);
  }

  lemma NumberIs(d: seq<byte>, k: nat, high: nat)
    requires |d| > k && Extra(d[0]) == k && (if k < 8 then d[0] as int % Mask(k) == high else high == 0)
    ensures NumberAt(d) == Some(Little(d[1..k + 1]) + Shift(k) * high)
  {
    hide Little, Shift, Mask, Extra;
  }

  lemma Parts(v: nat, k: nat)
    requires Roomy(v, k)
    ensures v % Shift(k) + Shift(k) * (if k < 8 then v / Shift(k) else 0) == v
  {
    hide Shift, Mask;
    if k == 8 {
      DivUnique(v, Shift(8), 0, v);
    }
  }

  /** The form that is written here. */
  function Number(v: word): (r: seq<byte>)
    ensures |r| == 5
  {
    WordRoomy(v);
    Form(v, 4)
  }

  lemma WordRoomy(v: word)
    ensures Roomy(v, 4)
  {
    assert Shift(0) == 1;
    assert Shift(1) == 0x100;
    assert Shift(2) == 0x1_0000;
    assert Shift(3) == 0x100_0000;
    assert Shift(4) == TWO32;
  }

  lemma WordRead(v: word, rest: seq<byte>)
    ensures NumberIn(Number(v) + rest) == Parsed(v, rest)
  {
    WordRoomy(v);
    NumberRead(v, 4, rest);
  }

  lemma SmallRead(v: word, rest: seq<byte>)
    requires v < 0x8000_0000
    ensures SmallIn(Number(v) + rest) == Parsed(v, rest)
  {
    hide NumberIn, Number;
    WordRead(v, rest);
  }

  lemma TwoRead(a: word, b: word, rest: seq<byte>)
    requires a < 0x8000_0000 && b < 0x8000_0000
    ensures TwoSmallIn(Number(a) + Number(b) + rest) == Parsed(Streams(a, b), rest)
  {
    hide SmallIn, Number;
    assert Number(a) + Number(b) + rest == Number(a) + (Number(b) + rest);
    SmallRead(a, Number(b) + rest);
    SmallRead(b, rest);
  }

  lemma BytesRead(s: seq<byte>, rest: seq<byte>)
    ensures BytesIn(s + rest, |s|) == Parsed(s, rest)
  {
  }

  // ----- Coders ----------------------------------------------------------------------------------------------

  /** A coder, and whether its stream counts and its properties are written out. */
  datatype Description = Description(coder: Coder, streams: bool, props: bool)

  predicate Writable(d: Description) {
    var c := d.coder;
    && |c.methodId| <= 15 && |c.props| < TWO32 && Small(c.numIn) && Small(c.numOut)
    && (!d.streams ==> c.numIn == 1 && c.numOut == 1) && (!d.props ==> c.props == [])
  }

  function MainByte(d: Description, more: bool): byte
    requires Writable(d)
  {
    (if more then 0x80 else 0) + (if d.props then 0x20 else 0) + (if d.streams then 0x10 else 0) + |d.coder.methodId|
  }

  function Written(d: Description): seq<byte>
    requires Writable(d)
  {
    var c := d.coder;
    c.methodId + ((if d.streams then Number(c.numIn) + Number(c.numOut) else [])
                  + if d.props then Number(|c.props|) + c.props else [])
  }

  lemma MainFlags(d: Description, more: bool)
    requires Writable(d)
    ensures var m := MainByte(d, more);
            HasStreams(m) == d.streams && HasProps(m) == d.props && HasMore(m) == more && m as int % 0x10 == |d.coder.methodId|
  {
    var n, s, p := |d.coder.methodId|, if d.streams then 1 else 0, if d.props then 1 else 0;
    var q := if more then 4 else 0;
    DivUnique(MainByte(d, more), 0x10, 2 * q + 2 * p + s, n);
    DivUnique(MainByte(d, more), 0x20, q + p, 0x10 * s + n);
  }

  lemma StreamsRead(d: Description, more: bool, rest: seq<byte>)
    requires Writable(d)
    ensures StreamsIn(MainByte(d, more), (if d.streams then Number(d.coder.numIn) + Number(d.coder.numOut) else []) + rest)
         == Parsed(Streams(d.coder.numIn, d.coder.numOut), rest)
  {
    hide TwoSmallIn, Number, MainByte, HasStreams;
    MainFlags(d, more);
    if d.streams {
      TwoRead(d.coder.numIn, d.coder.numOut, rest);
    } else {
      assert [] + rest == rest;
    }
  }

  lemma PropsRead(d: Description, more: bool, rest: seq<byte>)
    requires Writable(d)
    ensures PropsIn(MainByte(d, more), (if d.props then Number(|d.coder.props|) + d.coder.props else []) + rest)
         == Parsed(d.coder.props, rest)
  {
    hide NumberIn, Number, MainByte, HasProps, BytesIn;
    MainFlags(d, more);
    var p := d.coder.props;
    if d.props {
      assert Number(|p|) + p + rest == Number(|p|) + (p + rest);
      WordRead(|p|, p + rest);
      BytesRead(p, rest);
    } else {
      assert [] + rest == rest;
    }
  }

  lemma DescriptionRead(d: Description, more: bool, rest: seq<byte>)
    requires Writable(d)
    ensures DescriptionIn(MainByte(d, more), Written(d) + rest) == Parsed(d.coder, rest)
  {
    hide Number, MainByte, BytesIn, StreamsIn, PropsIn;
    MainFlags(d, more);
    var c := d.coder;
    var s := if d.streams then Number(c.numIn) + Number(c.numOut) else [];
    var p := if d.props then Number(|c.props|) + c.props else [];
    assert Written(d) + rest == c.methodId + (s + (p + rest));
    BytesRead(c.methodId, s + (p + rest));
    StreamsRead(d, more, p + rest);
    PropsRead(d, more, rest);
  }

  /** Alternatives, each of which says whether another follows. */
  function Others(s: seq<Description>): seq<byte>
    requires forall d | d in s :: Writable(d)
  {
    if s == [] then [] else [MainByte(s[0], |s| > 1)] + Written(s[0]) + Others(s[1..])
  }

  lemma {:induction false} OthersSkipped(main: byte, s: seq<Description>, rest: seq<byte>)
    requires (forall d | d in s :: Writable(d)) && HasMore(main) == (s != [])
    ensures AfterMore(main, Others(s) + rest) == Some(rest)
    decreases |s|
  {
    hide DescriptionIn, MainByte, Written, Writable, HasMore;
    var d := Others(s) + rest;
    if s == [] {
      assert d == rest;
    } else {
      var next := MainByte(s[0], |s| > 1);
      assert d == [next] + (Written(s[0]) + (Others(s[1..]) + rest));
      assert d[0] == next && d[1..] == Written(s[0]) + (Others(s[1..]) + rest);
      MainFlags(s[0], |s| > 1);
      DescriptionRead(s[0], |s| > 1, Others(s[1..]) + rest);
      OthersSkipped(next, s[1..], rest);
    }
  }

  /** A coder as the header has it: its description, and alternatives to it. */
  datatype Entry = Entry(first: Description, others: seq<Description>)

  predicate WritableEntry(e: Entry) {
    && Writable(e.first) && (forall d | d in e.others :: Writable(d)) && |e.first.coder.methodId| <= 8
    && e.first.coder.numIn <= NUM_CODER_STREAMS_MAX && e.first.coder.numOut <= NUM_CODER_STREAMS_MAX
  }

  function CoderBytes(e: Entry): seq<byte>
    requires WritableEntry(e)
  {
    [MainByte(e.first, e.others != [])] + Written(e.first) + Others(e.others)
  }

  lemma CoderRead(e: Entry, rest: seq<byte>)
    requires WritableEntry(e)
    ensures CoderIn(CoderBytes(e) + rest) == Parsed(e.first.coder, rest)
  {
    hide DescriptionIn, AfterMore, MainByte, Written, Others, Writable, HasMore;
    var d, main := CoderBytes(e) + rest, MainByte(e.first, e.others != []);
    assert d == [main] + (Written(e.first) + (Others(e.others) + rest));
    assert d[0] == main && d[1..] == Written(e.first) + (Others(e.others) + rest);
    MainFlags(e.first, e.others != []);
    DescriptionRead(e.first, e.others != [], Others(e.others) + rest);
    OthersSkipped(main, e.others, rest);
  }

  // ----- Folders ---------------------------------------------------------------------------------------------

  function CodersOf(s: seq<Entry>): (c: seq<Coder>)
    ensures |c| == |s|
  {
    if s == [] then [] else CodersOf(s[..|s| - 1]) + [s[|s| - 1].first.coder]
  }

  function CodersBytes(s: seq<Entry>): seq<byte>
    requires forall e | e in s :: WritableEntry(e)
  {
    if s == [] then [] else CodersBytes(s[..|s| - 1]) + CoderBytes(s[|s| - 1])
  }

  lemma {:induction false} CodersRead(s: seq<Entry>, rest: seq<byte>)
    requires forall e | e in s :: WritableEntry(e)
    ensures CodersIn(CodersBytes(s) + rest, |s|) == Parsed(CodersOf(s), rest)
    decreases |s|
  {
    hide CoderIn, CoderBytes, WritableEntry;
    if s == [] {
      assert CodersBytes(s) + rest == rest;
    } else {
      var n := |s| - 1;
      var last := CoderBytes(s[n]) + rest;
      assert CodersBytes(s) + rest == CodersBytes(s[..n]) + last;
      CodersRead(s[..n], last);
      CoderRead(s[n], rest);
    }
  }

  predicate SmallPair(p: BindPair) {
    p.inIndex < 0x8000_0000 && p.outIndex < 0x8000_0000
  }

  /** The input stream of a pair comes first. */
  function PairsBytes(s: seq<BindPair>): seq<byte>
    requires forall p | p in s :: SmallPair(p)
  {
    if s == [] then []
    else
      var p := s[|s| - 1];
      assert SmallPair(p);
      PairsBytes(s[..|s| - 1]) + (Number(p.inIndex) + Number(p.outIndex))
  }

  lemma {:induction false} PairsRead(s: seq<BindPair>, rest: seq<byte>)
    requires forall p | p in s :: SmallPair(p)
    ensures PairsIn(PairsBytes(s) + rest, |s|) == Parsed(s, rest)
    decreases |s|
  {
    hide TwoSmallIn, Number;
    if s == [] {
      assert PairsBytes(s) + rest == rest;
    } else {
      var n := |s| - 1;
      assert SmallPair(s[n]);
      var last := Number(s[n].inIndex) + Number(s[n].outIndex) + rest;
      assert PairsBytes(s) + rest == PairsBytes(s[..n]) + last;
      PairsRead(s[..n], last);
      TwoRead(s[n].inIndex, s[n].outIndex, rest);
      assert s[..n] + [s[n]] == s;
    }
  }

  predicate Small(x: nat) {
    x < 0x8000_0000
  }

  function SmallsBytes(s: seq<nat>): seq<byte>
    requires forall x | x in s :: Small(x)
  {
    if s == [] then []
    else
      assert Small(s[|s| - 1]);
      SmallsBytes(s[..|s| - 1]) + Number(s[|s| - 1])
  }

  lemma {:induction false} SmallsRead(s: seq<nat>, rest: seq<byte>)
    requires forall x | x in s :: Small(x)
    ensures SmallsIn(SmallsBytes(s) + rest, |s|) == Parsed(s, rest)
    decreases |s|
  {
    hide SmallIn, Number;
    if s == [] {
      assert SmallsBytes(s) + rest == rest;
    } else {
      var n := |s| - 1;
      assert Small(s[n]);
      var last := Number(s[n]) + rest;
      assert SmallsBytes(s) + rest == SmallsBytes(s[..n]) + last;
      SmallsRead(s[..n], last);
      SmallRead(s[n], rest);
      assert s[..n] + [s[n]] == s;
    }
  }

  /** A folder that may be accepted, with its one pack stream, if it has just one, where it belongs. */
  ghost predicate WritableFolder(f: Folder, entries: seq<Entry>) {
    && Accepted(f) && f.coders == CodersOf(entries) && (forall e | e in entries :: WritableEntry(e))
    && (forall p | p in f.bindPairs :: SmallPair(p)) && (forall x | x in f.packStreams :: Small(x))
    && (|f.packStreams| == 1 ==> f.packStreams[0] == FirstUnbound(f.bindPairs, NumIn(f.coders)))
  }

  ghost function FolderBytes(f: Folder, entries: seq<Entry>): seq<byte>
    requires WritableFolder(f, entries)
  {
    Number(|f.coders|) + (CodersBytes(entries)
      + (PairsBytes(f.bindPairs) + if |f.packStreams| == 1 then [] else SmallsBytes(f.packStreams)))
  }

  /** Reading gives back what was written, and what follows it. */
  lemma FolderRead(f: Folder, entries: seq<Entry>, rest: seq<byte>)
    requires WritableFolder(f, entries)
    ensures FolderIn(FolderBytes(f, entries) + rest) == Parsed(f, rest)
  {
    hide SmallIn, CodersIn, PairsIn, SmallsIn, Number, CodersBytes, PairsBytes, SmallsBytes, NumIn, NumOut, FirstUnbound;
    var last := if |f.packStreams| == 1 then [] else SmallsBytes(f.packStreams);
    var pairs := PairsBytes(f.bindPairs) + last;
    assert FolderBytes(f, entries) + rest == Number(|f.coders|) + (CodersBytes(entries) + (pairs + rest));
    SmallRead(|f.coders|, CodersBytes(entries) + (pairs + rest));
    CodersRead(entries, pairs + rest);
    assert pairs + rest == PairsBytes(f.bindPairs) + (last + rest);
    PairsRead(f.bindPairs, last + rest);
    if |f.packStreams| == 1 {
      assert last + rest == rest && f.packStreams == [f.packStreams[0]];
    } else {
      SmallsRead(f.packStreams, rest);
    }
  }

  // ----- An ordinary folder ----------------------------------------------------------------------------------

  /** LZMA behind the x86 filter, as it is usually written: the filter's input is the decoder's output. */
  const LZMA_NAME: seq<byte> := [3, 1, 1]
  const BCJ_NAME: seq<byte> := [3, 3, 1, 3]
  const LZMA_PROPS: seq<byte> := [0x5D, 0, 0, 0x10, 0]
  const BOTH: seq<byte> := [2] + ([0x23] + LZMA_NAME + [5] + LZMA_PROPS) + ([4] + BCJ_NAME) + [1, 0]

  lemma OneByte(x: byte, rest: seq<byte>)
    requires x < 0x80
    ensures NumberIn([x] + rest) == Parsed(x, rest) && SmallIn([x] + rest) == Parsed(x, rest)
  {
    var d := [x] + rest;
    assert d[1..1] == [] && Little([]) == 0 && d[1..] == rest;
    DivUnique(x, 0x80, 0, x);
  }

  lemma FilterCoders(rest: seq<byte>)
    ensures CoderIn([0x23] + LZMA_NAME + [5] + LZMA_PROPS + rest) == Parsed(Coder(LZMA_NAME, 1, 1, LZMA_PROPS), rest)
    ensures CoderIn([4] + BCJ_NAME + rest) == Parsed(Coder(BCJ_NAME, 1, 1, []), rest)
  {
    hide NumberIn;
    var d := LZMA_NAME + [5] + LZMA_PROPS + rest;
    assert [0x23] + LZMA_NAME + [5] + LZMA_PROPS + rest == [0x23] + d;
    assert ([0x23] + d)[1..] == d && d[3..] == [5] + (LZMA_PROPS + rest) && d[..3] == LZMA_NAME;
    OneByte(5, LZMA_PROPS + rest);
    BytesRead(LZMA_PROPS, rest);
    var e := BCJ_NAME + rest;
    assert [4] + BCJ_NAME + rest == [4] + e && ([4] + e)[1..] == e && e[4..] == rest && e[..4] == BCJ_NAME;
    assert 0x23 % 0x10 == 3 && 0x23 / 0x10 % 2 == 0 && 0x23 / 0x20 % 2 == 1;
    assert 4 % 0x10 == 4 && 4 / 0x10 % 2 == 0 && 4 / 0x20 % 2 == 0;
  }

  /** Input stream 1 is bound to output stream 0, so that the packed data is input stream 0. */
  lemma OrdinaryFolder()
    ensures var coders := [Coder(LZMA_NAME, 1, 1, LZMA_PROPS), Coder(BCJ_NAME, 1, 1, [])];
            FolderIn(BOTH) == Parsed(Folder(coders, [BindPair(1, 0)], [0]), [])
  {
    hide CoderIn, SmallIn, NumberIn;
    var a, b, pairs := [0x23] + LZMA_NAME + [5] + LZMA_PROPS, [4] + BCJ_NAME, [1, 0];
    var x, y := Coder(LZMA_NAME, 1, 1, LZMA_PROPS), Coder(BCJ_NAME, 1, 1, []);
    assert BOTH == [2] + (a + (b + pairs)) && b + pairs == b + pairs;
    OneByte(2, a + (b + pairs));
    FilterCoders(b + pairs);
    FilterCoders(pairs);
    var d := a + (b + pairs);
    assert [] + [x] == [x] && [x] + [y] == [x, y] && [] + [BindPair(1, 0)] == [BindPair(1, 0)];
    assert CodersIn(d, 0) == Parsed([], d);
    assert CodersIn(d, 1) == Parsed([x], b + pairs);
    assert CodersIn(d, 2) == Parsed([x, y], pairs);
    OneByte(1, [0]);
    OneByte(0, []);
    assert [1] + [0] == pairs && [0] + [] == [0];
    assert PairsIn(pairs, 0) == Parsed([], pairs);
    assert PairsIn(pairs, 1) == Parsed([BindPair(1, 0)], []);
    TwoStreams(x, y);
    OneUnbound();
  }

  lemma TwoStreams(x: Coder, y: Coder)
    requires x.numIn == 1 && x.numOut == 1 && y.numIn == 1 && y.numOut == 1
    ensures NumIn([x, y]) == 2 && NumOut([x, y]) == 2
  {
    assert [x, y][..1] == [x] && [x][..0] == [];
    assert NumIn([x]) == 1 && NumOut([x]) == 1;
  }

  lemma OneUnbound()
    ensures FirstUnbound([BindPair(1, 0)], 2) == 0
  {
    assert !InBound([BindPair(1, 0)], 0);
    FirstIs([BindPair(1, 0)], 2, 0);
  }
}
