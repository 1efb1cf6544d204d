/**
  CRC-32 as in section 8 of RFC 1952. `Crc` takes the message one bit at a time; the tables and the loops that take
  four bytes at a time are shown to compute it, for both byte orders. All of it rests on one fact: a step of the
  register is linear over exclusive or.
*/
module Crc {

  // ----- Words ---------------------------------------------------------------------------------------------

  // The operations are functions so that most proofs can be about their laws, not about bits.

  function Xor(x: bv32, y: bv32): bv32 {
    x ^ y
  }

  function Half(x: bv32): bv32 {
    x >> 1
  }

  predicate Odd(x: bv32) {
    x & 1 == 1
  }

  function Low(x: bv32): bv32 {
    x & 0xFF
  }

  function Down(x: bv32): bv32 {
    x >> 8
  }

  function Up(x: bv32): bv32 {
    x << 8
  }

  lemma XorComm(x: bv32, y: bv32)
    ensures Xor(x, y) == Xor(y, x)
  {
  }

  lemma XorAssoc(x: bv32, y: bv32, z: bv32)
    ensures Xor(Xor(x, y), z) == Xor(x, Xor(y, z))
  {
  }

  lemma XorSelf(x: bv32)
    ensures Xor(x, x) == 0 && Xor(x, 0) == x && Xor(0, x) == x
  {
  }

  lemma XorTwice(p: bv32, x: bv32, y: bv32)
    ensures Xor(Xor(p, x), Xor(p, y)) == Xor(x, y)
    ensures Xor(Xor(p, x), y) == Xor(p, Xor(x, y)) && Xor(x, Xor(p, y)) == Xor(p, Xor(x, y))
  {
    hide Xor;
    XorComm(p, x);
    XorAssoc(x, p, Xor(p, y));
    XorAssoc(p, p, y);
    XorSelf(p);
    XorSelf(y);
    XorAssoc(p, x, y);
    XorAssoc(x, p, y);
  }

  lemma XorParts(x: bv32, y: bv32)
    ensures Half(Xor(x, y)) == Xor(Half(x), Half(y))
    ensures Odd(Xor(x, y)) <==> Odd(x) != Odd(y)
  {
    assert (x ^ y) & 1 == (x & 1) ^ (y & 1);
    assert (x & 1 == 0 || x & 1 == 1) && (y & 1 == 0 || y & 1 == 1);
  }

  // ----- The register --------------------------------------------------------------------------------------

  const POLY: bv32 := 0xEDB8_8320

  /** One bit of the message has been added at the low end: divide once. */
  function Bit(r: bv32): bv32 {
    if Odd(r) then Xor(POLY, Half(r)) else Half(r)
  }

  function Bits(r: bv32, n: nat): bv32
    decreases n
  {
    if n == 0 then r else Bits(Bit(r), n - 1)
  }

  function Step(v: bv32, b: bv8): bv32 {
    Bits(Xor(v, b as bv32), 8)
  }

  /** The register after a message. */
  function Crc(v: bv32, data: seq<bv8>): bv32
    decreases |data|
  {
    if data == [] then v else Crc(Step(v, data[0]), data[1..])
  }

  /** The message is one byte, the letter a. */
  lemma OfOneLetter()
    ensures Xor(Crc(0xFFFF_FFFF, [0x61]), 0xFFFF_FFFF) == 0xE8B7_BE43
  {
    var r: bv32 := 0xFFFF_FF9E;
    assert Xor(0xFFFF_FFFF, 0x61 as bv32) == r;
    assert Bits(r, 8) == 0x1748_41BC;
  }

  lemma {:induction false} CrcJoins(v: bv32, data: seq<bv8>, more: seq<bv8>)
    ensures Crc(v, data + more) == Crc(Crc(v, data), more)
    decreases |data|
  {
    hide Step;
    if data == [] {
      assert data + more == more;
    } else {
      assert (data + more)[1..] == data[1..] + more;
      CrcJoins(Step(v, data[0]), data[1..], more);
    }
  }

  lemma BitLinear(x: bv32, y: bv32)
    ensures Bit(Xor(x, y)) == Xor(Bit(x), Bit(y))
  {
    hide Xor, Half, Odd;
    XorParts(x, y);
    XorTwice(POLY, Half(x), Half(y));
  }

  lemma {:induction false} BitsLinear(x: bv32, y: bv32, n: nat)
    ensures Bits(Xor(x, y), n) == Xor(Bits(x, n), Bits(y, n))
    decreases n
  {
    hide Bit, Xor;
    if n > 0 {
      BitLinear(x, y);
      BitsLinear(Bit(x), Bit(y), n - 1);
    }
  }

  lemma {:induction false} BitsSum(x: bv32, m: nat, n: nat)
    ensures Bits(Bits(x, m), n) == Bits(x, m + n)
    decreases m
  {
    hide Bit;
    if m > 0 {
      BitsSum(Bit(x), m - 1, n);
    }
  }

  function XorByte(x: bv8, y: bv8): bv8 {
    x ^ y
  }

  function Mixed(a: seq<bv8>, b: seq<bv8>): seq<bv8>
    requires |a| == |b|
  {
    seq(|a|, i requires 0 <= i < |a| => XorByte(a[i], b[i]))
  }

  lemma MixedByte(v: bv32, u: bv32, x: bv8, y: bv8)
    ensures Xor(Xor(v, u), XorByte(x, y) as bv32) == Xor(Xor(v, x as bv32), Xor(u, y as bv32))
  {
    hide Xor, XorByte;
    XorOfBytes(x, y);
    XorAssoc(v, u, Xor(x as bv32, y as bv32));
    XorTwice(x as bv32, u, y as bv32);
    XorAssoc(v, x as bv32, Xor(u, y as bv32));
  }

  lemma XorOfBytes(x: bv8, y: bv8)
    ensures XorByte(x, y) as bv32 == Xor(x as bv32, y as bv32)
  {
  }

  /** The register is linear in its start and the message together: what a change of the message does to it depends
      on the change alone. */
  lemma {:induction false} CrcLinear(v: bv32, a: seq<bv8>, u: bv32, b: seq<bv8>)
    requires |a| == |b|
    ensures Crc(Xor(v, u), Mixed(a, b)) == Xor(Crc(v, a), Crc(u, b))
    decreases |a|
  {
    hide Xor, Bits, XorByte;
    if a != [] {
      assert Mixed(a, b)[1..] == Mixed(a[1..], b[1..]);
      MixedByte(v, u, a[0], b[0]);
      BitsLinear(Xor(v, a[0] as bv32), Xor(u, b[0] as bv32), 8);
      CrcLinear(Step(v, a[0]), a[1..], Step(u, b[0]), b[1..]);
    }
  }

  // ----- Eight bits at a time ------------------------------------------------------------------------------

  function Halves(v: bv32, n: nat): bv32
    decreases n
  {
    if n == 0 then v else Halves(Half(v), n - 1)
  }

  /** The n low bits are clear. */
  predicate Zeros(v: bv32, n: nat)
    decreases n
  {
    n > 0 ==> !Odd(v) && Zeros(Half(v), n - 1)
  }

  lemma {:induction false} ZerosShift(v: bv32, n: nat)
    requires Zeros(v, n)
    ensures Bits(v, n) == Halves(v, n)
    decreases n
  {
    hide Odd, Half;
    if n > 0 {
      ZerosShift(Half(v), n - 1);
    }
  }

  lemma ClearByte(v: bv32)
    requires Low(v) == 0
    ensures Zeros(v, 8)
  {
    assert v & 1 == 0;
    assert (v >> 1) & 1 == 0;
    assert ((v >> 1) >> 1) & 1 == 0;
    assert (((v >> 1) >> 1) >> 1) & 1 == 0;
    assert ((((v >> 1) >> 1) >> 1) >> 1) & 1 == 0;
    assert (((((v >> 1) >> 1) >> 1) >> 1) >> 1) & 1 == 0;
    assert ((((((v >> 1) >> 1) >> 1) >> 1) >> 1) >> 1) & 1 == 0;
    assert (((((((v >> 1) >> 1) >> 1) >> 1) >> 1) >> 1) >> 1) & 1 == 0;
    assert Zeros(((((v >> 1) >> 1) >> 1) >> 1), 4);
  }

  lemma Shifts(v: bv32)
    ensures Half(v) == v >> 1 && Half(v >> 1) == v >> 2 && Half(v >> 2) == v >> 3 && Half(v >> 3) == v >> 4
    ensures Half(v >> 4) == v >> 5 && Half(v >> 5) == v >> 6 && Half(v >> 6) == v >> 7 && Half(v >> 7) == Down(v)
  {
  }

  lemma EightHalves(v: bv32)
    ensures Halves(v, 8) == Down(v)
  {
    hide Half, Down;
    Shifts(v);
    assert Halves(v, 8) == Halves(v >> 4, 4);
  }

  function High(x: bv32): bv32 {
    x & 0xFFFF_FF00
  }

  lemma HighClear(v: bv32)
    ensures Low(High(v)) == 0
  {
    assert (v & 0xFFFF_FF00) & 0xFF == v & (0xFFFF_FF00 & 0xFF);
  }

  lemma HighDown(v: bv32)
    ensures Down(High(v)) == Down(v)
  {
  }

  lemma HighLow(v: bv32)
    ensures Xor(Low(v), High(v)) == v
  {
  }

  /** Only the low byte meets the polynomial. */
  lemma OnByte(v: bv32)
    ensures Bits(v, 8) == Xor(Bits(Low(v), 8), Down(v))
  {
    hide Xor, Low, Down, High, Bits;
    var rest := High(v);
    HighClear(v);
    HighDown(v);
    HighLow(v);
    ClearByte(rest);
    ZerosShift(rest, 8);
    EightHalves(rest);
    BitsLinear(Low(v), rest, 8);
  }

  lemma OnByteOn(v: bv32, n: nat)
    ensures Bits(v, n + 8) == Xor(Bits(Low(v), n + 8), Bits(Down(v), n))
  {
    hide Xor, Low, Down, Bits;
    OnByte(v);
    BitsSum(v, 8, n);
    BitsSum(Low(v), 8, n);
    BitsLinear(Bits(Low(v), 8), Down(v), n);
  }

  // ----- Tables --------------------------------------------------------------------------------------------

  function LowByte(v: bv32): bv8 {
    (v & 0xFF) as bv8
  }

  function Byte1(v: bv32): bv8 {
    LowByte(v >> 8)
  }

  function Byte2(v: bv32): bv8 {
    LowByte(v >> 16)
  }

  function Byte3(v: bv32): bv8 {
    LowByte(v >> 24)
  }

  lemma LowByteLow(v: bv32)
    ensures LowByte(v) as bv32 == Low(v)
  {
  }

  function Index(b: bv8): (i: nat)
    ensures i < 0x100
  {
    b as int
  }

  function Place(row: nat, b: bv8): nat {
    0x100 * row + Index(b)
  }

  function Entry(table: seq<bv32>, row: nat, b: bv8): bv32
    requires 0x100 * row + 0x100 <= |table|
  {
    table[Place(row, b)]
  }

  /** The slicing tables, up to entry n: row k is for a byte with k bytes after it. */
  ghost predicate Filled(table: seq<bv32>, n: nat) {
    forall k: nat, b: bv8 | 0x100 * k + 0x100 <= |table| && Place(k, b) < n ::
      Entry(table, k, b) == Bits(b as bv32, 8 * k + 8)
  }

  lemma ByteBefore(b: bv8)
    requires b != 0
    ensures Index(b - 1) == Index(b) - 1 && (b - 1) as bv32 == b as bv32 - 1
  {
  }

  lemma BitOfSource(r: bv32)
    ensures (r >> 1) ^ (POLY & !((r & 1) - 1)) == Bit(r)
  {
    if r & 1 == 1 {
      assert !((r & 1) - 1) == 0xFFFF_FFFF;
      assert POLY & 0xFFFF_FFFF == POLY;
      assert (r >> 1) ^ POLY == POLY ^ (r >> 1);
    } else {
      assert r & 1 == 0;
      assert !((r & 1) - 1) == 0;
    }
  }

  method EightBits(i: bv32) returns (r: bv32)
    ensures r == Bits(i, 8)
  {
    hide Bit;
    r := i;
    for j := 0 to 8
      invariant Bits(r, 8 - j) == Bits(i, 8)
    {
      BitOfSource(r);
      r := (r >> 1) ^ (POLY & !((r & 1) - 1));
    }
  }

  /** The byte of value i, as a word. */
  ghost predicate Counts(w: bv32, i: nat) {
    forall b: bv8 :: Index(b) == i ==> b as bv32 == w
  }

  lemma CountsOn(w: bv32, i: nat)
    requires Counts(w, i)
    ensures Counts(w + 1, i + 1)
  {
    forall b: bv8 | Index(b) == i + 1
      ensures b as bv32 == w + 1
    {
      ByteBefore(b);
      assert Index(b - 1) == i;
    }
  }

  /** The next entry. */
  lemma FilledOn(table: seq<bv32>, n: nat, r: bv32)
    requires Filled(table, n) && n < |table| && |table| % 0x100 == 0
    requires forall k: nat, b: bv8 | Place(k, b) == n :: r == Bits(b as bv32, 8 * k + 8)
    ensures Filled(table[n := r], n + 1)
  {
    hide Bits;
    var table' := table[n := r];
    forall k: nat, b: bv8 | 0x100 * k + 0x100 <= |table'| && Place(k, b) < n + 1
      ensures Entry(table', k, b) == Bits(b as bv32, 8 * k + 8)
    {
      if Place(k, b) < n {
        assert Entry(table', k, b) == Entry(table, k, b);
      }
    }
  }

  method FirstRow(table: array<bv32>)
    requires table.Length >= 0x100 && table.Length % 0x100 == 0
    modifies table
    ensures Filled(table[..], 0x100)
  {
    hide Bits;
    var w: bv32 := 0;
    assert Counts(0, 0);
    for i := 0 to 0x100
      invariant Filled(table[..], i) && Counts(w, i)
    {
      ghost var before := table[..];
      var r := EightBits(w);
      table[i] := r;
      FilledOn(before, i, r);
      CountsOn(w, i);
      assert table[..] == before[i := r];
      w := w + 1;
    }
  }

  lemma FirstPlace(b: bv8)
    ensures Place(0, b) == Index(b)
  {
    hide Index;
  }

  /** CRC_UPDATE_BYTE_2, apart from the message byte. */
  method TableStep(table: array<bv32>, x: bv32, v: bv32) returns (r: bv32)
    requires table.Length >= 0x100
    ensures r == Xor(Entry(table[..], 0, LowByte(x)), Down(v))
  {
    hide LowByte, Index;
    var b := LowByte(x);
    FirstPlace(b);
    r := Xor(table[Index(b)], v >> 8);
  }

  /** What an entry is made of: the one a row before, eight bits on. */
  lemma NextEntry(table: seq<bv32>, n: nat, r: bv32)
    requires Filled(table, n) && 0x100 <= n < |table| && |table| % 0x100 == 0 && r == table[n - 0x100]
    ensures Filled(table[n := Xor(Entry(table, 0, LowByte(r)), Down(r))], n + 1)
  {
    hide Bits, Low, Xor, Down, LowByte;
    var next := Xor(Entry(table, 0, LowByte(r)), Down(r));
    forall k: nat, b: bv8 | Place(k, b) == n
      ensures next == Bits(b as bv32, 8 * k + 8)
    {
      assert Entry(table, k - 1, b) == r;
      LowByteLow(r);
      OnByte(r);
      BitsSum(b as bv32, 8 * k, 8);
    }
    FilledOn(table, n, next);
  }

  /** CrcGenerateTable, for any number of tables. */
  method GenerateTable(table: array<bv32>)
    requires table.Length >= 0x100 && table.Length % 0x100 == 0
    modifies table
    ensures Filled(table[..], table.Length)
  {
    hide Bits, LowByte, Filled, Xor, Down, Entry;
    FirstRow(table);
    for i := 0x100 to table.Length
      invariant Filled(table[..], i)
    {
      ghost var before := table[..];
      var r := table[i - 0x100];
      var next := TableStep(table, r, r);
      table[i] := next;
      NextEntry(before, i, r);
      assert table[..] == before[i := next];
    }
  }

  // ----- The loops, least significant byte first ---------------------------------------------------------------

  lemma ByteOnly(v: bv32, b: bv8)
    ensures Down(Xor(v, b as bv32)) == Down(v)
  {
  }

  /** CRC_UPDATE_BYTE_2. */
  method UpdateByte(table: array<bv32>, v: bv32, b: bv8) returns (r: bv32)
    requires table.Length >= 0x100 && Filled(table[..], 0x100)
    ensures r == Step(v, b)
  {
    hide Bits, Low, Down, LowByte, Xor;
    var x := Xor(v, b as bv32);
    r := TableStep(table, x, v);
    LowByteLow(x);
    OnByte(x);
    ByteOnly(v, b);
  }

  function Load(b: seq<bv8>): bv32
    requires |b| == 4
  {
    b[0] as bv32 | (b[1] as bv32 << 8) | (b[2] as bv32 << 16) | (b[3] as bv32 << 24)
  }

  lemma LoadNested(x: bv8, y: bv8, z: bv8, w: bv8)
    ensures Load([x, y, z, w]) == Xor(x as bv32, Up(Xor(y as bv32, Up(Xor(z as bv32, Up(w as bv32))))))
  {
  }

  /** At most three bytes. */
  predicate Small(x: bv32) {
    x & 0xFF00_0000 == 0
  }

  lemma UpSmall(x: bv32)
    requires Small(x)
    ensures Low(Up(x)) == 0 && Down(Up(x)) == x
  {
  }

  lemma SmallWords(y: bv8, z: bv8, w: bv8)
    ensures Small(w as bv32) && Small(Xor(z as bv32, Up(w as bv32))) && Small(Xor(y as bv32, Up(Xor(z as bv32, Up(w as bv32)))))
  {
  }

  /** Bytes that come later only move down while the first is taken in. */
  lemma Absorb(v: bv32, b: bv8, x: bv32)
    requires Small(x)
    ensures Bits(Xor(v, Xor(b as bv32, Up(x))), 8) == Xor(Step(v, b), x)
  {
    hide Xor, Low, Up, Down, Bits, Small;
    UpSmall(x);
    ClearByte(Up(x));
    ZerosShift(Up(x), 8);
    EightHalves(Up(x));
    XorAssoc(v, b as bv32, Up(x));
    BitsLinear(Xor(v, b as bv32), Up(x), 8);
  }

  lemma FourBytes(v: bv32, x: bv8, y: bv8, z: bv8, w: bv8)
    ensures Crc(v, [x, y, z, w]) == Bits(Xor(v, Load([x, y, z, w])), 32)
  {
    hide Xor, Load, Up, Bits, Small, Step;
    var x3 := w as bv32;
    var x2 := Xor(z as bv32, Up(x3));
    var x1 := Xor(y as bv32, Up(x2));
    var v1, v2, v3 := Step(v, x), Step(Step(v, x), y), Step(Step(Step(v, x), y), z);
    LoadNested(x, y, z, w);
    SmallWords(y, z, w);
    Absorb(v, x, x1);
    Absorb(v1, y, x2);
    Absorb(v2, z, x3);
    BitsSum(Xor(v, Xor(x as bv32, Up(x1))), 8, 24);
    BitsSum(Xor(v1, x1), 8, 16);
    BitsSum(Xor(v2, x2), 8, 8);
    StepIs(v3, w);
    CrcOfFour(v, x, y, z, w);
  }

  lemma StepIs(v: bv32, b: bv8)
    ensures Step(v, b) == Bits(Xor(v, b as bv32), 8)
  {
  }

  lemma CrcOfFour(v: bv32, x: bv8, y: bv8, z: bv8, w: bv8)
    ensures Crc(v, [x, y, z, w]) == Step(Step(Step(Step(v, x), y), z), w)
  {
    hide Step;
    CrcJoins(v, [x], [y, z, w]);
    CrcJoins(Step(v, x), [y], [z, w]);
    CrcJoins(Step(Step(v, x), y), [z], [w]);
    assert [x] + [y, z, w] == [x, y, z, w] && [y] + [z, w] == [y, z, w] && [z] + [w] == [z, w];
  }

  lemma Bytes(w: bv32)
    ensures Byte1(w) as bv32 == Low(Down(w)) && Byte2(w) as bv32 == Low(Down(Down(w)))
    ensures Byte3(w) as bv32 == Down(Down(Down(w)))
  {
  }

  /** Four lookups are 32 bits of the register. */
  lemma FourLookups(table: seq<bv32>, w: bv32)
    requires |table| >= 0x400 && Filled(table, 0x400)
    ensures Xor(Xor(Xor(Entry(table, 3, LowByte(w)), Entry(table, 2, Byte1(w))), Entry(table, 1, Byte2(w))),
                Entry(table, 0, Byte3(w)))
         == Bits(w, 32)
  {
    hide Xor, LowByte, Byte1, Byte2, Byte3, Bits, Entry;
    FourBits(w);
  }

  /** Byte by byte, from position p to the end or to an address that is a multiple of 4. */
  method UpdateBytes(v0: bv32, data: seq<bv8>, p0: nat, address: nat, toEnd: bool, table: array<bv32>) returns (v: bv32, p: nat)
    requires table.Length >= 0x100 && Filled(table[..], 0x100) && p0 <= |data|
    ensures p0 <= p <= |data| && v == Crc(v0, data[p0..p])
    ensures p == |data| || (!toEnd && (address + p) % 4 == 0)
  {
    hide Step, Filled;
    v, p := v0, p0;
    while p < |data| && (toEnd || (address + p) % 4 != 0)
      invariant p0 <= p <= |data| && v == Crc(v0, data[p0..p])
    {
      CrcJoins(v0, data[p0..p], [data[p]]);
      assert data[p0..p + 1] == data[p0..p] + [data[p]];
      v := UpdateByte(table, v, data[p]);
      p := p + 1;
    }
  }

  method UpdateWord(table: array<bv32>, v: bv32, b: seq<bv8>) returns (r: bv32)
    requires table.Length >= 0x400 && Filled(table[..], 0x400) && |b| == 4
    ensures r == Crc(v, b)
  {
    hide Bits, LowByte, Byte1, Byte2, Byte3, Load, Crc, Xor;
    var w := Xor(v, Load(b));
    r := Xor(Xor(Xor(table[0x300 + Index(LowByte(w))], table[0x200 + Index(Byte1(w))]),
                 table[0x100 + Index(Byte2(w))]), table[Index(Byte3(w))]);
    FourLookups(table[..], w);
    assert b == [b[0], b[1], b[2], b[3]];
    FourBytes(v, b[0], b[1], b[2], b[3]);
  }

  /** CrcUpdateT4: for every buffer and every address it starts at, the register is that of the message bit by bit. */
  method UpdateT4(v0: bv32, data: seq<bv8>, address: nat, table: array<bv32>) returns (v: bv32)
    requires table.Length >= 0x400 && Filled(table[..], 0x400)
    ensures v == Crc(v0, data)
  {
    hide Crc;
    ghost var v1, p0;
    var p;
    v, p := UpdateBytes(v0, data, 0, address, false, table);
    v1, p0 := v, p;
    CrcEmpty(v1);
    assert data[p0..p] == [];
    while |data| - p >= 4
      invariant p0 <= p <= |data| && v == Crc(v1, data[p0..p])
    {
      CrcJoins(v1, data[p0..p], data[p..p + 4]);
      assert data[p0..p + 4] == data[p0..p] + data[p..p + 4];
      v := UpdateWord(table, v, data[p..p + 4]);
      p := p + 4;
    }
    ghost var p1 := p;
    CrcJoins(v0, data[..p0], data[p0..p1]);
    CrcJoins(v0, data[..p1], data[p1..]);
    assert data[..p0] + data[p0..p1] == data[..p1] && data[..p1] + data[p1..] == data;
    v, p := UpdateBytes(v, data, p, address, true, table);
    assert data[p1..p] == data[p1..];
  }

  lemma CrcEmpty(v: bv32)
    ensures Crc(v, []) == v
  {
  }

  const INIT: bv32 := 0xFFFF_FFFF

  /** CrcCalc: the CRC-32 of RFC 1952. */
  method Calc(data: seq<bv8>, address: nat, table: array<bv32>) returns (r: bv32)
    requires table.Length >= 0x400 && Filled(table[..], 0x400)
    ensures r == Crc(INIT, data) ^ INIT
  {
    var v := UpdateT4(INIT, data, address, table);
    r := v ^ INIT;
  }

  // ----- The loop for words stored most significant byte first ---------------------------------------------------

  function Swap(v: bv32): bv32 {
    (v >> 24) | ((v >> 8) & 0xFF00) | ((v << 8) & 0xFF_0000) | (v << 24)
  }

  lemma SwapLaws(v: bv32)
    ensures Swap(Swap(v)) == v
    ensures LowByte(Swap(v)) == Byte3(v) && Byte3(Swap(v)) == LowByte(v)
    ensures Byte1(Swap(v)) == Byte2(v) && Byte2(Swap(v)) == Byte1(v)
  {
  }

  lemma SwapLinear(x: bv32, y: bv32)
    ensures Swap(Xor(x, y)) == Xor(Swap(x), Swap(y))
  {
  }

  /** Rows 1 to 4 are rows 0 to 3 with their bytes swapped. */
  ghost predicate Swapped(table: seq<bv32>) {
    && |table| >= 0x500 && Filled(table, 0x100)
    && forall k: nat, b: bv8 | 1 <= k <= 4 :: Entry(table, k, b) == Swap(Bits(b as bv32, 8 * k))
  }

  lemma SwapEntries(before: seq<bv32>, after: seq<bv32>)
    requires |before| == |after| && |before| >= 0x500 && |before| % 0x100 == 0 && Filled(before, |before|)
    requires after[..0x100] == before[..0x100] && forall j | 0x100 <= j < |after| :: after[j] == Swap(before[j - 0x100])
    ensures Swapped(after)
  {
    hide Bits, Swap;
    forall k: nat, b: bv8 | 1 <= k <= 4
      ensures Entry(after, k, b) == Swap(Bits(b as bv32, 8 * k))
    {
      assert Entry(before, k - 1, b) == Bits(b as bv32, 8 * (k - 1) + 8);
    }
    forall k: nat, b: bv8 | 0x100 * k + 0x100 <= |after| && Place(k, b) < 0x100
      ensures Entry(after, k, b) == Bits(b as bv32, 8 * k + 8)
    {
      assert Entry(before, k, b) == Bits(b as bv32, 8 * k + 8);
    }
  }

  /** The end of CrcGenerateTable for the other byte order. */
  method SwapTables(table: array<bv32>)
    requires table.Length >= 0x500 && table.Length % 0x100 == 0 && Filled(table[..], table.Length)
    modifies table
    ensures Swapped(table[..])
  {
    hide Filled, Swap, Swapped;
    ghost var before := table[..];
    for i := table.Length downto 0x100
      invariant table[..i] == before[..i]
      invariant forall j | i <= j < table.Length :: table[j] == Swap(before[j - 0x100])
    {
      var x := table[i - 0x100];
      table[i] := Swap(x);
    }
    SwapEntries(before, table[..]);
  }

  function LoadBe(b: seq<bv8>): bv32
    requires |b| == 4
  {
    b[3] as bv32 | (b[2] as bv32 << 8) | (b[1] as bv32 << 16) | (b[0] as bv32 << 24)
  }

  lemma LoadSwapped(x: bv8, y: bv8, z: bv8, w: bv8)
    ensures LoadBe([x, y, z, w]) == Swap(Load([x, y, z, w]))
  {
  }

  lemma SwapFour(x: bv32, y: bv32, z: bv32, w: bv32)
    ensures Xor(Xor(Xor(Swap(x), Swap(y)), Swap(z)), Swap(w)) == Swap(Xor(Xor(Xor(w, z), y), x))
  {
    hide Swap, Xor;
    SwapLinear(x, y);
    SwapLinear(Xor(x, y), z);
    SwapLinear(Xor(Xor(x, y), z), w);
    XorComm(Xor(Xor(x, y), z), w);
    XorComm(Xor(x, y), z);
    XorComm(x, y);
    XorAssoc(w, z, Xor(y, x));
    XorAssoc(Xor(w, z), y, x);
  }

  lemma SwappedEntry(table: seq<bv32>, k: nat, b: bv8)
    requires Swapped(table) && 1 <= k <= 4
    ensures Entry(table, k, b) == Swap(Bits(b as bv32, 8 * k))
  {
    hide Swap, Bits, Entry;
  }

  lemma SwappedBits(w: bv32)
    ensures Xor(Xor(Xor(Swap(Bits(Byte3(w) as bv32, 8)), Swap(Bits(Byte2(w) as bv32, 16))), Swap(Bits(Byte1(w) as bv32, 24))),
                Swap(Bits(LowByte(w) as bv32, 32)))
         == Swap(Bits(w, 32))
  {
    hide Xor, Swap, LowByte, Byte1, Byte2, Byte3, Bits;
    FourBits(w);
    SwapFour(Bits(Byte3(w) as bv32, 8), Bits(Byte2(w) as bv32, 16), Bits(Byte1(w) as bv32, 24), Bits(LowByte(w) as bv32, 32));
  }

  /** The lookups in the swapped rows, with the bytes in the other order. */
  lemma SwappedEntries(table: seq<bv32>, w: bv32, w': bv32)
    requires Swapped(table) && w' == Swap(w)
    ensures Entry(table, 1, LowByte(w')) == Swap(Bits(Byte3(w) as bv32, 8))
    ensures Entry(table, 2, Byte1(w')) == Swap(Bits(Byte2(w) as bv32, 16))
    ensures Entry(table, 3, Byte2(w')) == Swap(Bits(Byte1(w) as bv32, 24))
    ensures Entry(table, 4, Byte3(w')) == Swap(Bits(LowByte(w) as bv32, 32))
  {
    hide Swap, LowByte, Byte1, Byte2, Byte3, Bits, Entry, Swapped;
    SwapLaws(w);
    SwappedEntry(table, 1, Byte3(w));
    SwappedEntry(table, 2, Byte2(w));
    SwappedEntry(table, 3, Byte1(w));
    SwappedEntry(table, 4, LowByte(w));
  }

  lemma FourBits(w: bv32)
    ensures Xor(Xor(Xor(Bits(LowByte(w) as bv32, 32), Bits(Byte1(w) as bv32, 24)), Bits(Byte2(w) as bv32, 16)),
                Bits(Byte3(w) as bv32, 8))
         == Bits(w, 32)
  {
    hide Xor, Low, Down, LowByte, Byte1, Byte2, Byte3, Bits;
    Bytes(w);
    var a, b, c, d := w, Down(w), Down(Down(w)), Down(Down(Down(w)));
    LowByteLow(a);
    OnByteOn(a, 24);
    OnByteOn(b, 16);
    OnByteOn(c, 8);
    XorAssoc(Bits(Low(a), 32), Bits(Low(b), 24), Bits(Low(c), 16));
    XorAssoc(Xor(Bits(Low(a), 32), Bits(Low(b), 24)), Bits(Low(c), 16), Bits(d, 8));
    XorAssoc(Bits(Low(a), 32), Bits(Low(b), 24), Xor(Bits(Low(c), 16), Bits(d, 8)));
  }

  method UpdateWordBe(table: array<bv32>, v: bv32, b: seq<bv8>, ghost u: bv32) returns (r: bv32)
    requires Swapped(table[..]) && |b| == 4 && v == Swap(u)
    ensures r == Swap(Crc(u, b))
  {
    hide Bits, Load, LoadBe, Crc, Xor, Swap, Swapped;
    assert b == [b[0], b[1], b[2], b[3]];
    LoadSwapped(b[0], b[1], b[2], b[3]);
    SwapLinear(u, Load(b));
    FourBytes(u, b[0], b[1], b[2], b[3]);
    r := LookupsBe(table, Xor(v, LoadBe(b)), Xor(u, Load(b)));
  }

  method LookupsBe(table: array<bv32>, w: bv32, ghost u: bv32) returns (r: bv32)
    requires Swapped(table[..]) && w == Swap(u)
    ensures r == Swap(Bits(u, 32))
  {
    hide Bits, LowByte, Byte1, Byte2, Byte3, Xor, Swap;
    SwappedBits(u);
    SwappedEntries(table[..], u, w);
    r := Xor(Xor(Xor(table[0x100 + Index(LowByte(w))], table[0x200 + Index(Byte1(w))]),
                 table[0x300 + Index(Byte2(w))]), table[0x400 + Index(Byte3(w))]);
  }

  /** CrcUpdateT1_BeT4: the same register, kept with its bytes swapped while whole words are taken. */
  method UpdateT1BeT4(v0: bv32, data: seq<bv8>, address: nat, table: array<bv32>) returns (v: bv32)
    requires Swapped(table[..])
    ensures v == Crc(v0, data)
  {
    hide Crc, Swap;
    ghost var v1, p0;
    var p;
    v, p := UpdateBytes(v0, data, 0, address, false, table);
    v1, p0 := v, p;
    CrcEmpty(v1);
    assert data[p0..p] == [];
    v := Swap(v);
    while |data| - p >= 4
      invariant p0 <= p <= |data| && v == Swap(Crc(v1, data[p0..p]))
    {
      CrcJoins(v1, data[p0..p], data[p..p + 4]);
      assert data[p0..p + 4] == data[p0..p] + data[p..p + 4];
      v := UpdateWordBe(table, v, data[p..p + 4], Crc(v1, data[p0..p]));
      p := p + 4;
    }
    ghost var p1 := p;
    SwapLaws(Crc(v1, data[p0..p1]));
    v := Swap(v);
    CrcJoins(v0, data[..p0], data[p0..p1]);
    CrcJoins(v0, data[..p1], data[p1..]);
    assert data[..p0] + data[p0..p1] == data[..p1] && data[..p1] + data[p1..] == data;
    v, p := UpdateBytes(v, data, p, address, true, table);
    assert data[p1..p] == data[p1..];
  }

  // ----- What the check notices ------------------------------------------------------------------------------------

  lemma BitKeepsNonzero(r: bv32)
    requires r != 0
    ensures Bit(r) != 0
  {
    if Odd(r) {
      assert (POLY ^ (r >> 1)) & 0x8000_0000 != 0;
    } else {
      assert r & 1 == 0;
      assert (r >> 1) != 0;
    }
  }

  lemma {:induction false} BitsKeepNonzero(r: bv32, n: nat)
    requires r != 0
    ensures Bits(r, n) != 0
    decreases n
  {
    hide Bit;
    if n > 0 {
      BitKeepsNonzero(r);
      BitsKeepNonzero(Bit(r), n - 1);
    }
  }

  lemma {:induction false} CrcKeepsNonzero(v: bv32, zeros: seq<bv8>)
    requires v != 0 && forall i | 0 <= i < |zeros| :: zeros[i] == 0
    ensures Crc(v, zeros) != 0
    decreases |zeros|
  {
    hide Bits;
    if zeros != [] {
      assert Xor(v, zeros[0] as bv32) == v;
      BitsKeepNonzero(v, 8);
      CrcKeepsNonzero(Step(v, zeros[0]), zeros[1..]);
    }
  }

  lemma LoadNonzero(b: seq<bv8>)
    requires |b| == 4 && (b[0] != 0 || b[1] != 0 || b[2] != 0 || b[3] != 0)
    ensures Load(b) != 0
  {
    var x := Load(b);
    assert x & 0xFF == b[0] as bv32;
    assert (x >> 8) & 0xFF == b[1] as bv32;
    assert (x >> 16) & 0xFF == b[2] as bv32;
    assert x >> 24 == b[3] as bv32;
  }

  /** Four bytes in a row cannot be changed unnoticed. */
  lemma ChangeNoticed(v: bv32, head: seq<bv8>, old4: seq<bv8>, new4: seq<bv8>, tail: seq<bv8>)
    requires |old4| == 4 && |new4| == 4 && old4 != new4
    ensures Crc(v, head + old4 + tail) != Crc(v, head + new4 + tail)
  {
    hide Bits, Crc, Load, Xor;
    var u, x, y, zeros := Crc(v, head), Crc(Crc(v, head), old4), Crc(Crc(v, head), new4), seq(|tail|, i => 0 as bv8);
    CrcJoins(v, head + old4, tail);
    CrcJoins(v, head + new4, tail);
    CrcJoins(v, head, old4);
    CrcJoins(v, head, new4);
    var diff := Mixed(old4, new4);
    CrcLinear(u, old4, u, new4);
    XorSelf(u);
    MixedZero(old4, new4);
    assert diff == [diff[0], diff[1], diff[2], diff[3]];
    FourBytes(0, diff[0], diff[1], diff[2], diff[3]);
    LoadNonzero(diff);
    XorSelf(Load(diff));
    BitsKeepNonzero(Load(diff), 32);
    CrcLinear(x, tail, y, tail);
    MixedSame(tail);
    CrcKeepsNonzero(Xor(x, y), Mixed(tail, tail));
    XorSelf(Crc(x, tail));
  }

  lemma MixedZero(a: seq<bv8>, b: seq<bv8>)
    requires |a| == |b| == 4 && a != b
    ensures var d := Mixed(a, b); d[0] != 0 || d[1] != 0 || d[2] != 0 || d[3] != 0
  {
    hide XorByte;
    var d := Mixed(a, b);
    XorByteZero(a[0], b[0]);
    XorByteZero(a[1], b[1]);
    XorByteZero(a[2], b[2]);
    XorByteZero(a[3], b[3]);
    assert a == [a[0], a[1], a[2], a[3]] && b == [b[0], b[1], b[2], b[3]];
  }

  lemma XorByteZero(x: bv8, y: bv8)
    ensures XorByte(x, y) == 0 <==> x == y
  {
  }

  lemma MixedSame(a: seq<bv8>)
    ensures forall i | 0 <= i < |a| :: Mixed(a, a)[i] == 0
  {
    hide XorByte;
    forall i | 0 <= i < |a|
      ensures Mixed(a, a)[i] == 0
    {
      XorByteZero(a[i], a[i]);
    }
  }
}
