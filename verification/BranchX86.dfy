/**
  The x86 branch filter (BCJ): relative CALL/JMP operands become absolute ones when encoding, and
  relative again when decoding, in place and in one scan.

  `Convert` is the scan as a function on buffer values; `X86Convert` is the loop that rewrites an
  array. The facts of interest are about the scan: it is undone by the scan in the other direction,
  and it may be cut into successive calls.
*/
module BranchX86 {
  import opened Words

  // ----- Tests and tables ----------------------------------------------------------------------

  predicate IsOpcode(b: byte) {
    b == 0xE8 || b == 0xE9
  }

  /** An operand is converted only when its most significant byte is a sign extension. */
  predicate IsSignByte(b: byte) {
    b == 0 || b == 0xFF
  }

  /** A mask records which of the last three positions held an opcode that was left alone:
      bit 0 is one position back, bit 2 three positions back. */
  type mask = m: int | 0 <= m < 8

  /** The table kMaskToAllowedStatus: 1 1 1 0 1 0 0 0. */
  predicate Allowed(m: mask) {
    m <= 2 || m == 4
  }

  type bitNumber = k: int | 0 <= k <= 3

  /** The table kMaskToBitNumber: 0 1 2 2 3 3 3 3. */
  function BitNumber(m: mask): bitNumber {
    if m <= 1 then m else if m <= 3 then 2 else 3
  }

  /** The mask seen from one position further on, over a byte that was left alone. */
  function NextMask(b: byte, m: mask): mask {
    if IsOpcode(b) then (2 * m) % 8 + 1 else (2 * m) % 8
  }

  predicate Bit(m: mask, j: int)
    requires 1 <= j <= 3
  {
    if j == 1 then m % 2 == 1 else if j == 2 then m / 2 % 2 == 1 else m >= 4
  }

  // ----- The operand -----------------------------------------------------------------------------

  function Load(s: seq<byte>, pos: nat): word
    requires pos + 4 < |s|
  {
    s[pos + 1] as int + 0x100 * s[pos + 2] as int + 0x1_0000 * s[pos + 3] as int + 0x100_0000 * s[pos + 4] as int
  }

  /** Only 25 bits of the operand survive: the top byte is rebuilt from bit 24. */
  function Store(s: seq<byte>, pos: nat, dest: word): (r: seq<byte>)
    requires pos + 4 < |s|
    ensures |r| == |s|
    ensures forall i | 0 <= i < |s| && !(pos < i <= pos + 4) :: r[i] == s[i]
  {
    s[pos + 1 := dest % 0x100]
     [pos + 2 := dest / 0x100 % 0x100]
     [pos + 3 := dest / 0x1_0000 % 0x100]
     [pos + 4 := if dest / 0x100_0000 % 2 == 1 then 0xFF else 0]
  }

  /** One pass over the operand: relative to absolute, or back. */
  function Pass(a: word, src: word, encoding: bool): word {
    if encoding then (a + src) % TWO32 else (src - a) % TWO32
  }

  /** 2 to the power 32 - 8k. */
  function LowSpan(k: bitNumber): nat
  {
    if k == 0 then TWO32 else if k == 1 then 0x100_0000 else if k == 2 then 0x1_0000 else 0x100
  }

  /** Byte 3 - k of a word, which lands k places below the operand's top byte. */
  function ByteBelow(v: word, k: bitNumber): byte
  {
    if k == 0 then v / 0x100_0000 else if k == 1 then v / 0x1_0000 % 0x100 else if k == 2 then v / 0x100 % 0x100 else v % 0x100
  }

  /** Exclusive or with LowSpan(k) - 1: complements the low 32 - 8k bits. */
  function FlipLow(v: word, k: bitNumber): word
  {
    v - v % LowSpan(k) + (LowSpan(k) - 1 - v % LowSpan(k))
  }

  /** The operand after the correction loop, which is at most two passes. */
  function ConvertWord(a: word, src: word, k: bitNumber, encoding: bool): word
  {
    var dest := Pass(a, src, encoding);
    if k != 0 && IsSignByte(ByteBelow(dest, k)) then Pass(a, FlipLow(dest, k), encoding) else dest
  }

  // ----- The scan ----------------------------------------------------------------------------------

  datatype Scanned = Scanned(data: seq<byte>, pos: nat, mask: mask)

  /** The opcode at pos is too close to an earlier one to be told apart when decoding. */
  predicate Blocked(s: seq<byte>, pos: nat, m: mask)
    requires pos + 4 < |s|
  {
    m != 0 && (!Allowed(m) || IsSignByte(s[pos + 4 - BitNumber(m)]))
  }

  predicate Converts(s: seq<byte>, pos: nat, m: mask)
    requires pos + 4 < |s|
  {
    IsOpcode(s[pos]) && !Blocked(s, pos, m) && IsSignByte(s[pos + 4])
  }

  /** What becomes of an operand, given the position of its opcode and the mask's bit number. */
  type Transform = (nat, word, bitNumber) -> word

  function Operand(ip: word, encoding: bool): Transform {
    (pos, src, k) => ConvertWord((ip + pos) % TWO32, src, k, encoding)
  }

  function Rewrite(s: seq<byte>, pos: nat, m: mask, f: Transform): (r: seq<byte>)
    requires pos + 4 < |s|
    ensures |r| == |s|
    ensures forall i | 0 <= i < |s| && !(pos < i <= pos + 4) :: r[i] == s[i]
  {
    Store(s, pos, f(pos, Load(s, pos), BitNumber(m)))
  }

  /** The whole scan from `pos`, where `m` is the mask relative to `pos`. */
  function Scan(s: seq<byte>, pos: nat, m: mask, f: Transform): (r: Scanned)
    ensures |r.data| == |s| && r.pos >= pos
    ensures pos <= |s| ==> |s| - 4 <= r.pos <= |s|
    decreases |s| - pos
  {
    if pos + 4 >= |s| then Scanned(s, pos, m)
    else if Converts(s, pos, m) then Scan(Rewrite(s, pos, m, f), pos + 5, 0, f)
    else Scan(s, pos + 1, NextMask(s[pos], m), f)
  }

  /** One call of the filter: `ip` is the caller's instruction pointer plus 5. */
  function Convert(s: seq<byte>, m: mask, ip: word, encoding: bool): Scanned {
    Scan(s, 0, m, Operand(ip, encoding))
  }

  // ----- The operand transform is undone -----------------------------------------------------------

  /** How often 2^32 was taken away by a pass. */
  lemma PassWraps(a: word, src: word, encoding: bool) returns (t: int)
    ensures Pass(a, src, encoding) == (if encoding then src + a else src - a) - TWO32 * t
  {
    t := (if encoding then a + src else src - a) / TWO32;
  }

  lemma FlipLowBits1(a: word, src: word, encoding: bool)
    ensures Pass(a, FlipLow(Pass(a, src, encoding), 1), encoding) % 0x100_0000 == 0xFF_FFFF - src % 0x100_0000
  {
    var d := Pass(a, src, encoding);
    var f := FlipLow(d, 1);
    var t := PassWraps(a, src, encoding);
    var u := PassWraps(a, f, encoding);
    DivUnique(Pass(a, f, encoding), 0x100_0000, 2 * (d / 0x100_0000) - src / 0x100_0000 + 0x100 * (t - u), 0xFF_FFFF - src % 0x100_0000);
  }

  lemma FlipLowBits2(a: word, src: word, encoding: bool)
    ensures Pass(a, FlipLow(Pass(a, src, encoding), 2), encoding) % 0x1_0000 == 0xFFFF - src % 0x1_0000
  {
    var d := Pass(a, src, encoding);
    var f := FlipLow(d, 2);
    var t := PassWraps(a, src, encoding);
    var u := PassWraps(a, f, encoding);
    DivUnique(Pass(a, f, encoding), 0x1_0000, 2 * (d / 0x1_0000) - src / 0x1_0000 + 0x1_0000 * (t - u), 0xFFFF - src % 0x1_0000);
  }

  lemma FlipLowBits3(a: word, src: word, encoding: bool)
    ensures Pass(a, FlipLow(Pass(a, src, encoding), 3), encoding) % 0x100 == 0xFF - src % 0x100
  {
    var d := Pass(a, src, encoding);
    var f := FlipLow(d, 3);
    var t := PassWraps(a, src, encoding);
    var u := PassWraps(a, f, encoding);
    DivUnique(Pass(a, f, encoding), 0x100, 2 * (d / 0x100) - src / 0x100 + 0x100_0000 * (t - u), 0xFF - src % 0x100);
  }

  /** The tested byte is the top byte of the low bits. */
  lemma TopOfLow(v: word, k: bitNumber)
    requires k != 0
    ensures ByteBelow(v, k) == v % LowSpan(k) / (LowSpan(k) / 0x100)
  {
    if k == 1 {
      TopOf24(v);
    } else if k == 2 {
      TopOf16(v);
    } else {
      assert v % 0x100 / 1 == v / 1 % 0x100;
    }
  }

  lemma TopOf24(v: nat)
    ensures v / 0x1_0000 % 0x100 == v % 0x100_0000 / 0x1_0000
  {
    var q, r := v / 0x1_0000, v % 0x1_0000;
    var r' := 0x1_0000 * (q % 0x100) + r;
    DivUnique(v, 0x100_0000, q / 0x100, r');
    DivUnique(r', 0x1_0000, q % 0x100, r);
  }

  lemma TopOf16(v: nat)
    ensures v / 0x100 % 0x100 == v % 0x1_0000 / 0x100
  {
    var q, r := v / 0x100, v % 0x100;
    var r' := 0x100 * (q % 0x100) + r;
    DivUnique(v, 0x1_0000, q / 0x100, r');
    DivUnique(r', 0x100, q % 0x100, r);
  }

  lemma ComplementTop(x: nat, y: nat, k: bitNumber)
    requires k != 0 && x < LowSpan(k) && y == LowSpan(k) - 1 - x
    ensures y / (LowSpan(k) / 0x100) == 0xFF - x / (LowSpan(k) / 0x100)
  {
  }

  /** After one flip the tested byte is the complement of the source's, so a second flip never follows a
      source byte that is not a sign byte. */
  lemma FlipComplements(a: word, src: word, k: bitNumber, encoding: bool)
    requires k != 0
    ensures ByteBelow(Pass(a, FlipLow(Pass(a, src, encoding), k), encoding), k) == 0xFF - ByteBelow(src, k)
  {
    var e := Pass(a, FlipLow(Pass(a, src, encoding), k), encoding);
    if k == 1 {
      FlipLowBits1(a, src, encoding);
    } else if k == 2 {
      FlipLowBits2(a, src, encoding);
    } else {
      FlipLowBits3(a, src, encoding);
    }
    TopOfLow(e, k);
    TopOfLow(src, k);
    ComplementTop(src % LowSpan(k), e % LowSpan(k), k);
  }

  /** Agreement on the 25 bits that are stored. */
  predicate Same25(v: int, w: int) {
    v % 0x200_0000 == w % 0x200_0000
  }

  lemma PassUndone(a: word, src: word, stored: word, encoding: bool)
    requires Same25(stored, Pass(a, src, encoding))
    ensures Same25(Pass(a, stored, !encoding), src)
  {
    var t := PassWraps(a, src, encoding);
    var u := PassWraps(a, stored, !encoding);
    var z := stored / 0x200_0000 - Pass(a, src, encoding) / 0x200_0000 - 0x80 * t - 0x80 * u;
    DivUnique(Pass(a, stored, !encoding), 0x200_0000, src / 0x200_0000 + z, src % 0x200_0000);
  }

  /** What is read of a word, the low bits and the stored parts, depends on its low 25 bits only. */
  lemma Low25(v: word, w: word)
    requires Same25(v, w)
    ensures v % 0x100 == w % 0x100 && v / 0x100 % 0x100 == w / 0x100 % 0x100
    ensures v / 0x1_0000 % 0x100 == w / 0x1_0000 % 0x100 && v / 0x100_0000 % 2 == w / 0x100_0000 % 2
    ensures v % 0x1_0000 == w % 0x1_0000 && v % 0x100_0000 == w % 0x100_0000
  {
    var z := v / 0x200_0000 - w / 0x200_0000;
    assert v == w + 0x200_0000 * z;
    DivUnique(v, 0x100_0000, w / 0x100_0000 + 2 * z, w % 0x100_0000);
    DivUnique(v / 0x100_0000, 2, w / 0x100_0000 / 2 + z, w / 0x100_0000 % 2);
    DivUnique(v, 0x1_0000, w / 0x1_0000 + 0x200 * z, w % 0x1_0000);
    DivUnique(v / 0x1_0000, 0x100, w / 0x1_0000 / 0x100 + 2 * z, w / 0x1_0000 % 0x100);
    DivUnique(v, 0x100, w / 0x100 + 0x2_0000 * z, w % 0x100);
    DivUnique(v / 0x100, 0x100, w / 0x100 / 0x100 + 0x200 * z, w / 0x100 % 0x100);
  }

  lemma SameLow(v: word, w: word, k: bitNumber)
    requires k != 0 && Same25(v, w)
    ensures v % LowSpan(k) == w % LowSpan(k) && ByteBelow(v, k) == ByteBelow(w, k)
  {
    Low25(v, w);
  }

  lemma FlipSame(v: word, w: word, k: bitNumber)
    requires k != 0 && Same25(v, w)
    ensures Same25(FlipLow(v, k), FlipLow(w, k))
  {
    SameLow(v, w, k);
    SameShift(v, w, LowSpan(k) - 1 - 2 * (v % LowSpan(k)));
  }

  lemma SameShift(v: int, w: int, c: int)
    requires Same25(v, w)
    ensures Same25(v + c, w + c)
  {
    var q, r := (w + c) / 0x200_0000, (w + c) % 0x200_0000;
    DivUnique(v + c, 0x200_0000, q + v / 0x200_0000 - w / 0x200_0000, r);
  }

  lemma FlipFlip(v: word, k: bitNumber)
    requires k != 0
    ensures FlipLow(FlipLow(v, k), k) == v
    ensures ByteBelow(FlipLow(v, k), k) == 0xFF - ByteBelow(v, k)
  {
    var f := FlipLow(v, k);
    DivUnique(f, LowSpan(k), v / LowSpan(k), LowSpan(k) - 1 - v % LowSpan(k));
    TopOfLow(v, k);
    TopOfLow(f, k);
    ComplementTop(v % LowSpan(k), f % LowSpan(k), k);
  }

  /** The operand transform of one direction is undone by the other's, whatever becomes of the bits above
      bit 24 in between. */
  lemma OperandRestored(a: word, src: word, stored: word, k: bitNumber, encoding: bool)
    requires k != 0 ==> !IsSignByte(ByteBelow(src, k))
    requires Same25(stored, ConvertWord(a, src, k, encoding))
    ensures Same25(ConvertWord(a, stored, k, !encoding), src)
    ensures k != 0 ==> !IsSignByte(ByteBelow(stored, k))
  {
    var d := Pass(a, src, encoding);
    var e := Pass(a, stored, !encoding);
    if k == 0 || !IsSignByte(ByteBelow(d, k)) {
      PassUndone(a, src, stored, encoding);
      if k != 0 {
        SameLow(stored, d, k);
        SameLow(e, src, k);
      }
    } else {
      var f := FlipLow(d, k);
      PassUndone(a, f, stored, encoding);
      SameLow(e, f, k);
      FlipFlip(d, k);
      FlipSame(e, f, k);
      PassUndone(a, src, FlipLow(e, k), encoding);
      FlipComplements(a, src, k, encoding);
      SameLow(stored, Pass(a, f, encoding), k);
    }
  }

  // ----- The scan is undone ------------------------------------------------------------------------

  /** A scan from `pos` keeps every byte up to and including `pos`. */
  lemma {:induction false} ScanKeepsPrefix(s: seq<byte>, pos: nat, m: mask, f: Transform)
    ensures forall i | 0 <= i <= pos && i < |s| :: Scan(s, pos, m, f).data[i] == s[i]
    decreases |s| - pos
  {
    if pos + 4 >= |s| {
    } else if Converts(s, pos, m) {
      ScanKeepsPrefix(Rewrite(s, pos, m, f), pos + 5, 0, f);
    } else {
      ScanKeepsPrefix(s, pos + 1, NextMask(s[pos], m), f);
    }
  }

  /** The transforms f and g undo one another on operands as the scan meets them. */
  ghost predicate Undoes(f: Transform, g: Transform) {
    forall pos: nat, src: word, stored: word, k: bitNumber ::
      (k != 0 ==> !IsSignByte(ByteBelow(src, k))) && Same25(stored, f(pos, src, k)) ==>
      Same25(g(pos, stored, k), src) && (k != 0 ==> !IsSignByte(ByteBelow(stored, k)))
  }

  lemma OperandUndone(ip: word, encoding: bool)
    ensures Undoes(Operand(ip, encoding), Operand(ip, !encoding))
  {
    var f, g := Operand(ip, encoding), Operand(ip, !encoding);
    forall pos: nat, src: word, stored: word, k: bitNumber |
      (k != 0 ==> !IsSignByte(ByteBelow(src, k))) && Same25(stored, f(pos, src, k))
      ensures Same25(g(pos, stored, k), src) && (k != 0 ==> !IsSignByte(ByteBelow(stored, k)))
    {
      OperandRestored((ip + pos) % TWO32, src, stored, k, encoding);
    }
  }

  /** A conversion at `pos` leaves a place where the scan converts again, and is undone there. */
  lemma RewriteUndone(s: seq<byte>, pos: nat, m: mask, f: Transform, g: Transform)
    requires pos + 4 < |s| && Converts(s, pos, m) && Undoes(f, g)
    ensures var r := Rewrite(s, pos, m, f);
            Converts(r, pos, m) && Rewrite(r, pos, m, g) == s
  {
    var k := BitNumber(m);
    var src := Load(s, pos);
    var r := Rewrite(s, pos, m, f);
    var stored := Load(r, pos);
    StoredWord(s, pos, f(pos, src, k));
    LoadedByte(s, pos, k);
    LoadedByte(r, pos, k);
    assert Same25(g(pos, stored, k), src);
    StoreRestores(s, r, pos, g(pos, stored, k));
  }

  lemma StoredWord(s: seq<byte>, pos: nat, dest: word)
    requires pos + 4 < |s|
    ensures Same25(Load(Store(s, pos, dest), pos), dest)
  {
    var r := Store(s, pos, dest);
    assert r[pos + 1] == dest % 0x100 && r[pos + 2] == dest / 0x100 % 0x100 && r[pos + 3] == dest / 0x1_0000 % 0x100;
    Regroup(dest);
    var top := dest / 0x100_0000;
    var low := dest % 0x100_0000;
    DivUnique(dest, 0x200_0000, top / 2, 0x100_0000 * (top % 2) + low);
    DivUnique(Load(r, pos), 0x200_0000, if top % 2 == 1 then 0x7F else 0, 0x100_0000 * (top % 2) + low);
  }

  lemma Regroup(v: word)
    ensures v % 0x100_0000 == v % 0x100 + 0x100 * (v / 0x100 % 0x100) + 0x1_0000 * (v / 0x1_0000 % 0x100)
  {
    var v1, b0 := v / 0x100, v % 0x100;
    var v2, b1 := v1 / 0x100, v1 % 0x100;
    var v3, b2 := v2 / 0x100, v2 % 0x100;
    DivUnique(v, 0x1_0000, v2, 0x100 * b1 + b0);
    DivUnique(v, 0x100_0000, v3, 0x1_0000 * b2 + 0x100 * b1 + b0);
  }

  /** The digits of a word in base 256. */
  lemma Digits(b0: byte, b1: byte, b2: byte, b3: byte)
    ensures var v := b0 as int + 0x100 * b1 as int + 0x1_0000 * b2 as int + 0x100_0000 * b3 as int;
            && v % 0x100 == b0 && v / 0x100 % 0x100 == b1
            && v / 0x1_0000 % 0x100 == b2 && v / 0x100_0000 == b3
            && v / 0x100_0000 % 2 == b3 as int % 2
  {
    var v := b0 as int + 0x100 * b1 as int + 0x1_0000 * b2 as int + 0x100_0000 * b3 as int;
    var v2 := b2 as int + 0x100 * b3 as int;
    var v1 := b1 as int + 0x100 * v2;
    DivUnique(v, 0x100_0000, b3, b0 as int + 0x100 * b1 as int + 0x1_0000 * b2 as int);
    DivUnique(v, 0x1_0000, v2, b0 as int + 0x100 * b1 as int);
    DivUnique(v2, 0x100, b3, b2);
    DivUnique(v, 0x100, v1, b0);
    DivUnique(v1, 0x100, v2, b1);
  }

  lemma LoadedByte(s: seq<byte>, pos: nat, k: bitNumber)
    requires pos + 4 < |s| 
    ensures ByteBelow(Load(s, pos), k) == s[pos + 4 - k]
  {
    Digits(s[pos + 1], s[pos + 2], s[pos + 3], s[pos + 4]);
  }

  lemma StoreRestores(s: seq<byte>, r: seq<byte>, pos: nat, dest: word)
    requires pos + 4 < |s| && |r| == |s| && IsSignByte(s[pos + 4])
    requires forall i :: 0 <= i < |s| && !(pos < i <= pos + 4) ==> r[i] == s[i]
    requires Same25(dest, Load(s, pos))
    ensures Store(r, pos, dest) == s
  {
    Digits(s[pos + 1], s[pos + 2], s[pos + 3], s[pos + 4]);
    Low25(dest, Load(s, pos));
  }

  /** The transform g is f seen from k bytes further on. */
  ghost predicate MovedBy(f: Transform, g: Transform, k: nat) {
    forall pos: nat, src: word, b: bitNumber :: g(pos, src, b) == f(k + pos, src, b)
  }

  lemma RewriteMoved(p: seq<byte>, t: seq<byte>, pos: nat, m: mask, f: Transform, g: Transform)
    requires pos + 4 < |t| && MovedBy(f, g, |p|)
    ensures Rewrite(p + t, |p| + pos, m, f) == p + Rewrite(t, pos, m, g)
  {
    assert Load(p + t, |p| + pos) == Load(t, pos);
    StoreMoved(p, t, pos, g(pos, Load(t, pos), BitNumber(m)));
  }

  lemma StoreMoved(p: seq<byte>, t: seq<byte>, pos: nat, dest: word)
    requires pos + 4 < |t|
    ensures Store(p + t, |p| + pos, dest) == p + Store(t, pos, dest)
  {
  }

  /** A scan ignores, and keeps, what lies before its first position: it can be moved. */
  lemma {:induction false} ScanMoved(p: seq<byte>, t: seq<byte>, pos: nat, m: mask, f: Transform, g: Transform)
    requires MovedBy(f, g, |p|)
    ensures var r := Scan(t, pos, m, g);
            Scan(p + t, |p| + pos, m, f) == Scanned(p + r.data, |p| + r.pos, r.mask)
    decreases |t| - pos
  {
    if pos + 4 >= |t| {
    } else {
      assert Converts(p + t, |p| + pos, m) == Converts(t, pos, m);
      if Converts(t, pos, m) {
        RewriteMoved(p, t, pos, m, f, g);
        ScanMoved(p, Rewrite(t, pos, m, g), pos + 5, 0, f, g);
      } else {
        ScanMoved(p, t, pos + 1, NextMask(t[pos], m), f, g);
      }
    }
  }

  lemma SingleBit(m: mask)
    ensures m != 0 && Allowed(m) ==> forall j | 1 <= j <= 3 :: Bit(m, j) <==> j == BitNumber(m)
    ensures m == 0 ==> forall j | 1 <= j <= 3 :: !Bit(m, j)
  {
  }

  lemma ShiftedBits(m: mask, b: byte)
    ensures Bit(NextMask(b, m), 1) <==> IsOpcode(b)
    ensures Bit(NextMask(b, m), 2) <==> Bit(m, 1)
    ensures Bit(NextMask(b, m), 3) <==> Bit(m, 2)
  {
  }

  /** The reason why the filter is reversible: as long as an opcode that was left alone is remembered in the
      mask, a conversion never changes whether its fifth byte is a sign byte. */
  lemma {:induction false} StatusKept(s: seq<byte>, pos: nat, m: mask, f: Transform, g: Transform, j: nat)
    requires Undoes(f, g) && 1 <= j <= 3 && Bit(m, j) && pos + 4 - j < |s|
    ensures IsSignByte(Scan(s, pos, m, f).data[pos + 4 - j]) == IsSignByte(s[pos + 4 - j])
    decreases |s| - pos
  {
    if pos + 4 >= |s| {
    } else if Converts(s, pos, m) {
      var s' := Rewrite(s, pos, m, f);
      RewriteUndone(s, pos, m, f, g);
      SingleBit(m);
      ScanKeepsPrefix(s', pos + 5, 0, f);
    } else {
      var m' := NextMask(s[pos], m);
      ScanKeepsPrefix(s, pos + 1, m', f);
      ShiftedBits(m, s[pos]);
      if j < 3 {
        StatusKept(s, pos + 1, m', f, g, j + 1);
      }
    }
  }

  lemma ConvertedAgain(s: seq<byte>, pos: nat, m: mask, f: Transform, g: Transform)
    requires pos + 4 < |s| && Converts(s, pos, m) && Undoes(f, g)
    ensures var r := Scan(s, pos, m, f).data;
            Converts(r, pos, m) && Rewrite(r, pos, m, g) == s[..pos + 5] + r[pos + 5..]
  {
    var s' := Rewrite(s, pos, m, f);
    var r := Scan(s', pos + 5, 0, f).data;
    RewriteUndone(s, pos, m, f, g);
    ScanKeepsPrefix(s', pos + 5, 0, f);
    assert Load(r, pos) == Load(s', pos);
    assert forall i | pos < i <= pos + 4 :: Rewrite(r, pos, m, g)[i] == Rewrite(s', pos, m, g)[i];
  }

  lemma NotConvertedAgain(s: seq<byte>, pos: nat, m: mask, f: Transform, g: Transform)
    requires pos + 4 < |s| && !Converts(s, pos, m) && Undoes(f, g)
    ensures var r := Scan(s, pos, m, f).data;
            r[pos] == s[pos] && !Converts(r, pos, m)
  {
    var m' := NextMask(s[pos], m);
    ScanKeepsPrefix(s, pos + 1, m', f);
    if IsOpcode(s[pos]) {
      ShiftedBits(m, s[pos]);
      StatusKept(s, pos + 1, m', f, g, 1);
      if m != 0 && Allowed(m) {
        SingleBit(m);
        StatusKept(s, pos, m, f, g, BitNumber(m));
      }
    }
  }

  function Moved(f: Transform, k: nat): Transform {
    (pos, src, b) => f(k + pos, src, b)
  }

  /** Replacing the bytes before a scan's first position replaces them in its result. */
  lemma ScanTail(p: seq<byte>, q: seq<byte>, v: seq<byte>, f: Transform)
    requires |p| == |q|
    ensures var r := Scan(v, 0, 0, Moved(f, |p|));
            && Scan(p + v, |p|, 0, f) == Scanned(p + r.data, |p| + r.pos, r.mask)
            && Scan(q + v, |p|, 0, f) == Scanned(q + r.data, |p| + r.pos, r.mask)
  {
    hide Scan;
    ScanMoved(p, v, 0, 0, f, Moved(f, |p|));
    ScanMoved(q, v, 0, 0, f, Moved(f, |q|));
  }

  lemma SameTail(p: seq<byte>, q: seq<byte>, w: seq<byte>, s': seq<byte>, s: seq<byte>)
    requires |p| == |q| <= |s| == |s'| && p + w == s' && q <= s
    requires forall i | |q| <= i < |s| :: s'[i] == s[i]
    ensures q + w == s
  {
    assert forall i | 0 <= i < |w| :: w[i] == (p + w)[|p| + i];
  }

  lemma ScanConverts(s: seq<byte>, pos: nat, m: mask, f: Transform)
    requires pos + 4 < |s| && Converts(s, pos, m)
    ensures Scan(s, pos, m, f) == Scan(Rewrite(s, pos, m, f), pos + 5, 0, f)
  {
    hide Converts, Rewrite;
  }

  /** Where the scan converted, the scan back converts, and goes on over what was converted further on. */
  lemma ConvertedUndone(s: seq<byte>, pos: nat, m: mask, f: Transform, g: Transform)
    requires Undoes(f, g) && pos + 4 < |s| && Converts(s, pos, m)
    requires var r := Scan(Rewrite(s, pos, m, f), pos + 5, 0, f);
             Scan(r.data, pos + 5, 0, g) == Scanned(Rewrite(s, pos, m, f), r.pos, r.mask)
    ensures var r := Scan(s, pos, m, f);
            Scan(r.data, pos, m, g) == Scanned(s, r.pos, r.mask)
  {
    hide Undoes, Moved, Scan, Converts;
    var s' := Rewrite(s, pos, m, f);
    var r := Scan(s', pos + 5, 0, f).data;
    ScanConverts(s, pos, m, f);
    ConvertedAgain(s, pos, m, f, g);
    ScanConverts(r, pos, m, g);
    assert r[..pos + 5] + r[pos + 5..] == r;
    ScanTail(r[..pos + 5], s[..pos + 5], r[pos + 5..], g);
    SameTail(r[..pos + 5], s[..pos + 5], Scan(r[pos + 5..], 0, 0, Moved(g, pos + 5)).data, s', s);
  }

  lemma {:induction false} ScanUndone(s: seq<byte>, pos: nat, m: mask, f: Transform, g: Transform)
    requires Undoes(f, g)
    ensures var r := Scan(s, pos, m, f);
            Scan(r.data, pos, m, g) == Scanned(s, r.pos, r.mask)
    decreases |s| - pos
  {
    hide Undoes;
    if pos + 4 >= |s| {
    } else if Converts(s, pos, m) {
      ScanUndone(Rewrite(s, pos, m, f), pos + 5, 0, f, g);
      ConvertedUndone(s, pos, m, f, g);
    } else {
      NotConvertedAgain(s, pos, m, f, g);
      ScanUndone(s, pos + 1, NextMask(s[pos], m), f, g);
    }
  }

  /** The filter is reversible: for every buffer, mask and instruction pointer, converting the result in the
      other direction restores the buffer, stops at the same byte and leaves the same mask. */
  lemma Reversible(s: seq<byte>, m: mask, ip: word, encoding: bool)
    ensures var r := Convert(s, m, ip, encoding);
            Convert(r.data, m, ip, !encoding) == Scanned(s, r.pos, r.mask)
  {
    OperandUndone(ip, encoding);
    ScanUndone(s, 0, m, Operand(ip, encoding), Operand(ip, !encoding));
  }

  // ----- What the filter does ----------------------------------------------------------------------

  /** An opcode with a convertible operand and no opcode in the four bytes before it. */
  predicate Isolated(s: seq<byte>, pos: nat)
    requires pos + 4 < |s|
  {
    IsOpcode(s[pos]) && IsSignByte(s[pos + 4]) && forall i | pos - 4 <= i < pos && 0 <= i :: !IsOpcode(s[i])
  }

  function Signed(a: int, encoding: bool): int {
    if encoding then a else -a
  }

  /** The operand of an isolated opcode has the address of the next instruction added when encoding and taken
      away when decoding, on the 25 bits that are kept. */
  lemma IsolatedOperand(s: seq<byte>, pos: nat, m: mask, ip: word, encoding: bool)
    requires pos + 4 < |s| && Isolated(s, pos) && (m == 0 || pos >= 3)
    ensures var r := Convert(s, m, ip, encoding).data;
            && r[pos] == s[pos] && IsSignByte(r[pos + 4])
            && Same25(Load(r, pos), Load(s, pos) + Signed(ip + pos, encoding))
  {
    var f := Operand(ip, encoding);
    NoBits(m);
    IsolatedReached(s, 0, pos, m, f);
    assert f(pos, Load(s, pos), 0) == ConvertWord((ip + pos) % TWO32, Load(s, pos), 0, encoding);
    AddressAdded(ip + pos, Load(s, pos), encoding);
  }

  lemma AddressAdded(a: nat, src: word, encoding: bool)
    ensures Same25(Pass(a % TWO32, src, encoding), src + Signed(a, encoding))
  {
    var dest := Pass(a % TWO32, src, encoding);
    var t := PassWraps(a % TWO32, src, encoding);
    var q := a / TWO32;
    var z := if encoding then t + q else t - q;
    DivUnique(src + Signed(a, encoding), 0x200_0000, dest / 0x200_0000 + 0x80 * z, dest % 0x200_0000);
  }

  lemma ConvertedHere(s: seq<byte>, pos: nat, m: mask, f: Transform)
    requires pos + 4 < |s| && Converts(s, pos, m)
    ensures var r := Scan(s, pos, m, f).data;
            r[pos] == s[pos] && IsSignByte(r[pos + 4]) && Same25(Load(r, pos), f(pos, Load(s, pos), BitNumber(m)))
  {
    var s' := Rewrite(s, pos, m, f);
    ScanKeepsPrefix(s', pos + 5, 0, f);
    assert Load(Scan(s, pos, m, f).data, pos) == Load(s', pos);
    StoredWord(s, pos, f(pos, Load(s, pos), BitNumber(m)));
  }

  lemma {:induction false} IsolatedReached(s: seq<byte>, p: nat, pos: nat, m: mask, f: Transform)
    requires p <= pos && pos + 4 < |s| && IsOpcode(s[pos]) && IsSignByte(s[pos + 4])
    requires forall i | pos - 4 <= i < pos && p <= i :: !IsOpcode(s[i])
    requires forall j | 1 <= j <= 3 && Bit(m, j) :: j + pos - p > 3
    ensures var r := Scan(s, p, m, f).data;
            r[pos] == s[pos] && IsSignByte(r[pos + 4]) && Same25(Load(r, pos), f(pos, Load(s, pos), 0))
    decreases pos - p
  {
    if p == pos {
      NoBits(m);
      ConvertedHere(s, pos, 0, f);
    } else if Converts(s, p, m) {
      var s' := Rewrite(s, p, m, f);
      assert Load(s', pos) == Load(s, pos);
      NoBits(0);
      IsolatedReached(s', p + 5, pos, 0, f);
    } else {
      ShiftedBits(m, s[p]);
      IsolatedReached(s, p + 1, pos, NextMask(s[p], m), f);
    }
  }

  lemma NoBits(m: mask)
    ensures (forall j | 1 <= j <= 3 :: !Bit(m, j)) <==> m == 0
  {
    if m != 0 {
      assert Bit(m, 1) || Bit(m, 2) || Bit(m, 3);
    }
  }

  /** The scan converts the operand of the opcode at p, with bit number k. */
  predicate ConvertsAt(s: seq<byte>, pos: nat, m: mask, f: Transform, p: nat, k: bitNumber)
    decreases |s| - pos
  {
    if pos + 4 >= |s| then false
    else if Converts(s, pos, m) then
      (p == pos && k == BitNumber(m)) || ConvertsAt(Rewrite(s, pos, m, f), pos + 5, 0, f, p, k)
    else ConvertsAt(s, pos + 1, NextMask(s[pos], m), f, p, k)
  }

  /** What conversion leaves there: the opcode, a sign byte, and the 25 bits of the operand transformed. */
  lemma {:induction false} ConvertedOperand(s: seq<byte>, pos: nat, m: mask, f: Transform, p: nat, k: bitNumber)
    requires ConvertsAt(s, pos, m, f, p, k)
    ensures pos <= p && p + 4 < |s| && IsOpcode(s[p]) && IsSignByte(s[p + 4])
    ensures var r := Scan(s, pos, m, f).data;
            r[p] == s[p] && IsSignByte(r[p + 4]) && Same25(Load(r, p), f(p, Load(s, p), k))
    decreases |s| - pos
  {
    if Converts(s, pos, m) {
      if p == pos && k == BitNumber(m) {
        ConvertedHere(s, pos, m, f);
      } else {
        var s' := Rewrite(s, pos, m, f);
        ConvertedOperand(s', pos + 5, 0, f, p, k);
        assert Load(s', p) == Load(s, p);
      }
    } else {
      ConvertedOperand(s, pos + 1, NextMask(s[pos], m), f, p, k);
    }
  }

  /** Nothing but these operands is changed. */
  lemma {:induction false} OnlyOperandsChange(s: seq<byte>, pos: nat, m: mask, f: Transform, i: nat)
    returns (p: nat, k: bitNumber)
    requires i < |s| && Scan(s, pos, m, f).data[i] != s[i]
    ensures ConvertsAt(s, pos, m, f, p, k) && p < i <= p + 4
    decreases |s| - pos
  {
    p, k := pos, BitNumber(m);
    if Converts(s, pos, m) {
      if !(pos < i <= pos + 4) {
        var s' := Rewrite(s, pos, m, f);
        ScanKeepsPrefix(s', pos + 5, 0, f);
        p, k := OnlyOperandsChange(s', pos + 5, 0, f, i);
      }
    } else {
      p, k := OnlyOperandsChange(s, pos + 1, NextMask(s[pos], m), f, i);
    }
  }

  // ----- Successive calls --------------------------------------------------------------------------

  /** The scan of a buffer goes on where the scan of a first part of it stopped. */
  lemma {:induction false} ScanContinues(t: seq<byte>, u: seq<byte>, pos: nat, m: mask, f: Transform)
    ensures var r := Scan(t, pos, m, f);
            Scan(t + u, pos, m, f) == Scan(r.data + u, r.pos, r.mask, f)
    decreases |t| - pos
  {
    if pos + 4 >= |t| {
    } else {
      assert Converts(t + u, pos, m) == Converts(t, pos, m);
      if Converts(t, pos, m) {
        assert Load(t + u, pos) == Load(t, pos);
        assert Rewrite(t + u, pos, m, f) == Rewrite(t, pos, m, f) + u;
        ScanContinues(Rewrite(t, pos, m, f), u, pos + 5, 0, f);
      } else {
        ScanContinues(t, u, pos + 1, NextMask(t[pos], m), f);
      }
    }
  }

  /** Calling the filter on a first part, and then on what it left unprocessed followed by the rest, with the
      instruction pointer advanced and the state carried over, is one call on the whole. */
  lemma SuccessiveCalls(t: seq<byte>, u: seq<byte>, m: mask, ip: word, encoding: bool)
    ensures var r := Convert(t, m, ip, encoding);
            var r' := Convert(r.data[r.pos..] + u, r.mask, (ip + r.pos) % TWO32, encoding);
            Convert(t + u, m, ip, encoding) == Scanned(r.data[..r.pos] + r'.data, r.pos + r'.pos, r'.mask)
  {
    hide Scan, Operand, MovedBy;
    var r := Convert(t, m, ip, encoding);
    var f, g := Operand(ip, encoding), Operand((ip + r.pos) % TWO32, encoding);
    var p, v := r.data[..r.pos], r.data[r.pos..] + u;
    assert Scan(t + u, 0, m, f) == Scan(p + v, r.pos, r.mask, f) by {
      ScanContinues(t, u, 0, m, f);
      assert p + v == r.data + u;
    }
    OperandMoved(ip, encoding, r.pos);
    ScanMoved(p, v, 0, r.mask, f, g);
  }

  lemma OperandMoved(ip: word, encoding: bool, k: nat)
    ensures MovedBy(Operand(ip, encoding), Operand((ip + k) % TWO32, encoding), k)
  {
    hide Operand;
    var f, g := Operand(ip, encoding), Operand((ip + k) % TWO32, encoding);
    forall pos: nat, src: word, b: bitNumber
      ensures g(pos, src, b) == f(k + pos, src, b)
    {
      OperandAt(ip, encoding, k, pos, src, b);
    }
  }

  lemma OperandAt(ip: word, encoding: bool, k: nat, pos: nat, src: word, b: bitNumber)
    ensures Operand((ip + k) % TWO32, encoding)(pos, src, b) == Operand(ip, encoding)(k + pos, src, b)
  {
    hide ConvertWord;
    WordSum(ip + k, pos);
    assert ip + (k + pos) == ip + k + pos;
  }

  // ----- The code ------------------------------------------------------------------------------------

  /** A mask last updated at an opcode, seen from d bytes further on. */
  function Aged(m: mask, d: int): mask
    requires 1 <= d
  {
    if d > 3 then 0 else if d == 3 then 4 * m % 8 else if d == 2 then 2 * m % 8 else m
  }

  /** The correction loop of an operand: it ends within two passes, because after one flip the tested byte is
      the complement of a source byte that is known to be no sign byte. */
  method CorrectOperand(a: word, operand: word, prevMask: mask, encoding: bool) returns (dest: word)
    requires prevMask != 0 ==> !IsSignByte(ByteBelow(operand, BitNumber(prevMask)))
    ensures dest == ConvertWord(a, operand, BitNumber(prevMask), encoding)
  {
    var src := operand;
    ghost var flips := 0;
    while true
      invariant flips == 0 ==> src == operand
      invariant flips != 0 ==>
        && flips == 1 && prevMask != 0
        && var d := Pass(a, operand, encoding);
           var k := BitNumber(prevMask);
           IsSignByte(ByteBelow(d, k)) && src == FlipLow(d, k)
      decreases 1 - flips
    {
      dest := Pass(a, src, encoding);
      if prevMask == 0 {
        break;
      }
      var k := BitNumber(prevMask);
      if flips != 0 {
        FlipComplements(a, operand, k, encoding);
      }
      if !IsSignByte(ByteBelow(dest, k)) {
        break;
      }
      src := FlipLow(dest, k);
      flips := flips + 1;
    }
  }

  method NextOpcode(data: array<byte>, start: nat, limit: nat,
                    ghost prevPosT: int, ghost prevMask: mask, ghost f: Transform) returns (bufferPos: nat)
    requires prevPosT < start <= data.Length && limit == data.Length - 4
    ensures start <= bufferPos <= data.Length
    ensures bufferPos < limit ==> IsOpcode(data[bufferPos])
    ensures Scan(data[..], bufferPos, Aged(prevMask, bufferPos - prevPosT), f)
         == Scan(data[..], start, Aged(prevMask, start - prevPosT), f)
  {
    bufferPos := start;
    while bufferPos < limit && !IsOpcode(data[bufferPos])
      invariant start <= bufferPos <= data.Length
      invariant Scan(data[..], bufferPos, Aged(prevMask, bufferPos - prevPosT), f)
             == Scan(data[..], start, Aged(prevMask, start - prevPosT), f)
    {
      AgedNext(prevMask, bufferPos - prevPosT);
      bufferPos := bufferPos + 1;
    }
  }

  lemma AgedNext(m: mask, d: int)
    requires 1 <= d
    ensures Aged(m, d + 1) == 2 * Aged(m, d) % 8
  {
  }

  method X86Convert(data: array<byte>, ip: word, state: word, encoding: bool)
    returns (processed: nat, newState: word)
    modifies data
    ensures data.Length < 5 ==> processed == 0 && newState == state && data[..] == old(data[..])
    ensures data.Length >= 5 ==>
      var r := Convert(old(data[..]), state % 8, (ip + 5) % TWO32, encoding);
      data[..] == r.data && processed == r.pos && newState == r.mask
  {
    var size := data.Length;
    if size < 5 {
      return 0, state;
    }
    var ip' := (ip + 5) % TWO32;
    var bufferPos, prevPosT, prevMask: mask := 0, -1, state % 8;
    ghost var f := Operand(ip', encoding);
    ghost var whole := Scan(data[..], 0, prevMask, f);
    while true
      invariant -1 <= prevPosT < bufferPos <= size
      invariant Scan(data[..], bufferPos, Aged(prevMask, bufferPos - prevPosT), f) == whole
      decreases size - bufferPos
    {
      var limit := size - 4;
      bufferPos := NextOpcode(data, bufferPos, limit, prevPosT, prevMask, f);
      if bufferPos >= limit {
        break;
      }
      prevMask := Aged(prevMask, bufferPos - prevPosT);
      prevPosT := bufferPos;
      bufferPos, prevMask := AtOpcode(data, bufferPos, prevMask, ip', encoding);
    }
    return bufferPos, Aged(prevMask, bufferPos - prevPosT);
  }

  /** Converts the operand at `pos` or leaves it alone, whichever the scan asks for. */
  method AtOpcode(data: array<byte>, pos: nat, prevMask: mask, ip: word, encoding: bool)
    returns (next: nat, newMask: mask)
    requires pos + 4 < data.Length && IsOpcode(data[pos])
    modifies data
    ensures pos < next <= data.Length
    ensures Scan(data[..], next, Aged(newMask, next - pos), Operand(ip, encoding))
         == old(Scan(data[..], pos, prevMask, Operand(ip, encoding)))
  {
    var blocked := false;
    if prevMask != 0 {
      var b := data[pos + 4 - BitNumber(prevMask)];
      blocked := !Allowed(prevMask) || IsSignByte(b);
    }
    if !blocked && IsSignByte(data[pos + 4]) {
      ConvertAt(data, pos, prevMask, ip, encoding);
      return pos + 5, prevMask;
    } else {
      return pos + 1, (2 * prevMask) % 8 + 1;
    }
  }

  method ConvertAt(data: array<byte>, pos: nat, prevMask: mask, ip: word, encoding: bool)
    requires pos + 4 < data.Length && Converts(data[..], pos, prevMask)
    modifies data
    ensures data[..] == Rewrite(old(data[..]), pos, prevMask, Operand(ip, encoding))
  {
    var src := Load(data[..], pos);
    LoadedByte(data[..], pos, BitNumber(prevMask));
    var dest := CorrectOperand((ip + pos) % TWO32, src, prevMask, encoding);
    data[pos + 4] := if dest / 0x100_0000 % 2 == 1 then 0xFF else 0;
    data[pos + 3] := dest / 0x1_0000 % 0x100;
    data[pos + 2] := dest / 0x100 % 0x100;
    data[pos + 1] := dest % 0x100;
  }
}
