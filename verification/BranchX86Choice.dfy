/**
  Which opcodes the x86 filter converts, said of the buffer: those with a sign byte that at most one opcode left alone
  comes close before, and that one without a sign byte of its own.
*/
module BranchX86Choice {
  import opened Words
  import opened BranchX86

  /** The opcodes that the scan converts. */
  function Conversions(s: seq<byte>, pos: nat, m: mask, f: Transform): (c: set<int>)
    ensures forall p | p in c :: pos <= p
    decreases |s| - pos
  {
    if pos + 4 >= |s| then {}
    else if Converts(s, pos, m) then {pos} + Conversions(Rewrite(s, pos, m, f), pos + 5, 0, f)
    else Conversions(s, pos + 1, NextMask(s[pos], m), f)
  }

  /** Opcodes left alone in the three bytes before a block. */
  datatype Before = Before(one: bool, two: bool, three: bool)

  const NOTHING := Before(false, false, false)

  function MaskOf(b: Before): mask {
    (if b.one then 1 else 0) + (if b.two then 2 else 0) + if b.three then 4 else 0
  }

  /** Within an operand that is converted. */
  predicate Covered(c: set<int>, p: int) {
    p - 1 in c || p - 2 in c || p - 3 in c || p - 4 in c
  }

  predicate LeftAlone(s: seq<byte>, pos: nat, c: set<int>, b: Before, l: int) {
    if l < pos then (l == pos - 1 && b.one) || (l == pos - 2 && b.two) || (l == pos - 3 && b.three)
    else l < |s| && IsOpcode(s[l]) && l !in c && !Covered(c, l)
  }

  /** How far back an opcode left alone is, looking from p; 0 if there is none within three bytes. */
  function Distance(s: seq<byte>, pos: nat, c: set<int>, b: Before, p: int): bitNumber {
    if LeftAlone(s, pos, c, b, p - 1) then 1
    else if LeftAlone(s, pos, c, b, p - 2) then 2
    else if LeftAlone(s, pos, c, b, p - 3) then 3
    else 0
  }

  predicate AtMostOne(s: seq<byte>, pos: nat, c: set<int>, b: Before, p: int) {
    var x, y, z := LeftAlone(s, pos, c, b, p - 1), LeftAlone(s, pos, c, b, p - 2), LeftAlone(s, pos, c, b, p - 3);
    !(x && y) && !(x && z) && !(y && z)
  }

  predicate Chosen(s: seq<byte>, pos: nat, c: set<int>, b: Before, p: nat) {
    && p + 4 < |s| && IsOpcode(s[p]) && IsSignByte(s[p + 4]) && !Covered(c, p) && AtMostOne(s, pos, c, b, p)
    && var k := Distance(s, pos, c, b, p); k > 0 ==> !IsSignByte(s[p - k + 4])
  }

  lemma HereChosen(s: seq<byte>, pos: nat, c: set<int>, b: Before)
    requires pos + 4 < |s| && forall q | q in c :: pos <= q
    ensures Chosen(s, pos, c, b, pos) <==> Converts(s, pos, MaskOf(b))
    ensures Converts(s, pos, MaskOf(b)) ==> Distance(s, pos, c, b, pos) == BitNumber(MaskOf(b))
  {
    var m := MaskOf(b);
    assert LeftAlone(s, pos, c, b, pos - 1) == b.one;
    assert LeftAlone(s, pos, c, b, pos - 2) == b.two;
    assert LeftAlone(s, pos, c, b, pos - 3) == b.three;
    assert !Covered(c, pos);
  }

  lemma NextBefore(b: Before, x: byte)
    ensures MaskOf(Before(IsOpcode(x), b.one, b.two)) == NextMask(x, MaskOf(b))
  {
  }

  /** Over a byte that is left alone, what was left alone is the same. */
  lemma LeftOn(s: seq<byte>, pos: nat, c: set<int>, b: Before, p: nat, i: nat)
    requires pos < |s| && pos < p && 1 <= i <= 3 && forall q | q in c :: pos + 1 <= q
    ensures LeftAlone(s, pos + 1, c, Before(IsOpcode(s[pos]), b.one, b.two), p - i) == LeftAlone(s, pos, c, b, p - i)
  {
  }

  /** After a conversion, what is near is what comes after its operand. */
  lemma LeftAfter(s: seq<byte>, s': seq<byte>, pos: nat, c: set<int>, b: Before, p: nat, i: nat)
    requires pos + 4 < |s| == |s'| && pos + 5 <= p && 1 <= i <= 3 && forall q | q in c :: pos + 5 <= q
    requires forall j | pos + 5 <= j < |s| :: s'[j] == s[j]
    ensures LeftAlone(s', pos + 5, c, NOTHING, p - i) == LeftAlone(s, pos, {pos} + c, b, p - i)
  {
  }

  lemma CoveredAfter(pos: nat, c: set<int>, p: nat)
    requires pos + 5 <= p
    ensures Covered({pos} + c, p) == Covered(c, p)
  {
  }

  /** The scan converts an opcode if and only if it has a sign byte, is not within a converted operand, and of the opcodes
      within the three bytes before it that were left alone there is at most one, without a sign byte of its own. */
  lemma {:induction false} ConvertsExactly(s: seq<byte>, pos: nat, b: Before, f: Transform, p: nat)
    requires pos <= p
    ensures var c := Conversions(s, pos, MaskOf(b), f);
            p in c <==> Chosen(s, pos, c, b, p)
    decreases |s| - pos
  {
    hide Chosen, Converts, MaskOf, NextMask;
    var m := MaskOf(b);
    var c := Conversions(s, pos, m, f);
    if pos + 4 >= |s| {
      NotLongEnough(s, pos, c, b, p);
    } else if p == pos {
      HereChosen(s, pos, c, b);
    } else if Converts(s, pos, m) {
      var s' := Rewrite(s, pos, m, f);
      var c' := Conversions(s', pos + 5, 0, f);
      if p <= pos + 4 {
        assert Covered(c, p);
        CoveredNot(s, pos, c, b, p);
      } else {
        NothingMask();
        ConvertsExactly(s', pos + 5, NOTHING, f, p);
        ChosenAfter(s, s', pos, c', b, p);
      }
    } else {
      var b' := Before(IsOpcode(s[pos]), b.one, b.two);
      NextBefore(b, s[pos]);
      ConvertsExactly(s, pos + 1, b', f, p);
      ChosenOn(s, pos, c, b, p);
    }
  }

  lemma NothingMask()
    ensures MaskOf(NOTHING) == 0
  {
  }

  lemma NotLongEnough(s: seq<byte>, pos: nat, c: set<int>, b: Before, p: nat)
    requires p + 4 >= |s|
    ensures !Chosen(s, pos, c, b, p)
  {
  }

  lemma CoveredNot(s: seq<byte>, pos: nat, c: set<int>, b: Before, p: nat)
    requires Covered(c, p)
    ensures !Chosen(s, pos, c, b, p)
  {
  }

  lemma SameDistance(s: seq<byte>, pos: nat, c: set<int>, b: Before, s': seq<byte>, pos': nat, c': set<int>, b': Before, p: nat)
    requires LeftAlone(s', pos', c', b', p - 1) == LeftAlone(s, pos, c, b, p - 1)
    requires LeftAlone(s', pos', c', b', p - 2) == LeftAlone(s, pos, c, b, p - 2)
    requires LeftAlone(s', pos', c', b', p - 3) == LeftAlone(s, pos, c, b, p - 3)
    ensures Distance(s', pos', c', b', p) == Distance(s, pos, c, b, p)
    ensures AtMostOne(s', pos', c', b', p) == AtMostOne(s, pos, c, b, p)
  {
    hide LeftAlone;
  }

  lemma ChosenOn(s: seq<byte>, pos: nat, c: set<int>, b: Before, p: nat)
    requires pos < |s| && pos < p && forall q | q in c :: pos + 1 <= q
    ensures var b' := Before(IsOpcode(s[pos]), b.one, b.two);
            && Chosen(s, pos + 1, c, b', p) == Chosen(s, pos, c, b, p)
            && Distance(s, pos + 1, c, b', p) == Distance(s, pos, c, b, p)
  {
    hide LeftAlone, Distance, AtMostOne, Covered;
    var b' := Before(IsOpcode(s[pos]), b.one, b.two);
    LeftOn(s, pos, c, b, p, 1);
    LeftOn(s, pos, c, b, p, 2);
    LeftOn(s, pos, c, b, p, 3);
    SameDistance(s, pos, c, b, s, pos + 1, c, b', p);
  }

  lemma ChosenAfter(s: seq<byte>, s': seq<byte>, pos: nat, c: set<int>, b: Before, p: nat)
    requires pos + 4 < |s| == |s'| && pos + 5 <= p && forall q | q in c :: pos + 5 <= q
    requires forall j | pos + 5 <= j < |s| :: s'[j] == s[j]
    ensures Chosen(s', pos + 5, c, NOTHING, p) == Chosen(s, pos, {pos} + c, b, p)
    ensures Distance(s', pos + 5, c, NOTHING, p) == Distance(s, pos, {pos} + c, b, p)
  {
    hide LeftAlone, AtMostOne, Covered;
    LeftAfter(s, s', pos, c, b, p, 1);
    LeftAfter(s, s', pos, c, b, p, 2);
    LeftAfter(s, s', pos, c, b, p, 3);
    SameDistance(s, pos, {pos} + c, b, s', pos + 5, c, NOTHING, p);
    CoveredAfter(pos, c, p);
    Near(s', pos + 5, c, p);
  }

  /** What was left alone lies after the last operand. */
  lemma Near(s: seq<byte>, pos: nat, c: set<int>, p: nat)
    requires pos <= p
    ensures var k := Distance(s, pos, c, NOTHING, p); k > 0 ==> pos <= p - k
  {
  }

  /** The operand at p is converted with the distance to that opcode, 0 if there is none. */
  lemma {:induction false} ConvertsWith(s: seq<byte>, pos: nat, b: Before, f: Transform, p: nat, k: bitNumber)
    requires pos <= p
    ensures var c := Conversions(s, pos, MaskOf(b), f);
            ConvertsAt(s, pos, MaskOf(b), f, p, k) <==> p in c && k == Distance(s, pos, c, b, p)
    decreases |s| - pos
  {
    hide Converts, MaskOf, NextMask, Distance;
    var m := MaskOf(b);
    var c := Conversions(s, pos, m, f);
    if pos + 4 >= |s| {
    } else if Converts(s, pos, m) {
      var s' := Rewrite(s, pos, m, f);
      var c' := Conversions(s', pos + 5, 0, f);
      if p == pos {
        HereChosen(s, pos, c, b);
        NotBefore(s', pos + 5, 0, f, p, k);
      } else if p <= pos + 4 {
        NotBefore(s', pos + 5, 0, f, p, k);
      } else {
        NothingMask();
        ConvertsWith(s', pos + 5, NOTHING, f, p, k);
        ChosenAfter(s, s', pos, c', b, p);
      }
    } else {
      var b' := Before(IsOpcode(s[pos]), b.one, b.two);
      NextBefore(b, s[pos]);
      if p == pos {
        NotBefore(s, pos + 1, NextMask(s[pos], m), f, p, k);
      } else {
        ConvertsWith(s, pos + 1, b', f, p, k);
        ChosenOn(s, pos, c, b, p);
      }
    }
  }

  lemma NotBefore(s: seq<byte>, pos: nat, m: mask, f: Transform, p: nat, k: bitNumber)
    requires p < pos
    ensures !ConvertsAt(s, pos, m, f, p, k)
  {
    if ConvertsAt(s, pos, m, f, p, k) {
      ConvertedOperand(s, pos, m, f, p, k);
    }
  }

  // ----- Opcodes and sign bytes ------------------------------------------------------------------------------

  /** The value of a word as a signed number. */
  function Signed32(w: word): int {
    if w < 0x8000_0000 then w else w - TWO32
  }

  /** The operand that follows is one of 25 bits with a sign exactly if its last byte is a sign byte. */
  lemma SignByteMeans(s: seq<byte>, pos: nat)
    requires pos + 4 < |s|
    ensures IsSignByte(s[pos + 4]) <==> -0x100_0000 <= Signed32(Load(s, pos)) < 0x100_0000
  {
  }

  lemma OpcodeBits(b: byte)
    ensures IsOpcode(b) <==> b as bv8 & 0xFE == 0xE8
  {
  }

  const APART: seq<byte> := [0xE8, 1, 2, 0xE8, 0x10, 0, 0, 0]

  /** An opcode with another three bytes before it, which is left alone as its fifth byte is no sign byte. */
  lemma ThreeApart()
    ensures Convert(APART, 0, 5, true) == Scanned([0xE8, 1, 2, 0xE8, 0x18, 0, 0, 0], 8, 0)
  {
    hide Scan, Rewrite;
    var f := Operand(5, true);
    ScanPasses(APART, 0, 0, f);
    ScanPasses(APART, 1, 1, f);
    ScanPasses(APART, 2, 2, f);
    ScanConverts(APART, 3, 4, f);
    ApartConverted();
    ScanEnds(Rewrite(APART, 3, 4, f), 8, 0, f);
  }

  lemma ApartConverted()
    ensures Rewrite(APART, 3, 4, Operand(5, true)) == [0xE8, 1, 2, 0xE8, 0x18, 0, 0, 0]
  {
    var f := Operand(5, true);
    assert Load(APART, 3) == 0x10;
    assert f(3, 0x10, 3) == 0x18 by {
      DivUnique(8, TWO32, 0, 8);
      DivUnique(0x18, TWO32, 0, 0x18);
    }
  }

  lemma ScanPasses(s: seq<byte>, pos: nat, m: mask, f: Transform)
    requires pos + 4 < |s| && !Converts(s, pos, m)
    ensures Scan(s, pos, m, f) == Scan(s, pos + 1, NextMask(s[pos], m), f)
  {
    hide Converts;
  }

  lemma ScanEnds(s: seq<byte>, pos: nat, m: mask, f: Transform)
    requires pos + 4 >= |s|
    ensures Scan(s, pos, m, f) == Scanned(s, pos, m)
  {
  }
}
