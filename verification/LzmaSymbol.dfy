/**
  One LZMA symbol as a walk of a control automaton. At each control point the decoder either reads a
  modelled bit, with a probability slot that depends on the point, or a direct bit, and moves on; it
  ends with a symbol. The decoder proper and its dry run both follow this walk.
*/
module LzmaSymbol {
  import opened Words
  import opened RangeCoder

  // ----- Layout of the probability array --------------------------------------------------------

  const IS_MATCH := 0
  const IS_REP := 192
  const IS_REP_G0 := 204
  const IS_REP_G1 := 216
  const IS_REP_G2 := 228
  const IS_REP0_LONG := 240
  const POS_SLOT := 432
  const SPEC_POS := 688
  const ALIGN := 802
  const LEN_CODER := 818
  const REP_LEN_CODER := 1332
  const LITERAL := 1846
  const LIT_SIZE := 768

  const LEN_CHOICE := 0
  const LEN_CHOICE2 := 1
  const LEN_LOW := 2
  const LEN_MID := 130
  const LEN_HIGH := 258

  const NUM_STATES := 12
  const NUM_LIT_STATES := 7

  // ----- Symbols and control points ---------------------------------------------------------------

  /** Lengths are as coded: the shortest match has length 0 here. */
  datatype Symbol =
    | Literal(b: byte)
    | ShortRep
    | Rep(which: nat, len: nat)
    | Match(dist: nat, len: nat)
    | EndMark(len: nat)

  /** What the contexts of a symbol depend on, fixed before its first bit. */
  datatype Env = Env(state: nat, posState: nat, litBase: nat, matchByte: byte)

  ghost predicate ValidEnv(env: Env, numProbs: nat) {
    && env.state < NUM_STATES && env.posState < 16
    && LITERAL <= env.litBase && (env.litBase - LITERAL) % 0x100 == 0
    && env.litBase + LIT_SIZE <= numProbs
  }

  /** Whose length is decoded. */
  datatype LenKind = MatchLen | RepLen(which: nat)

  datatype Ctl =
    | IsMatch
    | Lit(sym: nat)
    | LitMatched(sym: nat, offs: nat, matchByte: nat)
    | IsRep
    | RepG0
    | Rep0Long
    | RepG1
    | RepG2
    | Choice(kind: LenKind)
    | Choice2(kind: LenKind)
    | Len(kind: LenKind, region: nat, i: nat)
    | PosSlot(len: nat, i: nat)
    | Spec(len: nat, slot: nat, i: nat, dist: nat, mask: nat, n: nat)
    | Direct(len: nat, dist: nat, n: nat)
    | Align(len: nat, i: nat, dist: nat, mask: nat, n: nat)
    | End(symbol: Symbol)

  function LenLimit(region: nat): nat {
    if region == 2 then 0x100 else 8
  }

  function LenOffset(region: nat): nat {
    8 * region
  }

  function Pow2(n: nat): nat {
    if n == 0 then 1 else 2 * Pow2(n - 1)
  }

  /** Powers of two up to 32. */
  function P2(n: nat): nat {
    if n == 0 then 1 else if n == 1 then 2 else if n == 2 then 4 else if n == 3 then 8 else if n == 4 then 16 else 32
  }

  /** The first distance of a position slot from 4 on, before its low bits. */
  function SlotBase(slot: nat): nat
    requires 4 <= slot < 14
  {
    (2 + slot % 2) * P2(slot / 2 - 1)
  }

  predicate ValidKind(k: LenKind) {
    k.RepLen? ==> k.which < 4
  }

  predicate ValidSymbol(s: Symbol) {
    match s
    case Literal(_) => true
    case ShortRep => true
    case Rep(which, len) => which < 4 && len <= 271
    case Match(dist, len) => dist < 0xFFFF_FFFF && len <= 271
    case EndMark(len) => len <= 271
  }

  ghost predicate ValidCtl(c: Ctl) {
    match c
    case IsMatch => true
    case IsRep => true
    case RepG0 => true
    case RepG1 => true
    case RepG2 => true
    case Rep0Long => true
    case Lit(sym) => 1 <= sym < 0x100
    case LitMatched(sym, offs, _) => 1 <= sym < 0x100 && (offs == 0 || offs == 0x100)
    case Choice(k) => ValidKind(k)
    case Choice2(k) => ValidKind(k)
    case Len(k, region, i) => ValidKind(k) && region <= 2 && 1 <= i < LenLimit(region)
    case PosSlot(len, i) => len <= 271 && 1 <= i < 64
    case Spec(len, slot, i, dist, mask, n) =>
      && len <= 271 && 4 <= slot < 14 && 1 <= n <= 5 && mask <= i < 2 * mask
      && mask * P2(n) == P2(slot / 2 - 1) && dist < SlotBase(slot) + mask
    case Direct(len, dist, n) => len <= 271 && 1 <= n <= 26 && (dist + 1) * Pow2(n) <= 0x1000_0000
    case Align(len, i, dist, mask, n) =>
      len <= 271 && 1 <= n <= 4 && mask <= i < 2 * mask && mask * P2(n) == 16 && dist < TWO32 - 16 + mask
    case End(s) => ValidSymbol(s)
  }

  // ----- Slots --------------------------------------------------------------------------------------

  function LenCoder(k: LenKind): nat {
    if k.MatchLen? then LEN_CODER else REP_LEN_CODER
  }

  function LenRegion(region: nat, posState: nat): nat {
    if region == 0 then LEN_LOW + 8 * posState else if region == 1 then LEN_MID + 8 * posState else LEN_HIGH
  }

  function LenToPosState(len: nat): nat {
    if len < 4 then len else 3
  }

  /** The bit of the match byte that the next literal bit is compared with, or 0 after a mismatch. */
  function MatchBit(offs: nat, matchByte: nat): nat {
    if offs != 0 && 2 * matchByte / 0x100 % 2 == 1 then 0x100 else 0
  }

  /** The probability that a control point uses. */
  function Slot(env: Env, c: Ctl): (s: int)
    requires !c.Direct? && !c.End?
    requires c.Spec? ==> 4 <= c.slot < 14
  {
    match c
    case IsMatch => IS_MATCH + 16 * env.state + env.posState
    case Lit(sym) => env.litBase + sym
    case LitMatched(sym, offs, mb) => env.litBase + offs + MatchBit(offs, mb) + sym
    case IsRep => IS_REP + env.state
    case RepG0 => IS_REP_G0 + env.state
    case Rep0Long => IS_REP0_LONG + 16 * env.state + env.posState
    case RepG1 => IS_REP_G1 + env.state
    case RepG2 => IS_REP_G2 + env.state
    case Choice(k) => LenCoder(k) + LEN_CHOICE
    case Choice2(k) => LenCoder(k) + LEN_CHOICE2
    case Len(k, region, i) => LenCoder(k) + LenRegion(region, env.posState) + i
    case PosSlot(len, i) => POS_SLOT + 64 * LenToPosState(len) + i
    case Spec(_, slot, i, _, _, _) => SPEC_POS + SlotBase(slot) - slot - 1 + i
    case Align(_, i, _, _, _) => ALIGN + i
  }

  // ----- Moves ----------------------------------------------------------------------------------------

  function AfterLen(k: LenKind, len: nat): Ctl {
    if k.MatchLen? then PosSlot(len, 1) else End(Rep(k.which, len))
  }

  function AfterPosSlot(len: nat, slot: nat): Ctl {
    if slot < 4 then End(Match(slot, len))
    else if slot < 14 then Spec(len, slot, 1, SlotBase(slot), 1, slot / 2 - 1)
    else Direct(len, 2 + slot % 2, slot / 2 - 5)
  }

  function Next(env: Env, c: Ctl, bit: bool): Ctl
    requires !c.End?
  {
    var b := if bit then 1 else 0;
    match c
    case IsMatch =>
      if bit then IsRep else if env.state < NUM_LIT_STATES then Lit(1) else LitMatched(1, 0x100, env.matchByte)
    case Lit(sym) =>
      var s := 2 * sym + b;
      if s < 0x100 then Lit(s) else End(Literal(s % 0x100))
    case LitMatched(sym, offs, mb) =>
      var s := 2 * sym + b;
      var m := MatchBit(offs, mb);
      if s < 0x100 then LitMatched(s, if (m != 0) == bit then offs else 0, 2 * mb) else End(Literal(s % 0x100))
    case IsRep => if bit then RepG0 else Choice(MatchLen)
    case RepG0 => if bit then RepG1 else Rep0Long
    case Rep0Long => if bit then Choice(RepLen(0)) else End(ShortRep)
    case RepG1 => if bit then RepG2 else Choice(RepLen(1))
    case RepG2 => if bit then Choice(RepLen(3)) else Choice(RepLen(2))
    case Choice(k) => if bit then Choice2(k) else Len(k, 0, 1)
    case Choice2(k) => if bit then Len(k, 2, 1) else Len(k, 1, 1)
    case Len(k, region, i) =>
      var j := 2 * i + b;
      if j < LenLimit(region) then Len(k, region, j) else AfterLen(k, j - LenLimit(region) + LenOffset(region))
    case PosSlot(len, i) =>
      var j := 2 * i + b;
      if j < 64 then PosSlot(len, j) else AfterPosSlot(len, j - 64)
    case Spec(len, slot, i, dist, mask, n) =>
      var d := dist + b * mask;
      if n > 1 then Spec(len, slot, 2 * i + b, d, 2 * mask, n - 1) else End(Match(d, len))
    case Direct(len, dist, n) =>
      var d := 2 * dist + b;
      if n > 1 then Direct(len, d, n - 1) else Align(len, 1, 16 * d, 1, 4)
    case Align(len, i, dist, mask, n) =>
      var d := dist + b * mask;
      if n > 1 then Align(len, 2 * i + b, d, 2 * mask, n - 1)
      else if d == 0xFFFF_FFFF then End(EndMark(len)) else End(Match(d, len))
  }

  // ----- How much is left -------------------------------------------------------------------------------

  /** How many doublings it takes i to reach limit. */
  function Left(i: nat, limit: nat): nat
    decreases limit - i
  {
    if 0 < i < limit then 1 + Left(2 * i, limit) else 0
  }

  function AfterLenModel(k: LenKind): nat {
    if k.MatchLen? then 10 else 0
  }

  /** At most how many modelled bits are left. */
  function ModelLeft(c: Ctl): nat {
    match c
    case IsMatch => 22
    case Lit(sym) => Left(sym, 0x100)
    case LitMatched(sym, _, _) => Left(sym, 0x100)
    case IsRep => 21
    case RepG0 => 13
    case Rep0Long => 11
    case RepG1 => 12
    case RepG2 => 11
    case Choice(k) => 10 + AfterLenModel(k)
    case Choice2(k) => 9 + AfterLenModel(k)
    case Len(k, region, i) => Left(i, LenLimit(region)) + AfterLenModel(k)
    case PosSlot(_, i) => Left(i, 64) + 4
    case Spec(_, _, _, _, _, n) => n
    case Direct(_, _, _) => 4
    case Align(_, _, _, _, n) => n
    case End(_) => 0
  }

  /** At most how many direct bits are left. */
  function DirectLeft(c: Ctl): nat {
    match c
    case IsMatch => 26
    case IsRep => 26
    case Choice(k) => if k.MatchLen? then 26 else 0
    case Choice2(k) => if k.MatchLen? then 26 else 0
    case Len(k, _, _) => if k.MatchLen? then 26 else 0
    case PosSlot(_, _) => 26
    case Direct(_, _, n) => n
    case _ => 0
  }

  function Rank(c: Ctl): nat {
    ModelLeft(c) + DirectLeft(c)
  }

  lemma {:induction false} Pow2Grows(m: nat, n: nat)
    requires m <= n
    ensures 1 <= Pow2(m) <= Pow2(n)
    decreases n
  {
    if m < n {
      Pow2Grows(m, n - 1);
    } else if n > 0 {
      Pow2Grows(m - 1, n - 1);
    }
  }

  lemma NoLess(x: nat, d: nat)
    requires d > 0
    ensures x / d >= 0
  {
  }

  function Shr(x: nat, n: nat): nat {
    Pow2Grows(0, n);
    NoLess(x, Pow2(n));
    x / Pow2(n)
  }

  lemma Pow2Values()
    ensures Pow2(8) == 0x100 && Pow2(12) == 0x1000 && Pow2(26) == 0x400_0000
  {
    assert Pow2(4) == 16;
    assert Pow2(8) == 0x100;
    assert Pow2(12) == 0x1000;
    assert Pow2(16) == 0x1_0000;
    assert Pow2(20) == 0x10_0000;
    assert Pow2(24) == 0x100_0000;
  }

  lemma AfterPosSlotValid(len: nat, slot: nat)
    requires len <= 271 && slot < 64
    ensures ValidCtl(AfterPosSlot(len, slot))
  {
    if slot >= 14 {
      Pow2Grows(slot / 2 - 5, 26);
      Pow2Values();
    }
  }

  lemma DirectNextValid(len: nat, dist: nat, n: nat, bit: bool)
    requires ValidCtl(Direct(len, dist, n))
    ensures forall env :: ValidCtl(Next(env, Direct(len, dist, n), bit))
  {
    var d := 2 * dist + if bit then 1 else 0;
    Halve(d + 1, dist + 1, Pow2(n - 1));
    if n == 1 {
      assert d < 0x1000_0000;
    }
  }

  lemma Halve(x: nat, y: nat, p: nat)
    requires x <= 2 * y
    ensures x * p <= y * (2 * p)
  {
    assert y * (2 * p) == (2 * y) * p;
    assert (2 * y) * p == x * p + (2 * y - x) * p;
  }

  lemma NextValid(env: Env, c: Ctl, bit: bool)
    requires ValidCtl(c) && !c.End?
    ensures ValidCtl(Next(env, c, bit))
  {
    hide ValidCtl, Next;
    if c.PosSlot? {
      PosSlotNextValid(env, c.len, c.i, bit);
    } else if c.Spec? {
      SpecNextValid(env, c, bit);
    } else if c.Direct? {
      DirectNextValid(c.len, c.dist, c.n, bit);
    } else if c.Align? {
      AlignNextValid(env, c, bit);
    } else {
      OtherNextValid(env, c, bit);
    }
  }

  lemma PosSlotNextValid(env: Env, len: nat, i: nat, bit: bool)
    requires ValidCtl(PosSlot(len, i))
    ensures ValidCtl(Next(env, PosSlot(len, i), bit))
  {
    hide AfterPosSlot, Pow2, P2;
    var j := 2 * i + if bit then 1 else 0;
    if j >= 64 {
      AfterPosSlotValid(len, j - 64);
    }
  }

  lemma AlignNextValid(env: Env, c: Ctl, bit: bool)
    requires ValidCtl(c) && c.Align?
    ensures ValidCtl(Next(env, c, bit))
  {
    hide Pow2;
  }

  /** Control points outside the distance. */
  lemma OtherNextValid(env: Env, c: Ctl, bit: bool)
    requires ValidCtl(c) && !c.PosSlot? && !c.Spec? && !c.Direct? && !c.Align? && !c.End?
    ensures ValidCtl(Next(env, c, bit))
  {
    hide P2, Pow2, SlotBase, AfterPosSlot;
  }

  lemma SpecNextValid(env: Env, c: Ctl, bit: bool)
    requires ValidCtl(c) && c.Spec?
    ensures ValidCtl(Next(env, c, bit))
  {
  }

  lemma {:induction false} LeftAntitone(i: nat, j: nat, limit: nat)
    requires 1 <= i <= j
    ensures Left(j, limit) <= Left(i, limit)
    decreases limit - i
  {
    if j < limit {
      LeftAntitone(2 * i, 2 * j, limit);
    }
  }

  lemma LeftShrinks(i: nat, limit: nat, b: nat)
    requires 1 <= i < limit && b <= 1
    ensures Left(2 * i + b, limit) < Left(i, limit)
  {
    LeftAntitone(2 * i, 2 * i + b, limit);
  }

  lemma LeftAtRoot()
    ensures Left(1, 8) == 3 && Left(1, 64) == 6 && Left(1, 0x100) == 8
  {
    assert Left(16, 0x100) == 4;
    assert Left(8, 64) == 3;
  }

  /** What one move takes from the bits that are left. Only the position slots 4 to 13 trade the direct bits
      for one modelled bit more than the others have. */
  predicate Spends(c: Ctl, d: Ctl) {
    if c.Direct? then
      ModelLeft(d) <= ModelLeft(c) && DirectLeft(d) < DirectLeft(c)
    else if d.Spec? && c.PosSlot? then
      ModelLeft(d) <= ModelLeft(c) == 5 && DirectLeft(d) == 0 && DirectLeft(c) == 26
    else
      ModelLeft(d) < ModelLeft(c) && DirectLeft(d) <= DirectLeft(c)
  }

  lemma LiteralSpends(env: Env, c: Ctl, bit: bool)
    requires ValidCtl(c) && (c.Lit? || c.LitMatched?)
    ensures Spends(c, Next(env, c, bit))
  {
    LeftShrinks(c.sym, 0x100, if bit then 1 else 0);
  }

  lemma LenSpends(env: Env, c: Ctl, bit: bool)
    requires ValidCtl(c) && (c.Choice? || c.Choice2? || c.Len?)
    ensures Spends(c, Next(env, c, bit))
  {
    LeftAtRoot();
    if c.Len? {
      LeftShrinks(c.i, LenLimit(c.region), if bit then 1 else 0);
    }
  }

  lemma DistanceSpends(env: Env, c: Ctl, bit: bool)
    requires ValidCtl(c) && (c.PosSlot? || c.Spec? || c.Direct? || c.Align?)
    ensures Spends(c, Next(env, c, bit))
  {
    if c.PosSlot? {
      LeftShrinks(c.i, 64, if bit then 1 else 0);
      assert 2 * c.i + 1 >= 64 ==> Left(2 * c.i, 64) == 0;
    }
  }

  lemma NextSpends(env: Env, c: Ctl, bit: bool)
    requires ValidCtl(c) && !c.End?
    ensures Spends(c, Next(env, c, bit))
  {
    if c.Lit? || c.LitMatched? {
      LiteralSpends(env, c, bit);
    } else if c.Choice? || c.Choice2? || c.Len? {
      LenSpends(env, c, bit);
    } else if c.PosSlot? || c.Spec? || c.Direct? || c.Align? {
      DistanceSpends(env, c, bit);
    } else {
      LeftAtRoot();
    }
  }

  lemma NextRank(env: Env, c: Ctl, bit: bool)
    requires ValidCtl(c) && !c.End?
    ensures Rank(Next(env, c, bit)) < Rank(c)
  {
    NextSpends(env, c, bit);
  }

  lemma SlotInRange(env: Env, c: Ctl, numProbs: nat)
    requires ValidCtl(c) && ValidEnv(env, numProbs) && !c.Direct? && !c.End?
    ensures 0 <= Slot(env, c) < numProbs
  {
  }
}
