/**
  The checking twins of the decoding macros, for the dry run: they stop when the input ends, and leave the
  probabilities alone. What the dry run comes to, `DryRun`, is the same before and after each.
*/
module LzmaCheck {
  import opened Words
  import opened RangeCoder
  import opened LzmaSymbol
  import opened LzmaRun
  import opened LzmaBits

  datatype DryWalk = DryWalk(env: Env, src: seq<byte>, probs: seq<prob>, d: DryOutcome)

  /** At control point c of dry run w. */
  ghost predicate DryOn(w: DryWalk, c: Ctl, rd: Rd) {
    && ValidCtl(c) && ValidEnv(w.env, |w.probs|) && rd.buf <= |w.src|
    && DryRun(w.env, c, View(rd, w.src), w.probs) == w.d
  }

  lemma DryStarved(w: DryWalk, c: Ctl, rd: Rd)
    requires DryOn(w, c, rd) && Starved(View(rd, w.src))
    ensures w.d.DryShort?
  {
    hide Move;
  }

  lemma DryMoved(w: DryWalk, c: Ctl, rd: Rd, c': Ctl, rd': Rd)
    requires DryOn(w, c, rd) && !c.End? && rd'.buf <= |w.src| && !Starved(View(rd, w.src))
    requires var p := Move(w.env, c, View(rd, w.src), w.probs);
             p.c == c' && p.rc == View(rd', w.src)
    ensures DryOn(w, c', rd')
  {
    hide Move, View, Starved;
  }

  lemma DryEnd(w: DryWalk, s: Symbol, rd: Rd)
    requires DryOn(w, End(s), rd)
    ensures w.d == if Starved(View(rd, w.src)) then DryShort else DryOut(s, Normalized(View(rd, w.src)))
  {
    hide Move;
  }

  /** NORMALIZE_CHECK. */
  method NormalizeCheck(rd: Rd, src: seq<byte>) returns (ok: bool, rd': Rd)
    requires rd.buf <= |src|
    ensures ok == !Starved(View(rd, src))
    ensures ok ==> rd.buf <= rd'.buf <= |src| && View(rd', src) == Normalized(View(rd, src))
  {
    if rd.range < TOP && rd.buf >= |src| {
      return false, rd;
    }
    ok := true;
    rd' := Normalize(rd, src);
  }

  /** IF_BIT_0_CHECK with UPDATE_0_CHECK or UPDATE_1_CHECK. */
  method CheckBit(probs: array<prob>, slot: nat, rd: Rd, ghost w: DryWalk, ghost c: Ctl, src: seq<byte>)
    returns (ok: bool, bit: bool, rd': Rd)
    requires src == w.src && probs[..] == w.probs && DryOn(w, c, rd) && !c.Direct? && !c.End? && slot == Slot(w.env, c)
    ensures !ok ==> w.d.DryShort?
    ensures ok ==> DryOn(w, Next(w.env, c, bit), rd')
  {
    hide Next, Slot, DryRun, ValidCtl, ValidEnv, Adapted;
    SlotInRange(w.env, c, probs.Length);
    var n;
    bit, rd' := false, rd;
    ok, n := NormalizeCheck(rd, src);
    if !ok {
      DryStarved(w, c, rd);
      return;
    }
    bit, rd' := Decide(n, src, probs[slot]);
    NextValid(w.env, c, bit);
    DryMoved(w, c, rd, Next(w.env, c, bit), rd');
  }

  method CheckDirectBit(rd: Rd, ghost w: DryWalk, ghost c: Ctl, src: seq<byte>)
    returns (ok: bool, ghost bit: bool, rd': Rd)
    requires src == w.src && DryOn(w, c, rd) && c.Direct?
    ensures !ok ==> w.d.DryShort?
    ensures ok ==> DryOn(w, Next(w.env, c, bit), rd')
  {
    hide Next, Slot, DryRun, ValidCtl, ValidEnv;
    var n;
    bit, rd' := false, rd;
    ok, n := NormalizeCheck(rd, src);
    if !ok {
      DryStarved(w, c, rd);
      return;
    }
    var b;
    b, rd' := DecideDirect(n, src);
    bit := b;
    NextValid(w.env, c, bit);
    DryMoved(w, c, rd, Next(w.env, c, bit), rd');
  }

  // ----- Literals -------------------------------------------------------------------------------------

  method CheckLiteral(probs: array<prob>, prob: nat, rd: Rd, ghost w: DryWalk, src: seq<byte>)
    returns (ok: bool, ghost b: byte, rd': Rd)
    requires src == w.src && probs[..] == w.probs && DryOn(w, Lit(1), rd) && prob == w.env.litBase
    ensures !ok ==> w.d.DryShort?
    ensures ok ==> DryOn(w, End(Literal(b)), rd')
  {
    hide DryOn;
    var symbol := 1;
    ok, b, rd' := true, 0, rd;
    while symbol < 0x100
      invariant 1 <= symbol < 0x200
      invariant DryOn(w, if symbol < 0x100 then Lit(symbol) else End(Literal(symbol % 0x100)), rd')
    {
      var bit;
      ok, bit, rd' := CheckBit(probs, prob + symbol, rd', w, Lit(symbol), src);
      if !ok {
        return;
      }
      symbol := 2 * symbol + if bit then 1 else 0;
    }
    ok, b := true, symbol % 0x100;
  }

  method CheckLiteralMatched(probs: array<prob>, prob: nat, matchByte: byte, rd: Rd, ghost w: DryWalk, src: seq<byte>)
    returns (ok: bool, ghost b: byte, rd': Rd)
    requires src == w.src && probs[..] == w.probs && DryOn(w, LitMatched(1, 0x100, matchByte), rd) && prob == w.env.litBase
    ensures !ok ==> w.d.DryShort?
    ensures ok ==> DryOn(w, End(Literal(b)), rd')
  {
    hide DryOn;
    var symbol, offs, m := 1, 0x100, matchByte as int;
    ok, b, rd' := true, 0, rd;
    while symbol < 0x100
      invariant 1 <= symbol < 0x200 && (offs == 0 || offs == 0x100) && m >= 0
      invariant DryOn(w, if symbol < 0x100 then LitMatched(symbol, offs, m) else End(Literal(symbol % 0x100)), rd')
    {
      ghost var c := LitMatched(symbol, offs, m);
      m := 2 * m;
      var mbit := if offs != 0 && m / 0x100 % 2 == 1 then 0x100 else 0;
      var bit;
      ok, bit, rd' := CheckBit(probs, prob + offs + mbit + symbol, rd', w, c, src);
      if !ok {
        return;
      }
      symbol := 2 * symbol + if bit then 1 else 0;
      if bit {
        offs := mbit;
      } else if mbit != 0 {
        offs := 0;
      }
    }
    ok, b := true, symbol % 0x100;
  }

  // ----- Lengths ----------------------------------------------------------------------------------------

  /** TREE_DECODE_CHECK of a length tree. */
  method CheckLenTree(probs: array<prob>, probLen: nat, limit: nat, rd: Rd, ghost w: DryWalk, src: seq<byte>,
                      ghost kind: LenKind, ghost region: nat) returns (ok: bool, len: nat, rd': Rd)
    requires src == w.src && probs[..] == w.probs && DryOn(w, Len(kind, region, 1), rd)
    requires region <= 2 && limit == LenLimit(region) && probLen == LenCoder(kind) + LenRegion(region, w.env.posState)
    ensures !ok ==> w.d.DryShort?
    ensures ok ==> len < limit && DryOn(w, AfterLen(kind, len + LenOffset(region)), rd')
  {
    hide DryOn;
    ok, len, rd' := true, 1, rd;
    while len < limit
      invariant 1 <= len < 2 * limit
      invariant DryOn(w, if len < limit then Len(kind, region, len) else AfterLen(kind, len - limit + LenOffset(region)), rd')
      decreases limit - len
    {
      var bit;
      ok, bit, rd' := CheckBit(probs, probLen + len, rd', w, Len(kind, region, len), src);
      if !ok {
        return;
      }
      len := 2 * len + if bit then 1 else 0;
    }
    ok, len := true, len - limit;
  }

  method CheckLen(probs: array<prob>, prob: nat, posState: nat, rd: Rd, ghost w: DryWalk, src: seq<byte>, ghost kind: LenKind)
    returns (ok: bool, len: nat, rd': Rd)
    requires src == w.src && probs[..] == w.probs && DryOn(w, Choice(kind), rd)
    requires prob == LenCoder(kind) && posState == w.env.posState
    ensures !ok ==> w.d.DryShort?
    ensures ok ==> len <= 271 && DryOn(w, AfterLen(kind, len), rd')
  {
    hide DryOn;
    var bit;
    len := 0;
    ok, bit, rd' := CheckBit(probs, prob + LEN_CHOICE, rd, w, Choice(kind), src);
    if !ok {
      return;
    }
    if !bit {
      ok, len, rd' := CheckLenTree(probs, prob + LEN_LOW + 8 * posState, 8, rd', w, src, kind, 0);
    } else {
      ok, bit, rd' := CheckBit(probs, prob + LEN_CHOICE2, rd', w, Choice2(kind), src);
      if !ok {
        return;
      }
      if !bit {
        ok, len, rd' := CheckLenTree(probs, prob + LEN_MID + 8 * posState, 8, rd', w, src, kind, 1);
        len := len + 8;
      } else {
        ok, len, rd' := CheckLenTree(probs, prob + LEN_HIGH, 0x100, rd', w, src, kind, 2);
        len := len + 16;
      }
    }
  }

  // ----- Distances ----------------------------------------------------------------------------------------

  method CheckPosSlot(probs: array<prob>, prob: nat, len: nat, rd: Rd, ghost w: DryWalk, src: seq<byte>)
    returns (ok: bool, slot: nat, rd': Rd)
    requires src == w.src && probs[..] == w.probs && DryOn(w, PosSlot(len, 1), rd)
    requires prob == POS_SLOT + 64 * LenToPosState(len)
    ensures !ok ==> w.d.DryShort?
    ensures ok ==> slot < 64 && DryOn(w, AfterPosSlot(len, slot), rd')
  {
    hide DryOn, AfterPosSlot;
    ok, slot, rd' := true, 1, rd;
    while slot < 64
      invariant 1 <= slot < 128
      invariant DryOn(w, if slot < 64 then PosSlot(len, slot) else AfterPosSlot(len, slot - 64), rd')
      decreases 64 - slot
    {
      var bit;
      ok, bit, rd' := CheckBit(probs, prob + slot, rd', w, PosSlot(len, slot), src);
      if !ok {
        return;
      }
      slot := 2 * slot + if bit then 1 else 0;
    }
    ok, slot := true, slot - 64;
  }

  lemma DrySpecValid(w: DryWalk, c: Ctl, rd: Rd)
    requires DryOn(w, c, rd)
    ensures ValidCtl(c)
    ensures c.Spec? ==> SPEC_POS + SlotBase(c.slot) - c.slot - 1 + c.i >= 0
  {
  }

  /** The modelled bits of a distance: the value itself is of no interest to the dry run. */
  method CheckSpec(probs: array<prob>, len: nat, slot: nat, rd: Rd, ghost w: DryWalk, src: seq<byte>)
    returns (ok: bool, ghost distance: nat, rd': Rd)
    requires 4 <= slot < 14
    requires src == w.src && probs[..] == w.probs && DryOn(w, AfterPosSlot(len, slot), rd)
    ensures !ok ==> w.d.DryShort?
    ensures ok ==> DryOn(w, End(Match(distance, len)), rd')
  {
    hide DryOn, SlotBase;
    distance := SlotBase(slot);
    var prob := SPEC_POS + SlotBase(slot) - slot - 1;
    var i, numDirectBits := 1, slot / 2 - 1;
    ghost var mask := 1;
    ok, rd' := true, rd;
    while numDirectBits != 0
      invariant i >= 1 && mask >= 1 && numDirectBits >= 0
      invariant DryOn(w, if numDirectBits == 0 then End(Match(distance, len))
                         else Spec(len, slot, i, distance, mask, numDirectBits), rd')
    {
      var bit;
      DrySpecValid(w, Spec(len, slot, i, distance, mask, numDirectBits), rd');
      ok, bit, rd' := CheckBit(probs, prob + i, rd', w, Spec(len, slot, i, distance, mask, numDirectBits), src);
      if !ok {
        return;
      }
      i := 2 * i + if bit then 1 else 0;
      distance := distance + if bit then mask else 0;
      mask := 2 * mask;
      numDirectBits := numDirectBits - 1;
    }
    ok := true;
  }

  method CheckDirect(len: nat, slot: nat, rd: Rd, ghost w: DryWalk, src: seq<byte>)
    returns (ok: bool, ghost distance: nat, rd': Rd)
    requires 14 <= slot < 64
    requires src == w.src && DryOn(w, AfterPosSlot(len, slot), rd)
    ensures !ok ==> w.d.DryShort?
    ensures ok ==> DryOn(w, Align(len, 1, 16 * distance, 1, 4), rd')
  {
    hide DryOn;
    distance := 2 + slot % 2;
    var numDirectBits := slot / 2 - 1 - 4;
    ok, rd' := true, rd;
    while numDirectBits != 0
      invariant numDirectBits >= 0
      invariant DryOn(w, if numDirectBits == 0 then Align(len, 1, 16 * distance, 1, 4)
                         else Direct(len, distance, numDirectBits), rd')
    {
      ghost var bit;
      ok, bit, rd' := CheckDirectBit(rd', w, Direct(len, distance, numDirectBits), src);
      if !ok {
        return;
      }
      distance := 2 * distance + if bit then 1 else 0;
      numDirectBits := numDirectBits - 1;
    }
    ok := true;
  }

  method CheckAlign(probs: array<prob>, len: nat, ghost high: nat, rd: Rd, ghost w: DryWalk, src: seq<byte>)
    returns (ok: bool, ghost distance: nat, rd': Rd)
    requires src == w.src && probs[..] == w.probs && DryOn(w, Align(len, 1, 16 * high, 1, 4), rd)
    ensures !ok ==> w.d.DryShort?
    ensures ok ==> DryOn(w, DistanceEnd(distance, len), rd')
  {
    hide DryOn;
    var i, n := 1, 4;
    ghost var mask := 1;
    distance := 16 * high;
    ok, rd' := true, rd;
    while n != 0
      invariant i >= 1 && mask >= 1 && n >= 0
      invariant DryOn(w, if n == 0 then DistanceEnd(distance, len) else Align(len, i, distance, mask, n), rd')
    {
      var bit;
      ok, bit, rd' := CheckBit(probs, ALIGN + i, rd', w, Align(len, i, distance, mask, n), src);
      if !ok {
        return;
      }
      i := 2 * i + if bit then 1 else 0;
      distance := distance + if bit then mask else 0;
      mask := 2 * mask;
      n := n - 1;
    }
    ok := true;
  }

  ghost predicate IsMatchKind(s: Symbol) {
    s.Match? || s.EndMark?
  }

  method CheckDistance(probs: array<prob>, len: nat, rd: Rd, ghost w: DryWalk, src: seq<byte>)
    returns (ok: bool, ghost s: Symbol, rd': Rd)
    requires src == w.src && probs[..] == w.probs && DryOn(w, PosSlot(len, 1), rd)
    ensures !ok ==> w.d.DryShort?
    ensures ok ==> IsMatchKind(s) && DryOn(w, End(s), rd')
  {
    hide DryOn, SlotBase;
    var slot;
    s := EndMark(len);
    ok, slot, rd' := CheckPosSlot(probs, POS_SLOT + 64 * LenToPosState(len), len, rd, w, src);
    if !ok {
      return;
    }
    ghost var distance;
    if slot < 4 {
      s := Match(slot, len);
    } else if slot < 14 {
      ok, distance, rd' := CheckSpec(probs, len, slot, rd', w, src);
      s := Match(distance, len);
    } else {
      ok, distance, rd' := CheckDirect(len, slot, rd', w, src);
      if !ok {
        return;
      }
      ok, distance, rd' := CheckAlign(probs, len, distance, rd', w, src);
      s := DistanceEnd(distance, len).symbol;
    }
  }
}
