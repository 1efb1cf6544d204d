/**
  The decoding macros of LzmaDec.c as methods on a probability array. Each one moves along the control
  automaton: what the whole walk comes to, its `Run`, is the same before and after.
*/
module LzmaBits {
  import opened Words
  import opened RangeCoder
  import opened LzmaSymbol
  import opened LzmaRun

  /** The locals range, code and buf. */
  datatype Rd = Rd(range: word, code: word, buf: nat)

  function View(rd: Rd, src: seq<byte>): Rc
    requires rd.buf <= |src|
  {
    Rc(rd.range, rd.code, src[rd.buf..])
  }

  /** A walk that has all the input it needs, by what it comes to. */
  datatype Walk = Walk(env: Env, src: seq<byte>, r: Outcome)

  /** At control point c of walk w. */
  ghost predicate On(w: Walk, c: Ctl, rd: Rd, probs: seq<prob>) {
    && ValidCtl(c) && ValidEnv(w.env, |probs|) && rd.buf <= |w.src|
    && w.r.Out? && Run(w.env, c, View(rd, w.src), probs) == w.r
  }

  lemma OnMoved(w: Walk, c: Ctl, rd: Rd, probs: seq<prob>, c': Ctl, rd': Rd, probs': seq<prob>)
    requires On(w, c, rd, probs) && !c.End? && rd'.buf <= |w.src| && !Starved(View(rd, w.src))
    requires Move(w.env, c, View(rd, w.src), probs) == Point(c', View(rd', w.src), probs')
    ensures On(w, c', rd', probs')
  {
    hide Move, View, Starved;
  }

  lemma OnNotStarved(w: Walk, c: Ctl, rd: Rd, probs: seq<prob>)
    requires On(w, c, rd, probs)
    ensures !Starved(View(rd, w.src))
  {
    hide Move;
  }

  lemma OnEnd(w: Walk, s: Symbol, rd: Rd, probs: seq<prob>)
    requires On(w, End(s), rd, probs)
    ensures !Starved(View(rd, w.src)) && ValidSymbol(s) && w.r == Out(s, Normalized(View(rd, w.src)), probs)
  {
    hide Move;
  }

  // ----- One bit --------------------------------------------------------------------------------------

  /** NORMALIZE. */
  method Normalize(rd: Rd, src: seq<byte>) returns (rd': Rd)
    requires rd.buf <= |src| && !Starved(View(rd, src))
    ensures rd.buf <= rd'.buf <= |src| && View(rd', src) == Normalized(View(rd, src))
  {
    if rd.range < TOP {
      assert src[rd.buf..][1..] == src[rd.buf + 1..];
      rd' := Rd(0x100 * rd.range, (0x100 * rd.code + src[rd.buf]) % TWO32, rd.buf + 1);
    } else {
      rd' := rd;
    }
  }

  /** IF_BIT_0 after normalisation. */
  method Decide(n: Rd, src: seq<byte>, ttt: prob) returns (bit: bool, rd': Rd)
    requires n.buf <= |src|
    ensures bit == ModelBit(View(n, src), ttt) && rd'.buf == n.buf
    ensures View(rd', src) == AfterModelBit(View(n, src), ttt)
  {
    BoundInside(n.range, ttt);
    var bound := Bound(n.range, ttt);
    if n.code < bound {
      bit, rd' := false, Rd(bound, n.code, n.buf);
    } else {
      bit, rd' := true, Rd(n.range - bound, n.code - bound, n.buf);
    }
  }

  /** IF_BIT_0 with UPDATE_0 or UPDATE_1. */
  method GetBit(probs: array<prob>, slot: nat, rd: Rd, ghost w: Walk, ghost c: Ctl, src: seq<byte>)
    returns (bit: bool, rd': Rd)
    requires src == w.src && On(w, c, rd, probs[..]) && !c.Direct? && !c.End? && slot == Slot(w.env, c)
    modifies probs
    ensures On(w, Next(w.env, c, bit), rd', probs[..]) && rd.buf <= rd'.buf
  {
    hide Next, Slot, Run, ValidCtl, ValidEnv, Adapted;
    SlotInRange(w.env, c, probs.Length);
    OnNotStarved(w, c, rd, probs[..]);
    var ttt := probs[slot];
    var n := Normalize(rd, src);
    bit, rd' := Decide(n, src, ttt);
    probs[slot] := Adapted(ttt, bit);
    NextValid(w.env, c, bit);
    assert probs[..] == old(probs[..])[slot := Adapted(ttt, bit)];
    OnMoved(w, c, rd, old(probs[..]), Next(w.env, c, bit), rd', probs[..]);
  }

  /** The direct bit after normalisation: the sign of code - range decides, without a branch on it. */
  method DecideDirect(n: Rd, src: seq<byte>) returns (bit: bool, rd': Rd)
    requires n.buf <= |src|
    ensures bit == DirectBit(View(n, src)) && rd'.buf == n.buf
    ensures View(rd', src) == AfterDirectBit(View(n, src))
  {
    var range := n.range / 2;
    var code := (n.code - range) % TWO32;
    var t := if code >= 0x8000_0000 then TWO32 - 1 else 0;
    bit := (t + 1) % TWO32 == 1;
    if t != 0 {
      code := (code + range) % TWO32;
    }
    rd' := Rd(range, code, n.buf);
  }

  method GetDirectBit(rd: Rd, ghost w: Walk, ghost c: Ctl, ghost probs: seq<prob>, src: seq<byte>)
    returns (bit: bool, rd': Rd)
    requires src == w.src && On(w, c, rd, probs) && c.Direct?
    ensures On(w, Next(w.env, c, bit), rd', probs) && rd.buf <= rd'.buf
  {
    hide Next, Slot, Run, ValidCtl, ValidEnv;
    OnNotStarved(w, c, rd, probs);
    var n := Normalize(rd, src);
    bit, rd' := DecideDirect(n, src);
    NextValid(w.env, c, bit);
    OnMoved(w, c, rd, probs, Next(w.env, c, bit), rd', probs);
  }

  // ----- Literals -------------------------------------------------------------------------------------

  /** A literal after a literal: a plain tree of 256 leaves. */
  method DecodeLiteral(probs: array<prob>, prob: nat, rd: Rd, ghost w: Walk, src: seq<byte>)
    returns (b: byte, rd': Rd)
    requires src == w.src && On(w, Lit(1), rd, probs[..]) && prob == w.env.litBase
    modifies probs
    ensures On(w, End(Literal(b)), rd', probs[..]) && rd.buf <= rd'.buf
  {
    hide On;
    var symbol := 1;
    rd' := rd;
    while symbol < 0x100
      invariant 1 <= symbol < 0x200 && rd.buf <= rd'.buf
      invariant On(w, if symbol < 0x100 then Lit(symbol) else End(Literal(symbol % 0x100)), rd', probs[..])
    {
      var bit;
      bit, rd' := GetBit(probs, prob + symbol, rd', w, Lit(symbol), src);
      symbol := 2 * symbol + if bit then 1 else 0;
    }
    b := symbol % 0x100;
  }

  /** A literal after a match: as long as its bits follow those of the match byte, each of these selects one of
      two further trees. */
  method DecodeLiteralMatched(probs: array<prob>, prob: nat, matchByte: byte, rd: Rd, ghost w: Walk, src: seq<byte>)
    returns (b: byte, rd': Rd)
    requires src == w.src && On(w, LitMatched(1, 0x100, matchByte), rd, probs[..]) && prob == w.env.litBase
    modifies probs
    ensures On(w, End(Literal(b)), rd', probs[..]) && rd.buf <= rd'.buf
  {
    hide On;
    var symbol, offs, m := 1, 0x100, matchByte as int;
    rd' := rd;
    while symbol < 0x100
      invariant 1 <= symbol < 0x200 && rd.buf <= rd'.buf && (offs == 0 || offs == 0x100) && m >= 0
      invariant On(w, if symbol < 0x100 then LitMatched(symbol, offs, m) else End(Literal(symbol % 0x100)), rd', probs[..])
    {
      ghost var c := LitMatched(symbol, offs, m);
      m := 2 * m;
      var mbit := if offs != 0 && m / 0x100 % 2 == 1 then 0x100 else 0;
      var bit;
      bit, rd' := GetBit(probs, prob + offs + mbit + symbol, rd', w, c, src);
      symbol := 2 * symbol + if bit then 1 else 0;
      if bit {
        offs := mbit;
      } else if mbit != 0 {
        offs := 0;
      }
    }
    b := symbol % 0x100;
  }

  // ----- Lengths ----------------------------------------------------------------------------------------

  /** TREE_DECODE of a length tree. */
  method DecodeLenTree(probs: array<prob>, probLen: nat, limit: nat, rd: Rd, ghost w: Walk, src: seq<byte>,
                       ghost kind: LenKind, ghost region: nat) returns (len: nat, rd': Rd)
    requires src == w.src && On(w, Len(kind, region, 1), rd, probs[..])
    requires region <= 2 && limit == LenLimit(region) && probLen == LenCoder(kind) + LenRegion(region, w.env.posState)
    modifies probs
    ensures len < limit && rd.buf <= rd'.buf
    ensures On(w, AfterLen(kind, len + LenOffset(region)), rd', probs[..])
  {
    hide On;
    len := 1;
    rd' := rd;
    while len < limit
      invariant 1 <= len < 2 * limit && rd.buf <= rd'.buf
      invariant On(w, if len < limit then Len(kind, region, len) else AfterLen(kind, len - limit + LenOffset(region)),
                   rd', probs[..])
      decreases limit - len
    {
      var bit;
      bit, rd' := GetBit(probs, probLen + len, rd', w, Len(kind, region, len), src);
      len := 2 * len + if bit then 1 else 0;
    }
    len := len - limit;
  }

  method DecodeLen(probs: array<prob>, prob: nat, posState: nat, rd: Rd, ghost w: Walk, src: seq<byte>, ghost kind: LenKind)
    returns (len: nat, rd': Rd)
    requires src == w.src && On(w, Choice(kind), rd, probs[..]) && prob == LenCoder(kind) && posState == w.env.posState
    modifies probs
    ensures len <= 271 && rd.buf <= rd'.buf
    ensures On(w, AfterLen(kind, len), rd', probs[..])
  {
    hide On;
    var bit;
    bit, rd' := GetBit(probs, prob + LEN_CHOICE, rd, w, Choice(kind), src);
    if !bit {
      len, rd' := DecodeLenTree(probs, prob + LEN_LOW + 8 * posState, 8, rd', w, src, kind, 0);
    } else {
      bit, rd' := GetBit(probs, prob + LEN_CHOICE2, rd', w, Choice2(kind), src);
      if !bit {
        len, rd' := DecodeLenTree(probs, prob + LEN_MID + 8 * posState, 8, rd', w, src, kind, 1);
        len := len + 8;
      } else {
        len, rd' := DecodeLenTree(probs, prob + LEN_HIGH, 0x100, rd', w, src, kind, 2);
        len := len + 16;
      }
    }
  }

  // ----- Distances ----------------------------------------------------------------------------------------

  method DecodePosSlot(probs: array<prob>, prob: nat, len: nat, rd: Rd, ghost w: Walk, src: seq<byte>)
    returns (slot: nat, rd': Rd)
    requires src == w.src && On(w, PosSlot(len, 1), rd, probs[..]) && prob == POS_SLOT + 64 * LenToPosState(len)
    modifies probs
    ensures slot < 64 && rd.buf <= rd'.buf
    ensures On(w, AfterPosSlot(len, slot), rd', probs[..])
  {
    hide On, AfterPosSlot;
    slot := 1;
    rd' := rd;
    while slot < 64
      invariant 1 <= slot < 128 && rd.buf <= rd'.buf
      invariant On(w, if slot < 64 then PosSlot(len, slot) else AfterPosSlot(len, slot - 64), rd', probs[..])
      decreases 64 - slot
    {
      var bit;
      bit, rd' := GetBit(probs, prob + slot, rd', w, PosSlot(len, slot), src);
      slot := 2 * slot + if bit then 1 else 0;
    }
    slot := slot - 64;
  }

  /** What a distance ends with. */
  function DistanceEnd(dist: nat, len: nat): Ctl {
    if dist == 0xFFFF_FFFF then End(EndMark(len)) else End(Match(dist, len))
  }

  /** Position slots 4 to 13: the low bits are modelled, lowest first. */
  method DecodeSpec(probs: array<prob>, len: nat, slot: nat, rd: Rd, ghost w: Walk, src: seq<byte>)
    returns (distance: nat, rd': Rd)
    requires 4 <= slot < 14
    requires src == w.src && On(w, AfterPosSlot(len, slot), rd, probs[..])
    modifies probs
    ensures rd.buf <= rd'.buf && On(w, End(Match(distance, len)), rd', probs[..])
  {
    hide On, SlotBase;
    distance := SlotBase(slot);
    var prob := SPEC_POS + distance - slot - 1;
    var mask, i, numDirectBits := 1, 1, slot / 2 - 1;
    rd' := rd;
    while numDirectBits != 0
      invariant rd.buf <= rd'.buf && i >= 1 && mask >= 1 && numDirectBits >= 0
      invariant On(w, if numDirectBits == 0 then End(Match(distance, len))
                      else Spec(len, slot, i, distance, mask, numDirectBits), rd', probs[..])
    {
      var bit;
      SpecValid(w, Spec(len, slot, i, distance, mask, numDirectBits), rd', probs[..]);
      bit, rd' := GetBit(probs, prob + i, rd', w, Spec(len, slot, i, distance, mask, numDirectBits), src);
      i := 2 * i;
      if bit {
        i, distance := i + 1, distance + mask;
      }
      mask := 2 * mask;
      numDirectBits := numDirectBits - 1;
    }
  }

  lemma SpecValid(w: Walk, c: Ctl, rd: Rd, probs: seq<prob>)
    requires On(w, c, rd, probs)
    ensures ValidCtl(c)
    ensures c.Spec? ==> SPEC_POS + SlotBase(c.slot) - c.slot - 1 + c.i >= 0
  {
  }

  /** Position slots from 14 on: direct bits, highest first. */
  method DecodeDirect(len: nat, slot: nat, rd: Rd, ghost w: Walk, ghost probs: seq<prob>, src: seq<byte>)
    returns (distance: nat, rd': Rd)
    requires 14 <= slot < 64
    requires src == w.src && On(w, AfterPosSlot(len, slot), rd, probs)
    ensures rd.buf <= rd'.buf && On(w, Align(len, 1, 16 * distance, 1, 4), rd', probs)
  {
    hide On;
    distance := 2 + slot % 2;
    var numDirectBits := slot / 2 - 1 - 4;
    rd' := rd;
    while numDirectBits != 0
      invariant rd.buf <= rd'.buf && numDirectBits >= 0
      invariant On(w, if numDirectBits == 0 then Align(len, 1, 16 * distance, 1, 4)
                      else Direct(len, distance, numDirectBits), rd', probs)
    {
      var bit;
      bit, rd' := GetDirectBit(rd', w, Direct(len, distance, numDirectBits), probs, src);
      distance := 2 * distance + if bit then 1 else 0;
      numDirectBits := numDirectBits - 1;
    }
  }

  /** The four low bits of a long distance, lowest first. */
  method DecodeAlign(probs: array<prob>, len: nat, high: nat, rd: Rd, ghost w: Walk, src: seq<byte>)
    returns (distance: nat, rd': Rd)
    requires src == w.src && On(w, Align(len, 1, 16 * high, 1, 4), rd, probs[..])
    modifies probs
    ensures rd.buf <= rd'.buf && On(w, DistanceEnd(distance, len), rd', probs[..])
  {
    hide On;
    var i, mask, n := 1, 1, 4;
    distance := 16 * high;
    rd' := rd;
    while n != 0
      invariant rd.buf <= rd'.buf && i >= 1 && mask >= 1 && n >= 0
      invariant On(w, if n == 0 then DistanceEnd(distance, len) else Align(len, i, distance, mask, n), rd', probs[..])
    {
      var bit;
      bit, rd' := GetBit(probs, ALIGN + i, rd', w, Align(len, i, distance, mask, n), src);
      i := 2 * i;
      if bit {
        i, distance := i + 1, distance + mask;
      }
      mask, n := 2 * mask, n - 1;
    }
  }

  /** The distance of a match, or the end mark in its place. */
  method DecodeDistance(probs: array<prob>, len: nat, rd: Rd, ghost w: Walk, src: seq<byte>)
    returns (distance: nat, rd': Rd)
    requires src == w.src && On(w, PosSlot(len, 1), rd, probs[..])
    modifies probs
    ensures rd.buf <= rd'.buf && On(w, DistanceEnd(distance, len), rd', probs[..])
  {
    hide On, SlotBase;
    var slot;
    slot, rd' := DecodePosSlot(probs, POS_SLOT + 64 * LenToPosState(len), len, rd, w, src);
    if slot < 4 {
      distance := slot;
    } else if slot < 14 {
      distance, rd' := DecodeSpec(probs, len, slot, rd', w, src);
      OnEnd(w, Match(distance, len), rd', probs[..]);
    } else {
      var high;
      high, rd' := DecodeDirect(len, slot, rd', w, probs[..], src);
      distance, rd' := DecodeAlign(probs, len, high, rd', w, src);
    }
  }
}
