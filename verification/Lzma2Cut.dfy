/**
  An LZMA2 stream that cannot be cut anywhere: a chunk of one byte whose range code is not 0 once that byte is there,
  so that the decoder asks for more with its output full.
*/
module Lzma2Cut {
  import opened Words
  import opened RangeCoder
  import opened LzmaSymbol
  import opened LzmaRun
  import opened LzmaStream
  import opened LzmaFacts
  import opened Lzma2Chunks
  import opened Lzma2Stream

  /** The control byte, one byte to come of seven, lc = lp = pb = 0, and six of the seven. */
  const HEADER: seq<byte> := [0xE0, 0, 0, 0, 6, 0]
  const DATA: seq<byte> := [0, 0, 0, 0, 1, 0]

  /** The contexts at the start of the chunk, and again after its byte. */
  const ENV := Env(0, 0, LITERAL, 0)
  const NUM := LITERAL + LIT_SIZE

  /** A small code means a zero bit. */
  lemma ZeroBound(rc: Rc, p: prob)
    requires rc.range >= TOP && rc.code < 0x2_0000
    ensures !ModelBit(rc, p) && AfterModelBit(rc, p) == rc.(range := rc.range / 0x800 * p)
  {
    BoundInside(rc.range, p);
  }

  lemma ZeroMove(c: Ctl, rc: Rc, probs: seq<prob>, p: prob, q: prob)
    requires (c.IsMatch? || c.Lit?) && ValidCtl(c) && ValidEnv(ENV, |probs|)
    requires rc.range >= TOP && !ModelBit(rc, p)
    requires 0 <= Slot(ENV, c) < |probs| && probs[Slot(ENV, c)] == p && q == Adapted(p, false)
    ensures Move(ENV, c, rc, probs) == Point(Next(ENV, c, false), AfterModelBit(rc, p), probs[Slot(ENV, c) := q])
  {
    hide Slot, Next, ValidCtl, ValidEnv, ModelBit, AfterModelBit, Adapted;
  }

  lemma RunMove(c: Ctl, rc: Rc, probs: seq<prob>)
    requires ValidCtl(c) && ValidEnv(ENV, |probs|) && rc.range >= TOP && !c.End?
    ensures var p := Move(ENV, c, rc, probs);
            Run(ENV, c, rc, probs) == Run(ENV, p.c, p.rc, p.probs)
  {
    hide Move, ValidCtl, ValidEnv;
  }

  lemma ZeroBit(c: Ctl, rc: Rc, probs: seq<prob>, p: prob, q: prob, range: word)
    requires (c.IsMatch? || c.Lit?) && ValidCtl(c) && ValidEnv(ENV, |probs|)
    requires rc.range >= TOP && rc.code < 0x2_0000 && range == rc.range / 0x800 * p
    requires 0 <= Slot(ENV, c) < |probs| && probs[Slot(ENV, c)] == p && q == p + (0x800 - p) / 32
    ensures ValidCtl(Next(ENV, c, false))
    ensures Run(ENV, c, rc, probs) == Run(ENV, Next(ENV, c, false), rc.(range := range), probs[Slot(ENV, c) := q])
  {
    hide Slot, Next, ValidCtl, ValidEnv, ModelBit, AfterModelBit, Move, Run;
    ZeroBound(rc, p);
    NextValid(ENV, c, false);
    ZeroMove(c, rc, probs, p, q);
    RunMove(c, rc, probs);
  }

  lemma ZeroMatch(rc: Rc, probs: seq<prob>, p: prob, q: prob, range: word)
    requires |probs| >= NUM && rc.range >= TOP && rc.code < 0x2_0000 && probs[IS_MATCH] == p
    requires q == p + (0x800 - p) / 32 && range == rc.range / 0x800 * p
    ensures Run(ENV, IsMatch, rc, probs) == Run(ENV, Lit(1), rc.(range := range), probs[IS_MATCH := q])
  {
    hide Run;
    ZeroBit(IsMatch, rc, probs, p, q, range);
  }

  lemma ZeroLit(sym: nat, rc: Rc, probs: seq<prob>, p: prob, q: prob, range: word)
    requires |probs| >= NUM && rc.range >= TOP && rc.code < 0x2_0000 && 1 <= sym < 0x80 && probs[LITERAL + sym] == p
    requires q == p + (0x800 - p) / 32 && range == rc.range / 0x800 * p
    ensures Run(ENV, Lit(sym), rc, probs) == Run(ENV, Lit(2 * sym), rc.(range := range), probs[LITERAL + sym := q])
  {
    hide Run;
    ZeroBit(Lit(sym), rc, probs, p, q, range);
  }

  /** The probabilities of the first bits of a zero byte. */
  predicate Level(probs: seq<prob>, p: prob) {
    && |probs| >= NUM && probs[IS_MATCH] == p
    && probs[LITERAL + 1] == p && probs[LITERAL + 2] == p && probs[LITERAL + 4] == p && probs[LITERAL + 8] == p
    && probs[LITERAL + 16] == p && probs[LITERAL + 32] == p && probs[LITERAL + 64] == p
  }

  /** All of them but the last bit, over the ranges r. */
  lemma ZeroBits(code: word, input: seq<byte>, probs: seq<prob>, p: prob, q: prob, r: seq<word>) returns (after: seq<prob>)
    requires Level(probs, p) && code < 0x2_0000 && q == p + (0x800 - p) / 32 && |r| == 9
    requires forall k | 0 <= k < 8 :: r[k] >= TOP && r[k + 1] == r[k] / 0x800 * p
    ensures |after| == |probs| && Level(after, q) && after[LITERAL + 128] == probs[LITERAL + 128]
    ensures Run(ENV, IsMatch, Rc(r[0], code, input), probs) == Run(ENV, Lit(128), Rc(r[8], code, input), after)
  {
    hide Run;
    ZeroMatch(Rc(r[0], code, input), probs, p, q, r[1]);
    var p1 := probs[IS_MATCH := q];
    ZeroLit(1, Rc(r[1], code, input), p1, p, q, r[2]);
    var p2 := p1[LITERAL + 1 := q];
    ZeroLit(2, Rc(r[2], code, input), p2, p, q, r[3]);
    var p3 := p2[LITERAL + 2 := q];
    ZeroLit(4, Rc(r[3], code, input), p3, p, q, r[4]);
    var p4 := p3[LITERAL + 4 := q];
    ZeroLit(8, Rc(r[4], code, input), p4, p, q, r[5]);
    var p5 := p4[LITERAL + 8 := q];
    ZeroLit(16, Rc(r[5], code, input), p5, p, q, r[6]);
    var p6 := p5[LITERAL + 16 := q];
    ZeroLit(32, Rc(r[6], code, input), p6, p, q, r[7]);
    var p7 := p6[LITERAL + 32 := q];
    ZeroLit(64, Rc(r[7], code, input), p7, p, q, r[8]);
    after := p7[LITERAL + 64 := q];
  }

  /** The last bit of a zero byte, after normalisation. */
  lemma LastBit(probs: seq<prob>)
    requires |probs| >= NUM && probs[LITERAL + 128] == 1024
    ensures Run(ENV, Lit(128), Rc(16776192, 1, [0]), probs)
         == Out(Literal(0), Rc(2147352576, 0x100, []), probs[LITERAL + 128 := 1056])
  {
    var rc, n := Rc(16776192, 1, [0]), Rc(4294705152, 0x100, []);
    assert Normalized(rc) == n by {
      assert [0][1..] == [];
    }
    RunNormalized(ENV, Lit(128), rc, probs);
    hide Run, Normalized;
    ZeroBit(Lit(128), n, probs, 1024, 1056, 2147352576);
    Ended(Literal(0), Rc(2147352576, 0x100, []), probs[LITERAL + 128 := 1056]);
  }

  lemma Ended(s: Symbol, rc: Rc, probs: seq<prob>)
    requires ValidSymbol(s) && rc.range >= TOP && ValidEnv(ENV, |probs|)
    ensures Run(ENV, End(s), rc, probs) == Out(s, rc, probs)
  {
  }

  lemma FirstByte(probs: seq<prob>)
    requires Level(probs, 1024) && probs[LITERAL + 128] == 1024
    ensures var r := Run(ENV, IsMatch, Rc(TWO32 - 1, 1, [0]), probs);
            && r.Out? && r.symbol == Literal(0) && r.rc == Rc(2147352576, 0x100, [])
            && |r.probs| == |probs| && Level(r.probs, 1056)
  {
    hide Run;
    var after := ZeroBits(1, [0], probs, 1024, 1056, [TWO32 - 1, 2147482624, 1073740800, 536869888, 268434432, 134216704,
                                                      67107840, 33553408, 16776192]);
    LastBit(after);
  }

  /** Another byte would need more input. */
  lemma SecondByte(probs: seq<prob>)
    requires Level(probs, 1056)
    ensures Run(ENV, IsMatch, Rc(2147352576, 0x100, []), probs).Short?
  {
    var after := ZeroBits(0x100, [], probs, 1056, 1087, [2147352576, 1107228672, 570914784, 294376896, 151787328, 78264384,
                                                         40355040, 20807424, 10727904]);
  }

  // ----- The chunk -----------------------------------------------------------------------------------------

  ghost predicate Plainest(c: Core) {
    ValidCore(c) && c.props.lc == 0 && c.props.lp == 0 && c.props.pb == 0
  }

  /** Nothing but the kind of the last symbol counts. */
  lemma SameEnv(c: Core)
    requires Plainest(c) && c.state == 0 && (c.hist == [] || c.hist == [0])
    ensures EnvOf(c) == ENV
  {
    assert Pow2(0) == 1;
    if c.hist == [0] {
      assert Pow2(8) >= 1 by { Pow2Values(); }
      DivUnique(0, Pow2(8), 0, 0);
    }
  }

  lemma StepByte(c: Core)
    requires Plainest(c) && !c.needInit && !c.needFlush && c.remain == 0 && c.hist == [] && c.state == 0
    requires c.range == TWO32 - 1 && c.code == 1 && Level(c.probs, 1024) && c.probs[LITERAL + 128] == 1024
    ensures var s := Step(c, [0], 1);
            && s.Went? && s.rest == [] && s.c.hist == [0] && Plainest(s.c) && !s.c.needInit && !s.c.needFlush
            && s.c.remain == 0 && s.c.state == 0 && s.c.range == 2147352576 && s.c.code == 0x100 && Level(s.c.probs, 1056)
  {
    hide Run, EnvOf, ValidState, NumProbs;
    SameEnv(c);
    FirstByte(c.probs);
  }

  /** After its byte the decoder asks for the next. */
  lemma DataAsks(c: Core)
    requires Plainest(c) && c.needFlush && c.needInit && c.hist == []
    ensures var r := Decode(c, DATA, 1, true);
            r.Stop? && r.rest == [] && r.status == NeedsMoreInput && r.c.hist == [0]
  {
    hide Loop, Step, ValidState, EnvOf, Run;
    DecodeLoop(c, DATA, 1, true);
    var d := Flushed(c, DATA);
    assert DATA[RC_INIT_SIZE..] == [0];
    LoopFlushed(c, DATA, 1, true);
    var e := Initialized(d);
    LoopInitialized(d, [0], 1, true);
    StepByte(e);
    LoopStep(e, [0], 1, true);
    DecodeLoop(e, [0], 1, true);
    var s := Step(e, [0], 1);
    SameEnv(s.c);
    SecondByte(s.c.probs);
    LoopShort(s.c, [], 1, true);
  }

  // ----- The stream ------------------------------------------------------------------------------------------

  lemma HeaderStep(m: Machine, src: seq<byte>, room: nat, mustEnd: bool)
    requires Fit(m) && InHeader(m.f.state) && src != [] && room > 0
    ensures Fit(HeaderTurn(m, src[0]))
    ensures Decode2(m, src, room, mustEnd) == Decode2(HeaderTurn(m, src[0]), src[1..], room, mustEnd)
  {
    hide Fit, HeaderTurn;
    HeaderGoes(m, src[0]);
  }

  /** After k bytes of the header. */
  function HeaderAt(k: nat): Frame
    requires k <= 6
  {
    if k == 0 then Initial()
    else
      Frame(if k == 1 then Unpack0 else if k == 2 then Unpack1 else if k == 3 then Pack0 else if k == 4 then Pack1
            else if k == 5 then Prop else Data,
            0xE0, if k < 3 then 0 else 1, if k < 5 then 0 else 7, true, true, k < 6, [], HEADER[..k], [])
  }

  ghost function At(c: Core, k: nat): Machine
    requires k <= 6
  {
    Machine(HeaderAt(k), if k < 6 then c else c.(props := Props(0, 0, 0, c.props.dicSize)), [])
  }

  lemma HeaderByte(c: Core, k: nat)
    requires k < 6
    ensures InHeader(HeaderAt(k).state) && HeaderTurn(At(c, k), HEADER[k]) == At(c, k + 1)
  {
    assert HEADER[..k + 1] == HEADER[..k] + [HEADER[k]];
  }

  lemma {:induction false} HeaderDone(c: Core, k: nat, room: nat, mustEnd: bool)
    requires k <= 6 && Fit(At(c, k)) && room > 0
    ensures Fit(At(c, 6))
    ensures Decode2(At(c, k), (HEADER + DATA)[k..], room, mustEnd) == Decode2(At(c, 6), DATA, room, mustEnd)
    decreases 6 - k
  {
    hide Fit, Decode2, HeaderAt, HeaderTurn;
    var s := HEADER + DATA;
    if k < 6 {
      HeaderByte(c, k);
      assert s[k..][0] == HEADER[k] && s[k..][1..] == s[k + 1..];
      assert At(c, k).f == HeaderAt(k);
      HeaderStep(At(c, k), s[k..], room, mustEnd);
      HeaderDone(c, k + 1, room, mustEnd);
    } else {
      assert s[6..] == DATA;
    }
  }

  lemma DataHalts(c: Core)
    requires Fit(At(c, 6))
    ensures var r := Decode2(At(c, 6), DATA, 1, false);
            r.Stop2? && r.status == NeedsMoreInput && r.room == 0 && r.rest == [] && r.m.f.out == [0]
  {
    hide ValidState, Decode;
    var m := Started(At(c, 6));
    StartedValid(At(c, 6));
    DataAsks(m.c);
    assert [] + DATA == DATA && DATA[..6] == DATA;
  }

  /** A call on this input fills the output and asks for more. Whatever comes then, the next call does not give what one
      call with all the input gives. */
  lemma AsksWithOutputFull(c: Core, more: seq<byte>)
    requires Fit(Machine(Initial(), c, []))
    ensures var m := Machine(Initial(), c, []); var r := Decode2(m, HEADER + DATA, 1, false);
            && r.Stop2? && r.status == NeedsMoreInput && r.room == 0 && r.rest == [] && r.m.f.out == [0] && Fit(r.m)
            && Decode2(r.m, more, 0, false) != Decode2(m, HEADER + DATA + more, 1, false)
  {
    hide Fit, Decode2;
    var m := Machine(Initial(), c, []);
    assert m == At(c, 0) && (HEADER + DATA)[0..] == HEADER + DATA;
    HeaderDone(c, 0, 1, false);
    DataHalts(c);
    DecodeFed2(m, HEADER + DATA, more, 1, false);
    assert [] + more == more;
  }
}
