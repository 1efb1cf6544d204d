/**
  Decoding one LZMA symbol: the walk of the control automaton driven by the range decoder, with the
  probabilities adapted as it goes (`Run`) or left alone (`DryRun`). Both include the final normalisation.
*/
module LzmaRun {
  import opened Words
  import opened RangeCoder
  import opened LzmaSymbol

  /** Where a walk has got to. */
  datatype Point = Point(c: Ctl, rc: Rc, probs: seq<prob>)

  /** One bit: normalisation, the bit, and the adaptation of the probability used. */
  ghost function Move(env: Env, c: Ctl, rc: Rc, probs: seq<prob>): (r: Point)
    requires ValidCtl(c) && ValidEnv(env, |probs|) && !Starved(rc) && !c.End?
    ensures ValidCtl(r.c) && |r.probs| == |probs| && Rank(r.c) < Rank(c)
    ensures rc.range >= 0x1_0000 ==> r.rc.range >= 0x1_0000
    ensures r.rc.input == if rc.range < TOP then rc.input[1..] else rc.input
  {
    var n := Normalized(rc);
    if c.Direct? then
      var bit := DirectBit(n);
      NextValid(env, c, bit); NextRank(env, c, bit);
      Point(Next(env, c, bit), AfterDirectBit(n), probs)
    else
      SlotInRange(env, c, |probs|);
      var s := Slot(env, c);
      var bit := ModelBit(n, probs[s]);
      NextValid(env, c, bit); NextRank(env, c, bit);
      Point(Next(env, c, bit), AfterModelBit(n, probs[s]), probs[s := Adapted(probs[s], bit)])
  }

  datatype Outcome = Short | Out(symbol: Symbol, rc: Rc, probs: seq<prob>)

  /** The real decoder: Short when the input ends too early. */
  ghost function Run(env: Env, c: Ctl, rc: Rc, probs: seq<prob>): (r: Outcome)
    requires ValidCtl(c) && ValidEnv(env, |probs|)
    ensures r.Out? ==> |r.probs| == |probs| && ValidSymbol(r.symbol)
    ensures r.Out? && rc.range >= 0x1_0000 ==> r.rc.range >= TOP
    decreases Rank(c)
  {
    if Starved(rc) then Short
    else if c.End? then Out(c.symbol, Normalized(rc), probs)
    else
      var p := Move(env, c, rc, probs);
      Run(env, p.c, p.rc, p.probs)
  }

  datatype DryOutcome = DryShort | DryOut(symbol: Symbol, rc: Rc)

  /** The dry run: the same walk, but the probabilities stay as they are. */
  ghost function DryRun(env: Env, c: Ctl, rc: Rc, probs: seq<prob>): DryOutcome
    requires ValidCtl(c) && ValidEnv(env, |probs|)
    decreases Rank(c)
  {
    if Starved(rc) then DryShort
    else if c.End? then DryOut(c.symbol, Normalized(rc))
    else
      var p := Move(env, c, rc, probs);
      DryRun(env, p.c, p.rc, probs)
  }

  // ----- No slot is used twice ------------------------------------------------------------------------

  /** The order in which one symbol visits the slots. The literal tables rank by tree position, and the
      distance tables after the length tables that precede them in time but not in the array. */
  function Key(s: int): int {
    if s >= LITERAL then 10_000 + (s - LITERAL) % 0x100
    else if POS_SLOT <= s < LEN_CODER then 5_000 + s
    else s
  }

  /** The keys of the control points. A direct bit has no slot: it gets the key of the slots after it. */
  function Order(env: Env, c: Ctl): int
    requires c.Spec? ==> 4 <= c.slot < 14
  {
    match c
    case Lit(sym) => 10_000 + sym
    case LitMatched(sym, _, _) => 10_000 + sym
    case PosSlot(_, _) => 5_000 + Slot(env, c)
    case Spec(_, _, _, _, _, _) => 5_000 + Slot(env, c)
    case Align(_, _, _, _, _) => 5_000 + Slot(env, c)
    case Direct(_, _, _) => 5_000 + ALIGN
    case End(_) => 20_000
    case _ => Slot(env, c)
  }

  lemma LiteralKey(base: int, k: nat, sym: nat)
    requires LITERAL <= base && (base - LITERAL) % 0x100 == 0 && sym < 0x100
    ensures Key(base + 0x100 * k + sym) == 10_000 + sym
  {
    DivUnique(base + 0x100 * k + sym - LITERAL, 0x100, (base - LITERAL) / 0x100 + k, sym);
  }

  lemma OrderIsKey(env: Env, c: Ctl, numProbs: nat)
    requires ValidCtl(c) && ValidEnv(env, numProbs) && !c.Direct? && !c.End?
    ensures Key(Slot(env, c)) == Order(env, c)
  {
    if c.Lit? {
      LiteralKey(env.litBase, 0, c.sym);
    } else if c.LitMatched? {
      LiteralKey(env.litBase, (c.offs + MatchBit(c.offs, c.matchByte)) / 0x100, c.sym);
    }
  }

  lemma OrderIncreases(env: Env, c: Ctl, bit: bool, numProbs: nat)
    requires ValidCtl(c) && !c.End? && ValidEnv(env, numProbs)
    ensures ValidCtl(Next(env, c, bit))
    ensures Order(env, c) <= Order(env, Next(env, c, bit))
    ensures !c.Direct? ==> Order(env, c) < Order(env, Next(env, c, bit))
  {
    NextValid(env, c, bit);
    if c.PosSlot? || c.Spec? || c.Direct? || c.Align? {
      DistanceOrder(env, c, bit);
    } else if c.Choice? || c.Choice2? || c.Len? {
      LenOrder(env, c, bit);
    }
  }

  lemma DistanceOrder(env: Env, c: Ctl, bit: bool)
    requires ValidCtl(c) && (c.PosSlot? || c.Spec? || c.Direct? || c.Align?) && ValidCtl(Next(env, c, bit))
    ensures Order(env, c) <= Order(env, Next(env, c, bit))
    ensures !c.Direct? ==> Order(env, c) < Order(env, Next(env, c, bit))
  {
    if c.PosSlot? || c.Spec? {
      SpecOrder(env, c, bit);
    }
  }

  lemma SpecOrder(env: Env, c: Ctl, bit: bool)
    requires ValidCtl(c) && (c.PosSlot? || c.Spec?) && ValidCtl(Next(env, c, bit))
    ensures Order(env, c) < Order(env, Next(env, c, bit))
  {
    hide SlotBase, P2, Pow2;
    var d := Next(env, c, bit);
    if d.Spec? {
      SpecSlotRange(d.slot, d.i);
    }
    if c.Spec? {
      SpecSlotRange(c.slot, c.i);
      SpecSlotBelow(env, c);
    }
  }

  lemma SpecSlotBelow(env: Env, c: Ctl)
    requires ValidCtl(c) && c.Spec?
    ensures Slot(env, c) < ALIGN
  {
  }

  lemma SpecSlotRange(slot: nat, i: nat)
    requires 4 <= slot < 14 && 1 <= i
    ensures SPEC_POS <= SPEC_POS + SlotBase(slot) - slot - 1 + i
  {
  }

  lemma LenOrder(env: Env, c: Ctl, bit: bool)
    requires ValidCtl(c) && (c.Choice? || c.Choice2? || c.Len?) && ValidCtl(Next(env, c, bit))
    requires env.posState < 16
    ensures Order(env, c) < Order(env, Next(env, c, bit))
  {
  }

  /** Two probability arrays agree on all slots that are still to be visited. */
  ghost predicate AgreeFrom(p: seq<prob>, q: seq<prob>, order: int) {
    |p| == |q| && forall s | 0 <= s < |p| && Key(s) >= order :: p[s] == q[s]
  }

  ghost function Dried(r: Outcome): DryOutcome {
    if r.Short? then DryShort else DryOut(r.symbol, r.rc)
  }

  /** Moves from agreeing arrays go to the same point and leave them agreeing on what is still to come. */
  lemma MovesAgree(env: Env, c: Ctl, rc: Rc, probs: seq<prob>, dry: seq<prob>)
    requires ValidCtl(c) && ValidEnv(env, |probs|) && !Starved(rc) && !c.End?
    requires AgreeFrom(probs, dry, Order(env, c))
    ensures var p, d := Move(env, c, rc, probs), Move(env, c, rc, dry);
            p.c == d.c && p.rc == d.rc && AgreeFrom(p.probs, dry, Order(env, p.c))
  {
    var n := Normalized(rc);
    if c.Direct? {
      OrderIncreases(env, c, DirectBit(n), |probs|);
    } else {
      SlotInRange(env, c, |probs|);
      OrderIsKey(env, c, |probs|);
      OrderIncreases(env, c, ModelBit(n, probs[Slot(env, c)]), |probs|);
    }
  }

  /** The dry run tells what the real run does: the same symbol, range and input, or the same shortage. */
  lemma {:induction false} DryRunAgrees(env: Env, c: Ctl, rc: Rc, probs: seq<prob>, dry: seq<prob>)
    requires ValidCtl(c) && ValidEnv(env, |probs|) && AgreeFrom(probs, dry, Order(env, c))
    ensures DryRun(env, c, rc, dry) == Dried(Run(env, c, rc, probs))
    decreases Rank(c)
  {
    if !Starved(rc) && !c.End? {
      var p := Move(env, c, rc, probs);
      MovesAgree(env, c, rc, probs, dry);
      DryRunAgrees(env, p.c, p.rc, p.probs, dry);
    }
  }

  /** Whether normalisation is done beforehand or with the first bit makes no difference. */
  lemma RunNormalized(env: Env, c: Ctl, rc: Rc, probs: seq<prob>)
    requires ValidCtl(c) && ValidEnv(env, |probs|) && !Starved(rc) && !c.End? && Normalized(rc).range >= TOP
    ensures Run(env, c, Normalized(rc), probs) == Run(env, c, rc, probs)
  {
    var p := Move(env, c, rc, probs);
    assert Move(env, c, Normalized(rc), probs) == p;
  }

  // ----- Input --------------------------------------------------------------------------------------------

  function Fed(rc: Rc, more: seq<byte>): Rc {
    rc.(input := rc.input + more)
  }

  lemma MoveFed(env: Env, c: Ctl, rc: Rc, probs: seq<prob>, more: seq<byte>)
    requires ValidCtl(c) && ValidEnv(env, |probs|) && !Starved(rc) && !c.End?
    ensures var p := Move(env, c, rc, probs);
            Move(env, c, Fed(rc, more), probs) == p.(rc := Fed(p.rc, more))
  {
    hide Slot, Next, Bound, Normalized;
    NormalizedFed(rc, more);
  }

  lemma NormalizedFed(rc: Rc, more: seq<byte>)
    requires !Starved(rc)
    ensures Normalized(Fed(rc, more)) == Fed(Normalized(rc), more)
  {
    if rc.range < TOP {
      assert (rc.input + more)[1..] == rc.input[1..] + more;
    }
  }

  /** More input changes nothing for a symbol that has enough. */
  lemma {:induction false} RunFed(env: Env, c: Ctl, rc: Rc, probs: seq<prob>, more: seq<byte>)
    requires ValidCtl(c) && ValidEnv(env, |probs|) && Run(env, c, rc, probs).Out?
    ensures var r := Run(env, c, rc, probs);
            Run(env, c, Fed(rc, more), probs) == r.(rc := Fed(r.rc, more))
    decreases Rank(c)
  {
    if c.End? {
      NormalizedFed(rc, more);
    } else {
      var p := Move(env, c, rc, probs);
      MoveFed(env, c, rc, probs, more);
      RunFed(env, p.c, p.rc, p.probs, more);
    }
  }

  ghost predicate Suffix(rest: seq<byte>, input: seq<byte>) {
    |rest| <= |input| && rest == input[|input| - |rest|..]
  }

  lemma SuffixOfTail(rest: seq<byte>, input: seq<byte>)
    requires input != [] && Suffix(rest, input[1..])
    ensures Suffix(rest, input)
  {
  }

  /** A run consumes a prefix of its input. */
  lemma {:induction false} RunConsumes(env: Env, c: Ctl, rc: Rc, probs: seq<prob>)
    requires ValidCtl(c) && ValidEnv(env, |probs|) && Run(env, c, rc, probs).Out?
    ensures Suffix(Run(env, c, rc, probs).rc.input, rc.input)
    decreases Rank(c)
  {
    var r := Run(env, c, rc, probs);
    if c.End? {
      assert rc.input[0..] == rc.input;
    } else {
      var p := Move(env, c, rc, probs);
      RunConsumes(env, p.c, p.rc, p.probs);
      if rc.range < TOP {
        SuffixOfTail(r.rc.input, rc.input);
      }
    }
  }

  /** A run that leaves all that was added did not need it. */
  lemma {:induction false} RunUnfed(env: Env, c: Ctl, rc: Rc, probs: seq<prob>, more: seq<byte>)
    requires ValidCtl(c) && ValidEnv(env, |probs|) && Run(env, c, Fed(rc, more), probs).Out?
    requires |Run(env, c, Fed(rc, more), probs).rc.input| >= |more|
    ensures Run(env, c, rc, probs).Out?
    decreases Rank(c)
  {
    var f := Fed(rc, more);
    if Starved(rc) {
      if !c.End? {
        var p := Move(env, c, f, probs);
        RunConsumes(env, p.c, p.rc, p.probs);
      }
    } else if !c.End? {
      var p := Move(env, c, rc, probs);
      MoveFed(env, c, rc, probs, more);
      RunUnfed(env, p.c, p.rc, p.probs, more);
    }
  }

  // ----- Twenty bytes are enough --------------------------------------------------------------------------

  function Pow256(k: nat): (r: nat)
    ensures r >= 1
  {
    if k == 0 then 1 else 0x100 * Pow256(k - 1)
  }

  /** By how much the range can shrink over m modelled and d direct bits. */
  function Loss(m: nat, d: nat): (r: real)
    ensures r >= 1.0
    decreases m + d
  {
    if m > 0 then 67.0 * Loss(m - 1, d) else if d > 0 then 2.02 * Loss(m, d - 1) else 1.0
  }

  lemma LossModel(m: nat, d: nat)
    requires m > 0
    ensures Loss(m, d) == 67.0 * Loss(m - 1, d)
  {
  }

  lemma {:induction false} LossDirect(m: nat, d: nat)
    requires d > 0
    ensures Loss(m, d) == 2.02 * Loss(m, d - 1)
  {
    if m > 0 {
      LossDirect(m - 1, d);
    }
  }

  lemma {:induction false} LossGrows(m: nat, d: nat, m': nat, d': nat)
    requires m <= m' && d <= d'
    ensures Loss(m, d) <= Loss(m', d')
    decreases m' - m + d' - d
  {
    if m < m' {
      LossGrows(m, d, m' - 1, d');
    } else if d < d' {
      LossGrows(m, d, m, d' - 1);
      LossDirect(m, d');
    }
  }

  /** 22 modelled and 26 direct bits lose less than 160 bits. */
  lemma LossOfSymbol()
    ensures Loss(22, 26) <= Pow256(20) as real
  {
    assert Loss(0, 2) <= 4.080400000000;
    assert Loss(0, 4) <= 16.64966416000;
    assert Loss(0, 6) <= 67.93728963847;
    assert Loss(0, 8) <= 277.2113166409;
    assert Loss(0, 10) <= 1131.133056422;
    assert Loss(0, 12) <= 4615.475323425;
    assert Loss(0, 14) <= 18832.98550971;
    assert Loss(0, 16) <= 76846.11407383;
    assert Loss(0, 18) <= 313562.8838669;
    assert Loss(0, 20) <= 1279461.991331;
    assert Loss(0, 22) <= 5220716.709428;
    assert Loss(0, 24) <= 21302612.46116;
    assert Loss(0, 26) <= 86923179.88652;
    assert Loss(2, 26) <= 390198154510.6;
    assert Loss(4, 26) <= 1751599515599000.0;
    assert Loss(6, 26) <= 7862930225524000000.0;
    assert Loss(8, 26) <= 35296693782380000000000.0;
    assert Loss(10, 26) <= 158446858389200000000000000.0;
    assert Loss(12, 26) <= 711267947309200000000000000000.0;
    assert Loss(14, 26) <= 3192881815471000000000000000000000.0;
    assert Loss(16, 26) <= 14332846469650000000000000000000000000.0;
    assert Loss(18, 26) <= 64340147802260000000000000000000000000000.0;
    assert Loss(20, 26) <= 288822923484400000000000000000000000000000000.0;
    assert Loss(22, 26) <= 1296526103522000000000000000000000000000000000000.0;
    assert Pow256(4) == 0x1_0000_0000;
    assert Pow256(8) == 0x1_0000_0000_0000_0000;
    assert Pow256(12) == 0x1_0000_0000_0000_0000_0000_0000;
    assert Pow256(16) == 0x1_0000_0000_0000_0000_0000_0000_0000_0000;
    assert Pow256(20) == 0x1_0000_0000_0000_0000_0000_0000_0000_0000_0000_0000;
  }

  /** The position slots that need one modelled bit more can do without the direct bits. */
  lemma LossOfTrade(n: nat)
    requires n <= 5
    ensures 67.0 * Loss(n, 0) <= Loss(5, 26)
  {
    hide Loss;
    LossGrows(n, 0, 5, 0);
    LossDirect(5, 26);
    LossDirect(5, 25);
    LossDirect(5, 24);
    LossDirect(5, 23);
    LossDirect(5, 22);
    LossDirect(5, 21);
    LossGrows(5, 0, 5, 20);
  }

  /** k more bytes keep the range from running dry for as long as c can go on. */
  ghost predicate Suffices(rc: Rc, k: nat, c: Ctl) {
    TOP as real * Loss(ModelLeft(c), DirectLeft(c)) <= Pow256(k) as real * rc.range as real
  }

  lemma Refill(k: nat, range: int)
    requires k > 0
    ensures Pow256(k) as real * range as real == Pow256(k - 1) as real * (0x100 * range) as real
  {
    assert Pow256(k) * range == Pow256(k - 1) * (0x100 * range);
  }

  lemma Scale(a: real, x: real, y: real)
    requires a >= 0.0 && x <= y
    ensures a * x <= a * y
  {
  }

  /** What is left after normalisation. */
  function KLeft(rc: Rc, k: nat): int {
    if rc.range < TOP then k - 1 else k
  }

  lemma SufficesNormalized(rc: Rc, k: nat, c: Ctl)
    requires k <= |rc.input| && Suffices(rc, k, c)
    ensures !Starved(rc) && KLeft(rc, k) >= 0 && Suffices(Normalized(rc), KLeft(rc, k), c)
  {
    hide ModelLeft, DirectLeft, Loss;
    var before := Loss(ModelLeft(c), DirectLeft(c));
    if rc.range < TOP {
      assert TOP as real * before >= TOP as real;
      assert k > 0;
      Refill(k, rc.range);
    }
  }

  /** One bit divides the range by f at most, and the loss still to come by f at least. */
  lemma MoveLoses(env: Env, c: Ctl, rc: Rc, probs: seq<prob>) returns (f: real)
    requires ValidCtl(c) && ValidEnv(env, |probs|) && !c.End? && !Starved(rc) && rc.range >= 0x1_0000
    ensures var p := Move(env, c, rc, probs);
            && (f == 67.0 || f == 2.02)
            && f * p.rc.range as real >= Normalized(rc).range as real
            && f * Loss(ModelLeft(p.c), DirectLeft(p.c)) <= Loss(ModelLeft(c), DirectLeft(c))
  {
    hide Loss, Next, ModelLeft, DirectLeft, Slot;
    var p := Move(env, c, rc, probs);
    var n := Normalized(rc);
    if c.Direct? {
      NextSpends(env, c, DirectBit(n));
      LossGrows(ModelLeft(p.c), DirectLeft(p.c), ModelLeft(c), DirectLeft(c) - 1);
      LossDirect(ModelLeft(c), DirectLeft(c));
      f := 2.02;
    } else {
      SlotInRange(env, c, |probs|);
      NextSpends(env, c, ModelBit(n, probs[Slot(env, c)]));
      if p.c.Spec? && c.PosSlot? {
        LossOfTrade(ModelLeft(p.c));
      } else {
        LossGrows(ModelLeft(p.c), DirectLeft(p.c), ModelLeft(c) - 1, DirectLeft(c));
        LossModel(ModelLeft(c), DirectLeft(c));
      }
      f := 67.0;
    }
  }

  lemma Rescale(a: real, f: real, before: real, after: real, r: real, r': real)
    requires (f == 67.0 || f == 2.02) && a >= 0.0
    requires TOP as real * before <= a * r && f * after <= before && r <= f * r'
    ensures TOP as real * after <= a * r'
  {
    Scale(a, r, f * r');
    assert a * (f * r') == f * (a * r');
  }

  lemma SufficesMove(env: Env, c: Ctl, rc: Rc, probs: seq<prob>, k: nat)
    requires ValidCtl(c) && ValidEnv(env, |probs|) && !c.End? && !Starved(rc) && rc.range >= 0x1_0000
    requires k <= |rc.input| && Suffices(rc, k, c)
    ensures KLeft(rc, k) >= 0
    ensures var p := Move(env, c, rc, probs);
            Suffices(p.rc, KLeft(rc, k), p.c)
  {
    hide Pow256, Loss, Move, Normalized, ModelLeft, DirectLeft;
    SufficesNormalized(rc, k, c);
    var f := MoveLoses(env, c, rc, probs);
    var p := Move(env, c, rc, probs);
    Rescale(Pow256(KLeft(rc, k)) as real, f, Loss(ModelLeft(c), DirectLeft(c)),
            Loss(ModelLeft(p.c), DirectLeft(p.c)), Normalized(rc).range as real, p.rc.range as real);
  }

  lemma {:induction false} RunSuffices(env: Env, c: Ctl, rc: Rc, probs: seq<prob>, k: nat)
    requires ValidCtl(c) && ValidEnv(env, |probs|) && rc.range >= 0x1_0000
    requires k <= |rc.input| && Suffices(rc, k, c)
    ensures var r := Run(env, c, rc, probs);
            r.Out? && |r.rc.input| >= |rc.input| - k
    decreases Rank(c)
  {
    SufficesNormalized(rc, k, c);
    if !c.End? {
      var p := Move(env, c, rc, probs);
      SufficesMove(env, c, rc, probs, k);
      RunSuffices(env, p.c, p.rc, p.probs, KLeft(rc, k));
    }
  }

  /** Both factors grow. */
  lemma ScaleBoth(t: real, l: real, a: real, y: real)
    requires 0.0 <= t <= y && 0.0 <= a && l <= a
    ensures t * l <= a * y
  {
    Scale(t, l, a);
    Scale(a, t, y);
    assert t * a == a * t;
  }

  lemma SufficesAtStart(rc: Rc)
    requires rc.range >= TOP
    ensures Suffices(rc, 20, IsMatch)
  {
    hide Pow256, Loss;
    LossOfSymbol();
    ScaleBoth(TOP as real, Loss(22, 26), Pow256(20) as real, rc.range as real);
    assert ModelLeft(IsMatch) == 22 && DirectLeft(IsMatch) == 26;
  }

  /** LZMA_REQUIRED_INPUT_MAX: from a normalised range, 20 bytes are enough for any symbol, its final
      normalisation included; and no symbol reads more. */
  lemma TwentyBytes(env: Env, rc: Rc, probs: seq<prob>)
    requires ValidEnv(env, |probs|) && rc.range >= TOP
    ensures |rc.input| >= 20 ==> Run(env, IsMatch, rc, probs).Out?
    ensures var r := Run(env, IsMatch, rc, probs);
            r.Out? ==> |r.rc.input| >= |rc.input| - 20
  {
    SufficesAtStart(rc);
    if |rc.input| >= 20 {
      RunSuffices(env, IsMatch, rc, probs, 20);
    }
  }
}
