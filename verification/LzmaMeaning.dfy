/**
  What the numbers of the LZMA decoder stand for: the state for the sorts of the last symbols, the four distances for those
  used last, slots for what is known before a bit, and the words of the range decoder for a place within an interval.
*/
module LzmaMeaning {
  import opened Words
  import opened RangeCoder
  import opened LzmaSymbol
  import opened LzmaCode
  import opened LzmaStream

  // ----- The state -------------------------------------------------------------------------------------------

  datatype Sort = OfLiteral | OfMatch | OfRep | OfShortRep

  function SortOf(s: Symbol): Sort {
    if s.Literal? then OfLiteral else if s.ShortRep? then OfShortRep else if s.Rep? then OfRep else OfMatch
  }

  /** The sort of the symbol k before the end; before the first there were literals. */
  function Ago(h: seq<Sort>, k: nat): Sort
    requires k >= 1
  {
    if k <= |h| then h[|h| - k] else OfLiteral
  }

  /** A match is 0, a repeated one 1. A short one is 2, but counts as any repeated one if it did not follow a literal. */
  function Rank(h: seq<Sort>, k: nat): nat
    requires k >= 1
  {
    if Ago(h, k).OfMatch? then 0 else if Ago(h, k).OfRep? || !Ago(h, k + 1).OfLiteral? then 1 else 2
  }

  /** The state tells what the last symbol was that is no literal, if it was one of the last three: from 10 on it was the
      last, as was the one before it; from 7 on only the last; from 4 on and 1 on one or two literals have come since. */
  function StateOf(h: seq<Sort>): nat {
    if !Ago(h, 1).OfLiteral? then (if Ago(h, 2).OfLiteral? then 7 else 10) + Rank(h, 1)
    else if !Ago(h, 2).OfLiteral? then 4 + Rank(h, 2)
    else if !Ago(h, 3).OfLiteral? then 1 + Rank(h, 3)
    else 0
  }

  lemma AgoOn(h: seq<Sort>, x: Sort, k: nat)
    requires k >= 1
    ensures Ago(h + [x], k + 1) == Ago(h, k) && Ago(h + [x], 1) == x
  {
  }

  /** The state goes with the symbols. */
  lemma StateGoes(h: seq<Sort>, x: Sort)
    ensures var s := StateOf(h);
            StateOf(h + [x]) ==
              if x.OfLiteral? then StateAfterLit(s) else if x.OfMatch? then StateAfterMatch(s)
              else if x.OfRep? then StateAfterRep(s) else StateAfterShortRep(s)
  {
    hide Ago;
    AgoOn(h, x, 1);
    AgoOn(h, x, 2);
    AgoOn(h, x, 3);
  }

  /** After every symbol the state is that of the symbols so far; a start is the state of none. */
  lemma StateFollows(c: Core, s: Symbol, limit: nat, h: seq<Sort>)
    requires Applies(c, s, limit) && !s.EndMark? && c.state == StateOf(h)
    ensures Apply(c, s, limit).c.state == StateOf(h + [SortOf(s)])
    ensures StateOf([]) == 0
  {
    hide StateOf, Copy, NumProbs;
    StateGoes(h, SortOf(s));
    NoState();
  }

  lemma NoState()
    ensures StateOf([]) == 0
  {
  }

  // ----- The distances ---------------------------------------------------------------------------------------

  function Reps(c: Core): seq<word> {
    [c.rep0, c.rep1, c.rep2, c.rep3]
  }

  /** The distance used comes first, and the others stay in their order: a new one drops the last. */
  lemma RepsToFront(c: Core, s: Symbol, limit: nat)
    requires Applies(c, s, limit)
    ensures var r, r' := Reps(c), Reps(Apply(c, s, limit).c);
            && (s.Match? ==> r' == [s.dist + 1] + r[..3])
            && (s.Rep? ==> r' == [r[s.which]] + r[..s.which] + r[s.which + 1..])
            && (!s.Match? && !s.Rep? ==> r' == r)
  {
    hide Copy, NumProbs;
    var r := Reps(c);
    assert r[..3] == [c.rep0, c.rep1, c.rep2];
    if s.Rep? {
      RepToFront(r, s.which);
    }
  }

  lemma RepToFront(r: seq<word>, which: nat)
    requires |r| == 4 && which < 4
    ensures [r[which]] + r[..which] + r[which + 1..] ==
            match which
            case 0 => [r[0], r[1], r[2], r[3]]
            case 1 => [r[1], r[0], r[2], r[3]]
            case 2 => [r[2], r[0], r[1], r[3]]
            case _ => [r[3], r[0], r[1], r[2]]
  {
  }

  /** How far back a symbol copies from. */
  function DistanceOf(reps: seq<word>, s: Symbol): nat
    requires |reps| == 4 && ValidSymbol(s)
  {
    match s
    case ShortRep => reps[0]
    case Rep(which, _) => reps[which]
    case Match(dist, _) => dist + 1
    case _ => 0
  }

  /** A symbol is taken exactly when the byte it copies from has been written, no more than dicSize before, and there is room
      for a first byte of a match. */
  lemma TakenExactly(c: Core, s: Symbol, limit: nat)
    requires ValidCore(c) && !c.needInit && ValidSymbol(s) && |c.hist| <= limit
    ensures Apply(c, s, limit).Good? <==>
            && DistanceOf(Reps(c), s) <= |c.hist| && DistanceOf(Reps(c), s) <= c.props.dicSize
            && (s.Match? || s.Rep? ==> |c.hist| < limit)
  {
    hide Copy, NumProbs;
  }

  // ----- What is written -------------------------------------------------------------------------------------

  /** How many bytes a symbol stands for. */
  function Length(s: Symbol): nat {
    match s
    case Literal(_) => 1
    case ShortRep => 1
    case Rep(_, len) => len + 2
    case Match(_, len) => len + 2
    case EndMark(_) => 0
  }

  /** A symbol writes its bytes, or as many as there is room for and keeps the rest to write. A literal is itself; any other
      byte equals the one before it at the distance that is now the first. */
  lemma SymbolWrites(c: Core, s: Symbol, limit: nat)
    requires Applies(c, s, limit)
    ensures var d := Apply(c, s, limit).c;
            && c.hist <= d.hist
            && (s.Literal? ==> d.hist == c.hist + [s.b])
            && (!s.EndMark? ==> |d.hist| + d.remain == |c.hist| + Length(s) && (d.remain > 0 ==> |d.hist| == limit))
            && (!s.Literal? && !s.EndMark? ==>
                  1 <= d.rep0 <= |c.hist| && forall i | |c.hist| <= i < |d.hist| :: d.hist[i] == d.hist[i - d.rep0])
            && (s.EndMark? ==> d.hist == c.hist && d.remain == FINISHED)
  {
    hide Copy, NumProbs;
    ApplyKeeps(c, s, limit);
    var d := Apply(c, s, limit).c;
    match s
    case ShortRep => CopyMeaning(c.hist, c.rep0, 1);
    case Rep(which, len) => CopyMeaning(c.hist, d.rep0, Min(len + 2, limit - |c.hist|));
    case Match(dist, len) => CopyMeaning(c.hist, dist + 1, Min(len + 2, limit - |c.hist|));
    case _ =>
  }

  // ----- Contexts --------------------------------------------------------------------------------------------

  lemma {:induction false} DigitsJoin(m: nat, n: nat, a: nat, b: nat)
    requires b < Pow2(n)
    ensures Digits(m + n, a * Pow2(n) + b) == Digits(m, a) + Digits(n, b)
    decreases n
  {
    if n == 0 {
      assert a * 1 + b == a && Digits(m, a) + [] == Digits(m, a);
    } else {
      var p := Pow2(n - 1);
      assert a * Pow2(n) == 2 * (a * p);
      var v := a * Pow2(n) + b;
      DivUnique(v, 2, a * p + b / 2, b % 2);
      DigitsJoin(m, n - 1, a, b / 2);
      assert Digits(m, a) + (Digits(n - 1, b / 2) + [b % 2 == 1]) == Digits(m, a) + Digits(n - 1, b / 2) + [b % 2 == 1];
    }
  }

  /** The context of a literal: the last lp digits of its place, and the first lc digits of the byte before it. */
  lemma LitContextDigits(hist: seq<byte>, p: Props)
    requires ValidProps(p) && hist != []
    ensures Pow2(p.lp) > 0
    ensures Digits(p.lp + p.lc, LitContext(hist, p)) == Digits(p.lp, |hist| % Pow2(p.lp)) + Digits(8, hist[|hist| - 1])[..p.lc]
  {
    hide Pow2, Digits, LitContext;
    var b := hist[|hist| - 1];
    LitContextParts(hist, p);
    DigitsJoin(p.lp, p.lc, |hist| % Pow2(p.lp), Shr(b, 8 - p.lc));
    LeadingDigits(p.lc, 8 - p.lc, b);
  }

  lemma LitContextParts(hist: seq<byte>, p: Props)
    requires ValidProps(p) && hist != []
    ensures Pow2(p.lp) > 0 && Shr(hist[|hist| - 1], 8 - p.lc) < Pow2(p.lc)
    ensures LitContext(hist, p) == |hist| % Pow2(p.lp) * Pow2(p.lc) + Shr(hist[|hist| - 1], 8 - p.lc)
  {
    hide Pow2;
    Pow2Grows(0, p.lp);
    Pow2Grows(0, 8 - p.lc);
    Pow2Sum(8 - p.lc, p.lc);
    Pow2Values();
    DivBelow(hist[|hist| - 1], Pow2(8 - p.lc), Pow2(p.lc));
  }

  /** The place modulo 2^pb is the last pb digits of the place. */
  lemma PosStateDigits(c: Core)
    requires ValidCore(c) && !c.needInit
    ensures EnvOf(c).posState < Pow2(c.props.pb) && Digits(c.props.pb, EnvOf(c).posState) == Digits(c.props.pb, |c.hist|)
    ensures c.state >= NUM_LIT_STATES ==> EnvOf(c).matchByte == c.hist[|c.hist| - c.rep0]
  {
    hide Pow2, Digits, NumProbs, LitContext;
    LastDigits(c.props.pb, |c.hist|);
  }

  lemma LastDigits(n: nat, v: nat)
    ensures Pow2(n) > 0 && 0 <= v % Pow2(n) < Pow2(n) && Digits(n, v % Pow2(n)) == Digits(n, v)
  {
    hide Pow2, Digits;
    Pow2Grows(0, n);
    var q, r := v / Pow2(n), v % Pow2(n);
    assert v == q * Pow2(n) + r;
    DigitsJoin(0, n, q, r);
    NoDigits(q);
  }

  lemma NoDigits(v: nat)
    ensures Digits(0, v) == []
  {
  }

  /** What a modelled bit is predicted from. Lengths are told apart by whose they are, distances by how long the match is. */
  datatype Context =
    | ForIsMatch(state: nat, posState: nat)
    | ForIsRep(state: nat)
    | ForRepG0(state: nat)
    | ForRepG1(state: nat)
    | ForRepG2(state: nat)
    | ForRep0Long(state: nat, posState: nat)
    | ForLiteral(context: int, against: nat, above: nat)
    | ForChoice(again: bool)
    | ForChoice2(again: bool)
    | ForShort(again: bool, posState: nat, above: nat)
    | ForMiddle(again: bool, posState: nat, above: nat)
    | ForLong(again: bool, above: nat)
    | ForSlot(length: nat, above: nat)
    | ForLow(slot: nat, above: nat)
    | ForAlign(above: nat)

  function ContextOf(env: Env, c: Ctl): Context
    requires !c.Direct? && !c.End?
  {
    match c
    case IsMatch => ForIsMatch(env.state, env.posState)
    case IsRep => ForIsRep(env.state)
    case RepG0 => ForRepG0(env.state)
    case RepG1 => ForRepG1(env.state)
    case RepG2 => ForRepG2(env.state)
    case Rep0Long => ForRep0Long(env.state, env.posState)
    case Lit(sym) => ForLiteral((env.litBase - LITERAL) as int / LIT_SIZE, 0, sym)
    case LitMatched(sym, offs, mb) =>
      ForLiteral((env.litBase - LITERAL) as int / LIT_SIZE, if offs == 0 then 0 else if MatchBit(offs, mb) == 0 then 1 else 2, sym)
    case Choice(k) => ForChoice(k.RepLen?)
    case Choice2(k) => ForChoice2(k.RepLen?)
    case Len(k, region, i) =>
      if region == 0 then ForShort(k.RepLen?, env.posState, i)
      else if region == 1 then ForMiddle(k.RepLen?, env.posState, i) else ForLong(k.RepLen?, i)
    case PosSlot(len, i) => ForSlot(if len < 4 then len else 3, i)
    case Spec(_, slot, i, _, _, _) => ForLow(slot, i)
    case Align(_, i, _, _, _) => ForAlign(i)
  }

  /** Where the slots for contexts of a kind are. */
  function Group(s: int): nat {
    if s < 192 then 0 else if s < 204 then 1 else if s < 216 then 2 else if s < 228 then 3 else if s < 240 then 4
    else if s < 432 then 5 else if s < 688 then 12 else if s < 802 then 13 else if s < 818 then 14
    else if s < 1846 then LenGroup((s - 818) % 514) else 6
  }

  function LenGroup(s: int): nat {
    if s == 0 then 7 else if s == 1 then 8 else if s < 130 then 9 else if s < 258 then 10 else 11
  }

  function Kind(x: Context): nat {
    match x
    case ForIsMatch(_, _) => 0
    case ForIsRep(_) => 1
    case ForRepG0(_) => 2
    case ForRepG1(_) => 3
    case ForRepG2(_) => 4
    case ForRep0Long(_, _) => 5
    case ForLiteral(_, _, _) => 6
    case ForChoice(_) => 7
    case ForChoice2(_) => 8
    case ForShort(_, _, _) => 9
    case ForMiddle(_, _, _) => 10
    case ForLong(_, _) => 11
    case ForSlot(_, _) => 12
    case ForLow(_, _) => 13
    case ForAlign(_) => 14
  }

  /** An environment as it comes from a decoder. */
  ghost predicate RealEnv(env: Env, numProbs: nat) {
    ValidEnv(env, numProbs) && exists k: nat :: env.litBase == LITERAL + LIT_SIZE * k
  }

  ghost predicate Modelled(env: Env, c: Ctl, numProbs: nat) {
    RealEnv(env, numProbs) && ValidCtl(c) && !c.Direct? && !c.End?
  }

  /** The digits above the one of a low part are few. */
  lemma LowBounds(c: Ctl)
    requires ValidCtl(c) && c.Spec?
    ensures 4 <= c.slot < 14 && 1 <= c.i < P2(c.slot / 2 - 1)
  {
    assert c.n == 1 || c.n == 2 || c.n == 3 || c.n == 4 || c.n == 5;
  }

  lemma AlignBounds(c: Ctl)
    requires ValidCtl(c) && c.Align?
    ensures 1 <= c.i < 16
  {
    assert c.n == 1 || c.n == 2 || c.n == 3 || c.n == 4;
  }

  lemma LowSlot(slot: nat, i: nat)
    requires 4 <= slot < 14 && 1 <= i < P2(slot / 2 - 1)
    ensures 688 <= SPEC_POS + SlotBase(slot) - slot - 1 + i < 802
  {
  }

  function LowPlace(slot: nat, i: nat): int
    requires 4 <= slot < 14
  {
    SlotBase(slot) - slot - 1 + i
  }

  lemma LowOrder(slot: nat, i: nat, slot': nat, i': nat)
    requires 4 <= slot < slot' < 14 && 1 <= i < P2(slot / 2 - 1) && 1 <= i'
    ensures LowPlace(slot, i) < LowPlace(slot', i')
  {
    LowEnd(slot);
    LowEnds(slot + 1, slot');
  }

  lemma LowEnd(slot: nat)
    requires 4 <= slot < 14
    ensures LowPlace(slot, P2(slot / 2 - 1)) <= LowPlace(if slot == 13 then 13 else slot + 1, if slot == 13 then 32 else 1)
  {
    assert slot == 4 || slot == 5 || slot == 6 || slot == 7 || slot == 8 || slot == 9 || slot == 10 || slot == 11 || slot == 12 || slot == 13;
  }

  lemma {:induction false} LowEnds(slot: nat, slot': nat)
    requires 4 <= slot <= slot' < 14
    ensures LowPlace(slot, 1) <= LowPlace(slot', 1)
    decreases slot' - slot
  {
    if slot < slot' {
      LowEnds(slot, slot' - 1);
      LowEnd(slot' - 1);
      PowersPositive(slot' - 1);
    }
  }

  lemma PowersPositive(slot: nat)
    requires 4 <= slot < 14
    ensures P2(slot / 2 - 1) >= 1
  {
  }

  lemma LenSlot(env: Env, c: Ctl)
    requires ValidCtl(c) && env.posState < 16 && (c.Choice? || c.Choice2? || c.Len?)
    ensures Group(Slot(env, c)) == Kind(ContextOf(env, c))
  {
    var s := Slot(env, c) - 818;
    DivUnique(s, 514, if c.kind.RepLen? then 1 else 0, if c.kind.RepLen? then s - 514 else s);
  }

  /** Slots for contexts of different kinds are apart. */
  lemma GroupOfSlot(env: Env, c: Ctl, numProbs: nat)
    requires Modelled(env, c, numProbs)
    ensures Group(Slot(env, c)) == Kind(ContextOf(env, c))
  {
    hide LenGroup, P2, SlotBase;
    if c.Spec? {
      LowBounds(c);
      LowSlot(c.slot, c.i);
    } else if c.Align? {
      AlignBounds(c);
    } else if c.Choice? || c.Choice2? || c.Len? {
      LenSlot(env, c);
    }
  }

  lemma LiteralSlots(env: Env, c: Ctl, env': Env, c': Ctl, numProbs: nat)
    requires Modelled(env, c, numProbs) && Modelled(env', c', numProbs) && Slot(env, c) == Slot(env', c')
    requires (c.Lit? || c.LitMatched?) && (c'.Lit? || c'.LitMatched?)
    ensures ContextOf(env, c) == ContextOf(env', c')
  {
    LiteralPlace(env, c, numProbs);
    LiteralPlace(env', c', numProbs);
  }

  lemma LiteralPlace(env: Env, c: Ctl, numProbs: nat)
    requires Modelled(env, c, numProbs) && (c.Lit? || c.LitMatched?)
    ensures var x, s := ContextOf(env, c), Slot(env, c) - LITERAL;
            x.context == s / 0x100 / 3 && x.against == s / 0x100 % 3 && x.above == s % 0x100
  {
    var k: nat :| env.litBase == LITERAL + LIT_SIZE * k;
    var x, s := ContextOf(env, c), Slot(env, c) - LITERAL;
    DivUnique(LIT_SIZE * k, LIT_SIZE, k, 0);
    DivUnique(s, 0x100, 3 * k + x.against, x.above);
    DivUnique(3 * k + x.against, 3, k, x.against);
  }

  lemma LowSlots(env: Env, c: Ctl, env': Env, c': Ctl)
    requires ValidCtl(c) && ValidCtl(c') && c.Spec? && c'.Spec? && Slot(env, c) == Slot(env', c')
    ensures ContextOf(env, c) == ContextOf(env', c')
  {
    hide P2, SlotBase;
    LowBounds(c);
    LowBounds(c');
    if c.slot < c'.slot {
      LowOrder(c.slot, c.i, c'.slot, c'.i);
    } else if c'.slot < c.slot {
      LowOrder(c'.slot, c'.i, c.slot, c.i);
    }
  }

  lemma EnvReal(c: Core)
    requires ValidCore(c) && !c.needInit
    ensures RealEnv(EnvOf(c), |c.probs|)
  {
    hide NumProbs, ValidEnv;
    EnvValid(c);
    assert EnvOf(c).litBase == LITERAL + LIT_SIZE * LitContext(c.hist, c.props);
  }

  /** Two bits share a probability if and only if they are predicted from the same. */
  lemma SlotsShared(env: Env, c: Ctl, env': Env, c': Ctl, numProbs: nat)
    requires Modelled(env, c, numProbs) && Modelled(env', c', numProbs)
    ensures Slot(env, c) == Slot(env', c') <==> ContextOf(env, c) == ContextOf(env', c')
  {
    GroupOfSlot(env, c, numProbs);
    GroupOfSlot(env', c', numProbs);
    if Slot(env, c) == Slot(env', c') {
      SlotsSame(env, c, env', c', numProbs);
    }
    if ContextOf(env, c) == ContextOf(env', c') {
      ContextsSame(env, c, env', c', numProbs);
    }
  }

  lemma SlotsSame(env: Env, c: Ctl, env': Env, c': Ctl, numProbs: nat)
    requires Modelled(env, c, numProbs) && Modelled(env', c', numProbs) && Slot(env, c) == Slot(env', c')
    requires Kind(ContextOf(env, c)) == Kind(ContextOf(env', c'))
    ensures ContextOf(env, c) == ContextOf(env', c')
  {
    hide P2, SlotBase, Group, MatchBit, Kind, ContextOf, Slot;
    SameKind(env, c, env', c');
    if c.Lit? || c.LitMatched? {
      LiteralSlots(env, c, env', c', numProbs);
    } else if c.Spec? {
      LowSlots(env, c, env', c');
    } else if c.Choice? || c.Choice2? || c.Len? {
      LenSlots(env, c, env', c');
    } else {
      OtherSlots(env, c, env', c');
    }
  }

  lemma SameKind(env: Env, c: Ctl, env': Env, c': Ctl)
    requires !c.Direct? && !c.End? && !c'.Direct? && !c'.End? && Kind(ContextOf(env, c)) == Kind(ContextOf(env', c'))
    ensures (c.Lit? || c.LitMatched?) == (c'.Lit? || c'.LitMatched?) && c.Spec? == c'.Spec?
    ensures (c.Choice? || c.Choice2? || c.Len?) == (c'.Choice? || c'.Choice2? || c'.Len?)
  {
    hide P2, SlotBase, MatchBit;
  }

  lemma LenSlots(env: Env, c: Ctl, env': Env, c': Ctl)
    requires ValidCtl(c) && ValidCtl(c') && env.posState < 16 && env'.posState < 16
    requires (c.Choice? || c.Choice2? || c.Len?) && (c'.Choice? || c'.Choice2? || c'.Len?)
    requires Slot(env, c) == Slot(env', c') && Kind(ContextOf(env, c)) == Kind(ContextOf(env', c'))
    ensures ContextOf(env, c) == ContextOf(env', c')
  {
    hide P2, Pow2, MatchBit, SlotBase, LenToPosState;
  }

  lemma OtherSlots(env: Env, c: Ctl, env': Env, c': Ctl)
    requires ValidCtl(c) && ValidCtl(c') && env.posState < 16 && env'.posState < 16 && env.state < 12 && env'.state < 12
    requires !c.Direct? && !c.End? && !c'.Direct? && !c'.End?
    requires !c.Lit? && !c.LitMatched? && !c.Spec? && !c'.Lit? && !c'.LitMatched? && !c'.Spec?
    requires !c.Choice? && !c.Choice2? && !c.Len? && !c'.Choice? && !c'.Choice2? && !c'.Len?
    requires Slot(env, c) == Slot(env', c') && Kind(ContextOf(env, c)) == Kind(ContextOf(env', c'))
    ensures ContextOf(env, c) == ContextOf(env', c')
  {
    hide P2, Pow2, MatchBit, SlotBase, LenCoder, LenRegion, LenGroup;
  }

  lemma ContextsSame(env: Env, c: Ctl, env': Env, c': Ctl, numProbs: nat)
    requires Modelled(env, c, numProbs) && Modelled(env', c', numProbs) && ContextOf(env, c) == ContextOf(env', c')
    ensures Slot(env, c) == Slot(env', c')
  {
    hide P2, SlotBase, Group, MatchBit, Kind, ContextOf, Slot;
    SameKind(env, c, env', c');
    if c.Lit? || c.LitMatched? {
      LiteralPlace(env, c, numProbs);
      LiteralPlace(env', c', numProbs);
    } else {
      OtherContexts(env, c, env', c');
    }
  }

  lemma OtherContexts(env: Env, c: Ctl, env': Env, c': Ctl)
    requires !c.Direct? && !c.End? && !c'.Direct? && !c'.End? && ContextOf(env, c) == ContextOf(env', c')
    requires ValidCtl(c) && ValidCtl(c') && !c.Lit? && !c.LitMatched? && !c'.Lit? && !c'.LitMatched?
    ensures Slot(env, c) == Slot(env', c')
  {
    hide P2, SlotBase, Pow2, MatchBit;
  }

  /** The bit of a literal after n others is predicted from these, and after a match from the next one of the match byte as
      well, as long as the bits so far are those of the match byte. */
  lemma LiteralContexts(env: Env, n: nat, v: nat)
    requires n < 8 && v < Pow2(n)
    ensures Walk(env, IsMatch, [false] + Digits(n, v)).Some?
    ensures var c, d := Walk(env, IsMatch, [false] + Digits(n, v)).value, Digits(8, env.matchByte);
            && !c.Direct? && !c.End?
            && ContextOf(env, c) ==
                 ForLiteral((env.litBase - LITERAL) as int / LIT_SIZE,
                            if env.state < NUM_LIT_STATES || Digits(n, v) != d[..n] then 0 else if d[n] then 2 else 1,
                            Pow2(n) + v)
  {
    hide Walk, Digits, Pow2;
    WalkOn(env, IsMatch, [false], Digits(n, v));
    WalkOne(env, IsMatch, false);
    MatchedWalk(env, n, v);
    TreeWalk(env, LiteralTree, n, v);
    MatchDigit(env.matchByte, n);
  }

  // ----- The interval ----------------------------------------------------------------------------------------

  /** A modelled bit cuts the interval at the bound: the code keeps its place in the part that it lies in. */
  lemma ModelBitCuts(rc: Rc, p: prob)
    requires rc.range >= TOP && rc.code < rc.range
    ensures var b, r := Bound(rc.range, p), AfterModelBit(rc, p);
            && 0 < b < rc.range && (ModelBit(rc, p) <==> b <= rc.code)
            && r.code < r.range && r.code == rc.code - (if ModelBit(rc, p) then b else 0)
            && r.range == if ModelBit(rc, p) then rc.range - b else b
  {
    hide Bound;
  }

  /** The share of 0 is p of 2048, but for what is lost in rounding. */
  lemma BoundShares(range: word, p: prob)
    ensures 0x800 * Bound(range, p) <= range * p < 0x800 * (Bound(range, p) + p)
  {
    var q, r := range / 0x800, range % 0x800;
    assert range * p == 0x800 * (q * p) + r * p;
    Monotone(p, r, 0x7FF);
    assert 0x800 * (q * p + p) == 0x800 * (q * p) + 0x800 * p;
  }

  /** A direct bit cuts it in the middle. The code may end up at the end, when the range is odd. */
  lemma DirectBitCuts(rc: Rc)
    requires 2 <= rc.range && rc.code < rc.range
    ensures var h, r := rc.range / 2, AfterDirectBit(rc);
            && (DirectBit(rc) <==> h <= rc.code) && r.range == h
            && r.code == rc.code - (if DirectBit(rc) then h else 0) && r.code <= r.range
  {
    var h := rc.range / 2;
    if h <= rc.code {
      DivUnique(rc.code - h, TWO32, 0, rc.code - h);
    } else {
      DivUnique(rc.code - h, TWO32, -1, rc.code - h + TWO32);
    }
  }

  /** Normalisation makes the interval finer, and a byte of input says where in it the code is. */
  lemma NormalizedFiner(rc: Rc)
    requires rc.range < TOP && rc.input != [] && rc.code < rc.range
    ensures var r := Normalized(rc);
            r == Rc(0x100 * rc.range, 0x100 * rc.code + rc.input[0], rc.input[1..]) && r.code < r.range
  {
    DivUnique(0x100 * rc.code + rc.input[0], TWO32, 0, 0x100 * rc.code + rc.input[0]);
  }

  /** A probability moves by a thirty-second, rounded down, of what it is from certainty of the bit that came. */
  lemma AdaptedMoves(p: prob)
    ensures var zero, one := Adapted(p, false) - p, p - Adapted(p, true);
            0 <= 32 * zero <= 0x800 - p < 32 * (zero + 1) && 0 <= 32 * one <= p < 32 * (one + 1)
  {
  }

  /** Most significant first. */
  function Big(b: seq<byte>): nat {
    if b == [] then 0 else 0x100 * Big(b[..|b| - 1]) + b[|b| - 1] as int
  }

  lemma BigOfFour(b: seq<byte>)
    requires |b| == 4
    ensures Big(b) == 0x100_0000 * b[0] as int + 0x1_0000 * b[1] as int + 0x100 * b[2] as int + b[3] as int
  {
    var x, y, z := b[..1], b[..2], b[..3];
    assert z[..2] == y && y[..1] == x && x[..0] == [];
    assert Big([]) == 0 && Big(x) == b[0] as int;
    assert Big(y) == 0x100 * Big(x) + b[1] as int;
    assert Big(z) == 0x100 * Big(y) + b[2] as int;
    assert Big(b) == 0x100 * Big(z) + b[3] as int;
  }

  /** The range decoder starts with the widest range and the code that the bytes after the first give. */
  lemma StartsWidest(c: Core, input: seq<byte>)
    requires c.needFlush && |input| >= RC_INIT_SIZE
    ensures var d := Flushed(c, input);
            d.range == TWO32 - 1 && d.code == Big(input[1..5]) && d == c.(range := d.range, code := d.code, needFlush := false)
  {
    BigOfFour(input[1..5]);
  }

  /** A header is taken if and only if its first byte is 0. */
  lemma HeaderTaken(c: Core, input: seq<byte>, limit: nat, mustEnd: bool)
    requires Between(c, limit) && c.remain != FINISHED && c.needFlush && |input| >= RC_INIT_SIZE
    ensures var d := Flushed(c, input);
            && d.range == TWO32 - 1 && d.code == Big(input[1..5]) && !d.needFlush && Between(d, limit)
            && Loop(c, input, limit, mustEnd) == if input[0] == 0 then Loop(d, input[5..], limit, mustEnd) else DataError
  {
    hide ValidState, NumProbs, Step;
    StartsWidest(c, input);
    Ready(c, input, limit);
    if input[0] == 0 {
      LoopFlushed(c, input, limit, mustEnd);
    }
  }

  /** A start: all probabilities of the table are even, all distances 1, the state is that of no symbols. */
  lemma StartsEven(c: Core)
    requires |c.probs| >= NumProbs(c.props) && c.needInit
    ensures var d := Initialized(c);
            && |d.probs| == |c.probs| && (forall i | 0 <= i < NumProbs(c.props) :: d.probs[i] == 0x400)
            && d.probs[NumProbs(c.props)..] == c.probs[NumProbs(c.props)..]
            && Reps(d) == [1, 1, 1, 1] && d.state == StateOf([]) && !d.needInit
            && d == c.(probs := d.probs, rep0 := 1, rep1 := 1, rep2 := 1, rep3 := 1, state := 0, needInit := false)
  {
    hide StateOf;
    NoState();
  }
}
