/** Facts about single symbols that the decoder's methods rest on. */
module LzmaFacts {
  import opened Words
  import opened RangeCoder
  import opened LzmaSymbol
  import opened LzmaRun
  import opened LzmaStream
  import opened LzmaBits

  /** Masking a position that is kept modulo 2^32. */
  lemma MaskedPosition(h: nat, n: nat)
    requires n <= 4
    ensures Pow2(n) > 0 && h % TWO32 % Pow2(n) == h % Pow2(n)
  {
    var q := h / TWO32;
    if n == 0 {
    } else if n == 1 {
      DivUnique(h % TWO32, 2, h / 2 - 0x8000_0000 * q, h % 2);
    } else if n == 2 {
      DivUnique(h % TWO32, 4, h / 4 - 0x4000_0000 * q, h % 4);
    } else if n == 3 {
      assert Pow2(3) == 8;
      DivUnique(h % TWO32, 8, h / 8 - 0x2000_0000 * q, h % 8);
    } else {
      assert Pow2(4) == 16;
      DivUnique(h % TWO32, 16, h / 16 - 0x1000_0000 * q, h % 16);
    }
  }

  lemma ApplyShortRep(c: Core, limit: nat)
    requires ValidCore(c) && !c.needInit && !c.needFlush && c.remain == 0 && c.hist != [] && |c.hist| < limit
    ensures var d := c.(hist := c.hist + [c.hist[|c.hist| - c.rep0]], state := StateAfterShortRep(c.state));
            Apply(c, ShortRep, limit) == Good(d) && ValidCore(d)
  {
    ApplyValid(c, ShortRep, limit);
    assert Copy(c.hist, c.rep0, 1) == c.hist + [c.hist[|c.hist| - c.rep0]];
  }

  lemma ApplyRep(c: Core, which: nat, len: nat, limit: nat)
    requires ValidCore(c) && !c.needInit && !c.needFlush && c.remain == 0 && c.hist != [] && |c.hist| <= limit
    requires which < 4 && len <= 271
    ensures 1 <= Repeated(c, which).rep0 <= Reach(c.hist, c.props.dicSize) && Repeated(c, which).hist == c.hist
    ensures |c.hist| == limit ==> Apply(c, Rep(which, len), limit).Bad?
    ensures |c.hist| < limit ==>
      var d := Extend(Repeated(c, which).(state := StateAfterRep(c.state)), len + MATCH_MIN_LEN, limit);
      Apply(c, Rep(which, len), limit) == Good(d) && ValidCore(d)
  {
    hide Copy;
    RepeatedInReach(c, which);
    if |c.hist| < limit {
      ApplyValid(c, Rep(which, len), limit);
    }
  }

  lemma ApplyMatch(c: Core, distance: nat, len: nat, limit: nat)
    requires ValidCore(c) && !c.needInit && !c.needFlush && c.remain == 0 && |c.hist| <= limit
    requires distance < 0xFFFF_FFFF && len <= 271
    ensures distance >= Reach(c.hist, c.props.dicSize) || |c.hist| == limit ==> Apply(c, Match(distance, len), limit).Bad?
    ensures distance < Reach(c.hist, c.props.dicSize) && |c.hist| < limit ==>
      var d := c.(rep0 := distance + 1, rep1 := c.rep0, rep2 := c.rep1, rep3 := c.rep2, state := StateAfterMatch(c.state));
      var e := Extend(d, len + MATCH_MIN_LEN, limit);
      Apply(c, Match(distance, len), limit) == Good(e) && ValidCore(e)
  {
    hide Copy;
    if distance < Reach(c.hist, c.props.dicSize) && |c.hist| < limit {
      ApplyValid(c, Match(distance, len), limit);
    }
  }

  lemma RepeatedInReach(c: Core, which: nat)
    requires ValidCore(c) && !c.needInit && c.hist != [] && which < 4
    ensures 1 <= Repeated(c, which).rep0 <= Reach(c.hist, c.props.dicSize)
  {
  }

  /** Control points from which only repeated distances come. */
  ghost predicate OnlyReps(c: Ctl) {
    match c
    case RepG0 => true
    case RepG1 => true
    case RepG2 => true
    case Rep0Long => true
    case Choice(k) => k.RepLen?
    case Choice2(k) => k.RepLen?
    case Len(k, _, _) => k.RepLen?
    case End(s) => s.Rep? || s.ShortRep?
    case _ => false
  }

  lemma {:induction false} RepAhead(w: Walk, c: Ctl, rd: Rd, probs: seq<prob>)
    requires On(w, c, rd, probs) && OnlyReps(c)
    ensures w.r.symbol.Rep? || w.r.symbol.ShortRep?
  {
    RunOnlyReps(w.env, c, View(rd, w.src), probs);
  }

  lemma {:induction false} RunOnlyReps(env: Env, c: Ctl, rc: Rc, probs: seq<prob>)
    requires ValidCtl(c) && ValidEnv(env, |probs|) && OnlyReps(c) && Run(env, c, rc, probs).Out?
    ensures var s := Run(env, c, rc, probs).symbol;
            s.Rep? || s.ShortRep?
    decreases Rank(c)
  {
    if !c.End? {
      var p := Move(env, c, rc, probs);
      NextOnlyReps(env, c, rc, probs);
      RunOnlyReps(env, p.c, p.rc, p.probs);
    }
  }

  lemma NextOnlyReps(env: Env, c: Ctl, rc: Rc, probs: seq<prob>)
    requires ValidCtl(c) && ValidEnv(env, |probs|) && OnlyReps(c) && !Starved(rc) && !c.End?
    ensures OnlyReps(Move(env, c, rc, probs).c)
  {
    hide Slot, Normalized, ModelBit, AfterModelBit, Adapted;
  }

  lemma RangedValid(c: Core, rc: Rc)
    requires ValidCore(c) && rc.range >= TOP
    ensures ValidCore(Ranged(c, rc))
  {
  }

  lemma EnvRanged(c: Core, rc: Rc)
    requires ValidCore(c) && !c.needInit && rc.range >= TOP
    ensures c.state >= NUM_LIT_STATES ==> 1 <= c.rep0 <= |c.hist|
    ensures ValidCore(Ranged(c, rc)) && EnvOf(Ranged(c, rc)) == EnvOf(c)
    ensures ValidEnv(EnvOf(c), |c.probs|)
  {
    EnvValid(c);
  }

  lemma ApplyNoHistory(c: Core, s: Symbol, limit: nat)
    requires ValidCore(c) && !c.needInit && ValidSymbol(s) && |c.hist| <= limit && c.hist == [] && (s.Rep? || s.ShortRep?)
    ensures Apply(c, s, limit).Bad?
  {
  }

  lemma ProbsValid(c: Core, probs: seq<prob>)
    requires ValidCore(c) && |probs| == |c.probs|
    ensures ValidCore(c.(probs := probs))
  {
  }

  lemma RunOfValid(c: Core, input: seq<byte>)
    requires ValidCore(c) && !c.needInit && !c.needFlush && RunOf(c, input).Out?
    ensures var r := RunOf(c, input);
            ValidSymbol(r.symbol) && r.rc.range >= TOP && |r.probs| == |c.probs| && ValidCore(Advanced(c, r))
  {
  }

  lemma EnoughInput(c: Core, input: seq<byte>)
    requires ValidCore(c) && !c.needInit && !c.needFlush
    ensures |input| >= 20 ==> RunOf(c, input).Out?
    ensures RunOf(c, input).Out? ==> |input| - 20 <= |RunOf(c, input).rc.input|
  {
    EnvValid(c);
    TwentyBytes(EnvOf(c), Rc(c.range, c.code, input), c.probs);
  }

  lemma RunOfConsumes(c: Core, input: seq<byte>)
    requires ValidCore(c) && !c.needInit && RunOf(c, input).Out?
    ensures Suffix(RunOf(c, input).rc.input, input)
  {
    EnvValid(c);
    RunConsumes(EnvOf(c), IsMatch, Rc(c.range, c.code, input), c.probs);
  }

  /** What was not enough for a symbol is used up by it once there is more. */
  lemma ShortUsedUp(c: Core, input: seq<byte>, more: seq<byte>)
    requires ValidCore(c) && !c.needInit && RunOf(c, input).Short? && RunOf(c, input + more).Out?
    ensures |RunOf(c, input + more).rc.input| < |more|
  {
    EnvValid(c);
    var rc := Rc(c.range, c.code, input);
    assert Fed(rc, more) == Rc(c.range, c.code, input + more);
    if |RunOf(c, input + more).rc.input| >= |more| {
      RunUnfed(EnvOf(c), IsMatch, rc, c.probs, more);
    }
  }

  function Restarted(c: Core, initDic: bool, initState: bool): Core {
    c.(needFlush := true, remain := 0, hist := if initDic then [] else c.hist, needInit := initDic || initState || c.needInit)
  }

  lemma RestartedValid(c: Core, initDic: bool, initState: bool)
    requires ValidProps(c.props) && |c.probs| >= NumProbs(c.props)
    requires !initDic && !initState && !c.needInit ==> ValidState(c.(remain := 0))
    ensures ValidCore(Restarted(c, initDic, initState))
  {
    hide NumProbs;
  }

  lemma WrongKindFed(c: Core, input: seq<byte>, more: seq<byte>, limit: nat, mustEnd: bool)
    requires AtSymbol(c, limit, mustEnd) && |c.hist| == limit && RunOf(c, input).Out?
    requires !RunOf(c, input).symbol.Match? && !RunOf(c, input).symbol.EndMark?
    ensures Loop(c, input + more, limit, mustEnd) == DataError
  {
    hide Loop, Run, NumProbs;
    LoopWrongKind(c, input, limit, mustEnd);
    LoopFed(c, input, more, limit, mustEnd);
  }

  lemma LoopFinished(c: Core, input: seq<byte>, limit: nat, mustEnd: bool)
    requires LzmaStream.Between(c, limit) && c.remain == FINISHED
    ensures Loop(c, input, limit, mustEnd) == if c.code == 0 then Stop(c, input, FinishedWithMark) else DataError
  {
  }

  lemma {:induction false} LoopConsumes(c: Core, input: seq<byte>, limit: nat, mustEnd: bool)
    requires LzmaStream.Between(c, limit) && Loop(c, input, limit, mustEnd).Stop?
    ensures |Loop(c, input, limit, mustEnd).rest| <= |input|
    decreases Measure(c, limit)
  {
    hide Run, ValidState, NumProbs, Apply;
    if c.remain == FINISHED || (c.needFlush && |input| < RC_INIT_SIZE) {
    } else {
      Ready(c, input, limit);
      var d, rest := Flushed(c, input), FlushRest(c, input);
      if |d.hist| < limit || (mustEnd && d.remain == 0 && d.code != 0) {
        var s := Step(Initialized(d), rest, limit);
        if s.Went? {
          RunOfConsumes(Initialized(d), rest);
          LoopConsumes(s.c, s.rest, limit, mustEnd);
        }
      }
    }
  }

  /** A call that stops for another reason than its input would stop there on any input. */
  lemma {:induction false} StopKept(c: Core, input: seq<byte>, limit: nat, mustEnd: bool, other: seq<byte>)
    requires LzmaStream.Between(c, limit) && Loop(c, input, limit, mustEnd).Stop?
    requires Loop(c, input, limit, mustEnd).status != NeedsMoreInput
    ensures var r := Loop(c, input, limit, mustEnd);
            Loop(r.c, other, limit, mustEnd) == Stop(r.c, other, r.status)
    decreases Measure(c, limit)
  {
    hide Step, ValidState, NumProbs;
    if c.remain != FINISHED {
      Ready(c, input, limit);
      var d, rest := Flushed(c, input), FlushRest(c, input);
      if |d.hist| < limit || (mustEnd && d.remain == 0 && d.code != 0) {
        var s := Step(Initialized(d), rest, limit);
        StopKept(s.c, s.rest, limit, mustEnd, other);
      }
    }
  }

  /** A call that needs more input has kept the start of a header, or too little for the next symbol. */
  ghost predicate Hungry(r: Result, limit: nat, mustEnd: bool)
    requires r.Stop?
  {
    && LzmaStream.Between(r.c, limit) && r.c.remain != FINISHED
    && (if r.c.needFlush then |r.rest| < RC_INIT_SIZE else AtSymbol(r.c, limit, mustEnd) && RunOf(r.c, r.rest).Short?)
  }

  lemma {:induction false} NeedsMoreReason(c: Core, input: seq<byte>, limit: nat, mustEnd: bool)
    requires LzmaStream.Between(c, limit) && Loop(c, input, limit, mustEnd).Stop?
    requires Loop(c, input, limit, mustEnd).status == NeedsMoreInput
    ensures Hungry(Loop(c, input, limit, mustEnd), limit, mustEnd)
    decreases Measure(c, limit)
  {
    hide Run, EnvOf, ValidState, NumProbs, Apply;
    if c.needFlush && |input| < RC_INIT_SIZE {
    } else {
      Ready(c, input, limit);
      var d, rest := Flushed(c, input), FlushRest(c, input);
      if |d.hist| < limit || (mustEnd && d.remain == 0 && d.code != 0) {
        var s := Step(Initialized(d), rest, limit);
        if s.Went? {
          NeedsMoreReason(s.c, s.rest, limit, mustEnd);
        }
      }
    }
  }

  /** What such a call has kept is used up before the next call stops for another reason. */
  lemma KeptUsedUp(r: Result, more: seq<byte>, limit: nat, mustEnd: bool)
    requires r.Stop? && Hungry(r, limit, mustEnd)
    requires Loop(r.c, r.rest + more, limit, mustEnd).Stop?
    requires Loop(r.c, r.rest + more, limit, mustEnd).status != NeedsMoreInput
    ensures |Loop(r.c, r.rest + more, limit, mustEnd).rest| < |more|
  {
    hide Run, EnvOf, ValidState, NumProbs, Apply;
    var input := r.rest + more;
    Ready(r.c, input, limit);
    if r.c.needFlush {
      LoopFlushed(r.c, input, limit, mustEnd);
      LoopConsumes(Flushed(r.c, input), FlushRest(r.c, input), limit, mustEnd);
    } else {
      var s := Step(r.c, input, limit);
      assert s.Went?;
      ShortUsedUp(r.c, r.rest, more);
      LoopConsumes(s.c, s.rest, limit, mustEnd);
    }
  }

  lemma DecodeStopKept(c: Core, input: seq<byte>, limit: nat, mustEnd: bool, other: seq<byte>)
    requires ValidCore(c) && |c.hist| <= limit && Decode(c, input, limit, mustEnd).Stop?
    requires Decode(c, input, limit, mustEnd).status != NeedsMoreInput
    ensures var r := Decode(c, input, limit, mustEnd);
            Loop(r.c, other, limit, mustEnd) == Stop(r.c, other, r.status)
  {
    hide Loop, WriteRem, NumProbs;
    WriteRemBetween(c, limit);
    StopKept(WriteRem(c, limit), input, limit, mustEnd, other);
  }

  lemma DecodeNeedsMore(c: Core, input: seq<byte>, limit: nat, mustEnd: bool)
    requires ValidCore(c) && |c.hist| <= limit && Decode(c, input, limit, mustEnd).Stop?
    requires Decode(c, input, limit, mustEnd).status == NeedsMoreInput
    ensures Hungry(Decode(c, input, limit, mustEnd), limit, mustEnd)
  {
    hide Loop, WriteRem, NumProbs;
    WriteRemBetween(c, limit);
    NeedsMoreReason(WriteRem(c, limit), input, limit, mustEnd);
  }

  /** A portion of a call: either it is the whole call, or it has an earlier limit and need not end there. */
  lemma OutputPaused(c: Core, input: seq<byte>, l2: nat, l: nat, mustEnd2: bool, mustEnd: bool)
    requires ValidCore(c) && |c.hist| <= l2 <= l
    requires (l2 == l && mustEnd2 == mustEnd) || (|c.hist| < l2 < l && !mustEnd2)
    ensures var r, whole := Decode(c, input, l2, mustEnd2), Decode(c, input, l, mustEnd);
            && (r.DataError? ==> whole.DataError?)
            && (r.Stop? ==> Decode(r.c, r.rest, l, mustEnd) == whole)
            && (r.Stop? && (|r.c.hist| == |c.hist| || |r.c.hist| == l) ==> whole == r)
  {
    hide Loop, NumProbs, WriteRem;
    var r := Decode(c, input, l2, mustEnd2);
    if l2 < l {
      OutputCut(c, input, l2, l, mustEnd);
    } else if r.Stop? {
      DecodeAgain(c, input, l, mustEnd);
    }
    if r.Stop? && l2 < l && |r.c.hist| == |c.hist| {
      WriteRemBetween(c, l2);
      StopReason(WriteRem(c, l2), input, l2, false);
      StopsAnyway(r, l, mustEnd);
    }
  }

  lemma InitializedValid(c: Core)
    requires ValidCore(c)
    ensures ValidCore(Initialized(c))
  {
    hide NumProbs;
  }
}
