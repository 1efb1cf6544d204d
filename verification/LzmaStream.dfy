/**
  The LZMA decoder on values: an unbounded output history instead of the circular dictionary, and the
  input that is still unread instead of pointers and a side buffer. `Decode` is what one call is to do.
*/
module LzmaStream {
  import opened Words
  import opened RangeCoder
  import opened LzmaSymbol
  import opened LzmaRun

  const MATCH_MIN_LEN := 2

  /** kMatchSpecLenStart: as a remaining length, the mark that the stream has ended. */
  const FINISHED := 274

  datatype Props = Props(lc: nat, lp: nat, pb: nat, dicSize: word)

  predicate ValidProps(p: Props) {
    p.lc <= 8 && p.lp <= 4 && p.pb <= 4 && p.dicSize > 0
  }

  function NumProbs(p: Props): nat {
    LITERAL + LIT_SIZE * Pow2(p.lc + p.lp)
  }

  /** The output since the last dictionary reset, and all that decides what comes next. */
  datatype Core = Core(props: Props, range: word, code: word, probs: seq<prob>, state: nat,
                       rep0: word, rep1: word, rep2: word, rep3: word,
                       hist: seq<byte>, remain: nat, needFlush: bool, needInit: bool)

  /** How far back a distance may reach. */
  function Reach(hist: seq<byte>, dicSize: word): nat {
    if |hist| < dicSize then |hist| else dicSize
  }

  predicate ValidRep(rep: word, hist: seq<byte>, dicSize: word) {
    1 <= rep && (rep == 1 || rep <= Reach(hist, dicSize))
  }

  ghost predicate ValidCore(c: Core) {
    && ValidProps(c.props)
    && |c.probs| >= NumProbs(c.props)
    && c.remain <= FINISHED
    && (c.needFlush || c.needInit ==> c.remain == 0)
    && (!c.needFlush ==> c.range >= TOP)
    && (!c.needInit ==> ValidState(c))
  }

  ghost predicate ValidState(c: Core) {
    && c.state < NUM_STATES
    && ValidRep(c.rep0, c.hist, c.props.dicSize) && ValidRep(c.rep1, c.hist, c.props.dicSize)
    && ValidRep(c.rep2, c.hist, c.props.dicSize) && ValidRep(c.rep3, c.hist, c.props.dicSize)
    && (c.state >= NUM_LIT_STATES || 0 < c.remain < FINISHED ==> c.hist != [])
  }

  // ----- Contexts -----------------------------------------------------------------------------------

  function LitContext(hist: seq<byte>, p: Props): nat
    requires ValidProps(p)
  {
    if hist == [] then 0
    else
      Pow2Grows(0, p.lp);
      Shl(|hist| % Pow2(p.lp), p.lc) + Shr(hist[|hist| - 1], 8 - p.lc)
  }

  function Shl(x: nat, n: nat): nat {
    Pow2Grows(0, n);
    x * Pow2(n)
  }

  function EnvOf(c: Core): Env
    requires ValidProps(c.props) && (c.state >= NUM_LIT_STATES ==> 1 <= c.rep0 <= |c.hist|)
  {
    Pow2Grows(0, c.props.pb);
    Env(c.state, |c.hist| % Pow2(c.props.pb), LITERAL + LIT_SIZE * LitContext(c.hist, c.props),
        if c.state >= NUM_LIT_STATES then c.hist[|c.hist| - c.rep0] else 0)
  }

  lemma {:induction false} Pow2Sum(m: nat, n: nat)
    ensures Pow2(m) * Pow2(n) == Pow2(m + n)
  {
    if m > 0 {
      Pow2Sum(m - 1, n);
      assert Pow2(m) * Pow2(n) == 2 * (Pow2(m - 1) * Pow2(n));
    }
  }

  lemma Digit(a: nat, b: nat, m: nat, n: nat)
    requires a < m && b < n
    ensures a * n + b < m * n
  {
    assert (a + 1) * n <= m * n by { Monotone(n, a + 1, m); }
    assert (a + 1) * n == a * n + n;
  }

  lemma DivBelow(b: nat, d: nat, q: nat)
    requires d > 0 && b < d * q
    ensures b / d < q
  {
    if b / d >= q {
      Monotone(d, q, b / d);
    }
  }

  lemma LitContextBelow(hist: seq<byte>, p: Props)
    requires ValidProps(p)
    ensures LitContext(hist, p) < Pow2(p.lc + p.lp)
  {
    hide Pow2;
    Pow2Grows(0, p.lp);
    Pow2Grows(0, 8 - p.lc);
    Pow2Grows(0, p.lc);
    Pow2Grows(0, p.lc + p.lp);
    if hist != [] {
      var b := hist[|hist| - 1];
      Pow2Sum(8 - p.lc, p.lc);
      Pow2Values();
      DivBelow(b, Pow2(8 - p.lc), Pow2(p.lc));
      Digit(|hist| % Pow2(p.lp), b / Pow2(8 - p.lc), Pow2(p.lp), Pow2(p.lc));
      Pow2Sum(p.lp, p.lc);
    }
  }

  lemma EnvValid(c: Core)
    requires ValidCore(c) && !c.needInit
    ensures c.state >= NUM_LIT_STATES ==> 1 <= c.rep0 <= |c.hist|
    ensures ValidEnv(EnvOf(c), |c.probs|)
  {
    var ctx := LitContext(c.hist, c.props);
    LitContextBelow(c.hist, c.props);
    DivUnique(LIT_SIZE * ctx, 0x100, 3 * ctx, 0);
    Pow2Grows(c.props.pb, 4);
    assert Pow2(4) == 16;
  }

  // ----- What a symbol does ---------------------------------------------------------------------------

  /** Plain LZ77 copying from the whole history, byte by byte, so that a copy may overlap itself. */
  function Copy(hist: seq<byte>, dist: nat, n: nat): (r: seq<byte>)
    requires 1 <= dist <= |hist|
    ensures |r| == |hist| + n
    decreases n
  {
    if n == 0 then hist else Copy(hist + [hist[|hist| - dist]], dist, n - 1)
  }

  function Min(a: int, b: int): int {
    if a < b then a else b
  }

  function StateAfterLit(s: nat): nat {
    if s < 4 then 0 else if s < 10 then s - 3 else s - 6
  }

  function StateAfterMatch(s: nat): nat {
    if s < NUM_LIT_STATES then 7 else 10
  }

  function StateAfterRep(s: nat): nat {
    if s < NUM_LIT_STATES then 8 else 11
  }

  function StateAfterShortRep(s: nat): nat {
    if s < NUM_LIT_STATES then 9 else 11
  }

  datatype Applied = Bad | Good(c: Core)

  /** Appends a copy, cut off at the limit; what is left of it is kept as the remaining length. */
  function Extend(c: Core, len: nat, limit: nat): Core
    requires 1 <= c.rep0 <= |c.hist| <= limit
  {
    var n := Min(len, limit - |c.hist|);
    c.(hist := Copy(c.hist, c.rep0, n), remain := len - n)
  }

  function Repeated(c: Core, which: nat): Core {
    if which == 0 then c
    else if which == 1 then c.(rep0 := c.rep1, rep1 := c.rep0)
    else if which == 2 then c.(rep0 := c.rep2, rep1 := c.rep0, rep2 := c.rep1)
    else c.(rep0 := c.rep3, rep1 := c.rep0, rep2 := c.rep1, rep3 := c.rep2)
  }

  ghost function Apply(c: Core, s: Symbol, limit: nat): Applied
    requires ValidCore(c) && !c.needInit && ValidSymbol(s) && |c.hist| <= limit
  {
    match s
    case Literal(b) => Good(c.(hist := c.hist + [b], state := StateAfterLit(c.state)))
    case ShortRep =>
      if c.hist == [] then Bad
      else Good(c.(hist := Copy(c.hist, c.rep0, 1), state := StateAfterShortRep(c.state)))
    case Rep(which, len) =>
      if c.hist == [] || |c.hist| == limit then Bad
      else Good(Extend(Repeated(c, which).(state := StateAfterRep(c.state)), len + MATCH_MIN_LEN, limit))
    case Match(dist, len) =>
      if dist >= Reach(c.hist, c.props.dicSize) || |c.hist| == limit then Bad
      else
        var d := c.(rep0 := dist + 1, rep1 := c.rep0, rep2 := c.rep1, rep3 := c.rep2, state := StateAfterMatch(c.state));
        Good(Extend(d, len + MATCH_MIN_LEN, limit))
    case EndMark(_) => Good(c.(remain := FINISHED))
  }

  lemma ExtendValid(c: Core, len: nat, limit: nat)
    requires ValidCore(c) && !c.needInit && !c.needFlush && 2 <= len < FINISHED
    requires c.hist != [] && |c.hist| < limit
    ensures var d := Extend(c, len, limit);
            && ValidCore(d) && !d.needInit && |c.hist| < |d.hist| <= limit && d.remain < FINISHED
            && (|d.hist| < limit ==> d.remain == 0)
  {
  }

  ghost predicate Applies(c: Core, s: Symbol, limit: nat) {
    && ValidCore(c) && !c.needInit && !c.needFlush && c.remain == 0 && ValidSymbol(s)
    && (|c.hist| < limit || (|c.hist| == limit && (s.Match? || s.EndMark?)))
    && Apply(c, s, limit).Good?
  }

  ghost predicate Progress(c: Core, s: Symbol, limit: nat, d: Core) {
    && ValidCore(d) && !d.needInit && !d.needFlush && d.props == c.props && |d.hist| <= limit && d.probs == c.probs
    && (if s.EndMark? then d.hist == c.hist && d.remain == FINISHED
        else |c.hist| < |d.hist| && d.remain < FINISHED && (|d.hist| < limit ==> d.remain == 0))
  }

  lemma RepValid(c: Core, s: Symbol, limit: nat)
    requires Applies(c, s, limit) && s.Rep?
    ensures Progress(c, s, limit, Apply(c, s, limit).c)
  {
    ExtendValid(Repeated(c, s.which).(state := StateAfterRep(c.state)), s.len + MATCH_MIN_LEN, limit);
  }

  lemma MatchValid(c: Core, s: Symbol, limit: nat)
    requires Applies(c, s, limit) && s.Match?
    ensures Progress(c, s, limit, Apply(c, s, limit).c)
  {
    var d := c.(rep0 := s.dist + 1, rep1 := c.rep0, rep2 := c.rep1, rep3 := c.rep2, state := StateAfterMatch(c.state));
    ExtendValid(d, s.len + MATCH_MIN_LEN, limit);
  }

  /** Every symbol that is accepted leaves a valid decoder: on all input, distances reach only bytes written
      since the last dictionary reset, and at most dicSize back. */
  lemma ApplyValid(c: Core, s: Symbol, limit: nat)
    requires Applies(c, s, limit)
    ensures Progress(c, s, limit, Apply(c, s, limit).c)
  {
    if s.Rep? {
      RepValid(c, s, limit);
    } else if s.Match? {
      MatchValid(c, s, limit);
    }
  }

  // ----- One call -----------------------------------------------------------------------------------------

  datatype Status = NotSpecified | FinishedWithMark | NotFinished | NeedsMoreInput | MaybeFinished

  /** `rest` is what was not decoded: on NeedsMoreInput it has been taken over by the decoder, otherwise only
      what had been taken over before is still there. */
  datatype Result = DataError | Stop(c: Core, rest: seq<byte>, status: Status)

  const RC_INIT_SIZE := 5

  function Flushed(c: Core, input: seq<byte>): Core
    requires c.needFlush ==> |input| >= RC_INIT_SIZE
  {
    if c.needFlush
    then c.(range := TWO32 - 1, needFlush := false,
            code := 0x100_0000 * input[1] as int + 0x1_0000 * input[2] as int + 0x100 * input[3] as int + input[4] as int)
    else c
  }

  function FlushRest(c: Core, input: seq<byte>): seq<byte>
    requires c.needFlush ==> |input| >= RC_INIT_SIZE
  {
    if c.needFlush then input[RC_INIT_SIZE..] else input
  }

  function Initialized(c: Core): Core
    requires |c.probs| >= NumProbs(c.props)
  {
    if c.needInit
    then c.(probs := seq(NumProbs(c.props), i => 1024) + c.probs[NumProbs(c.props)..], rep0 := 1, rep1 := 1, rep2 := 1, rep3 := 1, state := 0, needInit := false)
    else c
  }

  ghost function RunOf(c: Core, input: seq<byte>): Outcome
    requires ValidCore(c) && !c.needInit
  {
    EnvValid(c);
    Run(EnvOf(c), IsMatch, Rc(c.range, c.code, input), c.probs)
  }

  function Advanced(c: Core, r: Outcome): Core
    requires r.Out?
  {
    c.(range := r.rc.range, code := r.rc.code, probs := r.probs)
  }

  /** What one symbol makes of a decoder that is ready for it. */
  datatype Stepped = NoInput | Wrong | Went(c: Core, rest: seq<byte>)

  ghost function Step(c: Core, input: seq<byte>, limit: nat): (r: Stepped)
    requires ValidCore(c) && !c.needInit && !c.needFlush && c.remain == 0 && |c.hist| <= limit
    ensures r.Went? ==>
      && ValidCore(r.c) && !r.c.needInit && !r.c.needFlush && |r.c.hist| <= limit && r.c.props == c.props
      && |r.c.probs| == |c.probs|
      && Measure(r.c, limit) < Measure(c, limit)
      && (|r.c.hist| < limit && r.c.remain != FINISHED ==> r.c.remain == 0)
  {
    var r := RunOf(c, input);
    if r.Short? then NoInput
    else if |c.hist| == limit && !r.symbol.Match? && !r.symbol.EndMark? then Wrong
    else
      var a := Apply(Advanced(c, r), r.symbol, limit);
      if a.Bad? then Wrong
      else
        ApplyValid(Advanced(c, r), r.symbol, limit);
        Went(a.c, r.rc.input)
  }

  function Measure(c: Core, limit: nat): nat
    requires |c.hist| <= limit
  {
    limit - |c.hist| + if c.remain == FINISHED then 0 else 1
  }

  ghost predicate Between(c: Core, limit: nat) {
    ValidCore(c) && |c.hist| <= limit && (|c.hist| < limit && c.remain != FINISHED ==> c.remain == 0)
  }

  /** A decoder that goes on to a symbol has its range and state set up first. */
  lemma Ready(c: Core, input: seq<byte>, limit: nat)
    requires Between(c, limit) && c.remain != FINISHED && (c.needFlush ==> |input| >= RC_INIT_SIZE)
    ensures var d := Flushed(c, input);
            && Between(d, limit) && d.props == c.props && d.hist == c.hist && d.remain == c.remain
            && Between(Initialized(d), limit) && !Initialized(d).needInit && !Initialized(d).needFlush
  {
  }

  /** The main loop, symbol by symbol. */
  ghost function Loop(c: Core, input: seq<byte>, limit: nat, mustEnd: bool): (r: Result)
    requires Between(c, limit)
    ensures r.Stop? ==> Between(r.c, limit) && r.c.props == c.props && |r.c.probs| == |c.probs|
    decreases Measure(c, limit)
  {
    hide NumProbs, ValidState, Step;
    if c.remain == FINISHED then
      if c.code == 0 then Stop(c, input, FinishedWithMark) else DataError
    else if c.needFlush && |input| < RC_INIT_SIZE then Stop(c, input, NeedsMoreInput)
    else if c.needFlush && input[0] != 0 then DataError
    else
      Ready(c, input, limit);
      var d, rest := Flushed(c, input), FlushRest(c, input);
      if |d.hist| == limit && d.remain == 0 && d.code == 0 then Stop(d, rest, MaybeFinished)
      else if |d.hist| == limit && !mustEnd then Stop(d, rest, NotFinished)
      else if |d.hist| == limit && d.remain != 0 then DataError
      else
        var s := Step(Initialized(d), rest, limit);
        match s
        case NoInput => Stop(Initialized(d), rest, NeedsMoreInput)
        case Wrong => DataError
        case Went(e, rest') => Loop(e, rest', limit, mustEnd)
  }

  /** Writes what is left of a match that was cut off. */
  function WriteRem(c: Core, limit: nat): (r: Core)
    requires |c.hist| <= limit && (0 < c.remain < FINISHED ==> 1 <= c.rep0 <= |c.hist|)
  {
    if 0 < c.remain < FINISHED then
      var n := Min(c.remain, limit - |c.hist|);
      c.(hist := Copy(c.hist, c.rep0, n), remain := c.remain - n)
    else c
  }

  lemma WriteRemBetween(c: Core, limit: nat)
    requires ValidCore(c) && |c.hist| <= limit
    ensures Between(WriteRem(c, limit), limit)
  {
  }

  /** One call with output limit `limit`: `mustEnd` is LZMA_FINISH_END. */
  ghost function Decode(c: Core, input: seq<byte>, limit: nat, mustEnd: bool): (r: Result)
    requires ValidCore(c) && |c.hist| <= limit
    ensures r.Stop? ==> Between(r.c, limit) && r.c.props == c.props && |r.c.probs| == |c.probs|
  {
    WriteRemBetween(c, limit);
    Loop(WriteRem(c, limit), input, limit, mustEnd)
  }

  // ----- Cutting the input ----------------------------------------------------------------------------

  lemma StepFed(c: Core, input: seq<byte>, more: seq<byte>, limit: nat)
    requires ValidCore(c) && !c.needInit && !c.needFlush && c.remain == 0 && |c.hist| <= limit
    requires !Step(c, input, limit).NoInput?
    ensures var s := Step(c, input, limit);
            Step(c, input + more, limit) == if s.Went? then Went(s.c, s.rest + more) else s
  {
    hide Run, Apply, EnvOf, ValidState, NumProbs;
    EnvValid(c);
    var rc := Rc(c.range, c.code, input);
    RunFed(EnvOf(c), IsMatch, rc, c.probs, more);
    assert Fed(rc, more) == Rc(c.range, c.code, input + more);
    var r, r' := RunOf(c, input), RunOf(c, input + more);
    assert r' == r.(rc := Fed(r.rc, more));
    assert Advanced(c, r') == Advanced(c, r);
  }

  /** What a call says about the next: more input goes where the unread input ended. */
  ghost function Resumed(r: Result, more: seq<byte>, limit: nat, mustEnd: bool): Result
    requires r.Stop? ==> Between(r.c, limit)
  {
    if r.DataError? then DataError else Loop(r.c, r.rest + more, limit, mustEnd)
  }

  lemma {:induction false} LoopFed(c: Core, input: seq<byte>, more: seq<byte>, limit: nat, mustEnd: bool)
    requires Between(c, limit)
    ensures var r := Loop(c, input, limit, mustEnd);
            Loop(c, input + more, limit, mustEnd) == Resumed(r, more, limit, mustEnd)
    decreases Measure(c, limit)
  {
    hide Step, ValidState, NumProbs;
    if c.remain == FINISHED || (c.needFlush && |input| < RC_INIT_SIZE) || (c.needFlush && input[0] != 0) {
    } else {
      Ready(c, input, limit);
      var d, rest := Flushed(c, input), FlushRest(c, input);
      assert FlushRest(c, input + more) == rest + more;
      assert Flushed(c, input + more) == d;
      if |d.hist| == limit && (!mustEnd || d.remain != 0 || d.code == 0) {
      } else {
        var s := Step(Initialized(d), rest, limit);
        if s.NoInput? {
          assert Loop(c, input, limit, mustEnd) == Stop(Initialized(d), rest, NeedsMoreInput);
        } else {
          StepFed(Initialized(d), rest, more, limit);
          if s.Went? {
            LoopFed(s.c, s.rest, more, limit, mustEnd);
          }
        }
      }
    }
  }

  /** The result of a series of calls with the same limit, each offered what is unread so far and a new piece. */
  ghost function Calls(c: Core, input: seq<byte>, pieces: seq<seq<byte>>, limit: nat, mustEnd: bool): Result
    requires ValidCore(c) && |c.hist| <= limit && pieces != []
    decreases |pieces|
  {
    var r := Decode(c, input + pieces[0], limit, mustEnd);
    if r.DataError? || |pieces| == 1 then r else Calls(r.c, r.rest, pieces[1..], limit, mustEnd)
  }

  function Joined(pieces: seq<seq<byte>>): seq<byte> {
    if pieces == [] then [] else pieces[0] + Joined(pieces[1..])
  }

  lemma WriteRemDone(c: Core, limit: nat)
    requires Between(c, limit)
    ensures WriteRem(c, limit) == c
  {
  }

  /** Cutting the input into pieces, however many and wherever, changes nothing: the same output, probabilities,
      distances, range and code, the same bytes left unread, the same verdict. */
  lemma {:induction false} InputCut(c: Core, input: seq<byte>, pieces: seq<seq<byte>>, limit: nat, mustEnd: bool)
    requires ValidCore(c) && |c.hist| <= limit && pieces != []
    ensures Calls(c, input, pieces, limit, mustEnd) == Decode(c, input + Joined(pieces), limit, mustEnd)
    decreases |pieces|
  {
    hide Loop, NumProbs, WriteRem;
    var r := Decode(c, input + pieces[0], limit, mustEnd);
    var tail := Joined(pieces[1..]);
    assert input + Joined(pieces) == input + pieces[0] + tail;
    if |pieces| == 1 {
      assert tail == [];
      assert input + Joined(pieces) == input + pieces[0];
    } else {
      WriteRemBetween(c, limit);
      LoopFed(WriteRem(c, limit), input + pieces[0], tail, limit, mustEnd);
      if r.Stop? {
        WriteRemDone(r.c, limit);
        InputCut(r.c, r.rest, pieces[1..], limit, mustEnd);
      }
    }
  }

  // ----- Cutting the output ---------------------------------------------------------------------------------

  lemma {:induction false} CopySum(hist: seq<byte>, dist: nat, m: nat, n: nat)
    requires 1 <= dist <= |hist|
    ensures Copy(Copy(hist, dist, m), dist, n) == Copy(hist, dist, m + n)
    decreases m
  {
    if m > 0 {
      CopySum(hist + [hist[|hist| - dist]], dist, m - 1, n);
    }
  }

  lemma WriteRemCut(c: Core, l2: nat, l: nat)
    requires ValidCore(c) && |c.hist| <= l2 <= l
    ensures WriteRem(WriteRem(c, l2), l) == WriteRem(c, l)
  {
    hide Copy, NumProbs;
    if 0 < c.remain < FINISHED {
      var m := Min(c.remain, l2 - |c.hist|);
      CopySum(c.hist, c.rep0, m, Min(c.remain - m, l - |c.hist| - m));
    }
  }

  lemma ExtendCut(c: Core, len: nat, l2: nat, l: nat)
    requires 1 <= c.rep0 <= |c.hist| < l2 <= l && len < FINISHED
    ensures WriteRem(Extend(c, len, l2), l) == Extend(c, len, l)
  {
    hide Copy;
    var m := Min(len, l2 - |c.hist|);
    CopySum(c.hist, c.rep0, m, Min(len - m, l - |c.hist| - m));
  }

  ghost predicate Pauses(c: Core, s: Symbol, l2: nat, l: nat)
    requires ValidCore(c) && !c.needInit && ValidSymbol(s) && |c.hist| <= l2 <= l
  {
    var a, b := Apply(c, s, l2), Apply(c, s, l);
    && (b.Bad? <==> a.Bad?)
    && (a.Good? ==> |a.c.hist| <= l2 && ValidCore(a.c) && b.c == WriteRem(a.c, l))
  }

  lemma RepCut(c: Core, s: Symbol, l2: nat, l: nat)
    requires ValidCore(c) && !c.needInit && !c.needFlush && c.remain == 0 && ValidSymbol(s) && |c.hist| < l2 <= l
    requires s.Rep?
    ensures Pauses(c, s, l2, l)
  {
    if c.hist != [] {
      hide Copy;
      RepValid(c, s, l2);
      ExtendCut(Repeated(c, s.which).(state := StateAfterRep(c.state)), s.len + MATCH_MIN_LEN, l2, l);
    }
  }

  lemma MatchCut(c: Core, s: Symbol, l2: nat, l: nat)
    requires ValidCore(c) && !c.needInit && !c.needFlush && c.remain == 0 && ValidSymbol(s) && |c.hist| < l2 <= l
    requires s.Match?
    ensures Pauses(c, s, l2, l)
  {
    if s.dist < Reach(c.hist, c.props.dicSize) {
      hide Copy;
      MatchValid(c, s, l2);
      var d := c.(rep0 := s.dist + 1, rep1 := c.rep0, rep2 := c.rep1, rep3 := c.rep2, state := StateAfterMatch(c.state));
      ExtendCut(d, s.len + MATCH_MIN_LEN, l2, l);
    }
  }

  lemma ApplyCut(c: Core, s: Symbol, l2: nat, l: nat)
    requires ValidCore(c) && !c.needInit && !c.needFlush && c.remain == 0 && ValidSymbol(s) && |c.hist| < l2 <= l
    ensures Pauses(c, s, l2, l)
  {
    if s.Rep? {
      RepCut(c, s, l2, l);
    } else if s.Match? {
      MatchCut(c, s, l2, l);
    } else if Apply(c, s, l2).Good? {
      ApplyValid(c, s, l2);
    }
  }

  lemma StepCut(c: Core, input: seq<byte>, l2: nat, l: nat)
    requires ValidCore(c) && !c.needInit && !c.needFlush && c.remain == 0 && |c.hist| < l2 <= l
    ensures var s := Step(c, input, l2);
            Step(c, input, l) == if s.Went? then Went(WriteRem(s.c, l), s.rest) else s
  {
    hide Run, Apply, EnvOf, WriteRem;
    EnvValid(c);
    var r := RunOf(c, input);
    if r.Out? {
      ApplyCut(Advanced(c, r), r.symbol, l2, l);
    }
  }

  /** A stop at an earlier limit is only a pause on the way to a later one. */
  ghost function Continued(r: Result, limit: nat, mustEnd: bool): Result
    requires r.Stop? ==> ValidCore(r.c) && |r.c.hist| <= limit
  {
    if r.DataError? then DataError else Decode(r.c, r.rest, limit, mustEnd)
  }

  lemma LoopFlushed(c: Core, input: seq<byte>, limit: nat, mustEnd: bool)
    requires Between(c, limit) && c.remain != FINISHED && c.needFlush && |input| >= RC_INIT_SIZE && input[0] == 0
    ensures Between(Flushed(c, input), limit)
    ensures Loop(c, input, limit, mustEnd) == Loop(Flushed(c, input), FlushRest(c, input), limit, mustEnd)
  {
    hide Step, ValidState, NumProbs;
    Ready(c, input, limit);
  }

  lemma LoopInitialized(c: Core, input: seq<byte>, limit: nat, mustEnd: bool)
    requires Between(c, limit) && c.remain != FINISHED && !c.needFlush
    requires |c.hist| < limit || (mustEnd && c.remain == 0 && c.code != 0)
    ensures Between(Initialized(c), limit)
    ensures Loop(c, input, limit, mustEnd) == Loop(Initialized(c), input, limit, mustEnd)
  {
    hide Step, ValidState, NumProbs;
    Ready(c, input, limit);
  }

  lemma {:induction false} LoopCut(c: Core, input: seq<byte>, l2: nat, l: nat, mustEnd: bool)
    requires Between(c, l2) && l2 <= l
    ensures Between(WriteRem(c, l), l)
    ensures Loop(WriteRem(c, l), input, l, mustEnd) == Continued(Loop(c, input, l2, false), l, mustEnd)
    decreases Measure(c, l2)
  {
    hide Step, ValidState, NumProbs;
    WriteRemBetween(c, l);
    if c.remain == FINISHED || (c.needFlush && |input| < RC_INIT_SIZE) || (c.needFlush && input[0] != 0) {
    } else {
      Ready(c, input, l2);
      var d, rest := Flushed(c, input), FlushRest(c, input);
      if c.needFlush {
        LoopFlushed(c, input, l, mustEnd);
      }
      if |d.hist| == l2 {
      } else {
        LoopInitialized(d, rest, l, mustEnd);
        var s := Step(Initialized(d), rest, l2);
        StepCut(Initialized(d), rest, l2, l);
        if s.Went? {
          LoopCut(s.c, s.rest, l2, l, mustEnd);
        }
      }
    }
  }

  /** Asking for the output in portions changes nothing: a call up to an earlier limit followed by one up to a
      later limit is one call up to the later limit. */
  lemma OutputCut(c: Core, input: seq<byte>, l2: nat, l: nat, mustEnd: bool)
    requires ValidCore(c) && |c.hist| <= l2 <= l
    ensures Decode(c, input, l, mustEnd) == Continued(Decode(c, input, l2, false), l, mustEnd)
  {
    hide Loop, WriteRem, NumProbs;
    WriteRemBetween(c, l2);
    WriteRemCut(c, l2, l);
    LoopCut(WriteRem(c, l2), input, l2, l, mustEnd);
  }

  // ----- What the code may do in portions -------------------------------------------------------------

  /** Only the words of the range decoder are different. */
  function Ranged(c: Core, rc: Rc): Core {
    c.(range := rc.range, code := rc.code)
  }

  lemma ApplyRanged(c: Core, s: Symbol, limit: nat, rc: Rc)
    requires ValidCore(c) && !c.needInit && ValidSymbol(s) && |c.hist| <= limit && rc.range >= TOP
    ensures ValidCore(Ranged(c, rc))
    ensures var a, b := Apply(c, s, limit), Apply(Ranged(c, rc), s, limit);
            b == if a.Bad? then Bad else Good(Ranged(a.c, rc))
  {
    hide Copy, Repeated;
    match s
    case Rep(which, len) => RepeatedRanged(c, which, rc);
    case _ =>
  }

  lemma RepeatedRanged(c: Core, which: nat, rc: Rc)
    ensures Repeated(Ranged(c, rc), which) == Ranged(Repeated(c, which), rc)
    ensures Repeated(c, which).hist == c.hist
  {
  }

  /** One symbol, up to an earlier limit, is a step of the call. At the limit of the call itself only a match or
      the end mark may come, and only when the stream must end there. */
  lemma StepDecode(c: Core, input: seq<byte>, l2: nat, l: nat, mustEnd: bool)
    requires ValidCore(c) && !c.needInit && !c.needFlush && c.remain == 0 && |c.hist| <= l2 <= l
    requires RunOf(c, input).Out?
    requires |c.hist| < l2 ||
             (l2 == l && mustEnd && c.code != 0 && (RunOf(c, input).symbol.Match? || RunOf(c, input).symbol.EndMark?))
    ensures var r := RunOf(c, input);
            var a := Apply(Advanced(c, r), r.symbol, l2);
            && (a.Bad? ==> Decode(c, input, l, mustEnd) == DataError)
            && (a.Good? ==> ValidCore(a.c) && |a.c.hist| <= l
                            && Decode(c, input, l, mustEnd) == Decode(a.c, r.rc.input, l, mustEnd))
  {
    hide Run, Apply, EnvOf, ValidState, NumProbs;
    var s := Step(c, input, l2);
    if |c.hist| < l2 {
      StepCut(c, input, l2, l);
    }
    LoopStep(c, input, l, mustEnd);
    if s.Went? {
      WriteRemBetween(s.c, l);
    }
  }

  lemma LoopStep(c: Core, input: seq<byte>, l: nat, mustEnd: bool)
    requires ValidCore(c) && !c.needInit && !c.needFlush && c.remain == 0 && |c.hist| <= l
    requires |c.hist| == l ==> mustEnd && c.code != 0
    requires !Step(c, input, l).NoInput?
    ensures var s := Step(c, input, l);
            Decode(c, input, l, mustEnd) == if s.Went? then Loop(s.c, s.rest, l, mustEnd) else DataError
  {
    hide Step, ValidState, NumProbs;
  }

  lemma DecodeFed(c: Core, input: seq<byte>, more: seq<byte>, limit: nat, mustEnd: bool)
    requires ValidCore(c) && |c.hist| <= limit
    ensures Decode(c, input + more, limit, mustEnd) == Resumed(Decode(c, input, limit, mustEnd), more, limit, mustEnd)
  {
    hide Loop, NumProbs, WriteRem;
    WriteRemBetween(c, limit);
    LoopFed(WriteRem(c, limit), input, more, limit, mustEnd);
  }

  /** The bytes still to be written may be written beforehand. */
  lemma DecodeRem(c: Core, input: seq<byte>, limit: nat, mustEnd: bool)
    requires ValidCore(c) && |c.hist| <= limit
    ensures Between(WriteRem(c, limit), limit)
    ensures Decode(WriteRem(c, limit), input, limit, mustEnd) == Decode(c, input, limit, mustEnd)
  {
    hide Loop, NumProbs;
    WriteRemBetween(c, limit);
    WriteRemDone(WriteRem(c, limit), limit);
  }

  lemma DecodeLoop(c: Core, input: seq<byte>, limit: nat, mustEnd: bool)
    requires Between(c, limit)
    ensures Decode(c, input, limit, mustEnd) == Loop(c, input, limit, mustEnd)
  {
    hide Loop, NumProbs;
    WriteRemDone(c, limit);
  }

  /** One call of LzmaDec_DecodeToBuf: new input, and how much output is asked for. */
  datatype Ask = Ask(piece: seq<byte>, size: nat)

  function Offered(asks: seq<Ask>): seq<byte> {
    if asks == [] then [] else asks[0].piece + Offered(asks[1..])
  }

  ghost function Asked(c: Core, input: seq<byte>, asks: seq<Ask>, mustEnd: bool): Result
    requires ValidCore(c) && asks != []
  {
    Decode(c, input + asks[0].piece, |c.hist| + asks[0].size, mustEnd && |asks| == 1)
  }

  /** A series of such calls; only the last may have to end at its limit. */
  ghost function Series(c: Core, input: seq<byte>, asks: seq<Ask>, mustEnd: bool): Result
    requires ValidCore(c) && asks != []
    decreases |asks|
  {
    var r := Asked(c, input, asks, mustEnd);
    if r.DataError? || |asks| == 1 then r else Series(r.c, r.rest, asks[1..], mustEnd)
  }

  /** The last call asks for output up to l, and none before it for more. */
  ghost predicate UpTo(c: Core, input: seq<byte>, asks: seq<Ask>, mustEnd: bool, l: nat)
    requires ValidCore(c) && asks != []
    decreases |asks|
  {
    if |asks| == 1 then |c.hist| + asks[0].size == l
    else
      var r := Asked(c, input, asks, mustEnd);
      |c.hist| + asks[0].size <= l && (r.Stop? ==> UpTo(r.c, r.rest, asks[1..], mustEnd, l))
  }

  /** Cutting input and output at once, in any way, changes nothing. */
  lemma {:induction false} AnyCut(c: Core, input: seq<byte>, asks: seq<Ask>, mustEnd: bool, l: nat)
    requires ValidCore(c) && asks != [] && UpTo(c, input, asks, mustEnd, l)
    ensures |c.hist| <= l && Series(c, input, asks, mustEnd) == Decode(c, input + Offered(asks), l, mustEnd)
    decreases |asks|
  {
    hide Decode, ValidCore;
    var r, tail := Asked(c, input, asks, mustEnd), Offered(asks[1..]);
    assert input + Offered(asks) == input + asks[0].piece + tail;
    if |asks| == 1 {
      assert tail == [] && input + Offered(asks) == input + asks[0].piece;
    } else {
      PauseFed(c, input + asks[0].piece, tail, |c.hist| + asks[0].size, l, mustEnd);
      if r.Stop? {
        AnyCut(r.c, r.rest, asks[1..], mustEnd, l);
      }
    }
  }

  /** A pause at an earlier limit, whatever input there is by then. */
  lemma PauseFed(c: Core, input: seq<byte>, more: seq<byte>, l2: nat, l: nat, mustEnd: bool)
    requires ValidCore(c) && |c.hist| <= l2 <= l
    ensures var r := Decode(c, input, l2, false);
            Decode(c, input + more, l, mustEnd) == if r.Stop? then Decode(r.c, r.rest + more, l, mustEnd) else DataError
  {
    hide Loop, NumProbs, WriteRem, ValidState;
    var r := Decode(c, input, l2, false);
    OutputCut(c, input + more, l2, l, mustEnd);
    DecodeFed(c, input, more, l2, false);
    if r.Stop? {
      DecodeLoop(r.c, r.rest + more, l2, false);
      OutputCut(r.c, r.rest + more, l2, l, mustEnd);
    }
  }

  lemma LoopAtLimit(c: Core, input: seq<byte>, mustEnd: bool)
    requires Between(c, |c.hist|) && c.remain != FINISHED && !c.needFlush
    ensures var r := Loop(c, input, |c.hist|, mustEnd);
            && (c.remain == 0 && c.code == 0 ==> r == Stop(c, input, MaybeFinished))
            && (!(c.remain == 0 && c.code == 0) && !mustEnd ==> r == Stop(c, input, NotFinished))
            && (c.remain != 0 && mustEnd ==> r == DataError)
  {
    hide Step, ValidState, NumProbs;
    Ready(c, input, |c.hist|);
  }

  /** Where the call goes on to a symbol. */
  ghost predicate AtSymbol(c: Core, limit: nat, mustEnd: bool) {
    && ValidCore(c) && !c.needInit && !c.needFlush && c.remain == 0 && |c.hist| <= limit
    && (|c.hist| == limit ==> mustEnd && c.code != 0)
  }

  lemma LoopShort(c: Core, input: seq<byte>, limit: nat, mustEnd: bool)
    requires AtSymbol(c, limit, mustEnd) && RunOf(c, input).Short?
    ensures Loop(c, input, limit, mustEnd) == Stop(c, input, NeedsMoreInput)
  {
    hide RunOf, ValidState, NumProbs;
  }

  lemma LoopWrongKind(c: Core, input: seq<byte>, limit: nat, mustEnd: bool)
    requires AtSymbol(c, limit, mustEnd) && |c.hist| == limit && RunOf(c, input).Out?
    requires !RunOf(c, input).symbol.Match? && !RunOf(c, input).symbol.EndMark?
    ensures Loop(c, input, limit, mustEnd) == DataError
  {
    hide Run, ValidState, NumProbs, Apply;
  }

  // ----- Why a call stops --------------------------------------------------------------------------------

  /** A call that stops short of its limit is out of input or has seen the end mark. */
  ghost predicate StopsShort(r: Result)
    requires r.Stop? && ValidCore(r.c)
  {
    if r.c.remain == FINISHED then r.c.code == 0 && r.status == FinishedWithMark
    else
      && r.status == NeedsMoreInput && r.c.remain == 0
      && (if r.c.needFlush then |r.rest| < RC_INIT_SIZE else !r.c.needInit && RunOf(r.c, r.rest).Short?)
  }

  lemma {:induction false} StopReason(c: Core, input: seq<byte>, limit: nat, mustEnd: bool)
    requires Between(c, limit) && Loop(c, input, limit, mustEnd).Stop?
    requires |Loop(c, input, limit, mustEnd).c.hist| < limit
    ensures StopsShort(Loop(c, input, limit, mustEnd))
    decreases Measure(c, limit)
  {
    hide RunOf, Apply, ValidState, NumProbs;
    if c.remain == FINISHED || (c.needFlush && |input| < RC_INIT_SIZE) {
    } else {
      Ready(c, input, limit);
      var d, rest := Flushed(c, input), FlushRest(c, input);
      if |d.hist| < limit || (mustEnd && d.remain == 0 && d.code != 0) {
        var s := Step(Initialized(d), rest, limit);
        if s.Went? {
          StopReason(s.c, s.rest, limit, mustEnd);
        }
      }
    }
  }

  /** Such a stop does not depend on the limit. */
  lemma StopsAnyway(r: Result, limit: nat, mustEnd: bool)
    requires r.Stop? && ValidCore(r.c) && StopsShort(r) && |r.c.hist| < limit
    ensures Decode(r.c, r.rest, limit, mustEnd) == r
  {
    hide RunOf, ValidState, NumProbs;
    if r.c.remain != FINISHED && !r.c.needFlush {
      LoopShort(r.c, r.rest, limit, mustEnd);
    }
  }

  /** A call that is repeated without new input stops again at once. */
  lemma DecodeAgain(c: Core, input: seq<byte>, limit: nat, mustEnd: bool)
    requires ValidCore(c) && |c.hist| <= limit && Decode(c, input, limit, mustEnd).Stop?
    ensures var r := Decode(c, input, limit, mustEnd);
            Decode(r.c, r.rest, limit, mustEnd) == r
  {
    hide Loop, NumProbs;
    var r := Decode(c, input, limit, mustEnd);
    DecodeFed(c, input, [], limit, mustEnd);
    assert input + [] == input && r.rest + [] == r.rest;
    WriteRemDone(r.c, limit);
  }

  // ----- What is output -----------------------------------------------------------------------------------

  /** A copy is what LZ77 means by it: everything before stays, and each new byte equals the one `dist` before
      it, new ones included. */
  lemma {:induction false} CopyMeaning(hist: seq<byte>, dist: nat, n: nat)
    requires 1 <= dist <= |hist|
    ensures hist <= Copy(hist, dist, n)
    ensures forall i | |hist| <= i < |hist| + n :: Copy(hist, dist, n)[i] == Copy(hist, dist, n)[i - dist]
    decreases n
  {
    if n > 0 {
      var h := hist + [hist[|hist| - dist]];
      CopyMeaning(h, dist, n - 1);
      assert hist <= h;
    }
  }

  lemma ApplyKeeps(c: Core, s: Symbol, limit: nat)
    requires ValidCore(c) && !c.needInit && ValidSymbol(s) && |c.hist| <= limit && Apply(c, s, limit).Good?
    ensures c.hist <= Apply(c, s, limit).c.hist
  {
    hide Copy, NumProbs;
    match s
    case ShortRep => CopyMeaning(c.hist, c.rep0, 1);
    case Rep(which, len) => ExtendKeeps(Repeated(c, which).(state := StateAfterRep(c.state)), len + MATCH_MIN_LEN, limit);
    case Match(dist, len) => CopyMeaning(c.hist, dist + 1, Min(len + MATCH_MIN_LEN, limit - |c.hist|));
    case _ =>
  }

  lemma ExtendKeeps(c: Core, len: nat, limit: nat)
    requires 1 <= c.rep0 <= |c.hist| <= limit
    ensures c.hist <= Extend(c, len, limit).hist
  {
    CopyMeaning(c.hist, c.rep0, Min(len, limit - |c.hist|));
  }

  lemma StepKeeps(c: Core, input: seq<byte>, limit: nat)
    requires ValidCore(c) && !c.needInit && !c.needFlush && c.remain == 0 && |c.hist| <= limit
    requires Step(c, input, limit).Went?
    ensures c.hist <= Step(c, input, limit).c.hist
  {
    hide Run, EnvOf, NumProbs, Apply;
    var r := RunOf(c, input);
    ApplyKeeps(Advanced(c, r), r.symbol, limit);
  }

  lemma {:induction false} LoopKeeps(c: Core, input: seq<byte>, limit: nat, mustEnd: bool)
    requires Between(c, limit) && Loop(c, input, limit, mustEnd).Stop?
    ensures c.hist <= Loop(c, input, limit, mustEnd).c.hist
    decreases Measure(c, limit)
  {
    hide Step, ValidState, NumProbs;
    if c.remain == FINISHED || (c.needFlush && |input| < RC_INIT_SIZE) || (c.needFlush && input[0] != 0) {
    } else {
      Ready(c, input, limit);
      var d, rest := Flushed(c, input), FlushRest(c, input);
      if |d.hist| < limit || (mustEnd && d.remain == 0 && d.code != 0) {
        var s := Step(Initialized(d), rest, limit);
        if s.Went? {
          StepKeeps(Initialized(d), rest, limit);
          LoopKeeps(s.c, s.rest, limit, mustEnd);
        }
      }
    }
  }

  /** A call only appends to the output. */
  lemma DecodeKeeps(c: Core, input: seq<byte>, limit: nat, mustEnd: bool)
    requires ValidCore(c) && |c.hist| <= limit && Decode(c, input, limit, mustEnd).Stop?
    ensures c.hist <= Decode(c, input, limit, mustEnd).c.hist
  {
    hide Loop, NumProbs;
    WriteRemBetween(c, limit);
    LoopKeeps(WriteRem(c, limit), input, limit, mustEnd);
    if 0 < c.remain < FINISHED {
      CopyMeaning(c.hist, c.rep0, Min(c.remain, limit - |c.hist|));
    }
  }
}
