/**
  Every sequence of LZMA symbols that makes sense can be decoded. The bytes for it are found from the end: a range decoder
  goes through the same ranges whatever its code, and each step back only says which code and which bytes lead to those
  that are known to come after it.
*/
module LzmaEncode {
  import opened Words
  import opened RangeCoder
  import opened LzmaSymbol
  import opened LzmaRun
  import opened LzmaCode
  import opened LzmaStream
  import opened LzmaMeaning

  // ----- One bit ---------------------------------------------------------------------------------------------

  /** A range decoder at a control point, but for its code and its input. */
  datatype Track = Track(c: Ctl, range: word, probs: seq<prob>)

  ghost predicate OnTrack(env: Env, t: Track) {
    ValidCtl(t.c) && ValidEnv(env, |t.probs|) && t.range >= 0x1_0000
  }

  /** Where in the interval the part for 1 begins. */
  ghost function Share(env: Env, t: Track): (r: word)
    requires OnTrack(env, t) && !t.c.End?
    ensures 0 < r < Widened(t.range)
  {
    if t.c.Direct? then Widened(t.range) / 2
    else
      SlotInRange(env, t.c, |t.probs|);
      Bound(Widened(t.range), t.probs[Slot(env, t.c)])
  }

  ghost function Onto(env: Env, t: Track, bit: bool): (r: Track)
    requires OnTrack(env, t) && !t.c.End?
    ensures OnTrack(env, r) && r.c == Next(env, t.c, bit) && |r.probs| == |t.probs|
    ensures r.range + (if bit then Share(env, t) else 0) <= Widened(t.range)
  {
    var n := Widened(t.range);
    NextValid(env, t.c, bit);
    if t.c.Direct? then Track(Next(env, t.c, bit), n / 2, t.probs)
    else
      SlotInRange(env, t.c, |t.probs|);
      var s := Slot(env, t.c);
      BoundInside(n, t.probs[s]);
      var b := Bound(n, t.probs[s]);
      Track(Next(env, t.c, bit), if bit then n - b else b, t.probs[s := Adapted(t.probs[s], bit)])
  }

  /** What becomes of code and input before a bit. */
  ghost function Back(env: Env, t: Track, bit: bool, later: Source): (r: Source)
    requires OnTrack(env, t) && !t.c.End? && later.code < Onto(env, t, bit).range
    ensures r.code < t.range
  {
    Narrowed(t.range, Source(later.code + if bit then Share(env, t) else 0, later.input))
  }

  lemma BackMoves(env: Env, t: Track, bit: bool, later: Source)
    requires OnTrack(env, t) && !t.c.End? && later.code < Onto(env, t, bit).range
    ensures var b, u := Back(env, t, bit, later), Onto(env, t, bit); var rc := Rc(t.range, b.code, b.input);
            !Starved(rc) && Move(env, t.c, rc, t.probs) == Point(u.c, Rc(u.range, later.code, later.input), u.probs)
  {
    hide Next, Slot, Bound, Adapted, ValidCtl, ValidEnv, Narrowed, Normalized, Starved, Widened;
    var code := later.code + if bit then Share(env, t) else 0;
    NarrowedBack(t.range, Source(code, later.input));
    if t.c.Direct? {
      DirectBitCuts(Rc(Widened(t.range), code, later.input));
    }
  }

  // ----- The bits of a symbol --------------------------------------------------------------------------------

  ghost function Along(env: Env, t: Track, bits: seq<bool>): (r: Track)
    requires OnTrack(env, t) && Walk(env, t.c, bits).Some?
    ensures OnTrack(env, r) && r.c == Walk(env, t.c, bits).value && |r.probs| == |t.probs|
    decreases |bits|
  {
    if bits == [] then t else Along(env, Onto(env, t, bits[0]), bits[1..])
  }

  ghost function BackAlong(env: Env, t: Track, bits: seq<bool>, later: Source): (r: Source)
    requires OnTrack(env, t) && Walk(env, t.c, bits).Some? && later.code < Along(env, t, bits).range
    ensures r.code < t.range
    decreases |bits|
  {
    if bits == [] then later
    else Back(env, t, bits[0], BackAlong(env, Onto(env, t, bits[0]), bits[1..], later))
  }

  lemma {:induction false} RunsAlong(env: Env, t: Track, bits: seq<bool>, later: Source)
    requires OnTrack(env, t) && Walk(env, t.c, bits).Some? && Walk(env, t.c, bits).value.End?
    requires later.code < Widened(Along(env, t, bits).range)
    ensures var u := Along(env, t, bits);
            var b := BackAlong(env, t, bits, Narrowed(u.range, later));
            Run(env, t.c, Rc(t.range, b.code, b.input), t.probs) ==
            Out(u.c.symbol, Rc(Widened(u.range), later.code, later.input), u.probs)
    decreases |bits|
  {
    hide Back, Onto, Narrowed, Normalized, Move, Widened;
    var u := Along(env, t, bits);
    var last := Narrowed(u.range, later);
    if bits == [] {
      NarrowedBack(t.range, later);
    } else {
      var t' := Onto(env, t, bits[0]);
      RunsAlong(env, t', bits[1..], later);
      BackMoves(env, t, bits[0], BackAlong(env, t', bits[1..], last));
    }
  }

  // ----- One symbol ------------------------------------------------------------------------------------------

  /** A decoder before a symbol. */
  ghost predicate AtStart(c: Core) {
    ValidCore(c) && !c.needInit && !c.needFlush && c.remain == 0
  }

  ghost function TrackOf(c: Core): (t: Track)
    requires AtStart(c)
    ensures OnTrack(EnvOf(c), t) && t.c == IsMatch && |t.probs| == |c.probs| && t.range == c.range
  {
    hide NumProbs, ValidState, LitContext;
    EnvValid(c);
    Track(IsMatch, c.range, c.probs)
  }

  ghost function AfterCode(c: Core, s: Symbol): (t: Track)
    requires AtStart(c) && ValidSymbol(s)
    ensures OnTrack(EnvOf(c), t) && t.c == End(s) && |t.probs| == |c.probs|
  {
    hide Code, Walk, Along, OnTrack, AtStart, EnvOf;
    CodeReaches(EnvOf(c), s);
    Along(EnvOf(c), TrackOf(c), Code(s))
  }

  lemma StartKept(c: Core, range: word, code: word, probs: seq<prob>)
    requires AtStart(c) && range >= TOP && |probs| == |c.probs|
    ensures var d := c.(range := range, code := code, probs := probs);
            AtStart(d) && EnvOf(d) == EnvOf(c)
  {
    hide NumProbs, LitContext, ValidRep;
  }

  /** Range and probabilities after the bits of a symbol. */
  ghost function Coded(c: Core, s: Symbol): (d: Core)
    requires AtStart(c) && ValidSymbol(s)
    ensures AtStart(d) && d.range >= TOP && d == c.(range := d.range, probs := d.probs)
  {
    hide Code, Walk, AfterCode, AtStart;
    var t := AfterCode(c, s);
    StartKept(c, Widened(t.range), c.code, t.probs);
    c.(range := Widened(t.range), probs := t.probs)
  }

  /** What becomes of code and input before a symbol. */
  ghost function BackSymbol(c: Core, s: Symbol, later: Source): (r: Source)
    requires AtStart(c) && ValidSymbol(s) && later.code < Coded(c, s).range
    ensures r.code < c.range
  {
    hide Code, Walk, Along, BackAlong, Narrowed, AtStart, EnvOf, OnTrack;
    CodeReaches(EnvOf(c), s);
    var t := AfterCode(c, s);
    BackAlong(EnvOf(c), TrackOf(c), Code(s), Narrowed(t.range, later))
  }

  function With(c: Core, code: word): Core {
    c.(code := code)
  }

  lemma RunsSymbol(c: Core, s: Symbol, later: Source)
    requires AtStart(c) && ValidSymbol(s) && later.code < Coded(c, s).range
    ensures var b, d := BackSymbol(c, s, later), Coded(c, s);
            RunOf(With(c, b.code), b.input) == Out(s, Rc(d.range, later.code, later.input), d.probs)
  {
    hide Code, Walk, Run, BackAlong, Along, Narrowed, OnTrack, NumProbs, LitContext;
    CodeReaches(EnvOf(c), s);
    RunsAlong(EnvOf(c), TrackOf(c), Code(s), later);
    StartKept(c, c.range, BackSymbol(c, s, later).code, c.probs);
  }

  lemma StepsSymbol(c: Core, s: Symbol, later: Source, limit: nat)
    requires AtStart(c) && ValidSymbol(s) && later.code < Coded(c, s).range
    requires |c.hist| < limit || (|c.hist| == limit && s.EndMark?)
    requires Apply(Coded(c, s), s, limit).Good?
    ensures var b := BackSymbol(c, s, later);
            Step(With(c, b.code), b.input, limit) == Went(With(Apply(Coded(c, s), s, limit).c, later.code), later.input)
  {
    hide RunOf, Coded, BackSymbol, NumProbs, ValidState, Apply, Copy;
    var b, d := BackSymbol(c, s, later), Coded(c, s);
    StartKept(c, c.range, b.code, c.probs);
    RunsSymbol(c, s, later);
    ApplyRanged(d, s, limit, Rc(d.range, later.code, later.input));
    ApplyRanged(d, s, limit, Rc(d.range, d.code, []));
    assert Ranged(d, Rc(d.range, d.code, [])) == d;
    assert Ranged(d, Rc(d.range, later.code, later.input)) == With(d, later.code);
    assert Advanced(With(c, b.code), RunOf(With(c, b.code), b.input)) == With(d, later.code);
  }

  // ----- What symbols stand for ------------------------------------------------------------------------------

  /** The output so far, and the four distances used last. */
  datatype Text = Text(hist: seq<byte>, reps: seq<word>)

  function TextOf(c: Core): Text {
    Text(c.hist, Reps(c))
  }

  /** A symbol other than the end mark whose distance leads to a byte that there is, no more than dicSize before. */
  predicate Reachable(t: Text, s: Symbol, dicSize: word) {
    && |t.reps| == 4 && ValidSymbol(s) && !s.EndMark?
    && DistanceOf(t.reps, s) <= |t.hist| && DistanceOf(t.reps, s) <= dicSize
    && (s.Literal? || DistanceOf(t.reps, s) >= 1)
  }

  function Written(t: Text, s: Symbol, dicSize: word): (r: Text)
    requires Reachable(t, s, dicSize)
    ensures |r.reps| == 4 && |t.hist| < |r.hist|
  {
    match s
    case Literal(b) => Text(t.hist + [b], t.reps)
    case ShortRep => Text(Copy(t.hist, t.reps[0], 1), t.reps)
    case Rep(which, len) => Text(Copy(t.hist, t.reps[which], len + 2), [t.reps[which]] + t.reps[..which] + t.reps[which + 1..])
    case Match(dist, len) => Text(Copy(t.hist, dist + 1, len + 2), [dist + 1] + t.reps[..3])
  }

  predicate Sensible(t: Text, symbols: seq<Symbol>, dicSize: word)
    decreases |symbols|
  {
    symbols != [] ==> Reachable(t, symbols[0], dicSize) && Sensible(Written(t, symbols[0], dicSize), symbols[1..], dicSize)
  }

  function Expanded(t: Text, symbols: seq<Symbol>, dicSize: word): (r: Text)
    requires Sensible(t, symbols, dicSize)
    ensures |t.hist| <= |r.hist| && (symbols != [] ==> |t.hist| < |r.hist|)
    decreases |symbols|
  {
    if symbols == [] then t else Expanded(Written(t, symbols[0], dicSize), symbols[1..], dicSize)
  }

  // ----- Symbols in sequence ---------------------------------------------------------------------------------

  /** A symbol for which there is room is taken, and means the same to the decoder. */
  lemma AppliedAs(c: Core, s: Symbol, limit: nat)
    requires AtStart(c) && Reachable(TextOf(c), s, c.props.dicSize) && |Written(TextOf(c), s, c.props.dicSize).hist| <= limit
    ensures var a := Apply(c, s, limit);
            && a.Good? && AtStart(a.c) && TextOf(a.c) == Written(TextOf(c), s, c.props.dicSize)
            && a.c.props == c.props && a.c.range == c.range
  {
    hide NumProbs, Copy, ValidState;
    TakenExactly(c, s, limit);
    ApplyValid(c, s, limit);
    RepsToFront(c, s, limit);
  }

  /** More room makes no difference. */
  lemma Roomy(c: Core, s: Symbol, l: nat, limit: nat)
    requires AtStart(c) && Reachable(TextOf(c), s, c.props.dicSize) && |Written(TextOf(c), s, c.props.dicSize).hist| == l <= limit
    ensures Apply(c, s, l) == Apply(c, s, limit)
  {
    hide NumProbs, Copy, ValidState;
  }

  ghost function Taken(c: Core, s: Symbol): (d: Core)
    requires AtStart(c) && Reachable(TextOf(c), s, c.props.dicSize)
    ensures AtStart(d) && TextOf(d) == Written(TextOf(c), s, c.props.dicSize) && d.props == c.props
    ensures d.range == Coded(c, s).range
  {
    hide Apply, AtStart, Written, Reachable;
    var limit := |Written(TextOf(c), s, c.props.dicSize).hist|;
    AppliedAs(Coded(c, s), s, limit);
    Apply(Coded(c, s), s, limit).c
  }

  /** Symbols that make sense to c. */
  ghost predicate Suits(c: Core, symbols: seq<Symbol>) {
    AtStart(c) && Sensible(TextOf(c), symbols, c.props.dicSize)
  }

  lemma SuitsOn(c: Core, symbols: seq<Symbol>)
    requires Suits(c, symbols) && symbols != []
    ensures Reachable(TextOf(c), symbols[0], c.props.dicSize) && Suits(Taken(c, symbols[0]), symbols[1..])
  {
    hide AtStart, Written, Reachable, Taken;
  }

  ghost function Output(c: Core, symbols: seq<Symbol>): (out: seq<byte>)
    requires Suits(c, symbols)
    ensures |c.hist| <= |out| && (symbols != [] ==> |c.hist| < |out|)
  {
    hide AtStart, Sensible;
    Expanded(TextOf(c), symbols, c.props.dicSize).hist
  }

  ghost function AllTaken(c: Core, symbols: seq<Symbol>): (d: Core)
    requires Suits(c, symbols)
    ensures AtStart(d) && TextOf(d) == Expanded(TextOf(c), symbols, c.props.dicSize) && d.props == c.props
    decreases |symbols|
  {
    hide AtStart, Written, Reachable, Taken;
    if symbols == [] then c
    else
      SuitsOn(c, symbols);
      AllTaken(Taken(c, symbols[0]), symbols[1..])
  }

  /** What becomes of code and input before symbols. */
  ghost function BackAll(c: Core, symbols: seq<Symbol>, later: Source): (r: Source)
    requires Suits(c, symbols) && later.code < AllTaken(c, symbols).range
    ensures r.code < c.range
    decreases |symbols|
  {
    hide AtStart, Written, Reachable, Taken, TextOf, BackSymbol, Coded;
    if symbols == [] then later
    else
      SuitsOn(c, symbols);
      BackSymbol(c, symbols[0], BackAll(Taken(c, symbols[0]), symbols[1..], later))
  }

  lemma StartBetween(c: Core, code: word, limit: nat)
    requires AtStart(c) && |c.hist| <= limit
    ensures AtStart(With(c, code)) && Between(With(c, code), limit)
  {
    hide NumProbs, LitContext, ValidRep;
  }

  lemma LoopSteps(c: Core, input: seq<byte>, limit: nat, mustEnd: bool)
    requires AtStart(c) && |c.hist| < limit && Step(c, input, limit).Went?
    ensures var s := Step(c, input, limit);
            Between(c, limit) && Between(s.c, limit) && Loop(c, input, limit, mustEnd) == Loop(s.c, s.rest, limit, mustEnd)
  {
    hide Step, ValidState, NumProbs;
  }

  lemma LoopsOne(c: Core, s: Symbol, later: Source, limit: nat, mustEnd: bool)
    requires AtStart(c) && Reachable(TextOf(c), s, c.props.dicSize) && |Written(TextOf(c), s, c.props.dicSize).hist| <= limit
    requires later.code < Coded(c, s).range
    ensures var b, d := BackSymbol(c, s, later), Taken(c, s);
            && Between(With(c, b.code), limit) && Between(With(d, later.code), limit)
            && Loop(With(c, b.code), b.input, limit, mustEnd) == Loop(With(d, later.code), later.input, limit, mustEnd)
  {
    hide Loop, Decode, Step, Written, BackSymbol, Coded, Apply, AtStart, Between;
    var b, d := BackSymbol(c, s, later), Taken(c, s);
    StartBetween(c, b.code, limit);
    StartBetween(d, later.code, limit);
    AppliedAs(Coded(c, s), s, limit);
    Roomy(Coded(c, s), s, |Written(TextOf(c), s, c.props.dicSize).hist|, limit);
    StepsSymbol(c, s, later, limit);
    LoopSteps(With(c, b.code), b.input, limit, mustEnd);
  }

  /** The main loop decodes them one after the other. */
  lemma {:induction false} LoopsAll(c: Core, symbols: seq<Symbol>, limit: nat, later: Source, mustEnd: bool)
    requires Suits(c, symbols) && |Output(c, symbols)| <= limit && later.code < AllTaken(c, symbols).range
    ensures var b, d := BackAll(c, symbols, later), AllTaken(c, symbols);
            && Between(With(c, b.code), limit) && Between(With(d, later.code), limit)
            && Loop(With(c, b.code), b.input, limit, mustEnd) == Loop(With(d, later.code), later.input, limit, mustEnd)
    decreases |symbols|
  {
    hide Loop, AtStart, Written, Reachable, Taken, BackSymbol, Coded, Between;
    if symbols == [] {
      StartBetween(c, later.code, limit);
    } else {
      SuitsOn(c, symbols);
      var e := Taken(c, symbols[0]);
      assert Output(e, symbols[1..]) == Output(c, symbols);
      LoopsAll(e, symbols[1..], limit, later, mustEnd);
      LoopsOne(c, symbols[0], BackAll(e, symbols[1..], later), limit, mustEnd);
    }
  }

  // ----- Streams ---------------------------------------------------------------------------------------------

  /** A decoder that waits for the header of the range decoder. */
  ghost predicate Waiting(c: Core) {
    ValidCore(c) && c.needFlush
  }

  /** The decoder after the header, but for its code. */
  ghost function Opened(c: Core): (d: Core)
    requires Waiting(c)
    ensures AtStart(d) && d.hist == c.hist && d.props == c.props && d.range == TWO32 - 1
  {
    hide NumProbs;
    Initialized(c.(range := TWO32 - 1, needFlush := false))
  }

  lemma BigBytesValue(w: word)
    ensures Big(BigBytes(w)) == w
  {
    hide Big, BigBytes;
    BigOfFour(BigBytes(w));
    BigBytesSum(w);
  }

  function Headed(s: Source): (b: seq<byte>)
    ensures |b| >= RC_INIT_SIZE
  {
    [0] + BigBytes(s.code) + s.input
  }

  lemma LoopsHeader(c: Core, s: Source, limit: nat, mustEnd: bool)
    requires Waiting(c) && s.code < TWO32 - 1 && |c.hist| < limit
    ensures Between(c, limit) && Between(With(Opened(c), s.code), limit)
    ensures Loop(c, Headed(s), limit, mustEnd) == Loop(With(Opened(c), s.code), s.input, limit, mustEnd)
  {
    hide Loop, NumProbs, Big, BigBytes;
    var input := Headed(s);
    assert input[1..5] == BigBytes(s.code) && input[5..] == s.input;
    BigBytesValue(s.code);
    StartsWidest(c, input);
    LoopFlushed(c, input, limit, mustEnd);
    LoopInitialized(Flushed(c, input), s.input, limit, mustEnd);
  }

  /** The stream for symbols, without an end mark. */
  ghost function Encoded(c: Core, symbols: seq<Symbol>): (e: seq<byte>)
    requires Waiting(c) && Suits(Opened(c), symbols)
    ensures |e| >= RC_INIT_SIZE
  {
    hide Waiting, Opened, Suits, AtStart;
    AllRange(Opened(c), symbols);
    Headed(BackAll(Opened(c), symbols, Source(0, [])))
  }

  lemma AllRange(c: Core, symbols: seq<Symbol>)
    requires Suits(c, symbols)
    ensures AllTaken(c, symbols).range > 0
  {
    hide AllTaken, Sensible;
  }

  lemma AllOutput(c: Core, symbols: seq<Symbol>)
    requires Suits(c, symbols)
    ensures AtStart(AllTaken(c, symbols)) && AllTaken(c, symbols).hist == Output(c, symbols)
  {
    hide AllTaken, AtStart, Sensible, Expanded;
  }

  lemma Over(c: Core, mustEnd: bool)
    requires AtStart(c)
    ensures Between(With(c, 0), |c.hist|) && Loop(With(c, 0), [], |c.hist|, mustEnd) == Stop(With(c, 0), [], MaybeFinished)
  {
    hide Loop, ValidState, NumProbs;
    StartBetween(c, 0, |c.hist|);
    LoopAtLimit(With(c, 0), [], mustEnd);
  }

  lemma OnlyHeader(c: Core, mustEnd: bool)
    requires Waiting(c)
    ensures Between(c, |c.hist|)
    ensures var r := Loop(c, Headed(Source(0, [])), |c.hist|, mustEnd);
            r.Stop? && r.c.hist == c.hist && r.rest == [] && r.status == MaybeFinished
  {
    hide Loop, NumProbs, Big, BigBytes;
    var input := Headed(Source(0, []));
    assert input[1..5] == BigBytes(0) && input[5..] == [];
    BigBytesValue(0);
    StartsWidest(c, input);
    LoopFlushed(c, input, |c.hist|, mustEnd);
    LoopAtLimit(Flushed(c, input), [], mustEnd);
  }

  lemma DecodesFromHeader(c: Core, input: seq<byte>, limit: nat, mustEnd: bool)
    requires Waiting(c) && |c.hist| <= limit
    ensures ValidCore(c) && Between(c, limit) && Decode(c, input, limit, mustEnd) == Loop(c, input, limit, mustEnd)
  {
    hide Loop, Decode, NumProbs;
    DecodeLoop(c, input, limit, mustEnd);
  }

  /** The stream for symbols decodes to what they stand for, ends there, and could end. */
  lemma Decodes(c: Core, symbols: seq<Symbol>, mustEnd: bool)
    requires Waiting(c) && Suits(Opened(c), symbols)
    ensures var out := Output(Opened(c), symbols);
            ValidCore(c) && |c.hist| <= |out| &&
            var r := Decode(c, Encoded(c, symbols), |out|, mustEnd);
            r.Stop? && r.c.hist == out && r.rest == [] && r.status == MaybeFinished
  {
    hide Loop, Decode, ValidCore, Waiting, Opened, Suits, AtStart, Between, AllTaken, Headed, Sensible, Output;
    var d, limit := Opened(c), |Output(Opened(c), symbols)|;
    AllRange(d, symbols);
    DecodesFromHeader(c, Encoded(c, symbols), limit, mustEnd);
    AllOutput(d, symbols);
    if symbols == [] {
      OnlyHeader(c, mustEnd);
    } else {
      LoopsHeader(c, BackAll(d, symbols, Source(0, [])), limit, mustEnd);
      LoopsAll(d, symbols, limit, Source(0, []), mustEnd);
      Over(AllTaken(d, symbols), mustEnd);
    }
  }

  /** The stream for symbols and an end mark. */
  ghost function EncodedMarked(c: Core, symbols: seq<Symbol>, len: nat): seq<byte>
    requires Waiting(c) && Suits(Opened(c), symbols) && len <= 271
  {
    hide Waiting, Opened, Suits, Coded, AllTaken, Sensible;
    var d := AllTaken(Opened(c), symbols);
    Headed(BackAll(Opened(c), symbols, BackSymbol(d, EndMark(len), Source(0, []))))
  }

  lemma MarkStops(c: Core, len: nat, limit: nat, mustEnd: bool)
    requires AtStart(c) && len <= 271 && |c.hist| < limit
    ensures var b := BackSymbol(c, EndMark(len), Source(0, []));
            && Between(With(c, b.code), limit)
            && var r := Loop(With(c, b.code), b.input, limit, mustEnd);
               r.Stop? && r.c.hist == c.hist && r.rest == [] && r.status == FinishedWithMark
  {
    hide Step, BackSymbol, Coded, NumProbs, ValidState;
    var b := BackSymbol(c, EndMark(len), Source(0, []));
    StartBetween(c, b.code, limit);
    StepsSymbol(c, EndMark(len), Source(0, []), limit);
    LoopSteps(With(c, b.code), b.input, limit, mustEnd);
  }

  /** With a mark at its end, the stream decodes in a call with room for more, and the mark is seen. */
  lemma DecodesMarked(c: Core, symbols: seq<Symbol>, len: nat, limit: nat, mustEnd: bool)
    requires Waiting(c) && Suits(Opened(c), symbols) && len <= 271 && |Output(Opened(c), symbols)| < limit
    ensures ValidCore(c) && |c.hist| <= limit &&
            var r := Decode(c, EncodedMarked(c, symbols, len), limit, mustEnd);
            r.Stop? && r.c.hist == Output(Opened(c), symbols) && r.rest == [] && r.status == FinishedWithMark
  {
    hide Loop, Decode, ValidCore, Waiting, Opened, Suits, AtStart, Between, AllTaken, Headed, Sensible, Output, BackSymbol, Coded;
    var d := Opened(c);
    AllOutput(d, symbols);
    var e := AllTaken(d, symbols);
    var b := BackSymbol(e, EndMark(len), Source(0, []));
    DecodesFromHeader(c, EncodedMarked(c, symbols, len), limit, mustEnd);
    LoopsHeader(c, BackAll(d, symbols, b), limit, mustEnd);
    LoopsAll(d, symbols, limit, b, mustEnd);
    MarkStops(e, len, limit, mustEnd);
  }

  // ----- Every text ------------------------------------------------------------------------------------------

  function Literals(text: seq<byte>): seq<Symbol> {
    if text == [] then [] else [Literal(text[0])] + Literals(text[1..])
  }

  lemma {:induction false} LiteralsExpand(t: Text, text: seq<byte>, dicSize: word)
    requires |t.reps| == 4
    ensures Sensible(t, Literals(text), dicSize)
    ensures Expanded(t, Literals(text), dicSize) == Text(t.hist + text, t.reps)
    decreases |text|
  {
    if text == [] {
      assert t.hist + text == t.hist;
    } else {
      var l := Literals(text);
      assert l[0] == Literal(text[0]) && l[1..] == Literals(text[1..]);
      LiteralsExpand(Text(t.hist + [text[0]], t.reps), text[1..], dicSize);
      assert t.hist + [text[0]] + text[1..] == t.hist + text;
    }
  }

  lemma LiteralsOutput(c: Core, text: seq<byte>)
    requires AtStart(c)
    ensures Suits(c, Literals(text)) && Output(c, Literals(text)) == c.hist + text
  {
    hide AtStart, Sensible, Expanded;
    LiteralsExpand(TextOf(c), text, c.props.dicSize);
  }

  /** There is a stream for every text. */
  lemma EveryText(c: Core, text: seq<byte>, mustEnd: bool)
    requires Waiting(c)
    ensures ValidCore(c) && Suits(Opened(c), Literals(text)) &&
            var r := Decode(c, Encoded(c, Literals(text)), |c.hist| + |text|, mustEnd);
            r.Stop? && r.c.hist == c.hist + text && r.rest == [] && r.status == MaybeFinished
  {
    hide Decode, Opened, AtStart, Suits, Output, Encoded, ValidCore;
    LiteralsOutput(Opened(c), text);
    Decodes(c, Literals(text), mustEnd);
  }
}
