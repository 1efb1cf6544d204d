/**
  The LZMA decoder of LzmaDec.c: a circular dictionary, probabilities updated in place, and up to 20 bytes of
  input kept from call to call. Each method is shown to do what the decoder on values, LzmaStream, does with
  an unbounded history and plain input.
*/
module LzmaDec {
  import opened Words
  import opened RangeCoder
  import opened LzmaSymbol
  import opened LzmaRun
  import opened LzmaStream
  import opened LzmaWindow
  import opened LzmaBits
  import opened LzmaCheck
  import opened LzmaFacts

  const REQUIRED_INPUT_MAX := 20

  // ----- Properties ----------------------------------------------------------------------------------

  const LZMA_PROPS_SIZE := 5
  const LZMA_DIC_MIN: word := 0x1000

  /** The value of bytes, least significant first. */
  function Little(b: seq<byte>): nat {
    if b == [] then 0 else b[0] as int + 0x100 * Little(b[1..])
  }

  /** LzmaProps_Decode: the first byte packs lc, lp and pb, the next four are the dictionary size, which is raised to its
      minimum. */
  function PropsDecode(data: seq<byte>): (r: Option<Props>)
    ensures r.None? <==> |data| < LZMA_PROPS_SIZE || data[0] >= 9 * 5 * 5
    ensures r.Some? ==> ValidProps(r.value) && data[0] as int == (r.value.pb * 5 + r.value.lp) * 9 + r.value.lc
    ensures r.Some? ==> LZMA_DIC_MIN <= r.value.dicSize && Little(data[1..5]) <= r.value.dicSize
    ensures r.Some? ==> r.value.dicSize == LZMA_DIC_MIN || r.value.dicSize == Little(data[1..5])
  {
    if |data| < LZMA_PROPS_SIZE then None
    else
      LittleFour(data[1..5]);
      var size: word := data[1] as int + 0x100 * data[2] as int + 0x1_0000 * data[3] as int + 0x100_0000 * data[4] as int;
      var dicSize := if size < LZMA_DIC_MIN then LZMA_DIC_MIN else size;
      var d := data[0] as int;
      if d >= 9 * 5 * 5 then None
      else Some(Props(d % 9, d / 9 % 5, d / 9 / 5, dicSize))
  }

  lemma LittleFour(b: seq<byte>)
    requires |b| == 4
    ensures Little(b) == b[0] as int + 0x100 * b[1] as int + 0x1_0000 * b[2] as int + 0x100_0000 * b[3] as int
  {
    var c, d, e := b[1..], b[2..], b[3..];
    assert c[1..] == d && d[1..] == e && e[1..] == [];
    assert Little([]) == 0;
    assert Little(e) == b[3] as int;
    assert Little(d) == b[2] as int + 0x100 * Little(e);
    assert Little(c) == b[1] as int + 0x100 * Little(d);
    assert Little(b) == b[0] as int + 0x100 * Little(c);
  }

  datatype Dummy = DummyError | DummyLit | DummyMatch | DummyRep

  function KindOf(s: Symbol): Dummy {
    if s.Literal? then DummyLit else if s.Rep? || s.ShortRep? then DummyRep else DummyMatch
  }

  class Decoder {
    var props: Props
    const probs: array<prob>
    const dic: array<byte>
    var range: word
    var code: word
    var dicPos: nat
    var processedPos: word
    var checkDicSize: word
    var state: nat
    var rep0: word
    var rep1: word
    var rep2: word
    var rep3: word
    var remainLen: nat
    var needFlush: bool
    var needInitState: bool
    var tempBufSize: nat
    const tempBuf: array<byte>

    /** All output since the last dictionary reset. */
    ghost var hist: seq<byte>

    ghost function Abs(): Core
      reads this, probs
    {
      Core(props, range, code, probs[..], state, rep0, rep1, rep2, rep3, hist, Min(remainLen, FINISHED), needFlush, needInitState)
    }

    /** The dictionary holds the end of the history, and enough of it for every distance within reach. */
    ghost predicate Holding()
      reads this, dic
    {
      && dicPos <= dic.Length && Window(dic[..], dicPos, hist)
      && (props.dicSize <= dic.Length || |hist| <= dicPos)
    }

    /** checkDicSize says whether a whole dictionary has been written. */
    ghost predicate Marked()
      reads this
    {
      checkDicSize == if |hist| >= props.dicSize then props.dicSize else 0
    }

    ghost predicate Storage()
      reads this, dic
    {
      && tempBuf.Length == REQUIRED_INPUT_MAX
      && probs as object != dic && probs as object != tempBuf && dic != tempBuf
      && Holding() && processedPos == |hist| % TWO32
    }

    ghost predicate Sound()
      reads this, probs, dic
    {
      Storage() && ValidCore(Abs())
    }

    ghost predicate Valid()
      reads this, probs, dic
    {
      Sound() && Marked() && remainLen <= FINISHED
    }

    /** LzmaDec_Allocate and LzmaDec_Init. */
    constructor (p: Props, dicBufSize: nat)
      requires ValidProps(p)
      ensures Valid() && Resumable() && fresh(probs) && fresh(dic) && fresh(tempBuf)
      ensures props == p && dic.Length == dicBufSize && probs.Length == NumProbs(p)
      ensures dicPos == 0 && hist == [] && needInitState && needFlush
    {
      props := p;
      probs := new prob[NumProbs(p)];
      dic := new byte[dicBufSize];
      tempBuf := new byte[REQUIRED_INPUT_MAX];
      dicPos := 0;
      new;
      Init();
    }

    // ----- The dictionary ---------------------------------------------------------------------------

    /** The index of the byte at distance rep0. */
    function Source(): nat
      requires dicPos <= dic.Length && rep0 <= dic.Length
      reads this
    {
      dicPos - rep0 + if dicPos < rep0 then dic.Length else 0
    }

    lemma InReach(dist: nat)
      requires Holding() && 1 <= dist <= Reach(hist, props.dicSize)
      ensures dist <= |hist| && dist <= dic.Length
      ensures dic[Back(dic.Length, dicPos, dist)] == hist[|hist| - dist]
    {
      WindowByte(dic[..], dicPos, hist, dist);
    }

    method PutByte(b: byte)
      requires Holding() && dicPos < dic.Length
      modifies dic, `dicPos, `hist
      ensures Holding() && hist == old(hist) + [b] && dicPos == old(dicPos) + 1
    {
      WindowAppend(dic[..], dicPos, hist, b);
      dic[dicPos] := b;
      dicPos := dicPos + 1;
      hist := hist + [b];
      assert dic[..] == old(dic[..])[old(dicPos) := b];
    }

    /** The copy loop for a source that does not reach the end of the dictionary. A copy may overlap itself. */
    method CopyStraight(length: nat, start: nat)
      requires Holding() && 1 <= rep0 <= Reach(hist, props.dicSize)
      requires 1 <= length && dicPos + length <= dic.Length
      requires rep0 <= dic.Length && start == Back(dic.Length, dicPos, rep0) && start + length <= dic.Length
      modifies dic, `dicPos, `hist
      ensures Holding() && hist == Copy(old(hist), rep0, length) && dicPos == old(dicPos) + length
    {
      hide Window;
      var curLen := 0;
      while curLen < length
        invariant Holding() && old(|hist|) <= |hist| && dicPos == old(dicPos) + curLen && curLen <= length
        invariant Copy(hist, rep0, length - curLen) == Copy(old(hist), rep0, length)
      {
        BackStraight(dic.Length, old(dicPos), rep0, curLen);
        InReach(rep0);
        PutByte(dic[start + curLen]);
        curLen := curLen + 1;
      }
    }

    /** The copy loop for a source that goes on at the start of the dictionary. */
    method CopyWrapping(length: nat, start: nat)
      requires Holding() && 1 <= rep0 <= Reach(hist, props.dicSize)
      requires 1 <= length && dicPos + length <= dic.Length
      requires rep0 <= dic.Length && start == Back(dic.Length, dicPos, rep0)
      modifies dic, `dicPos, `hist
      ensures Holding() && hist == Copy(old(hist), rep0, length) && dicPos == old(dicPos) + length
    {
      hide Window;
      var pos, curLen := start, length;
      while curLen != 0
        invariant Holding() && old(|hist|) <= |hist| && dicPos == old(dicPos) + length - curLen && curLen <= length
        invariant curLen != 0 ==> pos == Back(dic.Length, dicPos, rep0)
        invariant Copy(hist, rep0, curLen) == Copy(old(hist), rep0, length)
        decreases curLen
      {
        InReach(rep0);
        PutByte(dic[pos]);
        pos := pos + 1;
        if pos == dic.Length {
          pos := 0;
        }
        curLen := curLen - 1;
      }
    }

    method CopyMatch(curLen: nat)
      requires Holding() && 1 <= rep0 <= Reach(hist, props.dicSize)
      requires 1 <= curLen && dicPos + curLen <= dic.Length
      modifies dic, `dicPos, `hist
      ensures Holding() && hist == Copy(old(hist), rep0, curLen) && dicPos == old(dicPos) + curLen
    {
      InReach(rep0);
      var pos := Source();
      if pos + curLen <= dic.Length {
        CopyStraight(curLen, pos);
      } else {
        CopyWrapping(curLen, pos);
      }
    }

    // ----- One symbol -------------------------------------------------------------------------------

    ghost predicate Decoding()
      reads this, probs, dic
    {
      Sound() && Marked() && !needInitState && !needFlush
    }

    /** The context of the literal to come: the base of its probabilities. */
    method LitProb() returns (prob: nat)
      requires Decoding()
      ensures prob == LITERAL + LIT_SIZE * LitContext(hist, props)
    {
      prob := LITERAL;
      if checkDicSize != 0 || processedPos != 0 {
        assert hist != [];
        MaskedPosition(|hist|, props.lp);
        WindowByte(dic[..], dicPos, hist, 1);
        var prev := dic[(if dicPos == 0 then dic.Length else dicPos) - 1];
        prob := prob + LIT_SIZE * (Shl(processedPos % Pow2(props.lp), props.lc) + Shr(prev, 8 - props.lc));
      } else {
        assert hist == [];
      }
    }

    /** The byte at distance rep0, which a literal after a match is compared with. */
    method MatchByte() returns (b: byte)
      requires Decoding() && state >= NUM_LIT_STATES
      ensures 1 <= rep0 <= |hist| && b == hist[|hist| - rep0]
    {
      InReach(rep0);
      b := dic[Source()];
    }

    method DecodeLiteralSymbol(rd: Rd, ghost w: Walk, src: seq<byte>) returns (sym: Symbol, rd': Rd)
      requires Decoding() && src == w.src
      requires state >= NUM_LIT_STATES ==> 1 <= rep0 <= |hist|
      requires w.env == EnvOf(Abs()) && On(w, Next(w.env, IsMatch, false), rd, probs[..])
      modifies probs
      ensures On(w, End(sym), rd', probs[..]) && rd.buf <= rd'.buf && sym.Literal?
    {
      hide On, Window, LitContext;
      var prob := LitProb();
      var b;
      if state < NUM_LIT_STATES {
        b, rd' := DecodeLiteral(probs, prob, rd, w, src);
      } else {
        var matchByte := MatchByte();
        b, rd' := DecodeLiteralMatched(probs, prob, matchByte, rd, w, src);
      }
      sym := Literal(b);
    }

    /** The choice among the repeated distances. */
    method DecodeRepSymbol(rd: Rd, ghost w: Walk, src: seq<byte>, posState: nat) returns (sym: Symbol, rd': Rd)
      requires src == w.src && w.env.state == state && w.env.posState == posState
      requires On(w, RepG0, rd, probs[..])
      modifies probs
      ensures On(w, End(sym), rd', probs[..]) && rd.buf <= rd'.buf
    {
      hide On;
      var bit, which, len;
      bit, rd' := GetBit(probs, IS_REP_G0 + state, rd, w, RepG0, src);
      if !bit {
        bit, rd' := GetBit(probs, IS_REP0_LONG + 16 * state + posState, rd', w, Rep0Long, src);
        if !bit {
          return ShortRep, rd';
        }
        which := 0;
      } else {
        bit, rd' := GetBit(probs, IS_REP_G1 + state, rd', w, RepG1, src);
        if !bit {
          which := 1;
        } else {
          bit, rd' := GetBit(probs, IS_REP_G2 + state, rd', w, RepG2, src);
          which := if bit then 3 else 2;
        }
      }
      len, rd' := DecodeLen(probs, REP_LEN_CODER, posState, rd', w, src, RepLen(which));
      sym := Rep(which, len);
    }

    /** The bits of one symbol. A repeated distance without any history is an error at once. */
    method DecodeSymbol(rd: Rd, ghost w: Walk, src: seq<byte>) returns (ok: bool, sym: Symbol, rd': Rd)
      requires Decoding() && src == w.src
      requires state >= NUM_LIT_STATES ==> 1 <= rep0 <= |hist|
      requires w.env == EnvOf(Abs()) && On(w, IsMatch, rd, probs[..])
      modifies probs
      ensures ok ==> On(w, End(sym), rd', probs[..]) && rd.buf <= rd'.buf
      ensures ok && (sym.Rep? || sym.ShortRep?) ==> hist != []
      ensures !ok ==> hist == [] && (w.r.symbol.Rep? || w.r.symbol.ShortRep?)
    {
      hide On, Window, LitContext;
      var bit, len, distance;
      MaskedPosition(|hist|, props.pb);
      var posState := processedPos % Pow2(props.pb);
      ok := true;
      bit, rd' := GetBit(probs, IS_MATCH + 16 * state + posState, rd, w, IsMatch, src);
      if !bit {
        sym, rd' := DecodeLiteralSymbol(rd', w, src);
        return;
      }
      bit, rd' := GetBit(probs, IS_REP + state, rd', w, IsRep, src);
      if !bit {
        len, rd' := DecodeLen(probs, LEN_CODER, posState, rd', w, src, MatchLen);
        distance, rd' := DecodeDistance(probs, len, rd', w, src);
        sym := DistanceEnd(distance, len).symbol;
        return;
      }
      if checkDicSize == 0 && processedPos == 0 {
        RepAhead(w, RepG0, rd', probs[..]);
        return false, ShortRep, rd';
      }
      assert hist != [];
      sym, rd' := DecodeRepSymbol(rd', w, src, posState);
    }

    // ----- What a symbol does ------------------------------------------------------------------------

    /** The output limit as a length of the history. */
    ghost function HistLimit(limit: nat): int
      reads this
    {
      |hist| + limit - dicPos
    }

    /** Copies a match up to the limit, and remembers what is left of it. */
    method WriteMatch(len: nat, limit: nat)
      requires Storage() && 1 <= rep0 <= Reach(hist, props.dicSize) && 1 <= len < FINISHED
      requires dicPos < limit <= dic.Length
      modifies `dicPos, `processedPos, `remainLen, `hist, dic
      ensures Storage() && dicPos <= limit && old(HistLimit(limit)) == HistLimit(limit) && remainLen < FINISHED
      ensures rep0 <= old(|hist|) && Abs() == Extend(old(Abs()), len, old(HistLimit(limit)))
    {
      hide Window, Copy;
      var rem := limit - dicPos;
      var curLen := if rem < len then rem else len;
      WordSum(|hist|, curLen);
      processedPos := (processedPos + curLen) % TWO32;
      remainLen := len - curLen;
      CopyMatch(curLen);
    }

    /** Appends one byte, as literals and short repetitions do. */
    method WriteByte(b: byte, newState: nat)
      requires Storage() && dicPos < dic.Length
      modifies `state, `dicPos, `processedPos, `hist, dic
      ensures Storage() && dicPos == old(dicPos) + 1
      ensures Abs() == old(Abs()).(hist := old(hist) + [b], state := newState)
    {
      hide Window;
      WordSum(|hist|, 1);
      PutByte(b);
      processedPos := (processedPos + 1) % TWO32;
      state := newState;
    }

    ghost predicate Writable(sym: Symbol, limit: nat)
      reads this, probs, dic
    {
      && Decoding() && remainLen == 0 && ValidSymbol(sym) && dicPos <= limit <= dic.Length
      && (limit == dicPos ==> sym.Match? || sym.EndMark?)
    }

    /** Between symbols: sound, but the end of stream not yet normalised and the mark not yet updated. */
    ghost predicate Written(limit: nat)
      reads this, probs, dic
    {
      Sound() && !needInitState && !needFlush && dicPos <= limit && remainLen < 2 * FINISHED
    }

    method WriteLiteral(b: byte, limit: nat)
      requires Writable(Literal(b), limit)
      modifies `state, `dicPos, `processedPos, `hist, dic
      ensures Written(limit) && old(HistLimit(limit)) == HistLimit(limit) && remainLen == 0
      ensures Apply(old(Abs()), Literal(b), old(HistLimit(limit))) == Good(Abs())
    {
      hide Window, ValidState, NumProbs;
      ApplyValid(Abs(), Literal(b), HistLimit(limit));
      WriteByte(b, if state < 4 then 0 else if state < 10 then state - 3 else state - 6);
    }

    method WriteShortRep(limit: nat)
      requires Writable(ShortRep, limit) && hist != []
      modifies `state, `dicPos, `processedPos, `hist, dic
      ensures Written(limit) && old(HistLimit(limit)) == HistLimit(limit) && remainLen == 0
      ensures Apply(old(Abs()), ShortRep, old(HistLimit(limit))) == Good(Abs())
    {
      hide Window, ValidState, NumProbs, Apply;
      RepeatedInReach(Abs(), 0);
      ApplyShortRep(Abs(), HistLimit(limit));
      InReach(rep0);
      WriteByte(dic[Source()], if state < NUM_LIT_STATES then 9 else 11);
    }

    /** Moves the chosen distance to the front. */
    method RotateReps(which: nat)
      requires which < 4
      modifies `state, `rep0, `rep1, `rep2, `rep3
      ensures Abs() == Repeated(old(Abs()), which).(state := StateAfterRep(old(state)))
    {
      if which == 1 {
        rep1, rep0 := rep0, rep1;
      } else if which == 2 {
        rep2, rep1, rep0 := rep1, rep0, rep2;
      } else if which == 3 {
        rep3, rep2, rep1, rep0 := rep2, rep1, rep0, rep3;
      }
      state := if state < NUM_LIT_STATES then 8 else 11;
    }

    method WriteRep(which: nat, len: nat, limit: nat) returns (ok: bool)
      requires Writable(Rep(which, len), limit) && hist != []
      modifies `state, `rep0, `rep1, `rep2, `rep3, `dicPos, `processedPos, `remainLen, `hist, dic
      ensures !ok ==> Apply(old(Abs()), Rep(which, len), old(HistLimit(limit))).Bad?
      ensures ok ==> Written(limit) && old(HistLimit(limit)) == HistLimit(limit)
      ensures ok ==> Apply(old(Abs()), Rep(which, len), old(HistLimit(limit))) == Good(Abs())
    {
      hide Window, ValidState, NumProbs, Apply, Repeated, Extend;
      ApplyRep(Abs(), which, len, HistLimit(limit));
      RotateReps(which);
      if limit == dicPos {
        return false;
      }
      WriteMatch(len + MATCH_MIN_LEN, limit);
      ok := true;
    }

    /** Puts a new distance in front of the last three. */
    method PushRep(distance: nat)
      requires distance < 0xFFFF_FFFF
      modifies `state, `rep0, `rep1, `rep2, `rep3
      ensures Abs() == old(Abs()).(rep0 := distance + 1, rep1 := old(rep0), rep2 := old(rep1), rep3 := old(rep2),
                                   state := StateAfterMatch(old(state)))
    {
      rep3, rep2, rep1, rep0 := rep2, rep1, rep0, distance + 1;
      state := if state < NUM_LIT_STATES then NUM_LIT_STATES else NUM_LIT_STATES + 3;
    }

    method WriteNewMatch(distance: nat, len: nat, limit: nat) returns (ok: bool)
      requires Writable(Match(distance, len), limit)
      modifies `state, `rep0, `rep1, `rep2, `rep3, `dicPos, `processedPos, `remainLen, `hist, dic
      ensures !ok ==> Apply(old(Abs()), Match(distance, len), old(HistLimit(limit))).Bad?
      ensures ok ==> Written(limit) && old(HistLimit(limit)) == HistLimit(limit)
      ensures ok ==> Apply(old(Abs()), Match(distance, len), old(HistLimit(limit))) == Good(Abs())
    {
      hide Window, ValidState, NumProbs, Apply, Extend;
      ApplyMatch(Abs(), distance, len, HistLimit(limit));
      if checkDicSize == 0 {
        if distance >= processedPos {
          return false;
        }
      } else if distance >= checkDicSize {
        return false;
      }
      PushRep(distance);
      if limit == dicPos {
        return false;
      }
      WriteMatch(len + MATCH_MIN_LEN, limit);
      ok := true;
    }

    method WriteSymbol(sym: Symbol, limit: nat) returns (ok: bool)
      requires Writable(sym, limit) && (sym.Rep? || sym.ShortRep? ==> hist != [])
      modifies `state, `rep0, `rep1, `rep2, `rep3, `dicPos, `processedPos, `remainLen, `hist, dic
      ensures !ok ==> Apply(old(Abs()), sym, old(HistLimit(limit))).Bad?
      ensures ok ==> Written(limit) && old(HistLimit(limit)) == HistLimit(limit)
      ensures ok ==> Apply(old(Abs()), sym, old(HistLimit(limit))) == Good(Abs())
    {
      hide Window, Copy, ValidState, NumProbs, Apply;
      ok := true;
      match sym
      case Literal(b) => WriteLiteral(b, limit);
      case ShortRep => WriteShortRep(limit);
      case Rep(which, len) => ok := WriteRep(which, len, limit);
      case Match(distance, len) => ok := WriteNewMatch(distance, len, limit);
      case EndMark(len) => WriteEndMark(len, limit);
    }

    method WriteEndMark(len: nat, limit: nat)
      requires Writable(EndMark(len), limit)
      modifies `remainLen
      ensures Written(limit) && remainLen == len + FINISHED
      ensures Apply(old(Abs()), EndMark(len), old(HistLimit(limit))) == Good(Abs())
    {
      remainLen := len + FINISHED;
    }

    // ----- Many symbols ------------------------------------------------------------------------------

    /** The decoder in the middle of a batch: range and code are in locals, and not normalised. */
    ghost function Running(rd: Rd, src: seq<byte>): Core
      requires rd.buf <= |src| && !Starved(View(rd, src))
      reads this, probs
    {
      Ranged(Abs(), Normalized(View(rd, src)))
    }

    ghost function Unread(rd: Rd, src: seq<byte>): seq<byte>
      requires rd.buf <= |src| && !Starved(View(rd, src))
    {
      Normalized(View(rd, src)).input
    }

    ghost predicate InBatch(rd: Rd, src: seq<byte>)
      reads this, probs, dic
    {
      && Storage() && !needInitState && !needFlush && rd.buf <= |src|
      && !Starved(View(rd, src)) && Normalized(View(rd, src)).range >= TOP
      && ValidCore(Abs()) && ValidCore(Running(rd, src))
    }

    /** One turn of the loop of LzmaDec_DecodeReal. */
    method OneSymbol(limit: nat, rd: Rd, src: seq<byte>) returns (ok: bool, rd': Rd)
      requires InBatch(rd, src) && Marked() && remainLen == 0 && dicPos <= limit <= dic.Length
      requires RunOf(Running(rd, src), Unread(rd, src)).Out?
      requires limit == dicPos ==> IsMatchKind(RunOf(Running(rd, src), Unread(rd, src)).symbol)
      modifies probs, `state, `rep0, `rep1, `rep2, `rep3, `dicPos, `processedPos, `remainLen, `hist, dic
      ensures ok ==>
        && InBatch(rd', src) && rd.buf <= rd'.buf && dicPos <= limit && remainLen < 2 * FINISHED
        && old(HistLimit(limit)) == HistLimit(limit)
      ensures
        var c := old(Running(rd, src));
        var r := old(RunOf(Running(rd, src), Unread(rd, src)));
        var a := Apply(Advanced(c, r), r.symbol, old(HistLimit(limit)));
        && (!ok ==> a.Bad?)
        && (ok ==> a == Good(Running(rd', src)) && r.rc.input == Unread(rd', src))
    {
      hide Window, ValidState, NumProbs, Apply, Run, EnvOf;
      ghost var c := Running(rd, src);
      EnvRanged(Abs(), Normalized(View(rd, src)));
      ghost var w := Walk(EnvOf(Abs()), src, RunOf(c, Unread(rd, src)));
      RunNormalized(w.env, IsMatch, View(rd, src), probs[..]);
      var sym;
      RunOfValid(c, Unread(rd, src));
      ok, sym, rd' := DecodeSymbol(rd, w, src);
      ProbsValid(old(Abs()), probs[..]);
      if !ok {
        ApplyNoHistory(Advanced(c, w.r), w.r.symbol, HistLimit(limit));
        return;
      }
      OnEnd(w, sym, rd', probs[..]);
      ApplyRanged(Abs(), sym, HistLimit(limit), Normalized(View(rd', src)));
      ok := WriteSymbol(sym, limit);
      if ok {
        RangedValid(Abs(), Normalized(View(rd', src)));
      }
    }

    /** What a batch may rely on for its first symbol: enough input, and at the output limit nothing but a match
        or the end mark where the stream must end. */
    ghost predicate Batchable(limit: nat, src: seq<byte>, start: nat, l: nat, mustEnd: bool)
      reads this, probs, dic
    {
      && Decoding() && remainLen == 0 && start <= |src| && dicPos <= limit <= dic.Length
      && (checkDicSize == 0 ==> HistLimit(limit) <= props.dicSize) && HistLimit(limit) <= l
      && RunOf(Abs(), src[start..]).Out?
      && (dicPos == limit ==> HistLimit(limit) == l && mustEnd && code != 0 && IsMatchKind(RunOf(Abs(), src[start..]).symbol))
    }

    /** In a batch, as far as the next symbol asks for; `whole` is what the call is to come to. */
    ghost predicate BeforeTurn(limit: nat, rd: Rd, src: seq<byte>, l: nat, mustEnd: bool, whole: Result)
      reads this, probs, dic
    {
      && InBatch(rd, src) && Marked() && remainLen == 0 && dicPos <= limit <= dic.Length
      && (checkDicSize == 0 ==> HistLimit(limit) <= props.dicSize) && HistLimit(limit) <= l
      && RunOf(Running(rd, src), Unread(rd, src)).Out?
      && (dicPos == limit ==> HistLimit(limit) == l && mustEnd && Running(rd, src).code != 0
                              && IsMatchKind(RunOf(Running(rd, src), Unread(rd, src)).symbol))
      && Decode(Running(rd, src), Unread(rd, src), l, mustEnd) == whole
    }

    ghost predicate AfterTurn(limit: nat, rd: Rd, src: seq<byte>, l: nat, mustEnd: bool, whole: Result)
      reads this, probs, dic
    {
      && InBatch(rd, src) && dicPos <= limit <= dic.Length && remainLen < 2 * FINISHED && HistLimit(limit) <= l
      && (checkDicSize == 0 ==> HistLimit(limit) <= props.dicSize)
      && Decode(Running(rd, src), Unread(rd, src), l, mustEnd) == whole
      && (dicPos < limit && remainLen < FINISHED ==> remainLen == 0 && Marked())
    }

    method Turn(limit: nat, rd: Rd, src: seq<byte>, ghost l: nat, ghost mustEnd: bool, ghost whole: Result)
      returns (ok: bool, rd': Rd)
      requires BeforeTurn(limit, rd, src, l, mustEnd, whole)
      modifies probs, `state, `rep0, `rep1, `rep2, `rep3, `dicPos, `processedPos, `remainLen, `hist, dic
      ensures !ok ==> whole == DataError
      ensures ok ==> AfterTurn(limit, rd', src, l, mustEnd, whole) && old(HistLimit(limit)) == HistLimit(limit)
      ensures ok ==> rd.buf <= rd'.buf && (old(|hist|) < |hist| || remainLen >= FINISHED)
      ensures ok ==> old(|hist|) <= |hist| && dicPos <= limit
      ensures ok ==> Unread(rd', src) == old(RunOf(Running(rd, src), Unread(rd, src))).rc.input
    {
      hide Window, ValidState, NumProbs, Apply, Run, EnvOf, Decode, Starved, Normalized, Storage;
      ghost var c, input, l2 := Running(rd, src), Unread(rd, src), HistLimit(limit);
      ghost var r := RunOf(c, input);
      RunOfValid(c, input);
      StepDecode(c, input, l2, l, mustEnd);
      if Apply(Advanced(c, r), r.symbol, l2).Good? {
        ApplyValid(Advanced(c, r), r.symbol, l2);
      }
      ok, rd' := OneSymbol(limit, rd, src);
    }

    lemma NextTurn(limit: nat, rd: Rd, src: seq<byte>, l: nat, mustEnd: bool, whole: Result)
      requires AfterTurn(limit, rd, src, l, mustEnd, whole) && dicPos < limit && remainLen < FINISHED
      requires rd.buf < |src| - REQUIRED_INPUT_MAX
      ensures BeforeTurn(limit, rd, src, l, mustEnd, whole)
    {
      hide Window, ValidState, NumProbs, Run, EnvOf, Decode;
      EnoughInput(Running(rd, src), Unread(rd, src));
    }

    /** The loop of LzmaDec_DecodeReal: a symbol, and more while there is room and 20 bytes to spare. */
    method Turns(limit: nat, rd: Rd, src: seq<byte>, bufLimit: int, ghost l: nat, ghost mustEnd: bool, ghost whole: Result)
      returns (ok: bool, rd': Rd)
      requires BeforeTurn(limit, rd, src, l, mustEnd, whole)
      requires bufLimit <= rd.buf || bufLimit <= |src| - REQUIRED_INPUT_MAX
      modifies probs, `state, `rep0, `rep1, `rep2, `rep3, `dicPos, `processedPos, `remainLen, `hist, dic
      ensures !ok ==> whole == DataError
      ensures ok ==> AfterTurn(limit, rd', src, l, mustEnd, whole) && old(HistLimit(limit)) == HistLimit(limit)
      ensures ok ==> rd.buf <= rd'.buf && old(|hist|) <= |hist| && (old(|hist|) < |hist| || remainLen >= FINISHED)
      ensures ok ==> |Unread(rd', src)| <= |old(RunOf(Running(rd, src), Unread(rd, src))).rc.input|
    {
      hide Run, Decode, Normalized, Starved, ValidCore, Window;
      ok, rd' := Turn(limit, rd, src, l, mustEnd, whole);
      while ok && remainLen < FINISHED && dicPos < limit && rd'.buf < bufLimit
        invariant !ok ==> whole == DataError
        invariant ok ==> AfterTurn(limit, rd', src, l, mustEnd, whole) && old(HistLimit(limit)) == HistLimit(limit)
        invariant ok ==> rd.buf <= rd'.buf && old(|hist|) <= |hist| && (old(|hist|) < |hist| || remainLen >= FINISHED) && dicPos <= limit
        invariant ok ==> |Unread(rd', src)| <= |old(RunOf(Running(rd, src), Unread(rd, src))).rc.input|
        decreases ok, limit - dicPos, remainLen < FINISHED
      {
        NextTurn(limit, rd', src, l, mustEnd, whole);
        RunOfConsumes(Running(rd', src), Unread(rd', src));
        ok, rd' := Turn(limit, rd', src, l, mustEnd, whole);
      }
    }

    /** LzmaDec_DecodeReal: the locals are stored, normalised, at the end. */
    method DecodeReal(limit: nat, src: seq<byte>, start: nat, bufLimit: int, ghost l: nat, ghost mustEnd: bool)
      returns (ok: bool, buf: nat)
      requires Batchable(limit, src, start, l, mustEnd)
      requires bufLimit <= start || bufLimit <= |src| - REQUIRED_INPUT_MAX
      modifies probs, `range, `code, `state, `rep0, `rep1, `rep2, `rep3, `dicPos, `processedPos, `remainLen, `hist, dic
      ensures !ok ==> old(Decode(Abs(), src[start..], l, mustEnd)) == DataError
      ensures ok ==>
        && Written(limit) && start <= buf <= |src| && old(HistLimit(limit)) == HistLimit(limit)
        && old(|hist|) <= |hist| && (old(|hist|) < |hist| || remainLen >= FINISHED)
        && Decode(Abs(), src[buf..], l, mustEnd) == old(Decode(Abs(), src[start..], l, mustEnd))
        && |src| - buf <= |old(RunOf(Abs(), src[start..])).rc.input|
    {
      hide Window, ValidState, NumProbs, Apply, Run, EnvOf, Decode, Starved, Normalized;
      ghost var whole := Decode(Abs(), src[start..], l, mustEnd);
      var rd := Rd(range, code, start);
      StartRunning(rd, src);
      ok, rd := Turns(limit, rd, src, bufLimit, l, mustEnd, whole);
      if !ok {
        return false, start;
      }
      buf := StoreLocals(rd, src);
    }

    method StoreLocals(rd: Rd, src: seq<byte>) returns (buf: nat)
      requires InBatch(rd, src)
      modifies `range, `code
      ensures Sound() && rd.buf <= buf <= |src| && Abs() == old(Running(rd, src)) && src[buf..] == Unread(rd, src)
    {
      hide ValidCore, Normalized, Starved;
      var n := Normalize(rd, src);
      range, code, buf := n.range, n.code, n.buf;
    }

    lemma StartRunning(rd: Rd, src: seq<byte>)
      requires Decoding() && rd.range == range && rd.code == code && rd.buf <= |src|
      ensures InBatch(rd, src) && Running(rd, src) == Abs() && Unread(rd, src) == src[rd.buf..]
    {
    }

    // ----- Up to the limit ------------------------------------------------------------------------------

    /** The copy loop of LzmaDec_WriteRem, which finds its source anew for each byte. */
    method CopyRemaining(length: nat)
      requires Holding() && 1 <= rep0 <= Reach(hist, props.dicSize) && dicPos + length <= dic.Length
      modifies dic, `dicPos, `hist
      ensures Holding() && hist == Copy(old(hist), rep0, length) && dicPos == old(dicPos) + length
    {
      hide Window;
      var len := length;
      while len != 0
        invariant Holding() && old(|hist|) <= |hist| && dicPos == old(dicPos) + length - len && 0 <= len <= length
        invariant Copy(hist, rep0, len) == Copy(old(hist), rep0, length)
        decreases len
      {
        InReach(rep0);
        PutByte(dic[Source()]);
        len := len - 1;
      }
    }

    method TakeRemaining(len: nat)
      requires Storage() && Marked() && 1 <= rep0 <= Reach(hist, props.dicSize) && props.dicSize > 0
      requires len <= remainLen < FINISHED && dicPos + len <= dic.Length
      modifies `dicPos, `processedPos, `checkDicSize, `remainLen, `hist, dic
      ensures Storage() && Marked() && dicPos == old(dicPos) + len && remainLen == old(remainLen) - len
      ensures rep0 <= |old(hist)| && Abs() == old(Abs()).(hist := Copy(old(hist), rep0, len), remain := old(remainLen) - len)
    {
      hide Window, Copy;
      if checkDicSize == 0 && props.dicSize - processedPos <= len {
        checkDicSize := props.dicSize;
      }
      WordSum(|hist|, len);
      processedPos := (processedPos + len) % TWO32;
      remainLen := remainLen - len;
      CopyRemaining(len);
    }

    /** LzmaDec_WriteRem: writes what is left of a match. */
    method WriteRemaining(limit: nat)
      requires Sound() && Marked() && dicPos <= limit <= dic.Length
      modifies `dicPos, `processedPos, `checkDicSize, `remainLen, `hist, dic
      ensures Sound() && Marked() && dicPos <= limit && old(HistLimit(limit)) == HistLimit(limit)
      ensures Abs() == WriteRem(old(Abs()), old(HistLimit(limit)))
      ensures old(|hist|) <= |hist| && remainLen <= old(remainLen) && (old(remainLen) >= FINISHED ==> remainLen == old(remainLen))
    {
      hide Window, NumProbs, Copy, Holding;
      WriteRemBetween(Abs(), HistLimit(limit));
      if remainLen != 0 && remainLen < FINISHED {
        var len := remainLen;
        if limit - dicPos < len {
          len := limit - dicPos;
        }
        TakeRemaining(len);
      }
    }

    /** Ready for a symbol: with enough input, and at the limit only for one that may come there. */
    ghost predicate Supplied(limit: nat, src: seq<byte>, start: nat, mustEnd: bool)
      reads this, probs, dic
    {
      && Decoding() && remainLen == 0 && start <= |src| && dicPos <= limit <= dic.Length
      && RunOf(Abs(), src[start..]).Out?
      && (dicPos == limit ==> mustEnd && code != 0 && IsMatchKind(RunOf(Abs(), src[start..]).symbol))
    }

    /** What holds between portions: the mark is up to date, and only the limit can have cut a match off. */
    ghost predicate Portioned(limit: nat)
      reads this, probs, dic
    {
      && Sound() && Marked() && !needInitState && !needFlush && dicPos <= limit <= dic.Length && remainLen < 2 * FINISHED
      && Between(Abs(), HistLimit(limit))
    }

    method UpdateMark()
      requires Storage() && props.dicSize > 0
      requires checkDicSize == 0 ==> |hist| <= props.dicSize
      requires checkDicSize != 0 ==> checkDicSize == props.dicSize <= |hist|
      modifies `checkDicSize
      ensures Marked()
    {
      if processedPos >= props.dicSize {
        checkDicSize := props.dicSize;
      }
    }

    /** The body of the loop of LzmaDec_DecodeReal2: never decodes across the point where the dictionary becomes
        full, since the test on distances changes there. */
    method Portion(limit: nat, src: seq<byte>, start: nat, bufLimit: int, ghost mustEnd: bool)
      returns (ok: bool, buf: nat)
      requires Supplied(limit, src, start, mustEnd)
      requires bufLimit <= start || bufLimit <= |src| - REQUIRED_INPUT_MAX
      modifies probs, `range, `code, `state, `rep0, `rep1, `rep2, `rep3, `dicPos, `processedPos, `checkDicSize, `remainLen, `hist, dic
      ensures !ok ==> old(Decode(Abs(), src[start..], HistLimit(limit), mustEnd)) == DataError
      ensures ok ==>
        && Portioned(limit) && start <= buf <= |src| && old(HistLimit(limit)) == HistLimit(limit)
        && old(|hist|) <= |hist| && (old(|hist|) < |hist| || remainLen >= FINISHED)
        && Decode(Abs(), src[buf..], HistLimit(limit), mustEnd) == old(Decode(Abs(), src[start..], HistLimit(limit), mustEnd))
        && |src| - buf <= |old(RunOf(Abs(), src[start..])).rc.input|
    {
      hide Window, NumProbs, ValidState, Run, Decode, EnvOf;
      ghost var l := HistLimit(limit);
      var limit2 := limit;
      if checkDicSize == 0 {
        var rem := props.dicSize - processedPos;
        if limit - dicPos > rem {
          limit2 := dicPos + rem;
        }
      }
      ok, buf := DecodeReal(limit2, src, start, bufLimit, l, mustEnd);
      if !ok {
        return;
      }
      UpdateMark();
      DecodeRem(Abs(), src[buf..], l, mustEnd);
      WriteRemaining(limit);
    }

    lemma NextPortion(limit: nat, src: seq<byte>, start: nat, mustEnd: bool)
      requires Portioned(limit) && dicPos < limit && remainLen < FINISHED && start < |src| - REQUIRED_INPUT_MAX
      ensures Supplied(limit, src, start, mustEnd)
    {
      hide Window, Run, EnvOf;
      EnoughInput(Abs(), src[start..]);
    }

    /** LzmaDec_DecodeReal2. */
    method DecodeReal2(limit: nat, src: seq<byte>, start: nat, bufLimit: int, ghost mustEnd: bool)
      returns (ok: bool, buf: nat)
      requires Supplied(limit, src, start, mustEnd)
      requires bufLimit <= start || bufLimit <= |src| - REQUIRED_INPUT_MAX
      modifies probs, `range, `code, `state, `rep0, `rep1, `rep2, `rep3, `dicPos, `processedPos, `checkDicSize, `remainLen, `hist, dic
      ensures !ok ==> old(Decode(Abs(), src[start..], HistLimit(limit), mustEnd)) == DataError
      ensures ok ==>
        && Portioned(limit) && remainLen <= FINISHED && start <= buf <= |src| && old(HistLimit(limit)) == HistLimit(limit)
        && old(|hist|) <= |hist| && (old(|hist|) < |hist| || remainLen == FINISHED)
        && Decode(Abs(), src[buf..], HistLimit(limit), mustEnd) == old(Decode(Abs(), src[start..], HistLimit(limit), mustEnd))
        && |src| - buf <= |old(RunOf(Abs(), src[start..])).rc.input|
    {
      hide Window, NumProbs, ValidState, Run, Decode, EnvOf, RunOf;
      ghost var l := HistLimit(limit);
      ghost var whole := Decode(Abs(), src[start..], l, mustEnd);
      ghost var spare := |RunOf(Abs(), src[start..]).rc.input|;
      ok, buf := Portion(limit, src, start, bufLimit, mustEnd);
      while ok && dicPos < limit && buf < bufLimit && remainLen < FINISHED
        invariant !ok ==> whole == DataError
        invariant ok ==>
          && Portioned(limit) && start <= buf <= |src| && HistLimit(limit) == l && |src| - buf <= spare
          && old(|hist|) <= |hist| && (old(|hist|) < |hist| || remainLen >= FINISHED)
          && Decode(Abs(), src[buf..], l, mustEnd) == whole
        decreases ok, limit - dicPos, remainLen < FINISHED
      {
        NextPortion(limit, src, buf, mustEnd);
        RunOfConsumes(Abs(), src[buf..]);
        ok, buf := Portion(limit, src, buf, bufLimit, mustEnd);
      }
      if ok && remainLen > FINISHED {
        ClampRemaining(limit);
      }
    }

    method ClampRemaining(limit: nat)
      requires Portioned(limit) && remainLen > FINISHED
      modifies `remainLen
      ensures Portioned(limit) && remainLen == FINISHED && Abs() == old(Abs())
    {
      remainLen := FINISHED;
    }

    // ----- The dry run -----------------------------------------------------------------------------------

    method CheckLiteralSymbol(rd: Rd, ghost w: DryWalk, src: seq<byte>) returns (ok: bool, ghost s: Symbol, rd': Rd)
      requires Decoding() && src == w.src && probs[..] == w.probs
      requires state >= NUM_LIT_STATES ==> 1 <= rep0 <= |hist|
      requires w.env == EnvOf(Abs()) && DryOn(w, Next(w.env, IsMatch, false), rd)
      ensures !ok ==> w.d.DryShort?
      ensures ok ==> s.Literal? && DryOn(w, End(s), rd')
    {
      hide DryOn, Window, LitContext;
      var prob := LitProb();
      ghost var b;
      if state < NUM_LIT_STATES {
        ok, b, rd' := CheckLiteral(probs, prob, rd, w, src);
      } else {
        var matchByte := MatchByte();
        ok, b, rd' := CheckLiteralMatched(probs, prob, matchByte, rd, w, src);
      }
      s := Literal(b);
    }

    method CheckRepSymbol(rd: Rd, ghost w: DryWalk, src: seq<byte>, posState: nat)
      returns (ok: bool, ghost s: Symbol, rd': Rd)
      requires src == w.src && probs[..] == w.probs && w.env.state == state && w.env.posState == posState
      requires DryOn(w, RepG0, rd)
      ensures !ok ==> w.d.DryShort?
      ensures ok ==> (s.Rep? || s.ShortRep?) && DryOn(w, End(s), rd')
    {
      hide DryOn;
      var bit, len;
      ghost var which;
      s := ShortRep;
      ok, bit, rd' := CheckBit(probs, IS_REP_G0 + state, rd, w, RepG0, src);
      if !ok {
        return;
      }
      if !bit {
        ok, bit, rd' := CheckBit(probs, IS_REP0_LONG + 16 * state + posState, rd', w, Rep0Long, src);
        if !ok || !bit {
          return;
        }
        which := 0;
      } else {
        ok, bit, rd' := CheckBit(probs, IS_REP_G1 + state, rd', w, RepG1, src);
        if !ok {
          return;
        }
        which := 1;
        if bit {
          ok, bit, rd' := CheckBit(probs, IS_REP_G2 + state, rd', w, RepG2, src);
          if !ok {
            return;
          }
          which := if bit then 3 else 2;
        }
      }
      ok, len, rd' := CheckLen(probs, REP_LEN_CODER, posState, rd', w, src, RepLen(which));
      s := Rep(which, len);
    }

    method CheckSymbol(rd: Rd, ghost w: DryWalk, src: seq<byte>) returns (ok: bool, res: Dummy, ghost s: Symbol, rd': Rd)
      requires Decoding() && src == w.src && probs[..] == w.probs
      requires state >= NUM_LIT_STATES ==> 1 <= rep0 <= |hist|
      requires w.env == EnvOf(Abs()) && DryOn(w, IsMatch, rd)
      ensures !ok ==> w.d.DryShort?
      ensures ok ==> res == KindOf(s) && DryOn(w, End(s), rd')
    {
      hide DryOn, Window, LitContext;
      var bit, len;
      MaskedPosition(|hist|, props.pb);
      var posState := processedPos % Pow2(props.pb);
      s := ShortRep;
      ok, bit, rd' := CheckBit(probs, IS_MATCH + 16 * state + posState, rd, w, IsMatch, src);
      if !ok {
        return false, DummyError, s, rd';
      }
      if !bit {
        res := DummyLit;
        ok, s, rd' := CheckLiteralSymbol(rd', w, src);
        return;
      }
      ok, bit, rd' := CheckBit(probs, IS_REP + state, rd', w, IsRep, src);
      if !ok {
        return false, DummyError, s, rd';
      }
      if !bit {
        res := DummyMatch;
        ok, len, rd' := CheckLen(probs, LEN_CODER, posState, rd', w, src, MatchLen);
        if ok {
          ok, s, rd' := CheckDistance(probs, len, rd', w, src);
        }
      } else {
        res := DummyRep;
        ok, s, rd' := CheckRepSymbol(rd', w, src, posState);
      }
    }

    /** LzmaDec_TryDummy: says exactly whether the input is too short for the next symbol, and otherwise of which
        kind that symbol is. */
    method TryDummy(src: seq<byte>) returns (res: Dummy)
      requires Decoding()
      ensures res.DummyError? <==> RunOf(Abs(), src).Short?
      ensures RunOf(Abs(), src).Out? ==> res == KindOf(RunOf(Abs(), src).symbol)
    {
      hide Window, Run, DryRun, LitContext;
      EnvValid(Abs());
      ghost var env, rc := EnvOf(Abs()), Rc(range, code, src);
      DryRunAgrees(env, IsMatch, rc, probs[..], probs[..]);
      ghost var w := DryWalk(env, src, probs[..], DryRun(env, IsMatch, rc, probs[..]));
      var rd := Rd(range, code, 0);
      assert View(rd, src) == rc;
      var ok;
      ghost var s;
      ok, res, s, rd := CheckSymbol(rd, w, src);
      if !ok {
        return DummyError;
      }
      DryEnd(w, s, rd);
      ok, rd := NormalizeCheck(rd, src);
      if !ok {
        return DummyError;
      }
    }

    // ----- Setting up -------------------------------------------------------------------------------------

    method ForgetHistory()
      requires Storage() && props.dicSize > 0
      modifies `processedPos, `checkDicSize, `hist
      ensures Storage() && Marked() && hist == []
    {
      WindowEmpty(dic[..], dicPos);
      processedPos := 0;
      checkDicSize := 0;
      hist := [];
    }

    method ForgetInput(initState: bool)
      requires Storage() && Marked()
      modifies `needFlush, `remainLen, `tempBufSize, `needInitState
      ensures Storage() && Marked() && remainLen == 0 && tempBufSize == 0
      ensures Abs() == old(Abs()).(needFlush := true, remain := 0, needInit := initState)
    {
      hide Window;
      needFlush, remainLen, tempBufSize := true, 0, 0;
      needInitState := initState;
    }

    /** LzmaDec_InitDicAndState: the range decoder starts anew, and on request the history and the state do. */
    method InitDicAndState(initDic: bool, initState: bool)
      requires Storage() && ValidProps(props) && probs.Length >= NumProbs(props)
      requires !initDic && !initState && !needInitState ==> ValidState(Abs().(remain := 0))
      requires !initDic ==> Marked()
      modifies `needFlush, `remainLen, `tempBufSize, `processedPos, `checkDicSize, `needInitState, `hist
      ensures Valid() && Resumable() && tempBufSize == 0
      ensures Abs() == Restarted(old(Abs()), initDic, initState)
    {
      hide Window, NumProbs, ValidState, ValidCore;
      RestartedValid(Abs(), initDic, initState);
      if initDic {
        ForgetHistory();
      }
      ForgetInput(initDic || initState || needInitState);
    }

    /** LzmaDec_Init. */
    method Init()
      requires tempBuf.Length == REQUIRED_INPUT_MAX && dicPos <= dic.Length
      requires probs as object != dic && probs as object != tempBuf && dic != tempBuf
      requires ValidProps(props) && probs.Length >= NumProbs(props)
      modifies this
      ensures Valid() && Resumable() && dicPos == 0 && hist == [] && needInitState && needFlush && props == old(props)
    {
      hide NumProbs;
      dicPos := 0;
      hist := [];
      processedPos := 0;
      WindowEmpty(dic[..], 0);
      InitDicAndState(true, true);
    }

    method ResetProbs(numProbs: nat)
      requires numProbs <= probs.Length
      modifies probs
      ensures probs[..] == seq(numProbs, _ => 1024) + old(probs[..])[numProbs..]
    {
      var i := 0;
      while i < numProbs
        invariant i <= numProbs <= probs.Length
        invariant forall k | 0 <= k < i :: probs[k] == 1024
        invariant forall k | i <= k < probs.Length :: probs[k] == old(probs[k])
      {
        probs[i] := 1024;
        i := i + 1;
      }
    }

    /** LzmaDec_InitStateReal. */
    method InitStateReal()
      requires Valid() && needInitState
      modifies probs, `rep0, `rep1, `rep2, `rep3, `state, `needInitState
      ensures Valid() && Abs() == Initialized(old(Abs()))
    {
      hide Window, NumProbs, ValidState;
      InitializedValid(Abs());
      ResetProbs(NumProbs(props));
      ResetState();
    }

    method ResetState()
      requires Storage()
      modifies `rep0, `rep1, `rep2, `rep3, `state, `needInitState
      ensures Storage()
      ensures Abs() == old(Abs()).(rep0 := 1, rep1 := 1, rep2 := 1, rep3 := 1, state := 0, needInit := false)
    {
      hide Window;
      rep0, rep1, rep2, rep3 := 1, 1, 1, 1;
      state := 0;
      needInitState := false;
    }

    // ----- The bytes kept from call to call -----------------------------------------------------------------

    ghost function Pending(): seq<byte>
      requires tempBufSize <= tempBuf.Length
      reads this, tempBuf
    {
      tempBuf[..tempBufSize]
    }

    /** The kept bytes are the start of a header, or too few for the next symbol; in particular nothing of a match
        is left to be written then. */
    ghost predicate Resumable()
      reads this, probs, tempBuf
    {
      && tempBufSize <= tempBuf.Length
      && (needFlush ==> tempBufSize < RC_INIT_SIZE)
      && (!needFlush && tempBufSize > 0 ==>
            remainLen == 0 && !needInitState && ValidCore(Abs()) && RunOf(Abs(), Pending()).Short?)
    }

    /** Takes input over until `want` bytes are kept. */
    method Fill(want: nat, src: seq<byte>, pos: nat) returns (pos': nat)
      requires tempBufSize <= want <= tempBuf.Length && pos <= |src|
      modifies tempBuf, `tempBufSize
      ensures old(tempBufSize) <= tempBufSize <= want && pos <= pos' <= |src|
      ensures pos' - pos == tempBufSize - old(tempBufSize)
      ensures Pending() + src[pos'..] == old(Pending()) + src[pos..]
      ensures tempBufSize < want ==> pos' == |src|
      ensures old(Pending()) <= Pending()
    {
      pos' := pos;
      while tempBufSize < want && pos' < |src|
        invariant old(tempBufSize) <= tempBufSize <= want && pos <= pos' <= |src|
        invariant pos' - pos == tempBufSize - old(tempBufSize)
        invariant Pending() == old(Pending()) + src[pos..pos']
        decreases |src| - pos'
      {
        tempBuf[tempBufSize] := src[pos'];
        tempBufSize := tempBufSize + 1;
        pos' := pos' + 1;
      }
    }

    /** LzmaDec_InitRc. */
    method InitRc()
      requires Valid() && needFlush && tempBufSize == RC_INIT_SIZE
      modifies `code, `range, `needFlush, `tempBufSize
      ensures Valid() && Resumable() && tempBufSize == 0 && Abs() == Flushed(old(Abs()), old(Pending()))
    {
      hide Window, NumProbs;
      code := 0x100_0000 * tempBuf[1] as int + 0x1_0000 * tempBuf[2] as int + 0x100 * tempBuf[3] as int + tempBuf[4] as int;
      range := TWO32 - 1;
      needFlush := false;
      tempBufSize := 0;
    }

    // ----- One call -----------------------------------------------------------------------------------------

    /** Ready to go on within a call whose limit is a length l of the history. */
    ghost predicate OnCall(dicLimit: nat, l: nat)
      reads this, probs, dic, tempBuf
    {
      && Valid() && Resumable() && dicPos <= dicLimit <= dic.Length && HistLimit(dicLimit) == l
      && Between(Abs(), l)
    }

    /** What the rest of the call comes to. */
    ghost function Ahead(src: seq<byte>, pos: nat, l: nat, mustEnd: bool): Result
      requires tempBufSize <= tempBuf.Length && pos <= |src| && Between(Abs(), l)
      reads this, probs, tempBuf
    {
      Loop(Abs(), Pending() + src[pos..], l, mustEnd)
    }

    /** The header: five bytes, gathered over as many calls as it takes, the first of them 0. */
    method ReadHeader(dicLimit: nat, src: seq<byte>, pos: nat, ghost l: nat, ghost mustEnd: bool)
      returns (done: bool, ok: bool, pos': nat)
      requires OnCall(dicLimit, l) && needFlush && pos <= |src|
      modifies tempBuf, `tempBufSize, `code, `range, `needFlush
      ensures done && !ok ==> old(Ahead(src, pos, l, mustEnd)).DataError?
      ensures done && ok ==>
        && OnCall(dicLimit, l) && pos' == |src|
        && old(Ahead(src, pos, l, mustEnd)) == Stop(Abs(), Pending() + src[pos'..], NeedsMoreInput)
      ensures !done ==>
        && OnCall(dicLimit, l) && !needFlush && tempBufSize == 0 && pos' <= |src|
        && Ahead(src, pos', l, mustEnd) == old(Ahead(src, pos, l, mustEnd))
    {
      hide Window, Step, NumProbs, ValidState;
      ghost var input := Pending() + src[pos..];
      ghost var c := Abs();
      pos' := Fill(RC_INIT_SIZE, src, pos);
      assert input == Pending() + src[pos'..];
      if tempBufSize < RC_INIT_SIZE {
        return true, true, pos';
      }
      if tempBuf[0] != 0 {
        return true, false, pos';
      }
      LoopFlushed(c, input, l, mustEnd);
      FlushedBy(c, Pending(), src[pos'..]);
      InitRc();
      assert Pending() + src[pos'..] == src[pos'..];
      done, ok := false, true;
    }

    lemma FlushedBy(c: Core, head: seq<byte>, tail: seq<byte>)
      requires c.needFlush && |head| == RC_INIT_SIZE
      ensures Flushed(c, head + tail) == Flushed(c, head) && FlushRest(c, head + tail) == tail
    {
    }

    /** The tests at the output limit. */
    method AtLimit(dicLimit: nat, src: seq<byte>, pos: nat, ghost l: nat, mustEnd: bool)
      returns (done: bool, ok: bool, status: Status, checkEndMarkNow: bool)
      requires OnCall(dicLimit, l) && !needFlush && remainLen != FINISHED && pos <= |src|
      ensures done && !ok ==> Ahead(src, pos, l, mustEnd).DataError?
      ensures done && ok ==>
        status != NeedsMoreInput && Ahead(src, pos, l, mustEnd) == Stop(Abs(), Pending() + src[pos..], status)
      ensures !done ==> remainLen == 0 && checkEndMarkNow == (dicPos == dicLimit) && (checkEndMarkNow ==> mustEnd && code != 0)
    {
      hide Window, Step, NumProbs, ValidState, Storage, RunOf;
      done, ok, status, checkEndMarkNow := false, true, NotSpecified, false;
      if dicPos >= dicLimit {
        LoopAtLimit(Abs(), Pending() + src[pos..], mustEnd);
        if remainLen == 0 && code == 0 {
          return true, true, MaybeFinished, false;
        }
        if !mustEnd {
          return true, true, NotFinished, false;
        }
        if remainLen != 0 {
          return true, false, NotFinished, false;
        }
        checkEndMarkNow := true;
      }
    }

    /** Set up for a symbol of the call. */
    ghost predicate ReadyFor(dicLimit: nat, l: nat, mustEnd: bool)
      reads this, probs, dic, tempBuf
    {
      && OnCall(dicLimit, l) && !needFlush && !needInitState && remainLen == 0
      && (dicPos == dicLimit ==> mustEnd && code != 0)
    }

    /** A symbol, or many, straight from the caller's input. */
    method Direct(dicLimit: nat, src: seq<byte>, pos: nat, ghost l: nat, checkEndMarkNow: bool, ghost mustEnd: bool)
      returns (done: bool, ok: bool, pos': nat)
      requires ReadyFor(dicLimit, l, mustEnd) && tempBufSize == 0 && pos <= |src| && checkEndMarkNow == (dicPos == dicLimit)
      modifies this, probs, dic, tempBuf
      ensures done && !ok ==> old(Ahead(src, pos, l, mustEnd)).DataError?
      ensures done && ok ==>
        && OnCall(dicLimit, l) && pos' == |src|
        && old(Ahead(src, pos, l, mustEnd)) == Stop(Abs(), Pending() + src[pos'..], NeedsMoreInput)
      ensures !done ==>
        && OnCall(dicLimit, l) && pos' <= |src| && tempBufSize == 0 && (old(|hist|) < |hist| || remainLen == FINISHED) && old(|hist|) <= |hist|
        && Ahead(src, pos', l, mustEnd) == old(Ahead(src, pos, l, mustEnd))
    {
      hide Window, Run, NumProbs, ValidState, Loop, EnvOf;
      var inSize := |src| - pos;
      var bufLimit := |src| - REQUIRED_INPUT_MAX;
      ghost var c, input := Abs(), src[pos..];
      assert Pending() + src[pos..] == input;
      EnoughInput(c, input);
      DecodeLoop(c, input, l, mustEnd);
      if inSize < REQUIRED_INPUT_MAX || checkEndMarkNow {
        var dummyRes := TryDummy(src[pos..]);
        if dummyRes == DummyError {
          LoopShort(c, input, l, mustEnd);
          pos' := KeepInput(src, pos);
          return true, true, pos';
        }
        if checkEndMarkNow && dummyRes != DummyMatch {
          LoopWrongKind(c, input, l, mustEnd);
          return true, false, pos;
        }
        bufLimit := pos;
      }
      ok, pos' := DecodeReal2(dicLimit, src, pos, bufLimit, mustEnd);
      done := !ok;
      if ok {
        DecodeLoop(Abs(), src[pos'..], l, mustEnd);
        assert Pending() + src[pos'..] == src[pos'..];
      }
    }

    /** Keeps an input that is too short for a symbol. */
    method KeepInput(src: seq<byte>, pos: nat) returns (pos': nat)
      requires pos <= |src| && |src| - pos <= tempBuf.Length && tempBufSize == 0
      modifies tempBuf, `tempBufSize
      ensures pos' == |src| && tempBufSize <= tempBuf.Length && Pending() == src[pos..]
    {
      assert Pending() + src[pos..] == src[pos..];
      pos' := Fill(|src| - pos, src, pos);
      assert Pending() + src[pos'..] == Pending();
    }

    /** A symbol from the kept bytes, completed from the caller's input: what it does not use of that input is
        given back, which is never more than was taken. */
    method Buffered(dicLimit: nat, src: seq<byte>, pos: nat, ghost l: nat, checkEndMarkNow: bool, ghost mustEnd: bool)
      returns (done: bool, ok: bool, pos': nat)
      requires ReadyFor(dicLimit, l, mustEnd) && tempBufSize > 0 && pos <= |src| && checkEndMarkNow == (dicPos == dicLimit)
      modifies this, probs, dic, tempBuf
      ensures done && !ok ==> old(Ahead(src, pos, l, mustEnd)).DataError?
      ensures done && ok ==>
        && OnCall(dicLimit, l) && pos' == |src|
        && old(Ahead(src, pos, l, mustEnd)) == Stop(Abs(), Pending() + src[pos'..], NeedsMoreInput)
      ensures !done ==>
        && OnCall(dicLimit, l) && pos' <= |src| && tempBufSize == 0 && (old(|hist|) < |hist| || remainLen == FINISHED) && old(|hist|) <= |hist|
        && Ahead(src, pos', l, mustEnd) == old(Ahead(src, pos, l, mustEnd))
    {
      hide Window, Run, NumProbs, ValidState, Loop, EnvOf, RunOf, Decode;
      ghost var c, before := Abs(), Pending();
      pos' := Fill(REQUIRED_INPUT_MAX, src, pos);
      var lookAhead := pos' - pos;
      var rem := tempBufSize;
      var input, rest := tempBuf[..rem], src[pos'..];
      assert before + src[pos..] == input + rest;
      EnoughInput(c, input);
      if rem < REQUIRED_INPUT_MAX || checkEndMarkNow {
        var dummyRes := TryDummy(input);
        if dummyRes == DummyError {
          assert input + rest == input;
          LoopShort(c, input, l, mustEnd);
          return true, true, pos';
        }
        if checkEndMarkNow && dummyRes != DummyMatch {
          WrongKindFed(c, input, rest, l, mustEnd);
          return true, false, pos';
        }
      }
      var buf;
      ok, buf := FromKept(dicLimit, input, l, mustEnd, before, rest);
      done := !ok;
      if !ok {
        return;
      }
      GivenBack(src, pos, before, input, rest, buf);
      lookAhead := lookAhead - (rem - buf);
      pos' := pos + lookAhead;
      assert Pending() + src[pos'..] == src[pos'..];
    }

    /** Decodes one symbol from the kept bytes, of which `before` were not enough; `rest` is still to come. */
    method FromKept(dicLimit: nat, input: seq<byte>, ghost l: nat, ghost mustEnd: bool,
                    ghost before: seq<byte>, ghost rest: seq<byte>) returns (ok: bool, buf: nat)
      requires Valid() && !needFlush && !needInitState && remainLen == 0 && before <= input
      requires dicPos <= dicLimit <= dic.Length && HistLimit(dicLimit) == l && Between(Abs(), l)
      requires RunOf(Abs(), before).Short? && RunOf(Abs(), input).Out?
      requires dicPos == dicLimit ==> mustEnd && code != 0 && IsMatchKind(RunOf(Abs(), input).symbol)
      modifies this, probs, dic
      ensures !ok ==> old(Loop(Abs(), input + rest, l, mustEnd)).DataError?
      ensures ok ==>
        && OnCall(dicLimit, l) && tempBufSize == 0 && |before| <= buf <= |input|
        && (old(|hist|) < |hist| || remainLen == FINISHED) && old(|hist|) <= |hist|
        && Loop(Abs(), input[buf..] + rest, l, mustEnd) == old(Loop(Abs(), input + rest, l, mustEnd))
    {
      hide Window, Run, NumProbs, ValidState, Loop, EnvOf, RunOf, Decode;
      ghost var c := Abs();
      assert before + input[|before|..] == input && input[0..] == input;
      ShortUsedUp(c, before, input[|before|..]);
      DecodeLoop(c, input + rest, l, mustEnd);
      DecodeFed(c, input, rest, l, mustEnd);
      ok, buf := DecodeReal2(dicLimit, input, 0, 0, mustEnd);
      if ok {
        DecodeFed(Abs(), input[buf..], rest, l, mustEnd);
        DecodeLoop(Abs(), input[buf..] + rest, l, mustEnd);
        tempBufSize := 0;
      }
    }

    lemma GivenBack(src: seq<byte>, pos: nat, before: seq<byte>, input: seq<byte>, rest: seq<byte>, buf: nat)
      requires pos <= |src| && before + src[pos..] == input + rest && |before| <= buf <= |input|
      ensures pos + buf - |before| <= |src| && src[pos + buf - |before|..] == input[buf..] + rest
    {
      var all := before + src[pos..];
      assert all[buf..] == src[pos..][buf - |before|..] == src[pos + buf - |before|..];
      assert (input + rest)[buf..] == input[buf..] + rest;
    }

    /** One turn of the loop of LzmaDec_DecodeToDic. */
    method Round(dicLimit: nat, src: seq<byte>, pos: nat, ghost l: nat, mustEnd: bool)
      returns (done: bool, ok: bool, status: Status, pos': nat)
      requires OnCall(dicLimit, l) && remainLen != FINISHED && pos <= |src|
      modifies this, probs, dic, tempBuf
      ensures done && !ok ==> old(Ahead(src, pos, l, mustEnd)).DataError?
      ensures done && ok ==>
        && OnCall(dicLimit, l) && pos' <= |src|
        && old(Ahead(src, pos, l, mustEnd)) == Stop(Abs(), Pending() + src[pos'..], status)
        && (if status == NeedsMoreInput then pos' == |src| else tempBufSize == 0 || (pos' == pos && tempBufSize == old(tempBufSize)))
      ensures !done ==>
        && OnCall(dicLimit, l) && pos' <= |src| && tempBufSize == 0 && (old(|hist|) < |hist| || remainLen == FINISHED) && old(|hist|) <= |hist|
        && Ahead(src, pos', l, mustEnd) == old(Ahead(src, pos, l, mustEnd))
    {
      hide Valid, Resumable, Between, Loop, RunOf;
      done, ok, status, pos' := false, true, NotSpecified, pos;
      if needFlush {
        done, ok, pos' := ReadHeader(dicLimit, src, pos, l, mustEnd);
        if done {
          status := NeedsMoreInput;
          return;
        }
      }
      var checkEndMarkNow;
      done, ok, status, checkEndMarkNow := AtLimit(dicLimit, src, pos', l, mustEnd);
      if done {
        return;
      }
      if needInitState {
        StartState(dicLimit, src, pos', l, mustEnd);
      }
      if tempBufSize == 0 {
        done, ok, pos' := Direct(dicLimit, src, pos', l, checkEndMarkNow, mustEnd);
      } else {
        done, ok, pos' := Buffered(dicLimit, src, pos', l, checkEndMarkNow, mustEnd);
      }
      status := NeedsMoreInput;
    }

    method StartState(dicLimit: nat, ghost src: seq<byte>, ghost pos: nat, ghost l: nat, ghost mustEnd: bool)
      requires OnCall(dicLimit, l) && needInitState && !needFlush && remainLen == 0 && pos <= |src|
      requires dicPos == dicLimit ==> mustEnd && code != 0
      modifies probs, `rep0, `rep1, `rep2, `rep3, `state, `needInitState
      ensures OnCall(dicLimit, l) && !needInitState
      ensures Ahead(src, pos, l, mustEnd) == old(Ahead(src, pos, l, mustEnd))
    {
      hide Window, NumProbs, ValidState, Loop;
      LoopInitialized(Abs(), Pending() + src[pos..], l, mustEnd);
      InitStateReal();
    }

    /** LzmaDec_DecodeToDic: does what one call of the decoder on values does with the kept bytes and the new input;
        what that leaves unread is still kept or still the caller's. */
    method DecodeToDic(dicLimit: nat, src: seq<byte>, mustEnd: bool) returns (ok: bool, srcLen: nat, status: Status)
      requires Valid() && Resumable() && dicPos <= dicLimit <= dic.Length
      modifies this, probs, dic, tempBuf
      ensures ok ==> Valid() && Resumable() && dicPos <= dicLimit && srcLen <= |src| && HistLimit(dicLimit) == old(HistLimit(dicLimit))
      ensures old(Decode(Abs(), Pending() + src, HistLimit(dicLimit), mustEnd))
           == if ok then Stop(Abs(), Pending() + src[srcLen..], status) else DataError
      ensures ok ==> if status == NeedsMoreInput then srcLen == |src| else tempBufSize == 0 || (srcLen == 0 && tempBufSize == old(tempBufSize))
    {
      hide Window, NumProbs, ValidState, Loop, RunOf;
      ghost var l := HistLimit(dicLimit);
      ghost var whole := Decode(Abs(), Pending() + src, l, mustEnd);
      WriteRemBetween(Abs(), l);
      assert src[0..] == src;
      WriteRemaining(dicLimit);
      ok, srcLen, status := true, 0, NotSpecified;
      while remainLen != FINISHED
        invariant OnCall(dicLimit, l) && srcLen <= |src|
        invariant Ahead(src, srcLen, l, mustEnd) == whole
        invariant tempBufSize == 0 || (srcLen == 0 && tempBufSize == old(tempBufSize))
        decreases l - |hist|, remainLen != FINISHED
      {
        var done;
        done, ok, status, srcLen := Round(dicLimit, src, srcLen, l, mustEnd);
        if done {
          return;
        }
      }
      LoopFinished(Abs(), Pending() + src[srcLen..], l, mustEnd);
      if code == 0 {
        status := FinishedWithMark;
      }
      ok := code == 0;
    }

    method WrapDictionary()
      requires Valid() && Resumable() && props.dicSize <= dic.Length
      modifies `dicPos
      ensures Valid() && Resumable() && dicPos < dic.Length && Abs() == old(Abs())
      ensures dicPos == if old(dicPos) == dic.Length then 0 else old(dicPos)
    {
      hide RunOf, NumProbs, ValidState;
      if dicPos == dic.Length {
        WindowWraps(dic[..], hist);
        dicPos := 0;
      }
    }

    /** The new bytes are where memcpy finds them. */
    lemma Produced(dicPos0: nat, hist0: seq<byte>)
      requires Holding() && dicPos0 <= dicPos && |hist0| <= |hist| && hist0 == hist[..|hist0|]
      requires |hist| - |hist0| == dicPos - dicPos0
      ensures hist == hist0 + dic[dicPos0..dicPos]
    {
      var n := |hist| - |hist0|;
      forall i | 0 <= i < n
        ensures dic[dicPos0..dicPos][i] == hist[|hist0| + i]
      {
        assert Back(dic.Length, dicPos, n - i) == dicPos0 + i;
      }
    }

    /** Within a call to DecodeToBuf that is to come to `whole`. */
    ghost predicate OnBuf(src: seq<byte>, srcLen: nat, l: nat, mustEnd: bool, whole: Result)
      reads this, probs, dic, tempBuf
    {
      && Valid() && Resumable() && props.dicSize <= dic.Length && srcLen <= |src| && |hist| <= l
      && Decode(Abs(), Pending() + src[srcLen..], l, mustEnd) == whole
    }

    /** LzmaDec_DecodeToBuf: the output goes through the dictionary in as many portions as it takes, and is what
        one call with an unbounded history gives. */
    method DecodeToBuf(destLen: nat, src: seq<byte>, mustEnd: bool)
      returns (ok: bool, dest: seq<byte>, srcLen: nat, status: Status)
      requires Valid() && Resumable() && props.dicSize <= dic.Length
      modifies this, probs, dic, tempBuf
      ensures ok ==> Valid() && Resumable() && srcLen <= |src| && |dest| <= destLen && hist == old(hist) + dest
      ensures old(Decode(Abs(), Pending() + src, |hist| + destLen, mustEnd))
           == if ok then Stop(Abs(), Pending() + src[srcLen..], status) else DataError
    {
      hide Window, NumProbs, ValidState, Loop, RunOf, Decode;
      ghost var l := |hist| + destLen;
      ghost var whole := Decode(Abs(), Pending() + src, l, mustEnd);
      assert src[0..] == src;
      ok, dest, srcLen, status := BufPortions(destLen, src, l, mustEnd, whole);
    }

    method BufPortions(destLen: nat, src: seq<byte>, ghost l: nat, mustEnd: bool, ghost whole: Result)
      returns (ok: bool, dest: seq<byte>, srcLen: nat, status: Status)
      requires OnBuf(src, 0, l, mustEnd, whole) && |hist| + destLen == l
      modifies this, probs, dic, tempBuf
      ensures ok ==> OnBuf(src, srcLen, l, mustEnd, whole) && |dest| <= destLen && hist == old(hist) + dest
      ensures ok ==> whole == Stop(Abs(), Pending() + src[srcLen..], status)
      ensures !ok ==> whole.DataError?
    {
      hide OnBuf;
      var outSize := destLen;
      ok, dest, srcLen, status := true, [], 0, NotSpecified;
      while true
        invariant OnBuf(src, srcLen, l, mustEnd, whole)
        invariant outSize >= 0 && outSize + |dest| == destLen && hist == old(hist) + dest
        decreases outSize
      {
        var produced;
        ok, produced, srcLen, status := BufPortion(outSize, src, srcLen, l, mustEnd, whole);
        if !ok {
          return;
        }
        dest, outSize := dest + produced, outSize - |produced|;
        if produced == [] || outSize == 0 {
          return;
        }
      }
    }

    /** One portion: as much as is asked for or as fits before the dictionary wraps. */
    method BufPortion(outSize: nat, src: seq<byte>, srcLen: nat, ghost l: nat, mustEnd: bool, ghost whole: Result)
      returns (ok: bool, produced: seq<byte>, srcLen': nat, status: Status)
      requires OnBuf(src, srcLen, l, mustEnd, whole) && |hist| + outSize == l
      modifies this, probs, dic, tempBuf
      ensures ok ==> OnBuf(src, srcLen', l, mustEnd, whole) && |produced| <= outSize && hist == old(hist) + produced
      ensures ok && (produced == [] || |produced| == outSize) ==> whole == Stop(Abs(), Pending() + src[srcLen'..], status)
      ensures !ok ==> whole.DataError?
    {
      hide Window, NumProbs, ValidState, Loop, RunOf, Decode;
      WrapDictionary();
      ghost var c, input, hist0 := Abs(), Pending() + src[srcLen..], hist;
      var dicPos0, outSizeCur, curFinishMode := dicPos, dicPos + outSize, mustEnd;
      if outSize > dic.Length - dicPos {
        outSizeCur, curFinishMode := dic.Length, false;
      }
      ghost var l2 := HistLimit(outSizeCur);
      OutputPaused(c, input, l2, l, curFinishMode, mustEnd);
      var n;
      ok, n, status := DecodeToDic(outSizeCur, src[srcLen..], curFinishMode);
      produced, srcLen' := [], srcLen;
      if ok {
        assert src[srcLen..][n..] == src[srcLen + n..];
        DecodeKeeps(c, input, l2, curFinishMode);
        Produced(dicPos0, hist0);
        produced, srcLen' := dic[dicPos0..dicPos], srcLen + n;
      }
    }
  }
}
