/**
  The LZMA2 decoder on values: the framing of Lzma2Chunks around the LZMA decoder of LzmaStream. `Decode2` is
  what one call is to do.
*/
module Lzma2Stream {
  import opened Words
  import opened LzmaSymbol
  import opened LzmaStream
  import opened LzmaFacts
  import opened Lzma2Chunks

  const NUM_PROBS := LITERAL + LIT_SIZE * 16

  /** `pending` is the input that the LZMA decoder keeps. */
  datatype Machine = Machine(f: Frame, c: Core, pending: seq<byte>)

  /** Fit to have its range decoder, and what else is asked for, started anew. */
  ghost predicate Fit(m: Machine) {
    && ValidProps(m.c.props) && m.c.props.lc + m.c.props.lp <= LCLP_MAX && |m.c.probs| >= NUM_PROBS
    && (!m.c.needInit ==> ValidState(m.c.(remain := 0)))
    && (m.f.state == DataCont && !Plain(m.f.control) ==> ValidCore(m.c))
  }

  lemma FitProbs(m: Machine)
    requires Fit(m)
    ensures |m.c.probs| >= NumProbs(m.c.props)
  {
    Pow2Grows(m.c.props.lc + m.c.props.lp, 4);
    assert Pow2(4) == 16;
  }

  /** What a turn of the loop comes to: `rest` is the input left, `room` the output still to be made. */
  datatype Turned =
    | Fails
    | Halts(m: Machine, rest: seq<byte>, room: nat, status: Status)
    | Goes(m: Machine, rest: seq<byte>, room: nat)

  function WithProp(p: Props, b: byte): Props {
    if AcceptedProp(b) then Props(b as int % 9, b as int / 9 % 5, b as int / 9 / 5, p.dicSize) else p
  }

  ghost function HeaderTurn(m: Machine, b: byte): Machine {
    Machine(AfterByte(m.f, b), if m.f.state == Prop then m.c.(props := WithProp(m.c.props, b)) else m.c, m.pending)
  }

  /** The data of a chunk begins. */
  ghost function Started(m: Machine): Machine {
    if m.f.state == Data then
      var mode := Mode(m.f.control);
      var d := if Plain(m.f.control) then Restarted(m.c, m.f.control == 1, false) else Restarted(m.c, mode == 3, mode > 0);
      Machine(Begun(m.f), d, [])
    else m
  }

  ghost function RawTurn(m: Machine, src: seq<byte>, room: nat): (t: Turned)
    ensures !t.Halts?
  {
    var n := Min(|src|, Min(m.f.unpackSize, room));
    if n == 0 then Fails
    else Goes(Machine(AfterRaw(m.f, src[..n]), m.c.(hist := m.c.hist + src[..n]), m.pending), src[n..], room - n)
  }

  /** What the LZMA decoder keeps of n new bytes when it stops. */
  function KeptOf(rest: seq<byte>, n: nat, status: Status): seq<byte> {
    if status == NeedsMoreInput then rest else if |rest| <= n then [] else rest[..|rest| - n]
  }

  function TakenOf(rest: seq<byte>, n: nat, status: Status): (k: nat)
    ensures k <= n
  {
    if status == NeedsMoreInput then n else if |rest| <= n then n - |rest| else 0
  }

  /** The LZMA decoder is given no more input and asked for no more output than the chunk has. */
  ghost function PackedResult(m: Machine, src: seq<byte>, room: nat): (r: Result)
    requires ValidCore(m.c)
    ensures r.Stop? ==> m.c.hist <= r.c.hist && |r.c.hist| - |m.c.hist| <= Min(m.f.unpackSize, room)
    ensures r.Stop? ==> ValidCore(r.c) && r.c.props == m.c.props && |r.c.probs| == |m.c.probs|
  {
    var input, limit := m.pending + src[..Min(|src|, m.f.packSize)], |m.c.hist| + Min(m.f.unpackSize, room);
    var r := Decode(m.c, input, limit, m.f.unpackSize <= room);
    if r.Stop? then
      DecodeKeeps(m.c, input, limit, m.f.unpackSize <= room);
      r
    else r
  }

  /** The chunk after k bytes of input. */
  function PackedNext(m: Machine, src: seq<byte>, k: nat, c: Core, kept: seq<byte>): Machine
    requires k <= |src| && k <= m.f.packSize && |m.c.hist| <= |c.hist| <= |m.c.hist| + m.f.unpackSize
  {
    Machine(AfterPacked(m.f, src[..k], c.hist[|m.c.hist|..]), c, kept)
  }

  /** What the result of the LZMA decoder means for the chunk. */
  function TurnOf(m: Machine, src: seq<byte>, room: nat, r: Result): Turned
    requires r.Stop? ==> m.c.hist <= r.c.hist && |r.c.hist| - |m.c.hist| <= Min(m.f.unpackSize, room)
  {
    if r.DataError? then Fails
    else
      var n := Min(|src|, m.f.packSize);
      var k, t := TakenOf(r.rest, n, r.status), r.c.hist[|m.c.hist|..];
      var m' := PackedNext(m, src, k, r.c, KeptOf(r.rest, n, r.status));
      if r.status == NeedsMoreInput then Halts(m', src[k..], room - |t|, NeedsMoreInput)
      else if k > 0 || t != [] then Goes(m', src[k..], room - |t|)
      else if r.status != MaybeFinished || m.f.unpackSize != 0 || m.f.packSize != 0 then Fails
      else Goes(m'.(f := m'.f.(state := Control)), src[k..], room - |t|)
  }

  ghost function PackedTurn(m: Machine, src: seq<byte>, room: nat): Turned
    requires ValidCore(m.c)
  {
    TurnOf(m, src, room, PackedResult(m, src, room))
  }

  lemma PackedTurnFails(m: Machine, src: seq<byte>, room: nat)
    requires ValidCore(m.c) && PackedResult(m, src, room).DataError?
    ensures PackedTurn(m, src, room) == Fails
  {
    hide PackedResult, ValidState, NumProbs;
  }

  lemma PackedTurnIs(m: Machine, src: seq<byte>, room: nat, k: nat, kept: seq<byte>, m': Machine)
    requires ValidCore(m.c) && PackedResult(m, src, room).Stop? && k <= |src| && k <= m.f.packSize
    requires var r := PackedResult(m, src, room);
             && k == TakenOf(r.rest, Min(|src|, m.f.packSize), r.status)
             && kept == KeptOf(r.rest, Min(|src|, m.f.packSize), r.status) && m' == PackedNext(m, src, k, r.c, kept)
    ensures var r := PackedResult(m, src, room);
            var left := room - (|r.c.hist| - |m.c.hist|);
            && left >= 0
            && PackedTurn(m, src, room) ==
                 if r.status == NeedsMoreInput then Halts(m', src[k..], left, NeedsMoreInput)
                 else if k > 0 || left < room then Goes(m', src[k..], left)
                 else if r.status != MaybeFinished || m'.f.unpackSize != 0 || m'.f.packSize != 0 then Fails
                 else Goes(m'.(f := m'.f.(state := Control)), src[k..], left)
  {
    hide PackedResult, TakenOf, KeptOf, ValidState, NumProbs;
  }

  lemma StartedValid(m: Machine)
    requires Fit(m) && (m.f.state == Data || m.f.state == DataCont)
    ensures Fit(Started(m)) && (!Plain(m.f.control) ==> ValidCore(Started(m).c))
  {
    hide NumProbs, ValidState;
    FitProbs(m);
    if m.f.state == Data {
      RestartedValid(m.c, if Plain(m.f.control) then m.f.control == 1 else Mode(m.f.control) == 3,
                     !Plain(m.f.control) && Mode(m.f.control) > 0);
    }
  }

  ghost function DataTurn(m: Machine, src: seq<byte>, room: nat): Turned
    requires Fit(m) && (m.f.state == Data || m.f.state == DataCont)
  {
    StartedValid(m);
    if Plain(m.f.control) then RawTurn(Started(m), src, room) else PackedTurn(Started(m), src, room)
  }

  ghost function Turn2(m: Machine, src: seq<byte>, room: nat, mustEnd: bool): Turned
    requires Fit(m) && m.f.state != Finished
  {
    if m.f.state == State.Error then Fails
    else if room == 0 && !mustEnd then Halts(m, src, room, NotFinished)
    else if InHeader(m.f.state) then
      if src == [] then Halts(m, src, room, NeedsMoreInput) else Goes(HeaderTurn(m, src[0]), src[1..], room)
    else if Plain(m.f.control) && src == [] then Halts(m, src, room, NeedsMoreInput)
    else if m.f.state == Data && Refused(m.f) then Fails
    else DataTurn(m, src, room)
  }

  function Working(m: Machine): nat {
    if m.f.state == Data || m.f.state == DataCont then 1 else 0
  }

  /** A turn that goes on uses input, makes output, or ends a chunk. */
  ghost predicate Nearer(m: Machine, src: seq<byte>, room: nat, t: Turned)
    requires t.Goes?
  {
    && t.room <= room && |t.rest| <= |src|
    && (|t.rest| < |src| || t.room < room || Working(t.m) < Working(m))
  }

  lemma HeaderGoes(m: Machine, b: byte)
    requires Fit(m) && InHeader(m.f.state)
    ensures Fit(HeaderTurn(m, b))
  {
    hide NumProbs, ValidState;
    var c' := HeaderTurn(m, b).c;
    assert ValidState(m.c.(remain := 0)) ==> ValidState(c'.(remain := 0)) by {
      PropsApart(m.c.(remain := 0), c'.props);
    }
    if AcceptedProp(b) {
      DivUnique(b as int / 9, 5, b as int / 9 / 5, b as int / 9 % 5);
    }
  }

  lemma PropsApart(c: Core, p: Props)
    requires p.dicSize == c.props.dicSize
    ensures ValidState(c.(props := p)) <==> ValidState(c)
  {
  }

  lemma RawGoes(m: Machine, src: seq<byte>, room: nat)
    requires Fit(m) && m.f.state == DataCont && Plain(m.f.control) && RawTurn(m, src, room).Goes?
    ensures Fit(RawTurn(m, src, room).m) && Nearer(m, src, room, RawTurn(m, src, room))
  {
    hide NumProbs;
  }

  lemma PackedGoes(m: Machine, src: seq<byte>, room: nat)
    requires Fit(m) && m.f.state == DataCont && !Plain(m.f.control) && PackedTurn(m, src, room).Goes?
    ensures Fit(PackedTurn(m, src, room).m) && Nearer(m, src, room, PackedTurn(m, src, room))
  {
    hide NumProbs, PackedResult;
  }

  lemma TurnGoes(m: Machine, src: seq<byte>, room: nat, mustEnd: bool)
    requires Fit(m) && m.f.state != Finished && Turn2(m, src, room, mustEnd).Goes?
    ensures Fit(Turn2(m, src, room, mustEnd).m) && Nearer(m, src, room, Turn2(m, src, room, mustEnd))
  {
    hide Fit, RawTurn, PackedTurn, HeaderTurn;
    if InHeader(m.f.state) {
      HeaderGoes(m, src[0]);
    } else {
      StartedValid(m);
      if Plain(m.f.control) {
        RawGoes(Started(m), src, room);
      } else {
        PackedGoes(Started(m), src, room);
      }
    }
  }

  datatype Result2 = DataError2 | Stop2(m: Machine, rest: seq<byte>, room: nat, status: Status)

  /** One call, with room for so much output: `mustEnd` is LZMA_FINISH_END. */
  ghost function Decode2(m: Machine, src: seq<byte>, room: nat, mustEnd: bool): Result2
    requires Fit(m)
    decreases |src|, room, Working(m)
  {
    if m.f.state == Finished then Stop2(m, src, room, FinishedWithMark)
    else
      var t := Turn2(m, src, room, mustEnd);
      match t
      case Fails => DataError2
      case Halts(m', rest, room', status) => Stop2(m', rest, room', status)
      case Goes(m', rest, room') =>
        TurnGoes(m, src, room, mustEnd);
        Decode2(m', rest, room', mustEnd)
  }

  lemma DecodeTurn(m: Machine, src: seq<byte>, room: nat, mustEnd: bool)
    requires Fit(m) && m.f.state != Finished
    ensures var t := Turn2(m, src, room, mustEnd);
            && (!t.Fails? ==> Fit(t.m)) && (t.Goes? ==> Nearer(m, src, room, t))
            && Decode2(m, src, room, mustEnd) ==
                 if t.Fails? then DataError2
                 else if t.Halts? then Stop2(t.m, t.rest, t.room, t.status)
                 else Decode2(t.m, t.rest, t.room, mustEnd)
  {
    hide Fit, Turn2;
    var t := Turn2(m, src, room, mustEnd);
    if t.Goes? {
      TurnGoes(m, src, room, mustEnd);
    } else if t.Halts? {
      TurnHalts(m, src, room, mustEnd);
    }
  }

  // ----- What every call keeps ------------------------------------------------------------------------------

  predicate Ends(out: seq<byte>, hist: seq<byte>) {
    |hist| <= |out| && out[|out| - |hist|..] == hist
  }

  /** Input and output are what the log is about, and the history of the LZMA decoder ends the output. */
  ghost predicate Sound2(m: Machine) {
    Consistent(m.f) && Ends(m.f.out, m.c.hist)
  }

  ghost predicate Moved(m: Machine, src: seq<byte>, room: nat, m': Machine, rest: seq<byte>, room': nat) {
    && Sound2(m') && room' <= room
    && m.f.read + src == m'.f.read + rest
    && m.f.out <= m'.f.out && |m'.f.out| + room' == |m.f.out| + room
  }

  ghost predicate MovedBy(m: Machine, src: seq<byte>, room: nat, t: Turned)
    requires !t.Fails?
  {
    Moved(m, src, room, t.m, t.rest, t.room)
  }

  lemma SuffixGrows(out: seq<byte>, hist: seq<byte>, more: seq<byte>)
    requires Ends(out, hist)
    ensures Ends(out + more, hist + more)
  {
  }

  lemma StartedSound(m: Machine)
    requires Sound2(m) && m.f.state == Data && !Refused(m.f)
    ensures Sound2(Started(m)) && Started(m).f.read == m.f.read && Started(m).f.out == m.f.out
  {
    hide Consistent;
    BegunKeeps(m.f);
  }

  lemma RawMoves(m: Machine, src: seq<byte>, room: nat)
    requires Sound2(m) && m.f.state == DataCont && Plain(m.f.control) && RawTurn(m, src, room).Goes?
    ensures MovedBy(m, src, room, RawTurn(m, src, room))
  {
    hide Consistent, Ends, Plain;
    var n := Min(|src|, Min(m.f.unpackSize, room));
    RawKeeps(m.f, src[..n]);
    SuffixGrows(m.f.out, m.c.hist, src[..n]);
    assert src == src[..n] + src[n..];
  }

  lemma PackedNextMoves(m: Machine, src: seq<byte>, room: nat, k: nat, c: Core, kept: seq<byte>)
    requires Sound2(m) && m.f.state == DataCont && !Plain(m.f.control)
    requires k <= |src| && k <= m.f.packSize && m.c.hist <= c.hist && |c.hist| - |m.c.hist| <= Min(m.f.unpackSize, room)
    ensures Moved(m, src, room, PackedNext(m, src, k, c, kept), src[k..], room - (|c.hist| - |m.c.hist|))
  {
    hide Consistent, Ends, Plain;
    var t := c.hist[|m.c.hist|..];
    PackedKeeps(m.f, src[..k], t);
    SuffixGrows(m.f.out, m.c.hist, t);
    assert m.c.hist + t == c.hist && src == src[..k] + src[k..];
  }

  lemma PackedMoves(m: Machine, src: seq<byte>, room: nat)
    requires Sound2(m) && m.f.state == DataCont && !Plain(m.f.control) && ValidCore(m.c)
    requires !PackedTurn(m, src, room).Fails?
    ensures MovedBy(m, src, room, PackedTurn(m, src, room))
  {
    hide Consistent, PackedResult, ValidCore, Ends, KeptOf, TakenOf, Plain;
    var r := PackedResult(m, src, room);
    var n := Min(|src|, m.f.packSize);
    var k := TakenOf(r.rest, n, r.status);
    PackedNextMoves(m, src, room, k, r.c, KeptOf(r.rest, n, r.status));
    if k == 0 && |r.c.hist| == |m.c.hist| && m.f.unpackSize == 0 && m.f.packSize == 0 {
      var g := PackedNext(m, src, k, r.c, KeptOf(r.rest, n, r.status)).f;
      PackedDone(g);
    }
  }

  lemma DataMoves(m: Machine, src: seq<byte>, room: nat)
    requires Fit(m) && Sound2(m) && (m.f.state == Data || m.f.state == DataCont) && (m.f.state == Data ==> !Refused(m.f))
    requires !DataTurn(m, src, room).Fails?
    ensures MovedBy(m, src, room, DataTurn(m, src, room))
  {
    hide Fit, Consistent, RawTurn, PackedTurn, Ends, Plain, Refused;
    StartedValid(m);
    if m.f.state == Data {
      StartedSound(m);
    }
    if Plain(m.f.control) {
      RawMoves(Started(m), src, room);
    } else {
      PackedMoves(Started(m), src, room);
    }
  }

  lemma HeaderMoves(m: Machine, src: seq<byte>, room: nat)
    requires Sound2(m) && InHeader(m.f.state) && src != []
    ensures Moved(m, src, room, HeaderTurn(m, src[0]), src[1..], room)
  {
    hide Consistent, Ends, AfterByte;
    ByteKeeps(m.f, src[0]);
    assert src == [src[0]] + src[1..];
  }

  lemma TurnMoves(m: Machine, src: seq<byte>, room: nat, mustEnd: bool)
    requires Fit(m) && Sound2(m) && m.f.state != Finished && !Turn2(m, src, room, mustEnd).Fails?
    ensures MovedBy(m, src, room, Turn2(m, src, room, mustEnd))
  {
    hide Fit, Consistent, DataTurn, HeaderTurn, Ends, Plain, Refused;
    if room == 0 && !mustEnd {
    } else if InHeader(m.f.state) {
      if src != [] {
        HeaderMoves(m, src, room);
      }
    } else if !(Plain(m.f.control) && src == []) {
      DataMoves(m, src, room);
    }
  }

  /** Over whole runs, on all input: sizes never fall below zero, every byte read and written belongs to a chunk
      that declares it, and no chunk is decoded without the resets it needs. */
  lemma {:induction false} DecodeMoves(m: Machine, src: seq<byte>, room: nat, mustEnd: bool)
    requires Fit(m) && Sound2(m) && Decode2(m, src, room, mustEnd).Stop2?
    ensures var r := Decode2(m, src, room, mustEnd);
            Fit(r.m) && Moved(m, src, room, r.m, r.rest, r.room)
    decreases |src|, room, Working(m)
  {
    hide Fit, Consistent, Turn2, Ends;
    if m.f.state != Finished {
      var t := Turn2(m, src, room, mustEnd);
      TurnMoves(m, src, room, mustEnd);
      if t.Goes? {
        TurnGoes(m, src, room, mustEnd);
        DecodeMoves(t.m, t.rest, t.room, mustEnd);
      } else {
        TurnHalts(m, src, room, mustEnd);
      }
    }
  }

  lemma TurnHalts(m: Machine, src: seq<byte>, room: nat, mustEnd: bool)
    requires Fit(m) && m.f.state != Finished && Turn2(m, src, room, mustEnd).Halts?
    ensures Fit(Turn2(m, src, room, mustEnd).m)
  {
    hide NumProbs, PackedResult, Decode;
    if m.f.state == Data || m.f.state == DataCont {
      StartedValid(m);
    }
  }

  /** Only a decoder that has seen the end says so; only one within an LZMA chunk asks for input with its output full. */
  lemma {:induction false} StatusMeans(m: Machine, src: seq<byte>, room: nat, mustEnd: bool)
    requires Fit(m) && Decode2(m, src, room, mustEnd).Stop2?
    ensures var r := Decode2(m, src, room, mustEnd);
            && (r.status == FinishedWithMark <==> r.m.f.state == Finished)
            && (r.status == NeedsMoreInput && r.room == 0 && !mustEnd ==> r.m.f.state == DataCont)
    decreases |src|, room, Working(m)
  {
    hide Fit, Turn2;
    if m.f.state != Finished {
      var t := Turn2(m, src, room, mustEnd);
      if t.Goes? {
        TurnGoes(m, src, room, mustEnd);
        StatusMeans(t.m, t.rest, t.room, mustEnd);
      } else {
        HaltMeans(m, src, room, mustEnd);
      }
    }
  }

  lemma HaltMeans(m: Machine, src: seq<byte>, room: nat, mustEnd: bool)
    requires Fit(m) && m.f.state != Finished && Turn2(m, src, room, mustEnd).Halts?
    ensures var t := Turn2(m, src, room, mustEnd);
            && t.status != FinishedWithMark && t.m.f.state != Finished
            && (t.status == NeedsMoreInput && t.room == 0 && !mustEnd ==> t.m.f.state == DataCont)
  {
    hide Fit, RawTurn, PackedResult, ValidCore;
    if m.f.state == Data || m.f.state == DataCont {
      StartedValid(m);
    }
  }

  /** One call: new input, the output there is room for, and whether it must end there. */
  datatype Ask2 = Ask2(piece: seq<byte>, room: nat, mustEnd: bool)

  function Offered2(asks: seq<Ask2>): seq<byte> {
    if asks == [] then [] else asks[0].piece + Offered2(asks[1..])
  }

  /** A series of calls of any kind, as long as none finds an error. */
  ghost function Series2(m: Machine, src: seq<byte>, asks: seq<Ask2>): Result2
    requires Fit(m) && asks != []
    decreases |asks|
  {
    var r := Decode2(m, src + asks[0].piece, asks[0].room, asks[0].mustEnd);
    if r.DataError2? || |asks| == 1 then r
    else
      DecodeFits(m, src + asks[0].piece, asks[0].room, asks[0].mustEnd);
      Series2(r.m, r.rest, asks[1..])
  }

  lemma {:induction false} SeriesMoves(m: Machine, src: seq<byte>, asks: seq<Ask2>)
    requires Fit(m) && Sound2(m) && asks != [] && Series2(m, src, asks).Stop2?
    ensures var r := Series2(m, src, asks);
            && Fit(r.m) && Sound2(r.m) && m.f.read + (src + Offered2(asks)) == r.m.f.read + r.rest
            && m.f.out <= r.m.f.out && (r.status == FinishedWithMark <==> r.m.f.state == Finished)
    decreases |asks|
  {
    hide Fit, Sound2, Decode2;
    var a, tail := asks[0], Offered2(asks[1..]);
    var r := Decode2(m, src + a.piece, a.room, a.mustEnd);
    DecodeMoves(m, src + a.piece, a.room, a.mustEnd);
    if |asks| == 1 {
      assert tail == [] && src + Offered2(asks) == src + a.piece;
      StatusMeans(m, src + a.piece, a.room, a.mustEnd);
    } else {
      SeriesMoves(r.m, r.rest, asks[1..]);
      assert m.f.read + (src + Offered2(asks)) == m.f.read + (src + a.piece) + tail;
      assert r.m.f.read + r.rest + tail == r.m.f.read + (r.rest + tail);
    }
  }

  /** A whole stream, over any series of calls: what is read is chunks and a zero byte, what is written is as long as
      they declare, and the chunks are legal. */
  lemma WholeStream(m: Machine, asks: seq<Ask2>)
    requires Fit(m) && m.f == Initial() && m.c.hist == [] && asks != []
    requires Series2(m, [], asks).Stop2? && Series2(m, [], asks).status == FinishedWithMark
    ensures var r := Series2(m, [], asks); var f := r.m.f;
            && Offered2(asks) == f.read + r.rest && |f.read| == Taken(f.log) + 1 && |f.out| == Given(f.log)
            && f.read[Taken(f.log)] == 0
            && Framed(f.read, f.log) && Stored(f.read, f.out, f.log) && AllLegal(f.log)
  {
    hide Fit, Series2, Consistent, Framed, Stored, AllLegal, Taken, Given;
    InitialConsistent();
    SeriesMoves(m, [], asks);
    assert m.f.read + ([] + Offered2(asks)) == Offered2(asks);
    AtEnd(Series2(m, [], asks).m.f);
  }

  // ----- Cutting the input ------------------------------------------------------------------------------

  ghost function Limit(m: Machine, room: nat): nat {
    |m.c.hist| + Min(m.f.unpackSize, room)
  }

  /** A chunk that has all its data sees nothing of the input that follows. */
  lemma ResultSame(m: Machine, src: seq<byte>, more: seq<byte>, room: nat)
    requires ValidCore(m.c) && |src| >= m.f.packSize
    ensures PackedResult(m, src + more, room) == PackedResult(m, src, room)
  {
    hide Decode, ValidCore;
    assert (src + more)[..m.f.packSize] == src[..m.f.packSize];
  }

  /** The part of the new input that belongs to the chunk. */
  function Part(m: Machine, src: seq<byte>, more: seq<byte>): seq<byte>
    requires |src| <= m.f.packSize
  {
    more[..Min(|more|, m.f.packSize - |src|)]
  }

  lemma ResultFed(m: Machine, src: seq<byte>, more: seq<byte>, room: nat)
    requires ValidCore(m.c) && |src| < m.f.packSize
    ensures PackedResult(m, src + more, room)
         == Resumed(PackedResult(m, src, room), Part(m, src, more), Limit(m, room), m.f.unpackSize <= room)
  {
    hide Decode, ValidCore, Resumed;
    var x := Part(m, src, more);
    assert (src + more)[..Min(|src + more|, m.f.packSize)] == src + x && src[..|src|] == src;
    assert m.pending + (src + x) == m.pending + src + x;
    DecodeFed(m.c, m.pending + src, x, Limit(m, room), m.f.unpackSize <= room);
  }

  ghost predicate Fed(t: Turned, more: seq<byte>, t': Turned) {
    && (t.Fails? ==> t'.Fails?)
    && (t.Goes? ==> t' == Goes(t.m, t.rest + more, t.room))
    && (t.Halts? ==> ValidCore(t.m.c) && t' == PackedTurn(t.m, t.rest + more, t.room))
  }

  /** The bookkeeping of a stop does not depend on input that is not used. */
  lemma TakenSame(rest: seq<byte>, n: nat, status: Status, x: seq<byte>)
    requires status != NeedsMoreInput
    ensures TakenOf(rest + x, n + |x|, status) == TakenOf(rest, n, status)
    ensures KeptOf(rest + x, n + |x|, status) == KeptOf(rest, n, status)
  {
    if |rest| > n {
      assert (rest + x)[..|rest| - n] == rest[..|rest| - n];
    }
  }

  lemma Prefix(src: seq<byte>, more: seq<byte>, k: nat)
    requires k <= |src|
    ensures (src + more)[..k] == src[..k] && (src + more)[k..] == src[k..] + more
  {
  }

  lemma ResultStopped(m: Machine, src: seq<byte>, more: seq<byte>, room: nat)
    requires ValidCore(m.c) && |src| < m.f.packSize
    requires PackedResult(m, src, room).Stop? && PackedResult(m, src, room).status != NeedsMoreInput
    ensures var r := PackedResult(m, src, room);
            PackedResult(m, src + more, room) == Stop(r.c, r.rest + Part(m, src, more), r.status)
  {
    hide Loop, Decode, ValidCore;
    var r, x := PackedResult(m, src, room), Part(m, src, more);
    ResultFed(m, src, more, room);
    assert src[..|src|] == src;
    DecodeStopKept(m.c, m.pending + src, Limit(m, room), m.f.unpackSize <= room, r.rest + x);
  }

  lemma StoppedFed(m: Machine, src: seq<byte>, more: seq<byte>, room: nat)
    requires ValidCore(m.c) && |src| < m.f.packSize
    requires PackedResult(m, src, room).Stop? && PackedResult(m, src, room).status != NeedsMoreInput
    ensures Fed(PackedTurn(m, src, room), more, PackedTurn(m, src + more, room))
  {
    hide PackedResult, ValidCore, KeptOf, TakenOf, AfterPacked;
    var r := PackedResult(m, src, room);
    ResultStopped(m, src, more, room);
    TakenSame(r.rest, |src|, r.status, Part(m, src, more));
    Prefix(src, more, TakenOf(r.rest, |src|, r.status));
  }

  lemma NextComposed(m: Machine, src: seq<byte>, c: Core, kept: seq<byte>, more: seq<byte>, k: nat, c': Core, kept': seq<byte>)
    requires |src| <= m.f.packSize && m.c.hist <= c.hist && |c.hist| <= |m.c.hist| + m.f.unpackSize
    requires c.hist <= c'.hist && |c'.hist| <= |m.c.hist| + m.f.unpackSize
    requires k <= |more| && |src| + k <= m.f.packSize
    ensures PackedNext(PackedNext(m, src, |src|, c, kept), more, k, c', kept') == PackedNext(m, src + more, |src| + k, c', kept')
  {
    assert (src + more)[..|src| + k] == src + more[..k] && src[..|src|] == src;
    assert c'.hist[|m.c.hist|..] == c.hist[|m.c.hist|..] + c'.hist[|c.hist|..];
    assert m.f.read + (src + more[..k]) == m.f.read + src + more[..k];
    assert m.f.out + c'.hist[|m.c.hist|..] == m.f.out + c.hist[|m.c.hist|..] + c'.hist[|c.hist|..];
  }

  ghost predicate Starving(m: Machine, src: seq<byte>, room: nat)
    requires ValidCore(m.c)
  {
    |src| < m.f.packSize && PackedResult(m, src, room).Stop? && PackedResult(m, src, room).status == NeedsMoreInput
  }

  lemma ResultStarving(m: Machine, src: seq<byte>, more: seq<byte>, room: nat)
    requires ValidCore(m.c) && Starving(m, src, room)
    ensures var r := PackedResult(m, src, room); var m1 := PackedNext(m, src, |src|, r.c, r.rest);
            var r1 := PackedResult(m1, more, room - (|r.c.hist| - |m.c.hist|));
            && r1 == PackedResult(m, src + more, room)
            && (r1.Stop? && r1.status != NeedsMoreInput ==> |r1.rest| < |Part(m, src, more)|)
  {
    hide Loop, Decode, ValidCore;
    var r, x := PackedResult(m, src, room), Part(m, src, more);
    ResultFed(m, src, more, room);
    assert src[..|src|] == src;
    DecodeNeedsMore(m.c, m.pending + src, Limit(m, room), m.f.unpackSize <= room);
    DecodeLoop(r.c, r.rest + x, Limit(m, room), m.f.unpackSize <= room);
    ResumedShorter(r, x, Limit(m, room), m.f.unpackSize <= room);
  }

  lemma ResumedShorter(r: Result, x: seq<byte>, l: nat, end: bool)
    requires r.Stop? && Hungry(r, l, end)
    ensures var r' := Resumed(r, x, l, end);
            r'.Stop? && r'.status != NeedsMoreInput ==> |r'.rest| < |x|
  {
    hide Loop, ValidCore;
    var r' := Loop(r.c, r.rest + x, l, end);
    if r'.Stop? && r'.status != NeedsMoreInput {
      KeptUsedUp(r, x, l, end);
    }
  }

  lemma TakenAll(rest: seq<byte>, n: nat)
    ensures TakenOf(rest, n, NeedsMoreInput) == n && KeptOf(rest, n, NeedsMoreInput) == rest
  {
  }

  lemma TakenMore(rest: seq<byte>, n: nat, x: nat, status: Status)
    requires status != NeedsMoreInput ==> |rest| < x
    ensures TakenOf(rest, n + x, status) == n + TakenOf(rest, x, status)
    ensures KeptOf(rest, n + x, status) == KeptOf(rest, x, status)
    ensures status != NeedsMoreInput ==> TakenOf(rest, x, status) > 0
  {
  }

  /** The same end, reached over a pause. */
  lemma TurnComposed(m: Machine, src: seq<byte>, more: seq<byte>, room: nat, r: Result, r1: Result)
    requires |src| < m.f.packSize && r.Stop? && r1.Stop?
    requires m.c.hist <= r.c.hist <= r1.c.hist && |r1.c.hist| - |m.c.hist| <= Min(m.f.unpackSize, room)
    requires r1.status != NeedsMoreInput ==> |r1.rest| < |Part(m, src, more)|
    ensures var m1 := PackedNext(m, src, |src|, r.c, r.rest);
            TurnOf(m1, more, room - (|r.c.hist| - |m.c.hist|), r1) == TurnOf(m, src + more, room, r1)
  {
    hide PackedNext, TakenOf, KeptOf;
    var x := Part(m, src, more);
    var k := TakenOf(r1.rest, |x|, r1.status);
    NextSizes(m, src, r);
    TakenMore(r1.rest, |src|, |x|, r1.status);
    assert (src + more)[|src| + k..] == more[k..];
    NextComposed(m, src, r.c, r.rest, more, k, r1.c, KeptOf(r1.rest, |x|, r1.status));
  }

  lemma StarvingFed(m: Machine, src: seq<byte>, more: seq<byte>, room: nat)
    requires ValidCore(m.c) && Starving(m, src, room) && m.f.state == DataCont
    ensures Fed(PackedTurn(m, src, room), more, PackedTurn(m, src + more, room))
  {
    hide PackedResult, ValidCore, PackedNext, TakenOf, KeptOf, Part;
    var r := PackedResult(m, src, room);
    TakenAll(r.rest, |src|);
    NextSizes(m, src, r);
    ResultStarving(m, src, more, room);
    assert src[|src|..] + more == more;
    var r1 := PackedResult(m, src + more, room);
    if r1.Stop? {
      ResultGrows(m, src, more, room);
      TurnComposed(m, src, more, room, r, r1);
    }
  }

  lemma ResultGrows(m: Machine, src: seq<byte>, more: seq<byte>, room: nat)
    requires ValidCore(m.c) && Starving(m, src, room) && PackedResult(m, src + more, room).Stop?
    ensures PackedResult(m, src, room).c.hist <= PackedResult(m, src + more, room).c.hist
  {
    hide PackedResult, ValidCore;
    NextSizes(m, src, PackedResult(m, src, room));
    ResultStarving(m, src, more, room);
  }

  lemma NextSizes(m: Machine, src: seq<byte>, r: Result)
    requires r.Stop? && |src| <= m.f.packSize && m.c.hist <= r.c.hist && |r.c.hist| - |m.c.hist| <= m.f.unpackSize
    ensures var f := PackedNext(m, src, |src|, r.c, r.rest).f;
            && f.packSize == m.f.packSize - |src| && f.unpackSize == m.f.unpackSize - (|r.c.hist| - |m.c.hist|)
            && f.state == m.f.state && f.control == m.f.control && PackedNext(m, src, |src|, r.c, r.rest).c == r.c
  {
  }

  /** A chunk that has had all its data and needs more stays as it is. */
  lemma FullFed(m: Machine, src: seq<byte>, more: seq<byte>, room: nat)
    requires ValidCore(m.c) && |src| >= m.f.packSize && m.f.state == DataCont
    ensures Fed(PackedTurn(m, src, room), more, PackedTurn(m, src + more, room))
  {
    hide Decode, ValidCore, AfterPacked;
    ResultSame(m, src, more, room);
    var r, n := PackedResult(m, src, room), m.f.packSize;
    if r.Stop? {
      Prefix(src, more, TakenOf(r.rest, n, r.status));
      if r.status == NeedsMoreInput {
        var m1, rest, room1 := PackedNext(m, src, n, r.c, r.rest), src[n..] + more, room - (|r.c.hist| - |m.c.hist|);
        NextSizes(m, src[..n], r);
        assert src[..n][..n] == src[..n];
        NextNothing(m, src, n, r);
        DecodeAgain(m.c, m.pending + src[..n], Limit(m, room), m.f.unpackSize <= room);
        assert r.rest + rest[..0] == r.rest;
        assert PackedResult(m1, rest, room1) == r;
        assert rest[0..] == rest;
      }
    }
  }

  lemma NextNothing(m: Machine, src: seq<byte>, n: nat, r: Result)
    requires n <= |src| && n <= m.f.packSize && r.Stop? && m.c.hist <= r.c.hist && |r.c.hist| - |m.c.hist| <= m.f.unpackSize
    ensures var m1 := PackedNext(m, src, n, r.c, r.rest);
            forall s: seq<byte> :: PackedNext(m1, s, 0, r.c, r.rest) == m1
  {
    var m1 := PackedNext(m, src, n, r.c, r.rest);
    assert r.c.hist[|r.c.hist|..] == [] && m1.f.out + [] == m1.f.out && m1.f.read + [] == m1.f.read;
    forall s: seq<byte>
      ensures PackedNext(m1, s, 0, r.c, r.rest) == m1
    {
      assert s[..0] == [];
    }
  }

  lemma PackedFed(m: Machine, src: seq<byte>, more: seq<byte>, room: nat)
    requires ValidCore(m.c) && m.f.state == DataCont
    ensures Fed(PackedTurn(m, src, room), more, PackedTurn(m, src + more, room))
  {
    hide PackedResult, ValidCore, PackedTurn;
    if |src| >= m.f.packSize {
      FullFed(m, src, more, room);
    } else if PackedResult(m, src, room).DataError? {
      WrongFed(m, src, more, room);
    } else if PackedResult(m, src, room).status == NeedsMoreInput {
      StarvingFed(m, src, more, room);
    } else {
      StoppedFed(m, src, more, room);
    }
  }

  lemma WrongFed(m: Machine, src: seq<byte>, more: seq<byte>, room: nat)
    requires ValidCore(m.c) && |src| < m.f.packSize && PackedResult(m, src, room).DataError?
    ensures Fed(PackedTurn(m, src, room), more, PackedTurn(m, src + more, room))
  {
    hide PackedResult, ValidCore;
    ResultFed(m, src, more, room);
  }

  /** What a turn does on more input: what it did and the rest after it. */
  ghost predicate Goes2(m: Machine, src: seq<byte>, more: seq<byte>, room: nat, mustEnd: bool)
    requires Fit(m) && m.f.state != Finished && Turn2(m, src, room, mustEnd).Goes?
  {
    var t := Turn2(m, src, room, mustEnd);
    && Fit(t.m)
    && Decode2(m, src + more, room, mustEnd) == Decode2(t.m, t.rest + more, t.room, mustEnd)
  }

  lemma AfterTurn(m: Machine, src: seq<byte>, room: nat, mustEnd: bool)
    requires Fit(m) && m.f.state != Finished && Turn2(m, src, room, mustEnd).Goes?
    ensures var t := Turn2(m, src, room, mustEnd);
            Fit(t.m) && Decode2(m, src, room, mustEnd) == Decode2(t.m, t.rest, t.room, mustEnd)
  {
    hide Fit, Turn2;
    TurnGoes(m, src, room, mustEnd);
  }

  lemma RawAppends(f: Frame, s: seq<byte>, x: seq<byte>)
    requires f.state == DataCont && |s| < f.unpackSize && |s| + |x| <= f.unpackSize
    ensures AfterRaw(AfterRaw(f, s), x) == AfterRaw(f, s + x)
    ensures var g := AfterRaw(f, s); g.state == DataCont && g.control == f.control && g.unpackSize == f.unpackSize - |s|
  {
    assert f.read + (s + x) == f.read + s + x && f.out + (s + x) == f.out + s + x;
  }

  lemma RawComposed(m: Machine, src: seq<byte>, more: seq<byte>, room: nat)
    requires m.f.state == DataCont && Plain(m.f.control)
    requires 0 < |src| < Min(m.f.unpackSize, room) && more != []
    ensures var t := RawTurn(m, src, room);
            && t.Goes? && t.rest == [] && t.m.f.state == DataCont && t.m.f.control == m.f.control && t.room > 0
            && RawTurn(m, src + more, room) == RawTurn(t.m, more, t.room)
  {
    hide AfterRaw;
    var n := Min(|src + more|, Min(m.f.unpackSize, room));
    var x := more[..n - |src|];
    assert (src + more)[..n] == src + x && src[..|src|] == src && (src + more)[n..] == more[n - |src|..];
    RawAppends(m.f, src, x);
    assert m.c.hist + (src + x) == m.c.hist + src + x;
  }

  lemma RawSame(m: Machine, src: seq<byte>, more: seq<byte>, room: nat)
    requires |src| >= Min(m.f.unpackSize, room)
    ensures var t, t' := RawTurn(m, src, room), RawTurn(m, src + more, room);
            t' == if t.Goes? then Goes(t.m, t.rest + more, t.room) else Fails
  {
    Prefix(src, more, Min(m.f.unpackSize, room));
  }

  lemma RawFed(m: Machine, src: seq<byte>, more: seq<byte>, room: nat, mustEnd: bool)
    requires Fit(m) && (m.f.state == Data || m.f.state == DataCont) && Plain(m.f.control)
    requires Turn2(m, src, room, mustEnd).Goes?
    ensures Goes2(m, src, more, room, mustEnd)
  {
    hide Fit, RawTurn, PackedTurn, AfterRaw, AfterPacked;
    StartedValid(m);
    AfterTurn(m, src, room, mustEnd);
    var t := Turn2(m, src, room, mustEnd);
    if |src| >= Min(m.f.unpackSize, room) {
      RawSame(Started(m), src, more, room);
      AfterTurn(m, src + more, room, mustEnd);
    } else if more == [] {
      assert src + more == src && t.rest + more == t.rest;
    } else {
      RawComposed(Started(m), src, more, room);
      assert [] + more == more;
      assert Turn2(m, src + more, room, mustEnd) == Turn2(t.m, more, t.room, mustEnd);
      SameTurn(m, src + more, room, t.m, more, t.room, mustEnd);
    }
  }

  lemma SameTurn(m: Machine, src: seq<byte>, room: nat, m': Machine, src': seq<byte>, room': nat, mustEnd: bool)
    requires Fit(m) && Fit(m') && m.f.state != Finished && m'.f.state != Finished
    requires Turn2(m, src, room, mustEnd) == Turn2(m', src', room', mustEnd)
    ensures Decode2(m, src, room, mustEnd) == Decode2(m', src', room', mustEnd)
  {
    hide Fit, Turn2;
  }

  lemma GoesFed(m: Machine, src: seq<byte>, more: seq<byte>, room: nat, mustEnd: bool)
    requires Fit(m) && m.f.state != Finished && Turn2(m, src, room, mustEnd).Goes?
    ensures Goes2(m, src, more, room, mustEnd)
  {
    hide Fit, RawTurn, PackedTurn, HeaderTurn;
    if InHeader(m.f.state) {
      AfterTurn(m, src, room, mustEnd);
      Prefix(src, more, 1);
      AfterTurn(m, src + more, room, mustEnd);
    } else if Plain(m.f.control) {
      RawFed(m, src, more, room, mustEnd);
    } else {
      StartedValid(m);
      AfterTurn(m, src, room, mustEnd);
      PackedFed(Started(m), src, more, room);
      AfterTurn(m, src + more, room, mustEnd);
    }
  }

  /** With its output full and no end asked for, a decoder that needs input is one that will not look at it. */
  predicate Resumes(r: Result2, mustEnd: bool) {
    r.Stop2? && r.status == NeedsMoreInput ==> mustEnd || r.room > 0
  }

  ghost function Resumed2(r: Result2, more: seq<byte>, mustEnd: bool): Result2
    requires r.Stop2? ==> Fit(r.m)
  {
    if r.DataError2? then DataError2 else Decode2(r.m, r.rest + more, r.room, mustEnd)
  }

  lemma HaltsFed(m: Machine, src: seq<byte>, more: seq<byte>, room: nat, mustEnd: bool)
    requires Fit(m) && m.f.state != Finished && !Turn2(m, src, room, mustEnd).Goes?
    requires Resumes(Decode2(m, src, room, mustEnd), mustEnd)
    ensures Decode2(m, src, room, mustEnd).Stop2? ==> Fit(Decode2(m, src, room, mustEnd).m)
    ensures Decode2(m, src + more, room, mustEnd) == Resumed2(Decode2(m, src, room, mustEnd), more, mustEnd)
  {
    hide Fit, PackedTurn, HeaderTurn;
    var t := Turn2(m, src, room, mustEnd);
    if t.Halts? {
      TurnHalts(m, src, room, mustEnd);
    }
    if (m.f.state == DataCont || (m.f.state == Data && !Refused(m.f))) && !(room == 0 && !mustEnd) {
      StartedValid(m);
      if !Plain(m.f.control) {
        PackedFed(Started(m), src, more, room);
        if t.Halts? {
          PackedHalts(Started(m), src, room);
          SameTurn(m, src + more, room, t.m, t.rest + more, t.room, mustEnd);
        }
      } else if src != [] {
        RawSame(Started(m), src, more, room);
      }
    }
  }

  lemma PackedHalts(m: Machine, src: seq<byte>, room: nat)
    requires ValidCore(m.c) && m.f.state == DataCont && PackedTurn(m, src, room).Halts?
    ensures var t := PackedTurn(m, src, room);
            t.m.f.state == DataCont && t.m.f.control == m.f.control && t.status == NeedsMoreInput
  {
    hide PackedResult, ValidCore;
  }

  lemma {:induction false} DecodeGoesOn(m: Machine, src: seq<byte>, more: seq<byte>, room: nat, mustEnd: bool)
    requires Fit(m) && Resumes(Decode2(m, src, room, mustEnd), mustEnd)
    ensures Decode2(m, src, room, mustEnd).Stop2? ==> Fit(Decode2(m, src, room, mustEnd).m)
    ensures Decode2(m, src + more, room, mustEnd) == Resumed2(Decode2(m, src, room, mustEnd), more, mustEnd)
    decreases |src|, room, Working(m)
  {
    hide Fit, Turn2;
    if m.f.state != Finished {
      var t := Turn2(m, src, room, mustEnd);
      if t.Goes? {
        TurnGoes(m, src, room, mustEnd);
        GoesFed(m, src, more, room, mustEnd);
        DecodeGoesOn(t.m, t.rest, more, t.room, mustEnd);
      } else {
        HaltsFed(m, src, more, room, mustEnd);
      }
    }
  }

  /** Where a call stops that asks for input with its output full, one with more input does not stop. */
  lemma HaltsDiffers(m: Machine, src: seq<byte>, more: seq<byte>, room: nat)
    requires Fit(m) && m.f.state != Finished && Turn2(m, src, room, false).Halts?
    requires Turn2(m, src, room, false).status == NeedsMoreInput && Turn2(m, src, room, false).room == 0
    ensures var t := Turn2(m, src, room, false);
            Decode2(m, src + more, room, false) != Stop2(t.m, t.rest + more, 0, NotFinished)
  {
    hide Fit, RawTurn, PackedTurn, HeaderTurn;
    StartedValid(m);
    var t, t' := Turn2(m, src, room, false), Turn2(m, src + more, room, false);
    PackedFed(Started(m), src, more, room);
    PackedHalts(Started(m), src, room);
    DecodeTurn(m, src + more, room, false);
    if t'.Goes? {
      FullGoes(t.m, t.rest + more);
      DecodeFull(t'.m, t'.rest);
    } else if t'.Halts? {
      PackedHalts(t.m, t.rest + more, 0);
    }
  }

  lemma FullGoes(m: Machine, src: seq<byte>)
    requires ValidCore(m.c) && m.f.state == DataCont && !Plain(m.f.control) && PackedTurn(m, src, 0).Goes?
    ensures var t := PackedTurn(m, src, 0);
            t.room == 0 && (|t.rest| < |src| || t.m.f.state != DataCont)
  {
    hide PackedResult, ValidCore;
  }

  lemma DecodeFull(m: Machine, src: seq<byte>)
    requires Fit(m)
    ensures var r := Decode2(m, src, 0, false);
            r.Stop2? && r.status == NotFinished ==> r == Stop2(m, src, 0, NotFinished)
  {
    hide Fit, DataTurn;
  }

  lemma {:induction false} DecodeDiffers(m: Machine, src: seq<byte>, more: seq<byte>, room: nat)
    requires Fit(m) && Decode2(m, src, room, false).Stop2? && !Resumes(Decode2(m, src, room, false), false)
    ensures var r := Decode2(m, src, room, false);
            Decode2(m, src + more, room, false) != Stop2(r.m, r.rest + more, 0, NotFinished)
    decreases |src|, room, Working(m)
  {
    hide Fit, Turn2;
    var t := Turn2(m, src, room, false);
    if t.Goes? {
      TurnGoes(m, src, room, false);
      GoesFed(m, src, more, room, false);
      DecodeDiffers(t.m, t.rest, more, t.room);
    } else {
      HaltsDiffers(m, src, more, room);
    }
  }

  /** A call that is given more input goes on where it stopped, if and only if it did not ask for input with its
      output full. */
  lemma DecodeFed2(m: Machine, src: seq<byte>, more: seq<byte>, room: nat, mustEnd: bool)
    requires Fit(m)
    ensures Decode2(m, src, room, mustEnd).Stop2? ==> Fit(Decode2(m, src, room, mustEnd).m)
    ensures Decode2(m, src + more, room, mustEnd) == Resumed2(Decode2(m, src, room, mustEnd), more, mustEnd)
       <==> Resumes(Decode2(m, src, room, mustEnd), mustEnd)
  {
    hide Fit, Decode2;
    var r := Decode2(m, src, room, mustEnd);
    if Resumes(r, mustEnd) {
      DecodeGoesOn(m, src, more, room, mustEnd);
    } else {
      FullStays(m, src, more, room);
      DecodeDiffers(m, src, more, room);
    }
  }

  lemma {:induction false} DecodeFits(m: Machine, src: seq<byte>, room: nat, mustEnd: bool)
    requires Fit(m) && Decode2(m, src, room, mustEnd).Stop2?
    ensures Fit(Decode2(m, src, room, mustEnd).m)
    decreases |src|, room, Working(m)
  {
    hide Fit, Turn2;
    if m.f.state != Finished {
      var t := Turn2(m, src, room, mustEnd);
      if t.Goes? {
        TurnGoes(m, src, room, mustEnd);
        DecodeFits(t.m, t.rest, t.room, mustEnd);
      } else {
        TurnHalts(m, src, room, mustEnd);
      }
    }
  }

  /** A series of calls, each offered what is unread so far and a new piece. */
  ghost function Calls2(m: Machine, src: seq<byte>, pieces: seq<seq<byte>>, room: nat, mustEnd: bool): Result2
    requires Fit(m) && pieces != []
    decreases |pieces|
  {
    var r := Decode2(m, src + pieces[0], room, mustEnd);
    if r.DataError2? || |pieces| == 1 then r
    else
      DecodeFits(m, src + pieces[0], room, mustEnd);
      Calls2(r.m, r.rest, pieces[1..], r.room, mustEnd)
  }

  /** No call but the last asks for input with its output full. */
  ghost predicate NeverFull(m: Machine, src: seq<byte>, pieces: seq<seq<byte>>, room: nat, mustEnd: bool)
    requires Fit(m) && pieces != []
    decreases |pieces|
  {
    |pieces| > 1 ==>
      var r := Decode2(m, src + pieces[0], room, mustEnd);
      if r.DataError2? || !Resumes(r, mustEnd) then r.DataError2?
      else
        DecodeFits(m, src + pieces[0], room, mustEnd);
        NeverFull(r.m, r.rest, pieces[1..], r.room, mustEnd)
  }

  /** Input may be cut anywhere, also within a chunk or a header, just when that does not happen. */
  lemma {:induction false} InputCut2(m: Machine, src: seq<byte>, pieces: seq<seq<byte>>, room: nat, mustEnd: bool)
    requires Fit(m) && pieces != []
    ensures Calls2(m, src, pieces, room, mustEnd) == Decode2(m, src + Joined(pieces), room, mustEnd)
       <==> NeverFull(m, src, pieces, room, mustEnd)
    decreases |pieces|
  {
    hide Fit, Decode2;
    var r, tail := Decode2(m, src + pieces[0], room, mustEnd), Joined(pieces[1..]);
    assert src + Joined(pieces) == src + pieces[0] + tail;
    if |pieces| == 1 {
      assert tail == [] && src + Joined(pieces) == src + pieces[0];
    } else {
      DecodeFed2(m, src + pieces[0], tail, room, mustEnd);
      if r.Stop2? {
        if Resumes(r, mustEnd) {
          InputCut2(r.m, r.rest, pieces[1..], r.room, mustEnd);
        } else {
          CallsFull(m, src, pieces, room, mustEnd);
        }
      }
    }
  }

  lemma CallsFull(m: Machine, src: seq<byte>, pieces: seq<seq<byte>>, room: nat, mustEnd: bool)
    requires Fit(m) && |pieces| > 1 && !Resumes(Decode2(m, src + pieces[0], room, mustEnd), mustEnd)
    ensures var r := Decode2(m, src + pieces[0], room, mustEnd);
            Fit(r.m) && Calls2(m, src, pieces, room, mustEnd) == Resumed2(r, Joined(pieces[1..]), mustEnd)
  {
    hide Fit, Decode2;
    StatusMeans(m, src + pieces[0], room, false);
    DecodeFits(m, src + pieces[0], room, false);
    var r := Decode2(m, src + pieces[0], room, mustEnd);
    FullStays(m, src + pieces[0], Joined(pieces[1..]), room);
    StillFull(r.m, r.rest, pieces[1..]);
  }

  lemma {:induction false} StillFull(m: Machine, src: seq<byte>, pieces: seq<seq<byte>>)
    requires Fit(m) && m.f.state == DataCont && pieces != []
    ensures Calls2(m, src, pieces, 0, false) == Stop2(m, src + Joined(pieces), 0, NotFinished)
    decreases |pieces|
  {
    hide Fit, DataTurn;
    if |pieces| == 1 {
      assert Joined(pieces[1..]) == [] && Joined(pieces) == pieces[0];
    } else {
      StillFull(m, src + pieces[0], pieces[1..]);
      assert src + Joined(pieces) == src + pieces[0] + Joined(pieces[1..]);
    }
  }

  /** Calls that must end at their limit may have their input cut anywhere. */
  lemma {:induction false} InputCutEnd(m: Machine, src: seq<byte>, pieces: seq<seq<byte>>, room: nat)
    requires Fit(m) && pieces != []
    ensures NeverFull(m, src, pieces, room, true)
    ensures Calls2(m, src, pieces, room, true) == Decode2(m, src + Joined(pieces), room, true)
    decreases |pieces|
  {
    hide Fit, Decode2;
    var r := Decode2(m, src + pieces[0], room, true);
    if |pieces| > 1 && r.Stop2? {
      DecodeFits(m, src + pieces[0], room, true);
      InputCutEnd(r.m, r.rest, pieces[1..], r.room);
    }
    InputCut2(m, src, pieces, room, true);
  }

  /** The other calls differ only here: a decoder whose output is full does not look at the input it asked for. */
  lemma FullStays(m: Machine, src: seq<byte>, more: seq<byte>, room: nat)
    requires Fit(m) && Decode2(m, src, room, false).Stop2? && !Resumes(Decode2(m, src, room, false), false)
    ensures var r := Decode2(m, src, room, false);
            Fit(r.m) && Decode2(r.m, r.rest + more, r.room, false) == Stop2(r.m, r.rest + more, 0, NotFinished)
  {
    hide Fit, DataTurn;
    StatusMeans(m, src, room, false);
    DecodeFits(m, src, room, false);
  }
}
