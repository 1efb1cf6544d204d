/**
  What a chunk brings with it, over whole runs: the properties in use are those of the last property byte, and state and
  dictionary are reset by the chunks that say so.
*/
module Lzma2Props {
  import opened Words
  import opened LzmaSymbol
  import opened LzmaStream
  import opened LzmaFacts
  import opened Lzma2Chunks
  import opened Lzma2Stream

  /** The byte that packs lc, lp and pb. */
  predicate Packs(p: Props, b: byte) {
    b as int == (p.pb * 5 + p.lp) * 9 + p.lc && p.lc < 9 && p.lp < 5
  }

  /** An accepted property byte sets what it packs. The dictionary size stays. */
  lemma WithPropPacks(p: Props, b: byte)
    ensures AcceptedProp(b) ==> Packs(WithProp(p, b), b) && WithProp(p, b).lc + WithProp(p, b).lp <= 4
    ensures WithProp(p, b).dicSize == p.dicSize
  {
    var q := b as int / 9;
    assert b as int == q * 9 + b as int % 9 && q == q / 5 * 5 + q % 5;
  }

  // ----- The last property byte ------------------------------------------------------------------------------

  predicate SetsProps(c: Chunk) {
    c.Packed? && c.mode >= 2
  }

  /** The property byte of the last chunk that has one. */
  function PropByte(read: seq<byte>, log: seq<Chunk>): Option<byte> {
    if log == [] then None
    else
      var before := log[..|log| - 1];
      if SetsProps(log[|log| - 1]) && Taken(before) + 5 < |read| then Some(read[Taken(before) + 5])
      else PropByte(read, before)
  }

  lemma FramedBefore(read: seq<byte>, log: seq<Chunk>)
    requires Framed(read, log) && log != []
    ensures var before := log[..|log| - 1];
            && Framed(read, before) && (SetsProps(log[|log| - 1]) ==> Taken(before) + 5 < |read|)
  {
    hide Taken;
    var n := |log| - 1;
    var before := log[..n];
    assert Taken(log[..n]) <= |read| && Declares(read[Taken(log[..n])..], log[n]);
    forall i | 0 <= i < n
      ensures Taken(before[..i]) <= |read| && Declares(read[Taken(before[..i])..], before[i])
    {
      assert before[..i] == log[..i] && before[i] == log[i];
    }
  }

  lemma {:induction false} PropByteOn(read: seq<byte>, more: seq<byte>, log: seq<Chunk>)
    requires Framed(read, log)
    ensures PropByte(read + more, log) == PropByte(read, log)
    decreases |log|
  {
    hide Framed, Taken;
    if log != [] {
      FramedBefore(read, log);
      PropByteOn(read, more, log[..|log| - 1]);
    }
  }

  lemma {:induction false} PropByteFound(read: seq<byte>, log: seq<Chunk>)
    requires Framed(read, log) && HasSince(log, 2)
    ensures PropByte(read, log).Some?
    decreases |log|
  {
    hide Framed, Taken;
    FramedBefore(read, log);
    var before := log[..|log| - 1];
    assert log == before + [log[|log| - 1]];
    SinceGrows(before, log[|log| - 1], 2);
    if !SetsProps(log[|log| - 1]) {
      PropByteFound(read, before);
    }
  }

  // ----- Over every run --------------------------------------------------------------------------------------

  /** A property byte has just been read. */
  predicate NewProps(f: Frame) {
    f.state == Data && !Plain(f.control) && Mode(f.control) >= 2
  }

  ghost predicate Propped(m: Machine) {
    if NewProps(m.f) then Taken(m.f.log) + 5 < |m.f.read| && Packs(m.c.props, m.f.read[Taken(m.f.log) + 5])
    else var b := PropByte(m.f.read, m.f.log); b.Some? ==> Packs(m.c.props, b.value)
  }

  /** Within a step the log stays and the input grows. */
  lemma ProppedOn(m: Machine, m': Machine, more: seq<byte>)
    requires Propped(m) && !NewProps(m.f) && !NewProps(m'.f) && Framed(m.f.read, m.f.log)
    requires m'.f.read == m.f.read + more && m'.f.log == m.f.log && m'.c.props == m.c.props
    ensures Propped(m')
  {
    hide PropByte, Packs, Framed, Taken;
    PropByteOn(m.f.read, more, m.f.log);
  }

  lemma SoundFramed(m: Machine)
    requires Sound2(m) && m.f.state != State.Error
    ensures Framed(m.f.read, m.f.log)
  {
    hide Gated, Heading, Framed, Stored, Taken, Given;
  }

  /** A property byte is the sixth of its header. */
  lemma PropPlace(f: Frame)
    requires Consistent(f) && f.state == Prop
    ensures |f.read| == Taken(f.log) + 5
  {
    hide Gated, Heading, Framed, Stored, Taken, Given;
  }

  lemma HeaderProps(m: Machine, b: byte)
    requires Sound2(m) && Propped(m) && InHeader(m.f.state) && HeaderTurn(m, b).f.state != State.Error
    ensures Propped(HeaderTurn(m, b))
  {
    hide Consistent, Framed, Taken, PropByte, Packs, WithProp, AcceptedProp, Ends, Mode;
    SoundFramed(m);
    if m.f.state == Prop {
      PropPlace(m.f);
      WithPropPacks(m.c.props, b);
      PropControl(m.f, b);
    } else {
      NoNewProps(m.f, b);
      ProppedOn(m, HeaderTurn(m, b), [b]);
    }
  }

  lemma PropControl(f: Frame, b: byte)
    requires Consistent(f) && f.state == Prop && AfterByte(f, b).state != State.Error
    ensures AcceptedProp(b) && NewProps(AfterByte(f, b))
  {
    hide Gated, Accounted, Mode, Taken, HeaderSoFar;
  }

  lemma NoNewProps(f: Frame, b: byte)
    requires InHeader(f.state) && f.state != Prop
    ensures !NewProps(f) && !NewProps(AfterByte(f, b))
  {
    hide Mode, Base;
  }

  /** When the data of a chunk begins, its property byte is the last one. */
  lemma StartedProps(m: Machine)
    requires Sound2(m) && Propped(m) && m.f.state == Data && !Refused(m.f)
    ensures Propped(Started(m))
  {
    hide Consistent, Framed, Taken, Packs, Mode, Refused, Ends;
    var c := Announced(m.f);
    var log := m.f.log + [c];
    assert log[..|log| - 1] == m.f.log && log[|log| - 1] == c;
    assert PropByte(m.f.read, log) == if SetsProps(c) && Taken(m.f.log) + 5 < |m.f.read|
                                      then Some(m.f.read[Taken(m.f.log) + 5]) else PropByte(m.f.read, m.f.log);
  }

  lemma RawProps(m: Machine, src: seq<byte>, room: nat)
    requires Sound2(m) && Propped(m) && m.f.state == DataCont && Plain(m.f.control) && RawTurn(m, src, room).Goes?
    ensures Propped(RawTurn(m, src, room).m)
  {
    hide Consistent, Framed, Taken, PropByte, Packs, Ends;
    SoundFramed(m);
    ProppedOn(m, RawTurn(m, src, room).m, src[..Min(|src|, Min(m.f.unpackSize, room))]);
  }

  lemma PackedProps(m: Machine, src: seq<byte>, room: nat)
    requires Sound2(m) && Propped(m) && m.f.state == DataCont && !Plain(m.f.control) && ValidCore(m.c)
    requires !PackedTurn(m, src, room).Fails?
    ensures Propped(PackedTurn(m, src, room).m)
  {
    hide Consistent, Framed, Taken, PropByte, Packs, Ends, PackedResult, ValidCore, KeptOf, TakenOf;
    SoundFramed(m);
    var r := PackedResult(m, src, room);
    var k := TakenOf(r.rest, Min(|src|, m.f.packSize), r.status);
    ProppedOn(m, PackedTurn(m, src, room).m, src[..k]);
  }

  lemma DataProps(m: Machine, src: seq<byte>, room: nat)
    requires Fit(m) && Sound2(m) && Propped(m) && (m.f.state == Data || m.f.state == DataCont)
    requires (m.f.state == Data ==> !Refused(m.f)) && !DataTurn(m, src, room).Fails?
    ensures Propped(DataTurn(m, src, room).m)
  {
    hide Fit, Sound2, Propped, RawTurn, PackedTurn, Plain, Refused;
    StartedValid(m);
    if m.f.state == Data {
      StartedSound(m);
      StartedProps(m);
    }
    if Plain(m.f.control) {
      RawProps(Started(m), src, room);
    } else {
      PackedProps(Started(m), src, room);
    }
  }

  lemma TurnProps(m: Machine, src: seq<byte>, room: nat, mustEnd: bool)
    requires Fit(m) && Sound2(m) && Propped(m) && m.f.state != Finished && !Turn2(m, src, room, mustEnd).Fails?
    requires Turn2(m, src, room, mustEnd).Goes? ==> Turn2(m, src, room, mustEnd).m.f.state != State.Error
    ensures Propped(Turn2(m, src, room, mustEnd).m)
  {
    hide Fit, Sound2, Propped, DataTurn, HeaderTurn, Plain, Refused;
    if room == 0 && !mustEnd {
    } else if InHeader(m.f.state) {
      if src != [] {
        HeaderProps(m, src[0]);
      }
    } else if !(Plain(m.f.control) && src == []) {
      DataProps(m, src, room);
    }
  }

  lemma ErrorFails(m: Machine, src: seq<byte>, room: nat, mustEnd: bool)
    requires Fit(m) && m.f.state == State.Error
    ensures Decode2(m, src, room, mustEnd).DataError2?
  {
    hide Fit;
  }

  /** Every call keeps the properties those of the last property byte. */
  lemma {:induction false} DecodeProps(m: Machine, src: seq<byte>, room: nat, mustEnd: bool)
    requires Fit(m) && Sound2(m) && Propped(m) && Decode2(m, src, room, mustEnd).Stop2?
    ensures Propped(Decode2(m, src, room, mustEnd).m)
    decreases |src|, room, Working(m)
  {
    hide Fit, Sound2, Propped, Turn2;
    if m.f.state != Finished {
      var t := Turn2(m, src, room, mustEnd);
      TurnMoves(m, src, room, mustEnd);
      if t.Goes? {
        TurnGoes(m, src, room, mustEnd);
        if t.m.f.state == State.Error {
          ErrorFails(t.m, t.rest, t.room, mustEnd);
        } else {
          TurnProps(m, src, room, mustEnd);
          MovedSound(m, src, room, t);
          DecodeProps(t.m, t.rest, t.room, mustEnd);
        }
      } else {
        TurnProps(m, src, room, mustEnd);
      }
    }
  }

  lemma MovedSound(m: Machine, src: seq<byte>, room: nat, t: Turned)
    requires !t.Fails? && MovedBy(m, src, room, t)
    ensures Sound2(t.m)
  {
  }

  lemma {:induction false} SeriesProps(m: Machine, src: seq<byte>, asks: seq<Ask2>)
    requires Fit(m) && Sound2(m) && Propped(m) && asks != [] && Series2(m, src, asks).Stop2?
    ensures Propped(Series2(m, src, asks).m) && Sound2(Series2(m, src, asks).m)
    decreases |asks|
  {
    hide Fit, Sound2, Propped, Decode2;
    var a := asks[0];
    DecodeMoves(m, src + a.piece, a.room, a.mustEnd);
    DecodeProps(m, src + a.piece, a.room, a.mustEnd);
    if |asks| > 1 {
      var r := Decode2(m, src + a.piece, a.room, a.mustEnd);
      SeriesProps(r.m, r.rest, asks[1..]);
    }
  }

  lemma Fresh(m: Machine)
    requires m.f == Initial() && m.c.hist == []
    ensures Sound2(m) && Propped(m)
  {
    InitialConsistent();
  }

  lemma PackedSince(f: Frame)
    requires Consistent(f) && f.state == DataCont && !Plain(f.control)
    ensures Framed(f.read, f.log) && HasSince(f.log, 2)
  {
    hide Framed, Stored, Taken, Given, Heading, HasSince, HasDic;
    assert Gated(f) && Accounted(f);
    var n := |f.log| - 1;
    assert Legal(f.log[..n], f.log[n]);
    assert f.log[..n] + [f.log[n]] == f.log;
    SinceGrows(f.log[..n], f.log[n], 2);
  }

  /** Over any series of calls from a fresh decoder: within the data of an LZMA chunk there has been a property byte, and
      the properties in use are those that the last one packs. */
  lemma ChunkProps(m: Machine, asks: seq<Ask2>)
    requires Fit(m) && m.f == Initial() && m.c.hist == [] && asks != [] && Series2(m, [], asks).Stop2?
    ensures var r := Series2(m, [], asks).m;
            r.f.state == DataCont && !Plain(r.f.control) ==>
              var b := PropByte(r.f.read, r.f.log);
              b.Some? && Packs(r.c.props, b.value)
  {
    hide Fit, Series2, Consistent, Packs, PropByte, Framed, HasSince;
    Fresh(m);
    SeriesProps(m, [], asks);
    var r := Series2(m, [], asks).m;
    if r.f.state == DataCont && !Plain(r.f.control) {
      PackedSince(r.f);
      PropByteFound(r.f.read, r.f.log);
    }
  }

  // ----- Resets ----------------------------------------------------------------------------------------------

  /** A chunk begins with its range decoder started anew and nothing pending. It empties the history just when it resets
      the dictionary; state and probabilities are to be initialised when it is an LZMA chunk that resets the state, or
      when its dictionary is reset, or if they were before. All else stays. */
  lemma StartedResets(m: Machine)
    requires Sound2(m) && m.f.state == Data
    ensures var c, d, chunk := m.c, Started(m).c, Announced(m.f);
            && Started(m).pending == [] && d.needFlush && d.remain == 0
            && d.hist == (if ResetsDic(chunk) then [] else c.hist)
            && (d.needInit <==> c.needInit || ResetsDic(chunk) || (chunk.Packed? && chunk.mode >= 1))
            && d == c.(needFlush := true, remain := 0, hist := d.hist, needInit := d.needInit)
  {
    hide Gated, Accounted, HeaderSoFar, Taken, Mode;
  }
}
