/** The LZMA2 decoder of Lzma2Dec.c around the LZMA decoder: each method does what the decoder on values does. */
module Lzma2Dec {
  import opened Words
  import opened LzmaSymbol
  import opened LzmaStream
  import opened LzmaWindow
  import opened LzmaFacts
  import opened LzmaDec
  import opened Lzma2Chunks
  import opened Lzma2Stream

  /** memcpy into the dictionary. */
  method PutBytes(p: Decoder, src: seq<byte>)
    requires p.Holding() && p.dicPos + |src| <= p.dic.Length
    modifies p.dic, p`dicPos, p`hist
    ensures p.Holding() && p.hist == old(p.hist) + src && p.dicPos == old(p.dicPos) + |src|
  {
    hide Window;
    ghost var before := p.dic[..];
    WindowAppendAll(before, p.dicPos, p.hist, src);
    forall i | 0 <= i < |src| {
      p.dic[p.dicPos + i] := src[i];
    }
    assert p.dic[..] == before[..p.dicPos] + src + before[p.dicPos + |src|..];
    p.dicPos := p.dicPos + |src|;
    p.hist := p.hist + src;
  }

  /** LzmaDec_UpdateWithUncompressed. */
  method UpdateWithUncompressed(p: Decoder, src: seq<byte>)
    requires p.Storage() && p.Marked() && p.props.dicSize > 0 && p.dicPos + |src| <= p.dic.Length
    modifies p`dicPos, p`checkDicSize, p`processedPos, p`hist, p.dic
    ensures p.Storage() && p.Marked() && p.dicPos == old(p.dicPos) + |src|
    ensures p.Abs() == old(p.Abs()).(hist := old(p.hist) + src)
  {
    hide Window;
    WordSum(|p.hist|, |src|);
    PutBytes(p, src);
    if p.checkDicSize == 0 && p.props.dicSize - p.processedPos <= |src| {
      p.checkDicSize := p.props.dicSize;
    }
    p.processedPos := (p.processedPos + |src|) % TWO32;
  }

  lemma Bookkeeping(kept: seq<byte>, s: seq<byte>, n: nat, status: Status)
    requires n <= |s| && (if status == NeedsMoreInput then n == |s| else kept == [] || n == 0)
    ensures TakenOf(kept + s[n..], |s|, status) == n && KeptOf(kept + s[n..], |s|, status) == kept
  {
    assert (kept + s[n..])[..|kept|] == kept;
    if status == NeedsMoreInput {
      assert kept + s[n..] == kept;
    }
  }

  /** The LZMA decoder is given input s and room for so many bytes. */
  method Feed(p: Decoder, s: seq<byte>, room: nat, end: bool) returns (ok: bool, n: nat, status: Status)
    requires p.Valid() && p.Resumable() && p.dicPos + room <= p.dic.Length
    modifies p, p.probs, p.dic, p.tempBuf
    ensures ok ==>
      && p.Valid() && p.Resumable() && n <= |s| && old(p.hist) <= p.hist
      && p.dicPos - old(p.dicPos) == |p.hist| - |old(p.hist)| <= room
      && TakenOf(p.Pending() + s[n..], |s|, status) == n && KeptOf(p.Pending() + s[n..], |s|, status) == p.Pending()
    ensures old(Decode(p.Abs(), p.Pending() + s, |p.hist| + room, end))
         == if ok then Stop(p.Abs(), p.Pending() + s[n..], status) else DataError
  {
    hide Window, ValidState, NumProbs, Decode, Loop, RunOf, TakenOf, KeptOf;
    ghost var c, input, l := p.Abs(), p.Pending() + s, |p.hist| + room;
    assert p.HistLimit(p.dicPos + room) == l;
    ok, n, status := p.DecodeToDic(p.dicPos + room, s, end);
    if ok {
      DecodeKeeps(c, input, l, end);
      Bookkeeping(p.Pending(), s, n, status);
    }
  }

  class Decoder2 {
    const decoder: Decoder
    var packSize: word
    var unpackSize: word
    var state: State
    var control: byte
    var needInitDic: bool
    var needInitState: bool
    var needInitProp: bool

    /** The chunks whose data has begun, and all input and output, since Init. */
    ghost var log: seq<Chunk>
    ghost var read: seq<byte>
    ghost var out: seq<byte>

    ghost function View(): Frame
      reads this
    {
      Frame(state, control, unpackSize, packSize, needInitDic, needInitState, needInitProp, log, read, out)
    }

    ghost function Abs(): Machine
      requires decoder.tempBufSize <= decoder.tempBuf.Length
      reads this, decoder, decoder.probs, decoder.tempBuf
    {
      Machine(View(), decoder.Abs(), decoder.Pending())
    }

    ghost predicate Valid()
      reads this, decoder, decoder.probs, decoder.dic, decoder.tempBuf
    {
      && decoder.Storage() && decoder.Marked() && decoder.remainLen <= FINISHED && decoder.tempBufSize <= decoder.tempBuf.Length
      && Fit(Abs()) && Sound2(Abs())
      && (state == DataCont && !Plain(control) ==> decoder.Valid() && decoder.Resumable())
    }

    /** Lzma2Dec_Init, for a new decoder. */
    constructor (dicSize: word, dicBufSize: nat)
      requires dicSize > 0
      ensures Valid() && View() == Initial()
      ensures fresh(decoder) && fresh(decoder.probs) && fresh(decoder.dic) && fresh(decoder.tempBuf)
      ensures decoder.props.dicSize == dicSize && decoder.dic.Length == dicBufSize && decoder.dicPos == 0 && decoder.hist == []
    {
      hide Consistent, Window;
      decoder := new Decoder(Props(LCLP_MAX, 0, 0, dicSize), dicBufSize);
      state := Control;
      needInitDic, needInitState, needInitProp := true, true, true;
      control, unpackSize, packSize := 0, 0, 0;
      log, read, out := [], [], [];
      new;
      assert Pow2(4) == 16;
      InitialConsistent();
    }

    // ----- Headers ---------------------------------------------------------------------------------------

    /** Lzma2Dec_UpdateState: one byte of a header. */
    method UpdateState(b: byte)
      requires Valid() && InHeader(state)
      modifies this, decoder`props
      ensures View() == AfterByte(old(View()), b) && state != DataCont
      ensures decoder.props == if old(state) == Prop then WithProp(old(decoder.props), b) else old(decoder.props)
    {
      hide Consistent, Window;
      HeaderSizes(View());
      if state == Control {
        ReadControl(b);
      } else if state == Prop {
        ReadProp(b);
      } else {
        ReadSize(b);
      }
    }

    method ReadControl(b: byte)
      requires state == Control
      modifies `control, `unpackSize, `state, `read
      ensures View() == AfterByte(old(View()), b)
    {
      read := read + [b];
      control := b;
      if control == 0 {
        state := Finished;
      } else if Plain(control) && control as int % 0x80 > 2 {
        state := State.Error;
      } else {
        unpackSize := if Plain(control) then 0 else control as int % 0x20 * 0x1_0000;
        state := Unpack0;
      }
    }

    method ReadSize(b: byte)
      requires InHeader(state) && state != Control && state != Prop && unpackSize <= 0x20_0000
      requires state == Pack1 ==> packSize <= 0x1_0000
      modifies `unpackSize, `packSize, `state, `read
      ensures View() == AfterByte(old(View()), b)
    {
      read := read + [b];
      if state == Unpack0 {
        unpackSize := unpackSize + 0x100 * b as int;
        state := Unpack1;
      } else if state == Unpack1 {
        unpackSize := unpackSize + b as int + 1;
        state := if Plain(control) then Data else Pack0;
      } else if state == Pack0 {
        packSize := 0x100 * b as int;
        state := Pack1;
      } else {
        packSize := packSize + b as int + 1;
        state := if Mode(control) >= 2 then Prop else if needInitProp then State.Error else Data;
      }
    }

    method ReadProp(b: byte)
      requires state == Prop
      modifies `needInitProp, `state, `read, decoder`props
      ensures View() == AfterByte(old(View()), b) && decoder.props == WithProp(old(decoder.props), b)
    {
      read := read + [b];
      state := State.Error;
      if b >= 9 * 5 * 5 {
        return;
      }
      var lc := b as int % 9;
      var rest := b as int / 9;
      var pb, lp := rest / 5, rest % 5;
      if lc + lp > LCLP_MAX {
        return;
      }
      decoder.props := Props(lc, lp, pb, decoder.props.dicSize);
      needInitProp := false;
      state := Data;
    }

    // ----- Data ------------------------------------------------------------------------------------------

    /** The flags at the start of a chunk. */
    method NoteChunk(initDic: bool)
      requires state == Data && initDic == ResetsDic(Announced(View()))
      modifies `needInitDic, `needInitState, `needInitProp, `state, `log
      ensures View() == Begun(old(View()))
    {
      log := log + [Announced(View())];
      if Plain(control) && initDic {
        needInitProp, needInitState := true, true;
      }
      needInitDic := false;
      if !Plain(control) {
        needInitState := false;
      }
      state := DataCont;
    }

    /** The data of a chunk begins. */
    method Begin(initDic: bool, initState: bool)
      requires Valid() && state == Data && !Refused(View())
      requires initDic == ResetsDic(Announced(View())) && initState == (!Plain(control) && Mode(control) > 0)
      modifies this, decoder
      ensures decoder.Valid() && decoder.Resumable() && Abs() == Started(old(Abs()))
      ensures decoder.dicPos == old(decoder.dicPos) && control == old(control)
    {
      hide Consistent, Window, ValidState, NumProbs, Ends, Begun, Refused;
      FitProbs(Abs());
      decoder.InitDicAndState(initDic, initState);
      NoteChunk(initDic);
      assert decoder.Pending() == [];
    }

    /** With a chunk's data under way. */
    ghost predicate Working()
      reads this, decoder, decoder.probs, decoder.dic, decoder.tempBuf
    {
      Valid() && state == DataCont
    }

    lemma BeginsValid(before: Machine)
      requires Fit(before) && Sound2(before) && before.f.state == Data && !Refused(before.f)
      requires decoder.Valid() && decoder.Resumable() && Abs() == Started(before)
      ensures Working()
    {
      hide Consistent, Window, ValidState, NumProbs, Ends, Refused;
      StartedValid(before);
      StartedSound(before);
    }

    /** What holds of the LZMA decoder whatever the chunk. */
    ghost predicate Intact()
      reads decoder, decoder.probs, decoder.dic
    {
      decoder.Storage() && decoder.Marked() && decoder.remainLen <= FINISHED && decoder.tempBufSize <= decoder.tempBuf.Length
    }

    method TakeRaw(s: seq<byte>)
      requires Intact() && decoder.props.dicSize > 0 && |s| <= unpackSize && decoder.dicPos + |s| <= decoder.dic.Length
      modifies this, decoder, decoder.dic
      ensures Intact() && decoder.dicPos == old(decoder.dicPos) + |s| && control == old(control)
      ensures Abs() == Machine(AfterRaw(old(View()), s), old(decoder.Abs()).(hist := old(decoder.hist) + s), old(decoder.Pending()))
    {
      hide Window, AfterRaw;
      UpdateWithUncompressed(decoder, s);
      NoteRaw(s);
    }

    method NoteRaw(s: seq<byte>)
      requires |s| <= unpackSize
      modifies `unpackSize, `state, `read, `out
      ensures View() == AfterRaw(old(View()), s)
    {
      unpackSize := unpackSize - |s|;
      state := if unpackSize == 0 then Control else DataCont;
      read, out := read + s, out + s;
    }

    /** What a turn comes to; `whole` is what it should come to. */
    ghost predicate Came(done: bool, ok: bool, status: Status, rest: seq<byte>, dicLimit: nat, whole: Turned)
      reads this, decoder, decoder.probs, decoder.dic, decoder.tempBuf
    {
      if !ok then done && whole.Fails?
      else
        && Intact() && decoder.dicPos <= dicLimit && (state == DataCont && !Plain(control) ==> decoder.Valid() && decoder.Resumable())
        && whole == if done then Halts(Abs(), rest, dicLimit - decoder.dicPos, status) else Goes(Abs(), rest, dicLimit - decoder.dicPos)
    }

    /** Data of a raw chunk. */
    method RawData(dicLimit: nat, src: seq<byte>, srcLen: nat) returns (ok: bool, srcLen': nat)
      requires Working() && Plain(control) && decoder.dicPos <= dicLimit <= decoder.dic.Length && srcLen < |src|
      modifies this, decoder, decoder.dic
      ensures srcLen <= srcLen' <= |src|
      ensures Came(!ok, ok, NotSpecified, src[srcLen'..], dicLimit, old(RawTurn(Abs(), src[srcLen..], dicLimit - decoder.dicPos)))
    {
      hide Sound2, Window, ValidState, NumProbs, AfterRaw;
      var destSizeCur, srcSizeCur := dicLimit - decoder.dicPos, |src| - srcLen;
      if unpackSize <= destSizeCur {
        destSizeCur := unpackSize;
      }
      if srcSizeCur > destSizeCur {
        srcSizeCur := destSizeCur;
      }
      ok, srcLen' := srcSizeCur != 0, srcLen + srcSizeCur;
      if !ok {
        return;
      }
      assert src[srcLen..][..srcSizeCur] == src[srcLen..srcLen'] && src[srcLen..][srcSizeCur..] == src[srcLen'..];
      TakeRaw(src[srcLen..srcLen']);
    }

    method NotePacked(ghost s: seq<byte>, ghost t: seq<byte>, srcSizeCur: nat, outSizeProcessed: nat)
      requires |s| == srcSizeCur <= packSize && |t| == outSizeProcessed <= unpackSize
      modifies `unpackSize, `packSize, `read, `out
      ensures View() == AfterPacked(old(View()), s, t)
    {
      packSize := packSize - srcSizeCur;
      unpackSize := unpackSize - outSizeProcessed;
      read, out := read + s, out + t;
    }

    /** Data of an LZMA chunk, as far as input, output or the chunk go. */
    method PackedStep(dicLimit: nat, src: seq<byte>, srcLen: nat) returns (ok: bool, n: nat, status: Status)
      requires Working() && !Plain(control) && decoder.dicPos <= dicLimit <= decoder.dic.Length && srcLen <= |src|
      modifies this, decoder, decoder.probs, decoder.dic, decoder.tempBuf
      ensures ok ==> Intact() && decoder.Valid() && decoder.Resumable() && decoder.dicPos <= dicLimit && srcLen + n <= |src|
      ensures ok ==>
        var r := old(PackedResult(Abs(), src[srcLen..], dicLimit - decoder.dicPos));
        && r.Stop? && r.c == decoder.Abs() && status == r.status && n <= old(packSize)
        && TakenOf(r.rest, Min(|src| - srcLen, old(packSize)), status) == n
        && KeptOf(r.rest, Min(|src| - srcLen, old(packSize)), status) == decoder.Pending()
        && Abs() == PackedNext(old(Abs()), src[srcLen..], n, decoder.Abs(), decoder.Pending())
        && decoder.dicPos - old(decoder.dicPos) == |decoder.hist| - |old(decoder.hist)|
      ensures !ok ==> old(PackedResult(Abs(), src[srcLen..], dicLimit - decoder.dicPos)).DataError?
    {
      hide Sound2, Fit, Window, ValidState, NumProbs, Decode, TakenOf, KeptOf, AfterPacked;
      var destSizeCur, end := dicLimit - decoder.dicPos, unpackSize <= dicLimit - decoder.dicPos;
      if end {
        destSizeCur := unpackSize;
      }
      var srcSizeCur := if |src| - srcLen > packSize then packSize else |src| - srcLen;
      var s := src[srcLen..srcLen + srcSizeCur];
      assert src[srcLen..][..srcSizeCur] == s;
      ghost var hist0 := decoder.hist;
      var dicPos := decoder.dicPos;
      ok, n, status := Feed(decoder, s, destSizeCur, end);
      if ok {
        assert s[..n] == src[srcLen..][..n];
        NotePacked(s[..n], decoder.hist[|hist0|..], n, decoder.dicPos - dicPos);
      }
    }

    method PackedData(dicLimit: nat, src: seq<byte>, srcLen: nat) returns (done: bool, ok: bool, status: Status, srcLen': nat)
      requires Working() && !Plain(control) && decoder.dicPos <= dicLimit <= decoder.dic.Length && srcLen <= |src|
      modifies this, decoder, decoder.probs, decoder.dic, decoder.tempBuf
      ensures srcLen <= srcLen' <= |src|
      ensures Came(done, ok, status, src[srcLen'..], dicLimit, old(PackedTurn(Abs(), src[srcLen..], dicLimit - decoder.dicPos)))
    {
      hide Sound2, Fit, Window, ValidState, NumProbs, PackedResult, PackedTurn, PackedNext, TakenOf, KeptOf;
      var dicPos := decoder.dicPos;
      ghost var m := Abs();
      var n;
      ok, n, status := PackedStep(dicLimit, src, srcLen);
      if !ok {
        PackedTurnFails(m, src[srcLen..], dicLimit - dicPos);
        return true, false, status, srcLen;
      }
      PackedTurnIs(m, src[srcLen..], dicLimit - dicPos, n, decoder.Pending(), Abs());
      done, srcLen' := false, srcLen + n;
      assert src[srcLen..][n..] == src[srcLen'..];
      if status == NeedsMoreInput {
        done := true;
      } else if n == 0 && decoder.dicPos == dicPos {
        if status != MaybeFinished || unpackSize != 0 || packSize != 0 {
          done, ok := true, false;
          return;
        }
        state := Control;
      }
    }

    /** A chunk begins if it has not yet. */
    method BeginNew()
      requires Valid() && (state == DataCont || (state == Data && !Refused(View())))
      modifies this, decoder
      ensures Working() && Abs() == Started(old(Abs()))
      ensures decoder.dicPos == old(decoder.dicPos) && control == old(control)
    {
      hide Sound2, Fit, Window, ValidState, NumProbs, Refused, Begun, Restarted;
      ghost var m := Abs();
      if state == Data {
        if Plain(control) {
          Begin(control == 1, false);
        } else {
          Begin(Mode(control) == 3, Mode(control) > 0);
        }
        BeginsValid(m);
      }
    }

    lemma Basics()
      requires Valid()
      ensures decoder.tempBufSize <= decoder.tempBuf.Length && Fit(Abs()) && Abs().f.control == control && Abs().f.state == state
    {
    }

    lemma WorkingBasics()
      requires Working()
      ensures decoder.tempBufSize <= decoder.tempBuf.Length && Valid() && state == DataCont
    {
    }

    lemma StartsSame(m: Machine)
      ensures Started(m).f.control == m.f.control
    {
    }

    /** The data of a chunk, which begins if it has not yet. */
    method DataStep(dicLimit: nat, src: seq<byte>, srcLen: nat, ghost whole: Turned)
      returns (done: bool, ok: bool, status: Status, srcLen': nat)
      requires Valid() && (state == DataCont || (state == Data && !Refused(View())))
      requires decoder.dicPos <= dicLimit <= decoder.dic.Length && srcLen <= |src| && (Plain(control) ==> srcLen < |src|)
      requires whole == DataTurn(Abs(), src[srcLen..], dicLimit - decoder.dicPos)
      modifies this, decoder, decoder.probs, decoder.dic, decoder.tempBuf
      ensures srcLen <= srcLen' <= |src|
      ensures Came(done, ok, status, src[srcLen'..], dicLimit, whole)
    {
      hide Valid, Working, Abs, Fit, RawTurn, PackedTurn, Refused, Started, Came;
      Basics();
      StartedValid(Abs());
      StartsSame(Abs());
      BeginNew();
      WorkingBasics();
      if Plain(control) {
        status := NotSpecified;
        ok, srcLen' := RawData(dicLimit, src, srcLen);
        done := !ok;
      } else {
        done, ok, status, srcLen' := PackedData(dicLimit, src, srcLen);
      }
    }

    /** Whether a reset is missing. */
    predicate Lacks()
      reads this
      ensures Lacks() == Refused(View())
    {
      if Plain(control) then control != 1 && needInitDic
      else (Mode(control) != 3 && needInitDic) || (!(Mode(control) > 0) && needInitState)
    }

    /** One turn of the loop of Lzma2Dec_DecodeToDic. */
    method Turn(dicLimit: nat, src: seq<byte>, srcLen: nat, mustEnd: bool)
      returns (done: bool, ok: bool, status: Status, srcLen': nat)
      requires Valid() && state != Finished && decoder.dicPos <= dicLimit <= decoder.dic.Length && srcLen <= |src|
      modifies this, decoder, decoder.probs, decoder.dic, decoder.tempBuf
      ensures srcLen <= srcLen' <= |src|
      ensures Came(done, ok, status, src[srcLen'..], dicLimit, old(Turn2(Abs(), src[srcLen..], dicLimit - decoder.dicPos, mustEnd)))
    {
      hide Sound2, Fit, Window, ValidState, NumProbs, DataTurn, AfterByte;
      done, ok, status, srcLen' := true, true, NeedsMoreInput, srcLen;
      if state == State.Error {
        ok := false;
      } else if decoder.dicPos == dicLimit && !mustEnd {
        status := NotFinished;
      } else if state != Data && state != DataCont {
        if srcLen < |src| {
          UpdateState(src[srcLen]);
          done, srcLen' := false, srcLen + 1;
          assert src[srcLen..][1..] == src[srcLen'..];
        }
      } else if Plain(control) && srcLen == |src| {
      } else if state == Data && Lacks() {
        ok := false;
      } else {
        done, ok, status, srcLen' := DataStep(dicLimit, src, srcLen, DataTurn(Abs(), src[srcLen..], dicLimit - decoder.dicPos));
      }
    }

    /** One turn, which leaves the decoder valid and the rest of the call to be done. */
    method Round(dicLimit: nat, src: seq<byte>, srcLen: nat, mustEnd: bool)
      returns (done: bool, ok: bool, status: Status, srcLen': nat)
      requires Valid() && state != Finished && decoder.dicPos <= dicLimit <= decoder.dic.Length && srcLen <= |src|
      modifies this, decoder, decoder.probs, decoder.dic, decoder.tempBuf
      ensures srcLen <= srcLen' <= |src| && (!ok ==> done)
      ensures ok ==> Valid() && decoder.dicPos <= dicLimit
      ensures old(Decode2(Abs(), src[srcLen..], dicLimit - decoder.dicPos, mustEnd))
           == if !ok then DataError2
              else if done then Stop2(Abs(), src[srcLen'..], dicLimit - decoder.dicPos, status)
              else Decode2(Abs(), src[srcLen'..], dicLimit - decoder.dicPos, mustEnd)
      ensures !done ==> Came(done, ok, status, src[srcLen'..], dicLimit, old(Turn2(Abs(), src[srcLen..], dicLimit - decoder.dicPos, mustEnd)))
      ensures !done ==> old(Nearer(Abs(), src[srcLen..], dicLimit - decoder.dicPos, Turn2(Abs(), src[srcLen..], dicLimit - decoder.dicPos, mustEnd)))
    {
      hide Sound2, Fit, Window, ValidState, NumProbs, Turn2, Decode2, Nearer;
      ghost var m, rest, room := Abs(), src[srcLen..], dicLimit - decoder.dicPos;
      DecodeTurn(m, rest, room, mustEnd);
      done, ok, status, srcLen' := Turn(dicLimit, src, srcLen, mustEnd);
      if ok {
        TurnMoves(m, rest, room, mustEnd);
      }
    }

    /** Lzma2Dec_DecodeToDic: does what one call of the decoder on values does with the same input. */
    method DecodeToDic(dicLimit: nat, src: seq<byte>, mustEnd: bool) returns (ok: bool, srcLen: nat, status: Status)
      requires Valid() && decoder.dicPos <= dicLimit <= decoder.dic.Length
      modifies this, decoder, decoder.probs, decoder.dic, decoder.tempBuf
      ensures ok ==> Valid() && decoder.dicPos <= dicLimit && srcLen <= |src|
      ensures old(Decode2(Abs(), src, dicLimit - decoder.dicPos, mustEnd))
           == if ok then Stop2(Abs(), src[srcLen..], dicLimit - decoder.dicPos, status) else DataError2
    {
      hide Sound2, Fit, Window, ValidState, NumProbs, Turn2;
      ghost var whole := Decode2(Abs(), src, dicLimit - decoder.dicPos, mustEnd);
      ok, srcLen, status := true, 0, NotSpecified;
      assert src[0..] == src;
      while state != Finished
        invariant ok && Valid() && decoder.dicPos <= dicLimit && srcLen <= |src|
        invariant Decode2(Abs(), src[srcLen..], dicLimit - decoder.dicPos, mustEnd) == whole
        decreases |src| - srcLen, dicLimit - decoder.dicPos, Lzma2Stream.Working(Abs())
      {
        var done;
        done, ok, status, srcLen := Round(dicLimit, src, srcLen, mustEnd);
        if done {
          return;
        }
      }
      status := FinishedWithMark;
    }
  }
}
