/**
  The framing of LZMA2 on values: the states of Lzma2Dec.c with a log of the chunks whose data has begun, and
  all input and output. It shows that every byte is accounted for by what a chunk declares, and that no chunk
  is decoded without the resets it needs.
*/
module Lzma2Chunks {
  import opened Words

  // ----- Chunks -------------------------------------------------------------------------------------

  /** mode: 0 no reset, 1 state reset, 2 state reset and new properties, 3 these and a dictionary reset. */
  datatype Chunk = Raw(resetDic: bool, unpack: nat) | Packed(mode: nat, unpack: nat, pack: nat)

  function HeaderSize(c: Chunk): nat {
    if c.Raw? then 3 else if c.mode < 2 then 5 else 6
  }

  function DataSize(c: Chunk): nat {
    if c.Raw? then c.unpack else c.pack
  }

  /** The bytes declare the chunk: its header, sizes stored less one and most significant byte first. */
  predicate Declares(h: seq<byte>, c: Chunk) {
    && |h| >= HeaderSize(c)
    && var size := 0x100 * h[1] as int + h[2] as int + 1;
       if c.Raw? then h[0] == (if c.resetDic then 1 else 2) && c.unpack == size
       else
         && c.mode < 4 && h[0] as int / 0x20 == 4 + c.mode
         && c.unpack == size + 0x1_0000 * (h[0] as int % 0x20)
         && c.pack == 0x100 * h[3] as int + h[4] as int + 1
         && (c.mode >= 2 ==> h[5] < 9 * 5 * 5)
  }

  /** The input and the output that the chunks declare. */
  function Taken(log: seq<Chunk>): nat {
    if log == [] then 0 else Taken(log[..|log| - 1]) + HeaderSize(log[|log| - 1]) + DataSize(log[|log| - 1])
  }

  function Given(log: seq<Chunk>): nat {
    if log == [] then 0 else Given(log[..|log| - 1]) + log[|log| - 1].unpack
  }

  lemma {:induction false} Below(log: seq<Chunk>, i: nat)
    requires i < |log|
    ensures Taken(log[..i]) + HeaderSize(log[i]) + DataSize(log[i]) <= Taken(log)
    ensures Given(log[..i]) + log[i].unpack <= Given(log)
    decreases |log|
  {
    var last := |log| - 1;
    if i < last {
      Below(log[..last], i);
      assert log[..last][..i] == log[..i];
    }
  }

  lemma LogGrows(log: seq<Chunk>, c: Chunk)
    ensures Taken(log + [c]) == Taken(log) + HeaderSize(c) + DataSize(c)
    ensures Given(log + [c]) == Given(log) + c.unpack
  {
    var l := log + [c];
    assert l[..|l| - 1] == log && l[|log|] == c;
  }

  // ----- The input and the output, chunk by chunk ------------------------------------------------------

  /** The input is one chunk after another: each begins where the data of the last one ended. */
  ghost predicate Framed(read: seq<byte>, log: seq<Chunk>) {
    forall i | 0 <= i < |log| :: Taken(log[..i]) <= |read| && Declares(read[Taken(log[..i])..], log[i])
  }

  lemma DeclaresOn(h: seq<byte>, more: seq<byte>, c: Chunk)
    requires Declares(h, c)
    ensures Declares(h + more, c)
  {
  }

  lemma FramedOn(read: seq<byte>, more: seq<byte>, log: seq<Chunk>)
    requires Framed(read, log)
    ensures Framed(read + more, log)
  {
    hide Declares, Taken;
    forall i | 0 <= i < |log|
      ensures Taken(log[..i]) <= |read + more| && Declares((read + more)[Taken(log[..i])..], log[i])
    {
      DeclaresOn(read[Taken(log[..i])..], more, log[i]);
      assert (read + more)[Taken(log[..i])..] == read[Taken(log[..i])..] + more;
    }
  }

  lemma FramedNext(read: seq<byte>, log: seq<Chunk>, c: Chunk)
    requires Framed(read, log) && Taken(log) <= |read| && Declares(read[Taken(log)..], c)
    ensures Framed(read, log + [c])
  {
    var l := log + [c];
    forall i | 0 <= i < |l|
      ensures Taken(l[..i]) <= |read| && Declares(read[Taken(l[..i])..], l[i])
    {
      assert l[..i] == log[..i];
      assert i == |log| ==> log[..i] == log;
    }
  }

  /** As far as they have been read, the n bytes from a are those of the output from b. */
  predicate Copied(read: seq<byte>, a: nat, out: seq<byte>, b: nat, n: nat) {
    a < |read| && n > 0 ==>
      var m := if n < |read| - a then n else |read| - a;
      b + m <= |out| && out[b..b + m] == read[a..a + m]
  }

  lemma CopiedOn(read: seq<byte>, more: seq<byte>, a: nat, out: seq<byte>, more': seq<byte>, b: nat, n: nat)
    requires Copied(read, a, out, b, n) && a + n <= |read|
    ensures Copied(read + more, a, out + more', b, n)
  {
    if a < |read| && n > 0 {
      var m := if n < |read + more| - a then n else |read + more| - a;
      assert m == n;
      assert (read + more)[a..a + n] == read[a..a + n] && (out + more')[b..b + n] == out[b..b + n];
    }
  }

  lemma CopiedData(read: seq<byte>, a: nat, out: seq<byte>, b: nat, n: nat, s: seq<byte>)
    requires Copied(read, a, out, b, n) && |read| + |s| <= a + n && a <= |read| && |out| - b == |read| - a
    ensures Copied(read + s, a, out + s, b, n)
  {
    var m := |read| - a;
    if m > 0 {
      assert out[b..b + m] == read[a..a + m];
    }
    assert out[b..] == read[a..];
    assert (read + s)[a..a + m + |s|] == read[a..] + s && (out + s)[b..b + m + |s|] == out[b..] + s;
  }

  /** The data of a raw chunk, as far as it has been read, is output as it is. */
  ghost predicate StoredAt(read: seq<byte>, out: seq<byte>, log: seq<Chunk>, i: nat)
    requires i < |log|
  {
    log[i].Raw? ==> Copied(read, Taken(log[..i]) + 3, out, Given(log[..i]), log[i].unpack)
  }

  ghost predicate Stored(read: seq<byte>, out: seq<byte>, log: seq<Chunk>) {
    forall i | 0 <= i < |log| :: StoredAt(read, out, log, i)
  }

  /** Input that is not the data of a raw chunk. */
  lemma StoredOn(read: seq<byte>, more: seq<byte>, out: seq<byte>, more': seq<byte>, log: seq<Chunk>)
    requires Stored(read, out, log)
    requires |read| >= Taken(log) || (log != [] && log[|log| - 1].Packed? && |read| >= Taken(log[..|log| - 1]))
    ensures Stored(read + more, out + more', log)
  {
    hide Copied, Taken, Given;
    forall i | 0 <= i < |log|
      ensures StoredAt(read + more, out + more', log, i)
    {
      if log[i].Raw? {
        if |read| >= Taken(log) {
          Below(log, i);
        } else {
          Below(log[..|log| - 1], i);
          assert log[..|log| - 1][..i] == log[..i];
        }
        assert StoredAt(read, out, log, i);
        CopiedOn(read, more, Taken(log[..i]) + 3, out, more', Given(log[..i]), log[i].unpack);
      }
    }
  }

  lemma StoredNext(read: seq<byte>, out: seq<byte>, log: seq<Chunk>, c: Chunk)
    requires Stored(read, out, log) && |read| <= Taken(log) + HeaderSize(c)
    ensures Stored(read, out, log + [c])
  {
    hide Taken, Given;
    var l := log + [c];
    forall i | 0 <= i < |l|
      ensures StoredAt(read, out, l, i)
    {
      assert l[..i] == log[..i];
      if i == |log| {
        assert log[..i] == log;
      } else {
        assert StoredAt(read, out, log, i);
      }
    }
  }

  /** Data of the raw chunk that is being read, of which `left` bytes are still to come. */
  lemma StoredData(read: seq<byte>, out: seq<byte>, s: seq<byte>, log: seq<Chunk>, left: nat)
    requires Stored(read, out, log) && log != [] && log[|log| - 1].Raw? && left <= log[|log| - 1].unpack
    requires |read| + left == Taken(log) && |out| + left == Given(log) && |s| <= left
    ensures Stored(read + s, out + s, log)
  {
    hide Copied;
    var last := |log| - 1;
    assert Taken(log) == Taken(log[..last]) + 3 + log[last].unpack && Given(log) == Given(log[..last]) + log[last].unpack;
    hide Taken, Given;
    forall i | 0 <= i < |log|
      ensures StoredAt(read + s, out + s, log, i)
    {
      assert StoredAt(read, out, log, i);
      if i == last {
        CopiedData(read, Taken(log[..i]) + 3, out, Given(log[..i]), log[i].unpack, s);
      } else if log[i].Raw? {
        Below(log[..last], i);
        assert log[..last][..i] == log[..i];
        CopiedOn(read, s, Taken(log[..i]) + 3, out, s, Given(log[..i]), log[i].unpack);
      }
    }
  }

  // ----- What a chunk needs ------------------------------------------------------------------------------

  predicate ResetsDic(c: Chunk) {
    if c.Raw? then c.resetDic else c.mode == 3
  }

  /** A raw dictionary reset also takes away state and properties. */
  predicate Forgets(c: Chunk) {
    c.Raw? && c.resetDic
  }

  ghost predicate HasDic(log: seq<Chunk>) {
    exists i | 0 <= i < |log| :: ResetsDic(log[i])
  }

  /** An LZMA chunk of at least this mode has come, and no raw dictionary reset since. */
  ghost predicate HasSince(log: seq<Chunk>, mode: nat) {
    exists i | 0 <= i < |log| ::
      log[i].Packed? && log[i].mode >= mode && forall j | i < j < |log| :: !Forgets(log[j])
  }

  /** A chunk that may follow the chunks of the log. */
  ghost predicate Legal(log: seq<Chunk>, c: Chunk) {
    && (ResetsDic(c) || HasDic(log))
    && (c.Packed? ==> (c.mode >= 1 || HasSince(log, 1)) && (c.mode >= 2 || HasSince(log, 2)))
  }

  ghost predicate AllLegal(log: seq<Chunk>) {
    forall i | 0 <= i < |log| :: Legal(log[..i], log[i])
  }

  lemma LegalGrows(log: seq<Chunk>, c: Chunk)
    requires AllLegal(log) && Legal(log, c)
    ensures AllLegal(log + [c])
  {
    var l := log + [c];
    forall i | 0 <= i < |l|
      ensures Legal(l[..i], l[i])
    {
      assert l[..i] == log[..i];
      assert i == |log| ==> log[..i] == log;
    }
  }

  lemma DicGrows(log: seq<Chunk>, c: Chunk)
    ensures HasDic(log + [c]) <==> HasDic(log) || ResetsDic(c)
  {
    var l := log + [c];
    assert l[|log|] == c;
    if HasDic(log) {
      var i :| 0 <= i < |log| && ResetsDic(log[i]);
      assert ResetsDic(l[i]);
    }
  }

  lemma SinceGrows(log: seq<Chunk>, c: Chunk, mode: nat)
    ensures HasSince(log + [c], mode) <==> (c.Packed? && c.mode >= mode) || (HasSince(log, mode) && !Forgets(c))
  {
    var l := log + [c];
    assert l[|log|] == c;
    if HasSince(log, mode) && !Forgets(c) {
      var i :| 0 <= i < |log| && log[i].Packed? && log[i].mode >= mode && forall j | i < j < |log| :: !Forgets(log[j]);
      assert l[i].Packed? && l[i].mode >= mode && forall j | i < j < |l| :: !Forgets(l[j]);
    }
    if HasSince(l, mode) {
      var i :| 0 <= i < |l| && l[i].Packed? && l[i].mode >= mode && forall j | i < j < |l| :: !Forgets(l[j]);
      if i < |log| {
        assert !Forgets(l[|log|]);
        assert log[i].Packed? && log[i].mode >= mode && forall j | i < j < |log| :: !Forgets(log[j]) by {
          assert forall j | i < j < |log| :: l[j] == log[j];
        }
      }
    }
  }

  // ----- Steps -------------------------------------------------------------------------------------------

  const LCLP_MAX := 4

  datatype State = Control | Unpack0 | Unpack1 | Pack0 | Pack1 | Prop | Data | DataCont | Finished | Error

  predicate InHeader(s: State) {
    s != Data && s != DataCont && s != Finished && s != Error
  }

  datatype Frame = Frame(state: State, control: byte, unpackSize: nat, packSize: nat,
                         needInitDic: bool, needInitState: bool, needInitProp: bool,
                         log: seq<Chunk>, read: seq<byte>, out: seq<byte>)

  function Initial(): Frame {
    Frame(Control, 0, 0, 0, true, true, true, [], [], [])
  }

  predicate Plain(control: byte) {
    control < 0x80
  }

  function Mode(control: byte): nat {
    control as int / 0x20 % 4
  }

  function Base(control: byte): nat {
    if Plain(control) then 0 else control as int % 0x20 * 0x1_0000
  }

  predicate AcceptedProp(b: byte) {
    b < 9 * 5 * 5 && b as int % 9 + b as int / 9 % 5 <= LCLP_MAX
  }

  /** One byte of a header. */
  function AfterByte(f: Frame, b: byte): Frame {
    var g := f.(read := f.read + [b]);
    match f.state
    case Control =>
      if b == 0 then g.(control := b, state := Finished)
      else if Plain(b) && b > 2 then g.(control := b, state := Error)
      else g.(control := b, unpackSize := Base(b), state := Unpack0)
    case Unpack0 => g.(unpackSize := f.unpackSize + 0x100 * b as int, state := Unpack1)
    case Unpack1 => g.(unpackSize := f.unpackSize + b as int + 1, state := if Plain(f.control) then Data else Pack0)
    case Pack0 => g.(packSize := 0x100 * b as int, state := Pack1)
    case Pack1 =>
      g.(packSize := f.packSize + b as int + 1,
         state := if Mode(f.control) >= 2 then Prop else if f.needInitProp then Error else Data)
    case Prop =>
      if AcceptedProp(b) then g.(needInitProp := false, state := Data) else g.(state := Error)
    case _ => g.(state := Error)
  }

  /** The chunk whose header has just been read. */
  function Announced(f: Frame): Chunk {
    if Plain(f.control) then Raw(f.control == 1, f.unpackSize) else Packed(Mode(f.control), f.unpackSize, f.packSize)
  }

  /** The resets that the chunk does not bring and that no other has brought. */
  predicate Refused(f: Frame) {
    if Plain(f.control) then f.control != 1 && f.needInitDic
    else (Mode(f.control) != 3 && f.needInitDic) || (Mode(f.control) == 0 && f.needInitState)
  }

  function Begun(f: Frame): Frame {
    var g := f.(needInitDic := false, state := DataCont, log := f.log + [Announced(f)]);
    if !Plain(f.control) then g.(needInitState := false)
    else if f.control == 1 then g.(needInitState := true, needInitProp := true)
    else g
  }

  function AfterRaw(f: Frame, s: seq<byte>): Frame
    requires |s| <= f.unpackSize
  {
    f.(unpackSize := f.unpackSize - |s|, read := f.read + s, out := f.out + s,
       state := if f.unpackSize == |s| then Control else DataCont)
  }

  function AfterPacked(f: Frame, s: seq<byte>, t: seq<byte>): Frame
    requires |s| <= f.packSize && |t| <= f.unpackSize
  {
    f.(packSize := f.packSize - |s|, unpackSize := f.unpackSize - |t|, read := f.read + s, out := f.out + t)
  }

  // ----- What every step keeps -------------------------------------------------------------------------------

  function HeaderRead(f: Frame): nat {
    match f.state
    case Unpack0 => 1
    case Unpack1 => 2
    case Pack0 => 3
    case Pack1 => 4
    case Prop => 5
    case Data => HeaderSize(Announced(f))
    case Finished => 1
    case _ => 0
  }

  /** What is still asked for is what no chunk so far has brought. */
  ghost predicate Gated(f: Frame) {
    && AllLegal(f.log)
    && (f.needInitDic <==> !HasDic(f.log))
    && (f.needInitState <==> !HasSince(f.log, 1))
    && (f.needInitProp ==> !HasSince(f.log, 2))
    && (!f.needInitProp && !(f.state == Data && !Plain(f.control) && Mode(f.control) >= 2) ==> HasSince(f.log, 2))
  }

  /** Every byte read or written is declared by a chunk. */
  ghost predicate Accounted(f: Frame) {
    && Framed(f.read, f.log) && Stored(f.read, f.out, f.log)
    && if f.state == DataCont then
         && f.log != []
         && var c := f.log[|f.log| - 1];
            && c.Raw? == Plain(f.control) && f.unpackSize <= c.unpack
            && (c.Packed? ==> f.packSize <= c.pack)
            && |f.out| + f.unpackSize == Given(f.log)
            && |f.read| + (if c.Raw? then f.unpackSize else f.packSize) == Taken(f.log)
       else
         |f.out| == Given(f.log) && |f.read| == Taken(f.log) + HeaderRead(f)
  }

  /** What the fields hold after the first bytes of a header. */
  predicate HeaderSoFar(h: seq<byte>, f: Frame) {
    && (|h| >= 1 ==> f.control == h[0])
    && (|h| == 1 ==> f.unpackSize == Base(f.control))
    && (|h| == 2 ==> f.unpackSize == Base(f.control) + 0x100 * h[1] as int)
    && (|h| >= 3 ==> f.unpackSize == Base(f.control) + 0x100 * h[1] as int + h[2] as int + 1)
    && (|h| == 4 ==> f.packSize == 0x100 * h[3] as int)
    && (|h| >= 5 ==> f.packSize == 0x100 * h[3] as int + h[4] as int + 1)
    && (|h| >= 6 ==> h[5] < 9 * 5 * 5)
  }

  ghost predicate Heading(f: Frame) {
    && (f.state == Finished ==> f.read != [] && f.read[|f.read| - 1] == 0)
    && (InHeader(f.state) || f.state == Data ==> Taken(f.log) <= |f.read| && HeaderSoFar(f.read[Taken(f.log)..], f))
    && (f.state != Control && f.state != Finished && Plain(f.control) ==> 1 <= f.control <= 2)
    && (f.state == Pack0 || f.state == Pack1 || f.state == Prop ==> !Plain(f.control))
    && (f.state == Prop ==> Mode(f.control) >= 2)
    && (f.state == Data && !Plain(f.control) ==> !f.needInitProp)
  }

  ghost predicate Consistent(f: Frame) {
    f.state != Error ==> Gated(f) && Accounted(f) && Heading(f)
  }

  lemma InitialConsistent()
    ensures Consistent(Initial())
  {
    hide Stored, Framed, AllLegal, HasDic, HasSince, HeaderSoFar;
    EmptyLog();
    Afresh(Initial());
  }

  lemma EmptyLog()
    ensures Stored([], [], []) && Framed([], []) && AllLegal([])
    ensures !HasDic([]) && !HasSince([], 1) && !HasSince([], 2)
  {
  }

  lemma ByteKeepsGates(f: Frame, b: byte)
    requires Gated(f) && Heading(f) && InHeader(f.state) && AfterByte(f, b).state != Error
    ensures Gated(AfterByte(f, b))
  {
    hide AllLegal, HasDic, HasSince, HeaderSoFar, Taken;
  }

  lemma ByteKeepsAccounts(f: Frame, b: byte)
    requires Accounted(f) && Heading(f) && InHeader(f.state) && AfterByte(f, b).state != Error
    ensures Accounted(AfterByte(f, b))
  {
    hide Framed, Stored, HeaderSoFar, Taken, Given, Base, Mode, AcceptedProp;
    FramedOn(f.read, [b], f.log);
    StoredOn(f.read, [b], f.out, [], f.log);
    assert f.out + [] == f.out;
  }

  lemma OneMore(f: Frame, b: byte)
    requires Taken(f.log) <= |f.read|
    ensures (f.read + [b])[Taken(f.log)..] == f.read[Taken(f.log)..] + [b]
  {
  }

  lemma ByteKeepsFields(h: seq<byte>, f: Frame, b: byte)
    requires HeaderSoFar(h, f) && |h| == HeaderRead(f) && InHeader(f.state)
    ensures AfterByte(f, b).state != Finished && AfterByte(f, b).state != Error ==> HeaderSoFar(h + [b], AfterByte(f, b))
  {
    hide Base, Mode;
  }

  lemma ByteKeepsHeading(f: Frame, b: byte)
    requires Accounted(f) && Heading(f) && InHeader(f.state) && AfterByte(f, b).state != Error
    ensures Heading(AfterByte(f, b))
  {
    hide Framed, Stored, Taken, Given, Base, Mode, HeaderSoFar;
    OneMore(f, b);
    ByteKeepsFields(f.read[Taken(f.log)..], f, b);
  }

  lemma ByteKeeps(f: Frame, b: byte)
    requires Consistent(f) && InHeader(f.state)
    ensures Consistent(AfterByte(f, b))
    ensures AfterByte(f, b).state == Finished <==> f.state == Control && b == 0
    ensures AfterByte(f, b).read == f.read + [b] && AfterByte(f, b).out == f.out && AfterByte(f, b).log == f.log
  {
    hide Gated, Accounted, Heading;
    if AfterByte(f, b).state != Error {
      ByteKeepsGates(f, b);
      ByteKeepsAccounts(f, b);
      ByteKeepsHeading(f, b);
    }
  }

  /** The sizes stay within 2^21 and 2^16 while a header is read. */
  lemma HeaderSizes(f: Frame)
    requires Consistent(f) && InHeader(f.state)
    ensures f.state == Unpack0 || f.state == Unpack1 || f.state == Pack0 || f.state == Pack1 ==> f.unpackSize <= 0x20_0000
    ensures f.state == Pack1 ==> f.packSize <= 0x1_0000
  {
    hide Gated, Framed, Stored, Taken, Given;
  }

  lemma HeaderDeclares(h: seq<byte>, f: Frame)
    requires HeaderSoFar(h, f) && |h| == HeaderSize(Announced(f)) && (Plain(f.control) ==> 1 <= f.control <= 2)
    ensures Declares(h, Announced(f))
  {
    var b := f.control as int;
    if b >= 0x80 {
      DivUnique(b / 0x20, 4, 1, b / 0x20 - 4);
    }
  }

  lemma BegunStored(f: Frame)
    requires Accounted(f) && Heading(f) && f.state == Data
    ensures Framed(f.read, f.log + [Announced(f)]) && Stored(f.read, f.out, f.log + [Announced(f)])
  {
    hide Framed, Stored, HeaderSoFar, Taken, Given, Declares, Announced;
    var h, c := f.read[Taken(f.log)..], Announced(f);
    HeaderDeclares(h, f);
    FramedNext(f.read, f.log, c);
    StoredNext(f.read, f.out, f.log, c);
  }

  lemma BegunAccounts(f: Frame)
    requires Accounted(f) && Heading(f) && f.state == Data
    ensures Accounted(Begun(f))
  {
    hide Framed, Stored, HeaderSoFar, Taken, Given;
    BegunStored(f);
    LogGrows(f.log, Announced(f));
    assert Begun(f).log[|f.log|] == Announced(f);
  }

  lemma BegunGates(f: Frame)
    requires Gated(f) && Heading(f) && f.state == Data && !Refused(f)
    ensures Gated(Begun(f)) && Legal(f.log, Announced(f))
  {
    hide AllLegal, HasDic, HasSince, HeaderSoFar, Taken;
    var c := Announced(f);
    assert Legal(f.log, c);
    LegalGrows(f.log, c);
    DicGrows(f.log, c);
    SinceGrows(f.log, c, 1);
    SinceGrows(f.log, c, 2);
  }

  lemma BegunHeads(f: Frame)
    requires Heading(f) && f.state == Data
    ensures Heading(Begun(f))
  {
    hide HeaderSoFar, Taken;
  }

  /** A chunk that is not refused is legal, and its data may begin. */
  lemma BegunKeeps(f: Frame)
    requires Consistent(f) && f.state == Data && !Refused(f)
    ensures Consistent(Begun(f)) && Legal(f.log, Announced(f))
  {
    hide Gated, Accounted, Heading, Legal;
    BegunAccounts(f);
    BegunGates(f);
    BegunHeads(f);
  }

  lemma RawKeepsAccounts(f: Frame, s: seq<byte>)
    requires Accounted(f) && f.state == DataCont && Plain(f.control) && |s| <= f.unpackSize
    ensures Accounted(AfterRaw(f, s))
  {
    hide Framed, Stored, Taken, Given;
    FramedOn(f.read, s, f.log);
    StoredData(f.read, f.out, s, f.log, f.unpackSize);
  }

  lemma Afresh(f: Frame)
    requires f.state == Control && |f.read| == Taken(f.log)
    ensures Heading(f)
  {
    assert f.read[Taken(f.log)..] == [];
  }

  lemma RawKeeps(f: Frame, s: seq<byte>)
    requires Consistent(f) && f.state == DataCont && Plain(f.control) && |s| <= f.unpackSize
    ensures Consistent(AfterRaw(f, s))
  {
    hide AllLegal, HasDic, HasSince, Framed, Stored, Taken, Given, HeaderSoFar;
    RawKeepsAccounts(f, s);
    var g := AfterRaw(f, s);
    if g.state == Control {
      Afresh(g);
    }
  }

  lemma PackedKeepsAccounts(f: Frame, s: seq<byte>, t: seq<byte>)
    requires Accounted(f) && f.state == DataCont && !Plain(f.control) && |s| <= f.packSize && |t| <= f.unpackSize
    ensures Accounted(AfterPacked(f, s, t))
  {
    var c := f.log[|f.log| - 1];
    assert Taken(f.log) == Taken(f.log[..|f.log| - 1]) + HeaderSize(c) + DataSize(c);
    hide Framed, Stored, Taken, Given;
    FramedOn(f.read, s, f.log);
    StoredOn(f.read, s, f.out, t, f.log);
  }

  lemma PackedKeeps(f: Frame, s: seq<byte>, t: seq<byte>)
    requires Consistent(f) && f.state == DataCont && !Plain(f.control) && |s| <= f.packSize && |t| <= f.unpackSize
    ensures Consistent(AfterPacked(f, s, t))
  {
    hide AllLegal, HasDic, HasSince, Accounted, Taken, HeaderSoFar;
    PackedKeepsAccounts(f, s, t);
  }

  lemma PackedDone(f: Frame)
    requires Consistent(f) && f.state == DataCont && !Plain(f.control) && f.packSize == 0 && f.unpackSize == 0
    ensures Consistent(f.(state := Control))
  {
    hide AllLegal, HasDic, HasSince, Framed, Stored, Taken, Given, HeaderSoFar;
    Afresh(f.(state := Control));
  }

  /** At the end the input is exactly the chunks and a zero byte, the output is exactly as long as they declare,
      and each chunk had the resets it needs. */
  lemma AtEnd(f: Frame)
    requires Consistent(f) && f.state == Finished
    ensures Framed(f.read, f.log) && Stored(f.read, f.out, f.log) && AllLegal(f.log)
    ensures |f.out| == Given(f.log) && |f.read| == Taken(f.log) + 1 && f.read[Taken(f.log)] == 0
  {
    hide Framed, Stored, AllLegal, Taken, Given;
  }
}
