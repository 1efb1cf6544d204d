/**
  Every sequence of LZMA2 chunks that brings the resets it needs can be decoded: plain ones, and LZMA ones with any symbols
  that make sense, as far as the sizes of both sides fit a header.
*/
module Lzma2Encode {
  import opened Words
  import opened LzmaSymbol
  import opened LzmaStream
  import opened LzmaFacts
  import opened LzmaEncode
  import opened Lzma2Chunks
  import opened Lzma2Stream

  // ----- Headers ---------------------------------------------------------------------------------------------

  /** The decoder after bytes of a header. */
  ghost function AfterHeader(m: Machine, h: seq<byte>): Machine
    decreases |h|
  {
    if h == [] then m else AfterHeader(HeaderTurn(m, h[0]), h[1..])
  }

  ghost predicate Heads(m: Machine, h: seq<byte>)
    decreases |h|
  {
    h != [] ==> InHeader(m.f.state) && Heads(HeaderTurn(m, h[0]), h[1..])
  }

  lemma ByteRuns(m: Machine, src: seq<byte>, room: nat, mustEnd: bool)
    requires Fit(m) && InHeader(m.f.state) && src != [] && (room > 0 || mustEnd)
    ensures Fit(HeaderTurn(m, src[0])) && Decode2(m, src, room, mustEnd) == Decode2(HeaderTurn(m, src[0]), src[1..], room, mustEnd)
  {
    hide Fit, HeaderTurn, DataTurn, Decode2;
    HeaderGoes(m, src[0]);
    DecodeTurn(m, src, room, mustEnd);
  }

  lemma {:induction false} HeaderRuns(m: Machine, h: seq<byte>, src: seq<byte>, room: nat, mustEnd: bool)
    requires Fit(m) && Heads(m, h) && (room > 0 || mustEnd)
    ensures Fit(AfterHeader(m, h)) && Decode2(m, h + src, room, mustEnd) == Decode2(AfterHeader(m, h), src, room, mustEnd)
    decreases |h|
  {
    hide Fit, HeaderTurn, InHeader, Decode2;
    if h == [] {
      assert h + src == src;
    } else {
      ByteRuns(m, h + src, room, mustEnd);
      assert (h + src)[1..] == h[1..] + src;
      HeaderRuns(HeaderTurn(m, h[0]), h[1..], src, room, mustEnd);
    }
  }

  /** The header of a plain chunk of n bytes. */
  function PlainHeader(resetDic: bool, n: nat): seq<byte>
    requires 1 <= n <= 0x1_0000
  {
    [if resetDic then 1 else 2, (n - 1) / 0x100, (n - 1) % 0x100]
  }

  /** The header of an LZMA chunk of p bytes for u. */
  function PackedHeader(mode: nat, prop: byte, u: nat, p: nat): seq<byte>
    requires mode < 4 && 1 <= u <= 0x20_0000 && 1 <= p <= 0x1_0000
  {
    [0x80 + 0x20 * mode + (u - 1) / 0x1_0000, (u - 1) / 0x100 % 0x100, (u - 1) % 0x100, (p - 1) / 0x100, (p - 1) % 0x100]
    + if mode >= 2 then [prop] else []
  }

  ghost function AfterPlainHeader(m: Machine, resetDic: bool, n: nat): (r: Machine)
    requires 1 <= n <= 0x1_0000
    ensures r.f.state == Data
  {
    var h := PlainHeader(resetDic, n);
    m.(f := m.f.(control := h[0], unpackSize := n, state := Data, read := m.f.read + h))
  }

  lemma PlainHeaded(m: Machine, resetDic: bool, n: nat)
    requires m.f.state == Control && 1 <= n <= 0x1_0000
    ensures var h := PlainHeader(resetDic, n);
            Heads(m, h) && AfterHeader(m, h) == AfterPlainHeader(m, resetDic, n)
  {
    hide Heads, AfterHeader;
    var h := PlainHeader(resetDic, n);
    ThreeHeaded(m, h[0], h[1], h[2]);
    assert m.f.read + [h[0]] + [h[1]] + [h[2]] == m.f.read + h;
  }

  ghost function AfterPackedHeader(m: Machine, mode: nat, prop: byte, u: nat, p: nat): (r: Machine)
    requires mode < 4 && 1 <= u <= 0x20_0000 && 1 <= p <= 0x1_0000
    ensures r.f.state == Data
  {
    var h := PackedHeader(mode, prop, u, p);
    var f := m.f.(control := h[0], unpackSize := u, packSize := p, state := Data, read := m.f.read + h);
    if mode >= 2 then Machine(f.(needInitProp := false), m.c.(props := WithProp(m.c.props, prop)), m.pending)
    else Machine(f, m.c, m.pending)
  }

  lemma ControlBits(mode: nat, u: nat)
    requires mode < 4 && 1 <= u <= 0x20_0000
    ensures var b := 0x80 + 0x20 * mode + (u - 1) / 0x1_0000;
            b < 0x100 && b / 0x20 % 4 == mode && b % 0x20 == (u - 1) / 0x1_0000
  {
    var x := (u - 1) / 0x1_0000;
    assert x < 0x20;
    DivUnique(0x80 + 0x20 * mode + x, 0x20, 4 + mode, x);
  }

  lemma SizeBytes(u: nat)
    requires u > 0
    ensures (u - 1) / 0x1_0000 * 0x1_0000 + 0x100 * ((u - 1) / 0x100 % 0x100) + (u - 1) % 0x100 + 1 == u
  {
    var v := (u - 1) / 0x100;
    DivUnique(u - 1, 0x1_0000, v / 0x100, 0x100 * (v % 0x100) + (u - 1) % 0x100);
  }

  lemma {:induction false} HeadsJoin(m: Machine, g: seq<byte>, h: seq<byte>)
    requires Heads(m, g) && Heads(AfterHeader(m, g), h)
    ensures Heads(m, g + h) && AfterHeader(m, g + h) == AfterHeader(AfterHeader(m, g), h)
    decreases |g|
  {
    hide HeaderTurn, InHeader;
    if g == [] {
      assert g + h == h;
    } else {
      assert (g + h)[1..] == g[1..] + h;
      HeadsJoin(HeaderTurn(m, g[0]), g[1..], h);
    }
  }

  lemma ThreeHeaded(m: Machine, x: byte, y: byte, z: byte)
    requires var a, b := HeaderTurn(m, x), HeaderTurn(HeaderTurn(m, x), y);
             InHeader(m.f.state) && InHeader(a.f.state) && InHeader(b.f.state)
    ensures Heads(m, [x, y, z]) && AfterHeader(m, [x, y, z]) == HeaderTurn(HeaderTurn(HeaderTurn(m, x), y), z)
  {
    hide HeaderTurn, InHeader;
    TwoHeaded(HeaderTurn(m, x), y, z);
    assert [x, y, z][1..] == [y, z];
  }

  lemma TwoHeaded(m: Machine, x: byte, y: byte)
    requires InHeader(m.f.state) && InHeader(HeaderTurn(m, x).f.state)
    ensures Heads(m, [x, y]) && AfterHeader(m, [x, y]) == HeaderTurn(HeaderTurn(m, x), y)
  {
    hide HeaderTurn, InHeader;
    var a := HeaderTurn(m, x);
    assert [x, y][1..] == [y] && [y][1..] == [];
    assert Heads(a, [y]) && AfterHeader(a, [y]) == HeaderTurn(a, y);
  }

  lemma UnpackTurns(m: Machine, x: byte, y: byte, z: byte)
    requires m.f.state == Control && !Plain(x)
    ensures var a, b := HeaderTurn(m, x), HeaderTurn(HeaderTurn(m, x), y);
            && a.f.state == Unpack0 && b.f.state == Unpack1
            && HeaderTurn(b, z) == m.(f := m.f.(control := x, unpackSize := Base(x) + 0x100 * y as int + z as int + 1, state := Pack0,
                                                read := m.f.read + [x, y, z]))
  {
    hide Base;
    assert m.f.read + [x] + [y] + [z] == m.f.read + [x, y, z];
  }

  /** The bytes of the unpack size. */
  lemma UnpackHeaded(m: Machine, mode: nat, u: nat)
    requires m.f.state == Control && mode < 4 && 1 <= u <= 0x20_0000
    ensures var h := PackedHeader(mode, 0, u, 1)[..3];
            Heads(m, h) && AfterHeader(m, h) == m.(f := m.f.(control := h[0], unpackSize := u, state := Pack0, read := m.f.read + h))
  {
    hide Heads, AfterHeader, HeaderTurn;
    var h := PackedHeader(mode, 0, u, 1)[..3];
    ControlBits(mode, u);
    SizeBytes(u);
    var x, y, z := h[0], h[1], h[2];
    assert h == [x, y, z];
    UnpackTurns(m, x, y, z);
    ThreeHeaded(m, x, y, z);
  }

  lemma PackSizeHeaded(m: Machine, p: nat)
    requires m.f.state == Pack0 && 1 <= p <= 0x1_0000
    ensures var h := [(p - 1) / 0x100, (p - 1) % 0x100];
            Heads(m, h) && AfterHeader(m, h) ==
            m.(f := m.f.(packSize := p, read := m.f.read + h,
                         state := if Mode(m.f.control) >= 2 then Prop else if m.f.needInitProp then State.Error else Data))
  {
    hide Mode;
    var x, y := (p - 1) / 0x100, (p - 1) % 0x100;
    TwoHeaded(m, x, y);
    assert m.f.read + [x] + [y] == m.f.read + [x, y];
  }

  /** The first five bytes. */
  lemma SizesHeaded(m: Machine, mode: nat, u: nat, p: nat)
    requires m.f.state == Control && mode < 4 && 1 <= u <= 0x20_0000 && 1 <= p <= 0x1_0000
    ensures var h := PackedHeader(mode, 0, u, p)[..5];
            Heads(m, h) && AfterHeader(m, h) ==
            m.(f := m.f.(control := h[0], unpackSize := u, packSize := p, read := m.f.read + h,
                         state := if mode >= 2 then Prop else if m.f.needInitProp then State.Error else Data))
  {
    hide Heads, AfterHeader, HeaderTurn;
    var h := PackedHeader(mode, 0, u, p)[..5];
    var g, l := PackedHeader(mode, 0, u, 1)[..3], [(p - 1) / 0x100, (p - 1) % 0x100];
    assert h == g + l && h[0] == g[0];
    ControlBits(mode, u);
    UnpackHeaded(m, mode, u);
    PackSizeHeaded(AfterHeader(m, g), p);
    HeadsJoin(m, g, l);
    assert m.f.read + g + l == m.f.read + h;
  }

  lemma PackedHeaded(m: Machine, mode: nat, prop: byte, u: nat, p: nat)
    requires m.f.state == Control && mode < 4 && 1 <= u <= 0x20_0000 && 1 <= p <= 0x1_0000
    requires if mode >= 2 then AcceptedProp(prop) else !m.f.needInitProp
    ensures var h := PackedHeader(mode, prop, u, p);
            Heads(m, h) && AfterHeader(m, h) == AfterPackedHeader(m, mode, prop, u, p)
  {
    hide AcceptedProp, WithProp;
    var h := PackedHeader(mode, prop, u, p);
    var g, l := h[..5], if mode >= 2 then [prop] else [];
    assert g == PackedHeader(mode, 0, u, p)[..5] && h == g + l;
    SizesHeaded(m, mode, u, p);
    var e := AfterHeader(m, g);
    assert mode >= 2 ==> l[1..] == [];
    assert m.f.read + g + l == m.f.read + h;
    HeadsJoin(m, g, l);
  }

  // ----- One chunk -------------------------------------------------------------------------------------------

  /** A chunk to be decoded: data as it is, or symbols. */
  datatype Block = AsIs(resetDic: bool, data: seq<byte>) | Packing(mode: nat, prop: byte, symbols: seq<Symbol>)

  /** The LZMA decoder when the data of an LZMA chunk begins. */
  function BlockCore(m: Machine, mode: nat, prop: byte): Core {
    Restarted(if mode >= 2 then m.c.(props := WithProp(m.c.props, prop)) else m.c, mode == 3, mode > 0)
  }

  lemma BlockWaits(m: Machine, mode: nat, prop: byte)
    requires Fit(m)
    ensures Waiting(BlockCore(m, mode, prop))
  {
    hide NumProbs, ValidState;
    var m' := m.(f := m.f.(state := Prop));
    HeaderGoes(m', prop);
    FitProbs(m);
    FitProbs(HeaderTurn(m', prop));
    RestartedValid(if mode >= 2 then HeaderTurn(m', prop).c else m.c, mode == 3, mode > 0);
  }

  /** What is asked for is there or brought by the chunk, and sizes fit its header. */
  ghost predicate Brings(m: Machine, b: Block)
    requires Fit(m)
  {
    && m.f.state == Control
    && match b
       case AsIs(resetDic, data) => 1 <= |data| <= 0x1_0000 && (resetDic || !m.f.needInitDic)
       case Packing(mode, prop, symbols) =>
         && mode < 4 && (mode == 3 || !m.f.needInitDic) && (mode >= 1 || !m.f.needInitState)
         && (if mode >= 2 then AcceptedProp(prop) else !m.f.needInitProp)
         && SymbolsFit(m, mode, prop, symbols)
  }

  ghost predicate SymbolsFit(m: Machine, mode: nat, prop: byte, symbols: seq<Symbol>)
    requires Fit(m)
  {
    BlockWaits(m, mode, prop);
    var c := BlockCore(m, mode, prop);
    && symbols != [] && Suits(Opened(c), symbols)
    && |Output(Opened(c), symbols)| - |c.hist| <= 0x20_0000 && |Encoded(c, symbols)| <= 0x1_0000
  }

  ghost function BlockOutput(m: Machine, b: Block): seq<byte>
    requires Fit(m) && Brings(m, b)
  {
    match b
    case AsIs(_, data) => data
    case Packing(mode, prop, symbols) =>
      BlockWaits(m, mode, prop);
      var c := BlockCore(m, mode, prop);
      Output(Opened(c), symbols)[|c.hist|..]
  }

  ghost function BlockBytes(m: Machine, b: Block): (s: seq<byte>)
    requires Fit(m) && Brings(m, b)
  {
    match b
    case AsIs(resetDic, data) => PlainHeader(resetDic, |data|) + data
    case Packing(mode, prop, symbols) =>
      BlockWaits(m, mode, prop);
      var e := Encoded(BlockCore(m, mode, prop), symbols);
      PackedHeader(mode, prop, |BlockOutput(m, b)|, |e|) + e
  }

  // ----- Plain chunks ----------------------------------------------------------------------------------------

  ghost function AfterPlain(m: Machine, resetDic: bool, data: seq<byte>): Machine
    requires 1 <= |data| <= 0x1_0000
  {
    var s := Started(AfterPlainHeader(m, resetDic, |data|));
    Machine(AfterRaw(s.f, data), s.c.(hist := s.c.hist + data), [])
  }

  lemma PlainData(m: Machine, resetDic: bool, data: seq<byte>, more: seq<byte>, room: nat, mustEnd: bool)
    requires Fit(m) && Brings(m, AsIs(resetDic, data)) && |data| <= room
    requires Fit(AfterPlainHeader(m, resetDic, |data|))
    ensures Turn2(AfterPlainHeader(m, resetDic, |data|), data + more, room, mustEnd)
         == Goes(AfterPlain(m, resetDic, data), more, room - |data|)
    ensures AfterPlain(m, resetDic, data).f.state == Control && AfterPlain(m, resetDic, data).f.out == m.f.out + data
  {
    hide Fit, Restarted;
    assert (data + more)[..|data|] == data && (data + more)[|data|..] == more;
  }

  lemma PlainRuns(m: Machine, resetDic: bool, data: seq<byte>, more: seq<byte>, room: nat, mustEnd: bool)
    requires Fit(m) && Brings(m, AsIs(resetDic, data)) && |data| <= room
    ensures var d := AfterPlain(m, resetDic, data);
            && Fit(d) && d.f.state == Control && d.f.out == m.f.out + data
            && Decode2(m, PlainHeader(resetDic, |data|) + data + more, room, mustEnd) == Decode2(d, more, room - |data|, mustEnd)
  {
    hide Fit, Heads, AfterHeader, PlainHeader, AfterPlainHeader, Turn2, AfterPlain;
    var h := PlainHeader(resetDic, |data|);
    PlainHeaded(m, resetDic, |data|);
    HeaderRuns(m, h, data + more, room, mustEnd);
    assert h + data + more == h + (data + more);
    PlainData(m, resetDic, data, more, room, mustEnd);
    DecodeTurn(AfterHeader(m, h), data + more, room, mustEnd);
  }

  // ----- LZMA chunks -----------------------------------------------------------------------------------------

  /** The result of the LZMA decoder for the data of the chunk. */
  lemma BlockDecodes(c: Core, symbols: seq<Symbol>)
    requires Waiting(c) && Suits(Opened(c), symbols)
    ensures ValidCore(c) && |c.hist| <= |Output(Opened(c), symbols)|
    ensures var out := Output(Opened(c), symbols);
            var r := Decode(c, Encoded(c, symbols), |out|, true);
            r.Stop? && ValidCore(r.c) && r == Stop(r.c, [], MaybeFinished) && r.c.hist == out && c.hist <= out
            && Decode(r.c, [], |out|, true) == r
  {
    hide Suits, Opened, Output, Encoded, Decode, ValidState, NumProbs;
    Decodes(c, symbols, true);
    var out := Output(Opened(c), symbols);
    DecodeAgain(c, Encoded(c, symbols), |out|, true);
    DecodeKeeps(c, Encoded(c, symbols), |out|, true);
  }

  /** A machine at the beginning of the data for symbols. */
  ghost predicate Loaded(s: Machine, symbols: seq<Symbol>) {
    && Waiting(s.c) && Suits(Opened(s.c), symbols) && s.pending == []
    && s.f.packSize == |Encoded(s.c, symbols)| && |s.c.hist| + s.f.unpackSize == |Output(Opened(s.c), symbols)|
  }

  ghost function DataOf(s: Machine, symbols: seq<Symbol>): seq<byte>
    requires Loaded(s, symbols)
  {
    Encoded(s.c, symbols)
  }

  /** The machine when they are decoded. */
  ghost function Unpacked(s: Machine, symbols: seq<Symbol>): (n: Machine)
    requires Loaded(s, symbols)
    ensures n.pending == [] && n.f.packSize == 0 && n.f.unpackSize == 0 && n.f.state == s.f.state && n.f.control == s.f.control
    ensures n.f.out == s.f.out + Output(Opened(s.c), symbols)[|s.c.hist|..]
    ensures n.c.hist == Output(Opened(s.c), symbols) && ValidCore(n.c)
    ensures Decode(n.c, [], |n.c.hist|, true) == Stop(n.c, [], MaybeFinished)
  {
    hide Suits, Opened, Output, Encoded, Decode, Waiting, ValidCore;
    BlockDecodes(s.c, symbols);
    var e, out := Encoded(s.c, symbols), Output(Opened(s.c), symbols);
    PackedNext(s, e, |e|, Decode(s.c, e, |out|, true).c, [])
  }

  /** They are decoded in one turn. */
  lemma FirstTurn(s: Machine, symbols: seq<Symbol>, more: seq<byte>, room: nat)
    requires Loaded(s, symbols) && s.f.unpackSize <= room
    ensures ValidCore(s.c)
    ensures PackedTurn(s, DataOf(s, symbols) + more, room) == Goes(Unpacked(s, symbols), more, room - s.f.unpackSize)
  {
    hide Suits, Opened, Output, Encoded, Decode, Waiting, PackedTurn, ValidCore, AfterPacked;
    BlockDecodes(s.c, symbols);
    var e, out := Encoded(s.c, symbols), Output(Opened(s.c), symbols);
    var r := Decode(s.c, e, |out|, true);
    assert (e + more)[..|e|] == e && (e + more)[|e|..] == more && s.pending + e == e && e[..|e|] == e;
    assert PackedResult(s, e + more, room) == r;
    PackedTurnIs(s, e + more, room, |e|, [], PackedNext(s, e + more, |e|, r.c, []));
  }

  /** The next turn finds that nothing is left of it. */
  lemma SecondTurn(n: Machine, more: seq<byte>, room: nat)
    requires ValidCore(n.c) && n.pending == [] && n.f.packSize == 0 && n.f.unpackSize == 0
    requires Decode(n.c, [], |n.c.hist|, true) == Stop(n.c, [], MaybeFinished)
    ensures PackedTurn(n, more, room) == Goes(n.(f := n.f.(state := Control)), more, room)
  {
    hide Decode, PackedTurn, ValidCore;
    assert more[..0] == [] && more[0..] == more && n.pending + more[..0] == [];
    assert PackedResult(n, more, room) == Stop(n.c, [], MaybeFinished);
    var n' := PackedNext(n, more, 0, n.c, []);
    assert n.c.hist[|n.c.hist|..] == [] && n.f.read + [] == n.f.read && n.f.out + [] == n.f.out;
    assert n' == n;
    PackedTurnIs(n, more, room, 0, [], n');
  }

  lemma PackedStarts(m: Machine, mode: nat, prop: byte, u: nat, p: nat)
    requires mode < 4 && 1 <= u <= 0x20_0000 && 1 <= p <= 0x1_0000
    ensures var d := AfterPackedHeader(m, mode, prop, u, p);
            var s := Started(d);
            && !Plain(d.f.control) && Mode(d.f.control) == mode
            && s.c == BlockCore(m, mode, prop) && s.pending == [] && s.f.packSize == p && s.f.unpackSize == u && s.f.out == m.f.out
            && s.f.state == DataCont
  {
    hide WithProp;
    ControlBits(mode, u);
  }

  /** The machine with the header of the chunk read. */
  ghost function Announcing(m: Machine, mode: nat, prop: byte, symbols: seq<Symbol>): (d: Machine)
    requires Fit(m) && mode < 4 && SymbolsFit(m, mode, prop, symbols)
    ensures d.f.state == Data && !Plain(d.f.control) && Mode(d.f.control) == mode
    ensures Started(d).f.state == DataCont && Started(d).f.control == d.f.control && Started(d).f.out == m.f.out
    ensures Loaded(Started(d), symbols) && Started(d).c == BlockCore(m, mode, prop)
  {
    hide Fit, Suits, Opened, Output, Encoded, Waiting, Started, WithProp;
    BlockWaits(m, mode, prop);
    var c := BlockCore(m, mode, prop);
    var e, u := Encoded(c, symbols), |Output(Opened(c), symbols)| - |c.hist|;
    PackedStarts(m, mode, prop, u, |e|);
    AfterPackedHeader(m, mode, prop, u, |e|)
  }

  ghost function AfterPacking(m: Machine, mode: nat, prop: byte, symbols: seq<Symbol>): (r: Machine)
    requires Fit(m) && mode < 4 && SymbolsFit(m, mode, prop, symbols)
    ensures r.f.state == Control
  {
    var n := Unpacked(Started(Announcing(m, mode, prop, symbols)), symbols);
    n.(f := n.f.(state := Control))
  }

  /** The two turns, with the data of the chunk to begin. */
  lemma LoadedRuns(d: Machine, symbols: seq<Symbol>, more: seq<byte>, room: nat, mustEnd: bool)
    requires Fit(d) && d.f.state == Data && !Plain(d.f.control) && !Refused(d.f)
    requires Started(d).f.state == DataCont && Started(d).f.control == d.f.control && Loaded(Started(d), symbols)
    requires 0 < Started(d).f.unpackSize <= room && (Started(d).f.unpackSize < room || mustEnd)
    ensures var s := Started(d);
            var n := Unpacked(s, symbols);
            var n' := n.(f := n.f.(state := Control));
            && Fit(n')
            && Decode2(d, DataOf(s, symbols) + more, room, mustEnd) == Decode2(n', more, room - s.f.unpackSize, mustEnd)
  {
    hide Fit, Started, Loaded, DataOf, PackedTurn, Refused, Unpacked, ValidCore, Decode;
    var s, left := Started(d), room - Started(d).f.unpackSize;
    var n := Unpacked(s, symbols);
    var src := DataOf(s, symbols) + more;
    FirstTurn(s, symbols, more, room);
    assert Turn2(d, src, room, mustEnd) == Goes(n, more, left);
    DecodeTurn(d, src, room, mustEnd);
    SecondTurn(n, more, left);
    StaysStarted(n);
    assert Turn2(n, more, left, mustEnd) == Goes(n.(f := n.f.(state := Control)), more, left);
    DecodeTurn(n, more, left, mustEnd);
  }

  lemma StaysStarted(m: Machine)
    requires m.f.state == DataCont
    ensures Started(m) == m
  {
  }

  /** Header, data and sizes belong together. */
  lemma Announces(m: Machine, mode: nat, prop: byte, symbols: seq<Symbol>)
    requires Fit(m) && Brings(m, Packing(mode, prop, symbols))
    ensures m.f.state == Control && mode < 4 && (mode == 3 || !m.f.needInitDic) && (mode >= 1 || !m.f.needInitState)
    ensures (if mode >= 2 then AcceptedProp(prop) else !m.f.needInitProp) && SymbolsFit(m, mode, prop, symbols)
    ensures var b, d := Packing(mode, prop, symbols), Announcing(m, mode, prop, symbols);
            var e := DataOf(Started(d), symbols);
            var u := |BlockOutput(m, b)|;
            && 1 <= u <= 0x20_0000 && 1 <= |e| <= 0x1_0000
            && BlockBytes(m, b) == PackedHeader(mode, prop, u, |e|) + e
            && d == AfterPackedHeader(m, mode, prop, u, |e|) && Started(d).f.unpackSize == u
            && var n := Unpacked(Started(d), symbols);
               AfterPacking(m, mode, prop, symbols) == n.(f := n.f.(state := Control)) && n.f.out == m.f.out + BlockOutput(m, b)
  {
    hide Fit, AfterPackedHeader, PackedHeader, Started, Encoded, Waiting, Unpacked, Suits, Opened, Output, AcceptedProp, BlockCore;
    BlockWaits(m, mode, prop);
  }

  lemma PackedHeaderRuns(m: Machine, mode: nat, prop: byte, u: nat, p: nat, src: seq<byte>, room: nat, mustEnd: bool)
    requires Fit(m) && m.f.state == Control && mode < 4 && 1 <= u <= 0x20_0000 && 1 <= p <= 0x1_0000
    requires (mode == 3 || !m.f.needInitDic) && (mode >= 1 || !m.f.needInitState)
    requires (if mode >= 2 then AcceptedProp(prop) else !m.f.needInitProp) && (room > 0 || mustEnd)
    ensures var d := AfterPackedHeader(m, mode, prop, u, p);
            && Fit(d) && !Refused(d.f)
            && Decode2(m, PackedHeader(mode, prop, u, p) + src, room, mustEnd) == Decode2(d, src, room, mustEnd)
  {
    hide Fit, Heads, AfterHeader, AfterPackedHeader, PackedHeader, AcceptedProp, Refused, Decode2;
    PackedHeaded(m, mode, prop, u, p);
    HeaderRuns(m, PackedHeader(mode, prop, u, p), src, room, mustEnd);
    NotRefused(m, mode, prop, u, p);
  }

  lemma PackedRuns(m: Machine, mode: nat, prop: byte, symbols: seq<Symbol>, more: seq<byte>, room: nat, mustEnd: bool)
    requires Fit(m) && Brings(m, Packing(mode, prop, symbols))
    requires var n := |BlockOutput(m, Packing(mode, prop, symbols))|; n < room || (n == room && mustEnd)
    ensures var b, d := Packing(mode, prop, symbols), AfterPacking(m, mode, prop, symbols);
            && Fit(d) && d.f.out == m.f.out + BlockOutput(m, b)
            && Decode2(m, BlockBytes(m, b) + more, room, mustEnd) == Decode2(d, more, room - |BlockOutput(m, b)|, mustEnd)
  {
    hide *;
    Announces(m, mode, prop, symbols);
    var d, b := Announcing(m, mode, prop, symbols), Packing(mode, prop, symbols);
    var e, u := DataOf(Started(d), symbols), |BlockOutput(m, b)|;
    PackedHeaderRuns(m, mode, prop, u, |e|, e + more, room, mustEnd);
    LoadedRuns(d, symbols, more, room, mustEnd);
    assert PackedHeader(mode, prop, u, |e|) + e + more == PackedHeader(mode, prop, u, |e|) + (e + more);
  }

  lemma NotRefused(m: Machine, mode: nat, prop: byte, u: nat, p: nat)
    requires mode < 4 && 1 <= u <= 0x20_0000 && 1 <= p <= 0x1_0000
    requires (mode == 3 || !m.f.needInitDic) && (mode >= 1 || !m.f.needInitState)
    ensures !Refused(AfterPackedHeader(m, mode, prop, u, p).f)
  {
    ControlBits(mode, u);
  }

  // ----- Streams ---------------------------------------------------------------------------------------------

  /** The machine after the chunk. */
  ghost function AfterBlock(m: Machine, b: Block): (d: Machine)
    requires Fit(m) && Brings(m, b)
    ensures Fit(d) && d.f.state == Control && d.f.out == m.f.out + BlockOutput(m, b)
  {
    BlockRuns(m, b, [], |BlockOutput(m, b)|, true);
    match b
    case AsIs(resetDic, data) => AfterPlain(m, resetDic, data)
    case Packing(mode, prop, symbols) => AfterPacking(m, mode, prop, symbols)
  }

  /** A chunk is decoded to its output, and the loop goes on behind it. */
  lemma BlockRuns(m: Machine, b: Block, more: seq<byte>, room: nat, mustEnd: bool)
    requires Fit(m) && Brings(m, b)
    requires |BlockOutput(m, b)| < room || (|BlockOutput(m, b)| == room && mustEnd)
    ensures var d := match b
                     case AsIs(resetDic, data) => AfterPlain(m, resetDic, data)
                     case Packing(mode, prop, symbols) => AfterPacking(m, mode, prop, symbols);
            && Fit(d) && d.f.state == Control && d.f.out == m.f.out + BlockOutput(m, b)
            && Decode2(m, BlockBytes(m, b) + more, room, mustEnd) == Decode2(d, more, room - |BlockOutput(m, b)|, mustEnd)
  {
    hide Fit, Decode2, AfterPlain, PlainHeader, SymbolsFit, AcceptedProp, PackedHeader, BlockCore, Encoded, Output, Opened;
    match b
    case AsIs(resetDic, data) => PlainRuns(m, resetDic, data, more, room, mustEnd);
    case Packing(mode, prop, symbols) => PackedRuns(m, mode, prop, symbols, more, room, mustEnd);
  }

  /** Chunks each of which brings what is asked for. */
  ghost predicate Lawful(m: Machine, blocks: seq<Block>)
    requires Fit(m)
    decreases |blocks|
  {
    blocks != [] ==> Brings(m, blocks[0]) && Lawful(AfterBlock(m, blocks[0]), blocks[1..])
  }

  ghost function AllBytes(m: Machine, blocks: seq<Block>): seq<byte>
    requires Fit(m) && Lawful(m, blocks)
    decreases |blocks|
  {
    if blocks == [] then [] else BlockBytes(m, blocks[0]) + AllBytes(AfterBlock(m, blocks[0]), blocks[1..])
  }

  ghost function AllOutput2(m: Machine, blocks: seq<Block>): seq<byte>
    requires Fit(m) && Lawful(m, blocks)
    decreases |blocks|
  {
    if blocks == [] then [] else BlockOutput(m, blocks[0]) + AllOutput2(AfterBlock(m, blocks[0]), blocks[1..])
  }

  /** Chunks and a zero byte are a stream: it decodes to the output of all of them, and what follows is left. */
  lemma {:induction false} StreamDecodes(m: Machine, blocks: seq<Block>, more: seq<byte>, room: nat, mustEnd: bool)
    requires Fit(m) && m.f.state == Control && Lawful(m, blocks)
    requires |AllOutput2(m, blocks)| < room || (|AllOutput2(m, blocks)| == room && mustEnd)
    ensures var r := Decode2(m, AllBytes(m, blocks) + [0] + more, room, mustEnd);
            r.Stop2? && r.m.f.out == m.f.out + AllOutput2(m, blocks) && r.rest == more
            && r.room == room - |AllOutput2(m, blocks)| && r.status == FinishedWithMark
    decreases |blocks|
  {
    hide Fit, Decode2, Brings, BlockOutput, BlockBytes, AfterBlock, AfterPlain, AfterPacking;
    if blocks == [] {
      assert AllBytes(m, blocks) + [0] + more == [0] + more && m.f.out + [] == m.f.out;
      ZeroEnds(m, more, room, mustEnd);
    } else {
      var b := blocks[0];
      var d, n := AfterBlock(m, b), |BlockOutput(m, b)|;
      var rest := AllBytes(d, blocks[1..]) + [0] + more;
      assert AllBytes(m, blocks) + [0] + more == BlockBytes(m, b) + rest;
      BlockLeads(m, b, rest, room, mustEnd);
      StreamDecodes(d, blocks[1..], more, room - n, mustEnd);
      assert m.f.out + BlockOutput(m, b) + AllOutput2(d, blocks[1..]) == m.f.out + AllOutput2(m, blocks);
    }
  }

  lemma BlockLeads(m: Machine, b: Block, more: seq<byte>, room: nat, mustEnd: bool)
    requires Fit(m) && Brings(m, b)
    requires |BlockOutput(m, b)| < room || (|BlockOutput(m, b)| == room && mustEnd)
    ensures Decode2(m, BlockBytes(m, b) + more, room, mustEnd) == Decode2(AfterBlock(m, b), more, room - |BlockOutput(m, b)|, mustEnd)
  {
    hide Fit, Decode2, Brings, BlockOutput, BlockBytes, AfterPlain, AfterPacking;
    BlockRuns(m, b, more, room, mustEnd);
  }

  lemma ZeroEnds(m: Machine, more: seq<byte>, room: nat, mustEnd: bool)
    requires Fit(m) && m.f.state == Control && (room > 0 || mustEnd)
    ensures var r := Decode2(m, [0] + more, room, mustEnd);
            r.Stop2? && r.m.f.out == m.f.out && r.rest == more && r.room == room && r.status == FinishedWithMark
  {
    hide Fit;
    assert ([0] + more)[1..] == more;
    DecodeTurn(m, [0] + more, room, mustEnd);
  }
}
