/**
  BCJ2: four streams - code without the targets of its jumps, the targets of calls, the targets of other jumps, and
  range coded bits that say which jumps have a target - are put together again. `Run` is the decoding on values.
  The output may lie over the main stream; `Decode` shows when that does no harm.
*/
module Bcj2 {
  import opened Words
  import opened RangeCoder
  import opened LzmaBits

  predicate IsJ(b0: byte, b1: byte) {
    b1 == 0xE8 || b1 == 0xE9 || (b0 == 0x0F && b1 as int / 0x10 == 8)
  }

  const NUM_PROBS := 258

  /** The macro IsJ, on bits. */
  lemma OpcodeBits(b0: byte, b1: byte)
    ensures IsJ(b0, b1) <==> b1 as bv8 & 0xFE == 0xE8 || (b0 as bv8 == 0x0F && b1 as bv8 & 0xF0 == 0x80)
  {
  }

  function Slot(prev: byte, b: byte): nat {
    if b == 0xE8 then prev else if b == 0xE9 then 256 else 257
  }

  /** What is left of the inputs, and the output so far. */
  datatype St = St(main: seq<byte>, call: seq<byte>, jump: seq<byte>, rc: Rc, probs: seq<prob>, prev: byte, out: seq<byte>)

  predicate Ready(s: St) {
    |s.probs| == NUM_PROBS && s.rc.range >= TOP
  }

  function Big(v: seq<byte>): word
    requires |v| >= 4
  {
    0x100_0000 * v[0] as int + 0x1_0000 * v[1] as int + 0x100 * v[2] as int + v[3] as int
  }

  function Little(d: word): (r: seq<byte>)
    ensures |r| == 4
  {
    [d as int % 0x100, d as int / 0x100 % 0x100, d as int / 0x1_0000 % 0x100, d as int / 0x100_0000]
  }

  datatype Next = Fails | Ends(s: St) | Goes(s: St)

  /** The target of a jump, as far as there is room for it. */
  function Jump(s: St, b: byte, outSize: nat): (r: Next)
    requires Ready(s) && |s.out| < outSize
    ensures r.Goes? ==> Ready(r.s) && r.s.main == s.main && |r.s.out| <= outSize && |r.s.out| == |s.out| + 4 && s.out <= r.s.out
    ensures r.Ends? ==> |r.s.out| == outSize && s.out <= r.s.out
  {
    var v := if b == 0xE8 then s.call else s.jump;
    if |v| < 4 then Fails
    else
      var d := Little((Big(v) - (|s.out| + 4)) % TWO32);
      var t := if b == 0xE8 then s.(call := v[4..]) else s.(jump := v[4..]);
      if outSize - |s.out| < 4 then Ends(t.(out := s.out + d[..outSize - |s.out|]))
      else Goes(t.(out := s.out + d, prev := d[3]))
  }

  /** The byte b, which has just been output, may be followed by a target. */
  function Branch(s: St, b: byte, outSize: nat): (r: Next)
    requires Ready(s) && |s.out| < outSize
    ensures r.Goes? ==> Ready(r.s) && r.s.main == s.main && |r.s.out| <= outSize && s.out <= r.s.out
    ensures r.Ends? ==> |r.s.out| == outSize && s.out <= r.s.out
  {
    var i := Slot(s.prev, b);
    var bit, rc := ModelBit(s.rc, s.probs[i]), AfterModelBit(s.rc, s.probs[i]);
    if Starved(rc) then Fails
    else
      var t := s.(rc := Normalized(rc), probs := s.probs[i := Adapted(s.probs[i], bit)]);
      if bit then Jump(t, b, outSize) else Goes(t.(prev := b))
  }

  datatype Outcome = Fail | End(s: St)

  function Copied(s: St): St
    requires s.main != []
  {
    s.(main := s.main[1..], out := s.out + [s.main[0]])
  }

  function Run(s: St, outSize: nat): (r: Outcome)
    requires Ready(s) && |s.out| <= outSize
    ensures r.End? ==> s.out <= r.s.out && |r.s.out| <= outSize
    decreases |s.main|, 1
  {
    if s.main == [] || |s.out| == outSize then End(s)
    else
      var b, t := s.main[0], Copied(s);
      if !IsJ(s.prev, b) then Run(t.(prev := b), outSize) else AfterJ(t, b, outSize)
  }

  /** The rest, after an opcode b that may have a target. */
  function AfterJ(t: St, b: byte, outSize: nat): (r: Outcome)
    requires Ready(t) && |t.out| <= outSize
    ensures r.End? ==> t.out <= r.s.out && |r.s.out| <= outSize
    decreases |t.main|, 2
  {
    if |t.out| == outSize then End(t)
    else
      match Branch(t, b, outSize)
      case Fails => Fail
      case Ends(u) => End(u)
      case Goes(u) => Run(u, outSize)
  }

  function NextOutcome(n: Next, outSize: nat): Outcome
    requires n.Goes? ==> Ready(n.s) && |n.s.out| <= outSize
  {
    match n
    case Fails => Fail
    case Ends(u) => End(u)
    case Goes(u) => Run(u, outSize)
  }

  lemma AfterJStep(t: St, b: byte, outSize: nat)
    requires Ready(t) && |t.out| < outSize
    ensures AfterJ(t, b, outSize) == NextOutcome(Branch(t, b, outSize), outSize)
  {
  }

  datatype Opcode = Call | Jump32 | Conditional

  function OpcodeOf(b: byte): Opcode {
    if b == 0xE8 then Call else if b == 0xE9 then Jump32 else Conditional
  }

  /** The bits of calls are predicted from the byte before; all near jumps share one probability, all conditional jumps
      another. */
  lemma SlotsShared(prev: byte, b: byte, prev': byte, b': byte)
    ensures Slot(prev, b) < NUM_PROBS
    ensures Slot(prev, b) == Slot(prev', b') <==> OpcodeOf(b) == OpcodeOf(b') && (OpcodeOf(b).Call? ==> prev == prev')
  {
  }

  /** The byte before is always the last of the output, be it of an opcode or of a target. */
  lemma PrevIsLast(t: St, b: byte, outSize: nat)
    requires Ready(t) && |t.out| < outSize && t.out != [] && t.out[|t.out| - 1] == b && Branch(t, b, outSize).Goes?
    ensures var u := Branch(t, b, outSize).s; u.out != [] && u.prev == u.out[|u.out| - 1]
  {
    hide Little, Big;
  }

  /** A target comes from the stream for its opcode, and only the bit says whether there is one. */
  lemma TargetFrom(t: St, b: byte, outSize: nat)
    requires Ready(t) && |t.out| < outSize && Branch(t, b, outSize).Goes?
    ensures var u, bit := Branch(t, b, outSize).s, ModelBit(t.rc, t.probs[Slot(t.prev, b)]);
            && |u.out| == |t.out| + (if bit then 4 else 0)
            && (bit && OpcodeOf(b).Call? ==> u.jump == t.jump && |t.call| >= 4 && u.call == t.call[4..])
            && (bit && !OpcodeOf(b).Call? ==> u.call == t.call && |t.jump| >= 4 && u.jump == t.jump[4..])
            && (!bit ==> u.call == t.call && u.jump == t.jump)
  {
    hide Little, Big;
  }

  /** The bytes of a word, least significant first. */
  lemma LittleValue(d: word)
    ensures var t := Little(d); t[0] as int + 0x100 * t[1] as int + 0x1_0000 * t[2] as int + 0x100_0000 * t[3] as int == d
  {
    var q := d as int / 0x100;
    DivUnique(d, 0x1_0000, q / 0x100, 0x100 * (q % 0x100) + d as int % 0x100);
    DivUnique(d, 0x100_0000, q / 0x100 / 0x100, 0x1_0000 * (q / 0x100 % 0x100) + 0x100 * (q % 0x100) + d as int % 0x100);
  }

  /** What a jump comes to: its four bytes are a displacement that leads from their end to the address in the stream. */
  lemma JumpLeads(s: St, b: byte, outSize: nat)
    requires Ready(s) && |s.out| < outSize && Jump(s, b, outSize).Goes?
    ensures var o := Jump(s, b, outSize).s.out;
            var n := |s.out|;
            var displacement := o[n] as int + 0x100 * o[n + 1] as int + 0x1_0000 * o[n + 2] as int + 0x100_0000 * o[n + 3] as int;
            (displacement + |o|) % TWO32 == Big(if b == 0xE8 then s.call else s.jump)
  {
    hide Big, Little;
    var v := Big(if b == 0xE8 then s.call else s.jump);
    var d: word := (v - (|s.out| + 4)) % TWO32;
    LittleValue(d);
    var o := Jump(s, b, outSize).s.out;
    assert o[|s.out|..] == Little(d);
    assert o[|s.out|..][0] == o[|s.out|] && o[|s.out|..][1] == o[|s.out| + 1] && o[|s.out|..][2] == o[|s.out| + 2] && o[|s.out|..][3] == o[|s.out| + 3];
    WordSum(v - (|s.out| + 4), |s.out| + 4);
    DivUnique(v, TWO32, 0, v);
  }

  lemma RunStep(s: St, outSize: nat)
    requires Ready(s) && |s.out| < outSize && s.main != []
    ensures var b, t := s.main[0], Copied(s);
            Run(s, outSize) == if IsJ(s.prev, b) then AfterJ(t, b, outSize) else Run(t.(prev := b), outSize)
  {
    hide AfterJ;
  }

  const INIT_SIZE := 5

  function Start(main: seq<byte>, call: seq<byte>, jump: seq<byte>, bits: seq<byte>): St
    requires |bits| >= INIT_SIZE
  {
    St(main, call, jump, Rc(TWO32 - 1, Big(bits[1..]), bits[INIT_SIZE..]), seq(NUM_PROBS, i => 1024), 0, [])
  }

  /** The first bytes, shifted in one by one. */
  function First(bits: seq<byte>, n: nat): word
    requires n <= |bits|
  {
    if n == 0 then 0 else (0x100 * First(bits, n - 1) + bits[n - 1]) % TWO32
  }

  lemma FirstFive(bits: seq<byte>)
    requires |bits| >= INIT_SIZE
    ensures First(bits, INIT_SIZE) == Big(bits[1..])
  {
    var four := 0x100_0000 * bits[0] as int + 0x1_0000 * bits[1] as int + 0x100 * bits[2] as int + bits[3] as int;
    assert First(bits, 1) == bits[0];
    assert First(bits, 2) == 0x100 * bits[0] as int + bits[1] as int;
    assert First(bits, 3) == 0x1_0000 * bits[0] as int + 0x100 * bits[1] as int + bits[2] as int;
    assert First(bits, 4) == four;
    DivUnique(0x100 * four + bits[4] as int, TWO32, bits[0], Big(bits[1..]));
  }

  function Whole(main: seq<byte>, call: seq<byte>, jump: seq<byte>, bits: seq<byte>, outSize: nat): Outcome {
    if |bits| < INIT_SIZE then Fail else Run(Start(main, call, jump, bits), outSize)
  }

  /** SZ_OK: all output is there. */
  predicate Fills(r: Outcome, outSize: nat) {
    r.End? && |r.s.out| == outSize
  }

  // ----- Room for decoding in place -------------------------------------------------------------------------

  /** Every step makes at least as much output as it takes from the main stream. */
  lemma {:induction false} OutputKeepsUp(s: St, outSize: nat)
    requires Ready(s) && |s.out| <= outSize && Run(s, outSize).End?
    ensures var t := Run(s, outSize).s; |t.out| - |s.out| >= |s.main| - |t.main|
    decreases |s.main|
  {
    if s.main == [] || |s.out| == outSize {
    } else {
      var b, t := s.main[0], Copied(s);
      if !IsJ(s.prev, b) {
        OutputKeepsUp(t.(prev := b), outSize);
      } else if |t.out| < outSize {
        var u := Branch(t, b, outSize);
        BranchKeepsMain(t, b, outSize);
        if u.Goes? {
          OutputKeepsUp(u.s, outSize);
        }
      }
    }
  }

  lemma BranchKeepsMain(s: St, b: byte, outSize: nat)
    requires Ready(s) && |s.out| < outSize
    ensures !Branch(s, b, outSize).Fails? ==> Branch(s, b, outSize).s.main == s.main
  {
  }

  /** Less output asked for is the beginning of more. */
  lemma {:induction false} Shorter(s: St, outSize: nat, full: nat)
    requires Ready(s) && |s.out| <= outSize <= full && Run(s, full).End?
    ensures Run(s, outSize).End?
    ensures var o, p := Run(s, outSize).s.out, Run(s, full).s.out;
            o == if |p| <= outSize then p else p[..outSize]
    decreases |s.main|
  {
    if s.main == [] || |s.out| == outSize {
      assert Run(s, full).s.out[..|s.out|] == s.out;
    } else {
      var b, t := s.main[0], Copied(s);
      if !IsJ(s.prev, b) {
        Shorter(t.(prev := b), outSize, full);
      } else if |t.out| == outSize {
        assert t.out <= Run(s, full).s.out;
      } else {
        var u, v := Branch(t, b, outSize), Branch(t, b, full);
        BranchShorter(t, b, outSize, full);
        if u.Goes? {
          Shorter(u.s, outSize, full);
        }
      }
    }
  }

  /** With less room a target may be cut off; nothing else changes. */
  lemma BranchShorter(s: St, b: byte, outSize: nat, full: nat)
    requires Ready(s) && |s.out| < outSize <= full && !Branch(s, b, full).Fails?
    ensures var u, v := Branch(s, b, outSize), Branch(s, b, full);
            && !u.Fails? && (u.Goes? ==> v == u) && (u.Ends? ==> u.s.out <= v.s.out)
  {
  }

  /** Decoding in place is safe when the main stream ends where the whole output would, or later, and the whole
      output takes all of it. */
  ghost predicate InPlace(main: seq<byte>, call: seq<byte>, jump: seq<byte>, bits: seq<byte>, end: nat, full: nat) {
    var r := Whole(main, call, jump, bits, full);
    full <= end && Fills(r, full) && r.s.main == []
  }

  // ----- The loop ------------------------------------------------------------------------------------------

  /** A call of Bcj2_Decode: its arguments and locals. The main stream is a part of an array, which may be the array
      that the output goes to. */
  class Decoding {
    const buf0: array<byte>
    const start0: nat
    const size0: nat
    const buf1: seq<byte>
    const buf2: seq<byte>
    const buf3: seq<byte>
    const outBuf: array<byte>
    const outSize: nat
    const p: array<prob>
    var inPos: nat
    var outPos: nat
    var pos1: nat
    var pos2: nat
    var range: word
    var code: word
    var buffer: nat
    var prevByte: byte

    ghost predicate Valid()
      reads this
    {
      && start0 + size0 <= buf0.Length && outPos <= outSize <= outBuf.Length && inPos <= size0
      && pos1 <= |buf1| && pos2 <= |buf2| && buffer <= |buf3| && range >= TOP && p.Length == NUM_PROBS
      && p as object != outBuf
    }

    ghost function Main(): seq<byte>
      requires Valid()
      reads this, buf0
    {
      buf0[start0 + inPos..start0 + size0]
    }

    ghost function Abs(): St
      requires Valid()
      reads this, buf0, outBuf, p
    {
      St(Main(), buf1[pos1..], buf2[pos2..], Rc(range, code, buf3[buffer..]), p[..], prevByte, outBuf[..outPos])
    }

    /** From here on the output does not overtake the main stream: to reach a size of `full`, which lies no further
        than the end of the main stream, takes all of it. */
    ghost predicate Clear(s: St, full: nat)
    {
      buf0 == outBuf ==>
        && Ready(s) && |s.out| <= outSize <= full <= start0 + size0
        && Fills(Run(s, full), full) && Run(s, full).s.main == []
    }

    lemma Behind(full: nat)
      requires Valid() && Clear(Abs(), full) && buf0 == outBuf
      ensures outPos <= start0 + inPos
    {
      OutputKeepsUp(Abs(), full);
    }

    constructor (buf0: array<byte>, start0: nat, size0: nat, buf1: seq<byte>, buf2: seq<byte>, buf3: seq<byte>,
                 outBuf: array<byte>, outSize: nat)
      requires start0 + size0 <= buf0.Length && outSize <= outBuf.Length
      ensures this.buf0 == buf0 && this.start0 == start0 && this.size0 == size0 && this.outBuf == outBuf && this.outSize == outSize
      ensures this.buf1 == buf1 && this.buf2 == buf2 && this.buf3 == buf3
      ensures Valid() && fresh(p) && buffer == 0 && code == 0 && outPos == 0 && range == TWO32 - 1
      ensures Main() == buf0[start0..start0 + size0] && pos1 == 0 && pos2 == 0 && prevByte == 0
      ensures p[..] == seq(NUM_PROBS, i => 1024)
    {
      this.buf0, this.start0, this.size0 := buf0, start0, size0;
      this.buf1, this.buf2, this.buf3 := buf1, buf2, buf3;
      this.outBuf, this.outSize := outBuf, outSize;
      p := new prob[NUM_PROBS](i => 1024);
      inPos, outPos, pos1, pos2, buffer := 0, 0, 0, 0, 0;
      range, code, prevByte := TWO32 - 1, 0, 0;
    }

    /** RC_INIT2. */
    method InitRc() returns (ok: bool)
      requires Valid() && buffer == 0 && code == 0
      modifies `code, `buffer
      ensures Valid() && ok == (|buf3| >= INIT_SIZE)
      ensures ok ==> buffer == INIT_SIZE && code == Big(buf3[1..])
    {
      for i := 0 to INIT_SIZE
        invariant Valid() && buffer == i && code == First(buf3, i)
      {
        if buffer == |buf3| {
          return false;
        }
        code := (0x100 * code + buf3[buffer]) % TWO32;
        buffer := buffer + 1;
      }
      FirstFive(buf3);
      ok := true;
    }

    /** Stores a byte; in place, over one that has been taken, or over itself. */
    method PutByte(b: byte)
      requires Valid() && outPos < outSize
      requires buf0 == outBuf ==> outPos < start0 + inPos || (outPos == start0 + inPos && b == buf0[outPos])
      modifies outBuf, `outPos
      ensures Valid() && outPos == old(outPos) + 1 && Abs() == old(Abs()).(out := old(Abs()).out + [b])
      ensures outBuf[outSize..] == old(outBuf[outSize..])
    {
      outBuf[outPos] := b;
      assert Main() == old(Main());
      outPos := outPos + 1;
      assert outBuf[..outPos] == old(outBuf[..outPos]) + [b];
    }

    /** One byte of the main stream to the output, where it may meet itself. */
    method CopyByte(ghost full: nat) returns (b: byte)
      requires Valid() && Clear(Abs(), full) && inPos < size0 && outPos < outSize
      modifies outBuf, `outPos
      ensures Valid() && outPos == old(outPos) + 1 && b == Main()[0]
      ensures Abs() == old(Abs()).(out := old(Abs()).out + [b]) && outBuf[outSize..] == old(outBuf[outSize..])
    {
      hide Run, AfterJ;
      if buf0 == outBuf {
        Behind(full);
      }
      b := buf0[start0 + inPos];
      assert b == Main()[0];
      PutByte(b);
    }

    /** The rest of the call comes to `whole`. */
    ghost predicate On(full: nat, whole: Outcome)
      reads this, buf0, outBuf, p
    {
      Valid() && Clear(Abs(), full) && Run(Abs(), outSize) == whole
    }

    /** As On, when the byte at inPos has been output and may be followed by a target. */
    ghost predicate Hit(full: nat, whole: Outcome)
      reads this, buf0, outBuf, p
    {
      && Valid() && inPos < size0
      && var t, b := Abs().(main := Main()[1..]), Main()[0];
         && AfterJ(t, b, outSize) == whole
         && (buf0 == outBuf ==> outSize <= full <= start0 + size0 && Fills(AfterJ(t, b, full), full) && AfterJ(t, b, full).s.main == [])
    }

    /** One byte of the main stream: whether it is an opcode that may have a target. */
    method CopyOne(ghost full: nat, ghost whole: Outcome) returns (j: bool)
      requires On(full, whole) && inPos < size0 && outPos < outSize
      modifies outBuf, `outPos, `inPos, `prevByte
      ensures outBuf[outSize..] == old(outBuf[outSize..]) && inPos >= old(inPos)
      ensures if j then Hit(full, whole) else On(full, whole) && inPos == old(inPos) + 1 && outPos == old(outPos) + 1
    {
      hide AfterJ, Run, Clear, Hit, On;
      Room(full, whole);
      ghost var s := Abs();
      var b := CopyByte(full);
      j := IsJ(prevByte, b);
      if j {
        CopiedHit(full, whole, s);
      } else {
        Advance();
        prevByte := b;
        CopiedOn(full, whole, s);
      }
    }

    method Advance()
      requires Valid() && inPos < size0
      modifies `inPos
      ensures Valid() && inPos == old(inPos) + 1 && Abs() == old(Abs()).(main := old(Main())[1..])
    {
      inPos := inPos + 1;
    }

    lemma Room(full: nat, whole: Outcome)
      requires On(full, whole)
      ensures Valid() && Clear(Abs(), full) && Run(Abs(), outSize) == whole
    {
    }

    lemma CopiedHit(full: nat, whole: Outcome, s: St)
      requires Ready(s) && |s.out| < outSize && Clear(s, full) && Run(s, outSize) == whole
      requires Valid() && inPos < size0 && s.main != [] && s.main == Main() && Abs().(main := Main()[1..]) == Copied(s) && IsJ(s.prev, s.main[0])
      ensures Hit(full, whole)
    {
      hide AfterJ, Run;
      RunStep(s, outSize);
      if buf0 == outBuf {
        RunStep(s, full);
      }
    }

    lemma CopiedOn(full: nat, whole: Outcome, s: St)
      requires Ready(s) && |s.out| < outSize && Clear(s, full) && Run(s, outSize) == whole
      requires Valid() && s.main != [] && Abs() == Copied(s).(prev := s.main[0]) && !IsJ(s.prev, s.main[0])
      ensures On(full, whole)
    {
      hide AfterJ, Run;
      RunStep(s, outSize);
      if buf0 == outBuf {
        RunStep(s, full);
      }
    }

    /** Copies up to such an opcode. */
    method CopyRun(ghost full: nat, ghost whole: Outcome) returns (limit: nat)
      requires On(full, whole)
      modifies outBuf, `outPos, `inPos, `prevByte
      ensures Valid() && outBuf[outSize..] == old(outBuf[outSize..]) && inPos >= old(inPos)
      ensures if limit == 0 then whole == End(Abs()) else Hit(full, whole)
    {
      hide AfterJ, Clear;
      limit := size0 - inPos;
      if outSize - outPos < limit {
        limit := outSize - outPos;
      }
      while limit != 0
        invariant On(full, whole) && outBuf[outSize..] == old(outBuf[outSize..]) && inPos >= old(inPos)
        invariant limit == if outSize - outPos < size0 - inPos then outSize - outPos else size0 - inPos
        decreases limit
      {
        var j := CopyOne(full, whole);
        if j {
          return;
        }
        limit := limit - 1;
      }
    }

    ghost function RcOf(): Rc
      requires Valid()
      reads this
    {
      Rc(range, code, buf3[buffer..])
    }

    /** The bit that says whether b has a target: IF_BIT_0, UPDATE_0 and UPDATE_1. */
    method TakeBit(i: nat) returns (ok: bool, bit: bool)
      requires Valid() && i < NUM_PROBS
      modifies p, `range, `code, `buffer
      ensures Valid() && bit == old(ModelBit(RcOf(), p[i]))
      ensures p[..] == old(p[..])[i := Adapted(old(p[i]), bit)]
      ensures var rc := old(AfterModelBit(RcOf(), p[i])); ok == !Starved(rc) && (ok ==> RcOf() == Normalized(rc))
    {
      var ttt := p[i];
      var rd;
      bit, rd := Decide(Rd(range, code, buffer), buf3, ttt);
      p[i] := Adapted(ttt, bit);
      ok := rd.range >= TOP || rd.buf < |buf3|;
      if ok {
        rd := Normalize(rd, buf3);
        range, code, buffer := rd.range, rd.code, rd.buf;
      }
    }

    /** Before byte k of a target d. */
    ghost predicate Part(s: St, d: seq<byte>, k: nat)
      reads this, buf0, outBuf, p
    {
      Valid() && k <= |d| && outPos == |s.out| + k && Abs() == s.(out := s.out + d[..k])
    }

    method PutPart(b: byte, ghost s: St, ghost d: seq<byte>, ghost k: nat)
      requires Part(s, d, k) && outPos < outSize && k < |d| && b == d[k] && (buf0 == outBuf ==> outPos < start0 + inPos)
      modifies outBuf, `outPos
      ensures Part(s, d, k + 1) && outBuf[outSize..] == old(outBuf[outSize..]) && outPos == old(outPos) + 1
    {
      PutByte(b);
      assert s.out + d[..k] + [d[k]] == s.out + d[..k + 1];
    }

    /** Stores the low bytes of a target, least significant first, until the output is full. */
    method PutLow(dest: word, ghost s: St)
      requires Part(s, Little(dest), 0) && outPos < outSize
      requires buf0 == outBuf ==> outPos + 4 <= start0 + inPos || outSize <= start0 + inPos
      modifies outBuf, `outPos
      ensures var k := Min3(outSize - old(outPos)); Part(s, Little(dest), k) && outPos == old(outPos) + k
      ensures outBuf[outSize..] == old(outBuf[outSize..])
    {
      hide Part;
      Bounds(s, Little(dest), 0);
      PutPart(dest as int % 0x100, s, Little(dest), 0);
      if outPos == outSize {
        return;
      }
      Bounds(s, Little(dest), 1);
      PutPart(dest as int / 0x100 % 0x100, s, Little(dest), 1);
      if outPos == outSize {
        return;
      }
      Bounds(s, Little(dest), 2);
      PutPart(dest as int / 0x1_0000 % 0x100, s, Little(dest), 2);
      Bounds(s, Little(dest), 3);
    }

    lemma Bounds(s: St, d: seq<byte>, k: nat)
      requires Part(s, d, k)
      ensures outPos <= outSize && k <= |d|
    {
    }

    function Min3(room: int): nat
      requires room >= 0
    {
      if room < 3 then room else 3
    }

    /** Stores a target until the output is full. */
    method PutTarget(dest: word) returns (more: bool)
      requires Valid() && outPos < outSize
      requires buf0 == outBuf ==> outPos + 4 <= start0 + inPos || outSize <= start0 + inPos
      modifies outBuf, `outPos, `prevByte
      ensures Valid() && outBuf[outSize..] == old(outBuf[outSize..])
      ensures more == (outSize - old(outPos) >= 4)
      ensures var d := Little(dest);
              Abs() == if more then old(Abs()).(out := old(Abs()).out + d, prev := d[3])
                       else old(Abs()).(out := old(Abs()).out + d[..outSize - old(outPos)])
    {
      hide Big, Little;
      ghost var s, d := Abs(), Little(dest);
      LittleTop(dest);
      assert s.out + d[..0] == s.out && d[..4] == d;
      PutLow(dest, s);
      more := outPos != outSize;
      if more {
        PutPart(dest as int / 0x100_0000, s, d, 3);
        prevByte := dest as int / 0x100_0000;
      }
    }

    lemma LittleTop(dest: word)
      ensures Little(dest)[3] == dest as int / 0x100_0000
    {
    }

    /** The next target of the stream for b, made relative. */
    method ReadTarget(b: byte) returns (ok: bool, dest: word)
      requires Valid()
      modifies `pos1, `pos2
      ensures Valid()
      ensures ok == (|Targets(old(Abs()), b)| >= 4)
      ensures ok ==> dest == (Big(Targets(old(Abs()), b)) - (outPos + 4)) % TWO32 && Abs() == TargetTaken(old(Abs()), b)
    {
      hide Big;
      var v;
      dest := 0;
      if b == 0xE8 {
        v := buf1[pos1..];
        ok := |buf1| - pos1 >= 4;
        if ok {
          pos1 := pos1 + 4;
          assert buf1[pos1..] == v[4..];
        }
      } else {
        v := buf2[pos2..];
        ok := |buf2| - pos2 >= 4;
        if ok {
          pos2 := pos2 + 4;
          assert buf2[pos2..] == v[4..];
        }
      }
      assert v == Targets(old(Abs()), b);
      if ok {
        dest := (Big(v) - (outPos + 4)) % TWO32;
      }
    }

    /** A target is put into the output. */
    method TakeJump(b: byte) returns (ok: bool, more: bool)
      requires Valid() && outPos < outSize
      requires buf0 == outBuf ==> outPos + 4 <= start0 + inPos || outSize <= start0 + inPos
      modifies outBuf, `outPos, `prevByte, `pos1, `pos2
      ensures Valid() && outBuf[outSize..] == old(outBuf[outSize..])
      ensures old(Jump(Abs(), b, outSize)) == if !ok then Fails else if more then Goes(Abs()) else Ends(Abs())
    {
      hide Big, Little, Jump, Targets, TargetTaken, Abs, Main;
      ghost var s := Abs();
      Length();
      JumpParts(s, b, outSize);
      var dest;
      more := false;
      ok, dest := ReadTarget(b);
      if ok {
        more := PutTarget(dest);
      }
    }

    lemma Length()
      requires Valid()
      ensures |Abs().out| == outPos && Ready(Abs())
    {
    }

    /** There is room for a target if the whole output is to come about. */
    lemma RoomForTarget(b: byte, full: nat)
      requires Valid() && outPos < outSize <= full <= start0 + size0
      requires var n := Jump(Abs(), b, full);
               Fills(NextOutcome(n, full), full) && NextOutcome(n, full).s.main == []
      ensures outPos + 4 <= start0 + inPos || outSize <= start0 + inPos
    {
      hide Run, Big, Little;
      var n := Jump(Abs(), b, full);
      if n.Goes? {
        OutputKeepsUp(n.s, full);
      } else {
        JumpKeepsMain(Abs(), b, full);
      }
    }

    /** What comes of a branch, here and in the whole output. */
    ghost predicate Awaits(n: Next, whole: Outcome, nFull: Next, full: nat) {
      && (n.Goes? ==> Ready(n.s) && |n.s.out| <= outSize) && NextOutcome(n, outSize) == whole
      && (buf0 == outBuf ==>
            && outSize <= full <= start0 + size0 && (nFull.Goes? ==> Ready(nFull.s) && |nFull.s.out| <= full)
            && Fills(NextOutcome(nFull, full), full) && NextOutcome(nFull, full).s.main == [])
    }

    lemma GoesOn(n: Next, whole: Outcome, full: nat)
      requires Awaits(n, whole, n, full) && Valid() && n == Goes(Abs()) && (buf0 == outBuf ==> outSize <= full)
      ensures On(full, whole)
    {
      hide Run;
    }

    lemma HitAwaits(full: nat, whole: Outcome)
      requires Hit(full, whole) && outPos < outSize
      ensures var t, b := Abs().(main := Main()[1..]), Main()[0];
              Awaits(Branch(t, b, outSize), whole, if outSize <= full then Branch(t, b, full) else Fails, full)
    {
      hide Run, AfterJ, Branch;
      var t, b := Abs().(main := Main()[1..]), Main()[0];
      AfterJStep(t, b, outSize);
      if buf0 == outBuf {
        AfterJStep(t, b, full);
      }
    }

    /** The target of b. */
    method TakeTarget(b: byte, ghost full: nat, ghost whole: Outcome) returns (done: bool, ok: bool)
      requires Valid() && outPos < outSize
      requires Awaits(Jump(Abs(), b, outSize), whole, if outSize <= full then Jump(Abs(), b, full) else Fails, full)
      modifies outBuf, `outPos, `prevByte, `pos1, `pos2
      ensures outBuf[outSize..] == old(outBuf[outSize..])
      ensures !done ==> On(full, whole)
      ensures done && ok ==> Valid() && whole == End(Abs()) && outPos == outSize
      ensures done && !ok ==> whole == Fail
    {
      hide Run, AfterJ, Jump;
      ghost var s := Abs();
      if buf0 == outBuf {
        RoomForTarget(b, full);
        JumpShorter(s, b, outSize, full);
      }
      var more;
      ok, more := TakeJump(b);
      done := !ok || !more;
      if !done {
        GoesOn(Jump(s, b, outSize), whole, full);
      }
    }

    lemma AfterBit(t: St, b: byte, room: nat, i: nat, bit: bool)
      requires Ready(t) && |t.out| < room && i == Slot(t.prev, b) && bit == ModelBit(t.rc, t.probs[i])
      ensures var rc := AfterModelBit(t.rc, t.probs[i]);
              if Starved(rc) then Branch(t, b, room) == Fails
              else
                var u := t.(rc := Normalized(rc), probs := t.probs[i := Adapted(t.probs[i], bit)]);
                Ready(u) && Branch(t, b, room) == if bit then Jump(u, b, room) else Goes(u.(prev := b))
    {
    }

    /** Past the opcode at inPos: its bit, and its target if it has one. */
    method TakeBranch(ghost full: nat, ghost whole: Outcome) returns (done: bool, ok: bool)
      requires Hit(full, whole) && outPos < outSize
      modifies outBuf, p, `inPos, `outPos, `prevByte, `pos1, `pos2, `range, `code, `buffer
      ensures outBuf[outSize..] == old(outBuf[outSize..])
      ensures !done ==> On(full, whole) && inPos == old(inPos) + 1
      ensures done && ok ==> Valid() && whole == End(Abs()) && outPos == outSize
      ensures done && !ok ==> whole == Fail
    {
      hide Run, AfterJ, Jump, Branch, Normalized, AfterModelBit, ModelBit, Adapted;
      HitAwaits(full, whole);
      var b := buf0[start0 + inPos];
      assert b == Main()[0];
      Advance();
      ghost var t := Abs();
      var i := Slot(prevByte, b);
      var bit;
      ok, bit := TakeBit(i);
      AfterBit(t, b, outSize, i, bit);
      if outSize <= full {
        AfterBit(t, b, full, i, bit);
      }
      done := true;
      if !ok {
        return;
      }
      if bit {
        done, ok := TakeTarget(b, full, whole);
      } else {
        prevByte := b;
        done := false;
        GoesOn(Branch(t, b, outSize), whole, full);
      }
    }

    /** The loop of Bcj2_Decode. */
    method DecodeAll(ghost full: nat, ghost whole: Outcome) returns (ok: bool)
      requires On(full, whole)
      modifies this, outBuf, p
      ensures outBuf[outSize..] == old(outBuf[outSize..])
      ensures ok == Fills(whole, outSize) && (ok ==> Valid() && outBuf[..outSize] == whole.s.out)
    {
      hide On, Hit, Clear, Main;
      Room(full, whole);
      while true
        invariant On(full, whole) && Valid() && outBuf[outSize..] == old(outBuf[outSize..])
        decreases size0 - inPos
      {
        var limit := CopyRun(full, whole);
        if limit == 0 {
          return outPos == outSize;
        }
        if outPos == outSize {
          HitFull(full, whole);
          return true;
        }
        var done;
        done, ok := TakeBranch(full, whole);
        if done {
          return;
        }
        Room(full, whole);
      }
    }

    lemma HitFull(full: nat, whole: Outcome)
      requires Hit(full, whole) && outPos == outSize
      ensures whole.End? && whole.s.out == outBuf[..outPos]
    {
      hide Run, Branch;
    }
  }

  /** Bcj2_Decode. With the main stream in the output array the result is the same, and there is no error: it is the
      beginning of the whole output. */
  method Decode(buf0: array<byte>, start0: nat, size0: nat, buf1: seq<byte>, buf2: seq<byte>, buf3: seq<byte>,
                outBuf: array<byte>, outSize: nat, ghost full: nat) returns (ok: bool)
    requires start0 + size0 <= buf0.Length && outSize <= outBuf.Length
    requires buf0 == outBuf ==> outSize <= full && InPlace(buf0[start0..start0 + size0], buf1, buf2, buf3, start0 + size0, full)
    modifies outBuf
    ensures var r := Whole(old(buf0[start0..start0 + size0]), buf1, buf2, buf3, outSize);
            ok == Fills(r, outSize) && (ok ==> outBuf[..outSize] == r.s.out)
    ensures buf0 == outBuf ==>
              ok && outBuf[..outSize] == Whole(old(buf0[start0..start0 + size0]), buf1, buf2, buf3, full).s.out[..outSize]
    ensures outBuf[outSize..] == old(outBuf[outSize..])
  {
    hide Run;
    var d := new Decoding(buf0, start0, size0, buf1, buf2, buf3, outBuf, outSize);
    ghost var main := d.Main();
    ok := d.InitRc();
    if !ok {
      return;
    }
    ghost var s := d.Abs();
    assert s == Start(main, buf1, buf2, buf3);
    ghost var whole := Run(s, outSize);
    if buf0 == outBuf {
      Shorter(s, outSize, full);
    }
    ok := d.DecodeAll(full, whole);
  }

  lemma JumpShorter(s: St, b: byte, outSize: nat, full: nat)
    requires Ready(s) && |s.out| < outSize <= full
    ensures Jump(s, b, outSize).Goes? ==> Jump(s, b, full) == Jump(s, b, outSize)
  {
  }

  function Targets(s: St, b: byte): seq<byte> {
    if b == 0xE8 then s.call else s.jump
  }

  function TargetTaken(s: St, b: byte): St
    requires |Targets(s, b)| >= 4
  {
    if b == 0xE8 then s.(call := s.call[4..]) else s.(jump := s.jump[4..])
  }

  lemma JumpParts(s: St, b: byte, outSize: nat)
    requires Ready(s) && |s.out| < outSize
    ensures if |Targets(s, b)| < 4 then Jump(s, b, outSize).Fails?
            else
              var d, t := Little((Big(Targets(s, b)) - (|s.out| + 4)) % TWO32), TargetTaken(s, b);
              Jump(s, b, outSize) ==
                if outSize - |s.out| < 4 then Ends(t.(out := t.out + d[..outSize - |s.out|])) else Goes(t.(out := t.out + d, prev := d[3]))
  {
  }

  lemma JumpKeepsMain(s: St, b: byte, outSize: nat)
    requires Ready(s) && |s.out| < outSize
    ensures !Jump(s, b, outSize).Fails? ==> Jump(s, b, outSize).s.main == s.main
  {
  }
}
