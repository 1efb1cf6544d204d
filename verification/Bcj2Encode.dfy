/**
  Every text has BCJ2 streams, whichever of its branches are converted. The bits are found from the end, as for LZMA.
*/
module Bcj2Encode {
  import opened Words
  import opened RangeCoder
  import opened Bcj2

  // ----- Texts -----------------------------------------------------------------------------------------------

  /** A byte, and after an opcode perhaps a displacement that is to be converted. */
  datatype Item = Byte(b: byte) | Target(b: byte, displacement: word)

  function ItemBytes(i: Item): (s: seq<byte>)
    ensures s != []
  {
    if i.Byte? then [i.b] else [i.b] + Little(i.displacement)
  }

  function TextOf(items: seq<Item>): seq<byte> {
    if items == [] then [] else ItemBytes(items[0]) + TextOf(items[1..])
  }

  /** Only opcodes have targets; prev is the byte before. */
  predicate Targeted(prev: byte, items: seq<Item>)
    decreases |items|
  {
    items != [] ==>
      && (items[0].Target? ==> IsJ(prev, items[0].b))
      && Targeted(ItemBytes(items[0])[|ItemBytes(items[0])| - 1], items[1..])
  }

  // ----- Streams ---------------------------------------------------------------------------------------------

  /** The decoder but for its streams and its code. */
  datatype Place = Place(range: word, probs: seq<prob>, prev: byte, len: nat)

  datatype Streams = Streams(main: seq<byte>, call: seq<byte>, jump: seq<byte>, rc: Source)

  predicate Placed(p: Place) {
    p.range >= TOP && |p.probs| == NUM_PROBS
  }

  /** The part of the interval that the bit after an opcode leaves. */
  function Part(p: Place, b: byte, bit: bool): (r: word)
    requires Placed(p)
    ensures r >= 0x1_0000
  {
    var x := p.probs[Slot(p.prev, b)];
    BoundInside(p.range, x);
    if bit then p.range - Bound(p.range, x) else Bound(p.range, x)
  }

  function Onto(p: Place, i: Item): (q: Place)
    requires Placed(p)
    ensures Placed(q)
  {
    var s := ItemBytes(i);
    var prev, len := s[|s| - 1], p.len + |s|;
    if i.Byte? && !IsJ(p.prev, i.b) then p.(prev := prev, len := len)
    else
      var k := Slot(p.prev, i.b);
      Place(Widened(Part(p, i.b, i.Target?)), p.probs[k := Adapted(p.probs[k], i.Target?)], prev, len)
  }

  /** Code and input before the bit of an item. */
  function BackBit(p: Place, i: Item, later: Source): (r: Source)
    requires Placed(p) && later.code < Onto(p, i).range
    ensures r.code < p.range
  {
    if i.Byte? && !IsJ(p.prev, i.b) then later
    else
      BoundInside(p.range, p.probs[Slot(p.prev, i.b)]);
      var n := Narrowed(Part(p, i.b, i.Target?), later);
      n.(code := n.code + if i.Target? then Part(p, i.b, false) else 0)
  }

  /** The streams before an item: an address counts from the end of its place. */
  function Back(p: Place, i: Item, later: Streams): (r: Streams)
    requires Placed(p) && later.rc.code < Onto(p, i).range
    ensures r.rc.code < p.range
  {
    var rc := BackBit(p, i, later.rc);
    if i.Byte? then Streams([i.b] + later.main, later.call, later.jump, rc)
    else
      var a := BigBytes((i.displacement + p.len + 5) % TWO32);
      if i.b == 0xE8 then Streams([i.b] + later.main, a + later.call, later.jump, rc)
      else Streams([i.b] + later.main, later.call, a + later.jump, rc)
  }

  function AllOnto(p: Place, items: seq<Item>): (q: Place)
    requires Placed(p)
    ensures Placed(q)
    decreases |items|
  {
    if items == [] then p else AllOnto(Onto(p, items[0]), items[1..])
  }

  function BackAll(p: Place, items: seq<Item>): (r: Streams)
    requires Placed(p)
    ensures r.rc.code < p.range
    decreases |items|
  {
    if items == [] then Streams([], [], [], Source(0, []))
    else Back(p, items[0], BackAll(Onto(p, items[0]), items[1..]))
  }

  // ----- Decoding --------------------------------------------------------------------------------------------

  function StateOf(p: Place, out: seq<byte>, s: Streams): St {
    St(s.main, s.call, s.jump, Rc(p.range, s.rc.code, s.rc.input), p.probs, p.prev, out)
  }

  lemma BitBack(p: Place, i: Item, later: Source)
    requires Placed(p) && later.code < Onto(p, i).range && (i.Target? || IsJ(p.prev, i.b))
    ensures var b, x := BackBit(p, i, later), p.probs[Slot(p.prev, i.b)];
            var rc := Rc(p.range, b.code, b.input);
            && ModelBit(rc, x) == i.Target? && !Starved(AfterModelBit(rc, x))
            && Normalized(AfterModelBit(rc, x)) == Rc(Onto(p, i).range, later.code, later.input)
  {
    hide Bound, Slot, IsJ, Adapted;
    NarrowedBack(Part(p, i.b, i.Target?), later);
  }

  /** A byte that is no opcode, or one without a target. */
  lemma ByteRuns(p: Place, b: byte, later: Streams, out: seq<byte>, size: nat)
    requires Placed(p) && p.len == |out| < size && later.rc.code < Onto(p, Byte(b)).range
    requires |out| + 1 < size || later.main == []
    ensures var r := Run(StateOf(p, out, Back(p, Byte(b), later)), size);
            if |out| + 1 == size then r.End? && r.s.out == out + [b]
            else r == Run(StateOf(Onto(p, Byte(b)), out + [b], later), size)
  {
    hide Run, AfterJ, IsJ, Slot, Adapted, Normalized, Narrowed;
    var s := StateOf(p, out, Back(p, Byte(b), later));
    RunStep(s, size);
    assert s.main[1..] == later.main;
    if IsJ(p.prev, b) {
      BitBack(p, Byte(b), later.rc);
      Last(Copied(s), b, size);
    } else if |out| + 1 == size {
      Over(Copied(s).(prev := b), size);
    }
  }

  lemma Over(s: St, size: nat)
    requires Ready(s) && |s.out| == size
    ensures Run(s, size) == End(s)
  {
  }

  lemma Last(t: St, b: byte, size: nat)
    requires Ready(t) && |t.out| <= size
    ensures |t.out| == size ==> AfterJ(t, b, size) == End(t)
    ensures |t.out| < size ==> AfterJ(t, b, size) == NextOutcome(Branch(t, b, size), size)
  {
  }

  lemma AddressBack(d: word, n: nat, rest: seq<byte>)
    ensures (Big(BigBytes((d + n) % TWO32) + rest) - n) % TWO32 == d
  {
    hide BigBytes;
    BigBytesSum((d + n) % TWO32);
    var q := (d + n) / TWO32;
    DivUnique((d + n) % TWO32 - n, TWO32, -q, d);
  }

  /** The four bytes of an address are made into the displacement. */
  lemma JumpTakes(t: St, b: byte, d: word, rest: seq<byte>, size: nat)
    requires Ready(t) && |t.out| + 4 <= size
    requires (if b == 0xE8 then t.call else t.jump) == BigBytes((d + (|t.out| + 4)) % TWO32) + rest
    ensures var u := if b == 0xE8 then t.(call := rest) else t.(jump := rest);
            Jump(t, b, size) == Goes(u.(out := t.out + Little(d), prev := Little(d)[3]))
  {
    hide Big, BigBytes, Little;
    AddressBack(d, |t.out| + 4, rest);
    var a := BigBytes((d + (|t.out| + 4)) % TWO32);
    assert (a + rest)[4..] == rest;
  }

  /** An opcode with its target. */
  lemma TargetRuns(p: Place, b: byte, d: word, later: Streams, out: seq<byte>, size: nat)
    requires Placed(p) && p.len == |out| && |out| + 5 <= size && later.rc.code < Onto(p, Target(b, d)).range && IsJ(p.prev, b)
    ensures Run(StateOf(p, out, Back(p, Target(b, d), later)), size)
         == Run(StateOf(Onto(p, Target(b, d)), out + ([b] + Little(d)), later), size)
  {
    hide Run, AfterJ, IsJ, Slot, Adapted, BackBit, Normalized, Little, BigBytes, Jump, ModelBit, AfterModelBit;
    var i := Target(b, d);
    var s := StateOf(p, out, Back(p, i, later));
    RunStep(s, size);
    assert s.main[1..] == later.main;
    BitBack(p, i, later.rc);
    var t := Copied(s);
    Last(t, b, size);
    var q, k := Onto(p, i), Slot(p.prev, b);
    var u := t.(rc := Rc(q.range, later.rc.code, later.rc.input), probs := q.probs);
    JumpTakes(u, b, d, if b == 0xE8 then later.call else later.jump, size);
    assert Branch(t, b, size) == Jump(u, b, size);
    assert out + [b] + Little(d) == out + ([b] + Little(d));
    assert ([b] + Little(d))[4] == Little(d)[3];
  }

  lemma ItemRuns(p: Place, i: Item, later: Streams, out: seq<byte>, size: nat)
    requires Placed(p) && p.len == |out| && later.rc.code < Onto(p, i).range && (i.Target? ==> IsJ(p.prev, i.b))
    requires var n := |out| + |ItemBytes(i)|; n < size || (n == size && later.main == [])
    ensures var o := out + ItemBytes(i);
            var r := Run(StateOf(p, out, Back(p, i, later)), size);
            if |o| == size then r.End? && r.s.out == o else r == Run(StateOf(Onto(p, i), o, later), size)
  {
    hide Run, AfterJ, IsJ, Back, Onto, Little;
    match i
    case Byte(b) => ByteRuns(p, b, later, out, size);
    case Target(b, d) =>
      TargetRuns(p, b, d, later, out, size);
      if |out| + 5 == size {
        Over(StateOf(Onto(p, i), out + ItemBytes(i), later), size);
      }
  }

  /** From any place, items decode to their bytes. */
  lemma {:induction false} ItemsRun(p: Place, items: seq<Item>, out: seq<byte>, size: nat)
    requires Placed(p) && p.len == |out| && Targeted(p.prev, items) && size == |out| + |TextOf(items)|
    ensures var r := Run(StateOf(p, out, BackAll(p, items)), size); r.End? && r.s.out == out + TextOf(items)
    decreases |items|
  {
    hide Run, Back, Onto, IsJ, ItemBytes;
    if items == [] {
      Over(StateOf(p, out, BackAll(p, items)), size);
      assert out + [] == out;
    } else {
      var i, q := items[0], Onto(p, items[0]);
      var o := out + ItemBytes(i);
      assert TextOf(items) == ItemBytes(i) + TextOf(items[1..]);
      assert out + TextOf(items) == o + TextOf(items[1..]);
      OntoIs(p, i);
      if items[1..] != [] {
        assert TextOf(items[1..]) != [];
      }
      ItemRuns(p, i, BackAll(q, items[1..]), out, size);
      ItemsRun(q, items[1..], o, size);
    }
  }

  lemma OntoIs(p: Place, i: Item)
    requires Placed(p)
    ensures Onto(p, i).len == p.len + |ItemBytes(i)| && Onto(p, i).prev == ItemBytes(i)[|ItemBytes(i)| - 1]
  {
    hide ItemBytes, IsJ, Part, Slot, Adapted;
  }

  // ----- The four streams ------------------------------------------------------------------------------------

  const START := Place(TWO32 - 1, seq(NUM_PROBS, i => 1024), 0, 0)

  function BitStream(s: Streams): seq<byte> {
    [0] + BigBytes(s.rc.code) + s.rc.input
  }

  /** The streams of items decode to their text. */
  lemma StreamsDecode(items: seq<Item>)
    requires Targeted(0, items)
    ensures var s, text := BackAll(START, items), TextOf(items);
            var r := Whole(s.main, s.call, s.jump, BitStream(s), |text|);
            r.End? && r.s.out == text && Fills(r, |text|)
  {
    hide Run, BigBytes, BackAll, TextOf;
    var s := BackAll(START, items);
    var bits := BitStream(s);
    BigBytesSum(s.rc.code);
    assert bits[1..] == BigBytes(s.rc.code) + s.rc.input && bits[5..] == s.rc.input;
    assert Start(s.main, s.call, s.jump, bits) == StateOf(START, [], s);
    ItemsRun(START, items, [], |TextOf(items)|);
    assert [] + TextOf(items) == TextOf(items);
  }

  // ----- Every text ------------------------------------------------------------------------------------------

  function Bytes(text: seq<byte>): seq<Item> {
    if text == [] then [] else [Byte(text[0])] + Bytes(text[1..])
  }

  lemma {:induction false} BytesText(prev: byte, text: seq<byte>)
    ensures Targeted(prev, Bytes(text)) && TextOf(Bytes(text)) == text
    decreases |text|
  {
    if text != [] {
      assert Bytes(text)[1..] == Bytes(text[1..]) && Bytes(text)[0] == Byte(text[0]);
      BytesText(text[0], text[1..]);
      assert [text[0]] + text[1..] == text;
    }
  }

  /** Without conversions, the main stream is the text. */
  lemma EveryText(text: seq<byte>)
    ensures var s := BackAll(START, Bytes(text));
            var r := Whole(s.main, s.call, s.jump, BitStream(s), |text|);
            r.End? && r.s.out == text
  {
    hide Whole, BackAll, BitStream;
    BytesText(0, text);
    StreamsDecode(Bytes(text));
  }
}
