/**
  The adaptive binary range decoder of LZMA: normalisation, modelled bits and direct bits, as the macros
  of the decoder compute them on 32-bit words. The input is what has not been read yet.
*/
module RangeCoder {
  import opened Words

  const TOP: int := 0x100_0000

  /** An 11-bit probability that a bit is 0. Adaptation never leaves this interval. */
  type prob = p: int | 31 <= p <= 2017 witness 1024

  datatype Rc = Rc(range: word, code: word, input: seq<byte>)

  /** Normalisation needs a byte and there is none. */
  predicate Starved(rc: Rc) {
    rc.range < TOP && rc.input == []
  }

  function Normalized(rc: Rc): (r: Rc)
    requires !Starved(rc)
    ensures rc.range >= 0x1_0000 ==> r.range >= TOP
  {
    if rc.range < TOP
    then Rc(0x100 * rc.range, (0x100 * rc.code + rc.input[0]) % TWO32, rc.input[1..])
    else rc
  }

  function Bound(range: word, p: prob): (b: word)
    ensures range >= TOP ==> 0 < b < range
  {
    BoundInside(range, p);
    range / 0x800 * p
  }

  lemma BoundInside(range: word, p: prob)
    ensures 0 <= range / 0x800 * p <= range
    ensures range >= TOP ==> 31 * 0x2000 <= range / 0x800 * p && 0x1_0000 <= range - range / 0x800 * p
    ensures range >= TOP ==> 67 * (range / 0x800 * p) >= range && 67 * (range - range / 0x800 * p) >= range
  {
    ScaledBetween(range / 0x800, p);
  }

  lemma ScaledBetween(q: nat, p: prob)
    ensures 31 * q <= q * p <= 2017 * q
  {
    Monotone(q, 31, p);
    Monotone(q, p, 2017);
  }

  lemma Monotone(q: nat, x: int, y: int)
    requires x <= y
    ensures q * x <= q * y
  {
  }

  /** The bit that a modelled decoding step yields. */
  predicate ModelBit(rc: Rc, p: prob) {
    rc.code >= Bound(rc.range, p)
  }

  /** The decoder after a modelled bit; `rc` is normalised. */
  function AfterModelBit(rc: Rc, p: prob): (r: Rc)
    ensures r.input == rc.input
    ensures rc.range >= TOP ==> r.range >= 0x1_0000 && 67 * r.range >= rc.range
  {
    BoundInside(rc.range, p);
    var bound := Bound(rc.range, p);
    if ModelBit(rc, p)
    then Rc(rc.range - bound, rc.code - bound, rc.input)
    else Rc(bound, rc.code, rc.input)
  }

  function Adapted(p: prob, bit: bool): prob {
    if bit then p - p / 32 else p + (0x800 - p) / 32
  }

  /** The bit of a direct step: the sign of code - range, complemented. */
  predicate DirectBit(rc: Rc) {
    (rc.code - rc.range / 2) % TWO32 < 0x8000_0000
  }

  function AfterDirectBit(rc: Rc): (r: Rc)
    ensures r.input == rc.input
    ensures rc.range >= TOP ==> r.range >= 0x1_0000 && 202 * r.range >= 100 * rc.range
  {
    var half := rc.range / 2;
    Rc(half, if DirectBit(rc) then (rc.code - half) % TWO32 else rc.code, rc.input)
  }

  // ----- Backwards -------------------------------------------------------------------------------------------

  /** A code, and the input that comes after it. */
  datatype Source = Source(code: word, input: seq<byte>)

  function Widened(range: word): (r: word)
    requires range >= 0x1_0000
    ensures r >= TOP
  {
    if range < TOP then 0x100 * range else range
  }

  /** What becomes of code and input before a normalisation. */
  function Narrowed(range: word, later: Source): (r: Source)
    requires range >= 0x1_0000 && later.code < Widened(range)
    ensures r.code < range
  {
    if range < TOP then Source(later.code / 0x100, [later.code % 0x100] + later.input) else later
  }

  lemma NarrowedBack(range: word, later: Source)
    requires range >= 0x1_0000 && later.code < Widened(range)
    ensures var b := Narrowed(range, later); var rc := Rc(range, b.code, b.input);
            !Starved(rc) && Normalized(rc) == Rc(Widened(range), later.code, later.input)
  {
    if range < TOP {
      DivUnique(later.code, TWO32, 0, later.code);
    }
  }
}
