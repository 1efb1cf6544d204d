/**
  UTF-8 and UTF-16. A character is what the syntax of section 4 of RFC 3629 says, the value is what its bits say; the
  decoder, the encoder and the conversions are shown to agree with both, and to undo each other.
*/
module CodePoints {
  import opened Words

  type unit16 = x: int | 0 <= x < 0x1_0000

  predicate IsSurrogate(cp: int) {
    0xD800 <= cp <= 0xDFFF
  }

  /** is_code_point_valid. */
  predicate IsCodePoint(cp: int) {
    0 <= cp <= 0x10_FFFF && !IsSurrogate(cp)
  }

  type codePoint = cp: int | 0 <= cp <= 0x10_FFFF && !(0xD800 <= cp <= 0xDFFF) witness 0

  // ----- Characters ------------------------------------------------------------------------------------------

  predicate IsTrail(b: byte) {
    0x80 <= b <= 0xBF
  }

  /** UTF8-char of section 4 of RFC 3629. */
  predicate Char8(t: seq<byte>) {
    || (|t| == 1 && t[0] <= 0x7F)
    || (|t| == 2 && 0xC2 <= t[0] <= 0xDF && IsTrail(t[1]))
    || (|t| == 3 && IsTrail(t[2]) &&
         (|| (t[0] == 0xE0 && 0xA0 <= t[1] <= 0xBF)
          || (0xE1 <= t[0] <= 0xEC && IsTrail(t[1]))
          || (t[0] == 0xED && 0x80 <= t[1] <= 0x9F)
          || (0xEE <= t[0] <= 0xEF && IsTrail(t[1]))))
    || (|t| == 4 && IsTrail(t[2]) && IsTrail(t[3]) &&
         (|| (t[0] == 0xF0 && 0x90 <= t[1] <= 0xBF)
          || (0xF1 <= t[0] <= 0xF3 && IsTrail(t[1]))
          || (t[0] == 0xF4 && 0x80 <= t[1] <= 0x8F)))
  }

  /** The bits of the first byte after its marker, and six bits of each byte that follows. */
  function Value(t: seq<byte>): int
    requires 1 <= |t| <= 4
  {
    if |t| == 1 then t[0]
    else if |t| == 2 then (t[0] as int - 0xC0) * 0x40 + (t[1] as int - 0x80)
    else if |t| == 3 then (t[0] as int - 0xE0) * 0x1000 + (t[1] as int - 0x80) * 0x40 + (t[2] as int - 0x80)
    else (t[0] as int - 0xF0) * 0x4_0000 + (t[1] as int - 0x80) * 0x1000 + (t[2] as int - 0x80) * 0x40 + (t[3] as int - 0x80)
  }

  function Trail(x: nat): byte {
    0x80 + x % 0x40
  }

  /** The character of a code point, as in section 3 of RFC 3629. */
  function Encoded(cp: codePoint): (t: seq<byte>)
    ensures 1 <= |t| <= 4
  {
    var c: nat := cp;
    if c < 0x80 then
      [c]
    else if c < 0x800 then
      var b: byte := 0xC0 + c / 0x40;
      [b, Trail(c)]
    else if c < 0x1_0000 then
      var b: byte := 0xE0 + c / 0x1000;
      [b, Trail(c / 0x40), Trail(c)]
    else
      var b: byte := 0xF0 + c / 0x4_0000;
      [b, Trail(c / 0x1000), Trail(c / 0x40), Trail(c)]
  }

  /** Digits to the base 64. */
  lemma Digits(a: nat, b: nat, c: nat, d: nat)
    requires b < 0x40 && c < 0x40 && d < 0x40
    ensures var v := a * 0x4_0000 + b * 0x1000 + c * 0x40 + d;
            && v / 0x4_0000 == a && v / 0x1000 == 0x40 * a + b && v / 0x40 == 0x1000 * a + 0x40 * b + c
            && v / 0x1000 % 0x40 == b && v / 0x40 % 0x40 == c && v % 0x40 == d
  {
    var v := a * 0x4_0000 + b * 0x1000 + c * 0x40 + d;
    DivUnique(v, 0x4_0000, a, b * 0x1000 + c * 0x40 + d);
    DivUnique(v, 0x1000, 0x40 * a + b, c * 0x40 + d);
    DivUnique(v, 0x40, 0x1000 * a + 0x40 * b + c, d);
    DivUnique(0x40 * a + b, 0x40, a, b);
    DivUnique(0x1000 * a + 0x40 * b + c, 0x40, 0x40 * a + b, c);
  }

  lemma FromDigits(v: nat)
    ensures v == v / 0x4_0000 * 0x4_0000 + v / 0x1000 % 0x40 * 0x1000 + v / 0x40 % 0x40 * 0x40 + v % 0x40
    ensures v / 0x1000 == v / 0x4_0000 * 0x40 + v / 0x1000 % 0x40 && v / 0x40 == v / 0x1000 * 0x40 + v / 0x40 % 0x40
  {
    var q := v / 0x40;
    var r := q / 0x40;
    DivUnique(v, 0x1000, r, 0x40 * (q % 0x40) + v % 0x40);
    DivUnique(v, 0x4_0000, r / 0x40, 0x1000 * (r % 0x40) + 0x40 * (q % 0x40) + v % 0x40);
  }

  lemma ValueOfEncoded(cp: codePoint)
    ensures Char8(Encoded(cp)) && Value(Encoded(cp)) == cp
  {
    FromDigits(cp);
  }

  lemma EncodedOfTwo(t: seq<byte>)
    requires Char8(t) && |t| <= 2
    ensures IsCodePoint(Value(t)) && Encoded(Value(t)) == t
  {
    if |t| == 2 {
      Digits(0, 0, t[0] as int - 0xC0, t[1] as int - 0x80);
    }
  }

  lemma EncodedOfThree(t: seq<byte>)
    requires Char8(t) && |t| == 3
    ensures IsCodePoint(Value(t)) && Encoded(Value(t)) == t
  {
    Digits(0, t[0] as int - 0xE0, t[1] as int - 0x80, t[2] as int - 0x80);
  }

  lemma EncodedOfFour(t: seq<byte>)
    requires Char8(t) && |t| == 4
    ensures IsCodePoint(Value(t)) && Encoded(Value(t)) == t
  {
    Digits(t[0] as int - 0xF0, t[1] as int - 0x80, t[2] as int - 0x80, t[3] as int - 0x80);
  }

  lemma EncodedOfValue(t: seq<byte>)
    requires Char8(t)
    ensures IsCodePoint(Value(t)) && Encoded(Value(t)) == t
  {
    hide Value, Encoded;
    if |t| <= 2 {
      EncodedOfTwo(t);
    } else if |t| == 3 {
      EncodedOfThree(t);
    } else {
      EncodedOfFour(t);
    }
  }

  /** No character begins another. */
  lemma NoPrefix(t: seq<byte>, u: seq<byte>)
    requires Char8(t) && Char8(u) && t <= u
    ensures t == u
  {
    assert t[0] == u[0];
  }

  // ----- Decoding one character ------------------------------------------------------------------------------

  datatype Error = NotEnoughRoom | InvalidLead | IncompleteSequence | OverlongSequence | InvalidCodePoint

  datatype Scanned = Good(cp: codePoint, n: nat) | Bad(error: Error)

  function SequenceLength(lead: byte): nat {
    if lead < 0x80 then 1
    else if lead as int / 0x20 == 6 then 2
    else if lead as int / 0x10 == 0xE then 3
    else if lead as int / 8 == 0x1E then 4
    else 0
  }

  predicate IsOverlong(cp: int, length: nat) {
    if cp < 0x80 then length != 1 else if cp < 0x800 then length != 2 else if cp < 0x1_0000 then length != 3 else false
  }

  /** How many of the n bytes a sequence should have are there and trail, and what is wrong with the next. */
  function TrailFault(s: seq<byte>, k: nat, n: nat): (r: (nat, Error))
    requires k <= |s|
    ensures k <= r.0 <= |s| && (k <= n ==> r.0 <= n)
    decreases n - k
  {
    if k >= n || k == |s| then (k, NotEnoughRoom)
    else if !IsTrail(s[k]) then (k, IncompleteSequence)
    else TrailFault(s, k + 1, n)
  }

  /** validate_next, at the start of s. */
  function Validated(s: seq<byte>): (r: Scanned)
    requires s != []
    ensures r.Good? ==> 1 <= r.n <= |s|
  {
    var n := SequenceLength(s[0]);
    if n == 0 then Bad(InvalidLead)
    else
      var f := TrailFault(s, 1, n);
      if f.0 < n then Bad(f.1)
      else
        var cp := Value(s[..n]);
        if !IsCodePoint(cp) then Bad(InvalidCodePoint)
        else if IsOverlong(cp, n) then Bad(OverlongSequence)
        else Good(cp, n)
  }

  lemma LengthByRange(lead: byte)
    ensures var n := SequenceLength(lead);
            && (n == 1 <==> lead < 0x80) && (n == 2 <==> 0xC0 <= lead <= 0xDF) && (n == 3 <==> 0xE0 <= lead <= 0xEF)
            && (n == 4 <==> 0xF0 <= lead <= 0xF7) && n <= 4
  {
  }

  lemma AllTrail(s: seq<byte>, k: nat, n: nat)
    requires k <= n && k <= |s|
    ensures TrailFault(s, k, n).0 == n <==> n <= |s| && forall i | k <= i < n :: IsTrail(s[i])
    decreases n - k
  {
    if k < n && k < |s| && IsTrail(s[k]) {
      AllTrail(s, k + 1, n);
    }
  }

  /** Among sequences of the right shape, the tests leave just the characters. */
  lemma TestsExact(t: seq<byte>)
    requires 1 <= |t| <= 4 && SequenceLength(t[0]) == |t| && forall i | 1 <= i < |t| :: IsTrail(t[i])
    ensures Char8(t) <==> IsCodePoint(Value(t)) && !IsOverlong(Value(t), |t|)
  {
    LengthByRange(t[0]);
  }

  lemma ShapeOfChar(t: seq<byte>)
    requires Char8(t)
    ensures SequenceLength(t[0]) == |t| && forall i | 1 <= i < |t| :: IsTrail(t[i])
  {
    LengthByRange(t[0]);
  }

  /** validate_next accepts exactly the characters of RFC 3629, and finds their values. */
  lemma ValidatedExact(s: seq<byte>, cp: codePoint, n: nat)
    requires s != []
    ensures Validated(s) == Good(cp, n) <==> 1 <= n <= |s| && Char8(s[..n]) && Value(s[..n]) == cp
  {
    hide Char8, Value, IsOverlong, SequenceLength;
    LengthByRange(s[0]);
    var m := SequenceLength(s[0]);
    if m > 0 {
      AllTrail(s, 1, m);
      if TrailFault(s, 1, m).0 == m {
        assert forall i | 1 <= i < m :: s[..m][i] == s[i];
        TestsExact(s[..m]);
      }
    }
    if 1 <= n <= |s| && Char8(s[..n]) {
      ShapeOfChar(s[..n]);
      assert n == m;
      assert forall i | 1 <= i < n :: IsTrail(s[i]) by {
        assert forall i | 1 <= i < n :: s[..n][i] == s[i];
      }
    }
  }

  // ----- The iterators of core.h --------------------------------------------------------------------------------

  datatype Outcome = Ok | Fault(error: Error)

  /** What is wrong with byte k of a sequence that starts s. */
  function ByteFault(s: seq<byte>, k: nat): Outcome
    requires k <= |s|
  {
    if k == |s| then Fault(NotEnoughRoom) else if !IsTrail(s[k]) then Fault(IncompleteSequence) else Ok
  }

  function SequenceFault(s: seq<byte>, n: nat): Outcome
    requires s != []
  {
    var f := TrailFault(s, 1, n);
    if f.0 < n then Fault(f.1) else Ok
  }

  lemma FaultOn(s: seq<byte>, k: nat, n: nat)
    requires 1 <= k < n && k <= |s| && TrailFault(s, 1, n) == TrailFault(s, k, n)
    ensures ByteFault(s, k).Fault? ==> SequenceFault(s, n) == ByteFault(s, k)
    ensures ByteFault(s, k).Ok? ==> k < |s| && TrailFault(s, 1, n) == TrailFault(s, k + 1, n)
    ensures ByteFault(s, k).Ok? && k + 1 == n ==> SequenceFault(s, n).Ok?
  {
  }

  /** increase_safely, within the sequence that starts at `start`. */
  method IncreaseSafely(s: seq<byte>, it: nat, ghost start: nat) returns (err: Outcome, it': nat)
    requires start <= it < |s|
    ensures it' == it + 1 && err == ByteFault(s[start..], it' - start)
  {
    it' := it + 1;
    if it' == |s| {
      return Fault(NotEnoughRoom), it';
    }
    err := if !IsTrail(s[it']) then Fault(IncompleteSequence) else Ok;
  }

  lemma Masks(lead: byte, b: byte)
    ensures 0xC0 <= lead <= 0xDF ==> lead as int * 0x40 % 0x800 == (lead as int - 0xC0) * 0x40
    ensures 0xE0 <= lead <= 0xEF ==> lead as int * 0x1000 % 0x1_0000 == (lead as int - 0xE0) * 0x1000
    ensures 0xF0 <= lead <= 0xF7 ==> lead as int * 0x4_0000 % 0x20_0000 == (lead as int - 0xF0) * 0x4_0000
    ensures IsTrail(b) ==>
      && b as int % 0x40 == b as int - 0x80 && b as int * 0x40 % 0x1000 == (b as int - 0x80) * 0x40
      && b as int * 0x1000 % 0x4_0000 == (b as int - 0x80) * 0x1000
  {
    if 0xC0 <= lead <= 0xDF {
      DivUnique(lead as int * 0x40, 0x800, 6, (lead as int - 0xC0) * 0x40);
    } else if 0xE0 <= lead <= 0xEF {
      DivUnique(lead as int * 0x1000, 0x1_0000, 14, (lead as int - 0xE0) * 0x1000);
    } else if 0xF0 <= lead <= 0xF7 {
      DivUnique(lead as int * 0x4_0000, 0x20_0000, 30, (lead as int - 0xF0) * 0x4_0000);
    }
    if IsTrail(b) {
      DivUnique(b as int, 0x40, 2, b as int - 0x80);
      DivUnique(b as int * 0x40, 0x1000, 2, (b as int - 0x80) * 0x40);
      DivUnique(b as int * 0x1000, 0x4_0000, 2, (b as int - 0x80) * 0x1000);
    }
  }

  method GetSequence2(s: seq<byte>, it: nat) returns (err: Outcome, it': nat, cp: int)
    requires it < |s| && SequenceLength(s[it]) == 2
    ensures err == SequenceFault(s[it..], 2)
    ensures err.Ok? ==> it' == it + 1 < |s| && cp == Value(s[it..][..2])
  {
    hide SequenceFault, ByteFault;
    LengthByRange(s[it]);
    cp := s[it];
    FaultOn(s[it..], 1, 2);
    err, it' := IncreaseSafely(s, it, it);
    if err.Fault? {
      return;
    }
    Masks(s[it], s[it']);
    TrailAt(s[it..], 1);
    cp := cp * 0x40 % 0x800 + s[it'] as int % 0x40;
  }

  lemma TrailAt(s: seq<byte>, k: nat)
    requires k <= |s| && ByteFault(s, k).Ok?
    ensures k < |s| && IsTrail(s[k])
  {
  }

  method GetSequence3(s: seq<byte>, it: nat) returns (err: Outcome, it': nat, cp: int)
    requires it < |s| && SequenceLength(s[it]) == 3
    ensures err == SequenceFault(s[it..], 3)
    ensures err.Ok? ==> it' == it + 2 < |s| && cp == Value(s[it..][..3])
  {
    hide SequenceFault, ByteFault, TrailFault;
    LengthByRange(s[it]);
    cp := s[it];
    FaultOn(s[it..], 1, 3);
    err, it' := IncreaseSafely(s, it, it);
    if err.Fault? {
      return;
    }
    Masks(s[it], s[it']);
    TrailAt(s[it..], 1);
    cp := cp * 0x1000 % 0x1_0000 + s[it'] as int * 0x40 % 0x1000;
    FaultOn(s[it..], 2, 3);
    err, it' := IncreaseSafely(s, it', it);
    if err.Fault? {
      return;
    }
    Masks(s[it], s[it']);
    TrailAt(s[it..], 2);
    cp := cp + s[it'] as int % 0x40;
  }

  method GetSequence4(s: seq<byte>, it: nat) returns (err: Outcome, it': nat, cp: int)
    requires it < |s| && SequenceLength(s[it]) == 4
    ensures err == SequenceFault(s[it..], 4)
    ensures err.Ok? ==> it' == it + 3 < |s| && cp == Value(s[it..][..4])
  {
    hide SequenceFault, ByteFault, TrailFault;
    LengthByRange(s[it]);
    cp := s[it];
    FaultOn(s[it..], 1, 4);
    err, it' := IncreaseSafely(s, it, it);
    if err.Fault? {
      return;
    }
    Masks(s[it], s[it']);
    TrailAt(s[it..], 1);
    cp := cp * 0x4_0000 % 0x20_0000 + s[it'] as int * 0x1000 % 0x4_0000;
    FaultOn(s[it..], 2, 4);
    err, it' := IncreaseSafely(s, it', it);
    if err.Fault? {
      return;
    }
    Masks(s[it], s[it']);
    TrailAt(s[it..], 2);
    cp := cp + s[it'] as int * 0x40 % 0x1000;
    FaultOn(s[it..], 3, 4);
    err, it' := IncreaseSafely(s, it', it);
    if err.Fault? {
      return;
    }
    Masks(s[it], s[it']);
    TrailAt(s[it..], 3);
    cp := cp + s[it'] as int % 0x40;
  }

  /** validate_next: on failure the iterator stays where it was. */
  method ValidateNext(s: seq<byte>, it: nat) returns (err: Outcome, it': nat, cp: codePoint)
    requires it < |s|
    ensures match Validated(s[it..])
            case Good(c, n) => err == Ok && it' == it + n && cp == c
            case Bad(e) => err == Fault(e) && it' == it
  {
    hide Value, SequenceLength;
    var length := SequenceLength(s[it]);
    LengthByRange(s[it]);
    var v := 0;
    cp := 0;
    if length == 0 {
      return Fault(InvalidLead), it, cp;
    } else if length == 1 {
      err, it', v := Ok, it, s[it];
      OneByte(s[it..]);
    } else if length == 2 {
      err, it', v := GetSequence2(s, it);
    } else if length == 3 {
      err, it', v := GetSequence3(s, it);
    } else {
      err, it', v := GetSequence4(s, it);
    }
    if err.Ok? {
      if IsCodePoint(v) {
        if !IsOverlong(v, length) {
          cp := v;
          it' := it' + 1;
          return;
        } else {
          err := Fault(OverlongSequence);
        }
      } else {
        err := Fault(InvalidCodePoint);
      }
    }
    it' := it;
  }

  lemma OneByte(s: seq<byte>)
    requires s != []
    ensures Value(s[..1]) == s[0]
  {
  }

  // ----- Text ----------------------------------------------------------------------------------------------------

  /** Characters one after another. */
  function Text8(cps: seq<codePoint>): seq<byte> {
    if cps == [] then [] else Encoded(cps[0]) + Text8(cps[1..])
  }

  function Decoded8(s: seq<byte>): Option<seq<codePoint>> {
    if s == [] then Some([])
    else
      match Validated(s)
      case Bad(_) => None
      case Good(cp, n) => First(cp, Decoded8(s[n..]))
  }

  function First(cp: codePoint, rest: Option<seq<codePoint>>): Option<seq<codePoint>> {
    match rest
    case None => None
    case Some(cps) => Some([cp] + cps)
  }

  /** A character is found whatever follows it. */
  lemma ValidatedChar(cp: codePoint, rest: seq<byte>)
    ensures Validated(Encoded(cp) + rest) == Good(cp, |Encoded(cp)|)
  {
    hide Encoded, Validated, Char8, Value;
    var t := Encoded(cp);
    ValueOfEncoded(cp);
    assert (t + rest)[..|t|] == t;
    ValidatedExact(t + rest, cp, |t|);
  }

  lemma ValidatedIsChar(s: seq<byte>)
    requires s != [] && Validated(s).Good?
    ensures var r := Validated(s); Char8(s[..r.n]) && Encoded(r.cp) == s[..r.n]
  {
    hide Encoded, Validated, Char8, Value;
    var r := Validated(s);
    ValidatedExact(s, r.cp, r.n);
    EncodedOfValue(s[..r.n]);
  }

  lemma {:induction false} DecodedText8(cps: seq<codePoint>)
    ensures Decoded8(Text8(cps)) == Some(cps)
  {
    hide Encoded, Validated;
    if cps != [] {
      var t, rest := Encoded(cps[0]), Text8(cps[1..]);
      ValidatedChar(cps[0], rest);
      assert (t + rest)[|t|..] == rest;
      DecodedText8(cps[1..]);
      assert [cps[0]] + cps[1..] == cps;
    }
  }

  lemma {:induction false} TextDecoded8(s: seq<byte>)
    requires Decoded8(s).Some?
    ensures Text8(Decoded8(s).value) == s
    decreases |s|
  {
    hide Encoded, Validated;
    if s != [] {
      var r := Validated(s);
      ValidatedIsChar(s);
      TextDecoded8(s[r.n..]);
      var cps := Decoded8(s[r.n..]).value;
      assert ([r.cp] + cps)[1..] == cps;
      assert s[..r.n] + s[r.n..] == s;
    }
  }

  // ----- UTF-16 ------------------------------------------------------------------------------------------------

  predicate IsLead(u: unit16) {
    0xD800 <= u <= 0xDBFF
  }

  predicate IsTrailSurrogate(u: unit16) {
    0xDC00 <= u <= 0xDFFF
  }

  /** Section 2.1 of RFC 2781. */
  function Encoded16(cp: codePoint): (t: seq<unit16>)
    ensures 1 <= |t| <= 2
  {
    if cp < 0x1_0000 then [cp]
    else
      var c: nat := cp - 0x1_0000;
      var lead: unit16 := 0xD800 + c / 0x400;
      [lead, 0xDC00 + c % 0x400]
  }

  /** A code point of more than 16 bits is 0x10000 and ten bits from each surrogate, the higher ten first. */
  lemma SurrogateBits(cp: codePoint)
    requires cp >= 0x1_0000
    ensures var t := Encoded16(cp);
            && |t| == 2 && IsLead(t[0]) && IsTrailSurrogate(t[1])
            && cp as int == 0x1_0000 + 0x400 * (t[0] as int % 0x400) + t[1] as int % 0x400
  {
  }

  function Text16(cps: seq<codePoint>): seq<unit16> {
    if cps == [] then [] else Encoded16(cps[0]) + Text16(cps[1..])
  }

  function Pair(lead: unit16, trail: unit16): codePoint
    requires IsLead(lead) && IsTrailSurrogate(trail)
  {
    0x1_0000 + 0x400 * (lead as int - 0xD800) + (trail as int - 0xDC00)
  }

  /** Section 2.2 of RFC 2781: the first code point and the units it takes. */
  function First16(u: seq<unit16>): (r: Option<(codePoint, nat)>)
    requires u != []
    ensures r.Some? ==> 1 <= r.value.1 <= |u|
  {
    if IsLead(u[0]) then
      if |u| >= 2 && IsTrailSurrogate(u[1]) then Some((Pair(u[0], u[1]), 2)) else None
    else if IsTrailSurrogate(u[0]) then None
    else
      var cp: codePoint := u[0];
      Some((cp, 1))
  }

  function Decoded16(u: seq<unit16>): Option<seq<codePoint>> {
    if u == [] then Some([])
    else
      match First16(u)
      case None => None
      case Some(r) => First(r.0, Decoded16(u[r.1..]))
  }

  lemma FirstOfEncoded16(cp: codePoint, rest: seq<unit16>)
    ensures First16(Encoded16(cp) + rest) == Some((cp, |Encoded16(cp)|))
  {
  }

  lemma EncodedOfFirst16(u: seq<unit16>)
    requires u != [] && First16(u).Some?
    ensures var r := First16(u).value; Encoded16(r.0) == u[..r.1]
  {
    if IsLead(u[0]) {
      var c := First16(u).value.0 as int - 0x1_0000;
      DivUnique(c, 0x400, u[0] as int - 0xD800, u[1] as int - 0xDC00);
    }
  }

  lemma {:induction false} DecodedText16(cps: seq<codePoint>)
    ensures Decoded16(Text16(cps)) == Some(cps)
  {
    hide Encoded16, First16;
    if cps != [] {
      var t, rest := Encoded16(cps[0]), Text16(cps[1..]);
      FirstOfEncoded16(cps[0], rest);
      assert (t + rest)[|t|..] == rest;
      DecodedText16(cps[1..]);
      assert [cps[0]] + cps[1..] == cps;
    }
  }

  lemma {:induction false} TextDecoded16(u: seq<unit16>)
    requires Decoded16(u).Some?
    ensures Text16(Decoded16(u).value) == u
    decreases |u|
  {
    hide Encoded16, First16;
    if u != [] {
      var r := First16(u).value;
      EncodedOfFirst16(u);
      TextDecoded16(u[r.1..]);
      var cps := Decoded16(u[r.1..]).value;
      assert ([r.0] + cps)[1..] == cps;
      assert u[..r.1] + u[r.1..] == u;
    }
  }

  // ----- Conversions -----------------------------------------------------------------------------------------------

  function To8(u: seq<unit16>): Option<seq<byte>> {
    match Decoded16(u)
    case None => None
    case Some(cps) => Some(Text8(cps))
  }

  function To16(s: seq<byte>): Option<seq<unit16>> {
    match Decoded8(s)
    case None => None
    case Some(cps) => Some(Text16(cps))
  }

  /** On well-formed text the conversions undo each other; on other text they fail. */
  lemma RoundTrip16(u: seq<unit16>)
    requires To8(u).Some?
    ensures To16(To8(u).value) == Some(u)
  {
    TextDecoded16(u);
    DecodedText8(Decoded16(u).value);
  }

  lemma RoundTrip8(s: seq<byte>)
    requires To16(s).Some?
    ensures To8(To16(s).value) == Some(s)
  {
    TextDecoded8(s);
    DecodedText16(Decoded8(s).value);
  }

  /** Text is well-formed if and only if it is the characters of some code points. */
  lemma WellFormed8(s: seq<byte>)
    ensures Decoded8(s).Some? <==> exists cps :: Text8(cps) == s
  {
    if Decoded8(s).Some? {
      TextDecoded8(s);
    }
    forall cps | Text8(cps) == s
      ensures Decoded8(s).Some?
    {
      DecodedText8(cps);
    }
  }

  /** append. */
  method Append(cp: word, result: seq<byte>) returns (ok: bool, result': seq<byte>)
    ensures ok == IsCodePoint(cp)
    ensures ok ==> result' == result + Encoded(cp)
  {
    ok, result' := IsCodePoint(cp), result;
    if !ok {
      return;
    }
    FromDigits(cp);
    var low: byte := 0x80 + cp as int % 0x40;
    if cp < 0x80 {
      result' := result + [cp];
    } else if cp < 0x800 {
      result' := result + [0xC0 + cp as int / 0x40, low];
    } else if cp < 0x1_0000 {
      result' := result + [0xE0 + cp as int / 0x1000, 0x80 + cp as int / 0x40 % 0x40, low];
    } else {
      result' := result + [0xF0 + cp as int / 0x4_0000, 0x80 + cp as int / 0x1000 % 0x40, 0x80 + cp as int / 0x40 % 0x40, low];
    }
  }

  const LEAD_OFFSET: unit16 := 0xD7C0
  const SURROGATE_OFFSET: word := 0xFCA0_2400

  /** The offset stands for 0x10000 - (0xD800 << 10) - 0xDC00, as a 32-bit word. */
  lemma SurrogatePair(lead: unit16, trail: unit16)
    requires IsLead(lead) && IsTrailSurrogate(trail)
    ensures (lead as int * 0x400 + trail as int + SURROGATE_OFFSET as int) % TWO32 == Pair(lead, trail)
  {
    DivUnique(lead as int * 0x400 + trail as int + SURROGATE_OFFSET as int, TWO32, 1, Pair(lead, trail));
  }

  /** One code point of UTF-16, as utf16to8 reads it. */
  method NextUnit16(u: seq<unit16>, start: nat) returns (ok: bool, cp: word, start': nat)
    requires start < |u|
    ensures match First16(u[start..])
            case None => !ok
            case Some(r) => ok && cp == r.0 && start' == start + r.1
  {
    ok, cp, start' := true, u[start], start + 1;
    if IsLead(u[start]) {
      if start' != |u| {
        var trail := u[start'];
        start' := start' + 1;
        if IsTrailSurrogate(trail) {
          SurrogatePair(u[start], trail);
          cp := (cp as int * 0x400 + trail as int + SURROGATE_OFFSET as int) % TWO32;
        } else {
          ok := false;
        }
      } else {
        ok := false;
      }
    } else if IsTrailSurrogate(u[start]) {
      ok := false;
    }
  }

  lemma Decoded16Step(u: seq<unit16>, start: nat)
    requires start < |u|
    ensures match First16(u[start..])
            case None => Decoded16(u[start..]).None?
            case Some(r) => start + r.1 <= |u| && Decoded16(u[start..]) == First(r.0, Decoded16(u[start + r.1..]))
  {
    if First16(u[start..]).Some? {
      assert u[start..][First16(u[start..]).value.1..] == u[start + First16(u[start..]).value.1..];
    }
  }

  function Prefixed(out: seq<byte>, rest: Option<seq<byte>>): Option<seq<byte>> {
    match rest
    case None => None
    case Some(s) => Some(out + s)
  }

  /** utf16to8. */
  method Utf16to8(u: seq<unit16>) returns (ok: bool, result: seq<byte>)
    ensures To8(u) == if ok then Some(result) else None
  {
    hide Encoded, First16, Decoded16, Text8;
    result := [];
    var start: nat := 0;
    assert u[0..] == u;
    PrefixedNone(To8(u));
    while start != |u|
      invariant start <= |u| && To8(u) == Prefixed(result, To8(u[start..]))
      decreases |u| - start
    {
      var cp, start';
      ok, cp, start' := NextUnit16(u, start);
      To8Step(u, start);
      if !ok {
        return;
      }
      PrefixedMore(result, Encoded(cp), To8(u[start'..]));
      ok, result := Append(cp, result);
      start := start';
    }
    ok := true;
    To8Empty(u[start..]);
    assert result + [] == result;
  }

  lemma To8Step(u: seq<unit16>, start: nat)
    requires start < |u|
    ensures match First16(u[start..])
            case None => To8(u[start..]).None?
            case Some(r) => start + r.1 <= |u| && To8(u[start..]) == Prefixed(Encoded(r.0), To8(u[start + r.1..]))
  {
    hide Encoded, First16, Decoded16;
    Decoded16Step(u, start);
    if First16(u[start..]).Some? {
      var r := First16(u[start..]).value;
      if Decoded16(u[start + r.1..]).Some? {
        var cps := Decoded16(u[start + r.1..]).value;
        assert ([r.0] + cps)[1..] == cps;
      }
    }
  }

  lemma To8Empty(u: seq<unit16>)
    requires |u| == 0
    ensures To8(u) == Some([])
  {
  }

  lemma PrefixedNone(r: Option<seq<byte>>)
    ensures Prefixed([], r) == r
  {
    if r.Some? {
      assert [] + r.value == r.value;
    }
  }

  lemma PrefixedMore(out: seq<byte>, t: seq<byte>, r: Option<seq<byte>>)
    ensures Prefixed(out, Prefixed(t, r)) == Prefixed(out + t, r)
  {
    if r.Some? {
      assert out + (t + r.value) == out + t + r.value;
    }
  }

  // ----- Decoding text -----------------------------------------------------------------------------------------------

  /** next; on failure the iterator stays. */
  method Next(s: seq<byte>, it: nat) returns (err: Outcome, it': nat, cp: codePoint)
    requires it < |s|
    ensures err.Ok? ==> it < it' <= |s| && Char8(s[it..it']) && Encoded(cp) == s[it..it'] && Validated(s[it..]) == Good(cp, it' - it)
    ensures err.Fault? ==> it' == it && Validated(s[it..]) == Bad(err.error)
  {
    hide Validated, Char8, Encoded;
    err, it', cp := ValidateNext(s, it);
    if err.Ok? {
      ValidatedIsChar(s[it..]);
      assert s[it..][..it' - it] == s[it..it'];
    }
  }

  /** The walk back to the last byte that does not trail. */
  function LeadBefore(s: seq<byte>, it: nat): (r: Option<nat>)
    requires it <= |s|
    ensures r.Some? ==> r.value < it
  {
    if it == 0 then None else if IsTrail(s[it - 1]) then LeadBefore(s, it - 1) else Some(it - 1)
  }

  /** prior: what starts at the last lead byte before `it`. */
  method Prior(s: seq<byte>, it: nat) returns (ok: bool, it': nat, cp: codePoint)
    requires it <= |s|
    ensures ok <==> LeadBefore(s, it).Some? && Validated(s[LeadBefore(s, it).value..it]).Good?
    ensures ok ==> it' == LeadBefore(s, it).value && cp == Validated(s[it'..it]).cp
  {
    hide Validated, Char8, Encoded;
    ok, it', cp := false, it, 0;
    if it == 0 {
      return;
    }
    it' := it - 1;
    while IsTrail(s[it'])
      invariant 0 <= it' < it && LeadBefore(s, it) == LeadBefore(s, it' + 1)
      decreases it'
    {
      if it' == 0 {
        return;
      }
      it' := it' - 1;
    }
    assert s[..it][it'..] == s[it'..it];
    var err, end;
    err, end, cp := Next(s[..it], it');
    ok := err.Ok?;
  }

  /** prior undoes next: from the end of a character it finds that character. */
  lemma PriorOfNext(s: seq<byte>, it: nat, it': nat)
    requires it < it' <= |s| && Char8(s[it..it'])
    ensures LeadBefore(s, it') == Some(it) && Validated(s[it..it']) == Good(Value(s[it..it']), it' - it)
  {
    hide Validated, Value;
    var t := s[it..it'];
    ShapeOfChar(t);
    LengthByRange(t[0]);
    assert forall i | it < i < it' :: s[i] == t[i - it];
    LeadAt(s, it, it');
    EncodedOfValue(t);
    ValidatedExact(t, Value(t), |t|);
    assert t[..|t|] == t;
  }

  lemma {:induction false} LeadAt(s: seq<byte>, it: nat, it': nat)
    requires it < it' <= |s| && !IsTrail(s[it]) && forall i | it < i < it' :: IsTrail(s[i])
    ensures LeadBefore(s, it') == Some(it)
  {
    if it + 1 < it' {
      LeadAt(s, it, it' - 1);
    }
  }

  /** find_invalid: as much as is well-formed, up to a byte that starts no character. */
  method FindInvalid(s: seq<byte>) returns (result: nat)
    ensures result <= |s| && Decoded8(s[..result]).Some?
    ensures result < |s| ==> Validated(s[result..]).Bad? && Decoded8(s).None?
    ensures result == |s| <==> Decoded8(s).Some?
  {
    hide Validated, Char8, Encoded, Decoded8;
    result := 0;
    assert s[0..] == s && s[..0] == [];
    DecodedNothing();
    while result != |s|
      invariant result <= |s| && Decoded8(s[..result]).Some?
      invariant Decoded8(s).Some? <==> Decoded8(s[result..]).Some?
      decreases |s| - result
    {
      var err, it', cp := Next(s, result);
      Decoded8Step(s, result);
      if err.Fault? {
        return;
      }
      DecodedMore(s[..result], s[result..it']);
      assert s[..result] + s[result..it'] == s[..it'];
      result := it';
    }
    assert s[result..] == [] && s[..result] == s;
  }

  lemma DecodedNothing()
    ensures Decoded8([]) == Some([])
  {
  }

  lemma Decoded8Step(s: seq<byte>, it: nat)
    requires it < |s|
    ensures match Validated(s[it..])
            case Bad(_) => Decoded8(s[it..]).None?
            case Good(cp, n) => it + n <= |s| && Decoded8(s[it..]) == First(cp, Decoded8(s[it + n..]))
  {
    hide Validated;
    if Validated(s[it..]).Good? {
      assert s[it..][Validated(s[it..]).n..] == s[it + Validated(s[it..]).n..];
    }
  }

  /** A character after well-formed text. */
  lemma DecodedMore(s: seq<byte>, t: seq<byte>)
    requires Decoded8(s).Some? && Char8(t)
    ensures Decoded8(s + t).Some?
  {
    hide Char8, Encoded;
    var cps := Decoded8(s).value;
    TextDecoded8(s);
    EncodedOfValue(t);
    TextMore(cps, Value(t));
    DecodedText8(cps + [Value(t)]);
  }

  lemma {:induction false} TextMore(cps: seq<codePoint>, cp: codePoint)
    ensures Text8(cps + [cp]) == Text8(cps) + Encoded(cp)
  {
    hide Encoded;
    if cps == [] {
      assert Text8([cp]) == Encoded(cp) + Text8([]);
      assert [] + [cp] == [cp] && Encoded(cp) + [] == Encoded(cp) && [] + Encoded(cp) == Encoded(cp);
    } else {
      assert (cps + [cp])[1..] == cps[1..] + [cp];
      TextMore(cps[1..], cp);
    }
  }

  function Prefixed16(out: seq<unit16>, rest: Option<seq<unit16>>): Option<seq<unit16>> {
    match rest
    case None => None
    case Some(s) => Some(out + s)
  }

  /** utf8to16. */
  method Utf8to16(s: seq<byte>) returns (ok: bool, result: seq<unit16>)
    ensures To16(s) == if ok then Some(result) else None
  {
    hide Encoded, Validated, Decoded8, Text16, Char8, To16;
    result := [];
    var start: nat := 0;
    assert s[0..] == s;
    if To16(s).Some? {
      assert [] + To16(s).value == To16(s).value;
    }
    while start != |s|
      invariant start <= |s| && To16(s) == Prefixed16(result, To16(s[start..]))
      decreases |s| - start
    {
      var err, start', cp := Next(s, start);
      To16Step(s, start);
      if err.Fault? {
        return false, result;
      }
      var units: seq<unit16>;
      if cp > 0xFFFF {
        var lead: unit16 := cp as int / 0x400 + LEAD_OFFSET as int;
        units := [lead, cp as int % 0x400 + 0xDC00];
      } else {
        units := [cp];
      }
      Units16(cp);
      Prefixed16More(result, units, To16(s[start'..]));
      result := result + units;
      start := start';
    }
    ok := true;
    To16Empty(s[start..]);
    assert result + [] == result;
  }

  lemma Units16(cp: codePoint)
    ensures Encoded16(cp) == if cp > 0xFFFF then [cp as int / 0x400 + LEAD_OFFSET as int, cp as int % 0x400 + 0xDC00] else [cp]
  {
    if cp > 0xFFFF {
      var c := cp as int - 0x1_0000;
      DivUnique(cp as int, 0x400, c / 0x400 + 0x40, c % 0x400);
    }
  }

  lemma To16Empty(s: seq<byte>)
    requires |s| == 0
    ensures To16(s) == Some([])
  {
  }

  lemma To16Step(s: seq<byte>, start: nat)
    requires start < |s|
    ensures match Validated(s[start..])
            case Bad(_) => To16(s[start..]).None?
            case Good(cp, n) => start + n <= |s| && To16(s[start..]) == Prefixed16(Encoded16(cp), To16(s[start + n..]))
  {
    hide Encoded16, Validated, Decoded8;
    Decoded8Step(s, start);
    if Validated(s[start..]).Good? {
      var r := Validated(s[start..]);
      if Decoded8(s[start + r.n..]).Some? {
        var cps := Decoded8(s[start + r.n..]).value;
        assert ([r.cp] + cps)[1..] == cps;
      }
    }
  }

  lemma Prefixed16More(out: seq<unit16>, t: seq<unit16>, r: Option<seq<unit16>>)
    ensures Prefixed16(out, Prefixed16(t, r)) == Prefixed16(out + t, r)
  {
    if r.Some? {
      assert out + (t + r.value) == out + t + r.value;
    }
  }

  // ----- Replacing what is not well-formed -----------------------------------------------------------------------------

  function Skipped(s: seq<byte>): (r: seq<byte>)
    ensures |r| <= |s| && r == s[|s| - |r|..]
  {
    if s != [] && IsTrail(s[0]) then Skipped(s[1..]) else s
  }

  /** What is left after a sequence that is replaced. */
  function AfterFault(s: seq<byte>, e: Error): (r: seq<byte>)
    requires s != []
    ensures |r| < |s|
  {
    if e == InvalidLead then s[1..] else Skipped(s[1..])
  }

  function Replaced(s: seq<byte>, replacement: word): Option<seq<byte>>
    decreases |s|
  {
    if s == [] then Some([])
    else
      var v := Validated(s);
      if v.Good? then Prefixed(s[..v.n], Replaced(s[v.n..], replacement))
      else if v.error == NotEnoughRoom || !IsCodePoint(replacement) then None
      else Prefixed(Encoded(replacement), Replaced(AfterFault(s, v.error), replacement))
  }

  /** A byte that begins no sequence is replaced by itself. */
  lemma StrayReplaced(b: byte, t: seq<byte>, replacement: word)
    requires SequenceLength(b) == 0 && IsCodePoint(replacement)
    ensures Replaced([b] + t, replacement) == Prefixed(Encoded(replacement), Replaced(t, replacement))
  {
    hide Encoded;
    var s := [b] + t;
    assert s[0] == b && s[1..] == t;
  }

  /** A byte that begins one is replaced together with all trailing bytes after it, if they make no character. */
  lemma BrokenReplaced(s: seq<byte>, n: nat, replacement: word)
    requires 1 <= n <= |s| && SequenceLength(s[0]) > 0 && IsCodePoint(replacement)
    requires (forall i | 1 <= i < n :: IsTrail(s[i])) && (n < |s| ==> !IsTrail(s[n]))
    requires Validated(s).Bad? && Validated(s).error != NotEnoughRoom
    ensures Replaced(s, replacement) == Prefixed(Encoded(replacement), Replaced(s[n..], replacement))
  {
    hide *;
    LeadAccepted(s);
    SkippedAll(s, 1, n);
    ReplacedFault(s, replacement);
  }

  lemma ReplacedFault(s: seq<byte>, replacement: word)
    requires s != [] && Validated(s).Bad? && IsCodePoint(replacement)
    requires Validated(s).error != NotEnoughRoom && Validated(s).error != InvalidLead
    ensures Replaced(s, replacement) == Prefixed(Encoded(replacement), Replaced(Skipped(s[1..]), replacement))
  {
    hide Validated, Encoded, Skipped;
  }

  lemma LeadAccepted(s: seq<byte>)
    requires s != [] && SequenceLength(s[0]) > 0 && Validated(s).Bad?
    ensures Validated(s).error != InvalidLead
  {
    hide IsTrail, Value, IsOverlong, TrailFault;
    NoLeadFault(s, 1, SequenceLength(s[0]));
  }

  lemma {:induction false} NoLeadFault(s: seq<byte>, k: nat, n: nat)
    requires k <= |s|
    ensures TrailFault(s, k, n).1 != InvalidLead
    decreases n - k
  {
    hide IsTrail;
    if k < n && k < |s| && IsTrail(s[k]) {
      NoLeadFault(s, k + 1, n);
    }
  }

  lemma {:induction false} SkippedAll(s: seq<byte>, k: nat, n: nat)
    requires k <= n <= |s| && (forall i | k <= i < n :: IsTrail(s[i])) && (n < |s| ==> !IsTrail(s[n]))
    ensures Skipped(s[k..]) == s[n..]
    decreases n - k
  {
    hide IsTrail, Skipped;
    SkippedOne(s, k);
    if k < n {
      SkippedAll(s, k + 1, n);
    }
  }

  /** What comes out is well-formed. */
  lemma {:induction false} ReplacedValid(s: seq<byte>, replacement: word)
    requires Replaced(s, replacement).Some?
    ensures Decoded8(Replaced(s, replacement).value).Some?
    decreases |s|
  {
    hide Validated, Encoded, AfterFault;
    if s != [] {
      var v := Validated(s);
      if v.Good? {
        ValidatedIsChar(s);
        ReplacedValid(s[v.n..], replacement);
        DecodedFront(v.cp, Replaced(s[v.n..], replacement).value);
      } else {
        var rest := AfterFault(s, v.error);
        ReplacedValid(rest, replacement);
        DecodedFront(replacement, Replaced(rest, replacement).value);
      }
    }
  }

  lemma DecodedFront(cp: codePoint, s: seq<byte>)
    requires Decoded8(s).Some?
    ensures Decoded8(Encoded(cp) + s) == First(cp, Decoded8(s))
  {
    hide Validated, Encoded;
    ValidatedChar(cp, s);
    assert (Encoded(cp) + s)[|Encoded(cp)|..] == s;
  }

  /** Well-formed text stays as it is, whatever the replacement. */
  lemma {:induction false} ReplacedSame(s: seq<byte>, replacement: word)
    requires Decoded8(s).Some?
    ensures Replaced(s, replacement) == Some(s)
    decreases |s|
  {
    hide Validated, Encoded, AfterFault;
    if s != [] {
      var n := Validated(s).n;
      ReplacedSame(s[n..], replacement);
      assert s[..n] + s[n..] == s;
    }
  }

  /** The text stops in the middle of a sequence: its last bytes, at most three, are a lead and too few that trail. */
  predicate Stump(t: seq<byte>) {
    t != [] && SequenceLength(t[0]) > |t| && forall i | 1 <= i < |t| :: IsTrail(t[i])
  }

  /** Its last k bytes. */
  predicate StumpAt(s: seq<byte>, k: nat) {
    1 <= k <= |s| && Stump(s[|s| - k..])
  }

  ghost predicate CutShort(s: seq<byte>) {
    exists k :: StumpAt(s, k)
  }

  lemma StumpFault(s: seq<byte>)
    requires s != []
    ensures Validated(s) == Bad(NotEnoughRoom) <==> Stump(s)
  {
    hide Value, IsOverlong;
    LengthByRange(s[0]);
    var n := SequenceLength(s[0]);
    if n > 0 {
      FaultKinds(s, 1, n);
    }
  }

  lemma {:induction false} FaultKinds(s: seq<byte>, k: nat, n: nat)
    requires 1 <= k <= |s| && k <= n
    ensures var f := TrailFault(s, k, n);
            f.0 < n && f.1 == NotEnoughRoom <==> |s| < n && forall i | k <= i < |s| :: IsTrail(s[i])
    decreases n - k
  {
    if k < n && k < |s| && IsTrail(s[k]) {
      FaultKinds(s, k + 1, n);
    }
  }

  /** Before a lead byte there is nothing that a stump could start with. */
  lemma StumpsBehind(s: seq<byte>, p: nat)
    requires p <= |s| && 1 <= |s| && !Stump(s) && forall i | 1 <= i < p :: IsTrail(s[i])
    requires p >= 1
    ensures CutShort(s) <==> CutShort(s[p..])
  {
    if CutShort(s) {
      var k :| StumpAt(s, k);
      var i := |s| - k;
      assert s[i..][0] == s[i];
      LengthByRange(s[i]);
      assert s[0..] == s;
      assert i >= p;
      assert s[p..][|s[p..]| - k..] == s[i..];
      assert StumpAt(s[p..], k);
    }
    if CutShort(s[p..]) {
      var k :| StumpAt(s[p..], k);
      assert s[p..][|s[p..]| - k..] == s[|s| - k..];
      assert StumpAt(s, k);
    }
  }

  lemma {:induction false} SkippedTrails(s: seq<byte>)
    ensures var r := Skipped(s); forall i | 0 <= i < |s| - |r| :: IsTrail(s[i])
  {
    if s != [] && IsTrail(s[0]) {
      SkippedTrails(s[1..]);
      var r := Skipped(s);
      forall i | 0 <= i < |s| - |r|
        ensures IsTrail(s[i])
      {
        assert i > 0 ==> s[1..][i - 1] == s[i];
      }
    }
  }

  /** With a valid replacement, there is a result if and only if the text does not stop in the middle of a sequence. */
  lemma {:induction false} ReplacedExact(s: seq<byte>, replacement: word)
    requires IsCodePoint(replacement)
    ensures Replaced(s, replacement).Some? <==> !CutShort(s)
    decreases |s|
  {
    hide Validated, Encoded, AfterFault, Stump, CutShort, Char8;
    if s == [] {
      NothingCut();
    } else {
      StumpFault(s);
      var v := Validated(s);
      if v.Good? {
        ValidatedIsChar(s);
        ShapeOfChar(s[..v.n]);
        assert forall i | 1 <= i < v.n :: s[i] == s[..v.n][i];
        StumpsBehind(s, v.n);
        ReplacedExact(s[v.n..], replacement);
      } else if v.error == NotEnoughRoom {
        WholeCut(s);
      } else {
        FaultBehind(s, v.error);
        ReplacedExact(AfterFault(s, v.error), replacement);
      }
    }
  }

  lemma NothingCut()
    ensures !CutShort([])
  {
  }

  lemma WholeCut(s: seq<byte>)
    requires Stump(s)
    ensures CutShort(s)
  {
    assert s[|s| - |s|..] == s;
    assert StumpAt(s, |s|);
  }

  lemma FaultBehind(s: seq<byte>, e: Error)
    requires s != [] && !Stump(s)
    ensures CutShort(s) <==> CutShort(AfterFault(s, e))
  {
    hide Stump, CutShort;
    if e == InvalidLead {
      StumpsBehind(s, 1);
    } else {
      var r := Skipped(s[1..]);
      SkippedTrails(s[1..]);
      var p := |s| - |r|;
      forall i | 1 <= i < p
        ensures IsTrail(s[i])
      {
        assert s[1..][i - 1] == s[i];
      }
      StumpsBehind(s, p);
      assert s[p..] == r;
    }
  }

  /** Without one, only well-formed text has a result. */
  lemma {:induction false} ReplacedNot(s: seq<byte>, replacement: word)
    requires !IsCodePoint(replacement)
    ensures Replaced(s, replacement).Some? <==> Decoded8(s).Some?
    decreases |s|
  {
    hide Validated, Encoded, AfterFault;
    if s != [] && Validated(s).Good? {
      ReplacedNot(s[Validated(s).n..], replacement);
    }
  }

  /** replace_invalid: one replacement for each sequence that is not well-formed. */
  method ReplaceInvalid(s: seq<byte>, replacement: word) returns (ok: bool, out: seq<byte>)
    ensures Replaced(s, replacement) == if ok then Some(out) else None
  {
    hide Encoded, Validated, Char8, Replaced;
    out := [];
    var start: nat := 0;
    assert s[0..] == s;
    PrefixedNone(Replaced(s, replacement));
    while start != |s|
      invariant start <= |s| && Replaced(s, replacement) == Prefixed(out, Replaced(s[start..], replacement))
      decreases |s| - start
    {
      ReplacedStep(s, start, replacement);
      var err, start', cp := ValidateNext(s, start);
      if err.Ok? {
        PrefixedMore(out, s[start..start'], Replaced(s[start'..], replacement));
        out := out + s[start..start'];
        start := start';
      } else {
        if err.error == NotEnoughRoom {
          return false, out;
        }
        ghost var before := out;
        ok, out := Append(replacement, out);
        if !ok {
          return;
        }
        var rest := start + 1;
        if err.error != InvalidLead {
          rest := SkipTrails(s, rest);
        }
        assert s[start..][1..] == s[start + 1..];
        assert AfterFault(s[start..], err.error) == s[rest..];
        PrefixedMore(before, Encoded(replacement), Replaced(s[rest..], replacement));
        start := rest;
      }
    }
    ok := true;
    ReplacedEmpty(s[start..], replacement);
    assert out + [] == out;
  }

  lemma SkippedOne(s: seq<byte>, k: nat)
    requires k <= |s|
    ensures Skipped(s[k..]) == if k < |s| && IsTrail(s[k]) then Skipped(s[k + 1..]) else s[k..]
  {
    hide IsTrail;
    assert k < |s| ==> s[k..][1..] == s[k + 1..];
  }

  method SkipTrails(s: seq<byte>, start: nat) returns (rest: nat)
    requires start <= |s|
    ensures start <= rest <= |s| && s[rest..] == Skipped(s[start..])
  {
    hide Skipped, IsTrail;
    rest := start;
    while rest != |s| && IsTrail(s[rest])
      invariant start <= rest <= |s| && Skipped(s[rest..]) == Skipped(s[start..])
    {
      SkippedOne(s, rest);
      rest := rest + 1;
    }
    SkippedOne(s, rest);
  }

  lemma ReplacedEmpty(s: seq<byte>, replacement: word)
    requires |s| == 0
    ensures Replaced(s, replacement) == Some([])
  {
  }

  lemma ReplacedStep(s: seq<byte>, start: nat, replacement: word)
    requires start < |s|
    ensures var v := Validated(s[start..]);
            && (v.Good? ==> start + v.n <= |s|)
            && Replaced(s[start..], replacement) ==
                 if v.Good? then Prefixed(s[start..start + v.n], Replaced(s[start + v.n..], replacement))
                 else if v.error == NotEnoughRoom || !IsCodePoint(replacement) then None
                 else Prefixed(Encoded(replacement), Replaced(AfterFault(s[start..], v.error), replacement))
  {
    hide Validated, Encoded, AfterFault;
    if Validated(s[start..]).Good? {
      var n := Validated(s[start..]).n;
      assert s[start..][n..] == s[start + n..] && s[start..][..n] == s[start..start + n];
    }
  }
}
