/**
  The code of LZMA symbols, written down from the format: a prefix for the kind, lengths in three ranges, and distances
  as a slot with the low digits after it. The control automaton of LzmaSymbol reads just this.
*/
module LzmaCode {
  import opened Words
  import opened RangeCoder
  import opened LzmaSymbol
  import opened LzmaRun

  // ----- Digits ----------------------------------------------------------------------------------------------

  /** n binary digits of v, most significant first. */
  function Digits(n: nat, v: nat): (r: seq<bool>)
    ensures |r| == n
  {
    if n == 0 then [] else Digits(n - 1, v / 2) + [v % 2 == 1]
  }

  /** The same, least significant first. */
  function Reversed(n: nat, v: nat): seq<bool> {
    if n == 0 then [] else [v % 2 == 1] + Reversed(n - 1, v / 2)
  }

  /** How many digits v has. */
  function Width(v: nat): (r: nat)
    ensures (v >= 1 ==> r >= 1) && (v >= 2 ==> r >= 2)
  {
    if v == 0 then 0 else 1 + Width(v / 2)
  }

  lemma {:induction false} LeadingDigits(m: nat, n: nat, v: nat)
    ensures Digits(m + n, v)[..m] == Digits(m, Shr(v, n))
    decreases n
  {
    Pow2Grows(0, n);
    if n == 0 {
      assert Digits(m, v)[..m] == Digits(m, v) && v / 1 == v;
    } else {
      LeadingDigits(m, n - 1, v / 2);
      Pow2Grows(0, n - 1);
      HalfThen(v, Pow2(n - 1));
      assert Digits(m + n, v)[..m] == Digits(m + n - 1, v / 2)[..m];
    }
  }

  lemma HalfThen(v: nat, p: nat)
    requires p > 0
    ensures v / 2 / p == v / (2 * p)
  {
    var q, r := v / 2 / p, v / 2 % p;
    assert v == 2 * (p * q + r) + v % 2;
    assert 2 * (p * q) == 2 * p * q;
    DivUnique(v, 2 * p, q, 2 * r + v % 2);
  }

  // ----- The code --------------------------------------------------------------------------------------------

  function LenCode(len: nat): seq<bool>
    requires len <= 271
  {
    if len < 8 then [false] + Digits(3, len)
    else if len < 16 then [true, false] + Digits(3, len - 8)
    else [true, true] + Digits(8, len - 16)
  }

  /** How many digits of a distance come after its two leading ones. */
  function LowDigits(dist: nat): nat {
    if dist < 4 then 0 else Width(dist) - 2
  }

  /** Distances below 4 are slots themselves. The others have a slot for their length and first two digits. */
  function DistSlot(dist: nat): nat {
    if dist < 4 then dist
    else
      Pow2Grows(0, LowDigits(dist));
      2 * LowDigits(dist) + dist / Pow2(LowDigits(dist))
  }

  /** Up to five further digits come in reverse; of more, the last four do. */
  function DistCode(dist: nat): seq<bool> {
    var n := LowDigits(dist);
    Pow2Grows(0, n);
    var low := dist % Pow2(n);
    Digits(6, DistSlot(dist)) + if n < 6 then Reversed(n, low) else Digits(n - 4, low / 16) + Reversed(4, low % 16)
  }

  function Code(s: Symbol): seq<bool>
    requires ValidSymbol(s)
  {
    match s
    case Literal(b) => [false] + Digits(8, b)
    case Match(dist, len) => [true, false] + LenCode(len) + DistCode(dist)
    case EndMark(len) => [true, false] + LenCode(len) + DistCode(0xFFFF_FFFF)
    case ShortRep => [true, true, false, false]
    case Rep(which, len) =>
      (if which == 0 then [true, true, false, true]
       else if which == 1 then [true, true, true, false]
       else if which == 2 then [true, true, true, true, false]
       else [true, true, true, true, true]) + LenCode(len)
  }

  // ----- Walking along bits ----------------------------------------------------------------------------------

  /** Where the automaton gets to; nothing if there are bits left at the end of a symbol. */
  function Walk(env: Env, c: Ctl, bits: seq<bool>): Option<Ctl>
    decreases |bits|
  {
    if bits == [] then Some(c)
    else if c.End? then None
    else Walk(env, Next(env, c, bits[0]), bits[1..])
  }

  function Onward(env: Env, c: Option<Ctl>, bits: seq<bool>): Option<Ctl> {
    if c.None? then None else Walk(env, c.value, bits)
  }

  lemma {:induction false} WalkOn(env: Env, c: Ctl, a: seq<bool>, b: seq<bool>)
    ensures Walk(env, c, a + b) == Onward(env, Walk(env, c, a), b)
    decreases |a|
  {
    hide Next;
    if a == [] {
      assert a + b == b;
    } else {
      assert (a + b)[1..] == a[1..] + b;
      if !c.End? {
        WalkOn(env, Next(env, c, a[0]), a[1..], b);
      }
    }
  }

  lemma WalkOne(env: Env, c: Ctl, bit: bool)
    requires !c.End?
    ensures Walk(env, c, [bit]) == Some(Next(env, c, bit))
  {
    hide Next;
    assert [bit][1..] == [];
  }

  // ----- Trees -----------------------------------------------------------------------------------------------

  /** The parts that are decoded from the root of a binary tree. */
  datatype Tree = LiteralTree | LenTree(kind: LenKind, region: nat) | SlotTree(len: nat)

  function Height(t: Tree): nat {
    if t.LiteralTree? then 8 else if t.LenTree? then (if t.region == 2 then 8 else 3) else 6
  }

  function Node(t: Tree, i: nat): Ctl {
    match t
    case LiteralTree => Lit(i)
    case LenTree(k, r) => Len(k, r, i)
    case SlotTree(len) => PosSlot(len, i)
  }

  /** What its leaf v leads to. */
  function Leaf(t: Tree, v: nat): Ctl
    requires v < 0x100
  {
    match t
    case LiteralTree => End(Literal(v))
    case LenTree(k, r) => AfterLen(k, v + LenOffset(r))
    case SlotTree(len) => AfterPosSlot(len, v)
  }

  function Limit(t: Tree): nat {
    if Height(t) == 8 then 0x100 else if Height(t) == 3 then 8 else 64
  }

  lemma LimitIsPower(t: Tree)
    ensures Limit(t) == Pow2(Height(t))
  {
    Pow2Values();
    assert Pow2(3) == 8 && Pow2(6) == 64;
  }

  lemma NodeNext(env: Env, t: Tree, i: nat, bit: bool)
    requires 1 <= i < Limit(t)
    ensures var j := 2 * i + if bit then 1 else 0;
            Next(env, Node(t, i), bit) == if j < Limit(t) then Node(t, j) else Leaf(t, j - Limit(t))
  {
    hide AfterLen, AfterPosSlot;
    if t.LiteralTree? {
      var j := 2 * i + if bit then 1 else 0;
      if j >= 0x100 {
        DivUnique(j, 0x100, 1, j - 0x100);
      }
    }
  }

  lemma Doubles(n: nat)
    requires n > 0
    ensures Pow2(n) == 2 * Pow2(n - 1)
  {
  }

  /** n digits lead to depth n. */
  lemma {:induction false} TreeWalk(env: Env, t: Tree, n: nat, v: nat)
    requires n < Height(t) && v < Pow2(n)
    ensures Pow2(n) + v < Limit(t)
    ensures Walk(env, Node(t, 1), Digits(n, v)) == Some(Node(t, Pow2(n) + v))
    decreases n
  {
    hide Next, Walk, Leaf, Limit, Pow2;
    LimitIsPower(t);
    Pow2Grows(n + 1, Height(t));
    Doubles(n + 1);
    if n == 0 {
      PowerOfNone();
      WalkNone(env, Node(t, 1));
    } else {
      Doubles(n);
      var i := Pow2(n - 1) + v / 2;
      TreeWalk(env, t, n - 1, v / 2);
      WalkOn(env, Node(t, 1), Digits(n - 1, v / 2), [v % 2 == 1]);
      WalkOne(env, Node(t, i), v % 2 == 1);
      NodeNext(env, t, i, v % 2 == 1);
    }
  }

  lemma PowerOfNone()
    ensures Pow2(0) == 1
  {
  }

  lemma WalkNone(env: Env, c: Ctl)
    ensures Walk(env, c, []) == Some(c)
  {
  }

  lemma TreeCode(env: Env, t: Tree, v: nat)
    requires v < Limit(t)
    ensures Walk(env, Node(t, 1), Digits(Height(t), v)) == Some(Leaf(t, v))
  {
    hide Next, Walk, Leaf, Pow2;
    var n := Height(t);
    LimitIsPower(t);
    Doubles(n);
    var i := Pow2(n - 1) + v / 2;
    TreeWalk(env, t, n - 1, v / 2);
    WalkOn(env, Node(t, 1), Digits(n - 1, v / 2), [v % 2 == 1]);
    WalkOne(env, Node(t, i), v % 2 == 1);
    NodeNext(env, t, i, v % 2 == 1);
  }

  /** A digit of the match byte after n others. */
  lemma MatchDigit(mb: nat, n: nat)
    requires n < 8
    ensures 2 * (mb * Pow2(n)) / 0x100 % 2 == 1 <==> Digits(8, mb)[n]
  {
    hide Pow2, Digits, Shr;
    LeadingDigits(n + 1, 7 - n, mb);
    assert Digits(8, mb)[n] == Digits(8, mb)[..n + 1][n];
    LastDigit(n + 1, Shr(mb, 7 - n));
    MatchShift(mb, n);
  }

  lemma LastDigit(n: nat, v: nat)
    requires n > 0
    ensures Digits(n, v)[n - 1] == (v % 2 == 1)
  {
  }

  lemma MatchShift(mb: nat, n: nat)
    requires n < 8
    ensures 2 * (mb * Pow2(n)) / 0x100 == Shr(mb, 7 - n)
  {
    hide Pow2;
    SevenPowers(n);
    Scaled(mb, Pow2(n), Pow2(7 - n));
  }

  lemma Scaled(x: nat, a: nat, b: nat)
    requires a > 0 && b > 0 && a * b == 0x80
    ensures 2 * (x * a) / 0x100 == x / b
  {
    var q, r := x / b, x % b;
    assert x == b * q + r;
    assert x * a == a * b * q + a * r;
    ProductBelow(a, r, b);
    DivUnique(2 * (x * a), 0x100, q, 2 * (a * r));
  }

  lemma ProductBelow(a: nat, r: nat, b: nat)
    requires 0 < a && r < b
    ensures a * r < a * b
  {
  }

  lemma SevenPowers(n: nat)
    requires n < 8
    ensures Pow2(n) > 0 && Pow2(7 - n) > 0 && Pow2(n) * Pow2(7 - n) == 0x80
  {
    if n == 0 || n == 7 {
      assert Pow2(7) == 0x80;
    } else if n == 1 || n == 6 {
      assert Pow2(6) == 0x40;
    } else if n == 2 || n == 5 {
      assert Pow2(5) == 0x20;
    } else {
      assert Pow2(4) == 0x10;
    }
  }

  function AsFar(n: nat, v: nat, mb: nat): nat
    requires n <= 8
  {
    if Digits(n, v) == Digits(8, mb)[..n] then 0x100 else 0
  }

  lemma AsFarOn(n: nat, v: nat, mb: nat)
    requires 0 < n <= 8
    ensures AsFar(n, v, mb) == if AsFar(n - 1, v / 2, mb) != 0 && Digits(8, mb)[n - 1] == (v % 2 == 1) then 0x100 else 0
  {
    var d, e := Digits(n - 1, v / 2), Digits(8, mb);
    assert e[..n] == e[..n - 1] + [e[n - 1]];
    if d + [v % 2 == 1] == e[..n] {
      assert d == (d + [v % 2 == 1])[..n - 1] && e[..n][..n - 1] == e[..n - 1];
      assert (d + [v % 2 == 1])[n - 1] == e[..n][n - 1];
    }
  }

  /** A literal after a match: the next digit of the match byte is looked at as long as the digits so far are its own, but
      the bits mean the same. */
  lemma {:induction false} MatchedWalk(env: Env, n: nat, v: nat)
    requires n < 8 && v < Pow2(n)
    ensures Pow2(n) + v < 0x100
    ensures Walk(env, LitMatched(1, 0x100, env.matchByte), Digits(n, v)) ==
            Some(LitMatched(Pow2(n) + v, AsFar(n, v, env.matchByte), env.matchByte * Pow2(n)))
    decreases n
  {
    hide Next, Walk, Pow2, MatchBit;
    var c := LitMatched(1, 0x100, env.matchByte);
    Pow2Grows(n + 1, 8);
    Doubles(n + 1);
    Pow2Values();
    PowerOfNone();
    if n == 0 {
      WalkNone(env, c);
    } else {
      Doubles(n);
      var i, bit := Pow2(n - 1) + v / 2, v % 2 == 1;
      MatchedWalk(env, n - 1, v / 2);
      WalkOn(env, c, Digits(n - 1, v / 2), [bit]);
      var o, m := AsFar(n - 1, v / 2, env.matchByte), env.matchByte * Pow2(n - 1);
      WalkOne(env, LitMatched(i, o, m), bit);
      MatchedNext(env, i, o, m, bit);
      MatchedOffs(env.matchByte, n, v);
      Regrouped(env.matchByte, Pow2(n - 1));
    }
  }

  lemma Regrouped(x: nat, p: nat)
    ensures 2 * (x * p) == x * (2 * p)
  {
  }

  lemma MatchedOffs(mb: nat, n: nat, v: nat)
    requires 0 < n <= 8
    ensures var o := AsFar(n - 1, v / 2, mb);
            AsFar(n, v, mb) == if (MatchBit(o, mb * Pow2(n - 1)) != 0) == (v % 2 == 1) then o else 0
  {
    hide Pow2, Digits;
    AsFarOn(n, v, mb);
    MatchDigit(mb, n - 1);
  }

  lemma MatchedNext(env: Env, i: nat, o: nat, m: nat, bit: bool)
    requires i < 0x100
    ensures var j := 2 * i + if bit then 1 else 0;
            Next(env, LitMatched(i, o, m), bit) ==
              if j < 0x100 then LitMatched(j, if (MatchBit(o, m) != 0) == bit then o else 0, 2 * m)
              else End(Literal(j - 0x100))
  {
    var j := 2 * i + if bit then 1 else 0;
    if j >= 0x100 {
      DivUnique(j, 0x100, 1, j - 0x100);
    }
  }

  lemma MatchedCode(env: Env, b: byte)
    ensures Walk(env, LitMatched(1, 0x100, env.matchByte), Digits(8, b)) == Some(End(Literal(b)))
  {
    hide Next, Walk, Pow2, MatchBit;
    Pow2Values();
    Doubles(8);
    var i, bit := Pow2(7) + b / 2, b % 2 == 1;
    var o, m := AsFar(7, b / 2, env.matchByte), env.matchByte * Pow2(7);
    MatchedWalk(env, 7, b / 2);
    WalkOn(env, LitMatched(1, 0x100, env.matchByte), Digits(7, b / 2), [bit]);
    WalkOne(env, LitMatched(i, o, m), bit);
    MatchedNext(env, i, o, m, bit);
  }

  lemma LiteralCode(env: Env, b: byte)
    ensures Walk(env, IsMatch, Code(Literal(b))) == Some(End(Literal(b)))
  {
    hide Walk, Digits;
    WalkOn(env, IsMatch, [false], Digits(8, b));
    WalkOne(env, IsMatch, false);
    MatchedCode(env, b);
    TreeCode(env, LiteralTree, b);
  }

  // ----- Lengths ---------------------------------------------------------------------------------------------

  lemma LenRegionCode(env: Env, k: LenKind, region: nat, v: nat)
    requires region <= 2 && v < LenLimit(region)
    ensures Walk(env, Len(k, region, 1), Digits(if region == 2 then 8 else 3, v)) == Some(AfterLen(k, v + LenOffset(region)))
  {
    hide Walk, Digits;
    TreeCode(env, LenTree(k, region), v);
  }

  /** The bits of a length lead on from its first choice. */
  lemma LenReached(env: Env, k: LenKind, len: nat)
    requires len <= 271
    ensures Walk(env, Choice(k), LenCode(len)) == Some(AfterLen(k, len))
  {
    hide Walk, Digits, AfterLen;
    if len < 8 {
      WalkOn(env, Choice(k), [false], Digits(3, len));
      WalkOne(env, Choice(k), false);
      LenRegionCode(env, k, 0, len);
    } else {
      var bit := len >= 16;
      assert [true] + [bit] == [true, bit];
      WalkOn(env, Choice(k), [true], [bit]);
      WalkOne(env, Choice(k), true);
      WalkOne(env, Choice2(k), bit);
      if bit {
        WalkOn(env, Choice(k), [true, bit], Digits(8, len - 16));
        LenRegionCode(env, k, 2, len - 16);
      } else {
        WalkOn(env, Choice(k), [true, bit], Digits(3, len - 8));
        LenRegionCode(env, k, 1, len - 8);
      }
    }
  }

  // ----- Distances -------------------------------------------------------------------------------------------

  lemma Split(mask: nat, low: nat)
    ensures mask * low == (low % 2) * mask + 2 * mask * (low / 2)
  {
    var q, b := low / 2, low % 2;
    assert low == 2 * q + b;
  }

  /** Digits in reverse are added up from the lowest. */
  lemma {:induction false} SpecReached(env: Env, len: nat, slot: nat, i: nat, dist: nat, mask: nat, n: nat, low: nat)
    requires n >= 1 && low < Pow2(n)
    ensures Walk(env, Spec(len, slot, i, dist, mask, n), Reversed(n, low)) == Some(End(Match(dist + mask * low, len)))
    decreases n
  {
    hide Walk;
    var c, bit := Spec(len, slot, i, dist, mask, n), low % 2 == 1;
    var b := if bit then 1 else 0;
    WalkOn(env, c, [bit], Reversed(n - 1, low / 2));
    WalkOne(env, c, bit);
    Split(mask, low);
    if n == 1 {
      WalkNone(env, End(Match(dist + b * mask, len)));
    } else {
      SpecReached(env, len, slot, 2 * i + b, dist + b * mask, 2 * mask, n - 1, low / 2);
    }
  }

  lemma {:induction false} AlignReached(env: Env, len: nat, i: nat, dist: nat, mask: nat, n: nat, low: nat)
    requires n >= 1 && low < Pow2(n)
    ensures Walk(env, Align(len, i, dist, mask, n), Reversed(n, low)) == Some(End(Ending(dist + mask * low, len)))
    decreases n
  {
    hide Walk;
    var c, bit := Align(len, i, dist, mask, n), low % 2 == 1;
    var b := if bit then 1 else 0;
    WalkOn(env, c, [bit], Reversed(n - 1, low / 2));
    WalkOne(env, c, bit);
    Split(mask, low);
    if n == 1 {
      WalkNone(env, End(Ending(dist + b * mask, len)));
    } else {
      AlignReached(env, len, 2 * i + b, dist + b * mask, 2 * mask, n - 1, low / 2);
    }
  }

  /** The greatest distance is the end mark. */
  function Ending(dist: nat, len: nat): Symbol {
    if dist == 0xFFFF_FFFF then EndMark(len) else Match(dist, len)
  }

  /** Direct digits follow those that the slot gives. */
  lemma {:induction false} DirectWalk(env: Env, len: nat, dist: nat, n: nat, m: nat, v: nat)
    requires m < n && v < Pow2(m)
    ensures Walk(env, Direct(len, dist, n), Digits(m, v)) == Some(Direct(len, dist * Pow2(m) + v, n - m))
    decreases m
  {
    hide Walk, Pow2;
    var c := Direct(len, dist, n);
    if m == 0 {
      PowerOfNone();
      WalkNone(env, c);
    } else {
      Doubles(m);
      var bit := v % 2 == 1;
      DirectWalk(env, len, dist, n, m - 1, v / 2);
      WalkOn(env, c, Digits(m - 1, v / 2), [bit]);
      WalkOne(env, Direct(len, dist * Pow2(m - 1) + v / 2, n - m + 1), bit);
      assert dist * Pow2(m) == 2 * (dist * Pow2(m - 1));
    }
  }

  lemma DirectReached(env: Env, len: nat, dist: nat, n: nat, v: nat)
    requires n >= 1 && v < Pow2(n)
    ensures Walk(env, Direct(len, dist, n), Digits(n, v)) == Some(Align(len, 1, 16 * (dist * Pow2(n) + v), 1, 4))
  {
    hide Walk, Pow2;
    Doubles(n);
    var c, bit := Direct(len, dist, n), v % 2 == 1;
    DirectWalk(env, len, dist, n, n - 1, v / 2);
    WalkOn(env, c, Digits(n - 1, v / 2), [bit]);
    WalkOne(env, Direct(len, dist * Pow2(n - 1) + v / 2, 1), bit);
    assert dist * Pow2(n) == 2 * (dist * Pow2(n - 1));
  }

  /** A number of n + 2 digits has a first two of 2 or 3. */
  lemma {:induction false} WidthMeans(v: nat)
    requires v > 0
    ensures Width(v) >= 1 && Pow2(Width(v) - 1) <= v < Pow2(Width(v))
    decreases v
  {
    hide Pow2;
    PowerOfNone();
    Doubles(Width(v));
    if v > 1 {
      WidthMeans(v / 2);
      Doubles(Width(v / 2));
    }
  }

  lemma LeadingTwo(dist: nat)
    requires 4 <= dist < TWO32
    ensures var n := LowDigits(dist);
            && 1 <= n <= 30 && Pow2(n) > 0 && 2 <= dist / Pow2(n) <= 3
            && dist == dist / Pow2(n) * Pow2(n) + dist % Pow2(n) && dist % Pow2(n) < Pow2(n)
  {
    var k := Width(dist);
    WidthMeans(dist);
    Pow2Of32();
    assert Pow2(2) == 4;
    if k < 3 {
      Pow2Grows(k, 2);
    } else if k > 32 {
      Pow2Grows(32, k - 1);
    }
    var p := Pow2(k - 2);
    Pow2Grows(0, k - 2);
    assert Pow2(k - 1) == 2 * p && Pow2(k) == 4 * p;
    Quotient(dist, p);
  }

  lemma Quotient(d: nat, p: nat)
    requires p > 0 && 2 * p <= d < 4 * p
    ensures 2 <= d / p <= 3 && d == d / p * p + d % p && d % p < p
  {
    var q := if d >= 3 * p then 3 else 2;
    DivUnique(d, p, q, d - q * p);
  }

  lemma Pow2Of32()
    ensures Pow2(32) == TWO32
  {
    Pow2Values();
    assert Pow2(28) == 0x1000_0000;
    assert Pow2(32) == 16 * Pow2(28);
  }

  lemma SmallPowers(n: nat)
    requires n <= 5
    ensures P2(n) == Pow2(n)
  {
    assert Pow2(0) == 1;
    assert Pow2(1) == 2;
    assert Pow2(2) == 4;
    assert Pow2(3) == 8;
    assert Pow2(4) == 16;
    assert Pow2(5) == 2 * Pow2(4);
  }

  /** Where a slot leads: its two leading digits, and how many follow. */
  lemma SlotMeans(len: nat, n: nat, top: nat)
    requires 1 <= n <= 30 && 2 <= top <= 3
    ensures 2 * n + top < 64
    ensures AfterPosSlot(len, 2 * n + top)
         == if n < 6 then Spec(len, 2 * n + top, 1, top * Pow2(n), 1, n) else Direct(len, top, n - 4)
  {
    hide Pow2;
    var slot := 2 * n + top;
    DivUnique(slot, 2, n + 1, top - 2);
    if n < 6 {
      SmallPowers(n);
    }
  }

  lemma LowReached(env: Env, len: nat, n: nat, top: nat, low: nat)
    requires 1 <= n <= 30 && 2 <= top <= 3 && low < Pow2(n) && (top * Pow2(n) + low == 0xFFFF_FFFF ==> n >= 6)
    ensures Walk(env, AfterPosSlot(len, 2 * n + top),
                 if n < 6 then Reversed(n, low) else Digits(n - 4, low / 16) + Reversed(4, low % 16))
         == Some(End(Ending(top * Pow2(n) + low, len)))
  {
    hide Walk, AfterPosSlot, Digits, Reversed, Pow2;
    SlotMeans(len, n, top);
    if n < 6 {
      SpecReached(env, len, 2 * n + top, 1, top * Pow2(n), 1, n, low);
    } else {
      LongReached(env, len, n, top, low);
    }
  }

  lemma LongReached(env: Env, len: nat, n: nat, top: nat, low: nat)
    requires 5 <= n <= 30 && low < Pow2(n)
    ensures Walk(env, Direct(len, top, n - 4), Digits(n - 4, low / 16) + Reversed(4, low % 16))
         == Some(End(Ending(top * Pow2(n) + low, len)))
  {
    hide Walk, Digits, Reversed, Pow2;
    var p := Pow2(n - 4);
    SixteenTimes(n);
    PowerOfFour();
    DirectReached(env, len, top, n - 4, low / 16);
    WalkOn(env, Direct(len, top, n - 4), Digits(n - 4, low / 16), Reversed(4, low % 16));
    AlignReached(env, len, 1, 16 * (top * p + low / 16), 1, 4, low % 16);
    Sixteenth(top, p, low);
  }

  lemma Sixteenth(top: nat, p: nat, low: nat)
    ensures 16 * (top * p + low / 16) + low % 16 == top * (16 * p) + low
  {
  }

  lemma PowerOfFour()
    ensures Pow2(4) == 16
  {
  }

  lemma SixteenTimes(n: nat)
    requires n >= 4
    ensures Pow2(n) == 16 * Pow2(n - 4)
  {
    assert Pow2(n - 2) == 4 * Pow2(n - 4);
  }

  /** The bits of a distance lead on from its slot. */
  lemma DistReached(env: Env, len: nat, dist: nat)
    requires dist < TWO32
    ensures Walk(env, PosSlot(len, 1), DistCode(dist)) == Some(End(Ending(dist, len)))
  {
    hide Walk, Digits, Reversed, AfterPosSlot, Pow2, LowDigits;
    var n := LowDigits(dist);
    Pow2Grows(0, n);
    var low := dist % Pow2(n);
    if dist < 4 {
      SmallDistance(env, len, dist);
    } else {
      LeadingTwo(dist);
      var top := dist / Pow2(n);
      SlotMeans(len, n, top);
      if dist == 0xFFFF_FFFF {
        NotShort(dist, n, top, low);
      }
      WalkOn(env, PosSlot(len, 1), Digits(6, 2 * n + top),
             if n < 6 then Reversed(n, low) else Digits(n - 4, low / 16) + Reversed(4, low % 16));
      TreeCode(env, SlotTree(len), 2 * n + top);
      LowReached(env, len, n, top, low);
    }
  }

  lemma NotShort(dist: nat, n: nat, top: nat, low: nat)
    requires 1 <= n <= 30 && top <= 3 && dist == top * Pow2(n) + low && low < Pow2(n) && dist == 0xFFFF_FFFF
    ensures n >= 6
  {
    if n < 6 {
      SmallPowers(n);
    }
  }

  lemma SmallDistance(env: Env, len: nat, dist: nat)
    requires dist < 4
    ensures Walk(env, PosSlot(len, 1), DistCode(dist)) == Some(End(Match(dist, len)))
  {
    hide Walk, Digits;
    assert Digits(6, dist) + Reversed(0, dist % Pow2(0)) == Digits(6, dist);
    TreeCode(env, SlotTree(len), dist);
  }

  // ----- Symbols ---------------------------------------------------------------------------------------------

  /** The bits that say what kind a symbol is, and where they lead. */
  function Kind(s: Symbol): seq<bool> {
    match s
    case Literal(_) => [false]
    case Match(_, _) => [true, false]
    case EndMark(_) => [true, false]
    case ShortRep => [true, true, false, false]
    case Rep(which, _) =>
      if which == 0 then [true, true, false, true]
      else if which == 1 then [true, true, true, false]
      else if which == 2 then [true, true, true, true, false]
      else [true, true, true, true, true]
  }

  lemma Two(env: Env, c: Ctl, x: bool, y: bool)
    requires !c.End? && !Next(env, c, x).End?
    ensures Walk(env, c, [x, y]) == Some(Next(env, Next(env, c, x), y))
  {
    hide Walk, Next;
    assert [x] + [y] == [x, y];
    WalkOn(env, c, [x], [y]);
    WalkOne(env, c, x);
    WalkOne(env, Next(env, c, x), y);
  }

  lemma RepKind(env: Env, which: nat)
    requires which < 4
    ensures Walk(env, IsMatch, Kind(Rep(which, 0))) == Some(Choice(RepLen(which)))
  {
    hide Walk;
    Two(env, IsMatch, true, true);
    if which == 0 {
      Two(env, RepG0, false, true);
      assert [true, true] + [false, true] == Kind(Rep(0, 0));
      WalkOn(env, IsMatch, [true, true], [false, true]);
    } else if which == 1 {
      Two(env, RepG0, true, false);
      assert [true, true] + [true, false] == Kind(Rep(1, 0));
      WalkOn(env, IsMatch, [true, true], [true, false]);
    } else {
      Two(env, RepG0, true, true);
      assert [true, true] + [true, true] == [true, true, true, true];
      WalkOn(env, IsMatch, [true, true], [true, true]);
      WalkOne(env, RepG2, which == 3);
      assert [true, true, true, true] + [which == 3] == Kind(Rep(which, 0));
      WalkOn(env, IsMatch, [true, true, true, true], [which == 3]);
    }
  }

  lemma ShortRepCode(env: Env)
    ensures Walk(env, IsMatch, Code(ShortRep)) == Some(End(ShortRep))
  {
    hide Walk;
    Two(env, IsMatch, true, true);
    Two(env, RepG0, false, false);
    assert [true, true] + [false, false] == Code(ShortRep);
    WalkOn(env, IsMatch, [true, true], [false, false]);
  }

  lemma MatchCode(env: Env, len: nat, dist: nat)
    requires len <= 271 && dist < TWO32
    ensures Walk(env, IsMatch, [true, false] + LenCode(len) + DistCode(dist)) == Some(End(Ending(dist, len)))
  {
    hide Walk, LenCode, DistCode;
    Two(env, IsMatch, true, false);
    WalkOn(env, IsMatch, [true, false], LenCode(len));
    LenReached(env, MatchLen, len);
    WalkOn(env, IsMatch, [true, false] + LenCode(len), DistCode(dist));
    DistReached(env, len, dist);
  }

  /** Every symbol is reached by its code. */
  lemma CodeReaches(env: Env, s: Symbol)
    requires ValidSymbol(s)
    ensures Walk(env, IsMatch, Code(s)) == Some(End(s))
  {
    hide Walk, LenCode, DistCode, Digits;
    match s
    case Literal(b) => LiteralCode(env, b);
    case ShortRep => ShortRepCode(env);
    case Match(dist, len) => MatchCode(env, len, dist);
    case EndMark(len) => MatchCode(env, len, 0xFFFF_FFFF);
    case Rep(which, len) =>
      RepKind(env, which);
      LenReached(env, RepLen(which), len);
      assert Code(s) == Kind(Rep(which, 0)) + LenCode(len);
      WalkOn(env, IsMatch, Kind(Rep(which, 0)), LenCode(len));
  }

  // ----- What is decoded -------------------------------------------------------------------------------------

  /** The bits that a run reads. */
  ghost function BitsRead(env: Env, c: Ctl, rc: Rc, probs: seq<prob>): seq<bool>
    requires ValidCtl(c) && ValidEnv(env, |probs|)
    decreases Rank(c)
  {
    if Starved(rc) || c.End? then []
    else
      var p, n := Move(env, c, rc, probs), Normalized(rc);
      [if c.Direct? then DirectBit(n) else BitFor(env, c, n, probs)] + BitsRead(env, p.c, p.rc, p.probs)
  }

  ghost predicate BitFor(env: Env, c: Ctl, n: Rc, probs: seq<prob>)
    requires ValidCtl(c) && ValidEnv(env, |probs|) && !c.Direct? && !c.End?
  {
    SlotInRange(env, c, |probs|);
    ModelBit(n, probs[Slot(env, c)])
  }

  lemma {:induction false} BitsWalked(env: Env, c: Ctl, rc: Rc, probs: seq<prob>)
    requires ValidCtl(c) && ValidEnv(env, |probs|) && Run(env, c, rc, probs).Out?
    ensures Walk(env, c, BitsRead(env, c, rc, probs)) == Some(End(Run(env, c, rc, probs).symbol))
    decreases Rank(c)
  {
    hide Next, Slot;
    if !c.End? {
      var p := Move(env, c, rc, probs);
      var bits := BitsRead(env, c, rc, probs);
      BitsWalked(env, p.c, p.rc, p.probs);
      assert bits[1..] == BitsRead(env, p.c, p.rc, p.probs);
    }
  }

  /** A run that reads the code of a symbol finds that symbol, and reads no further bit. */
  lemma CodeDecoded(env: Env, rc: Rc, probs: seq<prob>, s: Symbol)
    requires ValidEnv(env, |probs|) && Run(env, IsMatch, rc, probs).Out? && ValidSymbol(s)
    requires Code(s) <= BitsRead(env, IsMatch, rc, probs)
    ensures Run(env, IsMatch, rc, probs).symbol == s && BitsRead(env, IsMatch, rc, probs) == Code(s)
  {
    hide Run, Code, BitsRead;
    var bits := BitsRead(env, IsMatch, rc, probs);
    BitsWalked(env, IsMatch, rc, probs);
    CodeReaches(env, s);
    assert bits == Code(s) + bits[|Code(s)|..];
    WalkOn(env, IsMatch, Code(s), bits[|Code(s)|..]);
  }
}
