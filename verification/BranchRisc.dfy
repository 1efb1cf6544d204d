/**
  The branch filters for ARM, ARM Thumb, PowerPC and SPARC code: call targets become absolute when encoding and
  relative again when decoding, in place. `Convert` is the scan of all four; each has its own loop below.
*/
module BranchRisc {
  import opened Words

  datatype Kind = ARM | ARMT | PPC | SPARC

  /** Addresses, and positions of instructions, are multiples of this. */
  function Unit(k: Kind): nat {
    if k.ARMT? then 2 else 4
  }

  predicate Matches(k: Kind, s: seq<byte>)
    requires |s| >= 4
  {
    match k
    case ARM => s[3] == 0xEB
    case ARMT => s[1] as int / 8 == 0x1E && s[3] as int / 8 == 0x1F
    case PPC => s[0] as int / 4 == 0x12 && s[3] as int % 4 == 1
    case SPARC => (s[0] == 0x40 && s[1] < 0x40) || (s[0] == 0x7F && s[1] >= 0xC0)
  }

  /** Targets are counted in units and cut off at this. */
  function Targets(k: Kind): nat {
    match k
    case ARM => 0x100_0000
    case ARMT => 0x40_0000
    case PPC => 0x100_0000
    case SPARC => 0x80_0000
  }

  /** The target of an instruction, in units. */
  function Target(k: Kind, s: seq<byte>): nat
    requires |s| >= 4
  {
    match k
    case ARM => 0x1_0000 * s[2] as int + 0x100 * s[1] as int + s[0] as int
    case ARMT => 0x8_0000 * (s[1] as int % 8) + 0x800 * s[0] as int + 0x100 * (s[3] as int % 8) + s[2] as int
    case PPC => 0x40_0000 * (s[0] as int % 4) + 0x4000 * s[1] as int + 0x40 * s[2] as int + s[3] as int / 4
    case SPARC => 0x1_0000 * (s[1] as int % 0x80) + 0x100 * s[2] as int + s[3] as int
  }

  /** The instruction with a target. */
  function Instruction(k: Kind, v: nat): (r: seq<byte>)
    requires v < Targets(k)
    ensures |r| == 4 && (k.PPC? ==> r[3] as int % 4 == 1)
  {
    match k
    case ARM => [v % 0x100, v / 0x100 % 0x100, v / 0x1_0000, 0xEB]
    case ARMT => [v / 0x800 % 0x100, 0xF0 + v / 0x8_0000, v % 0x100, 0xF8 + v / 0x100 % 8]
    case PPC => [0x48 + v / 0x40_0000, v / 0x4000 % 0x100, v / 0x40 % 0x100, 4 * (v % 0x40) + 1]
    case SPARC =>
      [if v < 0x40_0000 then 0x40 else 0x7F, (if v < 0x40_0000 then 0 else 0xC0) + v / 0x1_0000 % 0x40, v / 0x100 % 0x100, v % 0x100]
  }

  /** The sum or difference of address and target, as 32 bits. */
  function Moved(k: Kind, v: nat, a: word, encoding: bool): word {
    if encoding then (a + Unit(k) * v) % TWO32 else (Unit(k) * v - a) % TWO32
  }

  function Rewrite(k: Kind, s: seq<byte>, a: word, encoding: bool): (r: seq<byte>)
    requires |s| >= 4
    ensures |r| == 4
  {
    var dest := Moved(k, Target(k, s), a, encoding);
    var r := Instruction(k, dest / Unit(k) % Targets(k));
    if k.PPC? then Spilled(r, dest % 4) else r
  }

  /** The low bits of a PowerPC address that is not aligned spill into the instruction. */
  function Spilled(r: seq<byte>, low: nat): seq<byte>
    requires |r| == 4 && r[3] as int % 4 == 1
  {
    if low >= 2 then r[3 := r[3] as int + 2] else r
  }

  /** The scan, from address a on. */
  function Convert(k: Kind, s: seq<byte>, a: word, encoding: bool): (r: seq<byte>)
    ensures |r| == |s|
  {
    if |s| < 4 then s
    else if Matches(k, s) then Rewrite(k, s, a, encoding) + Convert(k, s[4..], (a + 4) % TWO32, encoding)
    else s[..Unit(k)] + Convert(k, s[Unit(k)..], (a + Unit(k)) % TWO32, encoding)
  }

  /** How far the scan goes. */
  function Processed(k: Kind, s: seq<byte>): (n: nat)
    ensures n <= |s|
  {
    if |s| < 4 then 0
    else if Matches(k, s) then 4 + Processed(k, s[4..])
    else Unit(k) + Processed(k, s[Unit(k)..])
  }

  /** The scan finds no instruction to convert. */
  predicate Quiet(k: Kind, s: seq<byte>) {
    |s| >= 4 ==> !Matches(k, s) && Quiet(k, s[Unit(k)..])
  }

  // ----- Instructions as the processor reads them ------------------------------------------------------------

  function LittleWord(s: seq<byte>): word
    requires |s| >= 4
  {
    s[0] as int + 0x100 * s[1] as int + 0x1_0000 * s[2] as int + 0x100_0000 * s[3] as int
  }

  function BigWord(s: seq<byte>): word
    requires |s| >= 4
  {
    0x100_0000 * s[0] as int + 0x1_0000 * s[1] as int + 0x100 * s[2] as int + s[3] as int
  }

  /** ARM: the top byte is EB, and the target is the rest. */
  lemma ArmWord(s: seq<byte>)
    requires |s| >= 4
    ensures Matches(ARM, s) <==> LittleWord(s) / 0x100_0000 == 0xEB
    ensures Target(ARM, s) == LittleWord(s) % 0x100_0000
  {
    DivUnique(LittleWord(s), 0x100_0000, s[3], s[0] as int + 0x100 * s[1] as int + 0x1_0000 * s[2] as int);
  }

  /** Thumb: two half words with prefixes 11110 and 11111, and eleven bits of the target each, the higher ones first. */
  lemma ThumbWords(s: seq<byte>)
    requires |s| >= 4
    ensures var h, l := s[0] as int + 0x100 * s[1] as int, s[2] as int + 0x100 * s[3] as int;
            && (Matches(ARMT, s) <==> h / 0x800 == 0x1E && l / 0x800 == 0x1F)
            && Target(ARMT, s) == 0x800 * (h % 0x800) + l % 0x800
  {
    HalfWord(s[0], s[1]);
    HalfWord(s[2], s[3]);
  }

  lemma HalfWord(x: byte, y: byte)
    ensures (x + 0x100 * y) / 0x800 == y / 8 && (x + 0x100 * y) % 0x800 == x + 0x100 * (y % 8)
  {
    DivUnique(x + 0x100 * y, 0x800, y / 8, x + 0x100 * (y % 8));
  }

  /** PowerPC: opcode 18 with the lowest bits 01, and 24 bits of the target between them. */
  lemma PpcWord(s: seq<byte>)
    requires |s| >= 4
    ensures Matches(PPC, s) <==> BigWord(s) / 0x400_0000 == 18 && BigWord(s) % 4 == 1
    ensures Target(PPC, s) == BigWord(s) % 0x400_0000 / 4
  {
    var low := 0x100_0000 * (s[0] as int % 4) + 0x1_0000 * s[1] as int + 0x100 * s[2] as int + s[3] as int;
    DivUnique(BigWord(s), 0x400_0000, s[0] as int / 4, low);
    DivUnique(BigWord(s), 4, 0x40_0000 * s[0] as int + 0x4000 * s[1] as int + 0x40 * s[2] as int + s[3] as int / 4, s[3] as int % 4);
    DivUnique(low, 4, 0x40_0000 * (s[0] as int % 4) + 0x4000 * s[1] as int + 0x40 * s[2] as int + s[3] as int / 4, s[3] as int % 4);
  }

  /** SPARC: the top ten bits are 0100000000 or 0111111111, by the sign of the target, which is the lowest 23. */
  lemma SparcWord(s: seq<byte>)
    requires |s| >= 4
    ensures Matches(SPARC, s) <==> BigWord(s) / 0x40_0000 == 0x100 || BigWord(s) / 0x40_0000 == 0x1FF
    ensures Target(SPARC, s) == BigWord(s) % 0x80_0000
  {
    var rest := 0x100 * s[2] as int + s[3] as int;
    DivUnique(BigWord(s), 0x40_0000, 4 * s[0] as int + s[1] as int / 0x40, 0x1_0000 * (s[1] as int % 0x40) + rest);
    DivUnique(BigWord(s), 0x80_0000, 2 * s[0] as int + s[1] as int / 0x80, 0x1_0000 * (s[1] as int % 0x80) + rest);
  }

  // ----- Instructions and targets --------------------------------------------------------------------------

  lemma ArmInstruction(s: seq<byte>)
    requires |s| >= 4 && Matches(ARM, s)
    ensures Target(ARM, s) < Targets(ARM) && Instruction(ARM, Target(ARM, s)) == s[..4]
  {
    var v := Target(ARM, s);
    DivUnique(v, 0x100, 0x100 * s[2] as int + s[1] as int, s[0]);
    DivUnique(v / 0x100, 0x100, s[2], s[1]);
    DivUnique(v, 0x1_0000, s[2], 0x100 * s[1] as int + s[0] as int);
  }

  lemma ThumbInstruction(s: seq<byte>)
    requires |s| >= 4 && Matches(ARMT, s)
    ensures Target(ARMT, s) < Targets(ARMT) && Instruction(ARMT, Target(ARMT, s)) == s[..4]
  {
    var v := Target(ARMT, s);
    var x, y := s[1] as int % 8, s[3] as int % 8;
    DivUnique(v, 0x100, 0x800 * x + 8 * s[0] as int + y, s[2]);
    DivUnique(v / 0x100, 8, 0x100 * x + s[0] as int, y);
    DivUnique(v, 0x800, 0x100 * x + s[0] as int, 0x100 * y + s[2] as int);
    DivUnique(v / 0x800, 0x100, x, s[0]);
    DivUnique(v, 0x8_0000, x, 0x800 * s[0] as int + 0x100 * y + s[2] as int);
  }

  lemma PpcInstruction(s: seq<byte>)
    requires |s| >= 4 && Matches(PPC, s)
    ensures Target(PPC, s) < Targets(PPC) && Instruction(PPC, Target(PPC, s)) == s[..4]
  {
    var v := Target(PPC, s);
    var x, y := s[0] as int % 4, s[3] as int / 4;
    DivUnique(v, 0x40, 0x1_0000 * x + 0x100 * s[1] as int + s[2] as int, y);
    DivUnique(v / 0x40, 0x100, 0x100 * x + s[1] as int, s[2]);
    DivUnique(v, 0x4000, 0x100 * x + s[1] as int, 0x40 * s[2] as int + y);
    DivUnique(v / 0x4000, 0x100, x, s[1]);
    DivUnique(v, 0x40_0000, x, 0x4000 * s[1] as int + 0x40 * s[2] as int + y);
  }

  lemma SparcInstruction(s: seq<byte>)
    requires |s| >= 4 && Matches(SPARC, s)
    ensures Target(SPARC, s) < Targets(SPARC) && Instruction(SPARC, Target(SPARC, s)) == s[..4]
  {
    var v := Target(SPARC, s);
    var x, high := s[1] as int % 0x80, if s[0] == 0x40 then 0 else 0x40;
    DivUnique(s[1], 0x80, high / 0x40, s[1] as int - 2 * high);
    DivUnique(v, 0x100, 0x100 * x + s[2] as int, s[3]);
    DivUnique(v / 0x100, 0x100, x, s[2]);
    DivUnique(v, 0x1_0000, x, 0x100 * s[2] as int + s[3] as int);
    DivUnique(x, 0x40, high / 0x40, x - high);
  }

  /** Instructions that match correspond to targets, one to one. */
  lemma InstructionOf(k: Kind, s: seq<byte>)
    requires |s| >= 4 && Matches(k, s)
    ensures Target(k, s) < Targets(k) && Instruction(k, Target(k, s)) == s[..4]
  {
    hide Matches, Target, Instruction;
    match k
    case ARM => ArmInstruction(s);
    case ARMT => ThumbInstruction(s);
    case PPC => PpcInstruction(s);
    case SPARC => SparcInstruction(s);
  }

  lemma ArmTarget(v: nat)
    requires v < Targets(ARM)
    ensures Matches(ARM, Instruction(ARM, v)) && Target(ARM, Instruction(ARM, v)) == v
  {
    DivUnique(v / 0x100, 0x100, v / 0x1_0000, v / 0x100 % 0x100);
  }

  lemma ThumbTarget(v: nat)
    requires v < Targets(ARMT)
    ensures Matches(ARMT, Instruction(ARMT, v)) && Target(ARMT, Instruction(ARMT, v)) == v
  {
    var q := v / 0x100;
    DivUnique(v, 0x800, q / 8, 0x100 * (q % 8) + v % 0x100);
    DivUnique(v, 0x8_0000, q / 8 / 0x100, 0x800 * (q / 8 % 0x100) + 0x100 * (q % 8) + v % 0x100);
    DivUnique(0xF0 + v / 0x8_0000, 8, 0x1E, v / 0x8_0000);
    DivUnique(0xF8 + q % 8, 8, 0x1F, q % 8);
  }

  lemma PpcTarget(v: nat)
    requires v < Targets(PPC)
    ensures Matches(PPC, Instruction(PPC, v)) && Target(PPC, Instruction(PPC, v)) == v
  {
    var q := v / 0x40;
    DivUnique(v, 0x4000, q / 0x100, 0x40 * (q % 0x100) + v % 0x40);
    DivUnique(v, 0x40_0000, q / 0x100 / 0x100, 0x4000 * (q / 0x100 % 0x100) + 0x40 * (q % 0x100) + v % 0x40);
    DivUnique(0x48 + v / 0x40_0000, 4, 0x12, v / 0x40_0000);
    DivUnique(4 * (v % 0x40) + 1, 4, v % 0x40, 1);
  }

  lemma SparcTarget(v: nat)
    requires v < Targets(SPARC)
    ensures Matches(SPARC, Instruction(SPARC, v)) && Target(SPARC, Instruction(SPARC, v)) == v
  {
    var x := v / 0x1_0000;
    DivUnique(x, 0x40, if v < 0x40_0000 then 0 else 1, x - if v < 0x40_0000 then 0 else 0x40);
  }

  lemma TargetOf(k: Kind, v: nat)
    requires v < Targets(k)
    ensures Matches(k, Instruction(k, v)) && Target(k, Instruction(k, v)) == v
  {
    hide Matches, Target, Instruction;
    match k
    case ARM => ArmTarget(v);
    case ARMT => ThumbTarget(v);
    case PPC => PpcTarget(v);
    case SPARC => SparcTarget(v);
  }

  // ----- Moving a target ---------------------------------------------------------------------------------

  /** The address in units: a difference loses one more when the address is not a whole number of them. */
  function Distance(k: Kind, a: word, encoding: bool): int {
    if encoding then a as int / Unit(k) else -((a as int + Unit(k) - 1) / Unit(k))
  }

  /** Units of 2 or 4 divide 2^32, and so does the number of targets in units. */
  lemma Cut(k: Kind, x: int)
    ensures x % TWO32 / Unit(k) % Targets(k) == x / Unit(k) % Targets(k)
    ensures x % TWO32 % Unit(k) == x % Unit(k)
  {
    var d, m, n := Unit(k), Targets(k), x / TWO32;
    var y := x % TWO32;
    var c := TWO32 / d / m;
    assert TWO32 == d * m * c && d * m * c * n == TWO32 * n;
    DivUnique(x, d, m * c * n + y / d, y % d);
    DivUnique(m * c * n + y / d, m, c * n + y / d / m, y / d % m);
  }

  lemma EncodedTo(k: Kind, v: nat, a: word)
    requires v < Targets(k)
    ensures Moved(k, v, a, true) / Unit(k) % Targets(k) == (v + Distance(k, a, true)) % Targets(k)
    ensures Moved(k, v, a, true) % Unit(k) == a as int % Unit(k)
  {
    hide Targets;
    var d := Unit(k);
    Cut(k, a + d * v);
    DivUnique(a + d * v, d, v + a as int / d, a as int % d);
  }

  lemma DecodedTo(k: Kind, v: nat, a: word)
    requires v < Targets(k)
    ensures Moved(k, v, a, false) / Unit(k) % Targets(k) == (v + Distance(k, a, false)) % Targets(k)
    ensures Moved(k, v, a, false) % Unit(k) == -(a as int) % Unit(k)
  {
    hide Targets;
    var d := Unit(k);
    Cut(k, d * v - a);
    var q := (a as int + d - 1) / d;
    DivUnique(d * v - a, d, v - q, d * q - a);
    DivUnique(-(a as int), d, -q, d * q - a);
  }

  lemma SumMod(m: nat, x: int, y: int)
    requires m > 0
    ensures (x % m + y) % m == (x + y) % m
  {
    var q, q' := x / m, (x + y) / m;
    Distribute(m, q', q);
    DivUnique(x % m + y, m, q' - q, (x + y) % m);
  }

  predicate Aligned(k: Kind, a: word) {
    a as int % Unit(k) == 0
  }

  lemma Distances(k: Kind, a: word, encoding: bool)
    ensures Distance(k, a, encoding) + Distance(k, a, !encoding) == if Aligned(k, a) then 0 else -1
  {
  }

  /** Where a target comes to. */
  function Landing(k: Kind, v: nat, a: word, encoding: bool): nat {
    (v + Distance(k, a, encoding)) % Targets(k)
  }

  /** Back again, a target is what it was, or one less if the address was not aligned. */
  lemma Returns(k: Kind, v: nat, a: word, encoding: bool)
    requires v < Targets(k)
    ensures Landing(k, v, a, encoding) < Targets(k)
    ensures Landing(k, Landing(k, v, a, encoding), a, !encoding) == v <==> Aligned(k, a)
  {
    hide Distance;
    Distances(k, a, encoding);
    var m := Targets(k);
    SumMod(m, v + Distance(k, a, encoding), Distance(k, a, !encoding));
    if Aligned(k, a) {
      DivUnique(v, m, 0, v);
    } else if v > 0 {
      DivUnique(v - 1, m, 0, v - 1);
    } else {
      DivUnique(v - 1, m, -1, m - 1);
    }
  }

  function Low(a: word, encoding: bool): nat {
    (if encoding then a as int else -(a as int)) % 4
  }

  lemma RewriteMoves(k: Kind, s: seq<byte>, a: word, encoding: bool)
    requires |s| >= 4 && Matches(k, s)
    ensures var v := Landing(k, Target(k, s), a, encoding);
            && v < Targets(k)
            && Rewrite(k, s, a, encoding) == if k.PPC? then Spilled(Instruction(k, v), Low(a, encoding)) else Instruction(k, v)
  {
    hide Target, Moved, Matches;
    InstructionOf(k, s);
    if encoding {
      EncodedTo(k, Target(k, s), a);
    } else {
      DecodedTo(k, Target(k, s), a);
    }
  }

  /** What a conversion is for: at an aligned address the target becomes the sum of address and target, in units, and
      back; the instruction stays one of its kind. */
  lemma Relocates(k: Kind, s: seq<byte>, a: word, encoding: bool)
    requires |s| >= 4 && Matches(k, s) && Aligned(k, a)
    ensures var r := Rewrite(k, s, a, encoding);
            && Matches(k, r)
            && Target(k, r) == (Target(k, s) + if encoding then a as int / Unit(k) else -(a as int / Unit(k))) % Targets(k)
  {
    hide Target, Targets, Instruction, Rewrite, Matches, Landing;
    var v := Landing(k, Target(k, s), a, encoding);
    InstructionOf(k, s);
    RewriteMoves(k, s, a, encoding);
    LandingMeans(k, Target(k, s), a, encoding);
    TargetOf(k, v);
  }

  lemma LandingMeans(k: Kind, v: nat, a: word, encoding: bool)
    requires Aligned(k, a)
    ensures Landing(k, v, a, encoding) == (v + if encoding then a as int / Unit(k) else -(a as int / Unit(k))) % Targets(k)
    ensures k.PPC? ==> Low(a, encoding) == 0
  {
    hide Targets;
  }

  /** A converted instruction, converted back if it is still seen as one. */
  function Back(k: Kind, g: seq<byte>, a: word, encoding: bool): seq<byte>
    requires |g| == 4
  {
    if Matches(k, g) then Rewrite(k, g, a, !encoding) else g
  }

  /** An instruction is restored exactly when its address is aligned. */
  lemma Restored(k: Kind, s: seq<byte>, a: word, encoding: bool)
    requires |s| >= 4 && Matches(k, s)
    ensures Back(k, Rewrite(k, s, a, encoding), a, encoding) == s[..4] <==> Aligned(k, a)
    ensures !k.PPC? || Aligned(k, a) ==> Matches(k, Rewrite(k, s, a, encoding))
  {
    hide Target, Targets, Instruction, Rewrite, Landing, Matches;
    var v := Target(k, s);
    var v' := Landing(k, v, a, encoding);
    InstructionOf(k, s);
    RewriteMoves(k, s, a, encoding);
    Returns(k, v, a, encoding);
    TargetOf(k, v');
    TargetOf(k, v);
    if k.PPC? {
      PpcRestored(s, a, encoding);
    } else {
      RewriteMoves(k, Instruction(k, v'), a, !encoding);
      TargetOf(k, Landing(k, v', a, !encoding));
    }
  }

  lemma PpcRestored(s: seq<byte>, a: word, encoding: bool)
    requires |s| >= 4 && Matches(PPC, s)
    ensures Back(PPC, Rewrite(PPC, s, a, encoding), a, encoding) == s[..4] <==> Aligned(PPC, a)
    ensures Aligned(PPC, a) ==> Matches(PPC, Rewrite(PPC, s, a, encoding))
  {
    hide Target, Targets, Instruction, Rewrite, Landing;
    var v := Target(PPC, s);
    var v' := Landing(PPC, v, a, encoding);
    InstructionOf(PPC, s);
    RewriteMoves(PPC, s, a, encoding);
    Returns(PPC, v, a, encoding);
    TargetOf(PPC, v');
    TargetOf(PPC, v);
    var g := Instruction(PPC, v');
    if Low(a, encoding) < 2 {
      RewriteMoves(PPC, g, a, !encoding);
      TargetOf(PPC, Landing(PPC, v', a, !encoding));
    } else {
      assert g[3] as int % 4 == 1;
    }
  }

  // ----- The scan ------------------------------------------------------------------------------------------

  /** The scan back sees instructions where the scan out did: for Thumb code, whose instructions may start at
      every other one, because a conversion keeps the bits that are tested. */
  lemma {:induction false} TestsKept(s: seq<byte>, a: word, encoding: bool)
    requires |s| >= 2
    ensures Convert(ARMT, s, a, encoding)[1] as int / 8 == s[1] as int / 8
  {
    if |s| >= 4 && Matches(ARMT, s) {
      Restored(ARMT, s, a, encoding);
    }
  }

  lemma SameBack(k: Kind, s: seq<byte>, a: word, encoding: bool)
    requires |s| >= 4 && !Matches(k, s)
    ensures var r := Convert(k, s, a, encoding);
            !Matches(k, r) && r[..Unit(k)] == s[..Unit(k)] && r[Unit(k)..] == Convert(k, s[Unit(k)..], (a + Unit(k)) % TWO32, encoding)
  {
    hide Rewrite;
    var r, rest := Convert(k, s, a, encoding), Convert(k, s[Unit(k)..], (a + Unit(k)) % TWO32, encoding);
    assert r == s[..Unit(k)] + rest;
    if k.ARMT? {
      TestsKept(s[2..], (a + 2) % TWO32, encoding);
      assert r[3] == rest[1] && s[3] == s[2..][1];
    }
  }

  lemma Next(k: Kind, a: word, n: nat)
    requires n == 4 || n == Unit(k)
    ensures Aligned(k, (a + n) % TWO32) <==> Aligned(k, a)
  {
    var d, c := Unit(k), (a + n) / TWO32;
    var r := a as int % d;
    DivUnique((a + n) % TWO32, d, a as int / d + n / d - TWO32 / d * c, r);
  }

  lemma OnlyFour(k: Kind, g: seq<byte>, rest: seq<byte>, a: word, encoding: bool)
    requires |g| == 4
    ensures Matches(k, g + rest) == Matches(k, g) && Rewrite(k, g + rest, a, encoding) == Rewrite(k, g, a, encoding)
  {
    hide Moved;
    assert Target(k, g + rest) == Target(k, g);
  }

  lemma Halves(g: seq<byte>, rest: seq<byte>, s: seq<byte>)
    requires |g| <= |s|
    ensures g + rest == s <==> g == s[..|g|] && rest == s[|g|..]
  {
    assert s[..|g|] + s[|g|..] == s;
    if g + rest == s {
      assert s[..|g|] == g && s[|g|..] == rest;
    }
  }

  lemma {:induction false} RoundTripMatch(k: Kind, s: seq<byte>, a: word, encoding: bool)
    requires |s| >= 4 && Matches(k, s)
    ensures var rest, a' := Convert(k, s[4..], (a + 4) % TWO32, encoding), (a + 4) % TWO32;
            Convert(k, Convert(k, s, a, encoding), a, !encoding) == s <==>
              Aligned(k, a) && Convert(k, rest, a', !encoding) == s[4..]
  {
    hide Rewrite, Matches;
    var g, rest, a' := Rewrite(k, s, a, encoding), Convert(k, s[4..], (a + 4) % TWO32, encoding), (a + 4) % TWO32;
    var r := Convert(k, s, a, encoding);
    assert r == g + rest && r[4..] == rest;
    OnlyFour(k, g, rest, a, !encoding);
    Restored(k, s, a, encoding);
    if Matches(k, g) {
      Halves(Rewrite(k, g, a, !encoding), Convert(k, rest, a', !encoding), s);
    } else {
      Halves(r[..Unit(k)], Convert(k, r[Unit(k)..], (a + Unit(k)) % TWO32, !encoding), s);
      assert Unit(k) == 4 && r[..4] == g;
    }
  }

  lemma RoundTripPass(k: Kind, s: seq<byte>, a: word, encoding: bool)
    requires |s| >= 4 && !Matches(k, s)
    ensures var t: seq<byte>, a': word := s[Unit(k)..], (a + Unit(k)) % TWO32;
            Convert(k, Convert(k, s, a, encoding), a, !encoding) == s <==> Convert(k, Convert(k, t, a', encoding), a', !encoding) == t
  {
    hide Rewrite, Matches;
    var u, r := Unit(k), Convert(k, s, a, encoding);
    SameBack(k, s, a, encoding);
    Halves(r[..u], Convert(k, r[u..], (a + u) % TWO32, !encoding), s);
  }

  /** The filters are bijections, on buffers of any length: in either direction, the other undoes it, if and only
      if the address is aligned or there is nothing to convert. */
  lemma {:induction false} RoundTrip(k: Kind, s: seq<byte>, a: word, encoding: bool)
    ensures Convert(k, Convert(k, s, a, encoding), a, !encoding) == s <==> Aligned(k, a) || Quiet(k, s)
    decreases |s|
  {
    hide Rewrite, Matches, Aligned;
    if |s| >= 4 {
      hide Convert;
      if Matches(k, s) {
        Next(k, a, 4);
        RoundTripMatch(k, s, a, encoding);
        RoundTrip(k, s[4..], (a + 4) % TWO32, encoding);
      } else {
        Next(k, a, Unit(k));
        RoundTripPass(k, s, a, encoding);
        RoundTrip(k, s[Unit(k)..], (a + Unit(k)) % TWO32, encoding);
      }
    }
  }

  lemma AloneConverted(s: seq<byte>, a: word, encoding: bool)
    requires |s| == 4 && Matches(ARM, s)
    ensures Convert(ARM, s, a, encoding) == Rewrite(ARM, s, a, encoding)
  {
    hide Rewrite, Matches;
    assert s[4..] == [];
  }

  lemma RewrittenAtOne(encoding: bool)
    ensures Rewrite(ARM, [0, 0, 0, 0xEB], 1, encoding) == if encoding then [0, 0, 0, 0xEB] else [0xFF, 0xFF, 0xFF, 0xEB]
  {
    hide Instruction;
    DivUnique(-1, TWO32, -1, 0xFFFF_FFFF);
    assert Moved(ARM, 0, 1, encoding) == if encoding then 1 else 0xFFFF_FFFF;
    TwoTargets();
  }

  lemma TwoTargets()
    ensures Instruction(ARM, 0) == [0, 0, 0, 0xEB] && Instruction(ARM, 0xFF_FFFF) == [0xFF, 0xFF, 0xFF, 0xEB]
  {
  }

  /** At address 1 a branch is lost. */
  lemma Unaligned()
    ensures Convert(ARM, Convert(ARM, [0, 0, 0, 0xEB], 1, true), 1, false) == [0xFF, 0xFF, 0xFF, 0xEB]
  {
    hide Rewrite, Convert;
    RewrittenAtOne(true);
    RewrittenAtOne(false);
    AloneConverted([0, 0, 0, 0xEB], 1, true);
    AloneConverted([0, 0, 0, 0xEB], 1, false);
  }

  /** One step of the scan. */
  function Stride(k: Kind, s: seq<byte>): (u: nat)
    requires |s| >= 4
    ensures 0 < u <= 4
  {
    if Matches(k, s) then 4 else Unit(k)
  }

  function Head(k: Kind, s: seq<byte>, a: word, encoding: bool): (r: seq<byte>)
    requires |s| >= 4
    ensures |r| == Stride(k, s)
  {
    if Matches(k, s) then Rewrite(k, s, a, encoding) else s[..Unit(k)]
  }

  lemma StepWithMore(k: Kind, s: seq<byte>, more: seq<byte>, a: word, encoding: bool)
    requires |s| >= 4
    ensures var u := Stride(k, s);
            Convert(k, s + more, a, encoding) == Head(k, s, a, encoding) + Convert(k, s[u..] + more, (a + u) % TWO32, encoding)
  {
    hide Rewrite, Matches;
    OnlyFour(k, s[..4], s[4..], a, encoding);
    OnlyFour(k, s[..4], s[4..] + more, a, encoding);
    assert s[..4] + s[4..] == s && s[..4] + (s[4..] + more) == s + more;
    assert (s + more)[4..] == s[4..] + more && (s + more)[Unit(k)..] == s[Unit(k)..] + more;
    assert (s + more)[..Unit(k)] == s[..Unit(k)];
  }

  lemma ProcessedStep(k: Kind, s: seq<byte>)
    requires |s| >= 4
    ensures Processed(k, s) == Stride(k, s) + Processed(k, s[Stride(k, s)..])
  {
    hide Matches, Unit;
  }

  lemma Joins(h: seq<byte>, rest: seq<byte>, n: nat, tail: seq<byte>)
    requires n <= |rest|
    ensures h + (rest[..n] + tail) == (h + rest)[..|h| + n] + tail
  {
  }

  ghost predicate Splits(k: Kind, s: seq<byte>, more: seq<byte>, a: word, encoding: bool, n: nat)
    requires n <= |s|
  {
    Convert(k, s + more, a, encoding)
    == Convert(k, s, a, encoding)[..n] + Convert(k, s[n..] + more, (a + n) % TWO32, encoding)
  }

  lemma SplitsNow(k: Kind, s: seq<byte>, more: seq<byte>, a: word, encoding: bool)
    ensures Splits(k, s, more, a, encoding, 0)
  {
    hide Convert;
    assert s[0..] == s && (a + 0) % TWO32 == a;
  }

  lemma SplitsLater(k: Kind, s: seq<byte>, more: seq<byte>, a: word, encoding: bool, n: nat)
    requires |s| >= 4 && Stride(k, s) + n <= |s|
    requires Splits(k, s[Stride(k, s)..], more, (a + Stride(k, s)) % TWO32, encoding, n)
    ensures Splits(k, s, more, a, encoding, Stride(k, s) + n)
  {
    hide Convert, Head, Stride;
    var u := Stride(k, s);
    var b: word := (a + u) % TWO32;
    var h, rest := Head(k, s, a, encoding), Convert(k, s[u..], b, encoding);
    StepWithMore(k, s, more, a, encoding);
    StepWithMore(k, s, [], a, encoding);
    assert s + [] == s && s[u..] + [] == s[u..] && s[u..][n..] == s[u + n..];
    WordSum(a + u, n);
    Joins(h, rest, n, Convert(k, s[u + n..] + more, (b + n) % TWO32, encoding));
  }

  /** A buffer may be converted in pieces, each from where the last call stopped. */
  lemma {:induction false} Successive(k: Kind, s: seq<byte>, more: seq<byte>, a: word, encoding: bool)
    ensures Splits(k, s, more, a, encoding, Processed(k, s))
    decreases |s|
  {
    hide Splits, Matches, Unit, Rewrite;
    if |s| < 4 {
      SplitsNow(k, s, more, a, encoding);
    } else {
      var u := Stride(k, s);
      ProcessedStep(k, s);
      Successive(k, s[u..], more, (a + u) % TWO32, encoding);
      SplitsLater(k, s, more, a, encoding, Processed(k, s[u..]));
    }
  }

  // ----- The loops -----------------------------------------------------------------------------------------

  /** The first i bytes are done. */
  ghost predicate Reached(k: Kind, data: seq<byte>, before: seq<byte>, i: nat, a: word, encoding: bool) {
    && i <= |data| == |before| && data[i..] == before[i..]
    && Convert(k, before, a, encoding) == data[..i] + Convert(k, before[i..], (a + i) % TWO32, encoding)
    && Processed(k, before) == i + Processed(k, before[i..])
  }

  lemma ReachedStart(k: Kind, data: seq<byte>, a: word, encoding: bool)
    ensures Reached(k, data, data, 0, a, encoding)
  {
    hide Convert, Processed;
    assert data[0..] == data && data[..0] == [] && (a + 0) % TWO32 == a;
  }

  lemma ReachedOn(k: Kind, data: seq<byte>, data': seq<byte>, before: seq<byte>, i: nat, a: word, encoding: bool)
    requires Reached(k, data, before, i, a, encoding) && i + 4 <= |data|
    requires var u := Stride(k, data[i..]);
             data' == data[..i] + Head(k, data[i..], (a + i) % TWO32, encoding) + data[i + u..]
    ensures Reached(k, data', before, i + Stride(k, data[i..]), a, encoding)
  {
    hide Convert, Processed, Head, Stride;
    var t, b: word := before[i..], (a + i) % TWO32;
    var u := Stride(k, t);
    var h := Head(k, t, b, encoding);
    StepWithMore(k, t, [], b, encoding);
    ProcessedStep(k, t);
    assert t + [] == t && t[u..] + [] == t[u..] && t[u..] == before[i + u..];
    WordSum(a + i, u);
    assert data[i + u..] == before[i + u..] by {
      assert data[i..][u..] == before[i..][u..];
    }
    assert data'[..i + u] == data[..i] + h && data'[i + u..] == data[i + u..];
    assert data[..i] + (h + Convert(k, t[u..], (b + u) % TWO32, encoding)) == data[..i] + h + Convert(k, t[u..], (b + u) % TWO32, encoding);
  }

  lemma ReachedEnd(k: Kind, data: seq<byte>, before: seq<byte>, i: nat, a: word, encoding: bool)
    requires Reached(k, data, before, i, a, encoding) && |data| < i + 4
    ensures data == Convert(k, before, a, encoding) && i == Processed(k, before)
  {
    assert data[..i] + data[i..] == data;
  }

  /** Bytes of a target that is not yet cut off. */
  lemma LowDigits(d: nat, m: nat, x: nat, y: nat)
    requires m > 0 && x > 0 && y > 0 && m == x * y
    ensures d % m / x == d / x % y && d % m % x == d % x
  {
    var q, r := d / x, d % x;
    var q', r' := q / y, q % y;
    assert d == m * q' + (x * r' + r) by {
      assert x * (y * q' + r') == x * y * q' + x * r';
    }
    assert x * r' + r < m by {
      AtLeast(x, y - r');
      Distribute(x, y, r');
    }
    assert 0 <= x * r';
    DivUnique(d, m, q', x * r' + r);
    DivUnique(x * r' + r, x, r', r);
  }

  method ArmRewrite(data: array<byte>, i: nat, a: word, encoding: bool)
    requires i + 4 <= data.Length && Matches(ARM, data[i..])
    modifies data
    ensures data[..] == old(data[..i] + Rewrite(ARM, data[i..], a, encoding) + data[i + 4..])
  {
    var src := 0x1_0000 * data[i + 2] as int + 0x100 * data[i + 1] as int + data[i] as int;
    var dest: word := if encoding then (a + 4 * src) % TWO32 else (4 * src - a) % TWO32;
    var d: nat := dest as int / 4;
    LowDigits(d, 0x100_0000, 0x1_0000, 0x100);
    LowDigits(d, 0x100_0000, 0x100, 0x1_0000);
    LowDigits(d / 0x100, 0x1_0000, 0x100, 0x100);
    data[i + 2] := d / 0x1_0000 % 0x100;
    data[i + 1] := d / 0x100 % 0x100;
    data[i] := d % 0x100;
  }

  /** ARM_Convert. */
  method ArmConvert(data: array<byte>, ip: word, encoding: bool) returns (i: nat)
    modifies data
    ensures data[..] == Convert(ARM, old(data[..]), (ip + 8) % TWO32, encoding) && i == Processed(ARM, old(data[..]))
  {
    hide Convert, Processed, Rewrite, Reached;
    i := 0;
    if data.Length < 4 {
      ReachedStart(ARM, data[..], (ip + 8) % TWO32, encoding);
      ReachedEnd(ARM, data[..], data[..], 0, (ip + 8) % TWO32, encoding);
      return;
    }
    ghost var before := data[..];
    var ip8: word := (ip + 8) % TWO32;
    ReachedStart(ARM, before, ip8, encoding);
    while i <= data.Length - 4
      invariant Reached(ARM, data[..], before, i, ip8, encoding)
    {
      ghost var was := data[..];
      assert was[i..][3] == data[i + 3];
      if data[i + 3] == 0xEB {
        ArmRewrite(data, i, (ip8 + i) % TWO32, encoding);
      } else {
        assert was == was[..i] + was[i..][..4] + was[i + 4..];
      }
      ReachedOn(ARM, was, data[..], before, i, ip8, encoding);
      i := i + 4;
    }
    ReachedEnd(ARM, data[..], before, i, ip8, encoding);
  }

  method ThumbRewrite(data: array<byte>, i: nat, a: word, encoding: bool)
    requires i + 4 <= data.Length && Matches(ARMT, data[i..])
    modifies data
    ensures data[..] == old(data[..i] + Rewrite(ARMT, data[i..], a, encoding) + data[i + 4..])
  {
    var src := 0x8_0000 * (data[i + 1] as int % 8) + 0x800 * data[i] as int + 0x100 * (data[i + 3] as int % 8) + data[i + 2] as int;
    var dest: word := if encoding then (a + 2 * src) % TWO32 else (2 * src - a) % TWO32;
    var d: nat := dest as int / 2;
    ThumbDigits(d);
    data[i + 1] := 0xF0 + d / 0x8_0000 % 8;
    data[i] := d / 0x800 % 0x100;
    data[i + 3] := 0xF8 + d / 0x100 % 8;
    data[i + 2] := d % 0x100;
  }

  lemma ThumbDigits(d: nat)
    ensures var v := d % 0x40_0000;
            && v / 0x8_0000 == d / 0x8_0000 % 8 && v / 0x800 % 0x100 == d / 0x800 % 0x100
            && v / 0x100 % 8 == d / 0x100 % 8 && v % 0x100 == d % 0x100
  {
    LowDigits(d, 0x40_0000, 0x8_0000, 8);
    LowDigits(d, 0x40_0000, 0x800, 0x800);
    LowDigits(d / 0x800, 0x800, 0x100, 8);
    LowDigits(d, 0x40_0000, 0x100, 0x4000);
    LowDigits(d / 0x100, 0x4000, 8, 0x800);
  }

  /** ARMT_Convert: instructions may start at every other byte. */
  method ThumbConvert(data: array<byte>, ip: word, encoding: bool) returns (i: nat)
    modifies data
    ensures data[..] == Convert(ARMT, old(data[..]), (ip + 4) % TWO32, encoding) && i == Processed(ARMT, old(data[..]))
  {
    hide Convert, Processed, Rewrite, Reached;
    i := 0;
    if data.Length < 4 {
      ReachedStart(ARMT, data[..], (ip + 4) % TWO32, encoding);
      ReachedEnd(ARMT, data[..], data[..], 0, (ip + 4) % TWO32, encoding);
      return;
    }
    ghost var before := data[..];
    var ip4: word := (ip + 4) % TWO32;
    ReachedStart(ARMT, before, ip4, encoding);
    while i <= data.Length - 4
      invariant Reached(ARMT, data[..], before, i, ip4, encoding)
    {
      ghost var was, i0 := data[..], i;
      assert was[i..][1] == data[i + 1] && was[i..][3] == data[i + 3];
      if data[i + 1] as int / 8 == 0x1E && data[i + 3] as int / 8 == 0x1F {
        ThumbRewrite(data, i, (ip4 + i) % TWO32, encoding);
        i := i + 2;
      } else {
        assert was == was[..i] + was[i..][..2] + was[i + 2..];
      }
      ReachedOn(ARMT, was, data[..], before, i0, ip4, encoding);
      i := i + 2;
    }
    ReachedEnd(ARMT, data[..], before, i, ip4, encoding);
  }

  method PpcRewrite(data: array<byte>, i: nat, a: word, encoding: bool)
    requires i + 4 <= data.Length && Matches(PPC, data[i..])
    modifies data
    ensures data[..] == old(data[..i] + Rewrite(PPC, data[i..], a, encoding) + data[i + 4..])
  {
    var src := 0x100_0000 * (data[i] as int % 4) + 0x1_0000 * data[i + 1] as int + 0x100 * data[i + 2] as int
               + (data[i + 3] as int - data[i + 3] as int % 4);
    var dest: word := if encoding then (a + src) % TWO32 else (src - a) % TWO32;
    hide Rewrite;
    PpcBytes(data[i..], a, encoding);
    data[i] := 0x48 + dest as int / 0x100_0000 % 4;
    data[i + 1] := dest as int / 0x1_0000 % 0x100;
    data[i + 2] := dest as int / 0x100 % 0x100;
    data[i + 3] := OrOne(dest as int % 0x100);
  }

  lemma PpcBytes(s: seq<byte>, a: word, encoding: bool)
    requires |s| >= 4 && Matches(PPC, s)
    ensures var src := 0x100_0000 * (s[0] as int % 4) + 0x1_0000 * s[1] as int + 0x100 * s[2] as int
                       + (s[3] as int - s[3] as int % 4);
            var dest: word := if encoding then (a + src) % TWO32 else (src - a) % TWO32;
            Rewrite(PPC, s, a, encoding)
            == [0x48 + dest as int / 0x100_0000 % 4, dest as int / 0x1_0000 % 0x100, dest as int / 0x100 % 0x100, OrOne(dest as int % 0x100)]
  {
    PpcDigits(Moved(PPC, Target(PPC, s), a, encoding));
  }

  /** What `|=` makes of a byte that is 1. */
  function OrOne(b: byte): byte {
    if b as int % 2 == 0 then b as int + 1 else b
  }

  lemma PpcDigits(dest: word)
    ensures var v := dest as int / 4 % 0x100_0000;
            && v / 0x40_0000 == dest as int / 0x100_0000 % 4 && v / 0x4000 % 0x100 == dest as int / 0x1_0000 % 0x100
            && v / 0x40 % 0x100 == dest as int / 0x100 % 0x100
            && OrOne(dest as int % 0x100) as int == 4 * (v % 0x40) + 1 + if dest as int % 4 >= 2 then 2 else 0
  {
    var d: nat := dest as int / 4;
    LowDigits(d, 0x100_0000, 0x40_0000, 4);
    LowDigits(d, 0x100_0000, 0x4000, 0x400);
    LowDigits(d / 0x4000, 0x400, 0x100, 4);
    LowDigits(d, 0x100_0000, 0x40, 0x4_0000);
    LowDigits(d / 0x40, 0x4_0000, 0x100, 0x400);
    DivUnique(dest, 0x100_0000, d / 0x40_0000, 4 * (d % 0x40_0000) + dest as int % 4);
    DivUnique(dest, 0x1_0000, d / 0x4000, 4 * (d % 0x4000) + dest as int % 4);
    DivUnique(dest, 0x100, d / 0x40, 4 * (d % 0x40) + dest as int % 4);
  }

  /** PPC_Convert. */
  method PpcConvert(data: array<byte>, ip: word, encoding: bool) returns (i: nat)
    modifies data
    ensures data[..] == Convert(PPC, old(data[..]), ip, encoding) && i == Processed(PPC, old(data[..]))
  {
    hide Convert, Processed, Rewrite, Reached;
    i := 0;
    if data.Length < 4 {
      ReachedStart(PPC, data[..], ip, encoding);
      ReachedEnd(PPC, data[..], data[..], 0, ip, encoding);
      return;
    }
    ghost var before := data[..];
    ReachedStart(PPC, before, ip, encoding);
    while i <= data.Length - 4
      invariant Reached(PPC, data[..], before, i, ip, encoding)
    {
      ghost var was := data[..];
      assert was[i..][0] == data[i] && was[i..][3] == data[i + 3];
      if data[i] as int / 4 == 0x12 && data[i + 3] as int % 4 == 1 {
        PpcRewrite(data, i, (ip + i) % TWO32, encoding);
      } else {
        assert was == was[..i] + was[i..][..4] + was[i + 4..];
      }
      ReachedOn(PPC, was, data[..], before, i, ip, encoding);
      i := i + 4;
    }
    ReachedEnd(PPC, data[..], before, i, ip, encoding);
  }

  method SparcRewrite(data: array<byte>, i: nat, a: word, encoding: bool)
    requires i + 4 <= data.Length && Matches(SPARC, data[i..])
    modifies data
    ensures data[..] == old(data[..i] + Rewrite(SPARC, data[i..], a, encoding) + data[i + 4..])
  {
    var src := 0x100_0000 * data[i] as int + 0x1_0000 * data[i + 1] as int + 0x100 * data[i + 2] as int + data[i + 3] as int;
    var src4: word := 4 * src % TWO32;
    var dest: word := if encoding then (a + src4) % TWO32 else (src4 - a) % TWO32;
    SparcSource(data[i..], a, encoding);
    var d: nat := dest as int / 4;
    // The sign in bit 22 fills the bits above it, below the two of the opcode.
    var e := if d / 0x40_0000 % 2 == 1 then 0x7FC0_0000 + d % 0x40_0000 else 0x4000_0000 + d % 0x40_0000;
    SparcDigits(d, e);
    data[i] := e / 0x100_0000;
    data[i + 1] := e / 0x1_0000 % 0x100;
    data[i + 2] := e / 0x100 % 0x100;
    data[i + 3] := e % 0x100;
  }

  lemma SparcSource(s: seq<byte>, a: word, encoding: bool)
    requires |s| >= 4 && Matches(SPARC, s)
    ensures var src := 0x100_0000 * s[0] as int + 0x1_0000 * s[1] as int + 0x100 * s[2] as int + s[3] as int;
            var src4: word := 4 * src % TWO32;
            var dest: word := if encoding then (a + src4) % TWO32 else (src4 - a) % TWO32;
            dest as int / 4 % 0x80_0000 == Moved(SPARC, Target(SPARC, s), a, encoding) as int / 4 % 0x80_0000
  {
    var src := 0x100_0000 * s[0] as int + 0x1_0000 * s[1] as int + 0x100 * s[2] as int + s[3] as int;
    var v, c := Target(SPARC, s), if s[0] == 0x40 then 0x80 else 0xFF;
    assert src == v + 0x80_0000 * c;
    var x := if encoding then a as int else -(a as int);
    if encoding {
      WordSum(4 * src, a);
    } else {
      WordSum(4 * src, -(a as int));
    }
    Cut(SPARC, 4 * src + x);
    Cut(SPARC, 4 * v + x);
    DivUnique(4 * src + x, 4, (4 * v + x) / 4 + 0x80_0000 * c, (4 * v + x) % 4);
    var y := (4 * v + x) / 4;
    DivUnique(y + 0x80_0000 * c, 0x80_0000, y / 0x80_0000 + c, y % 0x80_0000);
  }

  lemma SparcDigits(d: nat, e: nat)
    requires e == if d / 0x40_0000 % 2 == 1 then 0x7FC0_0000 + d % 0x40_0000 else 0x4000_0000 + d % 0x40_0000
    ensures [e / 0x100_0000, e / 0x1_0000 % 0x100, e / 0x100 % 0x100, e % 0x100] == Instruction(SPARC, d % 0x80_0000)
    ensures e < TWO32
  {
    var v, w := d % 0x80_0000, d % 0x40_0000;
    LowDigits(d, 0x80_0000, 0x40_0000, 2);
    DivUnique(v, 0x40_0000, d / 0x40_0000 % 2, w);
    TopDigits(if v < 0x40_0000 then 0x4000 else 0x7FC0, w);
    TopDigits(if v < 0x40_0000 then 0 else 0x40, w);
  }

  lemma TopDigits(high: nat, w: nat)
    requires w < 0x40_0000 && (high == 0x4000 || high == 0x7FC0 || high == 0 || high == 0x40)
    ensures var e := 0x1_0000 * high + w;
            && e / 0x100_0000 == high / 0x100 && e / 0x1_0000 % 0x100 == high % 0x100 + w / 0x1_0000
            && e / 0x1_0000 % 0x40 == w / 0x1_0000
            && e / 0x100 % 0x100 == w / 0x100 % 0x100 && e % 0x100 == w % 0x100
  {
    var e, x := 0x1_0000 * high + w, w / 0x1_0000;
    DivUnique(e, 0x1_0000, high + x, w % 0x1_0000);
    DivUnique(e, 0x100_0000, high / 0x100, 0x1_0000 * (high % 0x100) + w);
    DivUnique(high + x, 0x100, high / 0x100, high % 0x100 + x);
    DivUnique(high + x, 0x40, high / 0x40, x);
    DivUnique(e, 0x100, 0x100 * high + w / 0x100, w % 0x100);
    DivUnique(0x100 * high + w / 0x100, 0x100, high + x, w / 0x100 % 0x100);
  }

  /** SPARC_Convert. Its position is a 32-bit word, so that it must not reach the end of the address space. */
  method SparcConvert(data: array<byte>, ip: word, encoding: bool) returns (i: word)
    requires data.Length < TWO32
    modifies data
    ensures data[..] == Convert(SPARC, old(data[..]), ip, encoding) && i == Processed(SPARC, old(data[..]))
  {
    hide Convert, Processed, Rewrite, Reached;
    i := 0;
    if data.Length < 4 {
      ReachedStart(SPARC, data[..], ip, encoding);
      ReachedEnd(SPARC, data[..], data[..], 0, ip, encoding);
      return;
    }
    ghost var before := data[..];
    ReachedStart(SPARC, before, ip, encoding);
    while i <= data.Length - 4
      invariant Reached(SPARC, data[..], before, i, ip, encoding) && i <= data.Length
    {
      ghost var was := data[..];
      assert was[i..][0] == data[i] && was[i..][1] == data[i + 1];
      if (data[i] == 0x40 && data[i + 1] < 0x40) || (data[i] == 0x7F && data[i + 1] >= 0xC0) {
        SparcRewrite(data, i, (ip + i) % TWO32, encoding);
      } else {
        assert was == was[..i] + was[i..][..4] + was[i + 4..];
      }
      ReachedOn(SPARC, was, data[..], before, i, ip, encoding);
      i := i + 4;
    }
    ReachedEnd(SPARC, data[..], before, i, ip, encoding);
  }
}
