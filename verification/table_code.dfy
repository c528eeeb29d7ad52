// Running the code of a label look-up table: with the number of a label in ecx, it leaves the
// label's address in the destination register.
module TableCode {
  import opened Words
  import opened Relaxation
  import opened Emission

  // ---------- The six instructions, as the processor reads them ----------

  // Intel 64 manual, volume 2: SHL, MOV, SHR, MOVZX and LEA, in the forms that occur.
  datatype Instr =
    | ShlImm(r: nat, n: nat)
    | MovImm(r: nat, w: nat)
    | ShrCl(r: nat)
    | Movzx(d: nat, s: nat)
    | LeaRip(d: nat, disp: int)
    | LeaSib(d: nat, base: nat, index: nat, scale: nat, disp: int)

  datatype Step = Step(instr: Instr, next: nat) | Unknown

  // The number that bytes stand for, lowest byte first.
  function Value(s: seq<u8>): nat {
    if |s| == 0 then 0 else s[0] as nat + 0x100 * Value(s[1..])
  }

  // The instruction at `p`, behind a REX prefix with these bits; `rex` says that there is one.
  function DecodeRex(b: seq<u8>, p: nat, rex: bool, w: bool, r: nat, x: nat, e: nat): Step
    requires r <= 1 && x <= 1 && e <= 1
  {
    if p + 3 <= |b| && b[p] == 0xc1 && 0xe0 <= b[p + 1] < 0xe8 && !w then
      Step(ShlImm(b[p + 1] - 0xe0 + 8 * e, b[p + 2] % 0x20), p + 3)
    else if p + 9 <= |b| && 0xb8 <= b[p] < 0xc0 && w then
      Step(MovImm(b[p] - 0xb8 + 8 * e, Value(b[p + 1..p + 9])), p + 9)
    else if p + 2 <= |b| && b[p] == 0xd3 && 0xe8 <= b[p + 1] < 0xf0 && w then
      Step(ShrCl(b[p + 1] - 0xe8 + 8 * e), p + 2)
    else if p + 3 <= |b| && b[p] == 0x0f && b[p + 1] == 0xb6 && b[p + 2] >= 0xc0 && !w && (rex || b[p + 2] % 8 < 4) then
      Step(Movzx(b[p + 2] / 8 % 8 + 8 * r, b[p + 2] % 8 + 8 * e), p + 3)
    else if p + 6 <= |b| && b[p] == 0x8d && w && b[p + 1] < 0x40 && b[p + 1] % 8 == 5 then
      Step(LeaRip(b[p + 1] / 8 + 8 * r, Signed32(Field32(b, p + 2))), p + 6)
    else if p + 3 <= |b| && b[p] == 0x8d && w && b[p + 1] < 0x40 && b[p + 1] % 8 == 4
            && b[p + 2] % 8 != 5 && b[p + 2] / 8 % 8 + 8 * x != 4 then
      Step(LeaSib(b[p + 1] / 8 + 8 * r, b[p + 2] % 8 + 8 * e, b[p + 2] / 8 % 8 + 8 * x, b[p + 2] / 0x40, 0), p + 3)
    else if p + 4 <= |b| && b[p] == 0x8d && w && 0x40 <= b[p + 1] < 0x80 && b[p + 1] % 8 == 4
            && b[p + 2] / 8 % 8 + 8 * x != 4 then
      Step(LeaSib((b[p + 1] - 0x40) / 8 + 8 * r, b[p + 2] % 8 + 8 * e, b[p + 2] / 8 % 8 + 8 * x, b[p + 2] / 0x40,
                  Signed8(b[p + 3])), p + 4)
    else Unknown
  }

  function DecodeAt(b: seq<u8>, p: nat): Step {
    if p < |b| && 0x40 <= b[p] < 0x50
    then DecodeRex(b, p + 1, true, b[p] >= 0x48, b[p] / 4 % 2, b[p] / 2 % 2, b[p] % 2)
    else DecodeRex(b, p, false, false, 0, 0, 0)
  }

  type Regs = s: seq<u64> | |s| == 16 witness seq(16, _ => 0)

  const CX: nat := 1

  function Get(regs: Regs, r: nat): u64 {
    if r < 16 then regs[r] else 0
  }

  function Put(regs: Regs, r: nat, w: int): (regs': Regs)
    ensures r < 16 ==> regs' == regs[r := w % TWO_64]
  {
    if r < 16 then regs[r := w % TWO_64] else regs
  }

  function ShiftRight(x: u64, n: nat): u64 {
    Quotient(x, Pow2(n))
  }

  function Quotient(v: nat, p: nat): (q: nat)
    requires p > 0
    ensures q == v / p <= v
  {
    SmallQuotient(v, p);
    v / p
  }

  // What an instruction does; the following one lies at address `next`.
  function Execute(i: Instr, next: int, regs: Regs): Regs {
    match i
    case ShlImm(r, n) => Put(regs, r, Get(regs, r) % TWO_32 * Pow2(n) % TWO_32)
    case MovImm(r, w) => Put(regs, r, w)
    case ShrCl(r) => Put(regs, r, ShiftRight(Get(regs, r), Get(regs, CX) % 0x40))
    case Movzx(d, s) => Put(regs, d, Get(regs, s) % 0x100)
    case LeaRip(d, disp) => Put(regs, d, next + disp)
    case LeaSib(d, base, index, scale, disp) =>
      Put(regs, d, Get(regs, base) + Get(regs, index) * Scale(if scale <= 3 then scale else 3) + disp)
  }

  // The registers when execution that starts at `p` gets to `end`, after at most `fuel`
  // instructions; the code is loaded at address `load`.
  function Run(b: seq<u8>, load: u64, p: nat, end: nat, regs: Regs, fuel: nat): Option<Regs>
    decreases fuel
  {
    if p == end then Some(regs)
    else if fuel == 0 then None
    else
      match DecodeAt(b, p)
      case Step(i, next) => Run(b, load, next, end, Execute(i, load + next, regs), fuel - 1)
      case Unknown => None
  }

  // ---------- The table's code ----------

  function RexSize(reg: nat): nat {
    if reg >= 4 then 1 else 0
  }

  // Where the six instructions start.
  function StartOf(o: nat, reg: nat, k: nat): nat {
    if k == 0 then o
    else if k == 1 then o + 3
    else if k == 2 then o + 13
    else if k == 3 then o + 16
    else if k == 4 then o + 19 + RexSize(reg)
    else if k == 5 then o + 26 + RexSize(reg)
    else o + LutSize(reg)
  }

  // The immediate that the table is packed into.
  function PaddedTo8(packed: seq<u8>): (s: seq<u8>)
    requires |packed| <= 8
    ensures |s| == 8
  {
    packed + seq(8 - |packed|, _ => 0)
  }

  // Bytes that stand somewhere decide how they decode.
  lemma ShlDecodes(b: seq<u8>, p: nat)
    requires StandsAt(b, p, [0xc1, 0xe1, 0x03])
    ensures DecodeAt(b, p) == Step(ShlImm(CX, 3), p + 3)
  {
    var s := [0xc1, 0xe1, 0x03];
    ByteOf(b, p, s, 0);
    ByteOf(b, p, s, 1);
    ByteOf(b, p, s, 2);
  }

  lemma MovDecodes(b: seq<u8>, p: nat, hi: nat, lo: nat, imm: seq<u8>)
    requires hi <= 1 && lo < 8 && |imm| == 8 && StandsAt(b, p, [0x48 + hi, 0xb8 + lo] + imm)
    ensures DecodeAt(b, p) == Step(MovImm(lo + 8 * hi, Value(imm)), p + 10)
  {
    var s := [0x48 + hi, 0xb8 + lo] + imm;
    ByteOf(b, p, s, 0);
    ByteOf(b, p, s, 1);
    assert s[2..10] == imm;
    Within(b, p, s, 2, imm);
  }

  lemma ShrDecodes(b: seq<u8>, p: nat, hi: nat, lo: nat)
    requires hi <= 1 && lo < 8 && StandsAt(b, p, [0x48 + hi, 0xd3, 0xe8 + lo])
    ensures DecodeAt(b, p) == Step(ShrCl(lo + 8 * hi), p + 3)
  {
    var s := [0x48 + hi, 0xd3, 0xe8 + lo];
    ByteOf(b, p, s, 0);
    ByteOf(b, p, s, 1);
    ByteOf(b, p, s, 2);
  }

  lemma MovzxDecodes(b: seq<u8>, p: nat, hi: nat, lo: nat)
    requires hi <= 1 && lo < 8
    requires StandsAt(b, p, (if hi == 1 || lo >= 4 then [0x40 + hi] else []) + [0x0f, 0xb6, 0xc8 + lo])
    ensures DecodeAt(b, p) == Step(Movzx(CX, lo + 8 * hi), p + if hi == 1 || lo >= 4 then 4 else 3)
  {
    var s := (if hi == 1 || lo >= 4 then [0x40 + hi] else []) + [0x0f, 0xb6, 0xc8 + lo];
    ByteOf(b, p, s, 0);
    ByteOf(b, p, s, 1);
    ByteOf(b, p, s, 2);
    if hi == 1 || lo >= 4 {
      ByteOf(b, p, s, 3);
    }
  }

  lemma LeaRipDecodes(b: seq<u8>, p: nat, hi: nat, lo: nat, w: u32)
    requires hi <= 1 && lo < 8 && StandsAt(b, p, [0x48 + 4 * hi, 0x8d, 0x05 + 8 * lo] + Le32(w))
    ensures DecodeAt(b, p) == Step(LeaRip(lo + 8 * hi, Signed32(w)), p + 7)
  {
    hide Le32, Field32;
    var s := [0x48 + 4 * hi, 0x8d, 0x05 + 8 * lo] + Le32(w);
    ByteOf(b, p, s, 0);
    ByteOf(b, p, s, 1);
    ByteOf(b, p, s, 2);
    assert s[3..7] == Le32(w);
    FieldOf(b, p, s, 3, w);
  }

  lemma LeaSibDecodes(b: seq<u8>, p: nat, hi: nat, lo: nat, shift: nat)
    requires hi <= 1 && lo < 8 && shift <= 3
    requires StandsAt(b, p, [0x48 + 5 * hi, 0x8d, 0x04 + 8 * lo + (if lo == 5 then 0x40 else 0),
                             0x08 + lo + 0x40 * shift] +
                            (if lo == 5 then [0] else []))
    ensures DecodeAt(b, p) == Step(LeaSib(lo + 8 * hi, lo + 8 * hi, CX, shift, 0), p + if lo == 5 then 5 else 4)
  {
    if lo == 5 {
      var s := [0x48 + 5 * hi, 0x8d, 0x6c, 0x0d + 0x40 * shift] + [0];
      LeaSibBytes(b, p, s);
      ByteOf(b, p, s, 4);
    } else {
      var s := [0x48 + 5 * hi, 0x8d, 0x04 + 8 * lo, 0x08 + lo + 0x40 * shift] + [];
      LeaSibBytes(b, p, s);
      LeaSibPlain(b, p, hi, lo, shift);
    }
  }

  lemma LeaSibBytes(b: seq<u8>, p: nat, s: seq<u8>)
    requires |s| >= 4 && StandsAt(b, p, s)
    ensures p + |s| <= |b| && b[p] == s[0] && b[p + 1] == s[1] && b[p + 2] == s[2] && b[p + 3] == s[3]
  {
    ByteOf(b, p, s, 0);
    ByteOf(b, p, s, 1);
    ByteOf(b, p, s, 2);
    ByteOf(b, p, s, 3);
  }

  lemma LeaSibPlain(b: seq<u8>, p: nat, hi: nat, lo: nat, shift: nat)
    requires hi <= 1 && lo < 8 && lo != 5 && shift <= 3 && p + 4 <= |b|
    requires b[p] == 0x48 + 5 * hi && b[p + 1] == 0x8d && b[p + 2] == 0x04 + 8 * lo
             && b[p + 3] == 0x08 + lo + 0x40 * shift
    ensures DecodeAt(b, p) == Step(LeaSib(lo + 8 * hi, lo + 8 * hi, CX, shift, 0), p + 4)
  {
    var modrm, sib := b[p + 2], b[p + 3];
    assert modrm < 0x40 && modrm % 8 == 4 && modrm / 8 == lo;
    assert sib % 8 == lo && sib / 8 % 8 == 1 && sib / 0x40 == shift;
    assert b[p] >= 0x48 && b[p] / 4 % 2 == hi && b[p] / 2 % 2 == 0 && b[p] % 2 == hi;
  }

  // The six instructions, one behind the other.
  ghost predicate DecodesTo(b: seq<u8>, o: nat, reg: nat, packed: seq<u8>, base: nat, shift: nat)
    requires |packed| <= 8
  {
    && DecodeAt(b, o) == Step(ShlImm(CX, 3), StartOf(o, reg, 1))
    && DecodeAt(b, StartOf(o, reg, 1)) == Step(MovImm(reg, Value(PaddedTo8(packed))), StartOf(o, reg, 2))
    && DecodeAt(b, StartOf(o, reg, 2)) == Step(ShrCl(reg), StartOf(o, reg, 3))
    && DecodeAt(b, StartOf(o, reg, 3)) == Step(Movzx(CX, reg), StartOf(o, reg, 4))
    && DecodeAt(b, StartOf(o, reg, 4)) == Step(LeaRip(reg, Signed32(Sub32(base, StartOf(o, reg, 5)))),
                                               StartOf(o, reg, 5))
    && DecodeAt(b, StartOf(o, reg, 5)) == Step(LeaSib(reg, reg, CX, shift, 0), StartOf(o, reg, 6))
  }

  lemma LutDecodes(b: seq<u8>, o: nat, reg: nat, packed: seq<u8>, base: nat, shift: nat)
    requires reg < 16 && |packed| <= 8 && shift <= 3 && StandsAt(b, o, LutBytes(reg, packed, base, shift, o))
    ensures DecodesTo(b, o, reg, packed, base, shift)
  {
    hide DecodeAt, Value, Le32, StandsAt, MovBytes, MovzxBytes, LeaBaseBytes, LeaSumBytes;
    var hi, lo := reg / 8, reg % 8;
    LutPiecesStand(b, o, reg, packed, base, shift);
    PieceSizes(reg, base, o, shift);
    PieceForms(reg, packed, base, o, shift);
    ShlDecodes(b, o);
    MovDecodes(b, StartOf(o, reg, 1), hi, lo, PaddedTo8(packed));
    ShrDecodes(b, StartOf(o, reg, 2), hi, lo);
    MovzxDecodes(b, StartOf(o, reg, 3), hi, lo);
    LeaRipDecodes(b, StartOf(o, reg, 4), hi, lo, Sub32(base, StartOf(o, reg, 5)));
    LeaSibDecodes(b, StartOf(o, reg, 5), hi, lo, shift);
  }

  lemma PieceSizes(reg: nat, base: nat, o: nat, shift: nat)
    requires reg < 16 && shift <= 3
    ensures |MovzxBytes(reg)| == 3 + RexSize(reg) && |LeaBaseBytes(reg, base, o + 26 + RexSize(reg))| == 7
    ensures |LeaSumBytes(reg, shift)| == LutSize(reg) - 26 - RexSize(reg)
  {
  }

  lemma PieceForms(reg: nat, packed: seq<u8>, base: nat, o: nat, shift: nat)
    requires reg < 16 && |packed| <= 8 && shift <= 3
    ensures var hi, lo := reg / 8, reg % 8;
            && MovBytes(reg, packed) == [0x48 + hi, 0xb8 + lo] + PaddedTo8(packed)
            && MovzxBytes(reg) == (if hi == 1 || lo >= 4 then [0x40 + hi] else []) + [0x0f, 0xb6, 0xc8 + lo]
            && LeaBaseBytes(reg, base, StartOf(o, reg, 5)) ==
               [0x48 + 4 * hi, 0x8d, 0x05 + 8 * lo] + Le32(Sub32(base, StartOf(o, reg, 5)))
            && LeaSumBytes(reg, shift) ==
               [0x48 + 5 * hi, 0x8d, 0x04 + 8 * lo + (if lo == 5 then 0x40 else 0), 0x08 + lo + 0x40 * shift] +
                   (if lo == 5 then [0] else [])
  {
    hide Le32, Sub32;
  }

  lemma LutPiecesStand(b: seq<u8>, o: nat, reg: nat, packed: seq<u8>, base: nat, shift: nat)
    requires reg < 16 && |packed| <= 8 && shift <= 3 && StandsAt(b, o, LutBytes(reg, packed, base, shift, o))
    ensures StandsAt(b, o, ShlBytes()) && StandsAt(b, StartOf(o, reg, 1), MovBytes(reg, packed))
    ensures StandsAt(b, StartOf(o, reg, 2), ShrBytes(reg)) && StandsAt(b, StartOf(o, reg, 3), MovzxBytes(reg))
    ensures StandsAt(b, StartOf(o, reg, 4), LeaBaseBytes(reg, base, StartOf(o, reg, 5)))
    ensures StandsAt(b, StartOf(o, reg, 5), LeaSumBytes(reg, shift))
  {
    hide StandsAt, MovBytes, MovzxBytes, LeaBaseBytes, LeaSumBytes;
    PieceSizes(reg, base, o, shift);
    var s1, s2, s3, s4, s5, s6 := ShlBytes(), MovBytes(reg, packed), ShrBytes(reg), MovzxBytes(reg),
                                  LeaBaseBytes(reg, base, StartOf(o, reg, 5)), LeaSumBytes(reg, shift);
    FrontStands(b, o, s1 + s2 + s3 + s4 + s5, s6);
    FrontStands(b, o, s1 + s2 + s3 + s4, s5);
    FrontStands(b, o, s1 + s2 + s3, s4);
    FrontStands(b, o, s1 + s2, s3);
    FrontStands(b, o, s1, s2);
  }

  lemma FrontStands(b: seq<u8>, o: nat, s: seq<u8>, t: seq<u8>)
    requires StandsAt(b, o, s + t)
    ensures StandsAt(b, o, s) && StandsAt(b, o + |s|, t)
  {
    assert (s + t)[..|s|] == s && (s + t)[|s|..] == t;
    Within(b, o, s + t, 0, s);
    Within(b, o, s + t, |s|, t);
  }

  // ---------- Bytes of a word ----------

  lemma Pow2Eight(n: nat)
    ensures Pow2(n + 8) == 0x100 * Pow2(n)
  {
    assert Pow2(n + 2) == 4 * Pow2(n);
    assert Pow2(n + 4) == 4 * Pow2(n + 2);
    assert Pow2(n + 6) == 4 * Pow2(n + 4);
  }

  lemma {:induction false} ValueBound(s: seq<u8>)
    ensures Value(s) < Pow2(8 * |s|)
  {
    if |s| > 0 {
      ValueBound(s[1..]);
      Pow2Eight(8 * (|s| - 1));
    }
  }

  lemma DivTwice(x: nat, p: nat)
    requires p > 0
    ensures x / (0x100 * p) == (x / 0x100) / p
  {
    var y := x / 0x100;
    var q, r := y / p, y % p;
    assert y == q * p + r;
    assert 0x100 * (q * p) == q * (0x100 * p);
    QuotientIs(x, 0x100 * p, q, 0x100 * r + x % 0x100);
  }

  // Shifting right by eight times `j` brings byte `j` to the bottom.
  lemma {:induction false} ValueByte(s: seq<u8>, j: nat)
    requires j < |s|
    ensures Value(s) / Pow2(8 * j) % 0x100 == s[j]
  {
    hide Pow2;
    if j == 0 {
      Pow2OfNothing();
    } else {
      ValueByte(s[1..], j - 1);
      Pow2Eight(8 * (j - 1));
      DivTwice(Value(s), Pow2(8 * (j - 1)));
      assert Value(s) / 0x100 == Value(s[1..]);
    }
  }

  lemma Pow2OfNothing()
    ensures Pow2(0) == 1
  {
  }

  lemma Pow2Of3()
    ensures Pow2(3) == 8
  {
    assert Pow2(1) == 2;
  }

  lemma ValueOf8(s: seq<u8>)
    requires |s| == 8
    ensures Value(s) < TWO_64
  {
    hide Pow2;
    ValueBound(s);
    Pow2OfNothing();
    Pow2Eight(0);
    Pow2Eight(8);
    Pow2Eight(16);
    Pow2Eight(24);
    Pow2Eight(32);
    Pow2Eight(40);
    Pow2Eight(48);
    Pow2Eight(56);
  }

  // ---------- Running the code ----------

  // The registers after the first `n` instructions.
  function RegsAfter(load: u64, o: nat, reg: nat, packed: seq<u8>, base: nat, shift: nat, regs: Regs, n: nat): Regs
    requires |packed| <= 8 && n <= 6
  {
    if n == 0 then regs
    else
      var was := RegsAfter(load, o, reg, packed, base, shift, regs, n - 1);
      var next := load + StartOf(o, reg, n);
      if n == 1 then Execute(ShlImm(CX, 3), next, was)
      else if n == 2 then Execute(MovImm(reg, Value(PaddedTo8(packed))), next, was)
      else if n == 3 then Execute(ShrCl(reg), next, was)
      else if n == 4 then Execute(Movzx(CX, reg), next, was)
      else if n == 5 then Execute(LeaRip(reg, Signed32(Sub32(base, StartOf(o, reg, 5)))), next, was)
      else Execute(LeaSib(reg, reg, CX, shift, 0), next, was)
  }

  lemma {:induction false} RunFrom(b: seq<u8>, load: u64, o: nat, reg: nat, packed: seq<u8>, base: nat, shift: nat,
                                   regs: Regs, n: nat)
    requires |packed| <= 8 && n <= 6 && DecodesTo(b, o, reg, packed, base, shift)
    ensures Run(b, load, StartOf(o, reg, n), StartOf(o, reg, 6), RegsAfter(load, o, reg, packed, base, shift, regs, n),
                6 - n) ==
            Some(RegsAfter(load, o, reg, packed, base, shift, regs, 6))
    decreases 6 - n
  {
    hide DecodeAt, Execute, Value;
    if n < 6 {
      RunFrom(b, load, o, reg, packed, base, shift, regs, n + 1);
    }
  }

  lemma ShlMeans(regs: Regs, next: int, j: nat)
    requires regs[CX] % TWO_32 == j < 8
    ensures Execute(ShlImm(CX, 3), next, regs) == regs[CX := 8 * j]
  {
    Pow2Of3();
  }

  lemma MovMeans(regs: Regs, next: int, reg: nat, w: u64)
    requires reg < 16
    ensures Execute(MovImm(reg, w), next, regs) == regs[reg := w]
  {
  }

  lemma ShrMeans(regs: Regs, next: int, reg: nat, c: nat)
    requires reg < 16 && regs[CX] == c && c < 0x40
    ensures Execute(ShrCl(reg), next, regs) == regs[reg := ShiftRight(regs[reg], c)]
  {
    hide Put, ShiftRight;
    PutSmall(regs, reg, ShiftRight(regs[reg], c));
  }

  lemma PutSmall(regs: Regs, reg: nat, w: u64)
    requires reg < 16
    ensures Put(regs, reg, w) == regs[reg := w]
  {
  }

  lemma MovzxMeans(regs: Regs, next: int, reg: nat)
    requires reg < 16
    ensures Execute(Movzx(CX, reg), next, regs) == regs[CX := regs[reg] % 0x100]
  {
  }

  lemma LeaRipMeans(regs: Regs, load: u64, reg: nat, base: nat, next: nat)
    requires reg < 16 && base < 0x8000_0000 && next < 0x8000_0000
    ensures Execute(LeaRip(reg, Signed32(Sub32(base, next))), load + next, regs) == regs[reg := (load + base) % TWO_64]
  {
    hide Sub32, Signed32;
    Displacement32(base, next);
  }

  lemma LeaSibMeans(regs: Regs, next: int, reg: nat, shift: nat, address: int)
    requires reg < 16 && shift <= 3 && regs[reg] == address % TWO_64
    ensures Execute(LeaSib(reg, reg, CX, shift, 0), next, regs) ==
            regs[reg := (address + regs[CX] * Scale(shift)) % TWO_64]
  {
    WrappedSum(address, regs[CX] * Scale(shift));
  }

  lemma AfterSteps(load: u64, o: nat, reg: nat, packed: seq<u8>, base: nat, shift: nat, regs: Regs)
    requires |packed| <= 8
    ensures RegsAfter(load, o, reg, packed, base, shift, regs, 6) ==
            Execute(LeaSib(reg, reg, CX, shift, 0), load + StartOf(o, reg, 6),
              Execute(LeaRip(reg, Signed32(Sub32(base, StartOf(o, reg, 5)))), load + StartOf(o, reg, 5),
                Execute(Movzx(CX, reg), load + StartOf(o, reg, 4),
                  Execute(ShrCl(reg), load + StartOf(o, reg, 3),
                    Execute(MovImm(reg, Value(PaddedTo8(packed))), load + StartOf(o, reg, 2),
                      Execute(ShlImm(CX, 3), load + StartOf(o, reg, 1), regs))))))
  {
    hide Execute, StartOf, Sub32, Signed32, Value;
    var r1, r2 := RegsAfter(load, o, reg, packed, base, shift, regs, 1),
        RegsAfter(load, o, reg, packed, base, shift, regs, 2);
    var r3, r4 := RegsAfter(load, o, reg, packed, base, shift, regs, 3),
        RegsAfter(load, o, reg, packed, base, shift, regs, 4);
    var r5 := RegsAfter(load, o, reg, packed, base, shift, regs, 5);
    assert RegsAfter(load, o, reg, packed, base, shift, regs, 0) == regs;
    assert r1 == Execute(ShlImm(CX, 3), load + StartOf(o, reg, 1), regs);
    assert r2 == Execute(MovImm(reg, Value(PaddedTo8(packed))), load + StartOf(o, reg, 2), r1);
    assert r3 == Execute(ShrCl(reg), load + StartOf(o, reg, 3), r2);
    assert r4 == Execute(Movzx(CX, reg), load + StartOf(o, reg, 4), r3);
    assert r5 == Execute(LeaRip(reg, Signed32(Sub32(base, StartOf(o, reg, 5)))), load + StartOf(o, reg, 5), r4);
  }

  // With any other destination than rcx, the label's address ends up in it.
  lemma RegsAtEnd(load: u64, o: nat, reg: nat, packed: seq<u8>, base: nat, shift: nat, regs: Regs, j: nat)
    requires reg < 16 && reg != CX && |packed| <= 8 && shift <= 3 && base < 0x8000_0000 && o + 30 < 0x8000_0000
    requires regs[CX] % TWO_32 == j < |packed|
    ensures RegsAfter(load, o, reg, packed, base, shift, regs, 6) ==
            regs[CX := packed[j]][reg := (load + base + packed[j] * Scale(shift)) % TWO_64]
  {
    hide Value, Pow2, StartOf, Sub32, Signed32, Execute, RegsAfter, Scale;
    var v := Value(PaddedTo8(packed));
    AfterSteps(load, o, reg, packed, base, shift, regs);
    ValueOf8(PaddedTo8(packed));
    ValueByte(PaddedTo8(packed), j);
    LeaEnd(o, reg);
    ShlMeans(regs, load + StartOf(o, reg, 1), j);
    var r1 := regs[CX := 8 * j];
    MovMeans(r1, load + StartOf(o, reg, 2), reg, v);
    var r2 := r1[reg := v];
    ShrMeans(r2, load + StartOf(o, reg, 3), reg, 8 * j);
    var r3 := r2[reg := ShiftRight(v, 8 * j)];
    MovzxMeans(r3, load + StartOf(o, reg, 4), reg);
    var r4 := r3[CX := packed[j]];
    LeaRipMeans(r4, load, reg, base, StartOf(o, reg, 5));
    var r5 := r4[reg := (load + base) % TWO_64];
    LeaSibMeans(r5, load + StartOf(o, reg, 6), reg, shift, load + base);
  }

  lemma LeaEnd(o: nat, reg: nat)
    requires o + 30 < 0x8000_0000
    ensures StartOf(o, reg, 5) < 0x8000_0000
  {
  }

  lemma SmallQuotient(v: nat, p: nat)
    requires p > 0
    ensures 0 <= v / p <= v
  {
    var q, r := v / p, v % p;
    assert v == q * p + r;
    ProductGrows(q, p);
  }

  lemma {:induction false} ProductGrows(q: nat, p: nat)
    requires p > 0
    ensures q <= q * p
  {
    if q > 0 {
      ProductGrows(q - 1, p);
      assert q * p == (q - 1) * p + p;
    }
  }

  lemma WrappedSum(a: int, b: int)
    ensures (a % TWO_64 + b) % TWO_64 == (a + b) % TWO_64
  {
  }

  // With rcx itself, the address is added to a multiple of itself.
  lemma RegsAtEndOfRcx(load: u64, o: nat, packed: seq<u8>, base: nat, shift: nat, regs: Regs)
    requires |packed| <= 8 && shift <= 3 && base < 0x8000_0000 && o + 30 < 0x8000_0000
    ensures RegsAfter(load, o, CX, packed, base, shift, regs, 6)[CX] ==
            ((load + base) % TWO_64 + (load + base) % TWO_64 * Scale(shift)) % TWO_64
  {
    hide Value, Pow2, StartOf, Sub32, Signed32;
    LeaEnd(o, CX);
    Displacement32(base, StartOf(o, CX, 5));
    var r4 := RegsAfter(load, o, CX, packed, base, shift, regs, 4);
    assert RegsAfter(load, o, CX, packed, base, shift, regs, 5) == r4[CX := (load + base) % TWO_64];
  }

  // ---------- The look-up ----------

  // Wherever the code is loaded, running it with the number of a label in ecx leaves the label's
  // address in the register.
  ghost predicate LooksUp(b: seq<u8>, o: nat, reg: nat, at: seq<nat>) {
    forall load: u64, regs: Regs, j: nat :: j < |at| && regs[CX] % TWO_32 == j ==> LeadsTo(b, load, o, reg, regs, at[j])
  }

  ghost predicate LeadsTo(b: seq<u8>, load: u64, o: nat, reg: nat, regs: Regs, target: nat) {
    var r := Run(b, load, o, o + LutSize(reg), regs, 6);
    r.Some? && Get(r.value, reg) == (load + target) % TWO_64
  }

  // The table's code looks labels up for every destination but rcx, and for rcx never.
  lemma LooksUpExactly(b: seq<u8>, o: nat, reg: nat, at: seq<nat>, shift: nat)
    requires reg < 16 && 0 < |at| <= 8 && o + 30 < 0x8000_0000 && forall j :: 0 <= j < |at| ==> at[j] < 0x8000_0000
    requires shift <= 3 && Packs(Deltas(at), shift)
    requires StandsAt(b, o, LutBytes(reg, Packed(Deltas(at), shift), MinOf(at), shift, o))
    ensures LooksUp(b, o, reg, at) <==> reg != CX
  {
    hide Run, LutBytes, Packed, Deltas, Packs, MinOf, RegsAfter, DecodesTo, StandsAt;
    var packed, base := Packed(Deltas(at), shift), MinOf(at);
    LutDecodes(b, o, reg, packed, base, shift);
    MinIsLow(at);
    if reg != CX {
      forall load: u64, regs: Regs, j: nat | j < |at| && regs[CX] % TWO_32 == j
        ensures LeadsTo(b, load, o, reg, regs, at[j])
      {
        RunWhole(b, load, o, reg, packed, base, shift, regs);
        RegsAtEnd(load, o, reg, packed, base, shift, regs, j);
        PackedDelta(at, shift, j);
      }
    } else if LooksUp(b, o, reg, at) {
      var regs: Regs := seq(16, _ => 0);
      assert LeadsTo(b, 0, o, reg, regs, at[0]) && LeadsTo(b, 1, o, reg, regs, at[0]);
      RunWhole(b, 0, o, reg, packed, base, shift, regs);
      RunWhole(b, 1, o, reg, packed, base, shift, regs);
      RegsAtEndOfRcx(0, o, packed, base, shift, regs);
      RegsAtEndOfRcx(1, o, packed, base, shift, regs);
      NoTwoLoads(base, Scale(shift), at[0]);
    }
  }

  lemma NoTwoLoads(base: nat, scale: nat, target: nat)
    requires base < 0x8000_0000 && target < 0x8000_0000 && scale in {1, 2, 4, 8}
    requires (base % TWO_64 + base % TWO_64 * scale) % TWO_64 == target % TWO_64
    ensures ((1 + base) % TWO_64 + (1 + base) % TWO_64 * scale) % TWO_64 != (1 + target) % TWO_64
  {
    var a, c := base + base * scale, (1 + base) + (1 + base) * scale;
    assert a == target by {
      SmallMod(base);
      SmallMod(target);
      SmallMod(a);
    }
    SmallMod(1 + base);
    SmallMod(1 + target);
    SmallMod(c);
  }

  lemma SmallMod(a: nat)
    requires a < TWO_64
    ensures a % TWO_64 == a
  {
  }

  lemma RunWhole(b: seq<u8>, load: u64, o: nat, reg: nat, packed: seq<u8>, base: nat, shift: nat, regs: Regs)
    requires |packed| <= 8 && DecodesTo(b, o, reg, packed, base, shift)
    ensures Run(b, load, o, o + LutSize(reg), regs, 6) == Some(RegsAfter(load, o, reg, packed, base, shift, regs, 6))
  {
    hide Run, DecodesTo;
    RunFrom(b, load, o, reg, packed, base, shift, regs, 0);
  }

  lemma MinIsLow(at: seq<nat>)
    requires |at| > 0 && forall j :: 0 <= j < |at| ==> at[j] < 0x8000_0000
    ensures MinOf(at) < 0x8000_0000
  {
    assert MinOf(at) <= at[0];
  }

  lemma PackedDelta(at: seq<nat>, shift: nat, j: nat)
    requires j < |at| && shift <= 3 && Packs(Deltas(at), shift)
    ensures MinOf(at) + Packed(Deltas(at), shift)[j] * Scale(shift) == at[j]
  {
    PackedEntry(Deltas(at), shift, j);
  }

  // The same of a table in the output of the assembler.
  ghost predicate TableRuns(fn: Fn, p: seq<nat>, i: nat, b: seq<u8>)
    requires i < |fn.sites| && |p| == |fn.sites| + 1
  {
    fn.sites[i].reloc.LabelLut? && |fn.sites[i].reloc.names| > 0 ==>
      && LutNamesKnown(fn, i)
      && (LooksUp(b, p[i] + |fn.sites[i].code|, fn.sites[i].reloc.reg,
                  LabelPositions(fn, p, fn.sites[i].reloc.names)) <==>
          fn.sites[i].reloc.reg != CX)
  }

  lemma SiteTableRuns(fn: Fn, p: seq<nat>, i: nat, b: seq<u8>)
    requires Stable(fn, p) && i < |fn.sites| && LutEncodable(fn, p, i)
    requires StandsAt(b, p[i], SiteBytes(fn, p, i))
    ensures TableRuns(fn, p, i, b)
  {
    hide LutBytes, Packed, SiteBytes, Stable, Deltas, MinOf, LooksUp, StandsAt;
    StableFacts(fn, p);
    if fn.sites[i].reloc.LabelLut? && |fn.sites[i].reloc.names| > 0 {
      LutSite(fn, p, i);
      var Site(code, LabelLut(reg, names)) := fn.sites[i];
      var at := LabelPositions(fn, p, names);
      var shift := LutShift(Deltas(at)).value;
      TailStandsAt(b, p[i], code, LutBytes(reg, Packed(Deltas(at), shift), MinOf(at), shift, p[i] + |code|));
      LooksUpExactly(b, p[i] + |code|, reg, at, shift);
    }
  }
}
