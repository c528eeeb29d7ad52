// Encoding of the immediates of A64 logical instructions: rotated runs of ones, replicated over
// elements of 2 to 64 bits. Words are sequences of 64 bits, the lowest first.
module LogicalImmediate {
  import opened Words

  type Bits = seq<bool>

  // ---------- Operations on words ----------

  // `n + 1`, by carrying through the low ones.
  function Inc(n: Bits): (r: Bits)
    ensures |r| == |n|
  {
    if n == [] then [] else if n[0] then [false] + Inc(n[1..]) else [true] + n[1..]
  }

  function And(a: Bits, b: Bits): (r: Bits)
    requires |a| == |b|
    ensures |r| == |a| && forall i :: 0 <= i < |r| ==> r[i] == (a[i] && b[i])
  {
    seq(|a|, i requires 0 <= i < |a| => a[i] && b[i])
  }

  function Not(a: Bits): (r: Bits)
    ensures |r| == |a| && forall i :: 0 <= i < |r| ==> r[i] == !a[i]
  {
    seq(|a|, i requires 0 <= i < |a| => !a[i])
  }

  function Ror(n: Bits, k: nat): (r: Bits)
    requires |n| == 64
    ensures |r| == 64
  {
    seq(64, i requires 0 <= i < 64 => n[(i + k) % 64])
  }

  lemma RorAt(n: Bits, k: nat, i: nat)
    requires |n| == 64 && i < 64
    ensures Ror(n, k)[i] == n[(i + k) % 64]
  {
  }

  predicate IsZero(n: Bits) {
    forall i :: 0 <= i < |n| ==> !n[i]
  }

  // The number of zeros below the lowest one, and above the highest one.
  function Ctz(n: Bits): (k: nat)
    ensures k <= |n| && (forall i :: 0 <= i < k ==> !n[i]) && (k < |n| ==> n[k])
  {
    if n == [] || n[0] then 0 else 1 + Ctz(n[1..])
  }

  function Clz(n: Bits): (k: nat)
    ensures k <= |n| && (forall i :: |n| - k <= i < |n| ==> !n[i]) && (k < |n| ==> n[|n| - 1 - k])
  {
    if n == [] || n[|n| - 1] then 0 else 1 + Clz(n[..|n| - 1])
  }

  // A 32-bit operand is looked at as if it stood in both halves.
  function Doubled(n: Bits): (r: Bits)
    requires |n| == 64
    ensures |r| == 64 && forall i :: 0 <= i < 64 ==> r[i] == n[i % 32]
  {
    n[..32] + n[..32]
  }

  // ---------- Encoding ----------

  // How far to rotate so that a run of ones starts at bit 0 and a zero is at the top.
  function Rotation(n: Bits): (rot: nat)
    requires |n| == 64
    ensures rot <= 64
  {
    var t := And(n, Inc(n));
    if IsZero(t) then 64 else Ctz(t)
  }

  // The number of ones at the bottom and of zeros at the top.
  function RunSize(n: Bits): nat {
    Clz(n) + Ctz(Not(n))
  }

  // The fields as the instruction word has them. As `size` is a power of two here, the source's
  // masks are remainders, and its disjunctions and exclusive ors of disjoint fields are sums.
  function Packed(size: nat, ones: nat, rot: nat): (value: u32)
    requires size > 0
  {
    var immr, imms := (-(rot as int)) % size, ((-(2 * size as int)) % 64 + ones - 1) % 64;
    0x1800_0000 + (immr % 64 + (if size == 64 then 64 else 0)) * 0x1_0000 + imms * 0x400
  }

  // The instruction word's contribution; 0 if there is none.
  function Encode(n0: Bits, is64: bool): (value: u32)
    requires |n0| == 64
  {
    var n := if is64 then n0 else Doubled(n0);
    if IsZero(Inc(n)[1..]) then 0
    else
      var rot := Rotation(n);
      var m := Ror(n, rot % 64);
      var ones := Ctz(Not(m));
      var size := Clz(m) + ones;
      if Ror(m, size % 64) != m then 0
      else
        EncodeIsDefined(n);
        Packed(size, ones, rot)
  }

  // ---------- Decoding ----------

  function FloorLog2(x: nat): nat {
    if x <= 1 then 0 else 1 + FloorLog2(x / 2)
  }

  // Bit `i` of a run of ones, rotated right in an element of `size` bits and replicated.
  predicate PatternBit(size: nat, ones: nat, r: nat, i: nat)
    requires size > 0
  {
    (i + r) % size < ones
  }

  // The immediate as the architecture reads it from the fields `N`, `immr` and `imms`.
  function DecodeBit(value: u32, i: nat): bool {
    var nBit, immr, imms := (value / 0x40_0000) % 2, (value / 0x1_0000) % 64, (value / 0x400) % 64;
    var size := Pow2(FloorLog2(64 * nBit + (63 - imms)));
    PatternBit(size, imms % size + 1, immr % size, i)
  }

  ghost predicate Decodes(value: u32, n: Bits) {
    forall i :: 0 <= i < |n| ==> n[i] == DecodeBit(value, i)
  }

  // ---------- Which words can be encoded ----------

  predicate ElementSize(size: nat) {
    size == 2 || size == 4 || size == 8 || size == 16 || size == 32 || size == 64
  }

  ghost predicate IsPattern(n: Bits, size: nat, ones: nat, r: nat) {
    && ElementSize(size) && 0 < ones < size
    && forall i :: 0 <= i < |n| ==> n[i] == PatternBit(size, ones, r, i)
  }

  ghost predicate IsLogical(n: Bits) {
    exists size, ones, r :: IsPattern(n, size, ones, r)
  }

  // ---------- Rotating a run to the bottom ----------

  lemma {:induction false} IncBits(n: Bits)
    ensures var k := Ctz(Not(n));
            forall i :: 0 <= i < |n| ==> Inc(n)[i] == if i < k then false else if i == k then true else n[i]
  {
    if n != [] && n[0] {
      IncBits(n[1..]);
      assert Not(n)[1..] == Not(n[1..]);
    }
  }

  ghost predicate Mixed(n: Bits) {
    |n| == 64 && exists i :: 0 <= i < 64 && n[i] != n[0]
  }

  // Some bit is zero; `k` is the first one.
  lemma FirstZero(n: Bits) returns (k: nat)
    requires Mixed(n)
    ensures k == Ctz(Not(n)) < 64 && !n[k] && forall i :: 0 <= i < k ==> n[i]
  {
    k := Ctz(Not(n));
    var i :| 0 <= i < 64 && n[i] != n[0];
    assert Not(n)[i] || Not(n)[0];
    forall j | 0 <= j < k
      ensures n[j]
    {
      assert !Not(n)[j];
    }
  }

  // The guard refuses exactly the words that are all zeros or all ones.
  lemma GuardMeans(n: Bits)
    requires |n| == 64
    ensures IsZero(Inc(n)[1..]) <==> !Mixed(n)
  {
    IncBits(n);
    if Mixed(n) {
      var k := FirstZero(n);
      var i := OtherBit(n);
      var j := if k > 0 then k else i;
      assert Inc(n)[1..][j - 1] == Inc(n)[j];
    } else {
      UniformIncs(n);
    }
  }

  lemma OtherBit(n: Bits) returns (i: nat)
    requires Mixed(n)
    ensures 0 < i < 64 && n[i] != n[0]
  {
    i :| 0 <= i < 64 && n[i] != n[0];
  }

  lemma UniformIncs(n: Bits)
    requires |n| == 64 && !Mixed(n)
    ensures IsZero(Inc(n)[1..])
  {
    IncBits(n);
    var k := Ctz(Not(n));
    assert forall i :: 0 <= i < 64 ==> Not(n)[i] == !n[0];
    forall j | 0 <= j < 63
      ensures !Inc(n)[1..][j]
    {
      assert Inc(n)[1..][j] == Inc(n)[j + 1];
      assert n[j + 1] == n[0];
    }
  }

  // `n & (n + 1)` drops the ones at the bottom.
  lemma BottomDropped(n: Bits, k: nat)
    requires |n| == 64 && k == Ctz(Not(n)) < 64 && !n[k] && forall i :: 0 <= i < k ==> n[i]
    ensures forall i :: 0 <= i < 64 ==> And(n, Inc(n))[i] == (i > k && n[i])
  {
    hide Inc, Not, Ctz;
    IncBits(n);
  }

  // After the rotation, bit 0 is one and the top bit is zero.
  lemma RotationMeans(n: Bits)
    requires |n| == 64 && Mixed(n)
    ensures n[Rotation(n) % 64] && !n[(63 + Rotation(n)) % 64]
    ensures Rotation(n) > 0
  {
    hide Inc, And, Not, Ctz, Mixed, IsZero;
    var k := FirstZero(n);
    var i := OtherBit(n);
    var t := And(n, Inc(n));
    BottomDropped(n, k);
    ZeroMeans(t);
    if IsZero(t) {
      assert !t[63] && !t[i];
    } else {
      var rot := Ctz(t);
      assert t[rot];
      assert rot - 1 > k ==> !t[rot - 1];
      QuotientIs(63 + rot, 64, 1, rot - 1);
    }
  }

  lemma ZeroMeans(t: Bits)
    ensures IsZero(t) <==> forall i :: 0 <= i < |t| ==> !t[i]
    ensures IsZero(t) <==> Ctz(t) == |t|
  {
  }

  // ---------- Periods ----------

  predicate Repeats(n: Bits, s: int, i: int)
    requires |n| == 64
  {
    n[(i + s) % 64] == n[i % 64]
  }

  // Rotating by `s` changes nothing.
  ghost predicate Period(n: Bits, s: int) {
    |n| == 64 && forall i: int :: Repeats(n, s, i)
  }

  lemma ModAdds(a: int, b: int)
    ensures (a % 64 + b % 64) % 64 == (a + b) % 64 && (a % 64 + b) % 64 == (a + b) % 64
  {
  }

  lemma RorRepeats(n: Bits, s: nat, i: int)
    requires |n| == 64
    ensures Repeats(n, s, i) <==> Ror(n, s % 64)[i % 64] == n[i % 64]
  {
    ModAdds(i, s);
    RorAt(n, s % 64, i % 64);
  }

  lemma RorIsPeriod(n: Bits, s: nat)
    requires |n| == 64
    ensures Ror(n, s % 64) == n <==> Period(n, s)
  {
    hide Repeats, Ror;
    forall i: int
      ensures Repeats(n, s, i) <==> Ror(n, s % 64)[i % 64] == n[i % 64]
    {
      RorRepeats(n, s, i);
    }
    if Period(n, s) {
      forall i | 0 <= i < 64
        ensures Ror(n, s % 64)[i] == n[i]
      {
        assert Repeats(n, s, i) && i % 64 == i;
      }
      assert Ror(n, s % 64) == n;
    }
  }

  lemma PeriodsSubtract(n: Bits, s: int, t: int)
    requires Period(n, s) && Period(n, t)
    ensures Period(n, s - t)
  {
    var d := s - t;
    forall i: int
      ensures Repeats(n, d, i)
    {
      assert Repeats(n, t, i - t) && Repeats(n, s, i - t);
    }
  }

  function Gcd(a: nat, b: nat): (g: nat)
    requires a > 0 && b > 0
    ensures 0 < g <= b && g <= a
    decreases a + b
  {
    if a == b then a else if a < b then Gcd(a, b - a) else Gcd(a - b, b)
  }

  lemma {:induction false} PeriodGcd(n: Bits, a: nat, b: nat)
    requires a > 0 && b > 0 && Period(n, a) && Period(n, b)
    ensures Period(n, Gcd(a, b))
    decreases a + b
  {
    hide Period;
    if a < b {
      PeriodsSubtract(n, b, a);
      PeriodGcd(n, a, b - a);
    } else if b < a {
      PeriodsSubtract(n, a, b);
      PeriodGcd(n, a - b, b);
    }
  }

  lemma {:induction false} GcdDivides(a: nat, b: nat)
    requires a > 0 && b > 0
    ensures a % Gcd(a, b) == 0 && b % Gcd(a, b) == 0
    decreases a + b
  {
    var g := Gcd(a, b);
    if a == b {
      QuotientIs(a, g, 1, 0);
    } else if a < b {
      GcdDivides(a, b - a);
      MultiplesAdd(a, b - a, g);
    } else {
      GcdDivides(a - b, b);
      MultiplesAdd(b, a - b, g);
    }
  }

  // The divisors of 64 are the element sizes, and 1.
  lemma DivisorOf64(g: nat)
    requires 0 < g <= 64 && 64 % g == 0
    ensures g == 1 || ElementSize(g)
  {
  }

  // ---------- A rotated word and its run ----------

  ghost predicate Rotated(n: Bits) {
    |n| == 64 && n[0] && !n[63]
  }

  // Below the run's end there are ones, above the top one there are zeros.
  lemma RunIs(n: Bits)
    requires Rotated(n)
    ensures var ones, top := Ctz(Not(n)), 63 - Clz(n);
            && 0 < ones <= top + 1 && top < 63 && n[top] && !n[ones]
            && (forall i :: 0 <= i < ones ==> n[i]) && (forall i :: top < i < 64 ==> !n[i])
  {
    var ones, clz := Ctz(Not(n)), Clz(n);
    assert !Not(n)[0] && Not(n)[63];
    assert clz < 64;
    forall i | 0 <= i < ones
      ensures n[i]
    {
      assert !Not(n)[i];
    }
    assert Not(n)[ones];
    assert n[ones - 1];
  }

  // In steps of a period that divides 64, every bit is a bit of the lowest element.
  lemma {:induction false} ElementBit(n: Bits, g: nat, i: nat)
    requires Period(n, g) && g > 0 && i < 64
    ensures n[i] == n[i % g]
    decreases i
  {
    if i >= g {
      ElementBit(n, g, i - g);
      assert Repeats(n, g, i - g);
      QuotientIs(i, g, (i - g) / g + 1, (i - g) % g) by {
        assert ((i - g) / g + 1) * g == (i - g) / g * g + g;
      }
    } else {
      QuotientIs(i, g, 0, i);
    }
  }

  // The run and the zeros at the top fit into one element, and no smaller element repeats.
  lemma SizeIsPeriod(n: Bits, g: nat)
    requires Rotated(n) && Period(n, g) && g > 0 && 64 % g == 0
    ensures RunSize(n) <= g
  {
    RunIs(n);
    var ones, top := Ctz(Not(n)), 63 - Clz(n);
    var h := top - (64 - g);
    ElementShifted(n, g, 0);
    ElementShifted(n, g, g - 1);
    if h + 1 < ones {
      ElementShifted(n, g, h + 1);
    }
  }

  // The highest element repeats the lowest.
  lemma ElementShifted(n: Bits, g: nat, i: nat)
    requires Period(n, g) && 0 < g <= 64 && 64 % g == 0 && i < g
    ensures n[64 - g + i] == n[i]
  {
    var q := 64 / g;
    assert 64 == q * g;
    assert (q - 1) * g == q * g - g;
    QuotientIs(64 - g + i, g, q - 1, i);
    ElementBit(n, g, 64 - g + i);
  }

  lemma RotatedEnds(n: Bits)
    requires Mixed(n)
    ensures Rotated(Ror(n, Rotation(n) % 64))
  {
    hide Rotation, Ror;
    var rot := Rotation(n);
    RotationMeans(n);
    RorAt(n, rot % 64, 0);
    RorAt(n, rot % 64, 63);
    ModAdds(rot, 63);
  }

  lemma EncodeIsDefined(n: Bits)
    requires |n| == 64 && !IsZero(Inc(n)[1..])
    ensures Rotated(Ror(n, Rotation(n) % 64)) && RunSize(Ror(n, Rotation(n) % 64)) > 0
  {
    hide Rotation, Mixed, Ror, IsZero, Inc, Ctz, Clz, Not;
    GuardMeans(n);
    RotatedEnds(n);
    RunIs(Ror(n, Rotation(n) % 64));
  }

  // ---------- What is encoded is right ----------

  lemma SameRemainder(x: int, y: int, k: int, a: nat)
    requires a > 0 && x == y + k * a
    ensures x % a == y % a
  {
    var q, r := y / a, y % a;
    assert y == q * a + r;
    assert (q + k) * a == q * a + k * a;
    QuotientIs(x, a, q + k, r);
  }

  lemma MultipleOf64(q: int, size: nat)
    requires ElementSize(size)
    ensures 64 * q == (q * (64 / size)) * size
  {
    assert (q * (64 / size)) * size == q * ((64 / size) * size);
  }

  // Remainders by 64 do not matter to remainders by an element size.
  lemma Mod64(x: int, y: int, size: nat)
    requires ElementSize(size)
    ensures (x % 64 + y) % size == (x + y) % size
  {
    var q := x / 64;
    MultipleOf64(-q, size);
    SameRemainder(x % 64 + y, x + y, (-q) * (64 / size), size);
  }

  lemma ModInner(x: int, y: int, a: nat)
    requires a > 0
    ensures (x + y % a) % a == (x + y) % a
  {
    var q := y / a;
    assert y == q * a + y % a && (-q) * a == -(q * a);
    SameRemainder(x + y % a, x + y, -q, a);
  }

  // One less than a remainder, around the element.
  lemma ModBefore(x: int, a: nat)
    requires a > 0
    ensures (x - 1) % a == if x % a == 0 then a - 1 else x % a - 1
  {
    var q := x / a;
    assert x == q * a + x % a && (q - 1) * a == q * a - a;
    if x % a == 0 {
      QuotientIs(x - 1, a, q - 1, a - 1);
    } else {
      QuotientIs(x - 1, a, q, x % a - 1);
    }
  }

  // A rotated word that repeats with the size of its run consists of that run.
  lemma RepeatedRun(m: Bits, i: nat)
    requires Rotated(m) && Period(m, RunSize(m)) && i < 64
    ensures ElementSize(RunSize(m)) && Ctz(Not(m)) < RunSize(m)
    ensures m[i] <==> i % RunSize(m) < Ctz(Not(m))
  {
    hide Period;
    var size, ones := RunSize(m), Ctz(Not(m));
    RunIs(m);
    AlwaysPeriod(m);
    PeriodGcd(m, 64, size);
    GcdDivides(64, size);
    SizeIsPeriod(m, Gcd(64, size));
    DivisorOf64(size);
    ElementBit(m, size, i);
    ElementShifted(m, size, i % size);
  }

  lemma AlwaysPeriod(n: Bits)
    requires |n| == 64
    ensures Period(n, 64)
  {
  }

  lemma RotatedBack(n: Bits, rot: nat, i: nat)
    requires |n| == 64 && i < 64
    ensures n[i] == Ror(n, rot % 64)[(i - rot) % 64]
  {
    hide Ror;
    var x := (i - rot) % 64;
    ModAdds(x, rot);
    ModAdds(rot, x);
    ModAdds(i - rot, rot);
    RorAt(n, rot % 64, x);
  }

  // If the check for repetition succeeds, the word is the pattern that the fields describe.
  lemma EncodedPattern(n: Bits)
    requires |n| == 64 && Mixed(n)
    requires var m := Ror(n, Rotation(n) % 64); RunSize(m) > 0 && Period(m, RunSize(m))
    ensures var m := Ror(n, Rotation(n) % 64);
            IsPattern(n, RunSize(m), Ctz(Not(m)), (-(Rotation(n) as int)) % RunSize(m))
  {
    hide Period, Rotated, Rotation, RunSize, Ror, Not, Ctz, Inc, Mixed, PatternBit, IsZero;
    var m := Ror(n, Rotation(n) % 64);
    GuardMeans(n);
    EncodeIsDefined(n);
    RunIs(m);
    RepeatedRun(m, 0);
    forall i | 0 <= i < 64
      ensures n[i] == PatternBit(RunSize(m), Ctz(Not(m)), (-(Rotation(n) as int)) % RunSize(m), i)
    {
      EncodedBit(n, Rotation(n), i);
    }
  }

  lemma EncodedBit(n: Bits, rot: nat, i: nat)
    requires |n| == 64 && i < 64
    requires var m := Ror(n, rot % 64); Rotated(m) && RunSize(m) > 0 && Period(m, RunSize(m))
    ensures var m := Ror(n, rot % 64);
            n[i] == PatternBit(RunSize(m), Ctz(Not(m)), (-(rot as int)) % RunSize(m), i)
  {
    hide Period, Rotated, RunSize, Ror, Not, Ctz;
    var m := Ror(n, rot % 64);
    var size, k: int := RunSize(m), -(rot as int);
    RotatedBack(n, rot, i);
    RepeatedRun(m, (i + k) % 64);
    Mod64(i + k, 0, size);
    ModInner(i, k, size);
  }

  lemma {:induction false} FloorLog2Is(x: nat, k: nat)
    requires Pow2(k) <= x < Pow2(k + 1)
    ensures FloorLog2(x) == k
  {
    if k > 0 {
      FloorLog2Is(x / 2, k - 1);
    }
  }

  lemma FieldsApart(immr: nat, nBit: nat, imms: nat)
    requires immr < 64 && nBit < 2 && imms < 64
    ensures var value := 0x1800_0000 + (immr + 64 * nBit) * 0x1_0000 + imms * 0x400;
            value / 0x40_0000 % 2 == nBit && value / 0x1_0000 % 64 == immr && value / 0x400 % 64 == imms
  {
    var value := 0x1800_0000 + (immr + 64 * nBit) * 0x1_0000 + imms * 0x400;
    QuotientIs(value, 0x40_0000, 96 + nBit, immr * 0x1_0000 + imms * 0x400);
    QuotientIs(value, 0x1_0000, 0x1800 + immr + 64 * nBit, imms * 0x400);
    QuotientIs(value, 0x400, 0x6_0000 + (immr + 64 * nBit) * 64 + imms, 0);
  }

  lemma PackedFields(size: nat, ones: nat, rot: nat)
    requires ElementSize(size) && 0 < ones < size
    ensures var value := Packed(size, ones, rot);
            && (value / 0x40_0000) % 2 == (if size == 64 then 1 else 0)
            && (value / 0x1_0000) % 64 == (-(rot as int)) % size
            && (value / 0x400) % 64 == ((-(2 * size as int)) % 64 + ones - 1) % 64
  {
    var immr, imms := (-(rot as int)) % size, ((-(2 * size as int)) % 64 + ones - 1) % 64;
    assert immr % 64 == immr;
    FieldsApart(immr, if size == 64 then 1 else 0, imms);
  }

  // The element size is recovered from `N` and the ones that lead `imms` when it is inverted.
  lemma SizeRecovered(size: nat, ones: nat)
    requires ElementSize(size) && 0 < ones < size
    ensures var imms := ((-(2 * size as int)) % 64 + ones - 1) % 64;
            && Pow2(FloorLog2((if size == 64 then 64 else 0) + (63 - imms))) == size
            && imms % size + 1 == ones
  {
    hide Pow2, FloorLog2;
    var low := (-(2 * size as int)) % 64;
    assert low == if size >= 32 then 0 else 64 - 2 * size;
    var imms := (low + ones - 1) % 64;
    QuotientIs(low + ones - 1, 64, 0, low + ones - 1);
    var x := (if size == 64 then 64 else 0) + (63 - imms);
    var k := if size == 2 then 1 else if size == 4 then 2 else if size == 8 then 3 else if size == 16 then 4
             else if size == 32 then 5 else 6;
    PowersOfTwo();
    FloorLog2Is(x, k);
    var q := if size == 2 then 30 else if size == 4 then 14 else if size == 8 then 6 else if size == 16 then 2 else 0;
    QuotientIs(imms, size, q, ones - 1);
  }

  lemma PowersOfTwo()
    ensures Pow2(1) == 2 && Pow2(2) == 4 && Pow2(3) == 8 && Pow2(4) == 16 && Pow2(5) == 32 && Pow2(6) == 64
            && Pow2(7) == 128
  {
  }

  lemma PackedDecodes(n: Bits, size: nat, ones: nat, rot: nat)
    requires size > 0 && IsPattern(n, size, ones, (-(rot as int)) % size)
    ensures Decodes(Packed(size, ones, rot), n)
  {
    hide Packed, FloorLog2, Pow2, PatternBit;
    PackedFields(size, ones, rot);
    SizeRecovered(size, ones);
    RemainderOfRemainder(-(rot as int), size);
  }

  lemma RemainderOfRemainder(x: int, a: nat)
    requires a > 0
    ensures (x % a) % a == x % a
  {
    QuotientIs(x % a, a, 0, x % a);
  }

  // ---------- What can be encoded is encoded ----------

  lemma PatternIsMixed(n: Bits, size: nat, ones: nat, r: nat)
    requires |n| == 64 && IsPattern(n, size, ones, r)
    ensures Mixed(n)
  {
    var i, j := (-(r as int)) % size, (size - 1 - r as int) % size;
    ModInner(r, -(r as int), size);
    ModInner(r, size - 1 - r as int, size);
    QuotientIs(0, size, 0, 0);
    QuotientIs(size - 1, size, 0, size - 1);
    assert n[i] == PatternBit(size, ones, r, i) && n[j] == PatternBit(size, ones, r, j);
  }

  // The rotation brings the start of a run to bit 0.
  lemma RotationAligns(n: Bits, size: nat, ones: nat, r: nat)
    requires |n| == 64 && Mixed(n) && IsPattern(n, size, ones, r)
    ensures (Rotation(n) + r) % size == 0
  {
    hide Rotation, Mixed;
    var rot := Rotation(n);
    RotationMeans(n);
    Mod64(rot, r, size);
    Mod64(63 + rot, r, size);
    MultipleOf64(1, size);
    SameRemainder(63 + rot + r, rot + r - 1, 64 / size, size);
    ModBefore(rot + r, size);
    assert n[rot % 64] == PatternBit(size, ones, r, rot % 64);
    assert n[(63 + rot) % 64] == PatternBit(size, ones, r, (63 + rot) % 64);
  }

  lemma PatternRotated(n: Bits, size: nat, ones: nat, r: nat, i: nat)
    requires |n| == 64 && Mixed(n) && IsPattern(n, size, ones, r) && i < 64
    ensures Ror(n, Rotation(n) % 64)[i] == (i % size < ones)
  {
    hide Rotation, Mixed;
    var rot := Rotation(n);
    RotationAligns(n, size, ones, r);
    ModAdds(rot, i);
    RorAt(n, rot % 64, i);
    Mod64(i + rot, r, size);
    ModInner(i, rot + r, size);
    assert n[(i + rot) % 64] == PatternBit(size, ones, r, (i + rot) % 64);
  }

  lemma PatternBits(m: Bits, size: nat, ones: nat)
    requires |m| == 64 && ElementSize(size) && 0 < ones < size && forall i :: 0 <= i < 64 ==> m[i] == (i % size < ones)
    ensures (forall i :: 0 <= i < ones ==> m[i]) && !m[ones]
    ensures m[63 - size + ones] && forall i :: 63 - size + ones < i < 64 ==> !m[i]
  {
    forall i | 0 <= i < size
      ensures i % size == i
    {
      QuotientIs(i, size, 0, i);
    }
    MultipleOf64(1, size);
    assert (64 / size - 1) * size == 64 / size * size - size;
    SameRemainder(63 - size + ones, ones - 1, 64 / size - 1, size);
    forall i | 63 - size + ones < i < 64
      ensures !m[i]
    {
      SameRemainder(i, i - (64 - size), 64 / size - 1, size);
    }
  }

  lemma PatternPeriod(m: Bits, size: nat, ones: nat)
    requires |m| == 64 && ElementSize(size) && forall i :: 0 <= i < 64 ==> m[i] == (i % size < ones)
    ensures Period(m, size)
  {
    forall i: int
      ensures Repeats(m, size, i)
    {
      Mod64(i + size, 0, size);
      Mod64(i, 0, size);
      SameRemainder(i + size, i, 1, size);
    }
  }

  lemma PatternRun(m: Bits, size: nat, ones: nat)
    requires |m| == 64 && ElementSize(size) && 0 < ones < size && forall i :: 0 <= i < 64 ==> m[i] == (i % size < ones)
    ensures Ctz(Not(m)) == ones && RunSize(m) == size && Period(m, size)
  {
    hide Period, Ctz, Clz;
    PatternBits(m, size, ones);
    PatternPeriod(m, size, ones);
    assert forall i :: 0 <= i < ones ==> !Not(m)[i];
    assert Not(m)[ones];
  }

  // ---------- The encoder ----------

  // Besides `N`, `immr` and `imms` only the bits 28 and 27 are set, in which the opcodes for an
  // immediate differ from those for a register.
  predicate OnlyFields(value: u32) {
    value / 0x80_0000 == 0x30 && value % 0x400 == 0
  }

  // Nonzero results decode to the operand, and zero is returned for exactly those operands that
  // are no logical immediates.
  lemma EncodeIsRight(n0: Bits, is64: bool)
    requires |n0| == 64
    ensures var n, value := if is64 then n0 else Doubled(n0), Encode(n0, is64);
            && (value != 0 ==> Decodes(value, n))
            && (value == 0 <==> !IsLogical(n))
            && (value != 0 ==> OnlyFields(value))
  {
    hide Mixed, IsPattern, Decodes, Rotation, Packed, Period, IsZero, RunSize, Encode, Ror, Inc, Doubled, Ctz, Not;
    var n := if is64 then n0 else Doubled(n0);
    GuardMeans(n);
    if Mixed(n) {
      EncodeIsDefined(n);
      EncodeMixed(n0, is64, n);
      var m, rot := Ror(n, Rotation(n) % 64), Rotation(n);
      var size, ones := RunSize(m), Ctz(Not(m));
      RorIsPeriod(m, size);
      if Period(m, size) {
        EncodedPattern(n);
        PackedDecodes(n, size, ones, rot);
        PackedIsNotZero(size, ones, rot);
      } else if s, o, r :| IsPattern(n, s, o, r) {
        LogicalRepeats(n, s, o, r);
      }
    } else {
      EncodeUniform(n0, is64, n);
      if s, o, r :| IsPattern(n, s, o, r) {
        PatternIsMixed(n, s, o, r);
      }
    }
  }

  lemma PackedIsNotZero(size: nat, ones: nat, rot: nat)
    requires size > 0
    ensures Packed(size, ones, rot) != 0 && OnlyFields(Packed(size, ones, rot))
  {
  }

  lemma LogicalRepeats(n: Bits, size: nat, ones: nat, r: nat)
    requires |n| == 64 && Mixed(n) && IsPattern(n, size, ones, r)
    ensures var m := Ror(n, Rotation(n) % 64); RunSize(m) == size && Period(m, RunSize(m))
  {
    hide Mixed, Rotation, RunSize, Period;
    var m := Ror(n, Rotation(n) % 64);
    forall i | 0 <= i < 64
      ensures m[i] == (i % size < ones)
    {
      PatternRotated(n, size, ones, r, i);
    }
    PatternRun(m, size, ones);
  }

  lemma EncodeUniform(n0: Bits, is64: bool, n: Bits)
    requires |n0| == 64 && n == (if is64 then n0 else Doubled(n0)) && IsZero(Inc(n)[1..])
    ensures Encode(n0, is64) == 0
  {
    hide Rotation, Packed, IsZero, Ctz, Clz, Ror, Not, Inc, Doubled;
  }

  lemma EncodeMixed(n0: Bits, is64: bool, n: Bits)
    requires |n0| == 64 && n == (if is64 then n0 else Doubled(n0)) && !IsZero(Inc(n)[1..])
    requires RunSize(Ror(n, Rotation(n) % 64)) > 0
    ensures var m := Ror(n, Rotation(n) % 64);
            Encode(n0, is64) == if Ror(m, RunSize(m) % 64) == m then Packed(RunSize(m), Ctz(Not(m)), Rotation(n)) else 0
  {
    hide Rotation, Packed, IsZero, Ctz, Clz, Ror, Not, Inc, Doubled;
  }

  lemma DoubledPeriod(n0: Bits, k: nat)
    requires |n0| == 64
    ensures Period(Ror(Doubled(n0), k), 32)
  {
    hide Ror, Doubled;
    var n := Doubled(n0);
    var m := Ror(n, k);
    forall i: int
      ensures Repeats(m, 32, i)
    {
      DoubledRepeats(n0, k, i);
    }
  }

  lemma DoubledRepeats(n0: Bits, k: nat, i: int)
    requires |n0| == 64
    ensures Repeats(Ror(Doubled(n0), k), 32, i)
  {
    hide Ror, Doubled;
    RorAt(Doubled(n0), k, (i + 32) % 64);
    RorAt(Doubled(n0), k, i % 64);
    ModAdds(i + 32, k);
    ModAdds(i, k);
    Mod64(i + 32 + k, 0, 32);
    Mod64(i + k, 0, 32);
    SameRemainder(i + 32 + k, i + k, 1, 32);
  }

  // The encoding of a 32-bit operand never needs `N`, which 32-bit instructions do not have.
  lemma NarrowNeedsNoN(n0: Bits)
    requires |n0| == 64 && Encode(n0, false) != 0
    ensures Encode(n0, false) / 0x40_0000 % 2 == 0
  {
    hide Mixed, IsPattern, Rotation, Packed, Period, IsZero, RunSize, Encode, Ror, Inc, Doubled, Ctz, Not, Rotated;
    var n := Doubled(n0);
    GuardMeans(n);
    if !Mixed(n) {
      EncodeUniform(n0, false, n);
    } else {
      EncodeIsDefined(n);
      EncodeMixed(n0, false, n);
      var m, rot := Ror(n, Rotation(n) % 64), Rotation(n);
      RorIsPeriod(m, RunSize(m));
      DoubledPeriod(n0, rot % 64);
      SizeIsPeriod(m, 32);
      RepeatedRun(m, 0);
      RunIs(m);
      PackedFields(RunSize(m), Ctz(Not(m)), rot);
    }
  }
}
