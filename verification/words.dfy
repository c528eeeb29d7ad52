// Machine words, little-endian byte order, remainders and alignment, shared by every module.
//
// Words are natural numbers below 2^32 or 2^64; where the source lets them wrap, a remainder says
// so. Masks `x & (a - 1)` for a power of two `a` are remainders as well, and `x & -a` a multiple.
module Words {
  const TWO_32: nat := 0x1_0000_0000
  const TWO_64: nat := 0x1_0000_0000_0000_0000

  type u8 = x: nat | x < 0x100
  type u32 = x: nat | x < 0x1_0000_0000
  type u64 = x: nat | x < 0x1_0000_0000_0000_0000

  datatype Option<T> = None | Some(value: T)

  function Max(a: nat, b: nat): nat {
    if a < b then b else a
  }

  // Subtraction of two 32-bit words, wrapping as the hardware does.
  function Sub32(a: int, b: int): (r: u32) {
    (a - b) % TWO_32
  }

  // The two's complement reading of a 32-bit word.
  function Signed32(w: u32): int {
    if w < 0x8000_0000 then w else w - TWO_32
  }

  // The two's complement reading of a byte.
  function Signed8(b: u8): int {
    if b < 0x80 then b else b - 0x100
  }

  function Le32(w: u32): (s: seq<u8>)
    ensures |s| == 4
  {
    [w % 0x100, (w / 0x100) % 0x100, (w / 0x1_0000) % 0x100, w / 0x100_0000]
  }

  function FromLe32(s: seq<u8>): (w: u32)
    requires |s| == 4
  {
    s[0] as int + 0x100 * s[1] as int + 0x1_0000 * s[2] as int + 0x100_0000 * s[3] as int
  }

  lemma Le32RoundTrip(w: u32)
    ensures FromLe32(Le32(w)) == w
  {
    assert w == w % 0x100 + 0x100 * (w / 0x100);
    assert w / 0x1_0000 == (w / 0x100) / 0x100;
    assert w / 0x100_0000 == (w / 0x1_0000) / 0x100;
  }

  // A displacement stored in 32 bits and added back to its base reaches the target,
  // as long as both addresses lie below 2 GiB.
  lemma Displacement32(target: nat, base: nat)
    requires target < 0x8000_0000 && base < 0x8000_0000
    ensures base + Signed32(Sub32(target, base)) == target
  {
    if target >= base {
      assert (target - base) % TWO_32 == target - base;
    } else {
      assert (target - base) % TWO_32 == target - base + TWO_32;
    }
  }

  // The least multiple of `a` that is not below `x`: `(x + a - 1) & -a` for a power of two `a`.
  function AlignUp(x: nat, a: nat): (r: nat)
    requires a > 0
  {
    (x + a - 1) / a * a
  }

  lemma AlignUpIsLeastMultiple(x: nat, a: nat)
    requires a > 0
    ensures AlignUp(x, a) % a == 0
    ensures x <= AlignUp(x, a) < x + a
    ensures x % a == 0 ==> AlignUp(x, a) == x
  {
    var q := (x + a - 1) / a;
    QuotientIs(q * a, a, q, 0);
    assert x + a - 1 == q * a + (x + a - 1) % a;
    if x % a == 0 {
      var k := x / a;
      assert x == k * a;
      QuotientIs(x + a - 1, a, k, a - 1);
    }
  }

  lemma ProductAtLeast(k: int, a: nat)
    ensures k >= 1 ==> k * a >= a
    ensures k <= -1 ==> k * a <= -(a as int)
  {
    if k >= 1 {
      assert k * a == a + (k - 1) * a;
    } else if k <= -1 {
      assert k * a == -(a as int) + (k + 1) * a;
    }
  }

  // Division with remainder is unique.
  lemma QuotientIs(x: int, a: nat, q: int, r: int)
    requires a > 0 && 0 <= r < a && x == q * a + r
    ensures x / a == q && x % a == r
  {
    var q', r' := x / a, x % a;
    assert x == q' * a + r';
    assert (q - q') * a == q * a - q' * a;
    ProductAtLeast(q - q', a);
  }

  lemma MultiplesAdd(x: int, y: int, a: nat)
    requires a > 0 && x % a == 0 && y % a == 0
    ensures (x + y) % a == 0 && (x - y) % a == 0
  {
    var p, q := x / a, y / a;
    assert x == p * a && y == q * a;
    assert (p + q) * a == x + y && (p - q) * a == x - y;
    QuotientIs(x + y, a, p + q, 0);
    QuotientIs(x - y, a, p - q, 0);
  }

  lemma MultipleOfMultiple(x: int, a: nat, b: nat)
    requires a > 0 && b > 0 && b % a == 0 && x % b == 0
    ensures x % a == 0
  {
    var p, q := x / b, b / a;
    assert x == p * b && b == q * a;
    assert p * (q * a) == (p * q) * a;
    QuotientIs(x, a, p * q, 0);
  }

  lemma AlignUpMonotone(x: nat, y: nat, a: nat)
    requires a > 0 && x <= y
    ensures AlignUp(x, a) <= AlignUp(y, a)
  {
    AlignUpIsLeastMultiple(x, a);
    AlignUpIsLeastMultiple(y, a);
    var p, q := (x + a - 1) / a, (y + a - 1) / a;
    assert p * a - q * a == (p - q) * a;
    ProductAtLeast(p - q, a);
  }

  // Aligning commutes with an aligned displacement.
  lemma AlignUpShifted(x: nat, start: nat, a: nat)
    requires a > 0 && start % a == 0
    ensures AlignUp(start + x, a) == start + AlignUp(x, a)
  {
    var k, q, r := start / a, (x + a - 1) / a, (x + a - 1) % a;
    assert start == k * a && x + a - 1 == q * a + r;
    assert (k + q) * a == k * a + q * a;
    QuotientIs(start + x + a - 1, a, k + q, r);
  }

  // The distance `(-x) & (a - 1)` from `x` up to the next multiple of a power of two `a`.
  function Padding(x: int, a: nat): (r: nat)
    requires a > 0
    ensures r < a
  {
    (a - x) % a
  }

  lemma PaddingReachesAlignment(x: nat, a: nat)
    requires a > 0
    ensures AlignUp(x, a) == x + Padding(x, a)
  {
    AlignUpIsLeastMultiple(x, a);
    var r := AlignUp(x, a);
    var q := r / a;
    assert r == q * a + r % a;
    assert (1 - q) * a == a - q * a;
    QuotientIs(a - x, a, 1 - q, r - x);
  }

  predicate IsPow2(n: nat) {
    n == 1 || (n > 0 && n % 2 == 0 && IsPow2(n / 2))
  }

  // An alignment or a page size: what the masks `a - 1` and `-a` need.
  type PowerOf2 = n: nat | IsPow2(n) witness 1

  function Pow2(n: nat): (p: nat)
    ensures p > 0
  {
    if n == 0 then 1 else 2 * Pow2(n - 1)
  }

  // The number of leading zeros in `n` bits.
  function LeadingZeros(x: nat, n: nat): nat {
    if n == 0 || x >= Pow2(n - 1) then 0 else 1 + LeadingZeros(x, n - 1)
  }

  // `w & (w - 1)`
  function ClearLowest(w: nat): (r: nat)
    requires w > 0
    ensures r < w
  {
    if w % 2 == 1 then w - 1 else 2 * ClearLowest(w / 2)
  }

  // The slot of a table of `n` slots that is looked at after `d` steps from a hash's home:
  // `(hash + d) & mask`, where `n` is a power of two.
  function ProbeAt(n: nat, hash: nat, d: nat): (i: nat)
    requires n > 0
    ensures i < n
  {
    (hash + d) % n
  }

  // How many of the first `n` elements are `x`.
  function Among(s: seq<nat>, x: nat, n: nat): (c: nat)
    requires n <= |s|
    ensures c <= n
  {
    if n == 0 then 0 else Among(s, x, n - 1) + if s[n - 1] == x then 1 else 0
  }

  lemma {:induction false} AmongSome(s: seq<nat>, i: nat, n: nat)
    requires i < n <= |s|
    ensures Among(s, s[i], n) > 0
  {
    if i < n - 1 {
      AmongSome(s, i, n - 1);
    }
  }
}
