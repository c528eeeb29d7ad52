// The integer hash of the u32/u32 table and its inverse: xor-shifts and odd factors modulo 2^32,
// each of which can be undone.
//
// Exclusive or is defined on the binary digits of natural numbers; a shift by `s` undoes itself
// when repeated at `s`, `2s`, ... until it vanishes, and the odd factors have inverses mod 2^32.
module HashMix {
  import opened Words

  // ---------- Bits of natural numbers ----------

  function Xor(a: nat, b: nat): nat
    decreases a + b
  {
    if a == 0 && b == 0 then 0 else 2 * Xor(a / 2, b / 2) + XorBit(a % 2, b % 2)
  }

  function XorBit(a: nat, b: nat): (r: nat)
    ensures r < 2
  {
    if a == b then 0 else 1
  }

  function Shr(a: nat, s: nat): nat
    decreases s
  {
    if s == 0 then a else Shr(a / 2, s - 1)
  }

  lemma XorHalves(a: nat, b: nat)
    ensures Xor(a, b) % 2 == XorBit(a % 2, b % 2) && Xor(a, b) / 2 == Xor(a / 2, b / 2)
    ensures Xor(a, b) == 2 * Xor(a / 2, b / 2) + XorBit(a % 2, b % 2)
  {
    hide *;
    XorUnfolds(a, b);
    DoublePlusBit(Xor(a / 2, b / 2), XorBit(a % 2, b % 2));
  }

  lemma XorUnfolds(a: nat, b: nat)
    ensures Xor(a, b) == 2 * Xor(a / 2, b / 2) + XorBit(a % 2, b % 2)
  {
    if a == 0 && b == 0 {
      assert a / 2 == 0 && b / 2 == 0 && a % 2 == 0 && b % 2 == 0;
    }
  }

  lemma DoublePlusBit(q: nat, r: nat)
    requires r < 2
    ensures (2 * q + r) % 2 == r && (2 * q + r) / 2 == q
  {
  }

  lemma {:induction false} XorZero(a: nat)
    ensures Xor(a, 0) == a
  {
    if a > 0 {
      XorZero(a / 2);
    }
  }

  lemma {:induction false} XorSelf(a: nat)
    ensures Xor(a, a) == 0
  {
    if a > 0 {
      XorSelf(a / 2);
    }
  }

  lemma {:induction false} XorAssociative(a: nat, b: nat, c: nat)
    ensures Xor(Xor(a, b), c) == Xor(a, Xor(b, c))
    decreases a + b + c
  {
    if a + b + c > 0 {
      XorAssociative(a / 2, b / 2, c / 2);
      XorHalves(a, b);
      XorHalves(b, c);
      XorHalves(Xor(a, b), c);
      XorHalves(a, Xor(b, c));
      XorBitAssociative(a % 2, b % 2, c % 2);
    }
  }

  lemma XorBitAssociative(a: nat, b: nat, c: nat)
    requires a < 2 && b < 2 && c < 2
    ensures XorBit(XorBit(a, b), c) == XorBit(a, XorBit(b, c))
  {
  }

  // Cancelling a repeated term in the middle.
  lemma XorCancels(a: nat, b: nat, c: nat)
    ensures Xor(Xor(a, b), Xor(b, c)) == Xor(a, c)
  {
    XorAssociative(a, b, Xor(b, c));
    XorAssociative(b, b, c);
    XorSelf(b);
    XorCommutes(0, c);
    XorZero(c);
  }

  lemma {:induction false} XorCommutes(a: nat, b: nat)
    ensures Xor(a, b) == Xor(b, a)
    decreases a + b
  {
    if a + b > 0 {
      XorCommutes(a / 2, b / 2);
    }
  }

  lemma {:induction false} ShrXor(a: nat, b: nat, s: nat)
    ensures Shr(Xor(a, b), s) == Xor(Shr(a, s), Shr(b, s))
    decreases s
  {
    if s > 0 {
      XorHalves(a, b);
      ShrXor(a / 2, b / 2, s - 1);
    }
  }

  lemma {:induction false} ShrAdds(a: nat, s: nat, t: nat)
    ensures Shr(Shr(a, s), t) == Shr(a, s + t)
    decreases s
  {
    if s > 0 {
      ShrAdds(a / 2, s - 1, t);
    }
  }

  lemma {:induction false} ShrVanishes(a: nat, n: nat, s: nat)
    requires a < Pow2(n) && n <= s
    ensures Shr(a, s) == 0
    decreases s
  {
    if s > 0 {
      ShrVanishes(a / 2, if n == 0 then 0 else n - 1, s - 1);
    }
  }

  lemma {:induction false} XorBound(a: nat, b: nat, n: nat)
    requires a < Pow2(n) && b < Pow2(n)
    ensures Xor(a, b) < Pow2(n)
    decreases n
  {
    if n > 0 && a + b > 0 {
      XorBound(a / 2, b / 2, n - 1);
    }
  }

  lemma {:induction false} ShrBound(a: nat, s: nat)
    ensures Shr(a, s) <= a
    decreases s
  {
    if s > 0 {
      ShrBound(a / 2, s - 1);
    }
  }

  lemma WordBits()
    ensures Pow2(32) == TWO_32
  {
    assert Pow2(8) == 0x100;
    assert Pow2(16) == 0x1_0000;
    assert Pow2(24) == 0x100_0000;
  }

  // A shift to the right is a division by a power of two.
  lemma {:induction false} ShrDivides(a: nat, s: nat)
    ensures Shr(a, s) == a / Pow2(s)
  {
    if s > 0 {
      ShrDivides(a / 2, s - 1);
      HalvedQuotient(a, Pow2(s - 1));
    }
  }

  lemma HalvedQuotient(a: nat, p: nat)
    requires p > 0
    ensures a / (2 * p) == (a / 2) / p
  {
    var q, r := (a / 2) / p, (a / 2) % p;
    assert a / 2 == q * p + r;
    assert 2 * (q * p) == q * (2 * p);
    QuotientIs(a, 2 * p, q, 2 * r + a % 2);
  }

  // ---------- Steps of the hash ----------

  // `x ^ (x >> s)`
  function XorShift(x: u32, s: nat): (y: u32) {
    WordBits();
    ShrBound(x, s);
    XorBound(x, Shr(x, s), 32);
    Xor(x, Shr(x, s))
  }

  // Shifting by `s`, then by `s` again, leaves one shift by `2 * s`.
  lemma XorShiftTwice(x: u32, s: nat)
    ensures XorShift(XorShift(x, s), s) == XorShift(x, 2 * s)
  {
    ShrXor(x, Shr(x, s), s);
    ShrAdds(x, s, s);
    XorCancels(x, Shr(x, s), Shr(x, s + s));
  }

  lemma XorShiftTooFar(x: u32, s: nat)
    requires s >= 32
    ensures XorShift(x, s) == x
  {
    WordBits();
    ShrVanishes(x, 32, s);
    XorZero(x);
  }

  lemma XorShiftsCommute(x: u32, s: nat, t: nat)
    ensures XorShift(XorShift(x, s), t) == XorShift(XorShift(x, t), s)
  {
    var a, b, c := Shr(x, s), Shr(x, t), Shr(x, s + t);
    ShrXor(x, a, t);
    ShrXor(x, b, s);
    ShrAdds(x, s, t);
    ShrAdds(x, t, s);
    // (x ^ a) ^ (b ^ c) == (x ^ b) ^ (a ^ c)
    XorAssociative(x, a, Xor(b, c));
    XorAssociative(a, b, c);
    XorCommutes(a, b);
    XorAssociative(b, a, c);
    XorAssociative(x, b, Xor(a, c));
  }

  // `x * factor`, wrapping.
  function Times(x: u32, factor: u32): (y: u32) {
    (x * factor) % TWO_32
  }

  lemma TimesUndone(x: u32, f: u32, g: u32)
    requires (f * g) % TWO_32 == 1
    ensures Times(Times(x, f), g) == x
  {
    var q, r := (x * f) / TWO_32, (x * f) % TWO_32;
    var k := (f * g) / TWO_32;
    assert x * f == q * TWO_32 + r;
    assert f * g == k * TWO_32 + 1;
    assert r * g == (x * k - q * g) * TWO_32 + x by {
      assert r * g == x * f * g - q * TWO_32 * g;
      assert x * f * g == x * (f * g) == x * (k * TWO_32 + 1) == x * k * TWO_32 + x;
      assert q * TWO_32 * g == q * g * TWO_32;
    }
    QuotientIs(r * g, TWO_32, x * k - q * g, x);
  }

  // ---------- The hash ----------

  function Mix(k: u32): u32 {
    XorShift(Times(XorShift(Times(XorShift(k, 16), 0x21f0_aaad), 15), 0xd35a_2d97), 15)
  }

  function Unmix(h: u32): u32 {
    var a := Times(XorShift(XorShift(h, 15), 30), 0x3713_2227);
    var b := Times(XorShift(XorShift(a, 15), 30), 0x333c_4925);
    XorShift(b, 16)
  }

  lemma UndoShift15(x: u32)
    ensures XorShift(XorShift(XorShift(x, 15), 15), 30) == x
    ensures XorShift(XorShift(XorShift(x, 15), 30), 15) == x
  {
    XorShiftTwice(x, 15);
    XorShiftTwice(x, 30);
    XorShiftTooFar(x, 60);
    XorShiftsCommute(XorShift(x, 15), 15, 30);
  }

  lemma UndoShift16(x: u32)
    ensures XorShift(XorShift(x, 16), 16) == x
  {
    XorShiftTwice(x, 16);
    XorShiftTooFar(x, 32);
  }

  // The hash loses nothing: it is a bijection of the 32-bit words.
  lemma UnmixMix(k: u32)
    ensures Unmix(Mix(k)) == k
  {
    hide XorShift, Times;
    var a := XorShift(k, 16);
    var b := Times(a, 0x21f0_aaad);
    var c := XorShift(b, 15);
    var d := Times(c, 0xd35a_2d97);
    UndoShift15(d);
    TimesUndone(c, 0xd35a_2d97, 0x3713_2227);
    UndoShift15(b);
    TimesUndone(a, 0x21f0_aaad, 0x333c_4925);
    UndoShift16(k);
  }

  lemma MixUnmix(h: u32)
    ensures Mix(Unmix(h)) == h
  {
    hide XorShift, Times;
    var a := XorShift(XorShift(h, 15), 30);
    var b := Times(a, 0x3713_2227);
    var c := XorShift(XorShift(b, 15), 30);
    var d := Times(c, 0x333c_4925);
    UndoShift16(d);
    TimesUndone(c, 0x333c_4925, 0x21f0_aaad);
    UndoShift15(b);
    TimesUndone(a, 0x3713_2227, 0xd35a_2d97);
    UndoShift15(h);
  }

  // Key zero hashes to zero, and no other key does.
  lemma MixOfZero(k: u32)
    ensures Mix(k) == 0 <==> k == 0
  {
    hide XorShift, Times;
    UnmixMix(k);
    XorShiftOfZero(15);
    XorShiftOfZero(16);
    XorShiftOfZero(30);
    TimesZero(0x21f0_aaad);
    TimesZero(0xd35a_2d97);
    TimesZero(0x3713_2227);
    TimesZero(0x333c_4925);
  }

  lemma XorShiftOfZero(s: nat)
    ensures XorShift(0, s) == 0
  {
    ShrBound(0, s);
  }

  lemma TimesZero(f: u32)
    ensures Times(0, f) == 0
  {
  }
}
