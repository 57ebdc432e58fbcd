/** The address hash of the arena's table: three xor-shifts and two odd
    multiplications on 32-bit registers, the registers being natural numbers. */
module VmemHash {
  import opened Common
  import opened VmemSize

  const VMEM_HASHTABLE_N := 16
  const M1 := 0x85EB_CA6B
  const M2 := 0xC2B2_AE35

  /** `xor` on natural numbers. */
  function Xor(a: nat, b: nat): nat {
    if a == 0 then b else if b == 0 then a
    else 2 * Xor(a / 2, b / 2) + (if a % 2 == b % 2 then 0 else 1)
  }

  /** Bit by bit, from the lowest. */
  lemma {:induction false} XorStep(a: nat, b: nat)
    ensures Xor(a, b) == 2 * Xor(a / 2, b / 2) + (if a % 2 == b % 2 then 0 else 1)
    ensures Xor(a, b) / 2 == Xor(a / 2, b / 2) && Xor(a, b) % 2 == (a % 2 + b % 2) % 2
  {
  }

  lemma {:induction false} XorBasics(a: nat, b: nat)
    ensures Xor(a, a) == 0 && Xor(a, 0) == a && Xor(a, b) == Xor(b, a)
    decreases a + b
  {
    if a + b > 0 {
      XorBasics(a / 2, b / 2);
      XorStep(a, b);
      XorStep(b, a);
      XorStep(a, a);
    }
  }

  lemma {:induction false} XorAssoc(a: nat, b: nat, c: nat)
    ensures Xor(Xor(a, b), c) == Xor(a, Xor(b, c))
    decreases a + b + c
  {
    if a + b + c > 0 {
      hide Xor;
      XorAssoc(a / 2, b / 2, c / 2);
      XorStep(a, b);
      XorStep(b, c);
      XorStep(Xor(a, b), c);
      XorStep(a, Xor(b, c));
    }
  }

  /** A word combined twice with the same word is itself again. */
  lemma XorTwice(a: nat, b: nat)
    ensures Xor(Xor(a, b), b) == a && Xor(b, Xor(a, b)) == a
  {
    hide Xor;
    XorAssoc(a, b, b);
    XorBasics(b, a);
    XorBasics(a, b);
    XorBasics(b, Xor(a, b));
    XorBasics(a, 0);
  }

  lemma {:induction false} XorBound(a: nat, b: nat, k: nat)
    requires a < Pow2(k) && b < Pow2(k)
    ensures Xor(a, b) < Pow2(k)
    decreases k
  {
    if k > 0 {
      XorBound(a / 2, b / 2, k - 1);
      XorStep(a, b);
    }
  }

  /** The high and low parts of two numbers are combined independently. */
  lemma {:induction false} XorSplit(a: nat, b: nat, c: nat, d: nat, k: nat)
    requires b < Pow2(k) && d < Pow2(k)
    ensures Xor(a * Pow2(k) + b, c * Pow2(k) + d) == Xor(a, c) * Pow2(k) + Xor(b, d)
    decreases k
  {
    if k == 0 {
      XorBasics(0, 0);
    } else {
      var p := Pow2(k - 1);
      XorSplit(a, b / 2, c, d / 2, k - 1);
      SplitStep(a, b, c, d, p);
      assert Pow2(k) == 2 * p;
    }
  }

  lemma SplitStep(a: nat, b: nat, c: nat, d: nat, p: nat)
    ensures Xor(a * p + b / 2, c * p + d / 2) == Xor(a, c) * p + Xor(b / 2, d / 2) ==>
              Xor(a * (2 * p) + b, c * (2 * p) + d) == Xor(a, c) * (2 * p) + Xor(b, d)
  {
    hide Xor;
    Doubled(a, p, b);
    Doubled(c, p, d);
    XorStep(b, d);
    XorStep(a * (2 * p) + b, c * (2 * p) + d);
    Doubled(Xor(a, c), p, 0);
  }

  lemma Doubled(a: nat, p: nat, b: nat)
    ensures a * (2 * p) + b == 2 * (a * p) + b
    ensures (a * (2 * p) + b) / 2 == a * p + b / 2 && (a * (2 * p) + b) % 2 == b % 2
  {
    var q := a * p;
    assert a * (2 * p) == 2 * q;
  }

  lemma Powers()
    ensures Pow2(13) == 0x2000 && Pow2(16) == 0x1_0000
  {
    assert Pow2(8) == 0x100;
  }

  /** The low half of `mul`. */
  function Mul(x: Word, m: nat): Word {
    x * m % LIMIT
  }

  /** `shr` by 16, then `xor`. */
  function Shift16(x: Word): nat {
    Xor(x, x / 0x1_0000)
  }

  function Shift13(x: Word): nat {
    Xor(x, x / 0x2000)
  }

  lemma Shift16Parts(x: Word)
    ensures var hi, lo := x / 0x1_0000, x % 0x1_0000;
            Shift16(x) == hi * 0x1_0000 + Xor(lo, hi) && Xor(lo, hi) < 0x1_0000
  {
    var hi, lo := x / 0x1_0000, x % 0x1_0000;
    Powers();
    XorSplit(hi, lo, 0, hi, 16);
    XorBasics(hi, 0);
    XorBound(lo, hi, 16);
  }

  lemma Shift16Twice(x: Word)
    ensures 0 <= Shift16(x) < LIMIT && Shift16(Shift16(x)) == x
  {
    hide Xor, Shift16;
    var hi, lo := x / 0x1_0000, x % 0x1_0000;
    Shift16Parts(x);
    var y: Word := Shift16(x);
    Shift16Parts(y);
    assert y / 0x1_0000 == hi && y % 0x1_0000 == Xor(lo, hi);
    XorTwice(lo, hi);
  }

  /** Three digits in base 2^13. */
  function Digits(a: nat, b: nat, c: nat): nat {
    (a * 0x2000 + b) * 0x2000 + c
  }

  lemma XorDigits(a: nat, b: nat, c: nat, a': nat, b': nat, c': nat)
    requires b < 0x2000 && c < 0x2000 && b' < 0x2000 && c' < 0x2000
    ensures Xor(Digits(a, b, c), Digits(a', b', c')) == Digits(Xor(a, a'), Xor(b, b'), Xor(c, c'))
    ensures Xor(b, b') < 0x2000 && Xor(c, c') < 0x2000
  {
    hide Xor;
    Powers();
    XorSplit(a * 0x2000 + b, c, a' * 0x2000 + b', c', 13);
    XorSplit(a, b, a', b', 13);
    XorBound(b, b', 13);
    XorBound(c, c', 13);
  }

  lemma Shift13Digits(a: nat, b: nat, c: nat)
    requires a < 64 && b < 0x2000 && c < 0x2000
    ensures Digits(a, b, c) < LIMIT
    ensures Shift13(Digits(a, b, c)) == Digits(a, Xor(b, a), Xor(c, b))
    ensures Unshift13(Digits(a, b, c)) == Digits(a, Xor(b, a), Xor(Xor(c, b), a))
    ensures Xor(b, a) < 0x2000 && Xor(c, b) < 0x2000 && Xor(Xor(c, b), a) < 0x2000
  {
    assert Digits(a, b, c) / 0x2000 == Digits(0, a, b);
    assert Digits(a, b, c) / 0x2000 / 0x2000 == Digits(0, 0, a);
    hide Xor;
    XorDigits(a, b, c, 0, a, b);
    XorBasics(a, 0);
    XorBasics(Xor(b, a), 0);
    XorDigits(a, Xor(b, a), Xor(c, b), 0, 0, a);
  }

  /** Undoes the 13-bit xor-shift. */
  function Unshift13(y: Word): nat {
    Xor(Xor(y, y / 0x2000), y / 0x2000 / 0x2000)
  }

  lemma Shift13Inverse(x: Word)
    ensures 0 <= Shift13(x) < LIMIT && Unshift13(Shift13(x)) == x
    ensures 0 <= Unshift13(x) < LIMIT && Shift13(Unshift13(x)) == x
  {
    var a, b, c := x / 0x400_0000, x / 0x2000 % 0x2000, x % 0x2000;
    assert x == Digits(a, b, c) by {
      assert x / 0x2000 / 0x2000 == x / 0x400_0000;
    }
    hide Xor, Shift13, Unshift13, Digits;
    Shift13Digits(a, b, c);
    Shift13Digits(a, Xor(b, a), Xor(c, b));
    Shift13Digits(a, Xor(b, a), Xor(Xor(c, b), a));
    XorTwice(b, a);
    // the low digit: ((c^b)^(b^a))^a and ((c^b)^a)^(b^a) are both c
    XorAssoc(Xor(c, b), Xor(b, a), a);
    XorTwice(c, b);
    XorAssoc(Xor(c, b), a, Xor(b, a));
    XorTwice(b, a);
  }

  /** Multiplying by m and then by its inverse modulo 2^32 changes nothing. */
  lemma {:induction false} MulInverse(x: Word, m: nat, w: nat, k: nat)
    requires m * w == 1 + k * LIMIT
    ensures Mul(Mul(x, m), w) == x
  {
    var r, q := x * m % LIMIT, x * m / LIMIT;
    assert r * w == x + LIMIT * (k * x - q * w) by {
      assert r == x * m - q * LIMIT;
      assert r * w == x * m * w - q * LIMIT * w;
      assert x * m * w == x * (m * w);
      assert x * (m * w) == x + x * (k * LIMIT);
    }
    ModShift(x, k * x - q * w);
  }

  lemma ModShift(n: int, t: int)
    requires 0 <= n < LIMIT
    ensures (n + LIMIT * t) % LIMIT == n
  {
  }

  /** `_vmem_hashtable_hash` */
  function Hash(eax: Word): Word {
    Shift16Twice(eax);
    var h2 := Mul(Shift16(eax), M1);
    Shift13Inverse(h2);
    var h4 := Mul(Shift13(h2), M2);
    Shift16Twice(h4);
    Shift16(h4)
  }

  /** The inverses of M1 and M2 modulo 2^32. */
  const W1 := 0xA5CB_9243
  const W2 := 0x7ED1_B41D

  function Unhash(h: Word): Word {
    Shift16Twice(h);
    var h3 := Mul(Shift16(h), W2);
    Shift13Inverse(h3);
    var h1 := Mul(Unshift13(h3), W1);
    Shift16Twice(h1);
    Shift16(h1)
  }

  /** The hash is a bijection of the 32-bit words: no two addresses collide before
      the table mask is applied, and every word is some address's hash. */
  lemma HashBijective(x: Word)
    ensures Unhash(Hash(x)) == x
    ensures Hash(Unhash(x)) == x
  {
    hide Mul, Shift16, Shift13, Unshift13;
    var k1, k2 := (M1 * W1 - 1) / LIMIT, (M2 * W2 - 1) / LIMIT;
    Shift16Twice(x);
    var h2 := Mul(Shift16(x), M1);
    Shift13Inverse(h2);
    var h4 := Mul(Shift13(h2), M2);
    Shift16Twice(h4);
    MulInverse(Shift16(x), M1, W1, k1);
    MulInverse(Shift13(h2), M2, W2, k2);
    var u3 := Mul(Shift16(x), W2);
    Shift13Inverse(u3);
    var u1 := Mul(Unshift13(u3), W1);
    Shift16Twice(u1);
    MulInverse(Shift16(x), W2, M2, k2);
    MulInverse(Unshift13(u3), W1, M1, k1);
  }

  /** A hash worked out by hand, which fixes every shift and both multipliers. */
  lemma HashSample()
    ensures Hash(0x1234_5678) == 0xE37C_D1BC
  {
    SampleXors();
    SampleProducts();
    hide Xor, Mul;
  }

  lemma SampleProducts()
    ensures Mul(0x1234_444C, 0x85EB_CA6B) == 0x0780_83C4 && Mul(0x0780_BFC0, 0xC2B2_AE35) == 0xE37C_32C0
  {
  }

  lemma SampleXors()
    ensures Xor(0x1234_5678, 0x1234) == 0x1234_444C && Xor(0x0780_83C4, 0x3C04) == 0x0780_BFC0
    ensures Xor(0xE37C_32C0, 0xE37C) == 0xE37C_D1BC
  {
    SampleBytes();
    XorZero(0x12, 0x34);
    XorZero(0x07, 0x80);
    XorZero(0xE3, 0x7C);
    hide Xor;
    XorBytes(0x12, 0x34, 0x56, 0x78, 0, 0, 0x12, 0x34);
    XorBytes(0x07, 0x80, 0x83, 0xC4, 0, 0, 0x3C, 0x04);
    XorBytes(0xE3, 0x7C, 0x32, 0xC0, 0, 0, 0xE3, 0x7C);
  }

  lemma XorZero(a: nat, b: nat)
    ensures Xor(a, 0) == a && Xor(b, 0) == b
  {
  }

  lemma SampleBytes()
    ensures Xor(0x56, 0x12) == 0x44 && Xor(0x78, 0x34) == 0x4C && Xor(0x83, 0x3C) == 0xBF && Xor(0xC4, 0x4) == 0xC0
    ensures Xor(0x32, 0xE3) == 0xD1 && Xor(0xC0, 0x7C) == 0xBC
  {
    SampleNibbles1();
    SampleNibbles2();
    hide Xor;
    XorNibbles(0x5, 0x6, 0x1, 0x2);
    XorNibbles(0x7, 0x8, 0x3, 0x4);
    XorNibbles(0x8, 0x3, 0x3, 0xC);
    XorNibbles(0xC, 0x4, 0x0, 0x4);
    XorNibbles(0x3, 0x2, 0xE, 0x3);
    XorNibbles(0xC, 0x0, 0x7, 0xC);
  }

  lemma SampleNibbles1()
    ensures Xor(0x5, 0x1) == 0x4 && Xor(0x6, 0x2) == 0x4 && Xor(0x7, 0x3) == 0x4 && Xor(0x8, 0x4) == 0xC
    ensures Xor(0x8, 0x3) == 0xB && Xor(0x3, 0xC) == 0xF
  {
  }

  lemma SampleNibbles2()
    ensures Xor(0xC, 0x0) == 0xC && Xor(0x4, 0x4) == 0x0 && Xor(0x3, 0xE) == 0xD && Xor(0x2, 0x3) == 0x1
    ensures Xor(0xC, 0x7) == 0xB && Xor(0x0, 0xC) == 0xC
  {
  }

  lemma {:induction false} XorNibbles(hi: nat, lo: nat, hi': nat, lo': nat)
    requires lo < 0x10 && lo' < 0x10
    ensures Xor(hi * 0x10 + lo, hi' * 0x10 + lo') == Xor(hi, hi') * 0x10 + Xor(lo, lo')
  {
    hide Xor;
    assert Pow2(4) == 0x10;
    XorSplit(hi, lo, hi', lo', 4);
  }

  function FourBytes(a: nat, b: nat, c: nat, d: nat): nat {
    ((a * 0x100 + b) * 0x100 + c) * 0x100 + d
  }

  lemma {:induction false} XorBytes(a: nat, b: nat, c: nat, d: nat, a': nat, b': nat, c': nat, d': nat)
    requires b < 0x100 && c < 0x100 && d < 0x100 && b' < 0x100 && c' < 0x100 && d' < 0x100
    ensures Xor(FourBytes(a, b, c, d), FourBytes(a', b', c', d'))
         == FourBytes(Xor(a, a'), Xor(b, b'), Xor(c, c'), Xor(d, d'))
  {
    hide Xor;
    XorByte(a, b, a', b');
    XorByte(a * 0x100 + b, c, a' * 0x100 + b', c');
    XorByte((a * 0x100 + b) * 0x100 + c, d, (a' * 0x100 + b') * 0x100 + c', d');
  }

  lemma {:induction false} XorByte(hi: nat, lo: nat, hi': nat, lo': nat)
    requires lo < 0x100 && lo' < 0x100
    ensures Xor(hi * 0x100 + lo, hi' * 0x100 + lo') == Xor(hi, hi') * 0x100 + Xor(lo, lo')
  {
    hide Xor;
    assert Pow2(8) == 0x100;
    XorSplit(hi, lo, hi', lo', 8);
  }

  /** `_vmem_hashtable_addr`: the byte offset of the slot. */
  function SlotOffset(addr: Word): nat {
    BitAnd(Hash(addr), VMEM_HASHTABLE_N - 1) * 4
  }

  /** The mask is the remainder modulo 16, so the slot lies inside the table. */
  lemma SlotInTable(addr: Word)
    ensures SlotOffset(addr) == Hash(addr) % VMEM_HASHTABLE_N * 4
    ensures SlotOffset(addr) + 4 <= 4 * VMEM_HASHTABLE_N
  {
    hide Hash;
    MaskFour(Hash(addr));
  }

  lemma {:induction false} MaskFour(h: nat)
    ensures BitAnd(h, 15) == h % 16
  {
    hide BitAnd;
    AndStep(h, 15);
    MaskThree(h / 2);
    Halving(h, 8, h / 16);
  }

  lemma {:induction false} MaskThree(h: nat)
    ensures BitAnd(h, 7) == h % 8
  {
    hide BitAnd;
    AndStep(h, 7);
    MaskTwo(h / 2);
    Halving(h, 4, h / 8);
  }

  lemma {:induction false} MaskTwo(h: nat)
    ensures BitAnd(h, 3) == h % 4
  {
    AndStep(h, 3);
    AndStep(h / 2, 1);
    assert BitAnd(h / 2 / 2, 0) == 0;
    hide BitAnd;
    Halving(h, 2, h / 4);
  }

  lemma {:induction false} Halving(h: nat, m: nat, q: nat)
    requires m in {2, 4, 8} && q == h / (2 * m)
    ensures h % (2 * m) == 2 * (h / 2 % m) + h % 2
  {
  }

  lemma {:induction false} AndStep(a: nat, b: nat)
    ensures BitAnd(a, b) == 2 * BitAnd(a / 2, b / 2) + (if a % 2 == 1 && b % 2 == 1 then 1 else 0)
  {
  }
}
