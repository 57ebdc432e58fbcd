/** Sizes and size classes of the arena allocator: free list i is for sizes from
    2^i up to, and without, 2^(i+1). */
module VmemSize {

  const VMEM_FREELISTS_N := 32

  function Pow2(i: nat): (p: nat)
    ensures p > 0
  {
    if i == 0 then 1 else 2 * Pow2(i - 1)
  }

  /** `bsr`: the position of the highest bit set. */
  function Bsr(n: nat): nat
    requires n > 0
  {
    if n == 1 then 0 else 1 + Bsr(n / 2)
  }

  /** `VMEM_GET_LIST_FROM_SIZE`, register by register; `xor 31` of a bit number
      below 32 is subtraction from 31. */
  function ListFromSize(n: nat): int
    requires n > 0
  {
    var scanned := Bsr(n);
    var flipped := 31 - scanned;
    var added := flipped + -VMEM_FREELISTS_N;
    -added - 1
  }

  /** `and` on natural numbers. */
  function BitAnd(a: nat, b: nat): nat {
    if a == 0 || b == 0 then 0
    else 2 * BitAnd(a / 2, b / 2) + (if a % 2 == 1 && b % 2 == 1 then 1 else 0)
  }

  /** The code's test `size & (size - 1) == 0`. */
  predicate PowerTest(n: nat)
    requires n > 0
  {
    BitAnd(n, n - 1) == 0
  }

  /** The class of a size brackets it between two powers of two. */
  lemma {:induction false} ClassBrackets(n: nat)
    requires n > 0
    ensures ListFromSize(n) == Bsr(n)
    ensures Pow2(Bsr(n)) <= n < Pow2(Bsr(n) + 1)
  {
    if n > 1 {
      ClassBrackets(n / 2);
    }
  }

  lemma {:induction false} Pow2Monotone(i: nat, j: nat)
    requires i <= j
    ensures Pow2(i) <= Pow2(j)
    ensures i < j ==> Pow2(i) < Pow2(j)
    decreases j - i
  {
    if i < j {
      Pow2Monotone(i, j - 1);
    }
  }

  /** Classes order sizes, and 32 lists are enough for 32-bit sizes. */
  lemma ClassMonotone(a: nat, b: nat)
    requires 0 < a <= b
    ensures Bsr(a) <= Bsr(b)
  {
    ClassBrackets(a);
    ClassBrackets(b);
    if Bsr(a) > Bsr(b) {
      Pow2Monotone(Bsr(b) + 1, Bsr(a));
    }
  }

  lemma ClassInTable(n: nat)
    requires 0 < n < 0x1_0000_0000
    ensures Bsr(n) < VMEM_FREELISTS_N
  {
    ClassBrackets(n);
    WordRange();
    if Bsr(n) >= 32 {
      Pow2Monotone(32, Bsr(n));
    }
  }

  lemma WordRange()
    ensures Pow2(32) == 0x1_0000_0000
  {
    assert Pow2(8) == 256;
    assert Pow2(16) == 0x1_0000;
    assert Pow2(24) == 0x100_0000;
  }

  /** The bit trick recognises exactly the powers of two. */
  lemma {:induction false} PowerTestIff(n: nat)
    requires n > 0
    ensures PowerTest(n) <==> n == Pow2(Bsr(n))
  {
    if n == 1 {
    } else if n % 2 == 0 {
      PowerTestIff(n / 2);
      assert (n - 1) / 2 == n / 2 - 1;
    } else {
      assert (n - 1) / 2 == n / 2;
      AndSelf(n / 2);
    }
  }

  lemma {:induction false} AndSelf(a: nat)
    ensures BitAnd(a, a) == a
  {
    if a > 0 {
      AndSelf(a / 2);
    }
  }

  /** Where instant fit starts looking. */
  function InstantStart(n: nat): (c: nat)
    requires n > 0
  {
    if PowerTest(n) then Bsr(n) else Bsr(n) + 1
  }

  /** Instant fit needs no size test: its starting class is the first one all of
      whose sizes are large enough, and the classes above are larger still. */
  lemma InstantStartExact(n: nat, c: nat)
    requires n > 0
    ensures (forall size: nat :: size > 0 && Bsr(size) == c ==> size >= n) <==> c >= InstantStart(n)
  {
    PowerTestIff(n);
    ClassBrackets(n);
    if c >= InstantStart(n) {
      forall size: nat | size > 0 && Bsr(size) == c
        ensures size >= n
      {
        ClassBrackets(size);
        Pow2Monotone(InstantStart(n), c);
      }
    } else {
      ClassOfPow2(c);
      Pow2Monotone(c, Bsr(n));
      assert Bsr(Pow2(c)) == c;
    }
  }

  lemma InstantLarge(n: nat, c: nat, size: nat)
    requires n > 0 && size > 0 && Bsr(size) == c && c >= InstantStart(n)
    ensures size >= n
  {
    InstantStartExact(n, c);
  }

  lemma {:induction false} ClassOfPow2(c: nat)
    ensures Bsr(Pow2(c)) == c
  {
    if c > 0 {
      ClassOfPow2(c - 1);
      assert Pow2(c) / 2 == Pow2(c - 1);
    }
  }
}
