/** Powers of two: the split point of the Merkle tree, and the 32-bit test of
    src/audit/log-verify.ts. */
module PowersOfTwo {

  predicate IsPow2(n: nat) {
    n == 1 || (n > 1 && n % 2 == 0 && IsPow2(n / 2))
  }

  /** The largest power of two smaller than n. */
  function SplitPoint(n: nat): (k: nat)
    requires n >= 2
    ensures k < n <= 2 * k
  {
    if n == 2 then 1 else 2 * SplitPoint((n + 1) / 2)
  }

  /** The split point is what section 2.1.1 of RFC 9162 asks for: the largest power of two
      smaller than n. */
  lemma {:induction false} SplitPointLargest(n: nat, p: nat)
    requires n >= 2
    ensures IsPow2(SplitPoint(n)) && SplitPoint(n) < n
    ensures IsPow2(p) && p < n ==> p <= SplitPoint(n)
  {
    if n > 2 { SplitPointLargest((n + 1) / 2, p / 2); }
  }

  const TWO32: nat := 0x1_0000_0000

  /** Bitwise AND of two naturals. */
  function BitAnd(a: nat, b: nat): nat {
    if a == 0 || b == 0 then 0 else (a % 2) * (b % 2) + 2 * BitAnd(a / 2, b / 2)
  }

  /** `isPowerOfTwo`: JavaScript's `&` sees only the low 32 bits of its operands. */
  predicate JsIsPowerOfTwo(n: nat) {
    n > 0 && BitAnd(n % TWO32, (n - 1) % TWO32) == 0
  }

  lemma {:induction false} BitAndSelf(a: nat)
    ensures BitAnd(a, a) == a
  {
    if a != 0 { BitAndSelf(a / 2); }
  }

  lemma {:induction false} BitAndPred(a: nat)
    requires a > 0
    ensures BitAnd(a, a - 1) == 0 <==> IsPow2(a)
  {
    if a % 2 == 1 {
      BitAndSelf(a / 2);
      assert (a - 1) / 2 == a / 2;
    } else {
      assert (a - 1) / 2 == a / 2 - 1;
      BitAndPred(a / 2);
    }
  }

  /** The sizes that `isPowerOfTwo` takes for powers of two and are not. */
  predicate Misjudged(n: nat) {
    n > TWO32 && !IsPow2(n) && (n % TWO32 == 0 || IsPow2(n % TWO32))
  }

  lemma {:induction false} Pow2Multiple(n: nat, e: nat) returns (q: nat)
    requires IsPow2(n) && IsPow2(e) && e <= n
    ensures n == q * e
  {
    if e == 1 {
      q := n;
    } else {
      q := Pow2Multiple(n / 2, e / 2);
      assert n == 2 * (q * (e / 2)) == q * (2 * (e / 2));
    }
  }

  lemma Pow2Times16(n: nat)
    requires IsPow2(n)
    ensures IsPow2(16 * n)
  {
    var a, b, c := 2 * n, 4 * n, 8 * n;
    assert a / 2 == n && b / 2 == a && c / 2 == b && (16 * n) / 2 == c;
    assert IsPow2(a) && IsPow2(b) && IsPow2(c);
  }

  lemma Two32IsPow2()
    ensures IsPow2(TWO32)
  {
    Pow2Times16(0x1);
    Pow2Times16(0x10);
    Pow2Times16(0x100);
    Pow2Times16(0x1000);
    Pow2Times16(0x1_0000);
    Pow2Times16(0x10_0000);
    Pow2Times16(0x100_0000);
    Pow2Times16(0x1000_0000);
  }

  lemma LowBits(n: nat)
    requires n > 0
    ensures n % TWO32 > 0 ==> (n - 1) % TWO32 == n % TWO32 - 1
    ensures n < TWO32 ==> n % TWO32 == n
    ensures n == TWO32 ==> n % TWO32 == 0
  {
  }

  lemma Pow2LowBits(n: nat)
    requires IsPow2(n) && n >= TWO32
    ensures n % TWO32 == 0
  {
    Two32IsPow2();
    var q := Pow2Multiple(n, TWO32);
    MultipleOfTwo32(n, q);
  }

  lemma MultipleOfTwo32(n: nat, q: nat)
    requires n == q * TWO32
    ensures n % TWO32 == 0
  {
  }

  /** The 32-bit test is right exactly off the misjudged sizes. */
  lemma JsIsPowerOfTwoExact(n: nat)
    requires n > 0
    ensures JsIsPowerOfTwo(n) <==> IsPow2(n) || Misjudged(n)
  {
    LowBits(n);
    if n % TWO32 == 0 {
      assert BitAnd(n % TWO32, (n - 1) % TWO32) == 0;
      if n == TWO32 { Two32IsPow2(); }
    } else {
      BitAndPred(n % TWO32);
      if IsPow2(n) && n >= TWO32 { Pow2LowBits(n); }
    }
  }
}
