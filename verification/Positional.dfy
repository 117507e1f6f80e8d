/** Positional notation, most significant digit first: numbers and digit strings without a
    leading zero correspond one to one, in every base. */
module Positional {

  predicate InRange(ds: seq<nat>, base: nat) {
    forall i :: 0 <= i < |ds| ==> ds[i] < base
  }

  predicate NoLeadingZero(ds: seq<nat>) {
    ds != [] ==> ds[0] != 0
  }

  function Value(ds: seq<nat>, base: nat): nat {
    if ds == [] then 0 else Value(ds[..|ds| - 1], base) * base + ds[|ds| - 1]
  }

  function Digits(x: nat, base: nat): seq<nat>
    requires base >= 2
  {
    if x == 0 then []
    else
      Shrinks(x, base);
      Digits(x / base, base) + [x % base]
  }

  lemma DigitsStep(x: nat, base: nat)
    requires base >= 2 && x > 0
    ensures x / base >= 0 && Digits(x, base) == Digits(x / base, base) + [x % base]
  {
    Shrinks(x, base);
  }

  lemma Shrinks(x: nat, base: nat)
    requires base >= 2 && x > 0
    ensures 0 <= x / base < x && 0 <= x % base < base && x == (x / base) * base + x % base
  {
    var q := x / base;
    assert q > 0 ==> q * base >= q * 2;
  }

  lemma Less(q: nat, q': nat, base: nat)
    requires q < q'
    ensures q * base + base <= q' * base
  {
    assert q' * base == (q' - q - 1) * base + q * base + base;
  }

  lemma QuotientRemainder(q: nat, base: nat, r: nat)
    requires r < base
    ensures (q * base + r) / base == q && (q * base + r) % base == r
  {
    var x := q * base + r;
    DivMod(x, base);
    Unique(q, r, x / base, x % base, base);
  }

  lemma DivMod(x: nat, base: nat)
    requires base > 0
    ensures x == (x / base) * base + x % base && x % base < base && x / base >= 0
  {
  }

  lemma Unique(q: nat, r: nat, q': nat, r': nat, base: nat)
    requires q * base + r == q' * base + r' && r < base && r' < base
    ensures q == q' && r == r'
  {
    if q < q' { Less(q, q', base); } else if q' < q { Less(q', q, base); }
  }

  lemma {:induction false} DigitsValue(x: nat, base: nat)
    requires base >= 2
    ensures Value(Digits(x, base), base) == x
    ensures InRange(Digits(x, base), base) && NoLeadingZero(Digits(x, base))
  {
    if x > 0 {
      Shrinks(x, base);
      DigitsValue(x / base, base);
      var ds := Digits(x / base, base);
      assert Digits(x, base)[..|ds|] == ds;
    }
  }

  lemma {:induction false} ValuePositive(ds: seq<nat>, base: nat)
    requires base >= 2 && NoLeadingZero(ds)
    ensures ds != [] ==> Value(ds, base) > 0
    decreases |ds|
  {
    if |ds| > 1 {
      ValuePositive(ds[..|ds| - 1], base);
      assert Value(ds[..|ds| - 1], base) * base > 0;
    }
  }

  lemma {:induction false} ValueDigits(ds: seq<nat>, base: nat)
    requires base >= 2 && InRange(ds, base) && NoLeadingZero(ds)
    ensures Digits(Value(ds, base), base) == ds
    decreases |ds|
  {
    if ds != [] {
      var init, last := ds[..|ds| - 1], ds[|ds| - 1];
      ValueDigits(init, base);
      ValuePositive(ds, base);
      QuotientRemainder(Value(init, base), base, last);
      assert ds == init + [last];
    }
  }

  function Zeros(n: nat): (zs: seq<nat>)
    ensures |zs| == n && forall i :: 0 <= i < n ==> zs[i] == 0
  {
    seq(n, i => 0)
  }

  /** The number of leading zeros. */
  function Leading(ds: seq<nat>): (n: nat)
    ensures n <= |ds| && ds[..n] == Zeros(n) && (n < |ds| ==> ds[n] != 0)
  {
    if ds == [] || ds[0] != 0 then 0 else 1 + Leading(ds[1..])
  }

  lemma {:induction false} ValueZeros(n: nat, ds: seq<nat>, base: nat)
    ensures Value(Zeros(n) + ds, base) == Value(ds, base)
    decreases n + |ds|
  {
    var all := Zeros(n) + ds;
    if ds != [] {
      assert all[..|all| - 1] == Zeros(n) + ds[..|ds| - 1];
      ValueZeros(n, ds[..|ds| - 1], base);
    } else if n > 0 {
      assert all[..|all| - 1] == Zeros(n - 1) + [];
      ValueZeros(n - 1, [], base);
    } else {
      assert all == [];
    }
  }

  /** Digits of the value are the digits without the leading zeros. */
  lemma DigitsOfValue(ds: seq<nat>, base: nat)
    requires base >= 2 && InRange(ds, base)
    ensures Digits(Value(ds, base), base) == ds[Leading(ds)..]
  {
    hide Value, Digits;
    var n := Leading(ds);
    assert ds == Zeros(n) + ds[n..];
    ValueZeros(n, ds[n..], base);
    ValueDigits(ds[n..], base);
  }

  // ---- Hexadecimal and bytes ----

  /** `x.toString(16)`, padded to an even length. */
  function EvenHex(x: nat): (hs: seq<nat>)
    ensures |hs| % 2 == 0
  {
    var hs := if x == 0 then [0] else Digits(x, 16);
    if |hs| % 2 == 1 then [0] + hs else hs
  }

  /** The bytes that a hex string of even length spells. */
  function PairHex(hs: seq<nat>): (bs: seq<nat>)
    requires |hs| % 2 == 0
    ensures |bs| == |hs| / 2
  {
    if hs == [] then [] else PairHex(hs[..|hs| - 2]) + [16 * hs[|hs| - 2] + hs[|hs| - 1]]
  }

  lemma {:induction false} PairHexValue(hs: seq<nat>)
    requires |hs| % 2 == 0 && InRange(hs, 16)
    ensures Value(PairHex(hs), 256) == Value(hs, 16) && InRange(PairHex(hs), 256)
    ensures hs != [] ==> PairHex(hs)[0] == 16 * hs[0] + hs[1]
    decreases |hs|
  {
    if hs != [] {
      var n := |hs|;
      PairHexValue(hs[..n - 2]);
      assert hs[..n - 1][..n - 2] == hs[..n - 2];
      var bs := PairHex(hs);
      assert bs[..|bs| - 1] == PairHex(hs[..n - 2]);
    }
  }

  /** Through hexadecimal a positive number gets its base-256 digits; zero gets one zero byte. */
  lemma HexBytes(x: nat)
    ensures PairHex(EvenHex(x)) == if x == 0 then [0] else Digits(x, 256)
  {
    hide Value, Digits, PairHex;
    var hs := EvenHex(x);
    if x == 0 {
      PairOfZeros(hs);
    } else {
      DigitsValue(x, 16);
      DigitsNonEmpty(x, 16);
      ValueZeros(1, Digits(x, 16), 16);
      assert Zeros(1) + Digits(x, 16) == [0] + Digits(x, 16);
      PairHexValue(hs);
      ValueDigits(PairHex(hs), 256);
    }
  }

  lemma PairOfZeros(hs: seq<nat>)
    requires hs == [0, 0]
    ensures PairHex(hs) == [0]
  {
    assert hs[..0] == [];
  }

  lemma DigitsNonEmpty(x: nat, base: nat)
    requires base >= 2 && x > 0
    ensures Digits(x, base) != []
  {
  }
}
