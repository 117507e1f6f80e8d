/** src/config/app-config.service.ts: the IPv6 entries of TRUST_PROXY and the IPv4-mapped space
    ::ffff:0:0/96 (section 2.5.5.2 of RFC 4291). */
module TrustProxy {
  import opened Bytes
  import opened Positional

  const BITS := 128
  const MAPPED_PREFIX := 96
  const MIN_PREFIX := 7

  function Pow2(n: nat): (p: nat)
    ensures p > 0
  {
    if n == 0 then 1 else 2 * Pow2(n - 1)
  }

  /** `a >> n`. */
  function ShiftRight(a: nat, n: nat): nat {
    DivMod(a, Pow2(n));
    a / Pow2(n)
  }

  /** Bitwise OR of two naturals. */
  function BitOr(a: nat, b: nat): nat {
    if a == 0 then b
    else if b == 0 then a
    else (if a % 2 == 1 || b % 2 == 1 then 1 else 0) + 2 * BitOr(a / 2, b / 2)
  }

  /** ::ffff:0:0, that is 0xffff << 32. */
  function MappedNet(): nat {
    0xffff * Pow2(32)
  }

  // ---- The value of an address ----

  /** The eight groups of an address: a head, and after `::` a tail, with the zero groups between. */
  function Groups(head: seq<nat>, tail: Option<seq<nat>>): (g: seq<nat>)
    requires tail.Some? ==> |head| + |tail.value| <= 8
    ensures head <= g && (tail.None? ==> g == head)
    ensures tail.Some? ==>
      |g| == 8 && g[8 - |tail.value|..] == tail.value && forall i :: |head| <= i < 8 - |tail.value| ==> g[i] == 0
  {
    match tail
    case None => head
    case Some(t) => head + Zeros(8 - |head| - |t|) + t
  }

  /** The reduce of `ipv6ToBigInt`: (acc << 16) | group. */
  function ToBigInt(groups: seq<nat>): nat {
    if groups == [] then 0
    else BitOr(ToBigInt(groups[..|groups| - 1]) * 0x1_0000, groups[|groups| - 1])
  }

  lemma {:induction false} OrBelow(a: nat, g: nat, k: nat)
    requires g < Pow2(k)
    ensures BitOr(a * Pow2(k), g) == a * Pow2(k) + g
    decreases k
  {
    if k > 0 && a > 0 && g > 0 {
      var p := Pow2(k - 1);
      assert a * Pow2(k) == 2 * (a * p);
      assert (2 * (a * p)) / 2 == a * p && (2 * (a * p)) % 2 == 0;
      OrBelow(a, g / 2, k - 1);
    } else if a > 0 {
      assert g == 0;
    }
  }

  lemma Pow2Sixteen()
    ensures Pow2(16) == 0x1_0000
  {
    assert Pow2(4) == 16;
    assert Pow2(8) == 256;
    assert Pow2(12) == 4096;
  }

  /** The reduce computes the base-65536 value of the groups. */
  lemma {:induction false} AddressValue(groups: seq<nat>)
    requires InRange(groups, 0x1_0000)
    ensures ToBigInt(groups) == Value(groups, 0x1_0000)
    decreases |groups|
  {
    hide BitOr, Pow2;
    if groups != [] {
      var n := |groups| - 1;
      AddressValue(groups[..n]);
      Pow2Sixteen();
      OrBelow(ToBigInt(groups[..n]), groups[n], 16);
    }
  }

  /** `ipv6ToBigInt` on an address split at its `::`. */
  function Ipv6ToBigInt(head: seq<nat>, tail: Option<seq<nat>>): (v: nat)
    requires tail.Some? ==> |head| + |tail.value| <= 8
    requires InRange(head, 0x1_0000) && (tail.Some? ==> InRange(tail.value, 0x1_0000))
    ensures v == Value(Groups(head, tail), 0x1_0000)
  {
    AddressValue(Groups(head, tail));
    ToBigInt(Groups(head, tail))
  }

  lemma {:induction false} ValueInjective(a: seq<nat>, b: seq<nat>, base: nat)
    requires |a| == |b| && InRange(a, base) && InRange(b, base) && Value(a, base) == Value(b, base)
    ensures a == b
    decreases |a|
  {
    if a != [] {
      var n := |a| - 1;
      Unique(Value(a[..n], base), a[n], Value(b[..n], base), b[n], base);
      ValueInjective(a[..n], b[..n], base);
      assert a == a[..n] + [a[n]] && b == b[..n] + [b[n]];
    }
  }

  /** Two spellings have one value exactly when they expand to the same eight groups. */
  lemma SpellingsAgree(h: seq<nat>, t: Option<seq<nat>>, h': seq<nat>, t': Option<seq<nat>>)
    requires InRange(h, 0x1_0000) && InRange(h', 0x1_0000)
    requires match t case None => |h| == 8 case Some(s) => |h| + |s| <= 8 && InRange(s, 0x1_0000)
    requires match t' case None => |h'| == 8 case Some(s) => |h'| + |s| <= 8 && InRange(s, 0x1_0000)
    ensures Ipv6ToBigInt(h, t) == Ipv6ToBigInt(h', t') <==> Groups(h, t) == Groups(h', t')
  {
    hide Value;
    if Ipv6ToBigInt(h, t) == Ipv6ToBigInt(h', t') {
      ValueInjective(Groups(h, t), Groups(h', t'), 0x1_0000);
    }
  }

  // ---- Ranges ----

  /** x is an address of net/prefix: it agrees with net on the first prefix bits. */
  predicate InCidr(x: nat, net: nat, prefix: nat)
    requires prefix <= BITS
  {
    ShiftRight(x, BITS - prefix) == ShiftRight(net, BITS - prefix)
  }

  predicate OverlapsMapped(addr: nat, prefix: nat)
    requires prefix <= BITS
  {
    var common := if prefix < MAPPED_PREFIX then prefix else MAPPED_PREFIX;
    ShiftRight(addr, BITS - common) == ShiftRight(MappedNet(), BITS - common)
  }

  lemma {:induction false} Pow2Sum(a: nat, b: nat)
    ensures Pow2(a + b) == Pow2(a) * Pow2(b)
    decreases b
  {
    if b > 0 {
      Pow2Sum(a, b - 1);
      assert Pow2(a) * (2 * Pow2(b - 1)) == 2 * (Pow2(a) * Pow2(b - 1));
    }
  }

  lemma DivTwice(x: nat, p: nat, q: nat)
    requires p > 0 && q > 0
    ensures p * q > 0 && (x / p) / q == x / (p * q)
  {
    var a: nat := x / p;
    var b: nat := a / q;
    DivMod(x, p);
    DivMod(a, q);
    var r := (a % q) * p + x % p;
    assert x == (b * q + a % q) * p + x % p == b * (p * q) + r by {
      assert (b * q + a % q) * p == b * q * p + (a % q) * p;
      assert b * q * p == b * (p * q);
    }
    assert r < p * q by { Less(a % q, q, p); assert q * p == p * q; }
    QuotientRemainder(b, p * q, r);
  }

  /** Agreeing on more leading bits implies agreeing on fewer. */
  lemma Coarser(x: nat, y: nat, fine: nat, coarse: nat)
    requires fine <= coarse && ShiftRight(x, fine) == ShiftRight(y, fine)
    ensures ShiftRight(x, coarse) == ShiftRight(y, coarse)
  {
    hide Pow2;
    Pow2Sum(fine, coarse - fine);
    DivTwice(x, Pow2(fine), Pow2(coarse - fine));
    DivTwice(y, Pow2(fine), Pow2(coarse - fine));
  }

  /** The test is exact: it is true if and only if the two ranges share an address. */
  lemma OverlapExact(addr: nat, prefix: nat)
    requires prefix <= BITS
    ensures OverlapsMapped(addr, prefix) <==>
            exists x: nat :: InCidr(x, addr, prefix) && InCidr(x, MappedNet(), MAPPED_PREFIX)
  {
    hide ShiftRight, MappedNet;
    var net := MappedNet();
    if OverlapsMapped(addr, prefix) {
      var x := if prefix < MAPPED_PREFIX then net else addr;
      assert InCidr(x, addr, prefix) && InCidr(x, net, MAPPED_PREFIX);
    }
    if x: nat :| InCidr(x, addr, prefix) && InCidr(x, net, MAPPED_PREFIX) {
      if prefix < MAPPED_PREFIX {
        Coarser(x, net, BITS - MAPPED_PREFIX, BITS - prefix);
      } else {
        Coarser(x, addr, BITS - prefix, BITS - MAPPED_PREFIX);
      }
    }
  }

  /** An IPv6 entry of the list: its address and optional prefix. */
  predicate Accepted(addr: nat, prefix: Option<int>) {
    var p := if prefix.Some? then prefix.value else BITS;
    MIN_PREFIX <= p <= BITS && !OverlapsMapped(addr, p)
  }

  /** A range is an interval: the addresses from net with its host bits cleared on, as many as
      there are host bits. */
  lemma CidrIsInterval(x: nat, net: nat, prefix: nat)
    requires prefix <= 128
    ensures var size := Pow2(128 - prefix);
            InCidr(x, net, prefix) <==> net - net % size <= x < net - net % size + size
  {
    hide Pow2;
    var size := Pow2(128 - prefix);
    DivMod(x, size);
    DivMod(net, size);
    var a, b := x / size, net / size;
    if a < b { Less(a, b, size); } else if b < a { Less(b, a, size); }
  }

  lemma MappedInterval()
    ensures Pow2(128 - 96) == 0x1_0000_0000 && MappedNet() == 0xffff_0000_0000
  {
    Pow2Sixteen();
    Pow2Sum(16, 16);
  }

  /** The mapped form of an IPv4 peer, as the value of its eight groups. */
  lemma MappedSpelled(g: nat, h: nat)
    requires g < 0x1_0000 && h < 0x1_0000
    ensures Ipv6ToBigInt([0, 0, 0, 0, 0, 0xffff, g, h], None) == 0xffff_0000_0000 + g * 0x1_0000 + h
  {
    hide Value;
    var groups := [0, 0, 0, 0, 0, 0xffff, g, h];
    assert groups == Zeros(5) + [0xffff, g, h];
    ValueZeros(5, [0xffff, g, h], 0x1_0000);
    ThreeGroups(0xffff, g, h);
  }

  lemma ThreeGroups(f: nat, g: nat, h: nat)
    ensures Value([f, g, h], 0x1_0000) == f * 0x1_0000_0000 + g * 0x1_0000 + h
  {
    assert [f, g, h][..2] == [f, g] && [f, g][..1] == [f] && [f][..0] == [];
    assert Value([f], 0x1_0000) == f;
  }

  /** An IPv6 entry is accepted exactly when its prefix is from 7 to 128 (128 when it has none)
      and its range holds the mapped form of no IPv4 peer. */
  lemma AcceptedExactly(addr: nat, prefix: Option<int>)
    ensures var p := if prefix.Some? then prefix.value else 128;
            Accepted(addr, prefix) <==>
            && 7 <= p <= 128
            && forall g: nat, h: nat :: g < 0x1_0000 && h < 0x1_0000 ==>
                 !InCidr(Ipv6ToBigInt([0, 0, 0, 0, 0, 0xffff, g, h], None), addr, p)
  {
    hide InCidr, OverlapsMapped, MappedNet, Ipv6ToBigInt;
    var p := if prefix.Some? then prefix.value else 128;
    if 7 <= p <= 128 {
      OverlapExact(addr, p);
      if OverlapsMapped(addr, p) {
        var x: nat :| InCidr(x, addr, p) && InCidr(x, MappedNet(), MAPPED_PREFIX);
        var g, h := MappedGroups(x);
        assert InCidr(Ipv6ToBigInt([0, 0, 0, 0, 0, 0xffff, g, h], None), addr, p);
      } else {
        forall g: nat, h: nat | g < 0x1_0000 && h < 0x1_0000
          ensures !InCidr(Ipv6ToBigInt([0, 0, 0, 0, 0, 0xffff, g, h], None), addr, p)
        {
          GroupsMapped(g, h);
        }
      }
    }
  }

  lemma MappedGroups(x: nat) returns (g: nat, h: nat)
    requires InCidr(x, MappedNet(), MAPPED_PREFIX)
    ensures g < 0x1_0000 && h < 0x1_0000 && x == Ipv6ToBigInt([0, 0, 0, 0, 0, 0xffff, g, h], None)
  {
    hide InCidr, Pow2, MappedNet, Ipv6ToBigInt;
    CidrIsInterval(x, MappedNet(), 96);
    MappedInterval();
    var y := x - 0xffff_0000_0000;
    g, h := y / 0x1_0000, y % 0x1_0000;
    MappedSpelled(g, h);
  }

  lemma GroupsMapped(g: nat, h: nat)
    requires g < 0x1_0000 && h < 0x1_0000
    ensures InCidr(Ipv6ToBigInt([0, 0, 0, 0, 0, 0xffff, g, h], None), MappedNet(), MAPPED_PREFIX)
  {
    hide InCidr, Pow2, MappedNet, Ipv6ToBigInt;
    MappedSpelled(g, h);
    CidrIsInterval(0xffff_0000_0000 + g * 0x1_0000 + h, MappedNet(), 96);
    MappedInterval();
  }
}
