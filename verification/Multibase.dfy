/** src/common/multibase.ts: base58btc and the multibase form of Ed25519 keys. */
module Multibase {
  import opened Bytes
  import opened Positional

  const BASE := 58

  /** The d-th character of the base58 alphabet, which runs through the digits, upper-case and
      lower-case letters in order, without `0`, `I`, `O` and `l`. */
  function Char(d: nat): char
    requires d < BASE
  {
    if d < 9 then '1' + d as char
    else if d < 17 then 'A' + (d - 9) as char
    else if d < 22 then 'J' + (d - 17) as char
    else if d < 33 then 'P' + (d - 22) as char
    else if d < 44 then 'a' + (d - 33) as char
    else 'm' + (d - 44) as char
  }

  lemma AlphabetSpelled()
    ensures "123456789ABCDEFGHJKLMNPQRSTUVWXYZabcdefghijkmnopqrstuvwxyz" == [
      Char(0), Char(1), Char(2), Char(3), Char(4), Char(5), Char(6), Char(7), Char(8), Char(9), Char(10),
      Char(11), Char(12), Char(13), Char(14), Char(15), Char(16), Char(17), Char(18), Char(19), Char(20),
      Char(21), Char(22), Char(23), Char(24), Char(25), Char(26), Char(27), Char(28), Char(29), Char(30),
      Char(31), Char(32), Char(33), Char(34), Char(35), Char(36), Char(37), Char(38), Char(39), Char(40),
      Char(41), Char(42), Char(43), Char(44), Char(45), Char(46), Char(47), Char(48), Char(49), Char(50),
      Char(51), Char(52), Char(53), Char(54), Char(55), Char(56), Char(57)]
  {
  }

  /** The digit of a character, None outside the alphabet. */
  function Index(c: char): (r: Option<nat>)
    ensures r.Some? ==> r.value < BASE && Char(r.value) == c
  {
    if '1' <= c <= '9' then Some(c as nat - '1' as nat)
    else if 'A' <= c <= 'H' then Some(c as nat - 'A' as nat + 9)
    else if 'J' <= c <= 'N' then Some(c as nat - 'J' as nat + 17)
    else if 'P' <= c <= 'Z' then Some(c as nat - 'P' as nat + 22)
    else if 'a' <= c <= 'k' then Some(c as nat - 'a' as nat + 33)
    else if 'm' <= c <= 'z' then Some(c as nat - 'm' as nat + 44)
    else None
  }

  lemma IndexOfChar(d: nat)
    requires d < BASE
    ensures Index(Char(d)) == Some(d)
  {
  }

  predicate IsBase58(s: string) {
    forall i :: 0 <= i < |s| ==> Index(s[i]).Some?
  }

  function Chars(ds: seq<nat>): (s: string)
    requires InRange(ds, BASE)
    ensures |s| == |ds|
  {
    seq(|ds|, i requires 0 <= i < |ds| => Char(ds[i]))
  }

  function Indices(s: string): (ds: seq<nat>)
    requires IsBase58(s)
    ensures |ds| == |s| && InRange(ds, BASE)
  {
    seq(|s|, i requires 0 <= i < |s| => Index(s[i]).value)
  }

  lemma CharsIndices(s: string)
    requires IsBase58(s)
    ensures Chars(Indices(s)) == s
  {
  }

  lemma IndicesChars(ds: seq<nat>)
    requires InRange(ds, BASE)
    ensures IsBase58(Chars(ds)) && Indices(Chars(ds)) == ds
  {
    forall i | 0 <= i < |ds| ensures Index(Chars(ds)[i]) == Some(ds[i]) { IndexOfChar(ds[i]); }
  }

  function Nats(b: Bytes): (ds: seq<nat>)
    ensures |ds| == |b| && InRange(ds, 256)
  {
    seq(|b|, i requires 0 <= i < |b| => b[i] as nat)
  }

  function OfNats(ds: seq<nat>): (b: Bytes)
    requires InRange(ds, 256)
    ensures |b| == |ds| && Nats(b) == ds
  {
    seq(|ds|, i requires 0 <= i < |ds| => ds[i] as byte)
  }

  lemma OfNatsNats(b: Bytes)
    ensures OfNats(Nats(b)) == b
  {
  }

  // ---- The codec: what it computes, and the loops that compute it ----

  /** Leading zeros kept as they are, the rest rewritten from base a to base b. */
  function Rebase(ds: seq<nat>, a: nat, b: nat): (r: seq<nat>)
    requires b >= 2
  {
    Zeros(Leading(ds)) + Digits(Value(ds, a), b)
  }

  lemma RebaseInRange(ds: seq<nat>, a: nat, b: nat)
    requires b >= 2
    ensures InRange(Rebase(ds, a, b), b)
  {
    DigitsValue(Value(ds, a), b);
  }

  function Encoded(buf: Bytes): (s: string)
    ensures IsBase58(s)
  {
    RebaseInRange(Nats(buf), 256, BASE);
    IndicesChars(Rebase(Nats(buf), 256, BASE));
    Chars(Rebase(Nats(buf), 256, BASE))
  }

  /** All zeros decode to one zero byte too many. */
  function Decoded(body: string): Bytes
    requires IsBase58(body)
  {
    var ds := Indices(body);
    RebaseInRange(ds, BASE, 256);
    if Value(ds, BASE) == 0 then OfNats(Zeros(Leading(ds) + 1)) else OfNats(Rebase(ds, BASE, 256))
  }

  method Base58btcEncode(buf: Bytes) returns (out: string)
    ensures out == Encoded(buf)
  {
    hide Value, Leading, Digits, Chars, Char, Encoded;
    ghost var ds := Nats(buf);
    var x: nat := Value(Nats(buf), 256);
    ghost var all := x;
    out := "";
    EncodeStart(x);
    while x > 0
      invariant InRange(Digits(x, BASE), BASE) && InRange(Digits(all, BASE), BASE)
      invariant Chars(Digits(x, BASE)) + out == Chars(Digits(all, BASE))
    {
      EncodeStep(x, out);
      var rem := x % BASE;
      x := x / BASE;
      out := [Char(rem)] + out;
    }
    EncodeStart(x);
    assert [] + out == out;
    ghost var core := out;
    var k := 0;
    PrependZero(0, core);
    LeadingStep(ds, 0);
    while k < |buf| && buf[k] == 0
      invariant k <= |buf| && out == Chars(Zeros(k)) + core
      invariant Leading(ds) == k + Leading(ds[k..])
    {
      LeadingStep(ds, k);
      PrependZero(k, core);
      out := [Char(0)] + out;
      k := k + 1;
    }
    LeadingStep(ds, k);
    EncodedParts(buf);
  }

  lemma EncodeStart(x: nat)
    ensures InRange(Digits(x, BASE), BASE) && (x == 0 ==> Chars(Digits(x, BASE)) == [])
    ensures Chars(Digits(x, BASE)) + "" == Chars(Digits(x, BASE))
  {
    DigitsValue(x, BASE);
  }

  lemma EncodeStep(x: nat, out: string)
    requires x > 0
    ensures x / BASE >= 0 && InRange(Digits(x, BASE), BASE) && InRange(Digits(x / BASE, BASE), BASE)
    ensures Chars(Digits(x, BASE)) + out == Chars(Digits(x / BASE, BASE)) + ([Char(x % BASE)] + out)
  {
    hide Digits, Char, Chars;
    var q: nat, rem := x / BASE, x % BASE;
    DigitsValue(x, BASE);
    DigitsValue(q, BASE);
    DigitsStep(x, BASE);
    CharsAppend(Digits(q, BASE), rem);
    Reassociate(Chars(Digits(q, BASE)), [Char(rem)], out);
  }

  lemma Reassociate(a: string, b: string, c: string)
    ensures (a + b) + c == a + (b + c)
  {
  }

  lemma CharsAppend(front: seq<nat>, d: nat)
    requires InRange(front, BASE) && d < BASE
    ensures InRange(front + [d], BASE) && Chars(front + [d]) == Chars(front) + [Char(d)]
  {
    hide Char;
  }

  lemma PrependZero(k: nat, core: string)
    ensures Chars(Zeros(k + 1)) + core == [Char(0)] + (Chars(Zeros(k)) + core)
    ensures k == 0 ==> Chars(Zeros(k)) + core == core
  {
    assert Chars(Zeros(k + 1)) == [Char(0)] + Chars(Zeros(k));
  }

  lemma EncodedParts(buf: Bytes)
    ensures InRange(Digits(Value(Nats(buf), 256), BASE), BASE)
    ensures Encoded(buf) == Chars(Zeros(Leading(Nats(buf)))) + Chars(Digits(Value(Nats(buf), 256), BASE))
  {
    hide Value, Leading, Digits, Char;
    var ds := Nats(buf);
    var zs, all := Zeros(Leading(ds)), Digits(Value(ds, 256), BASE);
    DigitsValue(Value(ds, 256), BASE);
    assert Chars(zs + all) == Chars(zs) + Chars(all);
  }

  lemma LeadingStep(ds: seq<nat>, k: nat)
    requires k <= |ds|
    ensures k == 0 ==> ds[k..] == ds
    ensures Leading(ds[k..]) == if k == |ds| || ds[k] != 0 then 0 else 1 + Leading(ds[k + 1..])
  {
    if k < |ds| { assert ds[k..][1..] == ds[k + 1..]; }
  }

  method Base58btcDecode(body: string) returns (decoded: Bytes)
    requires IsBase58(body)
    ensures decoded == Decoded(body)
  {
    hide Leading, PairHex, Digits, EvenHex, Value, Char, Decoded, OfNats;
    ghost var ds := Indices(body);
    var x := 0;
    ValueStep(ds, 0);
    for k := 0 to |body|
      invariant x == Value(ds[..k], BASE)
    {
      ValueStep(ds, k);
      x := x * BASE + Index(body[k]).value;
    }
    assert ds[..|body|] == ds;
    var hex := EvenHex(x);
    HexBytesInRange(x);
    var bytes := OfNats(PairHex(hex));
    var leadingZeros := 0;
    LeadingStep(ds, 0);
    IndexOfChar(0);
    while leadingZeros < |body| && body[leadingZeros] == Char(0)
      invariant leadingZeros <= |body| && Leading(ds) == leadingZeros + Leading(ds[leadingZeros..])
    {
      LeadingStep(ds, leadingZeros);
      leadingZeros := leadingZeros + 1;
    }
    LeadingStep(ds, leadingZeros);
    DecodedParts(body);
    decoded := OfNats(Zeros(leadingZeros)) + bytes;
  }

  lemma ValueStep(ds: seq<nat>, k: nat)
    requires k <= |ds|
    ensures k == 0 ==> Value(ds[..k], BASE) == 0
    ensures k < |ds| ==> Value(ds[..k + 1], BASE) == Value(ds[..k], BASE) * BASE + ds[k]
  {
    if k < |ds| { assert ds[..k + 1][..k] == ds[..k]; }
  }

  lemma HexBytesInRange(x: nat)
    ensures InRange(PairHex(EvenHex(x)), 256)
  {
    HexBytes(x);
    DigitsValue(x, 256);
  }

  lemma DecodedParts(body: string)
    requires IsBase58(body)
    ensures var ds := Indices(body);
            var bytes := PairHex(EvenHex(Value(ds, BASE)));
            InRange(bytes, 256) && Decoded(body) == OfNats(Zeros(Leading(ds))) + OfNats(bytes)
  {
    hide Value, Leading, Digits, PairHex, EvenHex;
    var ds := Indices(body);
    var x, zs := Value(ds, BASE), Zeros(Leading(ds));
    HexBytes(x);
    HexBytesInRange(x);
    RebaseInRange(ds, BASE, 256);
    var bytes := PairHex(EvenHex(x));
    assert Zeros(|zs| + 1) == zs + [0];
    assert OfNats(zs + bytes) == OfNats(zs) + OfNats(bytes);
  }

  /** What an encoding is, apart from how it is computed: the base-58 numeral of the number that
      the bytes are in base 256, behind one `1` for each leading zero byte. */
  lemma EncodedMeans(buf: Bytes)
    ensures var ds := Indices(Encoded(buf));
            && Value(ds, 58) == Value(Nats(buf), 256)
            && Leading(ds) == Leading(Nats(buf))
  {
    hide Value, Digits, Leading;
    var ds := Nats(buf);
    var x := Value(ds, 256);
    RebaseInRange(ds, 256, BASE);
    IndicesChars(Rebase(ds, 256, BASE));
    DigitsValue(x, BASE);
    ValueZeros(Leading(ds), Digits(x, BASE), BASE);
    LeadingOfZeros(Leading(ds), Digits(x, BASE));
  }

  /** Three encodings, spelled out. */
  lemma EncodedVectors()
    ensures Encoded([0x61]) == "2g"
    ensures Encoded([0x62, 0x62, 0x62]) == "a3gV"
    ensures Encoded([0x00, 0x00, 0x61]) == "112g"
  {
    hide Value, Digits, Leading;
    VectorNumbers();
    EncodedParts([0x61]);
    EncodedParts([0x62, 0x62, 0x62]);
    EncodedParts([0x00, 0x00, 0x61]);
    assert Nats([0x61]) == [0x61];
    assert Nats([0x62, 0x62, 0x62]) == [0x62, 0x62, 0x62];
    assert Nats([0x00, 0x00, 0x61]) == [0x00, 0x00, 0x61];
    assert Chars(Zeros(0)) == "" && Chars(Zeros(2)) == "11";
    assert Chars([1, 39]) == "2g" && Chars([33, 2, 39, 28]) == "a3gV";
  }

  lemma VectorNumbers()
    ensures Value([0x61], 256) == 97 && Value([0, 0, 0x61], 256) == 97
    ensures Value([0x62, 0x62, 0x62], 256) == 6447714
    ensures Digits(97, 58) == [1, 39] && Digits(6447714, 58) == [33, 2, 39, 28]
    ensures Leading([0x61]) == 0 && Leading([0x62, 0x62, 0x62]) == 0 && Leading([0, 0, 0x61]) == 2
  {
    assert [0x61][..0] == [] && [0, 0, 0x61][..2] == [0, 0] && [0, 0][..1] == [0] && [0][..0] == [];
    assert [0x62, 0x62, 0x62][..2] == [0x62, 0x62] && [0x62, 0x62][..1] == [0x62] && [0x62][..0] == [];
    assert Value([0], 256) == 0 && Value([0, 0], 256) == 0;
    assert Value([0x62], 256) == 0x62 && Value([0x62, 0x62], 256) == 25186;
    assert Digits(1, 58) == [1] && Digits(33, 58) == [33] && Digits(1916, 58) == [33, 2];
    assert Digits(111167, 58) == [33, 2, 39];
    assert [0, 0, 0x61][1..] == [0, 0x61] && [0, 0x61][1..] == [0x61];
  }

  // ---- Round trips ----

  predicate AllZero(ds: seq<nat>) {
    forall i :: 0 <= i < |ds| ==> ds[i] == 0
  }

  lemma LeadingOfZeros(n: nat, ds: seq<nat>)
    requires NoLeadingZero(ds)
    ensures Leading(Zeros(n) + ds) == n
    decreases n
  {
    var all := Zeros(n) + ds;
    if n > 0 {
      assert all[1..] == Zeros(n - 1) + ds;
      LeadingOfZeros(n - 1, ds);
    }
  }

  lemma ZeroValue(ds: seq<nat>, base: nat)
    requires base >= 2
    ensures Value(ds, base) == 0 <==> AllZero(ds)
    ensures AllZero(ds) ==> ds == Zeros(|ds|) && Leading(ds) == |ds|
  {
    hide Value;
    var n := Leading(ds);
    assert ds == Zeros(n) + ds[n..];
    ValueZeros(n, ds[n..], base);
    ValuePositive(ds[n..], base);
    ValueOfNothing(base);
    if AllZero(ds) {
      assert ds == Zeros(|ds|) + [];
      LeadingOfZeros(|ds|, []);
    }
  }

  lemma ValueOfNothing(base: nat)
    ensures Value([], base) == 0
  {
  }

  /** Rewriting to another base and back restores every digit string. */
  lemma RebaseRoundTrip(ds: seq<nat>, a: nat, b: nat)
    requires a >= 2 && b >= 2 && InRange(ds, a)
    ensures Rebase(Rebase(ds, a, b), b, a) == ds
    ensures AllZero(Rebase(ds, a, b)) <==> AllZero(ds)
    ensures AllZero(ds) ==> Rebase(ds, a, b) == ds
  {
    hide Value, Digits, Leading, AllZero;
    var n, x := Leading(ds), Value(ds, a);
    DigitsValue(x, b);
    ValueZeros(n, Digits(x, b), b);
    LeadingOfZeros(n, Digits(x, b));
    DigitsOfValue(ds, a);
    assert ds == Zeros(n) + ds[n..];
    ZeroValue(ds, a);
    ZeroValue(Rebase(ds, a, b), b);
    if AllZero(ds) { assert ds[n..] == []; NoDigits(b); }
  }

  lemma NoDigits(b: nat)
    requires b >= 2
    ensures Digits(0, b) == []
  {
  }

  /** Decoding inverts encoding exactly on byte strings with a non-zero byte; on the others it
      returns one zero byte more. */
  lemma DecodeEncode(buf: Bytes)
    ensures Decoded(Encoded(buf)) == if AllZero(Nats(buf)) then buf + [0] else buf
  {
    hide Value, Digits, Leading, AllZero, Rebase;
    var ds := Nats(buf);
    var r := Rebase(ds, 256, BASE);
    RebaseInRange(ds, 256, BASE);
    IndicesChars(r);
    RebaseRoundTrip(ds, 256, BASE);
    RebaseInRange(r, BASE, 256);
    ZeroValue(r, BASE);
    OfNatsNats(buf);
    if AllZero(ds) {
      assert Nats(buf + [0]) == Zeros(|ds| + 1) by { ZeroValue(ds, 256); }
      OfNatsNats(buf + [0]);
    }
  }

  /** Encoding inverts decoding exactly on base58 strings with a character other than '1'; on
      the others it returns one '1' more. */
  lemma EncodeDecode(body: string)
    requires IsBase58(body)
    ensures Encoded(Decoded(body)) == if AllZero(Indices(body)) then body + [Char(0)] else body
  {
    hide Value, Digits, Leading, AllZero, Rebase;
    var ds := Indices(body);
    CharsIndices(body);
    RebaseRoundTrip(ds, BASE, 256);
    RebaseInRange(ds, BASE, 256);
    ZeroValue(ds, BASE);
    if AllZero(ds) {
      var zs := Zeros(|ds| + 1);
      ZerosAllZero(|ds| + 1);
      RebaseRoundTrip(zs, 256, BASE);
      assert zs == ds + [0];
      assert Chars(zs) == Chars(ds) + [Char(0)];
    }
  }

  lemma ZerosAllZero(n: nat)
    ensures AllZero(Zeros(n))
  {
  }

  // ---- Ed25519 keys ----

  const ED25519_PREFIX: Bytes := [0xed, 0x01]
  const P256_PREFIX: Bytes := [0x80, 0x24]
  const KEY_LENGTH := 32
  const DID_KEY: string := "did:key:"

  datatype Outcome =
    | Ok(publicKey: Bytes)
    | NotMultibase
    | EmptyValue
    | BadCharacter
    | TooShort
    | UnsupportedAlgorithm(isP256: bool)
    | WrongLength

  function EncodeEd25519(publicKey: Bytes): string {
    "z" + Encoded(ED25519_PREFIX + publicKey)
  }

  /** The input up to its first '#'. */
  function WithoutFragment(s: string): (t: string)
    ensures '#' !in t
  {
    if s == "" || s[0] == '#' then "" else [s[0]] + WithoutFragment(s[1..])
  }

  /** The multibase value inside a bare value or a `did:key` identifier. */
  function MultibaseOf(input: string): string {
    var s := WithoutFragment(input);
    if DID_KEY <= s then s[|DID_KEY|..] else s
  }

  function DecodeEd25519(input: string): Outcome {
    var m := MultibaseOf(input);
    if !("z" <= m) then NotMultibase
    else if m[1..] == "" then EmptyValue
    else if !IsBase58(m[1..]) then BadCharacter
    else
      var decoded := Decoded(m[1..]);
      if |decoded| < 2 then TooShort
      else if decoded[..2] != ED25519_PREFIX then UnsupportedAlgorithm(decoded[..2] == P256_PREFIX)
      else if |decoded[2..]| != KEY_LENGTH then WrongLength
      else Ok(decoded[2..])
  }

  lemma PrefixedRoundTrip(publicKey: Bytes)
    ensures Decoded(Encoded(ED25519_PREFIX + publicKey)) == ED25519_PREFIX + publicKey
    ensures Encoded(ED25519_PREFIX + publicKey) != ""
  {
    hide Encoded, Decoded;
    var b := ED25519_PREFIX + publicKey;
    DecodeEncode(b);
    assert Nats(b)[0] == 0xed;
    if Encoded(b) == "" { NothingDecodes(); }
  }

  lemma NothingDecodes()
    ensures Decoded("") == [0]
  {
    assert Indices("") == [];
  }

  lemma NotAllZero(b: Bytes)
    requires |b| >= 2 && b[..2] == ED25519_PREFIX
    ensures !AllZero(Nats(b))
  {
    assert Nats(b)[0] == b[..2][0] as nat;
  }

  /** Canonicity, both ways: an input decodes to a key exactly when the multibase value in it is
      the encoding of that key and the key has 32 bytes. */
  lemma DecodesExactly(input: string, publicKey: Bytes)
    ensures DecodeEd25519(input) == Ok(publicKey) <==>
            |publicKey| == 32 && MultibaseOf(input) == "z" + Encoded([0xed, 0x01] + publicKey)
  {
    hide Encoded, Decoded, IsBase58, MultibaseOf;
    var m := MultibaseOf(input);
    PrefixedRoundTrip(publicKey);
    if DecodeEd25519(input) == Ok(publicKey) {
      var body := m[1..];
      var decoded := Decoded(body);
      assert decoded == decoded[..2] + decoded[2..];
      EncodeDecode(body);
      NotAllZero(decoded);
      if AllZero(Indices(body)) { ZerosDecode(body); }
      assert m == "z" + body;
    }
    if m == EncodeEd25519(publicKey) {
      assert m[1..] == Encoded(ED25519_PREFIX + publicKey);
      assert (ED25519_PREFIX + publicKey)[..2] == ED25519_PREFIX;
      assert (ED25519_PREFIX + publicKey)[2..] == publicKey;
    }
  }

  lemma ZerosDecode(body: string)
    requires IsBase58(body) && AllZero(Indices(body))
    ensures AllZero(Nats(Decoded(body)))
  {
    ZeroValue(Indices(body), BASE);
  }

  lemma {:induction false} FragmentDropped(s: string, rest: string)
    requires '#' !in s
    ensures WithoutFragment(s + "#" + rest) == s && WithoutFragment(s) == s
  {
    if s == "" {
      assert s + "#" + rest == "#" + rest;
    } else {
      FragmentDropped(s[1..], rest);
      assert (s + "#" + rest)[1..] == s[1..] + "#" + rest;
      assert s == [s[0]] + s[1..];
    }
  }

  /** Where the multibase value of an input is: after `did:key:`, if that is there, and before the
      first '#'. */
  lemma MultibaseSpelled(s: string, fragment: string)
    requires '#' !in s
    ensures MultibaseOf(s) == if "did:key:" <= s then s[8..] else s
    ensures MultibaseOf(s + "#" + fragment) == MultibaseOf(s)
  {
    FragmentDropped(s, fragment);
  }

  /** Every refusal names its reason: what the multibase value lacks first. */
  lemma RefusedExactly(input: string)
    ensures var m, o := MultibaseOf(input), DecodeEd25519(input);
            var body := if m == "" then "" else m[1..];
            && (o == NotMultibase <==> m == "" || m[0] != 'z')
            && (o == EmptyValue <==> m == "z")
            && (o == BadCharacter <==> |m| >= 2 && m[0] == 'z' && exists i :: 0 <= i < |body| && Index(body[i]).None?)
            && (o.TooShort? || o.UnsupportedAlgorithm? || o.WrongLength? || o.Ok? <==>
                 |m| >= 2 && m[0] == 'z' && IsBase58(body))
    ensures var m, o := MultibaseOf(input), DecodeEd25519(input);
            |m| >= 2 && m[0] == 'z' && IsBase58(m[1..]) ==>
              var d := Decoded(m[1..]);
              && (o == TooShort <==> |d| < 2)
              && (o == UnsupportedAlgorithm(true) <==> |d| >= 2 && d[0] == 0x80 && d[1] == 0x24)
              && (o == UnsupportedAlgorithm(false) <==>
                   |d| >= 2 && !(d[0] == 0x80 && d[1] == 0x24) && !(d[0] == 0xed && d[1] == 0x01))
              && (o == WrongLength <==> |d| >= 2 && d[0] == 0xed && d[1] == 0x01 && |d| != 34)
  {
    hide Decoded, Index, MultibaseOf;
    var m := MultibaseOf(input);
    if |m| >= 2 && m[0] == 'z' && IsBase58(m[1..]) {
      var d := Decoded(m[1..]);
      if |d| >= 2 {
        assert d[..2] == [d[0], d[1]];
        assert d[..2] == P256_PREFIX || d[..2] != P256_PREFIX;
      }
    }
  }

  lemma Base58HasNoHash(s: string)
    requires IsBase58(s)
    ensures '#' !in s
  {
  }

  lemma Sliced(a: string, b: string)
    ensures a <= a + b && (a + b)[|a|..] == b
  {
  }

  /** Every 32-byte key survives: bare, as a `did:key` identifier, and with any fragment. */
  lemma KeyRoundTrip(publicKey: Bytes, fragment: string)
    requires |publicKey| == 32
    ensures var e := EncodeEd25519(publicKey);
            && DecodeEd25519(e) == Ok(publicKey)
            && DecodeEd25519("did:key:" + e) == Ok(publicKey)
            && DecodeEd25519("did:key:" + e + "#" + fragment) == Ok(publicKey)
  {
    hide Encoded, DecodeEd25519, WithoutFragment;
    var e := EncodeEd25519(publicKey);
    Base58HasNoHash(e[1..]);
    assert e == "z" + e[1..];
    assert '#' !in DID_KEY + e;
    FragmentDropped(e, fragment);
    FragmentDropped(DID_KEY + e, fragment);
    Sliced(DID_KEY, e);
    assert !(DID_KEY <= e) by { assert e[0] == 'z' && DID_KEY[0] == 'd'; }
    DecodesExactly(e, publicKey);
    DecodesExactly(DID_KEY + e, publicKey);
    DecodesExactly(DID_KEY + e + "#" + fragment, publicKey);
  }
}
