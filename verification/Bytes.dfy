/** Byte strings, digests, and the `sha256:<64 hex>` wire form in which the log
    transports digests (src/audit/log-verify.ts). */
module Bytes {

  newtype byte = x: int | 0 <= x < 256
  type Bytes = seq<byte>
  type Digest = d: Bytes | |d| == 32 witness seq(32, i => 0)

  datatype Option<+T> = None | Some(value: T)

  /** A hash function. SHA-256 is a parameter of the whole model: nothing is
      assumed about it, and every security statement ends in "or here are two
      byte strings on which it collides". */
  type Hash = Bytes -> Digest

  datatype Collision = Collision(x: Bytes, y: Bytes)

  predicate IsCollision(sha: Hash, c: Collision) {
    c.x != c.y && sha(c.x) == sha(c.y)
  }

  const WIRE_PREFIX: string := "sha256:"

  function HexChar(n: nat): char
    requires n < 16
  {
    if n < 10 then '0' + n as char else 'a' + (n - 10) as char
  }

  function HexValue(c: char): Option<nat> {
    if '0' <= c <= '9' then Some(c as nat - '0' as nat)
    else if 'a' <= c <= 'f' then Some(c as nat - 'a' as nat + 10)
    else None
  }

  function EncodeHex(b: Bytes): (s: string)
    ensures |s| == 2 * |b|
  {
    if b == [] then "" else [HexChar(b[0] as nat / 16), HexChar(b[0] as nat % 16)] + EncodeHex(b[1..])
  }

  function DecodeHex(s: string): (r: Option<Bytes>)
    ensures r.Some? ==> |s| == 2 * |r.value|
  {
    if s == "" then Some([])
    else if |s| == 1 then None
    else
      var rest := DecodeHex(s[2..]);
      match (HexValue(s[0]), HexValue(s[1]), rest)
      case (Some(h), Some(l), Some(b)) => Some([(16 * h + l) as byte] + b)
      case _ => None
  }

  lemma {:induction false} HexRoundTrip(b: Bytes)
    ensures DecodeHex(EncodeHex(b)) == Some(b)
  {
    if b != [] {
      HexRoundTrip(b[1..]);
      var s := EncodeHex(b);
      assert HexValue(s[0]) == Some(b[0] as nat / 16) && HexValue(s[1]) == Some(b[0] as nat % 16);
      assert b == [b[0]] + b[1..];
      assert EncodeHex(b)[2..] == EncodeHex(b[1..]);
    }
  }

  lemma {:induction false} HexCanonical(s: string)
    requires DecodeHex(s).Some?
    ensures s == EncodeHex(DecodeHex(s).value)
  {
    if s != "" {
      HexCanonical(s[2..]);
      assert s == [s[0], s[1]] + s[2..];
    }
  }

  /** `wireHashToBuf`: the raw 32 bytes of a wire hash, None when malformed. */
  function WireHashToBuf(w: string): Option<Digest> {
    if |w| == 71 && w[..7] == WIRE_PREFIX then
      match DecodeHex(w[7..])
      case Some(b) => Some(b)
      case None => None
    else None
  }

  function WireHash(d: Digest): string {
    WIRE_PREFIX + EncodeHex(d)
  }

  /** Wire hashes are canonical: a digest has exactly one wire form. */
  lemma WireCanonical(w: string, d: Digest)
    ensures WireHashToBuf(w) == Some(d) <==> w == WireHash(d)
  {
    HexRoundTrip(d);
    assert WireHash(d)[7..] == EncodeHex(d);
    if WireHashToBuf(w) == Some(d) {
      HexCanonical(w[7..]);
      assert w == w[..7] + w[7..];
    }
  }

  predicate IsHex(c: char) {
    c in "0123456789abcdef"
  }

  /** What the pattern `^sha256:[0-9a-f]{64}$` matches. */
  predicate IsWire(w: string) {
    |w| == 71 && w[..7] == "sha256:" && forall i :: 7 <= i < 71 ==> IsHex(w[i])
  }

  lemma {:induction false} HexAt(b: Bytes, i: nat)
    requires i < |b|
    ensures EncodeHex(b)[2 * i] == "0123456789abcdef"[b[i] as nat / 16]
    ensures EncodeHex(b)[2 * i + 1] == "0123456789abcdef"[b[i] as nat % 16]
  {
    hide HexChar;
    HexSpelled();
    if i > 0 {
      HexAt(b[1..], i - 1);
      assert EncodeHex(b)[2..] == EncodeHex(b[1..]);
      assert EncodeHex(b)[2..][2 * (i - 1)] == EncodeHex(b)[2 * i];
      assert EncodeHex(b)[2..][2 * (i - 1) + 1] == EncodeHex(b)[2 * i + 1];
    }
  }

  lemma HexSpelled()
    ensures forall n: nat :: n < 16 ==> HexChar(n) == "0123456789abcdef"[n]
    ensures forall c :: HexValue(c).Some? <==> IsHex(c)
  {
  }

  lemma {:induction false} HexDecodes(s: string)
    ensures DecodeHex(s).Some? <==> |s| % 2 == 0 && forall i :: 0 <= i < |s| ==> IsHex(s[i])
  {
    hide HexValue, IsHex;
    HexSpelled();
    if |s| >= 2 {
      HexDecodes(s[2..]);
      if forall i :: 0 <= i < |s| - 2 ==> IsHex(s[2..][i]) {
        forall i | 2 <= i < |s| ensures IsHex(s[i]) { assert s[i] == s[2..][i - 2]; }
      }
    }
  }

  /** The wire form of a digest, character by character, and which strings are wire forms. */
  lemma WireForm(w: string, d: Digest)
    ensures WireHashToBuf(w).Some? <==> IsWire(w)
    ensures WireHashToBuf(w) == Some(d) ==>
      forall i :: 0 <= i < 32 ==>
        && w[7 + 2 * i] == "0123456789abcdef"[d[i] as nat / 16]
        && w[8 + 2 * i] == "0123456789abcdef"[d[i] as nat % 16]
  {
    hide DecodeHex, EncodeHex, IsHex;
    if |w| == 71 {
      HexDecodes(w[7..]);
      assert forall i :: 0 <= i < 64 ==> w[7..][i] == w[7 + i];
      assert forall i :: 7 <= i < 71 ==> w[i] == w[7..][i - 7];
    }
    if WireHashToBuf(w) == Some(d) {
      WireCanonical(w, d);
      forall i | 0 <= i < 32
        ensures w[7 + 2 * i] == "0123456789abcdef"[d[i] as nat / 16]
        ensures w[8 + 2 * i] == "0123456789abcdef"[d[i] as nat % 16]
      {
        HexAt(d, i);
      }
    }
  }

  lemma {:induction false} PathWires(ws: seq<string>)
    ensures DecodePath(ws).Some? <==> forall i :: 0 <= i < |ws| ==> IsWire(ws[i])
  {
    hide IsWire, WireHashToBuf;
    if ws != [] {
      PathWires(ws[1..]);
      WireForm(ws[0], seq(32, i => 0));
      assert ws == [ws[0]] + ws[1..];
    }
  }

  function WirePath(ds: seq<Digest>): (ws: seq<string>)
    ensures |ws| == |ds|
  {
    if ds == [] then [] else [WireHash(ds[0])] + WirePath(ds[1..])
  }

  function DecodePath(ws: seq<string>): (r: Option<seq<Digest>>)
    ensures r.Some? ==> |r.value| == |ws|
  {
    if ws == [] then Some([])
    else
      match (WireHashToBuf(ws[0]), DecodePath(ws[1..]))
      case (Some(d), Some(ds)) => Some([d] + ds)
      case _ => None
  }

  lemma {:induction false} PathCanonical(ws: seq<string>, ds: seq<Digest>)
    ensures DecodePath(ws) == Some(ds) <==> ws == WirePath(ds)
  {
    if ws == [] || ds == [] {
    } else {
      WireCanonical(ws[0], ds[0]);
      PathCanonical(ws[1..], ds[1..]);
      assert ws == [ws[0]] + ws[1..];
      assert ds == [ds[0]] + ds[1..];
    }
  }

  lemma {:induction false} DecodePointwise(ws: seq<string>, ds: seq<Digest>)
    requires |ws| == |ds| && forall j :: 0 <= j < |ws| ==> WireHashToBuf(ws[j]) == Some(ds[j])
    ensures DecodePath(ws) == Some(ds)
  {
    if ws != [] {
      DecodePointwise(ws[1..], ds[1..]);
      assert ds == [ds[0]] + ds[1..];
    }
  }

  lemma {:induction false} DecodeMalformed(ws: seq<string>, j: nat)
    requires j < |ws| && WireHashToBuf(ws[j]).None?
    ensures DecodePath(ws).None?
  {
    if j > 0 { DecodeMalformed(ws[1..], j - 1); }
  }
}
