/** src/audit/log-verify.ts: the host-side verification of inclusion and
    consistency proofs (sections 2.1.3.2 and 2.1.4.2 of RFC 9162), and what an
    accepted proof says about the leaves of the log. */
module LogVerify {
  import opened Bytes
  import opened PowersOfTwo
  import opened MerkleTree
  import opened MerkleProofs

  /** The tuple that a checkpoint commits to and a cosignature attests. */
  datatype Head = Head(logId: string, size: nat, root: string)

  function LeafHash(sha: Hash, leaf: Bytes): Digest {
    sha([0x00] + leaf)
  }

  function NodeHash(sha: Hash, left: Digest, right: Digest): Digest {
    sha([0x01] + left + right)
  }

  function Node(sha: Hash): (Digest, Digest) -> Digest {
    (l, r) => NodeHash(sha, l, r)
  }

  function LeafHashes(sha: Hash, leaves: seq<Bytes>): (hs: seq<Digest>)
    ensures |hs| == |leaves|
  {
    seq(|leaves|, i requires 0 <= i < |leaves| => LeafHash(sha, leaves[i]))
  }

  /** The root of a log (section 2.1.1 of RFC 9162). */
  function Root(sha: Hash, leaves: seq<Bytes>): Digest {
    if leaves == [] then sha([]) else Mth(Node(sha), LeafHashes(sha, leaves))
  }

  function RootHash(sha: Hash, leaves: seq<Bytes>): string {
    WireHash(Root(sha, leaves))
  }

  // ---- What the two verifiers accept ----

  predicate InclusionAccepts(sha: Hash, leafIndex: int, treeSize: int, leaf: Digest, path: seq<string>, root: string) {
    && WireHashToBuf(root).Some?
    && 0 <= leafIndex < treeSize
    && DecodePath(path).Some?
    && Fold(Node(sha), leafIndex, treeSize - 1, leaf, DecodePath(path).value) == WireHashToBuf(root)
  }

  predicate ConsistencyAccepts(
      sha: Hash, first: int, second: int, path: seq<string>, firstRoot: string, secondRoot: string)
  {
    var r1, r2, ds := WireHashToBuf(firstRoot), WireHashToBuf(secondRoot), DecodePath(path);
    && r1.Some? && r2.Some? && first >= 0 && second >= 0
    && if first == second then path == [] && r1 == r2
       else
         && 0 < first < second && path != [] && ds.Some?
         && FoldFrom(Node(sha), first, second, Prepended(first, r1.value, ds.value)) == Some((r1.value, r2.value))
  }

  /** The retained root leads the path when the first size passes the power-of-two test. */
  function Prepended(first: nat, root: Digest, path: seq<Digest>): (full: seq<Digest>)
    ensures path != [] ==> full != []
  {
    if JsIsPowerOfTwo(first) then [root] + path else path
  }

  // ---- The verifiers ----

  method VerifyInclusionPath(sha: Hash, leafIndex: int, treeSize: int, leaf: Digest, path: seq<string>, root: string)
    returns (ok: bool)
    ensures ok <==> InclusionAccepts(sha, leafIndex, treeSize, leaf, path, root)
  {
    var expectedRoot := WireHashToBuf(root);
    if expectedRoot.None? || leafIndex < 0 || leafIndex >= treeSize { return false; }
    var fn: nat, sn: nat, r := leafIndex, treeSize - 1, leaf;
    var k := 0;
    assert path[0..] == path;
    while k < |path|
      invariant 0 <= k <= |path|
      invariant InclusionAccepts(sha, leafIndex, treeSize, leaf, path, root)
           <==> Folds(sha, fn, sn, r, path[k..], expectedRoot)
    {
      var element := WireHashToBuf(path[k]);
      assert path[k..][1..] == path[k + 1..];
      if element.None? || sn == 0 { return false; }
      var p := element.value;
      ghost var fn0, sn0 := fn, sn;
      if fn % 2 == 1 || fn == sn {
        r := NodeHash(sha, p, r);
        if fn % 2 == 0 {
          while fn % 2 == 0 && fn != 0
            invariant Strip(fn, sn) == Strip(fn0, sn0)
            decreases fn
          {
            fn, sn := fn / 2, sn / 2;
          }
        }
      } else {
        r := NodeHash(sha, r, p);
      }
      fn, sn := fn / 2, sn / 2;
      assert (fn, sn) == Ascend(fn0, sn0);
      k := k + 1;
    }
    return sn == 0 && r == expectedRoot.value;
  }

  predicate Folds(sha: Hash, fn: nat, sn: nat, r: Digest, path: seq<string>, root: Option<Digest>) {
    DecodePath(path).Some? && root.Some? && Fold(Node(sha), fn, sn, r, DecodePath(path).value) == root
  }

  method VerifyConsistencyPath(
      sha: Hash, first: int, second: int, path: seq<string>, firstRoot: string, secondRoot: string)
    returns (ok: bool)
    ensures ok <==> ConsistencyAccepts(sha, first, second, path, firstRoot, secondRoot)
  {
    hide JsIsPowerOfTwo, DecodePath, WireHashToBuf, FoldBoth;
    var r1, r2 := WireHashToBuf(firstRoot), WireHashToBuf(secondRoot);
    if r1.None? || r2.None? || first < 0 || second < 0 { return false; }
    if first == second { return path == [] && r1 == r2; }
    if first == 0 || first > second || path == [] { return false; }
    var rawPath := DecodeAll(path);
    if rawPath.None? { return false; }
    var full := if JsIsPowerOfTwo(first) then [r1.value] + rawPath.value else rawPath.value;
    var fn: nat, sn: nat := first - 1, second - 1;
    while fn % 2 == 1
      invariant StripOnes(fn, sn) == StripOnes(first - 1, second - 1)
      decreases fn
    {
      fn, sn := fn / 2, sn / 2;
    }
    var fr, sr := full[0], full[0];
    ghost var accepted := FoldFrom(Node(sha), first, second, full);
    hide StripOnes;
    var k := 1;
    while k < |full|
      invariant 1 <= k <= |full|
      invariant accepted == FoldBoth(Node(sha), fn, sn, fr, sr, full[k..])
    {
      FoldBothStep(Node(sha), fn, sn, fr, sr, full[k..]);
      if sn == 0 { return false; }
      var c := full[k];
      assert full[k..][0] == c && full[k..][1..] == full[k + 1..];
      ghost var fn0, sn0 := fn, sn;
      if fn % 2 == 1 || fn == sn {
        fr, sr := NodeHash(sha, c, fr), NodeHash(sha, c, sr);
        if fn % 2 == 0 {
          while fn % 2 == 0 && fn != 0
            invariant Strip(fn, sn) == Strip(fn0, sn0)
            decreases fn
          {
            fn, sn := fn / 2, sn / 2;
          }
        }
      } else {
        sr := NodeHash(sha, sr, c);
      }
      fn, sn := fn / 2, sn / 2;
      assert (fn, sn) == Ascend(fn0, sn0);
      k := k + 1;
    }
    FoldBothStep(Node(sha), fn, sn, fr, sr, full[k..]);
    return fr == r1.value && sr == r2.value && sn == 0;
  }

  /** The decoding loop of the consistency verifier: every element, or None at the first malformed one. */
  method DecodeAll(path: seq<string>) returns (r: Option<seq<Digest>>)
    ensures r == DecodePath(path)
  {
    hide DecodePath;
    var out: seq<Digest> := [];
    var k := 0;
    while k < |path|
      invariant 0 <= k == |out| <= |path|
      invariant forall j :: 0 <= j < k ==> WireHashToBuf(path[j]) == Some(out[j])
    {
      var p := WireHashToBuf(path[k]);
      if p.None? {
        DecodeMalformed(path, k);
        return None;
      }
      out := out + [p.value];
      k := k + 1;
    }
    DecodePointwise(path, out);
    return Some(out);
  }
}
