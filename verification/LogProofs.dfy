/** What the verifiers of LogVerify guarantee about the leaves of a log, for any
    hash function: an accepted proof tells the truth, or the extractors below
    compute two byte strings on which the hash function collides. */
module LogProofs {
  import opened Bytes
  import opened PowersOfTwo
  import opened MerkleTree
  import opened MerkleProofs
  import opened LogVerify

  /** The preimages of two equal node hashes of different children. */
  function ClashPreimages(c: Clash<Digest>): Collision {
    Collision([0x01] + c.l + c.r, [0x01] + c.l' + c.r')
  }

  lemma ClashCollides(sha: Hash, c: Clash<Digest>)
    requires IsClash(Node(sha), c)
    ensures IsCollision(sha, ClashPreimages(c))
  {
    var x, y := [0x01] + c.l + c.r, [0x01] + c.l' + c.r';
    if x == y { PairParts(c.l, c.r, c.l', c.r'); }
    assert Node(sha)(c.l, c.r) == sha(x) && Node(sha)(c.l', c.r') == sha(y);
  }

  /** Both preimages of one leaf hash, when they differ. */
  function LeafCollision(a: Bytes, b: Bytes): Option<Collision> {
    if a == b then None else Some(Collision([0x00] + a, [0x00] + b))
  }

  lemma LeafCollides(sha: Hash, a: Bytes, b: Bytes)
    requires LeafHash(sha, a) == LeafHash(sha, b) && a != b
    ensures IsCollision(sha, LeafCollision(a, b).value)
  {
    if [0x00] + a == [0x00] + b { LeafPart(a, b); }
  }

  // ---- Inclusion ----

  function AuditPath(sha: Hash, leaves: seq<Bytes>, i: nat): seq<string>
    requires i < |leaves|
  {
    WirePath(Path(Node(sha), i, LeafHashes(sha, leaves)))
  }

  function InclusionCollision(sha: Hash, leaves: seq<Bytes>, i: nat, leaf: Bytes, path: seq<string>): Option<Collision>
    requires i < |leaves|
  {
    var ds := DecodePath(path);
    if ds.None? then None
    else
      var c := InclusionClash(Node(sha), LeafHashes(sha, leaves), i, LeafHash(sha, leaf), ds.value);
      if c.Some? then Some(ClashPreimages(c.value)) else LeafCollision(leaf, leaves[i])
  }

  /** An accepted inclusion proof shows the leaf at that index, by its one audit path. */
  lemma InclusionProofSound(sha: Hash, leaves: seq<Bytes>, i: nat, leaf: Bytes, path: seq<string>)
    requires InclusionAccepts(sha, i, |leaves|, LeafHash(sha, leaf), path, RootHash(sha, leaves))
    ensures i < |leaves|
    ensures var c := InclusionCollision(sha, leaves, i, leaf, path);
            if c.None? then leaf == leaves[i] && path == AuditPath(sha, leaves, i) else IsCollision(sha, c.value)
  {
    hide Fold, InclusionClash, DecodePath, WireHashToBuf, IsCollision, Mth, Path;
    var hs, ds := LeafHashes(sha, leaves), DecodePath(path).value;
    WireCanonical(RootHash(sha, leaves), Root(sha, leaves));
    InclusionSound(Node(sha), hs, i, LeafHash(sha, leaf), ds);
    PathCanonical(path, ds);
    var c := InclusionClash(Node(sha), hs, i, LeafHash(sha, leaf), ds);
    if c.Some? {
      ClashCollides(sha, c.value);
    } else if leaf != leaves[i] {
      LeafCollides(sha, leaf, leaves[i]);
    }
  }

  /** The audit path of every leaf is accepted. */
  lemma InclusionProofComplete(sha: Hash, leaves: seq<Bytes>, i: nat)
    requires i < |leaves|
    ensures InclusionAccepts(
              sha, i, |leaves|, LeafHash(sha, leaves[i]), AuditPath(sha, leaves, i), RootHash(sha, leaves))
  {
    hide Fold, DecodePath, WireHashToBuf, Mth, Path;
    var hs := LeafHashes(sha, leaves);
    WireCanonical(RootHash(sha, leaves), Root(sha, leaves));
    PathCanonical(AuditPath(sha, leaves, i), Path(Node(sha), i, hs));
    InclusionComplete(Node(sha), hs, i);
  }

  /** A path of another length is rejected, whatever it holds and whatever the hash function. */
  lemma InclusionProofLength(sha: Hash, leaves: seq<Bytes>, i: nat, h: Digest, path: seq<string>, root: string)
    requires i < |leaves| && |path| != |AuditPath(sha, leaves, i)|
    ensures !InclusionAccepts(sha, i, |leaves|, h, path, root)
  {
    hide Fold, WireHashToBuf, Path;
    if DecodePath(path).Some? {
      FoldLength(Node(sha), LeafHashes(sha, leaves), i, h, DecodePath(path).value);
    }
  }

  /** Only well-formed wire hashes are accepted, and a proof against one root only. */
  lemma InclusionRootUnique(
      sha: Hash, i: int, n: int, leaf: Digest, path: seq<string>, root: string, other: string)
    requires InclusionAccepts(sha, i, n, leaf, path, root)
    ensures 0 <= i < n && IsWire(root) && forall j :: 0 <= j < |path| ==> IsWire(path[j])
    ensures InclusionAccepts(sha, i, n, leaf, path, other) <==> other == root
  {
    hide Fold, IsWire, WireHashToBuf, DecodePath;
    var d := WireHashToBuf(root).value;
    WireForm(root, d);
    PathWires(path);
    WireCanonical(root, d);
    WireCanonical(other, d);
  }

  // ---- Consistency ----

  /** The edges of the consistency check: equal sizes take the empty path and equal roots only,
      nothing is accepted from size 0 or to a smaller size, and no malformed hash ever. */
  lemma ConsistencyEdges(
      sha: Hash, first: int, second: int, path: seq<string>, firstRoot: string, secondRoot: string)
    ensures first == second ==>
      (ConsistencyAccepts(sha, first, second, path, firstRoot, secondRoot) <==>
       first >= 0 && path == [] && firstRoot == secondRoot && IsWire(firstRoot))
    ensures ConsistencyAccepts(sha, first, second, path, firstRoot, secondRoot) ==>
      && IsWire(firstRoot) && IsWire(secondRoot) && (forall j :: 0 <= j < |path| ==> IsWire(path[j]))
      && (first == second || (0 < first < second && path != []))
  {
    hide FoldFrom, IsWire, WireHashToBuf, DecodePath;
    var any: Digest := seq(32, i => 0);
    WireForm(firstRoot, any);
    WireForm(secondRoot, any);
    PathWires(path);
    if WireHashToBuf(firstRoot).Some? {
      WireCanonical(firstRoot, WireHashToBuf(firstRoot).value);
      WireCanonical(secondRoot, WireHashToBuf(firstRoot).value);
    }
  }

  function ConsistencyProof(sha: Hash, leaves: seq<Bytes>, m: nat): seq<string>
    requires 1 <= m < |leaves|
  {
    WirePath(Proof(Node(sha), m, LeafHashes(sha, leaves)))
  }

  function ConsistencyCollision(sha: Hash, leaves: seq<Bytes>, m: nat, path: seq<string>, firstRoot: string)
    : Option<Collision>
  {
    var ds, r1 := DecodePath(path), WireHashToBuf(firstRoot);
    if ds.None? || r1.None? || path == [] || !(1 <= m < |leaves|) then None
    else
      var c := ConsistencyClash(Node(sha), LeafHashes(sha, leaves), m, Prepended(m, r1.value, ds.value));
      if c.Some? then Some(ClashPreimages(c.value)) else None
  }

  /** An accepted consistency proof to the root of a log shows that the first root is
      the root of the first m leaves; for sizes the power-of-two test judges rightly
      the proof is the one of section 2.1.4.1 of RFC 9162. */
  lemma ConsistencyProofSound(sha: Hash, leaves: seq<Bytes>, m: int, path: seq<string>, firstRoot: string)
    requires ConsistencyAccepts(sha, m, |leaves|, path, firstRoot, RootHash(sha, leaves))
    ensures 0 <= m <= |leaves|
    ensures var c := ConsistencyCollision(sha, leaves, m, path, firstRoot);
            if c.Some? then IsCollision(sha, c.value)
            else
              && firstRoot == RootHash(sha, leaves[..m])
              && (m < |leaves| && !Misjudged(m) ==> path == ConsistencyProof(sha, leaves, m))
              && (m == |leaves| ==> path == [])
  {
    hide FoldFrom, ConsistencyClash, DecodePath, WireHashToBuf, IsCollision, Mth, JsIsPowerOfTwo, Misjudged, IsPow2;
    hide SubProof, LeafHashes, Root;
    var r1 := WireHashToBuf(firstRoot).value;
    WireCanonical(firstRoot, r1);
    WireCanonical(RootHash(sha, leaves), Root(sha, leaves));
    if m == |leaves| {
      assert leaves[..m] == leaves;
    } else {
      var hs, ds := LeafHashes(sha, leaves), DecodePath(path).value;
      var full := Prepended(m, r1, ds);
      RootIsMth(sha, leaves);
      RootIsMth(sha, leaves[..m]);
      LeafHashesSplit(sha, leaves, m);
      ConsistencySound(Node(sha), hs, m, full, r1);
      var c := ConsistencyClash(Node(sha), hs, m, full);
      if c.Some? {
        ClashCollides(sha, c.value);
      } else {
        PathCanonical(path, ds);
        SubProofKnown(Node(sha), m, hs);
        JsIsPowerOfTwoExact(m);
        if !Misjudged(m) && IsPow2(m) { assert ds == full[1..]; }
      }
    }
  }

  lemma RootIsMth(sha: Hash, leaves: seq<Bytes>)
    ensures leaves != [] ==> Root(sha, leaves) == Mth(Node(sha), LeafHashes(sha, leaves))
  {
  }

  lemma ProofNonEmpty(sha: Hash, hs: seq<Digest>, m: nat)
    requires 1 <= m < |hs|
    ensures Proof(Node(sha), m, hs) != []
  {
  }

  /** Completeness, exactly: the honest proof between the first m leaves and all of
      them is accepted if and only if the 32-bit power-of-two test judges m rightly. */
  lemma ConsistencyProofComplete(sha: Hash, leaves: seq<Bytes>, m: nat)
    requires 1 <= m < |leaves|
    ensures ConsistencyAccepts(sha, m, |leaves|, ConsistencyProof(sha, leaves, m),
                               RootHash(sha, leaves[..m]), RootHash(sha, leaves))
       <==> !Misjudged(m)
  {
    hide FoldFrom, DecodePath, WireHashToBuf, Mth, JsIsPowerOfTwo, Misjudged, IsPow2, SubProof, LeafHashes, Root;
    var hs, path := LeafHashes(sha, leaves), ConsistencyProof(sha, leaves, m);
    var r1 := Root(sha, leaves[..m]);
    WireCanonical(RootHash(sha, leaves[..m]), r1);
    WireCanonical(RootHash(sha, leaves), Root(sha, leaves));
    RootIsMth(sha, leaves);
    RootIsMth(sha, leaves[..m]);
    LeafHashesSplit(sha, leaves, m);
    PathCanonical(path, Proof(Node(sha), m, hs));
    ProofNonEmpty(sha, hs, m);
    SubProofKnown(Node(sha), m, hs);
    JsIsPowerOfTwoExact(m);
    var full := Prepended(m, r1, Proof(Node(sha), m, hs));
    if Misjudged(m) {
      FoldFromLength(Node(sha), hs, m, full);
      MisjudgedIsNotPow2(m);
    } else {
      ConsistencyComplete(Node(sha), hs, m);
    }
  }

  lemma MisjudgedIsNotPow2(m: nat)
    requires Misjudged(m)
    ensures !IsPow2(m)
  {
  }

  /** The smallest size at which an honest proof is refused. */
  lemma HonestProofRefused(sha: Hash, leaves: seq<Bytes>)
    requires |leaves| > 0x1_0000_0001
    ensures !ConsistencyAccepts(sha, 0x1_0000_0001, |leaves|, ConsistencyProof(sha, leaves, 0x1_0000_0001),
                                RootHash(sha, leaves[..0x1_0000_0001]), RootHash(sha, leaves))
    ensures forall m: nat :: Misjudged(m) ==> m >= 0x1_0000_0001
  {
    hide ConsistencyAccepts, ConsistencyProof, RootHash;
    assert Misjudged(0x1_0000_0001) by { assert 0x1_0000_0001 % TWO32 == 1; }
    ConsistencyProofComplete(sha, leaves, 0x1_0000_0001);
  }

  // ---- A root stands for its leaves ----

  /** The tree hash of section 2.1.1 of RFC 9162, byte for byte: leaves are hashed behind 0x00,
      pairs of roots behind 0x01, split at the largest power of two below the size. */
  lemma RootIsTreeHash(sha: Hash, leaves: seq<Bytes>)
    ensures leaves == [] ==> Root(sha, leaves) == sha([])
    ensures |leaves| == 1 ==> Root(sha, leaves) == sha([0x00] + leaves[0])
    ensures |leaves| >= 2 ==>
      var k := SplitPoint(|leaves|);
      Root(sha, leaves) == sha([0x01] + Root(sha, leaves[..k]) + Root(sha, leaves[k..]))
  {
    hide Mth, LeafHashes, SplitPoint;
    RootIsMth(sha, leaves);
    if |leaves| == 1 {
      MthOne(sha, leaves);
    } else if |leaves| >= 2 {
      var k, hs := SplitPoint(|leaves|), LeafHashes(sha, leaves);
      MthStep(Node(sha), hs, k);
      LeafHashesSplit(sha, leaves, k);
    }
  }

  lemma MthOne(sha: Hash, leaves: seq<Bytes>)
    requires |leaves| == 1
    ensures Mth(Node(sha), LeafHashes(sha, leaves)) == LeafHash(sha, leaves[0])
  {
  }

  lemma LeafHashesSplit(sha: Hash, leaves: seq<Bytes>, k: nat)
    requires k <= |leaves|
    ensures LeafHashes(sha, leaves)[..k] == LeafHashes(sha, leaves[..k])
    ensures LeafHashes(sha, leaves)[k..] == LeafHashes(sha, leaves[k..])
  {
  }

  lemma SmallRoots(sha: Hash, x: Bytes, y: Bytes)
    ensures Root(sha, [x]) == sha([0x00] + x)
    ensures Root(sha, [x, y]) == sha([0x01] + sha([0x00] + x) + sha([0x00] + y))
  {
    hide Root;
    RootIsTreeHash(sha, [x]);
    RootIsTreeHash(sha, [y]);
    RootIsTreeHash(sha, [x, y]);
    assert SplitPoint(2) == 1 && [x, y][..1] == [x] && [x, y][1..] == [y];
  }

  /** The bytes whose hash is the root of a log. */
  function RootPreimage(sha: Hash, leaves: seq<Bytes>): Bytes {
    if leaves == [] then []
    else if |leaves| == 1 then [0x00] + leaves[0]
    else
      var k := SplitPoint(|leaves|);
      [0x01] + Root(sha, leaves[..k]) + Root(sha, leaves[k..])
  }

  /** Equal preimages have one shape, and equal parts. */
  lemma PreimageParts(sha: Hash, a: seq<Bytes>, b: seq<Bytes>)
    requires RootPreimage(sha, a) == RootPreimage(sha, b)
    ensures |a| <= 1 || |b| <= 1 ==> a == b
    ensures |a| >= 2 && |b| >= 2 ==>
      var k, k' := SplitPoint(|a|), SplitPoint(|b|);
      Root(sha, a[..k]) == Root(sha, b[..k']) && Root(sha, a[k..]) == Root(sha, b[k'..])
  {
    hide Root, SplitPoint;
    if |a| >= 2 && |b| >= 2 {
      var k, k' := SplitPoint(|a|), SplitPoint(|b|);
      PairParts(Root(sha, a[..k]), Root(sha, a[k..]), Root(sha, b[..k']), Root(sha, b[k'..]));
    } else {
      Tagged(sha, a);
      Tagged(sha, b);
      if |a| == 1 && |b| == 1 { LeafPart(a[0], b[0]); }
    }
  }

  lemma Tagged(sha: Hash, leaves: seq<Bytes>)
    ensures var x := RootPreimage(sha, leaves);
            if leaves == [] then x == [] else x != [] && x[0] == if |leaves| == 1 then 0x00 else 0x01
    ensures Root(sha, leaves) == sha(RootPreimage(sha, leaves))
  {
    hide Root, SplitPoint;
    RootIsTreeHash(sha, leaves);
  }

  lemma PairParts(l: Digest, r: Digest, l': Digest, r': Digest)
    requires [0x01] + l + r == [0x01] + l' + r'
    ensures l == l' && r == r'
  {
    var x, y := [0x01] + l + r, [0x01] + l' + r';
    assert x[1..33] == l && x[33..] == r && y[1..33] == l' && y[33..] == r';
  }

  lemma LeafPart(a: Bytes, b: Bytes)
    requires [0x00] + a == [0x00] + b
    ensures a == b
  {
    assert ([0x00] + a)[1..] == a && ([0x00] + b)[1..] == b;
  }

  function RootCollision(sha: Hash, a: seq<Bytes>, b: seq<Bytes>): Option<Collision>
    decreases |a|
  {
    var x, y := RootPreimage(sha, a), RootPreimage(sha, b);
    if x != y then Some(Collision(x, y))
    else if |a| <= 1 || |b| <= 1 then None
    else
      var k, k' := SplitPoint(|a|), SplitPoint(|b|);
      var c := RootCollision(sha, a[..k], b[..k']);
      if c.Some? then c else RootCollision(sha, a[k..], b[k'..])
  }

  /** Two logs of any sizes with one root are one log. */
  lemma {:induction false} RootBinding(sha: Hash, a: seq<Bytes>, b: seq<Bytes>)
    requires Root(sha, a) == Root(sha, b)
    ensures var c := RootCollision(sha, a, b);
            if c.None? then a == b else IsCollision(sha, c.value)
    decreases |a|
  {
    hide Root, RootPreimage, SplitPoint;
    Tagged(sha, a);
    Tagged(sha, b);
    if RootPreimage(sha, a) == RootPreimage(sha, b) {
      PreimageParts(sha, a, b);
      if |a| >= 2 && |b| >= 2 {
        var k, k' := SplitPoint(|a|), SplitPoint(|b|);
        RootBinding(sha, a[..k], b[..k']);
        RootBinding(sha, a[k..], b[k'..]);
        assert a == a[..k] + a[k..] && b == b[..k'] + b[k'..];
      }
    }
  }
}
