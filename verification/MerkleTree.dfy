/** The Merkle tree of section 2.1 of RFC 9162, defined from the root down over any
    node function, and the facts that let a proof be read from the leaves up:
    hashing the leaves in pairs gives a tree of half the size with the same root,
    and an audit path or a consistency proof loses at most its first element on
    the way. */
module MerkleTree {
  import opened PowersOfTwo

  // ---- Section 2.1.1: the tree hash, over the leaf hashes ----

  function Mth<H>(node: (H, H) -> H, hs: seq<H>): H
    requires |hs| >= 1
    decreases |hs|
  {
    if |hs| == 1 then hs[0]
    else
      var k := SplitPoint(|hs|);
      node(Mth(node, hs[..k]), Mth(node, hs[k..]))
  }

  // ---- Section 2.1.3.1: the audit path of leaf i ----

  function Path<H>(node: (H, H) -> H, i: nat, hs: seq<H>): seq<H>
    requires i < |hs|
    decreases |hs|
  {
    if |hs| == 1 then []
    else
      var k := SplitPoint(|hs|);
      if i < k then Path(node, i, hs[..k]) + [Mth(node, hs[k..])]
      else Path(node, i - k, hs[k..]) + [Mth(node, hs[..k])]
  }

  // ---- Section 2.1.4.1: SUBPROOF ----

  function SubProof<H>(node: (H, H) -> H, m: nat, hs: seq<H>, known: bool): seq<H>
    requires 1 <= m <= |hs|
    decreases |hs|
  {
    if m == |hs| then if known then [] else [Mth(node, hs)]
    else
      var k := SplitPoint(|hs|);
      if m <= k then SubProof(node, m, hs[..k], known) + [Mth(node, hs[k..])]
      else SubProof(node, m - k, hs[k..], false) + [Mth(node, hs[..k])]
  }

  /** The consistency proof between the first m leaves and all of them. */
  function Proof<H>(node: (H, H) -> H, m: nat, hs: seq<H>): seq<H>
    requires 1 <= m < |hs|
  {
    SubProof(node, m, hs, true)
  }

  // ---- One level up ----

  /** Hash neighbours together; an odd last node moves up unchanged. */
  function PairUp<H>(node: (H, H) -> H, hs: seq<H>): (up: seq<H>)
    ensures |up| == (|hs| + 1) / 2
  {
    seq((|hs| + 1) / 2, j requires 0 <= j < (|hs| + 1) / 2 =>
      if 2 * j + 1 < |hs| then node(hs[2 * j], hs[2 * j + 1]) else hs[2 * j])
  }

  lemma PairUpSplit<H>(node: (H, H) -> H, hs: seq<H>, k: nat)
    requires k <= |hs| && k % 2 == 0
    ensures PairUp(node, hs)[..k / 2] == PairUp(node, hs[..k])
    ensures PairUp(node, hs)[k / 2..] == PairUp(node, hs[k..])
  {
  }

  lemma {:induction false} MthPairUp<H>(node: (H, H) -> H, hs: seq<H>)
    requires |hs| >= 1
    ensures Mth(node, PairUp(node, hs)) == Mth(node, hs)
    decreases |hs|
  {
    hide *;
    var up := PairUp(node, hs);
    if |hs| <= 2 {
      SmallMth(node, hs);
    } else {
      var k := SplitPoint(|hs|);
      SplitStep(|hs|);
      MthStep(node, hs, k);
      MthStep(node, up, k / 2);
      PairUpSplit(node, hs, k);
      MthPairUp(node, hs[..k]);
      MthPairUp(node, hs[k..]);
    }
  }

  lemma MthStep<H>(node: (H, H) -> H, hs: seq<H>, k: nat)
    requires |hs| >= 2 && k == SplitPoint(|hs|)
    ensures Mth(node, hs) == node(Mth(node, hs[..k]), Mth(node, hs[k..]))
  {
  }

  lemma SmallMth<H>(node: (H, H) -> H, hs: seq<H>)
    requires 1 <= |hs| <= 2
    ensures Mth(node, PairUp(node, hs)) == Mth(node, hs)
  {
    if |hs| == 1 {
      assert PairUp(node, hs) == hs;
    } else {
      assert SplitPoint(2) == 1;
    }
  }

  /** The neighbour that node i is hashed with on the way up, if it has one. */
  function Sibling<H>(i: nat, hs: seq<H>): seq<H>
    requires i < |hs|
  {
    if i % 2 == 1 then [hs[i - 1]] else if i + 1 < |hs| then [hs[i + 1]] else []
  }

  lemma PathStep<H>(node: (H, H) -> H, i: nat, hs: seq<H>, k: nat)
    requires |hs| >= 2 && k == SplitPoint(|hs|) && i < |hs|
    ensures i < k ==> Path(node, i, hs) == Path(node, i, hs[..k]) + [Mth(node, hs[k..])]
    ensures i >= k ==> Path(node, i, hs) == Path(node, i - k, hs[k..]) + [Mth(node, hs[..k])]
  {
  }

  lemma SubProofStep<H>(node: (H, H) -> H, m: nat, hs: seq<H>, known: bool, k: nat)
    requires 1 <= m < |hs| && k == SplitPoint(|hs|)
    ensures m <= k ==> SubProof(node, m, hs, known) == SubProof(node, m, hs[..k], known) + [Mth(node, hs[k..])]
    ensures m > k ==> SubProof(node, m, hs, known) == SubProof(node, m - k, hs[k..], false) + [Mth(node, hs[..k])]
  {
  }

  lemma SplitStep(n: nat)
    requires n > 2
    ensures SplitPoint(n) % 2 == 0 && SplitPoint((n + 1) / 2) == SplitPoint(n) / 2
  {
  }

  lemma SiblingSplit<H>(i: nat, hs: seq<H>, k: nat)
    requires i < |hs| && k <= |hs| && k % 2 == 0
    ensures i < k ==> Sibling(i, hs[..k]) == Sibling(i, hs)
    ensures i >= k ==> Sibling(i - k, hs[k..]) == Sibling(i, hs)
  {
  }

  lemma SmallTree<H>(node: (H, H) -> H, i: nat, hs: seq<H>)
    requires i < |hs| <= 2
    ensures Path(node, i, hs) == Sibling(i, hs) + Path(node, i / 2, PairUp(node, hs))
  {
    if |hs| == 1 {
      assert PairUp(node, hs) == hs;
    } else {
      assert SplitPoint(2) == 1;
    }
  }

  lemma WholeTree<H>(node: (H, H) -> H, hs: seq<H>, known: bool)
    requires |hs| >= 1
    ensures SubProof(node, |hs|, hs, known) == if known then [] else [Mth(node, hs)]
    ensures |hs| == 1 ==> Mth(node, hs) == hs[0] && Path(node, 0, hs) == []
  {
  }

  lemma {:induction false} PathPairUp<H>(node: (H, H) -> H, i: nat, hs: seq<H>)
    requires i < |hs|
    ensures Path(node, i, hs) == Sibling(i, hs) + Path(node, i / 2, PairUp(node, hs))
    decreases |hs|
  {
    hide *;
    if |hs| <= 2 {
      SmallTree(node, i, hs);
    } else {
      var k, up := SplitPoint(|hs|), PairUp(node, hs);
      SplitStep(|hs|);
      PairUpSplit(node, hs, k);
      MthPairUp(node, hs[..k]);
      MthPairUp(node, hs[k..]);
      SiblingSplit(i, hs, k);
      PathStep(node, i, hs, k);
      PathStep(node, i / 2, up, k / 2);
      if i < k {
        PathPairUp(node, i, hs[..k]);
      } else {
        PathPairUp(node, i - k, hs[k..]);
      }
    }
  }

  lemma {:induction false} SubProofPairUp<H>(node: (H, H) -> H, m: nat, hs: seq<H>, known: bool)
    requires 1 <= m <= |hs| && m % 2 == 0
    ensures SubProof(node, m, hs, known) == SubProof(node, m / 2, PairUp(node, hs), known)
    decreases |hs|
  {
    hide *;
    MthPairUp(node, hs);
    if m == |hs| {
      WholeTree(node, hs, known);
      WholeTree(node, PairUp(node, hs), known);
    } else {
      var k, up := SplitPoint(|hs|), PairUp(node, hs);
      SplitStep(|hs|);
      PairUpSplit(node, hs, k);
      MthPairUp(node, hs[..k]);
      MthPairUp(node, hs[k..]);
      SubProofStep(node, m, hs, known, k);
      SubProofStep(node, m / 2, up, known, k / 2);
      if m <= k {
        SubProofPairUp(node, m, hs[..k], known);
      } else {
        SubProofPairUp(node, m - k, hs[k..], false);
      }
    }
  }

  lemma SplitOdd(n: nat, m: nat)
    requires m % 2 == 1 && m < n
    ensures var k := SplitPoint(n); m < k || m == k == 1 || (m > k && k % 2 == 0)
  {
    if n > 2 { SplitStep(n); }
  }

  /** For an odd m the consistency proof is the last of the first m nodes and its audit path. */
  lemma {:induction false} SubProofOdd<H>(node: (H, H) -> H, m: nat, hs: seq<H>, known: bool)
    requires m % 2 == 1 && (m < |hs| || m == |hs| == 1)
    ensures SubProof(node, m, hs, known)
         == (if known && m == 1 then [] else [hs[m - 1]]) + Path(node, m - 1, hs)
    decreases |hs|
  {
    hide *;
    if m == |hs| {
      WholeTree(node, hs, known);
    } else {
      var k := SplitPoint(|hs|);
      SplitOdd(|hs|, m);
      SubProofStep(node, m, hs, known, k);
      PathStep(node, m - 1, hs, k);
      if m <= k {
        SubProofOdd(node, m, hs[..k], known);
      } else {
        SubProofOdd(node, m - k, hs[k..], false);
      }
    }
  }

  lemma Pow2Step(m: nat)
    requires m >= 1
    ensures IsPow2(m) <==> (m == 1 || (m % 2 == 0 && IsPow2(m / 2)))
  {
  }

  /** Declaring the first tree known drops exactly its root, and only when it is a full subtree. */
  lemma {:induction false} SubProofKnown<H>(node: (H, H) -> H, m: nat, hs: seq<H>)
    requires 1 <= m < |hs|
    ensures if IsPow2(m)
            then SubProof(node, m, hs, false) == [Mth(node, hs[..m])] + SubProof(node, m, hs, true)
            else SubProof(node, m, hs, false) == SubProof(node, m, hs, true)
    decreases m
  {
    hide *;
    Pow2Step(m);
    if m % 2 == 1 {
      SubProofOdd(node, m, hs, true);
      SubProofOdd(node, m, hs, false);
      WholeTree(node, hs[..1], true);
    } else {
      var up := PairUp(node, hs);
      SubProofPairUp(node, m, hs, true);
      SubProofPairUp(node, m, hs, false);
      SubProofKnown(node, m / 2, up);
      PairUpSplit(node, hs, m);
      MthPairUp(node, hs[..m]);
    }
  }
}
