/** The proof folds of src/audit/log-verify.ts as functions, and their meaning:
    what a fold accepts is exactly the audit path, or the consistency proof, of
    the tree it ends at, unless two different pairs of nodes hash alike. The
    extractors below compute such a pair from any proof that is accepted wrongly. */
module MerkleProofs {
  import opened Bytes
  import opened PowersOfTwo
  import opened MerkleTree

  datatype Clash<H> = Clash(l: H, r: H, l': H, r': H)

  predicate IsClash<H(==)>(node: (H, H) -> H, c: Clash<H>) {
    (c.l != c.l' || c.r != c.r') && node(c.l, c.r) == node(c.l', c.r')
  }

  // ---- The folds ----

  /** The inner shift loop: drop trailing zero bits of fn. */
  function Strip(fn: nat, sn: nat): (nat, nat) {
    if fn % 2 == 0 && fn != 0 then Strip(fn / 2, sn / 2) else (fn, sn)
  }

  /** The first shift loop of the consistency fold: drop trailing one bits of fn. */
  function StripOnes(fn: nat, sn: nat): (nat, nat) {
    if fn % 2 == 1 then StripOnes(fn / 2, sn / 2) else (fn, sn)
  }

  predicate FromLeft(fn: nat, sn: nat) {
    fn % 2 == 1 || fn == sn
  }

  /** (fn, sn) after one proof element. */
  function Ascend(fn: nat, sn: nat): (nat, nat) {
    var (f, s) := if fn % 2 == 0 && fn == sn then Strip(fn, sn) else (fn, sn);
    (f / 2, s / 2)
  }

  /** The inclusion fold: the computed root, None when the path has the wrong length. */
  function Fold<H>(node: (H, H) -> H, fn: nat, sn: nat, r: H, path: seq<H>): Option<H>
    decreases path
  {
    if path == [] then if sn == 0 then Some(r) else None
    else if sn == 0 then None
    else
      var (f, s) := Ascend(fn, sn);
      Fold(node, f, s, if FromLeft(fn, sn) then node(path[0], r) else node(r, path[0]), path[1..])
  }

  /** The consistency fold: both running roots. */
  function FoldBoth<H>(node: (H, H) -> H, fn: nat, sn: nat, fr: H, sr: H, path: seq<H>): Option<(H, H)>
    decreases path
  {
    if path == [] then if sn == 0 then Some((fr, sr)) else None
    else if sn == 0 then None
    else
      var (f, s) := Ascend(fn, sn);
      if FromLeft(fn, sn) then FoldBoth(node, f, s, node(path[0], fr), node(path[0], sr), path[1..])
      else FoldBoth(node, f, s, fr, node(sr, path[0]), path[1..])
  }

  // ---- The folds climb the tree one level at a time ----

  lemma AscendLevel(i: nat, n: nat)
    requires i < n && n > 1
    ensures (i % 2 == 1 || i + 1 < n) ==> Ascend(i, n - 1) == (i / 2, (n + 1) / 2 - 1)
    ensures i % 2 == 0 && i + 1 == n ==> Ascend(i, n - 1) == Ascend(i / 2, (n + 1) / 2 - 1)
    ensures FromLeft(i, n - 1) <==> (i % 2 == 1 || i + 1 == n)
  {
    if i % 2 == 0 && i + 1 == n { assert Strip(i, i) == Strip(i / 2, i / 2); }
  }

  lemma FoldStep<H>(node: (H, H) -> H, fn: nat, sn: nat, r: H, path: seq<H>)
    ensures path == [] ==> Fold(node, fn, sn, r, path) == if sn == 0 then Some(r) else None
    ensures path != [] && sn == 0 ==> Fold(node, fn, sn, r, path) == None
    ensures path != [] && sn != 0 ==>
      var (f, s) := Ascend(fn, sn);
      Fold(node, fn, sn, r, path)
        == Fold(node, f, s, if FromLeft(fn, sn) then node(path[0], r) else node(r, path[0]), path[1..])
  {
  }

  lemma FoldBothStep<H>(node: (H, H) -> H, fn: nat, sn: nat, fr: H, sr: H, path: seq<H>)
    ensures path == [] ==> FoldBoth(node, fn, sn, fr, sr, path) == if sn == 0 then Some((fr, sr)) else None
    ensures path != [] && sn == 0 ==> FoldBoth(node, fn, sn, fr, sr, path) == None
    ensures path != [] && sn != 0 ==>
      var (f, s) := Ascend(fn, sn);
      FoldBoth(node, fn, sn, fr, sr, path)
        == if FromLeft(fn, sn) then FoldBoth(node, f, s, node(path[0], fr), node(path[0], sr), path[1..])
           else FoldBoth(node, f, s, fr, node(sr, path[0]), path[1..])
  {
  }

  lemma HasSibling<H>(i: nat, hs: seq<H>)
    requires i < |hs|
    ensures Sibling(i, hs) == [] <==> i % 2 == 0 && i + 1 == |hs|
  {
  }

  /** A node whose level has a sibling for it uses one element and becomes its parent;
      a last node without one moves up for free; the root uses nothing. */
  lemma FoldLevel<H>(node: (H, H) -> H, hs: seq<H>, i: nat, r: H, path: seq<H>)
    requires i < |hs|
    ensures |hs| == 1 ==> Fold(node, i, 0, r, path) == if path == [] then Some(r) else None
    ensures |hs| > 1 && Sibling(i, hs) == [] ==>
      Fold(node, i, |hs| - 1, r, path) == Fold(node, i / 2, |PairUp(node, hs)| - 1, r, path)
    ensures |hs| > 1 && Sibling(i, hs) != [] ==>
      Fold(node, i, |hs| - 1, r, path)
        == if path == [] then None
           else Fold(node, i / 2, |PairUp(node, hs)| - 1, Parent(node, i, r, path[0]), path[1..])
  {
    hide *;
    HasSibling(i, hs);
    FoldStep(node, i, |hs| - 1, r, path);
    if |hs| > 1 {
      AscendLevel(i, |hs|);
      if Sibling(i, hs) == [] {
        AscendLevel(i / 2, |PairUp(node, hs)|);
        FoldStep(node, i / 2, |PairUp(node, hs)| - 1, r, path);
      } else if path != [] {
        ParentStep(node, i, r, path[0]);
      }
    }
  }

  lemma FoldBothLevel<H>(node: (H, H) -> H, hs: seq<H>, i: nat, fr: H, sr: H, path: seq<H>)
    requires i < |hs|
    ensures |hs| == 1 ==> FoldBoth(node, i, 0, fr, sr, path) == if path == [] then Some((fr, sr)) else None
    ensures |hs| > 1 && Sibling(i, hs) == [] ==>
      FoldBoth(node, i, |hs| - 1, fr, sr, path) == FoldBoth(node, i / 2, |PairUp(node, hs)| - 1, fr, sr, path)
    ensures |hs| > 1 && Sibling(i, hs) != [] && path != [] ==>
      FoldBoth(node, i, |hs| - 1, fr, sr, path)
        == FoldBoth(node, i / 2, |PairUp(node, hs)| - 1,
                    if i % 2 == 1 then node(path[0], fr) else fr, Parent(node, i, sr, path[0]), path[1..])
  {
    hide *;
    HasSibling(i, hs);
    FoldBothStep(node, i, |hs| - 1, fr, sr, path);
    if |hs| > 1 {
      AscendLevel(i, |hs|);
      if Sibling(i, hs) == [] {
        AscendLevel(i / 2, |PairUp(node, hs)|);
        FoldBothStep(node, i / 2, |PairUp(node, hs)| - 1, fr, sr, path);
      } else if path != [] {
        ParentStep(node, i, sr, path[0]);
      }
    }
  }

  lemma ParentStep<H>(node: (H, H) -> H, i: nat, r: H, p: H)
    ensures Parent(node, i, r, p) == if i % 2 == 1 then node(p, r) else node(r, p)
  {
  }

  /** The hash of node r at index i and its sibling p. */
  function Parent<H>(node: (H, H) -> H, i: nat, r: H, p: H): H {
    if i % 2 == 1 then node(p, r) else node(r, p)
  }

  lemma PairUpAt<H>(node: (H, H) -> H, i: nat, hs: seq<H>)
    requires i < |hs|
    ensures var s := Sibling(i, hs);
            |s| <= 1 && PairUp(node, hs)[i / 2] == if s == [] then hs[i] else Parent(node, i, hs[i], s[0])
    ensures |hs| == 1 ==> Sibling(i, hs) == [] && Path(node, i, hs) == [] && Mth(node, hs) == hs[i]
  {
  }

  /** The clash behind a wrongly accepted inclusion proof: the first level, from
      the root down, at which the folded nodes differ from the tree's. */
  function InclusionClash<H(==)>(node: (H, H) -> H, hs: seq<H>, i: nat, r: H, path: seq<H>): Option<Clash<H>>
    requires i < |hs|
    decreases |hs|
  {
    if |hs| == 1 then None
    else
      var up := PairUp(node, hs);
      if Sibling(i, hs) == [] then InclusionClash(node, up, i / 2, r, path)
      else if path == [] then None
      else
        var c := InclusionClash(node, up, i / 2, Parent(node, i, r, path[0]), path[1..]);
        if c.Some? then c else Compare(i, r, path[0], hs[i], Sibling(i, hs)[0])
  }

  function Compare<H(==)>(i: nat, r: H, p: H, r': H, p': H): Option<Clash<H>> {
    if r == r' && p == p' then None
    else if i % 2 == 1 then Some(Clash(p, r, p', r'))
    else Some(Clash(r, p, r', p'))
  }

  lemma CompareFinds<H(!new)>(node: (H, H) -> H, i: nat, r: H, p: H, r': H, p': H)
    requires Parent(node, i, r, p) == Parent(node, i, r', p')
    ensures var c := Compare(i, r, p, r', p');
            if c.None? then r == r' && p == p' else IsClash(node, c.value)
  {
  }

  /** Inclusion soundness: a path that folds from r at index i to the root of hs is
      the audit path of i and r is the i-th leaf hash, or the clash is found. */
  lemma {:induction false} InclusionSound<H(!new)>(node: (H, H) -> H, hs: seq<H>, i: nat, r: H, path: seq<H>)
    requires i < |hs| && Fold(node, i, |hs| - 1, r, path) == Some(Mth(node, hs))
    ensures var c := InclusionClash(node, hs, i, r, path);
            if c.None? then r == hs[i] && path == Path(node, i, hs) else IsClash(node, c.value)
    decreases |hs|
  {
    hide *;
    var up, s := PairUp(node, hs), Sibling(i, hs);
    FoldLevel(node, hs, i, r, path);
    PairUpAt(node, i, hs);
    ClashStep(node, hs, i, r, path);
    if |hs| > 1 {
      MthPairUp(node, hs);
      PathPairUp(node, i, hs);
      if s == [] {
        InclusionSound(node, up, i / 2, r, path);
      } else {
        InclusionSound(node, up, i / 2, Parent(node, i, r, path[0]), path[1..]);
        if InclusionClash(node, up, i / 2, Parent(node, i, r, path[0]), path[1..]).None? {
          CompareFinds(node, i, r, path[0], hs[i], s[0]);
          assert path == [path[0]] + path[1..];
        }
      }
    }
  }

  lemma ClashStep<H(!new)>(node: (H, H) -> H, hs: seq<H>, i: nat, r: H, path: seq<H>)
    requires i < |hs|
    ensures |hs| == 1 ==> InclusionClash(node, hs, i, r, path) == None
    ensures |hs| > 1 && Sibling(i, hs) == [] ==>
              InclusionClash(node, hs, i, r, path) == InclusionClash(node, PairUp(node, hs), i / 2, r, path)
    ensures |hs| > 1 && Sibling(i, hs) != [] && path != [] ==>
      var c := InclusionClash(node, PairUp(node, hs), i / 2, Parent(node, i, r, path[0]), path[1..]);
      InclusionClash(node, hs, i, r, path) == if c.Some? then c else Compare(i, r, path[0], hs[i], Sibling(i, hs)[0])
  {
  }

  /** Inclusion completeness: the audit path of every leaf folds to the root. */
  lemma {:induction false} InclusionComplete<H>(node: (H, H) -> H, hs: seq<H>, i: nat)
    requires i < |hs|
    ensures Fold(node, i, |hs| - 1, hs[i], Path(node, i, hs)) == Some(Mth(node, hs))
    decreases |hs|
  {
    hide *;
    FoldLevel(node, hs, i, hs[i], Path(node, i, hs));
    PairUpAt(node, i, hs);
    if |hs| > 1 {
      MthPairUp(node, hs);
      PathPairUp(node, i, hs);
      InclusionComplete(node, PairUp(node, hs), i / 2);
      assert Path(node, i, hs)[|Sibling(i, hs)|..] == Path(node, i / 2, PairUp(node, hs));
    }
  }

  /** Whatever the hashes: a fold runs to its end exactly on paths of the audit path's length. */
  lemma {:induction false} FoldLength<H>(node: (H, H) -> H, hs: seq<H>, i: nat, r: H, path: seq<H>)
    requires i < |hs|
    ensures Fold(node, i, |hs| - 1, r, path).Some? <==> |path| == |Path(node, i, hs)|
    decreases |hs|
  {
    hide *;
    FoldLevel(node, hs, i, r, path);
    PairUpAt(node, i, hs);
    if |hs| > 1 {
      PathPairUp(node, i, hs);
      if Sibling(i, hs) == [] {
        FoldLength(node, PairUp(node, hs), i / 2, r, path);
      } else if path != [] {
        FoldLength(node, PairUp(node, hs), i / 2, Parent(node, i, r, path[0]), path[1..]);
      }
    }
  }

  // ---- Consistency ----

  /** The second running root of the consistency fold is an inclusion fold. */
  lemma {:induction false} FoldBothSecond<H>(node: (H, H) -> H, fn: nat, sn: nat, fr: H, sr: H, path: seq<H>)
    ensures FoldBoth(node, fn, sn, fr, sr, path).Some? <==> Fold(node, fn, sn, sr, path).Some?
    ensures FoldBoth(node, fn, sn, fr, sr, path).Some? ==>
              FoldBoth(node, fn, sn, fr, sr, path).value.1 == Fold(node, fn, sn, sr, path).value
    decreases |path|
  {
    if path != [] && sn != 0 {
      var (f, s) := Ascend(fn, sn);
      if FromLeft(fn, sn) {
        FoldBothSecond(node, f, s, node(path[0], fr), node(path[0], sr), path[1..]);
      } else {
        FoldBothSecond(node, f, s, fr, node(sr, path[0]), path[1..]);
      }
    }
  }

  lemma PairUpPatched<H>(node: (H, H) -> H, i: nat, hs: seq<H>, fr: H)
    requires i < |hs|
    ensures PairUp(node, hs[..i] + [fr])
         == PairUp(node, hs)[..i / 2] + [if i % 2 == 1 then node(Sibling(i, hs)[0], fr) else fr]
  {
  }

  /** Along the audit path of i, the first running root collects exactly the
      subtrees to the left of i: it ends as the root of the first i nodes and
      the value it started from. */
  lemma {:induction false} FoldBothFirst<H>(node: (H, H) -> H, hs: seq<H>, i: nat, fr: H, sr: H)
    requires i < |hs|
    ensures var b := FoldBoth(node, i, |hs| - 1, fr, sr, Path(node, i, hs));
            b.Some? && b.value.0 == Mth(node, hs[..i] + [fr])
    decreases |hs|
  {
    hide *;
    var up, path, s := PairUp(node, hs), Path(node, i, hs), Sibling(i, hs);
    FoldBothLevel(node, hs, i, fr, sr, path);
    HasSibling(i, hs);
    PairUpAt(node, i, hs);
    PairUpPatched(node, i, hs, fr);
    MthPairUp(node, hs[..i] + [fr]);
    if |hs| == 1 {
      PairUpAt(node, 0, hs[..i] + [fr]);
    } else {
      PathPairUp(node, i, hs);
      assert path[|s|..] == Path(node, i / 2, up);
      if s == [] {
        FoldBothFirst(node, up, i / 2, fr, sr);
      } else {
        FoldBothFirst(node, up, i / 2, if i % 2 == 1 then node(s[0], fr) else fr, Parent(node, i, sr, s[0]));
      }
    }
  }

  /** The consistency fold with its starting shift, from the node both trees share. */
  function FoldFrom<H>(node: (H, H) -> H, first: nat, second: nat, full: seq<H>): Option<(H, H)>
    requires 1 <= first < second && full != []
  {
    var (f, s) := StripOnes(first - 1, second - 1);
    FoldBoth(node, f, s, full[0], full[0], full[1..])
  }

  lemma FoldFromStep<H>(node: (H, H) -> H, m: nat, n: nat, full: seq<H>)
    requires 1 <= m < n && full != []
    ensures m % 2 == 0 ==> FoldFrom(node, m, n, full) == FoldFrom(node, m / 2, (n + 1) / 2, full)
    ensures m % 2 == 1 ==> FoldFrom(node, m, n, full) == FoldBoth(node, m - 1, n - 1, full[0], full[0], full[1..])
  {
    if m % 2 == 0 { assert (m - 1) / 2 == m / 2 - 1 && (n - 1) / 2 == (n + 1) / 2 - 1; }
  }

  /** An even first size is the same question one level up. */
  lemma EvenStep<H>(node: (H, H) -> H, hs: seq<H>, m: nat, full: seq<H>)
    requires 1 <= m < |hs| && m % 2 == 0 && full != []
    ensures var up := PairUp(node, hs);
            && 1 <= m / 2 < |up|
            && FoldFrom(node, m, |hs|, full) == FoldFrom(node, m / 2, |up|, full)
            && Mth(node, up) == Mth(node, hs)
            && Mth(node, up[..m / 2]) == Mth(node, hs[..m])
            && SubProof(node, m / 2, up, false) == SubProof(node, m, hs, false)
  {
    hide *;
    FoldFromStep(node, m, |hs|, full);
    MthPairUp(node, hs);
    MthPairUp(node, hs[..m]);
    PairUpSplit(node, hs, m);
    SubProofPairUp(node, m, hs, false);
  }

  function ConsistencyClash<H(==)>(node: (H, H) -> H, hs: seq<H>, m: nat, full: seq<H>): Option<Clash<H>>
    requires 1 <= m < |hs| && full != []
    decreases |hs|
  {
    if m % 2 == 0 then ConsistencyClash(node, PairUp(node, hs), m / 2, full)
    else InclusionClash(node, hs, m - 1, full[0], full[1..])
  }

  /** Consistency soundness: folding to the root of hs forces the first root to be
      the root of the first m leaves and the proof to be the one of RFC 9162. */
  lemma {:induction false} ConsistencySound<H(!new)>(node: (H, H) -> H, hs: seq<H>, m: nat, full: seq<H>, first: H)
    requires 1 <= m < |hs| && full != []
    requires FoldFrom(node, m, |hs|, full) == Some((first, Mth(node, hs)))
    ensures var c := ConsistencyClash(node, hs, m, full);
            if c.None? then first == Mth(node, hs[..m]) && full == SubProof(node, m, hs, false)
            else IsClash(node, c.value)
    decreases |hs|
  {
    if m % 2 == 0 {
      EvenStep(node, hs, m, full);
      ConsistencySound(node, PairUp(node, hs), m / 2, full, first);
    } else {
      OddSound(node, hs, m, full, first);
    }
  }

  lemma OddSound<H(!new)>(node: (H, H) -> H, hs: seq<H>, m: nat, full: seq<H>, first: H)
    requires 1 <= m < |hs| && m % 2 == 1 && full != []
    requires FoldFrom(node, m, |hs|, full) == Some((first, Mth(node, hs)))
    ensures var c := InclusionClash(node, hs, m - 1, full[0], full[1..]);
            if c.None? then first == Mth(node, hs[..m]) && full == SubProof(node, m, hs, false)
            else IsClash(node, c.value)
  {
    hide *;
    var start, path := full[0], full[1..];
    FoldFromStep(node, m, |hs|, full);
    FoldBothSecond(node, m - 1, |hs| - 1, start, start, path);
    InclusionSound(node, hs, m - 1, start, path);
    FoldBothFirst(node, hs, m - 1, start, start);
    SubProofOdd(node, m, hs, false);
    assert hs[..m - 1] + [hs[m - 1]] == hs[..m];
    assert full == [start] + path;
  }

  /** Consistency completeness, before the question of the prepended root. */
  lemma {:induction false} ConsistencyComplete<H>(node: (H, H) -> H, hs: seq<H>, m: nat)
    requires 1 <= m < |hs|
    ensures SubProof(node, m, hs, false) != []
    ensures FoldFrom(node, m, |hs|, SubProof(node, m, hs, false)) == Some((Mth(node, hs[..m]), Mth(node, hs)))
    decreases |hs|
  {
    hide *;
    var full := SubProof(node, m, hs, false);
    if m % 2 == 0 {
      SubProofPairUp(node, m, hs, false);
      ConsistencyComplete(node, PairUp(node, hs), m / 2);
      EvenStep(node, hs, m, full);
    } else {
      SubProofOdd(node, m, hs, false);
      FoldFromStep(node, m, |hs|, full);
      InclusionComplete(node, hs, m - 1);
      FoldBothSecond(node, m - 1, |hs| - 1, full[0], full[0], full[1..]);
      FoldBothFirst(node, hs, m - 1, full[0], full[0]);
      assert hs[..m - 1] + [hs[m - 1]] == hs[..m];
    }
  }

  /** Only proofs of the right length are folded to the end, whatever the hashes. */
  lemma {:induction false} FoldFromLength<H>(node: (H, H) -> H, hs: seq<H>, m: nat, full: seq<H>)
    requires 1 <= m < |hs| && full != []
    ensures FoldFrom(node, m, |hs|, full).Some? <==> |full| == |SubProof(node, m, hs, false)|
    decreases |hs|
  {
    hide *;
    if m % 2 == 0 {
      EvenStep(node, hs, m, full);
      FoldFromLength(node, PairUp(node, hs), m / 2, full);
    } else {
      SubProofOdd(node, m, hs, false);
      FoldFromStep(node, m, |hs|, full);
      FoldBothSecond(node, m - 1, |hs| - 1, full[0], full[0], full[1..]);
      FoldLength(node, hs, m - 1, full[0], full[1..]);
    }
  }
}
