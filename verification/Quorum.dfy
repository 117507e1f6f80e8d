/** src/audit/cosign.ts: counting the witnesses behind a checkpoint, over whatever list of
    cosignatures a registry serves. */
module Quorum {
  import opened Bytes
  import opened LogVerify

  datatype Cosignature = Cosignature(witnessId: string, head: Head, witnessedAt: int, signature: string)

  /** The policy and the resolved keys; `verifies` is the signature check under a key. Times in
      milliseconds, the age window in seconds. */
  datatype Inputs = Inputs(
    checkpoint: Head, trusted: seq<string>, keys: map<string, string>, historical: set<string>,
    now: int, maxSkewMs: int, maxAgeSecs: Option<int>, minWitnesses: nat,
    verifies: (Cosignature, string) -> bool)

  /** The served list; None is an element that does not parse. */
  type Served = seq<Option<Cosignature>>

  predicate NotFuture(q: Inputs, c: Cosignature) {
    c.witnessedAt - q.now <= q.maxSkewMs
  }

  predicate AgeOk(q: Inputs, c: Cosignature) {
    q.maxAgeSecs.None? || q.now - c.witnessedAt <= q.maxAgeSecs.value * 1000
  }

  /** Bound to the checkpoint, dated, and signed by its witness's own key. */
  predicate Attests(q: Inputs, c: Cosignature) {
    c.witnessId in q.keys && c.head == q.checkpoint && NotFuture(q, c) && q.verifies(c, q.keys[c.witnessId])
  }

  predicate Counts(q: Inputs, c: Cosignature) {
    c.witnessId in q.trusted && c.witnessId !in q.historical && Attests(q, c)
  }

  predicate CountsHistorical(q: Inputs, c: Cosignature) {
    c.witnessId in q.historical && Attests(q, c)
  }

  // ---- What the counts mean ----

  ghost predicate Witnesses(q: Inputs, l: Served, w: string) {
    exists i :: 0 <= i < |l| && l[i].Some? && l[i].value.witnessId == w && Counts(q, l[i].value)
  }

  ghost predicate WitnessesHistorical(q: Inputs, l: Served, w: string) {
    exists i :: 0 <= i < |l| && l[i].Some? && l[i].value.witnessId == w && CountsHistorical(q, l[i].value)
  }

  ghost function Verified(q: Inputs, l: Served): set<string> {
    set w | w in q.trusted && Witnesses(q, l, w)
  }

  ghost function Historical(q: Inputs, l: Served): set<string> {
    set w | w in q.historical && WitnessesHistorical(q, l, w)
  }

  /** The first counting cosignature of a witness. */
  function FirstCounting(q: Inputs, l: Served, w: string): (r: Option<Cosignature>)
    ensures r.Some? ==> r.value.witnessId == w && Counts(q, r.value) && r in l
    ensures r.Some? <==> Witnesses(q, l, w)
  {
    if l == [] then None
    else if l[0].Some? && l[0].value.witnessId == w && Counts(q, l[0].value) then
      assert Witnesses(q, l, w);
      l[0]
    else
      var r := FirstCounting(q, l[1..], w);
      assert Witnesses(q, l[1..], w) <==> Witnesses(q, l, w) by { WitnessesTail(q, l, w); }
      r
  }

  lemma WitnessesTail(q: Inputs, l: Served, w: string)
    requires l != [] && !(l[0].Some? && l[0].value.witnessId == w && Counts(q, l[0].value))
    ensures Witnesses(q, l[1..], w) <==> Witnesses(q, l, w)
  {
    hide Counts;
    if Witnesses(q, l, w) {
      var i :| 0 <= i < |l| && l[i].Some? && l[i].value.witnessId == w && Counts(q, l[i].value);
      assert l[1..][i - 1] == l[i];
    }
  }

  /** A verified witness is fresh by its first counting cosignature. */
  ghost function Fresh(q: Inputs, l: Served): set<string> {
    set w | w in q.trusted && Witnesses(q, l, w) && AgeOk(q, FirstCounting(q, l, w).value)
  }

  /** l[i] attests the checkpoint for w: it parses, names w, is bound to the very head, is not
      dated beyond the skew, and verifies under the key resolved for w. */
  predicate AttestsAt(q: Inputs, l: Served, i: nat, w: string)
    requires i < |l|
  {
    && l[i].Some? && l[i].value.witnessId == w && w in q.keys
    && l[i].value.head.logId == q.checkpoint.logId && l[i].value.head.size == q.checkpoint.size
    && l[i].value.head.root == q.checkpoint.root
    && l[i].value.witnessedAt - q.now <= q.maxSkewMs && q.verifies(l[i].value, q.keys[w])
  }

  /** Who is counted: a trusted witness with a current key that some cosignature attests for; as
      fresh, when the first of them is within the age window; as historical, when its key is
      retired and one attests. */
  lemma CountedExactly(q: Inputs, l: Served, w: string)
    ensures w in Verified(q, l) <==>
      w in q.trusted && w !in q.historical && exists i :: 0 <= i < |l| && AttestsAt(q, l, i, w)
    ensures w in Fresh(q, l) <==>
      && w in q.trusted && w !in q.historical
      && exists i :: 0 <= i < |l| && AttestsAt(q, l, i, w) && (forall j :: 0 <= j < i ==> !AttestsAt(q, l, j, w))
                     && (q.maxAgeSecs.Some? ==> q.now - l[i].value.witnessedAt <= q.maxAgeSecs.value * 1000)
    ensures w in Historical(q, l) <==> w in q.historical && exists i :: 0 <= i < |l| && AttestsAt(q, l, i, w)
  {
    hide FirstCounting;
    FirstAttests(q, l, w);
    forall i | 0 <= i < |l|
      ensures AttestsAt(q, l, i, w) <==> l[i].Some? && l[i].value.witnessId == w && Attests(q, l[i].value)
    {
    }
  }

  lemma {:induction false} FirstAttests(q: Inputs, l: Served, w: string)
    ensures w in q.trusted && w !in q.historical ==>
      match FirstCounting(q, l, w)
      case None => forall i :: 0 <= i < |l| ==> !AttestsAt(q, l, i, w)
      case Some(c) => exists i :: 0 <= i < |l| && l[i] == Some(c) && AttestsAt(q, l, i, w)
                                  && forall j :: 0 <= j < i ==> !AttestsAt(q, l, j, w)
  {
    hide Witnesses;
    if w in q.trusted && w !in q.historical && l != [] {
      CountsHere(q, l, w);
      if !AttestsAt(q, l, 0, w) {
        FirstAttests(q, l[1..], w);
        forall i | 0 <= i < |l| - 1 ensures AttestsAt(q, l[1..], i, w) <==> AttestsAt(q, l, i + 1, w) {}
        match FirstCounting(q, l[1..], w)
        case None =>
          forall i | 0 <= i < |l| ensures !AttestsAt(q, l, i, w) {
            if i > 0 { assert !AttestsAt(q, l[1..], i - 1, w); }
          }
        case Some(c) =>
          var i :| 0 <= i < |l[1..]| && l[1..][i] == Some(c) && AttestsAt(q, l[1..], i, w)
                   && forall j :: 0 <= j < i ==> !AttestsAt(q, l[1..], j, w);
          assert l[i + 1] == Some(c) && AttestsAt(q, l, i + 1, w);
          forall j | 0 <= j < i + 1 ensures !AttestsAt(q, l, j, w) {
            if j > 0 { assert !AttestsAt(q, l[1..], j - 1, w); }
          }
      }
    }
  }

  lemma CountsHere(q: Inputs, l: Served, w: string)
    requires l != [] && w in q.trusted && w !in q.historical
    ensures AttestsAt(q, l, 0, w) <==> l[0].Some? && l[0].value.witnessId == w && Counts(q, l[0].value)
    ensures FirstCounting(q, l, w) == if AttestsAt(q, l, 0, w) then l[0] else FirstCounting(q, l[1..], w)
  {
  }

  datatype Report = Report(witnessed: nat, meets: bool, freshCount: nat, meetsFresh: bool, historical: nat)

  /** `hostEvaluateQuorum`: the counts are cardinalities of those sets. */
  method EvaluateQuorum(q: Inputs, l: Served) returns (r: Report)
    ensures r.witnessed == |Verified(q, l)| && r.freshCount == |Fresh(q, l)| && r.historical == |Historical(q, l)|
    ensures r.meets == (|Verified(q, l)| >= q.minWitnesses) && r.meetsFresh == (|Fresh(q, l)| >= q.minWitnesses)
  {
    hide Counts;
    var verified: set<string>, freshVerified: set<string> := {}, {};
    for k := 0 to |l|
      invariant verified == Verified(q, l[..k])
      invariant freshVerified == Fresh(q, l[..k])
    {
      var before := verified;
      Extend(q, l, k);
      if l[k].Some? {
        var c := l[k].value;
        var counts := IsCounting(q, c);
        if c.witnessId !in verified && counts {
          verified := verified + {c.witnessId};
          if AgeOk(q, c) { freshVerified := freshVerified + {c.witnessId}; }
        }
      }
    }
    assert l[..|l|] == l;
    var historical := CountHistorical(q, l);
    return Report(
      |verified|, |verified| >= q.minWitnesses, |freshVerified|, |freshVerified| >= q.minWitnesses, historical);
  }

  /** The chain of tests on one parsed cosignature, in the order of the loop. */
  method IsCounting(q: Inputs, c: Cosignature) returns (ok: bool)
    ensures ok <==> Counts(q, c)
  {
    if c.witnessId !in q.trusted { return false; }
    if c.witnessId in q.historical { return false; }
    if c.witnessId !in q.keys { return false; }
    if c.head != q.checkpoint { return false; }
    if !NotFuture(q, c) { return false; }
    return q.verifies(c, q.keys[c.witnessId]);
  }

  lemma Extend(q: Inputs, l: Served, k: nat)
    requires k < |l|
    ensures var c := l[k];
            var adds := c.Some? && Counts(q, c.value) && c.value.witnessId !in Verified(q, l[..k]);
            && Verified(q, l[..k + 1]) == Verified(q, l[..k]) + (if adds then {c.value.witnessId} else {})
            && Fresh(q, l[..k + 1]) ==
               Fresh(q, l[..k]) + (if adds && AgeOk(q, c.value) then {c.value.witnessId} else {})
  {
    hide Counts, AgeOk, FirstCounting;
    forall w { WitnessesSnoc(q, l, k, w); }
    if l[k].Some? { CountsTrusted(q, l[k].value); }
  }

  lemma CountsTrusted(q: Inputs, c: Cosignature)
    ensures Counts(q, c) ==> c.witnessId in q.trusted && c.witnessId !in q.historical
  {
  }

  lemma {:induction false} WitnessesSnoc(q: Inputs, l: Served, k: nat, w: string)
    requires k < |l|
    ensures var here := l[k].Some? && l[k].value.witnessId == w && Counts(q, l[k].value);
            && (Witnesses(q, l[..k + 1], w) <==> Witnesses(q, l[..k], w) || here)
            && FirstCounting(q, l[..k + 1], w) ==
               (if Witnesses(q, l[..k], w) then FirstCounting(q, l[..k], w) else if here then l[k] else None)
    decreases k
  {
    hide Counts;
    if k == 0 {
      assert l[..1][1..] == [] && l[..0] == [];
    } else {
      WitnessesSnoc(q, l[1..], k - 1, w);
      assert l[1..][..k] == l[..k + 1][1..] && l[1..][..k - 1] == l[..k][1..];
    }
  }

  /** `countHistoricalWitnesses`. */
  method CountHistorical(q: Inputs, l: Served) returns (n: nat)
    ensures n == |Historical(q, l)|
  {
    hide Attests;
    var counted: set<string> := {};
    for k := 0 to |l|
      invariant counted == Historical(q, l[..k])
    {
      ExtendHistorical(q, l, k);
      if l[k].Some? && l[k].value.witnessId in q.historical && l[k].value.witnessId !in counted
         && Attests(q, l[k].value) {
        counted := counted + {l[k].value.witnessId};
      }
    }
    assert l[..|l|] == l;
    return |counted|;
  }

  lemma ExtendHistorical(q: Inputs, l: Served, k: nat)
    requires k < |l|
    ensures var c := l[k];
            Historical(q, l[..k + 1]) ==
            Historical(q, l[..k]) + (if c.Some? && CountsHistorical(q, c.value) then {c.value.witnessId} else {})
  {
    hide Attests;
    forall w ensures WitnessesHistorical(q, l[..k + 1], w) <==>
      WitnessesHistorical(q, l[..k], w) || (l[k].Some? && l[k].value.witnessId == w && CountsHistorical(q, l[k].value))
    {
      if WitnessesHistorical(q, l[..k], w) {
        var i :| 0 <= i < k && l[..k][i].Some? && l[..k][i].value.witnessId == w
                 && CountsHistorical(q, l[..k][i].value);
        assert l[..k + 1][i] == l[..k][i];
      }
      if l[k].Some? && l[k].value.witnessId == w && CountsHistorical(q, l[k].value) { assert l[..k + 1][k] == l[k]; }
      if WitnessesHistorical(q, l[..k + 1], w) {
        var i :| 0 <= i < k + 1 && l[..k + 1][i].Some? && l[..k + 1][i].value.witnessId == w
                 && CountsHistorical(q, l[..k + 1][i].value);
        assert i < k ==> l[..k][i] == l[..k + 1][i];
      }
    }
  }

  // ---- What a registry can and cannot do with the list ----

  lemma {:induction false} SubsetSize(a: set<string>, b: set<string>)
    requires a <= b
    ensures |a| <= |b|
  {
    if a != {} {
      var x :| x in a;
      SubsetSize(a - {x}, b - {x});
    }
  }

  ghost predicate Within(l: Served, l': Served) {
    forall c :: c in l ==> c in l'
  }

  /** Adding cosignatures never lowers the count, and reordering or repeating them never
      changes it: the count depends only on which cosignatures are present. */
  lemma CountMonotone(q: Inputs, l: Served, l': Served)
    requires Within(l, l')
    ensures Verified(q, l) <= Verified(q, l') && |Verified(q, l)| <= |Verified(q, l')|
    ensures Within(l', l) ==> Verified(q, l) == Verified(q, l')
  {
    hide Counts;
    forall w | Witnesses(q, l, w) ensures Witnesses(q, l', w) { StillWitnesses(q, l, l', w); }
    if Within(l', l) {
      forall w | Witnesses(q, l', w) ensures Witnesses(q, l, w) { StillWitnesses(q, l', l, w); }
    }
    SubsetSize(Verified(q, l), Verified(q, l'));
  }

  lemma StillWitnesses(q: Inputs, l: Served, l': Served, w: string)
    requires Within(l, l') && Witnesses(q, l, w)
    ensures Witnesses(q, l', w)
  {
    hide Counts;
    var i :| 0 <= i < |l| && l[i].Some? && l[i].value.witnessId == w && Counts(q, l[i].value);
    assert l[i] in l';
    var j :| 0 <= j < |l'| && l'[j] == l[i];
  }

  /** Fresh witnesses are verified ones; current and historical witnesses are different, and
      together no more than the distinct trusted ones when historical ids are trusted. */
  lemma CountsBounded(q: Inputs, l: Served)
    ensures Fresh(q, l) <= Verified(q, l) && |Fresh(q, l)| <= |Verified(q, l)|
    ensures (forall w :: w in q.historical ==> w in q.trusted) ==>
              |Verified(q, l)| + |Historical(q, l)| <= |set w | w in q.trusted|
  {
    hide FirstCounting;
    SubsetSize(Fresh(q, l), Verified(q, l));
    var v, h, t := Verified(q, l), Historical(q, l), set w | w in q.trusted;
    if forall w :: w in q.historical ==> w in q.trusted {
      assert v !! h;
      assert |v + h| == |v| + |h|;
      SubsetSize(v + h, t);
    }
  }

  /** Some witness has both a fresh and a stale counting cosignature. */
  ghost predicate Mixed(q: Inputs, l: Served) {
    exists c, d :: Some(c) in l && Some(d) in l && c.witnessId == d.witnessId && Counts(q, c) && Counts(q, d)
                   && AgeOk(q, c) && !AgeOk(q, d)
  }

  /** The fresh set, unlike the count, can depend on the order: it is the same for all orderings
      of the cosignatures if and only if no witness has both a fresh and a stale one; and then
      repetitions do not change it either. */
  lemma FreshOrderMatters(q: Inputs, l: Served)
    ensures (forall l' :: multiset(l') == multiset(l) ==> Fresh(q, l') == Fresh(q, l)) <==> !Mixed(q, l)
    ensures !Mixed(q, l) ==> forall l' :: Within(l, l') && Within(l', l) ==> Fresh(q, l') == Fresh(q, l)
  {
    hide Fresh;
    if Mixed(q, l) {
      MixedDiffers(q, l);
    } else {
      forall l' | Within(l, l') && Within(l', l) ensures Fresh(q, l') == Fresh(q, l) { UnmixedSame(q, l, l'); }
      forall l' | multiset(l') == multiset(l) ensures Fresh(q, l') == Fresh(q, l) {
        Rearranged(l, l');
        Rearranged(l', l);
      }
    }
  }

  lemma Rearranged(l: Served, l': Served)
    requires multiset(l') == multiset(l)
    ensures Within(l, l')
  {
    forall c | c in l ensures c in l' { assert c in multiset(l); }
  }

  lemma UnmixedSame(q: Inputs, l: Served, l': Served)
    requires !Mixed(q, l) && Within(l, l') && Within(l', l)
    ensures Fresh(q, l') == Fresh(q, l)
  {
    CountMonotone(q, l, l');
    forall w | Witnesses(q, l, w) && Witnesses(q, l', w)
      ensures AgeOk(q, FirstCounting(q, l, w).value) <==> AgeOk(q, FirstCounting(q, l', w).value)
    {
      var c, d := FirstCounting(q, l, w), FirstCounting(q, l', w);
      assert c in l && d in l && c == Some(c.value) && d == Some(d.value);
    }
    SameVerified(q, l, l');
  }

  lemma SameVerified(q: Inputs, l: Served, l': Served)
    requires Verified(q, l) == Verified(q, l')
    requires forall w :: Witnesses(q, l, w) && Witnesses(q, l', w) ==>
      (AgeOk(q, FirstCounting(q, l, w).value) <==> AgeOk(q, FirstCounting(q, l', w).value))
    ensures Fresh(q, l) == Fresh(q, l')
  {
    hide FirstCounting, AgeOk;
    forall w ensures w in Fresh(q, l) <==> w in Fresh(q, l') {
      assert w in Verified(q, l) <==> w in Verified(q, l');
    }
  }

  lemma MixedDiffers(q: Inputs, l: Served)
    requires Mixed(q, l)
    ensures exists l' :: multiset(l') == multiset(l) && Fresh(q, l') != Fresh(q, l)
  {
    hide FirstCounting, Counts;
    var c, d :| Some(c) in l && Some(d) in l && c.witnessId == d.witnessId && Counts(q, c) && Counts(q, d)
                && AgeOk(q, c) && !AgeOk(q, d);
    var a := ToFront(q, c, l);
    var b := ToFront(q, d, l);
    assert c.witnessId in Fresh(q, a) && c.witnessId !in Fresh(q, b);
  }

  /** The ordering that serves c first decides whether its witness is fresh. */
  lemma ToFront(q: Inputs, c: Cosignature, l: Served) returns (l': Served)
    requires Counts(q, c) && Some(c) in l
    ensures multiset(l') == multiset(l)
    ensures FirstCounting(q, l', c.witnessId) == Some(c) && Witnesses(q, l', c.witnessId)
    ensures c.witnessId in Verified(q, l')
  {
    var i :| 0 <= i < |l| && l[i] == Some(c);
    var rest := l[..i] + l[i + 1..];
    l' := [Some(c)] + rest;
    assert l == l[..i] + ([Some(c)] + l[i + 1..]);
    Leads(q, c, rest);
    assert l'[0] == Some(c);
  }

  lemma Leads(q: Inputs, c: Cosignature, l: Served)
    requires Counts(q, c)
    ensures FirstCounting(q, [Some(c)] + l, c.witnessId) == Some(c)
  {
  }
}
