/** src/audit/revocation-lineage.ts: walking the lineage of a revocation. */
module Lineage {
  import opened Bytes

  datatype FailureClass = Transient | Permanent | Hard

  datatype FetchError = Fetch | BodyTooLarge | Ssrf | Redirect

  function ClassifyStatus(status: int): FailureClass {
    if status == 429 || status == 408 || 500 <= status <= 599 then Transient else Permanent
  }

  function ClassifyFetch(e: FetchError): FailureClass {
    match e
    case Fetch => Transient
    case BodyTooLarge => Hard
    case Ssrf => Permanent
    case Redirect => Permanent
  }

  datatype Revocation = Revocation(compromisedSince: int, fingerprint: string)

  /** What verifying one member's body yields. */
  datatype MemberVerdict = Verified(revocation: Revocation) | Invalid | Unavailable | Unsupported

  /** One element of the response: no object with a body, or a member. `isRevocation` is the test
      on the body's type. */
  datatype Item = Unusable | Member(ctxId: Option<string>, isRevocation: bool, verdict: MemberVerdict)

  datatype Answer =
    | FetchFails(error: FetchError)
    | Crashes
    | Status(code: int)
    | NotJson
    | NotArray
    | Items(items: seq<Item>)

  datatype Tally = Tally(verified: nat, invalid: nat, unavailable: nat, unsupported: nat)

  const NO_TALLY := Tally(0, 0, 0, 0)

  datatype LineageMember = LineageMember(ctxId: string, revocation: Revocation)

  datatype Kind = Empty | MissingNamedCtx | Failed(kind: FailureClass)

  datatype Outcome =
    | Walked(members: seq<LineageMember>, tally: Tally)
    | Refused(kind: Kind, tally: Tally)

  /** The members whose verdict the walk asks for. */
  predicate Evaluated(i: Item) {
    i.Member? && i.isRevocation && i.ctxId.Some? && i.ctxId.value != ""
  }

  function Tallied(t: Tally, v: MemberVerdict): Tally {
    match v
    case Verified(_) => t.(verified := t.verified + 1)
    case Invalid => t.(invalid := t.invalid + 1)
    case Unavailable => t.(unavailable := t.unavailable + 1)
    case Unsupported => t.(unsupported := t.unsupported + 1)
  }

  function Total(t: Tally): nat {
    t.verified + t.invalid + t.unavailable + t.unsupported
  }

  // ---- What a walk should return ----

  predicate Named(items: seq<Item>, ctxId: string) {
    exists i :: 0 <= i < |items| && items[i].Member? && items[i].ctxId == Some(ctxId)
  }

  predicate AllAvailable(items: seq<Item>) {
    forall i :: 0 <= i < |items| && Evaluated(items[i]) ==> !items[i].verdict.Unavailable?
  }

  /** The verified revocation members, in order. */
  function VerifiedMembers(items: seq<Item>): seq<LineageMember> {
    if items == [] then []
    else
      var rest, last := VerifiedMembers(items[..|items| - 1]), items[|items| - 1];
      if Evaluated(last) && last.verdict.Verified?
      then rest + [LineageMember(last.ctxId.value, last.verdict.revocation)] else rest
  }

  function TallyOf(items: seq<Item>): Tally {
    if items == [] then NO_TALLY
    else
      var rest, last := TallyOf(items[..|items| - 1]), items[|items| - 1];
      if Evaluated(last) then Tallied(rest, last.verdict) else rest
  }

  function EvaluatedCount(items: seq<Item>): nat {
    if items == [] then 0
    else EvaluatedCount(items[..|items| - 1]) + if Evaluated(items[|items| - 1]) then 1 else 0
  }

  lemma {:induction false} TallySums(items: seq<Item>)
    ensures Total(TallyOf(items)) == EvaluatedCount(items)
    decreases |items|
  {
    hide TallyOf, EvaluatedCount, Tallied, Evaluated;
    FoldStep(items, |items|);
    assert items[..|items|] == items;
    if items != [] {
      var n := |items| - 1;
      TallySums(items[..n]);
      FoldStep(items, n);
      if items[n].Member? { TalliedTotal(TallyOf(items[..n]), items[n].verdict); }
      EvaluatedIsMember(items[n]);
    }
  }

  datatype VerdictKind = WasVerified | WasInvalid | WasUnavailable | WasUnsupported

  /** A revocation with a ctx_id that is not empty and a verdict of this kind. */
  predicate OfKind(i: Item, kind: VerdictKind) {
    && i.Member? && i.isRevocation && i.ctxId.Some? && i.ctxId.value != ""
    && match kind
       case WasVerified => i.verdict.Verified?
       case WasInvalid => i.verdict.Invalid?
       case WasUnavailable => i.verdict.Unavailable?
       case WasUnsupported => i.verdict.Unsupported?
  }

  function Places(items: seq<Item>, kind: VerdictKind): set<nat> {
    set i: nat | i < |items| && OfKind(items[i], kind)
  }

  /** Each tally is the number of evaluated members with a verdict of its kind. */
  lemma {:induction false} TallyExact(items: seq<Item>)
    ensures TallyOf(items) == Tally(|Places(items, WasVerified)|, |Places(items, WasInvalid)|,
                                    |Places(items, WasUnavailable)|, |Places(items, WasUnsupported)|)
    decreases |items|
  {
    hide Places;
    if items == [] {
      forall kind { NoPlaces(kind); }
    } else {
      TallyExact(items[..|items| - 1]);
      forall kind { OneMorePlace(items, kind); }
    }
  }

  lemma NoPlaces(kind: VerdictKind)
    ensures Places([], kind) == {}
  {
  }

  lemma OneMorePlace(items: seq<Item>, kind: VerdictKind)
    requires items != []
    ensures var n := |items| - 1;
            |Places(items, kind)| == |Places(items[..n], kind)| + if OfKind(items[n], kind) then 1 else 0
  {
    hide OfKind;
    var n := |items| - 1;
    var before, after := Places(items[..n], kind), Places(items, kind);
    assert forall i: nat :: i < n ==> items[..n][i] == items[i];
    if OfKind(items[n], kind) {
      assert after == before + {n} && n !in before;
    } else {
      assert after == before;
    }
  }

  lemma TalliedTotal(t: Tally, v: MemberVerdict)
    ensures Total(Tallied(t, v)) == Total(t) + 1
  {
  }

  lemma EvaluatedIsMember(i: Item)
    ensures Evaluated(i) ==> i.Member?
  {
  }

  /** One more item. */
  lemma FoldStep(items: seq<Item>, k: nat)
    requires k <= |items|
    ensures k == 0 || items == [] ==>
      VerifiedMembers(items[..0]) == [] && TallyOf(items[..0]) == NO_TALLY && EvaluatedCount(items[..0]) == 0
    ensures k < |items| ==>
      var m, members, tally := items[k], VerifiedMembers(items[..k]), TallyOf(items[..k]);
      && VerifiedMembers(items[..k + 1]) ==
         (if Evaluated(m) && m.verdict.Verified?
          then members + [LineageMember(m.ctxId.value, m.verdict.revocation)] else members)
      && TallyOf(items[..k + 1]) == (if Evaluated(m) then Tallied(tally, m.verdict) else tally)
      && EvaluatedCount(items[..k + 1]) == EvaluatedCount(items[..k]) + if Evaluated(m) then 1 else 0
  {
    if k < |items| { assert items[..k + 1][..k] == items[..k]; }
  }

  /** The first member that cannot be verified now, or the end. */
  function Stop(items: seq<Item>, k: nat): (n: nat)
    requires k <= |items|
    ensures k <= n <= |items|
    ensures forall i :: k <= i < n ==> !(Evaluated(items[i]) && items[i].verdict.Unavailable?)
    ensures n < |items| ==> Evaluated(items[n]) && items[n].verdict.Unavailable?
    decreases |items| - k
  {
    if k == |items| || (Evaluated(items[k]) && items[k].verdict.Unavailable?) then k else Stop(items, k + 1)
  }

  // ---- The walk ----

  /** All or nothing: it succeeds exactly when the response is a non-empty list that names the
      triggering context and no evaluated member is unavailable, and then returns exactly the
      verified members; the tally counts the members evaluated, up to and including the one
      that aborts the walk. */
  method Walk(answer: Answer, expectCtxId: string) returns (o: Outcome)
    ensures o.Walked? <==>
      && answer.Items?
      && (exists i :: 0 <= i < |answer.items| && answer.items[i].Member? && answer.items[i].ctxId == Some(expectCtxId))
      && AllAvailable(answer.items)
    ensures o.Walked? ==> o.members == VerifiedMembers(answer.items) && o.tally == TallyOf(answer.items)
    ensures Total(o.tally) <= if answer.Items? then |answer.items| else 0
    ensures answer.Items? && answer.items == [] ==> o == Refused(Empty, NO_TALLY)
    ensures answer.Items? && answer.items != [] && !Named(answer.items, expectCtxId) ==>
      o == Refused(MissingNamedCtx, NO_TALLY)
    ensures answer.Items? && Named(answer.items, expectCtxId) && !AllAvailable(answer.items) ==>
      var n := Stop(answer.items, 0);
      n < |answer.items| && o == Refused(Failed(Transient), TallyOf(answer.items[..n + 1]))
    ensures answer == FetchFails(Fetch) || answer.Crashes? ==> o == Refused(Failed(Transient), NO_TALLY)
    ensures answer == FetchFails(BodyTooLarge) ==> o == Refused(Failed(Hard), NO_TALLY)
    ensures answer == FetchFails(Ssrf) || answer == FetchFails(Redirect) ==> o == Refused(Failed(Permanent), NO_TALLY)
    ensures answer.Status? ==>
      var retried := answer.code == 429 || answer.code == 408 || 500 <= answer.code <= 599;
      o == Refused(Failed(if retried then Transient else Permanent), NO_TALLY)
    ensures answer.NotJson? || answer.NotArray? ==> o == Refused(Failed(Permanent), NO_TALLY)
  {
    match answer
    case FetchFails(error) => return Refused(Failed(ClassifyFetch(error)), NO_TALLY);
    case Crashes => return Refused(Failed(Transient), NO_TALLY);
    case Status(code) => return Refused(Failed(ClassifyStatus(code)), NO_TALLY);
    case NotJson => return Refused(Failed(Permanent), NO_TALLY);
    case NotArray => return Refused(Failed(Permanent), NO_TALLY);
    case Items(items) =>
      if items == [] { return Refused(Empty, NO_TALLY); }
      if !Named(items, expectCtxId) { return Refused(MissingNamedCtx, NO_TALLY); }
      o := Fold(items);
  }

  method Fold(items: seq<Item>) returns (o: Outcome)
    ensures o.Walked? <==> AllAvailable(items)
    ensures o.Walked? ==> o.members == VerifiedMembers(items) && o.tally == TallyOf(items)
    ensures Total(o.tally) <= |items|
    ensures !o.Walked? ==>
      var n := Stop(items, 0);
      n < |items| && o == Refused(Failed(Transient), TallyOf(items[..n + 1]))
  {
    hide VerifiedMembers, TallyOf, Tallied, Total;
    FoldStep(items, 0);
    NothingTallied();
    var members: seq<LineageMember>, tally := [], NO_TALLY;
    for k := 0 to |items|
      invariant members == VerifiedMembers(items[..k]) && tally == TallyOf(items[..k]) && Total(tally) <= k
      invariant Stop(items, 0) == Stop(items, k)
      invariant forall i :: 0 <= i < k && Evaluated(items[i]) ==> !items[i].verdict.Unavailable?
    {
      var m := items[k];
      FoldStep(items, k);
      if m.Member? && m.isRevocation && m.ctxId.Some? && m.ctxId.value != "" {
        TalliedTotal(tally, m.verdict);
        tally := Tallied(tally, m.verdict);
        match m.verdict
        case Unavailable => return Refused(Failed(Transient), tally);
        case Invalid =>
        case Unsupported =>
        case Verified(revocation) => members := members + [LineageMember(m.ctxId.value, revocation)];
      }
    }
    assert items[..|items|] == items;
    return Walked(members, tally);
  }

  lemma NothingTallied()
    ensures Total(NO_TALLY) == 0
  {
  }

  // ---- Junk ----

  /** Contributes nothing to the fold: unusable, not a revocation, without a ctx_id, invalid, or
      of an algorithm that cannot be checked here. */
  predicate Junk(i: Item) {
    Evaluated(i) ==> i.verdict.Invalid? || i.verdict.Unsupported?
  }

  /** What one item contributes: with `MembersJoin` this fixes the members of every list. */
  lemma MemberAlone(m: Item)
    ensures VerifiedMembers([]) == []
    ensures VerifiedMembers([m]) ==
      if m.Member? && m.isRevocation && m.ctxId.Some? && m.ctxId.value != "" && m.verdict.Verified?
      then [LineageMember(m.ctxId.value, m.verdict.revocation)] else []
  {
    assert [m][..0] == [];
  }

  lemma MembersSnoc(items: seq<Item>, m: Item)
    ensures VerifiedMembers(items + [m]) == VerifiedMembers(items) + VerifiedMembers([m])
  {
    MemberAlone(m);
    assert (items + [m])[..|items|] == items;
  }

  lemma {:induction false} MembersJoin(a: seq<Item>, b: seq<Item>)
    ensures VerifiedMembers(a + b) == VerifiedMembers(a) + VerifiedMembers(b)
    decreases |b|
  {
    hide VerifiedMembers;
    if b == [] {
      assert a + b == a;
      MemberAlone(Unusable);
    } else {
      var front, last := b[..|b| - 1], b[|b| - 1];
      MembersJoin(a, front);
      MembersSnoc(a + front, last);
      MembersSnoc(front, last);
      assert b == front + [last];
      assert a + b == a + front + [last];
    }
  }

  lemma JunkIsSilent(j: Item)
    requires Junk(j)
    ensures VerifiedMembers([j]) == []
  {
    assert [j][..0] == [];
  }

  /** The earliest compromise time among the members. */
  function Earliest(members: seq<LineageMember>): Option<int> {
    if members == [] then None
    else
      var rest, t := Earliest(members[1..]), members[0].revocation.compromisedSince;
      if rest.None? || t < rest.value then Some(t) else rest
  }

  ghost predicate IsLeast(time: Option<int>, members: seq<LineageMember>) {
    && (time.None? <==> members == [])
    && (time.Some? ==>
      && (exists i :: 0 <= i < |members| && members[i].revocation.compromisedSince == time.value)
      && (forall i :: 0 <= i < |members| ==> time.value <= members[i].revocation.compromisedSince))
  }

  /** Junk-proof: a registry that inserts junk anywhere into a lineage changes neither whether the
      members can be folded, nor the members, nor the earliest compromise time, which stays the
      least of the honest members' times. */
  lemma JunkProof(before: seq<Item>, j: Item, after: seq<Item>)
    requires Junk(j)
    ensures var clean, dirty := before + after, before + [j] + after;
            && AllAvailable(dirty) == AllAvailable(clean)
            && VerifiedMembers(dirty) == VerifiedMembers(clean)
            && Earliest(VerifiedMembers(dirty)) == Earliest(VerifiedMembers(clean))
            && IsLeast(Earliest(VerifiedMembers(dirty)), VerifiedMembers(clean))
  {
    hide VerifiedMembers, Earliest, IsLeast;
    EarliestIsLeast(VerifiedMembers(before + after));
    MembersJoin(before, after);
    MembersJoin(before + [j], after);
    MembersJoin(before, [j]);
    JunkIsSilent(j);
    Available(before, after);
    Available(before + [j], after);
    Available(before, [j]);
  }

  lemma Available(a: seq<Item>, b: seq<Item>)
    ensures AllAvailable(a + b) <==> AllAvailable(a) && AllAvailable(b)
    ensures |b| == 1 && Junk(b[0]) ==> AllAvailable(b)
  {
    if AllAvailable(a + b) {
      forall i | 0 <= i < |a| && Evaluated(a[i]) ensures !a[i].verdict.Unavailable? { assert (a + b)[i] == a[i]; }
      forall i | 0 <= i < |b| && Evaluated(b[i]) ensures !b[i].verdict.Unavailable? { assert (a + b)[|a| + i] == b[i]; }
    }
  }

  /** The earliest compromise time is a member's, and no member's is earlier. */
  lemma {:induction false} EarliestIsLeast(members: seq<LineageMember>)
    ensures IsLeast(Earliest(members), members)
  {
    if members != [] {
      EarliestIsLeast(members[1..]);
      var e := Earliest(members).value;
      if Earliest(members[1..]).Some? && e == Earliest(members[1..]).value {
        var i :| 0 <= i < |members[1..]| && members[1..][i].revocation.compromisedSince == e;
        assert members[i + 1].revocation.compromisedSince == e;
      } else {
        assert members[0].revocation.compromisedSince == e;
      }
      forall i | 0 <= i < |members| ensures e <= members[i].revocation.compromisedSince {
        if i > 0 { assert members[i] == members[1..][i - 1]; }
      }
    }
  }
}
