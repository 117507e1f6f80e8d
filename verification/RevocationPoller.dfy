/** src/auth/revocation-poller.service.ts: applying one page of a peer's feed, and one
    poll. */
module RevocationPoller {
  import opened Bytes
  import opened RevocationStore

  const FEED_LIMIT := 200

  /** An entry without an issuer belongs to the feed's issuer. */
  function Effective(issuer: string, iss: string): string {
    if iss == "" then issuer else iss
  }

  /** Neither attributed to another issuer nor dead-lettered for its expiry. */
  predicate Applies(issuer: string, e: Record) {
    Effective(issuer, e.iss) == issuer && e.exp > 0
  }

  /** The local store after one entry whose write succeeds. */
  function ApplyEntry(store: seq<Record>, issuer: string, e: Record, now: int): seq<Record> {
    if Applies(issuer, e) then Revoked(store, Record(issuer, e.jti, e.sub, e.exp, now)) else store
  }

  function ApplyAll(store: seq<Record>, issuer: string, entries: seq<Record>, writes: seq<bool>, now: int)
    : seq<Record>
    requires |writes| == |entries|
    decreases |entries|
  {
    var n := |entries| - 1;
    if n < 0 then store
    else
      var s := ApplyAll(store, issuer, entries[..n], writes[..n], now);
      if writes[n] then ApplyEntry(s, issuer, entries[n], now) else s
  }

  /** What one page does to the store, exactly: it removes nothing; every record it adds comes
      from a written entry without an issuer or with the feed's own, and with an expiry, and is
      filed under the feed's issuer with the entry's jti, subject and expiry, dated now; and
      every such entry is denied afterwards. */
  lemma {:induction false} FeedConfined(
      store: seq<Record>, issuer: string, entries: seq<Record>, writes: seq<bool>, now: int)
    requires |writes| == |entries|
    ensures store <= ApplyAll(store, issuer, entries, writes, now)
    ensures forall r :: r in ApplyAll(store, issuer, entries, writes, now) ==>
      r in store || AddedBy(issuer, entries, writes, now, r)
    ensures forall i :: 0 <= i < |entries| && writes[i] && (entries[i].iss == "" || entries[i].iss == issuer)
                        && entries[i].exp > 0 ==>
      Has(ApplyAll(store, issuer, entries, writes, now), issuer, entries[i].jti)
    decreases |entries|
  {
    hide Has;
    var n := |entries| - 1;
    if n >= 0 {
      var before := ApplyAll(store, issuer, entries[..n], writes[..n], now);
      var after := ApplyAll(store, issuer, entries, writes, now);
      FeedConfined(store, issuer, entries[..n], writes[..n], now);
      HasMore(before, Record(issuer, entries[n].jti, entries[n].sub, entries[n].exp, now));
      forall r | r in after && r !in store ensures AddedBy(issuer, entries, writes, now, r) {
        if r in before {
          var i :| 0 <= i < n && AddsAt(issuer, entries[..n], writes[..n], now, r, i);
          assert AddsAt(issuer, entries, writes, now, r, i);
        } else {
          assert AddsAt(issuer, entries, writes, now, r, n);
        }
      }
      forall i | 0 <= i < |entries| && writes[i] && (entries[i].iss == "" || entries[i].iss == issuer)
                 && entries[i].exp > 0
        ensures Has(after, issuer, entries[i].jti)
      {
        if i < n { assert entries[..n][i] == entries[i] && writes[..n][i] == writes[i]; }
      }
    }
  }

  predicate AddsAt(issuer: string, entries: seq<Record>, writes: seq<bool>, now: int, r: Record, i: nat)
    requires |writes| == |entries| && i < |entries|
  {
    && writes[i] && (entries[i].iss == "" || entries[i].iss == issuer) && entries[i].exp > 0
    && r == Record(issuer, entries[i].jti, entries[i].sub, entries[i].exp, now)
  }

  ghost predicate AddedBy(issuer: string, entries: seq<Record>, writes: seq<bool>, now: int, r: Record)
    requires |writes| == |entries|
  {
    exists i :: 0 <= i < |entries| && AddsAt(issuer, entries, writes, now, r, i)
  }

  lemma HasMore(store: seq<Record>, r: Record)
    ensures store <= Revoked(store, r) && Has(Revoked(store, r), r.iss, r.jti)
    ensures forall iss, jti :: Has(store, iss, jti) ==> Has(Revoked(store, r), iss, jti)
  {
    var t := Revoked(store, r);
    if !Has(store, r.iss, r.jti) { assert t[|store|] == r; }
    forall iss, jti | Has(store, iss, jti) ensures Has(t, iss, jti) {
      var i :| 0 <= i < |store| && store[i].iss == iss && store[i].jti == jti;
      assert t[i] == store[i];
    }
  }

  /** `normalizeFeedResponse` skips entries without a jti. */
  function Normalized(entries: seq<Record>): (s: seq<Record>)
    ensures forall r :: r in s <==> r in entries && r.jti != ""
  {
    if entries == [] then []
    else (if entries[0].jti != "" then [entries[0]] else []) + Normalized(entries[1..])
  }

  lemma NormalizedOne(e: Record)
    ensures Normalized([]) == [] && Normalized([e]) == if e.jti != "" then [e] else []
  {
    assert [e][1..] == [];
  }

  lemma NormalizedCons(e: Record, rest: seq<Record>)
    ensures Normalized([e] + rest) == Normalized([e]) + Normalized(rest)
  {
    NormalizedOne(e);
    assert ([e] + rest)[1..] == rest;
  }

  lemma Reassociate(a: seq<Record>, b: seq<Record>, c: seq<Record>)
    ensures (a + b) + c == a + (b + c)
  {
  }

  /** It keeps the order: it is the same on every part, and on one entry it is the test alone. */
  lemma {:induction false} NormalizedParts(a: seq<Record>, b: seq<Record>)
    ensures Normalized(a + b) == Normalized(a) + Normalized(b)
    decreases |a|
  {
    hide Normalized;
    if a == [] {
      assert a + b == b;
      NormalizedOne(Record("", "", "", 0, 0));
    } else {
      var e, rest := a[0], a[1..];
      NormalizedParts(rest, b);
      assert a == [e] + rest;
      Reassociate([e], rest, b);
      NormalizedCons(e, rest + b);
      NormalizedCons(e, rest);
      Reassociate(Normalized([e]), Normalized(rest), Normalized(b));
    }
  }

  datatype PollResult = PollResult(fetched: nat, applied: nat, dropped: nat, allSucceeded: bool, cursor: int)

  /** The places of the entries that are written, and of those that are dropped. */
  function AppliedAt(issuer: string, entries: seq<Record>, writes: seq<bool>): set<nat>
    requires |writes| == |entries|
  {
    set i: nat | i < |entries| && Applies(issuer, entries[i]) && writes[i]
  }

  function DroppedAt(issuer: string, entries: seq<Record>): set<nat> {
    set i: nat | i < |entries| && !Applies(issuer, entries[i])
  }

  lemma NoneYet(issuer: string)
    ensures AppliedAt(issuer, [], []) == {} && DroppedAt(issuer, []) == {}
  {
  }

  lemma OneMoreDropped(issuer: string, entries: seq<Record>, k: nat)
    requires k < |entries|
    ensures |DroppedAt(issuer, entries[..k + 1])| ==
            |DroppedAt(issuer, entries[..k])| + if Applies(issuer, entries[k]) then 0 else 1
  {
    hide Applies;
    assert DroppedAt(issuer, entries[..k + 1]) ==
           DroppedAt(issuer, entries[..k]) + if Applies(issuer, entries[k]) then {} else {k};
  }

  lemma OneMoreApplied(issuer: string, entries: seq<Record>, writes: seq<bool>, k: nat)
    requires |writes| == |entries| && k < |entries|
    ensures |AppliedAt(issuer, entries[..k + 1], writes[..k + 1])| ==
            |AppliedAt(issuer, entries[..k], writes[..k])| + if Applies(issuer, entries[k]) && writes[k] then 1 else 0
  {
    hide Applies;
    assert AppliedAt(issuer, entries[..k + 1], writes[..k + 1]) ==
           AppliedAt(issuer, entries[..k], writes[..k]) + if Applies(issuer, entries[k]) && writes[k] then {k} else {};
  }

  predicate AllWritten(issuer: string, entries: seq<Record>, writes: seq<bool>)
    requires |writes| == |entries|
  {
    forall i :: 0 <= i < |entries| && Applies(issuer, entries[i]) ==> writes[i]
  }

  /** The poller and the local stores it writes: the deny-list and the durable cursors.
      `writes` and `persists` say which of its writes succeed. */
  class Poller {
    var store: seq<Record>
    var cursors: map<string, int>
    var persisted: map<string, int>

    constructor ()
      ensures store == [] && cursors == map[] && persisted == map[]
    {
      store, cursors, persisted := [], map[], map[];
    }

    method ApplyEntries(issuer: string, entries: seq<Record>, writes: seq<bool>, now: int)
      returns (applied: nat, dropped: nat, allSucceeded: bool)
      requires |writes| == |entries|
      modifies this`store
      ensures store == ApplyAll(old(store), issuer, entries, writes, now)
      ensures applied == |AppliedAt(issuer, entries, writes)| && dropped == |DroppedAt(issuer, entries)|
      ensures allSucceeded <==> AllWritten(issuer, entries, writes)
      ensures allSucceeded <==>
        forall i :: 0 <= i < |entries| && (entries[i].iss == "" || entries[i].iss == issuer) && entries[i].exp > 0
                    ==> writes[i]
      ensures allSucceeded <==> applied + dropped == |entries|
    {
      hide AppliedAt, DroppedAt;
      applied, dropped, allSucceeded := 0, 0, true;
      NoneYet(issuer);
      for k := 0 to |entries|
        invariant store == ApplyAll(old(store), issuer, entries[..k], writes[..k], now)
        invariant applied == |AppliedAt(issuer, entries[..k], writes[..k])|
        invariant dropped == |DroppedAt(issuer, entries[..k])| && applied + dropped <= k
        invariant allSucceeded <==> forall i :: 0 <= i < k && Applies(issuer, entries[i]) ==> writes[i]
        invariant allSucceeded <==> applied + dropped == k
      {
        var e := entries[k];
        OneMoreApplied(issuer, entries, writes, k);
        OneMoreDropped(issuer, entries, k);
        assert entries[..k + 1][..k] == entries[..k] && writes[..k + 1][..k] == writes[..k];
        if e.iss != "" && e.iss != issuer {
          dropped := dropped + 1;
        } else if e.exp <= 0 {
          dropped := dropped + 1;
        } else if writes[k] {
          store := Revoked(store, Record(issuer, e.jti, e.sub, e.exp, now));
          applied := applied + 1;
        } else {
          allSucceeded := false;
        }
      }
      assert entries[..|entries|] == entries && writes[..|writes|] == writes;
    }

    /** One poll; `fetched` is None when the page cannot be had. The cursor moves only when
        the whole page was written and the feed names a next cursor. */
    method PollFeed(issuer: string, fetched: Option<Page>, writes: seq<bool>, persists: bool, now: int)
      returns (r: PollResult)
      requires fetched.Some? ==> |writes| == |fetched.value.entries|
      modifies this
      ensures fetched.None? ==> store == old(store) && cursors == old(cursors) && persisted == old(persisted)
      ensures fetched.Some? ==>
        var Page(entries, next) := fetched.value;
        var moves := AllWritten(issuer, entries, writes) && next.Some?;
        && store == ApplyAll(old(store), issuer, entries, writes, now)
        && cursors == (if moves then old(cursors)[issuer := next.value] else old(cursors))
        && persisted == (if moves && persists then old(persisted)[issuer := next.value] else old(persisted))
      ensures r.cursor == if issuer in cursors then cursors[issuer] else 0
      ensures r.fetched == if fetched.Some? then |fetched.value.entries| else 0
      ensures r.applied == if fetched.Some? then |AppliedAt(issuer, fetched.value.entries, writes)| else 0
      ensures r.dropped == if fetched.Some? then |DroppedAt(issuer, fetched.value.entries)| else 0
      ensures r.allSucceeded <==> fetched.Some? && AllWritten(issuer, fetched.value.entries, writes)
    {
      var cursor := if issuer in cursors then cursors[issuer] else 0;
      if fetched.None? { return PollResult(0, 0, 0, false, cursor); }
      var page := fetched.value;
      var applied, dropped, allSucceeded := ApplyEntries(issuer, page.entries, writes, now);
      var newCursor := cursor;
      if allSucceeded && page.nextCursor.Some? {
        newCursor := page.nextCursor.value;
        cursors := cursors[issuer := newCursor];
        if persists { persisted := persisted[issuer := newCursor]; }
      }
      return PollResult(|page.entries|, applied, dropped, allSucceeded, newCursor);
    }
  }
}
