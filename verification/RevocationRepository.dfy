/** The in-memory repository as the object its callers share: each method against the
    functions of RevocationStore. Times in milliseconds, expiry in seconds. */
module RevocationRepository {
  import opened Bytes
  import opened RevocationStore

  /** What `isRevoked` answers. */
  predicate Denies(store: seq<Record>, iss: string, jti: string, now: int) {
    exists i :: 0 <= i < |store| && store[i].iss == iss && store[i].jti == jti && store[i].exp >= now
  }

  /** Eviction is invisible: it never changes an answer, now or later. */
  lemma EvictionInvisible(store: seq<Record>, iss: string, jti: string, now: int, later: int)
    requires now <= later
    ensures Denies(Live(store, now), iss, jti, later) <==> Denies(store, iss, jti, later)
  {
    var live := Live(store, now);
    if Denies(store, iss, jti, later) {
      var i :| 0 <= i < |store| && store[i].iss == iss && store[i].jti == jti && store[i].exp >= later;
      assert store[i] in live;
      var j :| 0 <= j < |live| && live[j] == store[i];
    }
    if Denies(live, iss, jti, later) {
      var i :| 0 <= i < |live| && live[i].iss == iss && live[i].jti == jti && live[i].exp >= later;
      assert live[i] in store;
      var j :| 0 <= j < |store| && store[j] == live[i];
    }
  }

  class InMemoryRevocationRepository {
    var store: seq<Record>

    constructor ()
      ensures store == [] && UniqueKeys(store)
    {
      store := [];
    }

    /** The index of the record of (iss, jti), or |store|. */
    method Lookup(iss: string, jti: string) returns (k: nat)
      ensures k <= |store|
      ensures k < |store| ==> store[k].iss == iss && store[k].jti == jti
      ensures k == |store| <==> !Has(store, iss, jti)
    {
      k := 0;
      while k < |store|
        invariant k <= |store|
        invariant forall i :: 0 <= i < k ==> store[i].iss != iss || store[i].jti != jti
      {
        if store[k].iss == iss && store[k].jti == jti { return; }
        k := k + 1;
      }
    }

    method Revoke(iss: string, jti: string, sub: string, exp: int, revokedAt: Option<int>, now: int)
      returns (added: bool)
      requires UniqueKeys(store)
      modifies this
      ensures UniqueKeys(store)
      ensures added <==> forall r :: r in old(store) ==> r.iss != iss || r.jti != jti
      ensures store == old(store)
                + if added then [Record(iss, jti, sub, exp, if revokedAt.Some? then revokedAt.value else now)] else []
      ensures store == Revoked(old(store), Record(iss, jti, sub, exp, if revokedAt.Some? then revokedAt.value else now))
    {
      var k := Lookup(iss, jti);
      if k < |store| { return false; }
      store := store + [Record(iss, jti, sub, exp, if revokedAt.Some? then revokedAt.value else now)];
      return true;
    }

    /** Answers from the record, dropping it when it has expired. */
    method IsRevoked(iss: string, jti: string, now: int) returns (revoked: bool)
      requires UniqueKeys(store)
      modifies this
      ensures UniqueKeys(store)
      ensures revoked <==> exists r :: r in old(store) && r.iss == iss && r.jti == jti && r.exp >= now
      ensures revoked <==> Denies(old(store), iss, jti, now)
      ensures forall r :: r in store <==> r in old(store) && !(r.iss == iss && r.jti == jti && r.exp < now)
    {
      var k := Lookup(iss, jti);
      if k == |store| { return false; }
      if store[k].exp < now {
        ghost var before := store;
        store := store[..k] + store[k + 1..];
        forall r ensures r in store <==> r in before && r != before[k] {
          if r in before && r != before[k] {
            var i :| 0 <= i < |before| && before[i] == r;
            assert i < k ==> store[i] == r;
            assert i > k ==> store[i - 1] == r;
          }
        }
        return false;
      }
      return true;
    }

    method EvictExpired(now: int) returns (evicted: nat)
      requires UniqueKeys(store)
      modifies this
      ensures UniqueKeys(store) && store == Live(old(store), now)
      ensures evicted == |old(store)| - |store|
    {
      hide Live, UniqueKeys;
      var kept: seq<Record> := [];
      evicted := 0;
      LiveStep(store, 0, now);
      for k := 0 to |store|
        invariant store == old(store) && kept == Live(store[..k], now)
        invariant evicted == k - |kept|
      {
        LiveStep(store, k, now);
        if store[k].exp < now {
          evicted := evicted + 1;
        } else {
          kept := kept + [store[k]];
        }
      }
      LiveUnique(store, now);
      assert store[..|store|] == store;
      store := kept;
    }

    /** One page of the feed: the first records after the cursor, and the whole group of
        records that share the millisecond of the last one. */
    method ListSince(sinceMs: int, limit: int) returns (entries: seq<Record>, nextCursor: Option<int>)
      ensures Page(entries, nextCursor) == RevocationStore.ListSince(store, sinceMs, limit)
    {
      hide Sort, After, GroupEnd;
      var cap := Cap(limit);
      var sorted := Sort(After(store, sinceMs));
      entries := if |sorted| < cap then sorted else sorted[..cap];
      if |entries| == cap && |sorted| > cap {
        var boundaryMs := entries[|entries| - 1].revokedAt;
        var i := cap;
        while i < |sorted| && sorted[i].revokedAt == boundaryMs
          invariant cap <= i <= |sorted| && entries == sorted[..i]
          invariant sorted[i - 1].revokedAt == boundaryMs
          invariant GroupEnd(sorted, i) == GroupEnd(sorted, cap)
        {
          GroupEndStep(sorted, i);
          entries := entries + [sorted[i]];
          i := i + 1;
        }
        GroupEndStep(sorted, i);
      }
      assert sorted[..|sorted|] == sorted;
      nextCursor := if |entries| < |sorted| then Some(entries[|entries| - 1].revokedAt) else None;
    }
  }

  lemma GroupEndStep(s: seq<Record>, e: nat)
    requires 1 <= e <= |s|
    ensures GroupEnd(s, e) == if e < |s| && s[e].revokedAt == s[e - 1].revokedAt then GroupEnd(s, e + 1) else e
  {
  }

  lemma LiveCons(r: Record, rest: seq<Record>, now: int)
    ensures Live([r] + rest, now) == (if r.exp >= now then [r] else []) + Live(rest, now)
  {
    assert ([r] + rest)[1..] == rest;
  }

  lemma {:induction false} LiveSnoc(s: seq<Record>, r: Record, now: int)
    ensures Live(s + [r], now) == Live(s, now) + (if r.exp >= now then [r] else [])
    decreases |s|
  {
    hide Live;
    LiveNone(now);
    LiveCons(r, [], now);
    assert [r] + [] == [r];
    if s == [] {
      assert s + [r] == [r];
    } else {
      LiveSnoc(s[1..], r, now);
      LiveCons(s[0], s[1..], now);
      LiveCons(s[0], s[1..] + [r], now);
      assert s == [s[0]] + s[1..];
      assert s + [r] == [s[0]] + (s[1..] + [r]);
    }
  }

  lemma LiveStep(s: seq<Record>, k: nat, now: int)
    requires k <= |s|
    ensures Live(s[..0], now) == []
    ensures k < |s| ==> Live(s[..k + 1], now) == Live(s[..k], now) + (if s[k].exp >= now then [s[k]] else [])
  {
    hide Live;
    LiveNone(now);
    if k < |s| {
      LiveSnoc(s[..k], s[k], now);
      assert s[..k + 1] == s[..k] + [s[k]];
    }
  }

  lemma LiveNone(now: int)
    ensures Live([], now) == []
  {
  }

  lemma {:induction false} LiveUnique(s: seq<Record>, now: int)
    requires UniqueKeys(s)
    ensures UniqueKeys(Live(s, now))
  {
    if s != [] {
      LiveUnique(s[1..], now);
      var rest := Live(s[1..], now);
      forall j | 0 <= j < |rest| ensures rest[j].iss != s[0].iss || rest[j].jti != s[0].jti {
        assert rest[j] in s[1..];
      }
    }
  }
}
