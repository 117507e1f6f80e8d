/** src/auth/in-memory-revocation.repository.ts: the deny-list of revoked tokens and its
    paged feed. */
module RevocationStore {
  import opened Bytes

  datatype Record = Record(iss: string, jti: string, sub: string, exp: int, revokedAt: int)

  datatype Page = Page(entries: seq<Record>, nextCursor: Option<int>)

  const MAX_PAGE := 500

  // ---- The store: the records of an insertion-ordered map keyed by (iss, jti) ----

  predicate Has(store: seq<Record>, iss: string, jti: string) {
    exists i :: 0 <= i < |store| && store[i].iss == iss && store[i].jti == jti
  }

  ghost predicate UniqueKeys(store: seq<Record>) {
    forall i, j :: 0 <= i < j < |store| ==> store[i].iss != store[j].iss || store[i].jti != store[j].jti
  }

  function Revoked(store: seq<Record>, r: Record): seq<Record> {
    if Has(store, r.iss, r.jti) then store else store + [r]
  }

  /** The records that have not expired at this second. */
  function Live(store: seq<Record>, now: int): (s: seq<Record>)
    ensures forall r :: r in s <==> r in store && r.exp >= now
  {
    if store == [] then []
    else (if store[0].exp >= now then [store[0]] else []) + Live(store[1..], now)
  }

  // ---- Order of the feed: by revocation time, then by jti ----

  predicate StringLeq(a: string, b: string) {
    a == "" || (b != "" && (a[0] < b[0] || (a[0] == b[0] && StringLeq(a[1..], b[1..]))))
  }

  lemma {:induction false} StringLeqTotal(a: string, b: string)
    ensures StringLeq(a, b) || StringLeq(b, a)
  {
    if a != "" && b != "" && a[0] == b[0] { StringLeqTotal(a[1..], b[1..]); }
  }

  lemma {:induction false} StringLeqTransitive(a: string, b: string, c: string)
    requires StringLeq(a, b) && StringLeq(b, c)
    ensures StringLeq(a, c)
  {
    if a != "" && a[0] == b[0] && b[0] == c[0] { StringLeqTransitive(a[1..], b[1..], c[1..]); }
  }

  predicate Leq(a: Record, b: Record) {
    a.revokedAt < b.revokedAt || (a.revokedAt == b.revokedAt && StringLeq(a.jti, b.jti))
  }

  lemma LeqTransitive(a: Record, b: Record, c: Record)
    requires Leq(a, b) && Leq(b, c)
    ensures Leq(a, c)
  {
    if a.revokedAt == b.revokedAt == c.revokedAt { StringLeqTransitive(a.jti, b.jti, c.jti); }
  }

  lemma LeqTotal(a: Record, b: Record)
    ensures Leq(a, b) || Leq(b, a)
  {
    StringLeqTotal(a.jti, b.jti);
  }

  ghost predicate Ordered(s: seq<Record>) {
    forall i, j :: 0 <= i < j < |s| ==> Leq(s[i], s[j])
  }

  function Insert(r: Record, s: seq<Record>): (t: seq<Record>)
    ensures |t| == |s| + 1 && multiset(t) == multiset(s) + multiset{r}
  {
    if s == [] || Leq(r, s[0]) then [r] + s
    else
      assert s == [s[0]] + s[1..];
      [s[0]] + Insert(r, s[1..])
  }

  /** A stable sort. */
  function Sort(s: seq<Record>): (t: seq<Record>)
    ensures |t| == |s| && multiset(t) == multiset(s)
  {
    if s == [] then []
    else
      assert s == [s[0]] + s[1..];
      Insert(s[0], Sort(s[1..]))
  }

  lemma {:induction false} InsertOrdered(r: Record, s: seq<Record>)
    requires Ordered(s)
    ensures Ordered(Insert(r, s))
  {
    var t := Insert(r, s);
    if s == [] {
    } else if Leq(r, s[0]) {
      forall i, j | 0 <= i < j < |t| ensures Leq(t[i], t[j]) {
        if i == 0 && j > 1 { LeqTransitive(r, s[0], s[j - 1]); }
      }
    } else {
      InsertOrdered(r, s[1..]);
      LeqTotal(r, s[0]);
      var rest := Insert(r, s[1..]);
      forall j | 0 <= j < |rest| ensures Leq(s[0], rest[j]) {
        assert rest[j] in multiset(rest);
        assert rest[j] == r || rest[j] in s[1..];
      }
      assert t == [s[0]] + rest;
    }
  }

  lemma {:induction false} SortOrdered(s: seq<Record>)
    ensures Ordered(Sort(s))
  {
    if s != [] {
      SortOrdered(s[1..]);
      InsertOrdered(s[0], Sort(s[1..]));
    }
  }

  /** The records revoked after the cursor, in order of insertion. */
  function After(s: seq<Record>, since: int): (t: seq<Record>)
    ensures |t| <= |s| && forall r :: r in t <==> r in s && r.revokedAt > since
  {
    if s == [] then [] else (if s[0].revokedAt > since then [s[0]] else []) + After(s[1..], since)
  }

  lemma AfterCons(r: Record, t: seq<Record>, since: int)
    ensures After([r] + t, since) == if r.revokedAt > since then [r] + After(t, since) else After(t, since)
  {
    assert ([r] + t)[1..] == t;
  }

  lemma InsertStep(r: Record, s: seq<Record>)
    ensures s == [] || Leq(r, s[0]) ==> Insert(r, s) == [r] + s
    ensures s != [] && !Leq(r, s[0]) ==> Insert(r, s) == [s[0]] + Insert(r, s[1..])
  {
  }

  lemma SortCons(r: Record, t: seq<Record>)
    ensures Sort([r] + t) == Insert(r, Sort(t))
  {
    assert ([r] + t)[1..] == t;
  }

  /** In an ordered sequence everything selected comes no earlier than the first element. */
  lemma SelectedFollow(r: Record, s: seq<Record>, since: int)
    requires Ordered(s) && s != [] && Leq(r, s[0])
    ensures var t := After(s, since); t == [] || Leq(r, t[0])
  {
    var t := After(s, since);
    if t != [] {
      assert t[0] in s;
      if t[0] != s[0] { LeqTransitive(r, s[0], t[0]); }
    }
  }

  lemma OrderedTail(s: seq<Record>)
    requires Ordered(s) && s != []
    ensures Ordered(s[1..])
  {
  }

  lemma {:induction false} AfterInsert(r: Record, s: seq<Record>, since: int)
    requires Ordered(s)
    ensures After(Insert(r, s), since) == if r.revokedAt > since then Insert(r, After(s, since)) else After(s, since)
    decreases |s|
  {
    hide *;
    InsertStep(r, s);
    InsertStep(r, After(s, since));
    if s == [] || Leq(r, s[0]) {
      AfterCons(r, s, since);
      if s != [] { SelectedFollow(r, s, since); } else { AfterNone(since); }
    } else {
      OrderedTail(s);
      AfterInsert(r, s[1..], since);
      AfterCons(s[0], Insert(r, s[1..]), since);
      AfterCons(s[0], s[1..], since);
      assert s == [s[0]] + s[1..];
      assert After(s[1..], since) == ([s[0]] + After(s[1..], since))[1..];
    }
  }

  lemma AfterNone(since: int)
    ensures After([], since) == [] && Sort([]) == []
  {
  }

  /** Selecting and sorting commute. */
  lemma {:induction false} AfterSort(s: seq<Record>, since: int)
    ensures After(Sort(s), since) == Sort(After(s, since))
    decreases |s|
  {
    hide *;
    if s == [] {
      AfterNone(since);
    } else {
      assert s == [s[0]] + s[1..];
      AfterSort(s[1..], since);
      SortOrdered(s[1..]);
      SortCons(s[0], s[1..]);
      AfterInsert(s[0], Sort(s[1..]), since);
      AfterCons(s[0], s[1..], since);
      SortCons(s[0], After(s[1..], since));
    }
  }

  lemma {:induction false} AfterAfter(s: seq<Record>, since: int, later: int)
    requires since <= later
    ensures After(After(s, since), later) == After(s, later)
    decreases |s|
  {
    hide *;
    if s == [] {
      AfterNone(since);
      AfterNone(later);
    } else {
      assert s == [s[0]] + s[1..];
      AfterAfter(s[1..], since, later);
      AfterCons(s[0], s[1..], since);
      AfterCons(s[0], s[1..], later);
      AfterCons(s[0], After(s[1..], since), later);
    }
  }

  lemma {:induction false} AfterAll(s: seq<Record>, since: int)
    requires forall r :: r in s ==> r.revokedAt > since
    ensures After(s, since) == s
  {
    if s != [] {
      AfterAll(s[1..], since);
      assert s == [s[0]] + s[1..];
    }
  }

  lemma {:induction false} AfterSplit(s: seq<Record>, e: nat, since: int)
    requires e <= |s|
    requires forall i :: 0 <= i < e ==> s[i].revokedAt <= since
    requires forall i :: e <= i < |s| ==> s[i].revokedAt > since
    ensures After(s, since) == s[e..]
  {
    if e == 0 {
      assert s[0..] == s;
      AfterAll(s, since);
    } else {
      AfterSplit(s[1..], e - 1, since);
      assert s[1..][e - 1..] == s[e..];
    }
  }

  // ---- One page ----

  function ToInt32(n: int): int {
    var low := n % 0x1_0000_0000;
    if low < 0x8000_0000 then low else low - 0x1_0000_0000
  }

  /** `Math.max(1, Math.min(limit | 0, 500))`. */
  function Cap(limit: int): (cap: nat)
    ensures 1 <= cap <= MAX_PAGE
  {
    var n := ToInt32(limit);
    if n < 1 then 1 else if n > MAX_PAGE then MAX_PAGE else n
  }

  /** The end of the group of records that share the time of s[e - 1]. */
  function GroupEnd(s: seq<Record>, e: nat): (g: nat)
    requires 1 <= e <= |s|
    ensures e <= g <= |s|
    decreases |s| - e
  {
    if e < |s| && s[e].revokedAt == s[e - 1].revokedAt then GroupEnd(s, e + 1) else e
  }

  function ListSince(store: seq<Record>, since: int, limit: int): Page {
    var sorted, cap := Sort(After(store, since)), Cap(limit);
    if |sorted| <= cap then Page(sorted, None)
    else
      var end := GroupEnd(sorted, cap);
      Page(sorted[..end], if end < |sorted| then Some(sorted[end - 1].revokedAt) else None)
  }

  lemma {:induction false} GroupEndCuts(s: seq<Record>, e: nat)
    requires 1 <= e <= |s| && Ordered(s)
    ensures var g := GroupEnd(s, e);
            && (forall i :: 0 <= i < g ==> s[i].revokedAt <= s[g - 1].revokedAt)
            && (forall i :: g <= i < |s| ==> s[i].revokedAt > s[g - 1].revokedAt)
    decreases |s| - e
  {
    if e < |s| && s[e].revokedAt == s[e - 1].revokedAt {
      GroupEndCuts(s, e + 1);
    } else {
      forall i | 0 <= i < e ensures s[i].revokedAt <= s[e - 1].revokedAt {
        assert i == e - 1 || Leq(s[i], s[e - 1]);
      }
      forall i | e <= i < |s| ensures s[i].revokedAt > s[e - 1].revokedAt {
        assert Leq(s[e - 1], s[e]) && (i == e || Leq(s[e], s[i]));
      }
    }
  }

  /** A page is exact: with a next cursor it holds precisely the records between the two
      cursors, in feed order, and more remain; without one it holds all that remain. The
      rest of the feed is what the next cursor selects. */
  lemma PageExact(store: seq<Record>, since: int, limit: int)
    ensures var Page(entries, next) := ListSince(store, since, limit);
            && Ordered(entries)
            && if next.None? then entries == Sort(After(store, since))
               else
                 && next.value > since && entries != []
                 && (forall r :: r in entries <==> r in store && since < r.revokedAt <= next.value)
                 && (exists r :: r in store && r.revokedAt > next.value)
                 && Sort(After(store, since)) == entries + Sort(After(store, next.value))
  {
    hide *;
    var sorted := Sort(After(store, since));
    var entries := ListSince(store, since, limit).entries;
    SortOrdered(After(store, since));
    PagePrefix(store, since, limit);
    OrderedPrefix(sorted, |entries|);
    if ListSince(store, since, limit).nextCursor.None? {
      assert sorted[..|sorted|] == sorted;
    } else {
      PageMembers(store, since, limit);
      PageRest(store, since, limit);
    }
  }

  lemma PageMembers(store: seq<Record>, since: int, limit: int)
    requires ListSince(store, since, limit).nextCursor.Some?
    ensures var page := ListSince(store, since, limit);
            var c := page.nextCursor.value;
            && c > since && page.entries != []
            && (forall r :: r in page.entries <==> r in store && since < r.revokedAt <= c)
            && (exists r :: r in store && r.revokedAt > c)
  {
    hide *;
    var sorted := Sort(After(store, since));
    SortOrdered(After(store, since));
    PagePrefix(store, since, limit);
    GroupEndCuts(sorted, Cap(limit));
    SameRecords(After(store, since));
    CutMembers(store, since, sorted, GroupEnd(sorted, Cap(limit)));
  }

  lemma PageRest(store: seq<Record>, since: int, limit: int)
    requires ListSince(store, since, limit).nextCursor.Some?
    ensures var page := ListSince(store, since, limit);
            Sort(After(store, since)) == page.entries + Sort(After(store, page.nextCursor.value))
  {
    hide *;
    var sel := After(store, since);
    var sorted := Sort(sel);
    SortOrdered(sel);
    PagePrefix(store, since, limit);
    var end, c := GroupEnd(sorted, Cap(limit)), ListSince(store, since, limit).nextCursor.value;
    GroupEndCuts(sorted, Cap(limit));
    PageMembers(store, since, limit);
    AfterSplit(sorted, end, c);
    AfterSort(sel, c);
    AfterAfter(store, since, c);
    assert sorted == sorted[..end] + sorted[end..];
  }

  lemma CutMembers(store: seq<Record>, since: int, sorted: seq<Record>, end: nat)
    requires 1 <= end < |sorted|
    requires forall r :: r in sorted <==> r in After(store, since)
    requires forall i :: 0 <= i < end ==> sorted[i].revokedAt <= sorted[end - 1].revokedAt
    requires forall i :: end <= i < |sorted| ==> sorted[i].revokedAt > sorted[end - 1].revokedAt
    ensures var c := sorted[end - 1].revokedAt;
            && c > since
            && (forall r :: r in sorted[..end] <==> r in store && since < r.revokedAt <= c)
            && (exists r :: r in store && r.revokedAt > c)
  {
    var c := sorted[end - 1].revokedAt;
    assert sorted[end] in sorted && sorted[end - 1] in sorted;
    forall r ensures r in sorted[..end] <==> r in store && since < r.revokedAt <= c {
      if r in sorted { var i :| 0 <= i < |sorted| && sorted[i] == r; }
    }
  }

  lemma SameRecords(s: seq<Record>)
    ensures forall r :: r in Sort(s) <==> r in s
  {
    forall r ensures r in Sort(s) <==> r in s {
      assert r in Sort(s) <==> r in multiset(Sort(s));
      assert r in s <==> r in multiset(s);
    }
  }

  lemma OrderedPrefix(s: seq<Record>, e: nat)
    requires Ordered(s) && e <= |s|
    ensures Ordered(s[..e])
  {
  }

  lemma PagePrefix(store: seq<Record>, since: int, limit: int)
    ensures var p, sorted := ListSince(store, since, limit), Sort(After(store, since));
            && |p.entries| <= |sorted| && p.entries == sorted[..|p.entries|]
            && (p.nextCursor.None? <==> |p.entries| == |sorted|)
            && (p.nextCursor.Some? ==>
                 && |sorted| > Cap(limit) && |p.entries| == GroupEnd(sorted, Cap(limit))
                 && p.nextCursor.value == sorted[|p.entries| - 1].revokedAt)
  {
    hide Sort, After;
    var sorted := Sort(After(store, since));
    assert sorted[..|sorted|] == sorted;
  }

  /** `limit | 0` is the number congruent to the limit within 32 bits, clamped to 1..500. */
  lemma CapExact(limit: int, n: int)
    requires -0x8000_0000 <= n < 0x8000_0000 && (limit - n) % 0x1_0000_0000 == 0
    ensures Cap(limit) == if n < 1 then 1 else if n > 500 then 500 else n
  {
    var k := (limit - n) / 0x1_0000_0000;
    assert limit == n + k * 0x1_0000_0000;
    assert limit % 0x1_0000_0000 == n % 0x1_0000_0000;
  }

  lemma {:induction false} GroupEndShares(s: seq<Record>, e: nat)
    requires 1 <= e <= |s|
    ensures forall i :: e - 1 <= i < GroupEnd(s, e) ==> s[i].revokedAt == s[e - 1].revokedAt
    decreases |s| - e
  {
    if e < |s| && s[e].revokedAt == s[e - 1].revokedAt { GroupEndShares(s, e + 1); }
  }

  /** How much a page holds: as many records as the limit allows, if so many remain, and beyond
      them only those that share the time of the last. */
  lemma PageSize(store: seq<Record>, since: int, limit: int)
    ensures var cap, entries, left := Cap(limit), ListSince(store, since, limit).entries, |After(store, since)|;
            && |entries| >= (if left < cap then left else cap)
            && forall i :: cap <= i < |entries| ==> entries[i].revokedAt == entries[cap - 1].revokedAt
  {
    hide Sort, After, GroupEnd, Cap;
    SortLength(store, since);
    var sorted := Sort(After(store, since));
    if |sorted| > Cap(limit) { GroupEndShares(sorted, Cap(limit)); }
  }

  // ---- The whole feed ----

  lemma RemainingShrinks(store: seq<Record>, since: int, limit: int)
    ensures var p := ListSince(store, since, limit);
            p.nextCursor.Some? ==> |After(store, p.nextCursor.value)| < |After(store, since)|
  {
    hide *;
    PageExact(store, since, limit);
    SortLength(store, since);
    var p := ListSince(store, since, limit);
    if p.nextCursor.Some? { SortLength(store, p.nextCursor.value); }
  }

  lemma SortLength(store: seq<Record>, since: int)
    ensures |Sort(After(store, since))| == |After(store, since)|
  {
  }

  /** Every record that following the cursors from `since` to the null cursor yields. */
  function FollowCursors(store: seq<Record>, since: int, limit: int): seq<Record>
    decreases |After(store, since)|
  {
    var p := ListSince(store, since, limit);
    RemainingShrinks(store, since, limit);
    match p.nextCursor
    case None => p.entries
    case Some(c) => p.entries + FollowCursors(store, c, limit)
  }

  /** Paging is an exact partition for every limit: the pages, joined, are the whole feed
      once, in order. */
  lemma {:induction false} PagesPartitionFeed(store: seq<Record>, since: int, limit: int)
    ensures FollowCursors(store, since, limit) == Sort(After(store, since))
    decreases |After(store, since)|
  {
    hide Sort, After, ListSince;
    PageExact(store, since, limit);
    RemainingShrinks(store, since, limit);
    var p := ListSince(store, since, limit);
    if p.nextCursor.Some? { PagesPartitionFeed(store, p.nextCursor.value, limit); }
  }
}
