/** The feed as a protocol: an issuer's server that revokes, expires and answers polls, and
    a client whose polls may overlap, fail and be cut short by a restart. Every event of
    either side is one step; a run is any interleaving of them. */
module RevocationFeed {
  import opened Bytes
  import opened RevocationStore
  import opened RevocationPoller

  /** A poll in flight: asked for with a cursor, or answered and being applied entry by entry.
      `known` is the history of revocations at the moment of the answer. */
  datatype Poll =
    | Requested(since: int)
    | Applying(since: int, entries: seq<Record>, next: Option<int>, done: nat, allOk: bool, known: set<Record>)

  /** `issued` is the history of all revocations the server has stored. */
  datatype Net = Net(
    server: seq<Record>, serverNow: int, issued: set<Record>,
    client: seq<Record>, clientNow: int, cursor: int, persisted: Option<int>, polls: map<nat, Poll>)

  /** Times are milliseconds. `Drop` is the removal of one record that has expired, lazily or
      as one step of an eviction sweep. `ClientRevoke` is any other writer of the client's
      store. A restart that is not durable loses the store together with the cursor. */
  datatype NetEvent =
    | ServerTick(now: int)
    | ServerRevoke(iss: string, jti: string, sub: string)
    | ServerDrop(index: nat)
    | ClientTick(now: int)
    | ClientRevoke(iss: string, jti: string, sub: string)
    | ClientDrop(index: nat)
    | Start(id: nat)
    | Respond(id: nat)
    | FetchFails(id: nat)
    | Apply(id: nat, writes: bool)
    | Finish(id: nat, persists: bool)
    | Restart(durable: bool)

  /** The feed polled, and the expiry of every token: fixed per issuer and jti. */
  datatype World = World(issuer: string, expOf: (string, string) -> int)

  function Without(s: seq<Record>, i: nat, now: int): seq<Record> {
    if i < |s| && s[i].exp < now / 1000 then s[..i] + s[i + 1..] else s
  }

  function ServerStep(w: World, n: Net, e: NetEvent): Net {
    match e
    case ServerTick(now) => if now >= n.serverNow then n.(serverNow := now) else n
    case ServerRevoke(iss, jti, sub) =>
      var r := Record(iss, jti, sub, w.expOf(Effective(w.issuer, iss), jti), n.serverNow);
      if Has(n.server, iss, jti) then n else n.(server := n.server + [r], issued := n.issued + {r})
    case ServerDrop(i) => n.(server := Without(n.server, i, n.serverNow))
    case _ => n
  }

  function ClientStep(w: World, n: Net, e: NetEvent): Net {
    match e
    case ClientTick(now) => if now >= n.clientNow then n.(clientNow := now) else n
    case ClientRevoke(iss, jti, sub) =>
      n.(client := Revoked(n.client, Record(iss, jti, sub, w.expOf(iss, jti), n.clientNow)))
    case ClientDrop(i) => n.(client := Without(n.client, i, n.clientNow))
    case Restart(durable) =>
      if durable then n.(cursor := if n.persisted.Some? then n.persisted.value else 0, polls := map[])
      else n.(client := [], cursor := 0, persisted := None, polls := map[])
    case _ => n
  }

  function PollStep(w: World, n: Net, e: NetEvent): Net {
    match e
    case Start(id) => if id in n.polls then n else n.(polls := n.polls[id := Requested(n.cursor)])
    case FetchFails(id) => n.(polls := n.polls - {id})
    case Respond(id) =>
      if id in n.polls && n.polls[id].Requested? then
        var since := n.polls[id].since;
        var page := ListSince(n.server, since, FEED_LIMIT);
        n.(polls := n.polls[id := Applying(since, Normalized(page.entries), page.nextCursor, 0, true, n.issued)])
      else n
    case Apply(id, writes) =>
      if id in n.polls && n.polls[id].Applying? && n.polls[id].done < |n.polls[id].entries| then
        var p := n.polls[id];
        var entry := p.entries[p.done];
        var ok := writes || !Applies(w.issuer, entry);
        n.(client := if writes then ApplyEntry(n.client, w.issuer, entry, n.clientNow) else n.client,
           polls := n.polls[id := p.(done := p.done + 1, allOk := p.allOk && ok)])
      else n
    case Finish(id, persists) =>
      if id in n.polls && n.polls[id].Applying? && n.polls[id].done >= |n.polls[id].entries| then
        var p := n.polls[id];
        var rest := n.polls - {id};
        if p.allOk && p.next.Some? then
          n.(cursor := p.next.value, persisted := if persists then p.next else n.persisted, polls := rest)
        else n.(polls := rest)
      else n
    case _ => n
  }

  function Next(w: World, n: Net, e: NetEvent): Net {
    if e.ServerTick? || e.ServerRevoke? || e.ServerDrop? then ServerStep(w, n, e)
    else if e.ClientTick? || e.ClientRevoke? || e.ClientDrop? || e.Restart? then ClientStep(w, n, e)
    else PollStep(w, n, e)
  }

  function RunNet(w: World, n: Net, events: seq<NetEvent>): Net
    decreases |events|
  {
    if events == [] then n else Next(w, RunNet(w, n, events[..|events| - 1]), events[|events| - 1])
  }

  function Fresh(serverNow: int, clientNow: int): Net {
    Net([], serverNow, {}, [], clientNow, 0, None, map[])
  }

  // ---- What must never be lost ----

  /** A well-formed revocation of the polled issuer. */
  predicate Own(w: World, r: Record) {
    Effective(w.issuer, r.iss) == w.issuer && r.jti != "" && r.exp > 0
  }

  predicate Expired(n: Net, r: Record) {
    r.exp < n.serverNow / 1000 || r.exp < n.clientNow / 1000
  }

  /** The client denies the token, or it has expired and is refused anyway. */
  predicate Safe(w: World, n: Net, r: Record) {
    Has(n.client, w.issuer, r.jti) || Expired(n, r)
  }

  ghost predicate Covered(w: World, n: Net, c: int) {
    forall r :: r in n.issued && Own(w, r) && r.revokedAt <= c ==> Safe(w, n, r)
  }

  /** No revocation still to come can fall at or below the cursor. */
  predicate Settled(n: Net, c: int) {
    c == 0 || c < n.serverNow
  }

  ghost predicate Good(w: World, n: Net, c: int) {
    Settled(n, c) && Covered(w, n, c)
  }

  ghost predicate Complete(w: World, n: Net, p: Poll)
    requires p.Applying?
  {
    forall r :: r in p.known && Own(w, r) && r.revokedAt > p.since && (p.next.Some? ==> r.revokedAt <= p.next.value)
      ==> r in p.entries || Expired(n, r)
  }

  ghost predicate GoodPoll(w: World, n: Net, p: Poll) {
    && Good(w, n, p.since)
    && (p.Applying? ==>
      && p.known <= n.issued
      && (forall r :: r in p.entries ==> r in p.known)
      && p.done <= |p.entries|
      && Complete(w, n, p)
      && (p.next.Some? ==> Settled(n, p.next.value) && p.next.value > p.since
                           && forall r :: r in n.issued - p.known ==> r.revokedAt > p.next.value)
      && (p.allOk ==> forall i :: 0 <= i < p.done && Own(w, p.entries[i]) ==> Safe(w, n, p.entries[i])))
  }

  ghost predicate StoresOk(w: World, n: Net) {
    && n.serverNow >= 1
    && (forall r :: r in n.issued ==>
         1 <= r.revokedAt <= n.serverNow && r.exp == w.expOf(Effective(w.issuer, r.iss), r.jti))
    && (forall r :: r in n.server ==> r in n.issued)
    && (forall r :: r in n.issued ==> r in n.server || r.exp < n.serverNow / 1000)
    && (forall r :: r in n.client ==> r.exp == w.expOf(r.iss, r.jti))
  }

  ghost predicate Inv(w: World, n: Net) {
    && StoresOk(w, n)
    && Good(w, n, n.cursor)
    && (n.persisted.Some? ==> Good(w, n, n.persisted.value))
    && (forall id :: id in n.polls ==> GoodPoll(w, n, n.polls[id]))
  }

  // ---- Steps that keep what is safe ----

  /** Clocks only advance, new revocations are dated now, and safe records stay safe. */
  ghost predicate Later(w: World, n: Net, n': Net) {
    && n.serverNow <= n'.serverNow && n.clientNow <= n'.clientNow
    && n.issued <= n'.issued
    && (forall r :: r in n'.issued - n.issued ==> r.revokedAt >= n.serverNow && r.revokedAt >= 1)
    && (forall r :: r in n.issued && Own(w, r) && Safe(w, n, r) ==> Safe(w, n', r))
  }

  lemma GoodLater(w: World, n: Net, n': Net, c: int)
    requires Later(w, n, n') && Good(w, n, c)
    ensures Good(w, n', c)
  {
    hide Own, Safe, Effective;
  }

  lemma GoodPollLater(w: World, n: Net, n': Net, p: Poll)
    requires Later(w, n, n') && GoodPoll(w, n, p)
    ensures GoodPoll(w, n', p)
  {
    hide Own, Safe, Effective, Good, Complete;
    GoodLater(w, n, n', p.since);
    if p.Applying? {
      CompleteLater(w, n, n', p);
    }
  }

  lemma CompleteLater(w: World, n: Net, n': Net, p: Poll)
    requires Later(w, n, n') && p.Applying? && Complete(w, n, p)
    ensures Complete(w, n', p)
  {
    hide Own, Safe;
  }

  /** A step that touches neither cursors nor polls keeps the invariant if it keeps Later. */
  lemma InvLater(w: World, n: Net, n': Net)
    requires Inv(w, n) && Later(w, n, n') && StoresOk(w, n')
    requires n'.cursor == n.cursor && n'.persisted == n.persisted && n'.polls == n.polls
    ensures Inv(w, n')
  {
    hide Later, Good, GoodPoll, StoresOk;
    GoodLater(w, n, n', n.cursor);
    if n.persisted.Some? { GoodLater(w, n, n', n.persisted.value); }
    forall id | id in n'.polls ensures GoodPoll(w, n', n'.polls[id]) {
      GoodPollLater(w, n, n', n.polls[id]);
    }
  }

  lemma WithoutKeeps(s: seq<Record>, i: nat, now: int)
    ensures forall r :: r in Without(s, i, now) ==> r in s
    ensures forall r :: r in s ==> r in Without(s, i, now) || r.exp < now / 1000
  {
    var t := Without(s, i, now);
    forall r | r in s ensures r in t || r.exp < now / 1000 {
      var j :| 0 <= j < |s| && s[j] == r;
      if t != s && j != i { assert t[if j < i then j else j - 1] == r; }
    }
  }

  lemma ServerKeeps(w: World, n: Net, e: NetEvent)
    requires Inv(w, n)
    ensures Inv(w, ServerStep(w, n, e))
  {
    hide Good, GoodPoll, Has, Without, Own;
    var n' := ServerStep(w, n, e);
    if e.ServerDrop? { WithoutKeeps(n.server, e.index, n.serverNow); }
    InvLater(w, n, n');
  }

  lemma ClientDropKeeps(w: World, n: Net, i: nat)
    requires Inv(w, n)
    ensures Inv(w, ClientStep(w, n, ClientDrop(i)))
  {
    hide Good, GoodPoll, Without;
    var n' := ClientStep(w, n, ClientDrop(i));
    WithoutKeeps(n.client, i, n.clientNow);
    forall r | r in n.issued && Own(w, r) && Safe(w, n, r) ensures Safe(w, n', r) {
      if Has(n.client, w.issuer, r.jti) {
        var j :| 0 <= j < |n.client| && n.client[j].iss == w.issuer && n.client[j].jti == r.jti;
        if n.client[j] in n'.client {
          var k :| 0 <= k < |n'.client| && n'.client[k] == n.client[j];
        }
      }
    }
    InvLater(w, n, n');
  }

  lemma RevokedKeeps(s: seq<Record>, r: Record)
    ensures Has(Revoked(s, r), r.iss, r.jti)
    ensures forall iss, jti :: Has(s, iss, jti) ==> Has(Revoked(s, r), iss, jti)
    ensures forall q :: q in Revoked(s, r) ==> q in s || q == r
  {
    var t := Revoked(s, r);
    assert t[..|s|] == s;
    if !Has(s, r.iss, r.jti) { assert t[|s|] == r; }
    forall iss, jti | Has(s, iss, jti) ensures Has(t, iss, jti) {
      var i :| 0 <= i < |s| && s[i].iss == iss && s[i].jti == jti;
      assert t[i] == s[i];
    }
  }

  lemma ClientKeeps(w: World, n: Net, e: NetEvent)
    requires Inv(w, n)
    ensures Inv(w, ClientStep(w, n, e))
  {
    hide Has, Without, Revoked, Own, GoodPoll;
    var n' := ClientStep(w, n, e);
    if e.ClientDrop? {
      ClientDropKeeps(w, n, e.index);
    } else if e.Restart? {
      assert Good(w, n', 0);
    } else {
      if e.ClientRevoke? {
        RevokedKeeps(n.client, Record(e.iss, e.jti, e.sub, w.expOf(e.iss, e.jti), n.clientNow));
      }
      InvLater(w, n, n');
    }
  }

  // ---- Polls ----

  /** Replacing or removing polls by good ones keeps the invariant. */
  lemma InvPolls(w: World, n: Net, polls: map<nat, Poll>, id: nat)
    requires Inv(w, n) && forall i :: i in polls && i != id ==> i in n.polls && polls[i] == n.polls[i]
    requires id in polls ==> GoodPoll(w, n.(polls := polls), polls[id])
    ensures Inv(w, n.(polls := polls))
  {
    hide Own, Safe, Expired, Settled;
    var n' := n.(polls := polls);
    assert Later(w, n, n') by { SafeSame(w, n, n'); }
    GoodLater(w, n, n', n.cursor);
    if n.persisted.Some? { GoodLater(w, n, n', n.persisted.value); }
    forall i | i in polls ensures GoodPoll(w, n', polls[i]) {
      if i != id { GoodPollLater(w, n, n', n.polls[i]); }
    }
  }

  lemma SafeSame(w: World, n: Net, n': Net)
    requires n'.client == n.client && n'.serverNow == n.serverNow && n'.clientNow == n.clientNow
    ensures forall r :: Safe(w, n, r) <==> Safe(w, n', r)
    ensures forall c :: Settled(n, c) <==> Settled(n', c)
  {
  }

  lemma AnswerFacts(store: seq<Record>, since: int, page: Page)
    requires page == ListSince(store, since, FEED_LIMIT)
    ensures forall r :: r in Normalized(page.entries) <==>
      && r in store && r.jti != "" && r.revokedAt > since
      && (page.nextCursor.Some? ==> r.revokedAt <= page.nextCursor.value)
    ensures page.nextCursor.Some? ==>
      page.nextCursor.value > since && exists r :: r in store && r.revokedAt > page.nextCursor.value
  {
    hide *;
    PageExact(store, since, FEED_LIMIT);
    RestOfFeed(store, since);
  }

  /** The answer holds everything between the cursors, and everything at or below its next
      cursor is already in the server's history. */
  lemma AnswerIsGood(w: World, n: Net, id: nat)
    requires Inv(w, n) && id in n.polls && n.polls[id].Requested?
    ensures GoodPoll(w, n, PollStep(w, n, Respond(id)).polls[id])
  {
    hide Own, Safe, ListSince, Good, Normalized;
    var since := n.polls[id].since;
    AnswerFacts(n.server, since, ListSince(n.server, since, FEED_LIMIT));
    assert GoodPoll(w, n, n.polls[id]);
    var p := PollStep(w, n, Respond(id)).polls[id];
    assert Complete(w, n, p) by {
      forall r | r in p.known && Own(w, r) { OwnHasJti(w, r); }
    }
  }

  lemma OwnHasJti(w: World, r: Record)
    ensures Own(w, r) ==> r.jti != "" && Applies(w.issuer, r)
  {
  }

  lemma RestOfFeed(store: seq<Record>, since: int)
    ensures forall r :: r in Sort(After(store, since)) <==> r in store && r.revokedAt > since
  {
    SameRecords(After(store, since));
  }

  lemma ApplyKeeps(w: World, n: Net, id: nat, writes: bool)
    requires Inv(w, n)
    ensures Inv(w, PollStep(w, n, Apply(id, writes)))
  {
    hide Own, Has, Revoked, Good, Complete, Settled;
    var n' := PollStep(w, n, Apply(id, writes));
    if n' != n {
      var p := n.polls[id];
      assert GoodPoll(w, n, p);
      var entry := p.entries[p.done];
      assert entry in p.entries;
      var mid := n.(client := n'.client);
      if writes && Applies(w.issuer, entry) {
        RevokedKeeps(n.client, Record(w.issuer, entry.jti, entry.sub, entry.exp, n.clientNow));
      }
      InvLater(w, n, mid);
      assert GoodPoll(w, mid, p);
      SafeSame(w, mid, n');
      OwnHasJti(w, entry);
      assert GoodPoll(w, n', n'.polls[id]) by { AppliedIsGood(w, mid, n', id, writes); }
      InvPolls(w, mid, n'.polls, id);
    }
  }

  lemma AppliedIsGood(w: World, mid: Net, n': Net, id: nat, writes: bool)
    requires id in mid.polls && mid.polls[id].Applying? && GoodPoll(w, mid, mid.polls[id])
    requires var p := mid.polls[id];
             && p.done < |p.entries|
             && (writes && Own(w, p.entries[p.done]) ==> Safe(w, mid, p.entries[p.done]))
             && var ok := writes || !Applies(w.issuer, p.entries[p.done]);
                n' == mid.(polls := mid.polls[id := p.(done := p.done + 1, allOk := p.allOk && ok)])
    ensures GoodPoll(w, n', n'.polls[id])
  {
    hide Own, Safe, Expired, Settled, Applies;
    var p := mid.polls[id];
    SafeSame(w, mid, n');
    OwnHasJti(w, p.entries[p.done]);
    assert Later(w, mid, n');
    GoodPollLater(w, mid, n', p);
  }

  /** Once a page is wholly applied, everything up to its next cursor is safe; without a next
      cursor, everything the server knew when it answered. */
  lemma PageCovers(w: World, n: Net, p: Poll)
    requires StoresOk(w, n) && p.Applying? && GoodPoll(w, n, p) && p.allOk && p.done >= |p.entries|
    ensures forall r :: r in p.known && Own(w, r) && (p.next.Some? ==> r.revokedAt <= p.next.value) ==> Safe(w, n, r)
    ensures p.next.Some? ==> Good(w, n, p.next.value)
  {
    hide Own, Expired, Has, Settled;
    forall r | r in p.known && Own(w, r) && (p.next.Some? ==> r.revokedAt <= p.next.value) ensures Safe(w, n, r) {
      if r.revokedAt > p.since && !Expired(n, r) {
        assert r in p.entries;
        var i :| 0 <= i < |p.entries| && p.entries[i] == r;
      }
    }
  }

  lemma FinishKeeps(w: World, n: Net, id: nat, persists: bool)
    requires Inv(w, n)
    ensures Inv(w, PollStep(w, n, Finish(id, persists)))
  {
    hide Good, GoodPoll, StoresOk;
    var n' := PollStep(w, n, Finish(id, persists));
    if n' != n {
      var p := n.polls[id];
      InvPolls(w, n, n.polls - {id}, id);
      var mid := n.(polls := n.polls - {id});
      if p.allOk && p.next.Some? {
        PageCovers(w, n, p);
        GoodSame(w, n, n', p.next.value);
        GoodSame(w, mid, n', n.cursor);
        if n.persisted.Some? { GoodSame(w, mid, n', n.persisted.value); }
        forall i | i in n'.polls ensures GoodPoll(w, n', n'.polls[i]) {
          GoodPollSame(w, mid, n', n'.polls[i]);
        }
        StoresSame(w, mid, n');
      }
    }
  }

  lemma GoodSame(w: World, n: Net, n': Net, c: int)
    requires n'.client == n.client && n'.issued == n.issued
    requires n'.serverNow == n.serverNow && n'.clientNow == n.clientNow
    ensures Good(w, n, c) ==> Good(w, n', c)
  {
    hide Own;
    SafeSame(w, n, n');
  }

  lemma GoodPollSame(w: World, n: Net, n': Net, p: Poll)
    requires n'.client == n.client && n'.issued == n.issued
    requires n'.serverNow == n.serverNow && n'.clientNow == n.clientNow
    ensures GoodPoll(w, n, p) ==> GoodPoll(w, n', p)
  {
    hide Own, Safe, Settled;
    SafeSame(w, n, n');
    if GoodPoll(w, n, p) { GoodPollLater(w, n, n', p); }
  }

  lemma StoresSame(w: World, n: Net, n': Net)
    requires StoresOk(w, n) && n' == n.(cursor := n'.cursor, persisted := n'.persisted)
    ensures StoresOk(w, n')
  {
  }

  lemma PollKeeps(w: World, n: Net, e: NetEvent)
    requires Inv(w, n)
    ensures Inv(w, PollStep(w, n, e))
  {
    hide Good, StoresOk, ListSince, Normalized, ApplyEntry;
    match e
    case Start(id) =>
      var n' := PollStep(w, n, e);
      if n' != n {
        GoodSame(w, n, n', n.cursor);
        assert GoodPoll(w, n', Requested(n.cursor));
        InvPolls(w, n, n'.polls, id);
      }
    case FetchFails(id) => InvPolls(w, n, n.polls - {id}, id);
    case Respond(id) =>
      var n' := PollStep(w, n, e);
      if id in n.polls && n.polls[id].Requested? {
        AnswerIsGood(w, n, id);
        GoodPollSame(w, n, n', n'.polls[id]);
        InvPolls(w, n, n'.polls, id);
      }
    case Apply(id, writes) => ApplyKeeps(w, n, id, writes);
    case Finish(id, persists) => FinishKeeps(w, n, id, persists);
    case _ =>
  }

  lemma {:induction false} InvRuns(w: World, n: Net, events: seq<NetEvent>)
    requires Inv(w, n)
    ensures Inv(w, RunNet(w, n, events))
    decreases |events|
  {
    hide ServerStep, ClientStep, PollStep, Inv;
    if events != [] {
      var m, e := RunNet(w, n, events[..|events| - 1]), events[|events| - 1];
      InvRuns(w, n, events[..|events| - 1]);
      ServerKeeps(w, m, e);
      ClientKeeps(w, m, e);
      PollKeeps(w, m, e);
    }
  }

  lemma InvRun(w: World, serverNow: int, clientNow: int, events: seq<NetEvent>)
    requires serverNow >= 1
    ensures Inv(w, RunNet(w, Fresh(serverNow, clientNow), events))
  {
    hide RunNet, Inv;
    FreshInv(w, serverNow, clientNow);
    InvRuns(w, Fresh(serverNow, clientNow), events);
  }

  lemma FreshInv(w: World, serverNow: int, clientNow: int)
    requires serverNow >= 1
    ensures Inv(w, Fresh(serverNow, clientNow))
  {
  }

  /** No revocation is skipped: after every interleaving of revocations, expiry, polls (even
      overlapping or failing) and restarts, each well-formed revocation of the issuer dated
      at or below the poller's cursor, or its durable cursor, is denied locally or expired. */
  lemma NoRevocationSkipped(w: World, serverNow: int, clientNow: int, events: seq<NetEvent>, r: Record)
    requires serverNow >= 1
    requires var n := RunNet(w, Fresh(serverNow, clientNow), events);
             r in n.issued && Own(w, r)
             && (r.revokedAt <= n.cursor || (n.persisted.Some? && r.revokedAt <= n.persisted.value))
    ensures Safe(w, RunNet(w, Fresh(serverNow, clientNow), events), r)
  {
    hide RunNet, Own, Safe;
    InvRun(w, serverNow, clientNow, events);
  }

  /** The last page catches up: when a poll whose answer named no next cursor has written all
      its entries, every revocation the server had stored when it answered is denied locally
      or expired. */
  lemma LastPageCatchesUp(w: World, serverNow: int, clientNow: int, events: seq<NetEvent>, id: nat, r: Record)
    requires serverNow >= 1
    requires var n := RunNet(w, Fresh(serverNow, clientNow), events);
             && id in n.polls && n.polls[id].Applying? && n.polls[id].next.None? && n.polls[id].allOk
             && n.polls[id].done >= |n.polls[id].entries| && r in n.polls[id].known && Own(w, r)
    ensures Safe(w, RunNet(w, Fresh(serverNow, clientNow), events), r)
  {
    hide RunNet, Own, Safe, GoodPoll, StoresOk;
    InvRun(w, serverNow, clientNow, events);
    var n := RunNet(w, Fresh(serverNow, clientNow), events);
    PageCovers(w, n, n.polls[id]);
  }

  // ---- The poller's own method is one run of the protocol ----

  function ApplyEvents(id: nat, writes: seq<bool>): seq<NetEvent> {
    seq(|writes|, i requires 0 <= i < |writes| => Apply(id, writes[i]))
  }

  lemma {:induction false} AppliedPrefix(w: World, n: Net, id: nat, writes: seq<bool>)
    requires id in n.polls && n.polls[id].Applying? && n.polls[id].done == 0 && n.polls[id].allOk
    requires |writes| <= |n.polls[id].entries|
    ensures var p, k := n.polls[id], |writes|;
            RunNet(w, n, ApplyEvents(id, writes)) ==
            n.(client := ApplyAll(n.client, w.issuer, p.entries[..k], writes, n.clientNow),
               polls := n.polls[id := p.(done := k, allOk := AllWritten(w.issuer, p.entries[..k], writes))])
    decreases |writes|
  {
    hide ApplyEntry, Applies, ApplyAll, AllWritten, RunNet, Next;
    var p, k := n.polls[id], |writes|;
    var entries := p.entries[..k];
    LastWrite(n.client, w.issuer, entries, writes, n.clientNow);
    if k == 0 {
      RunNone(w, n);
      assert n.polls[id := p] == n.polls;
    } else {
      var head := writes[..k - 1];
      AppliedPrefix(w, n, id, head);
      assert entries[..k - 1] == p.entries[..k - 1];
      assert ApplyEvents(id, writes) == ApplyEvents(id, head) + [Apply(id, writes[k - 1])];
      RunSnoc(w, n, ApplyEvents(id, head), Apply(id, writes[k - 1]));
      ApplyOne(w, RunNet(w, n, ApplyEvents(id, head)), id, writes[k - 1]);
    }
  }

  lemma RunNone(w: World, n: Net)
    ensures RunNet(w, n, []) == n
  {
  }

  lemma RunSnoc(w: World, n: Net, events: seq<NetEvent>, e: NetEvent)
    ensures RunNet(w, n, events + [e]) == Next(w, RunNet(w, n, events), e)
  {
    hide Next;
    assert (events + [e])[..|events|] == events;
  }

  lemma ApplyOne(w: World, m: Net, id: nat, writes: bool)
    requires id in m.polls && m.polls[id].Applying? && m.polls[id].done < |m.polls[id].entries|
    ensures var p := m.polls[id];
            var entry := p.entries[p.done];
            var ok := writes || !Applies(w.issuer, entry);
            Next(w, m, Apply(id, writes)) ==
            m.(client := if writes then ApplyEntry(m.client, w.issuer, entry, m.clientNow) else m.client,
               polls := m.polls[id := p.(done := p.done + 1, allOk := p.allOk && ok)])
  {
  }

  lemma LastWrite(store: seq<Record>, issuer: string, entries: seq<Record>, writes: seq<bool>, now: int)
    requires |writes| == |entries|
    ensures entries == [] ==>
      ApplyAll(store, issuer, entries, writes, now) == store && AllWritten(issuer, entries, writes)
    ensures entries != [] ==>
      var k := |entries| - 1;
      var s := ApplyAll(store, issuer, entries[..k], writes[..k], now);
      && ApplyAll(store, issuer, entries, writes, now) ==
         (if writes[k] then ApplyEntry(s, issuer, entries[k], now) else s)
      && (AllWritten(issuer, entries, writes) <==>
          AllWritten(issuer, entries[..k], writes[..k]) && (writes[k] || !Applies(issuer, entries[k])))
  {
    hide ApplyEntry, Applies;
    if entries != [] {
      var k := |entries| - 1;
      if AllWritten(issuer, entries[..k], writes[..k]) && (writes[k] || !Applies(issuer, entries[k])) {
        forall i | 0 <= i < |entries| && Applies(issuer, entries[i]) ensures writes[i] {
          if i < k { assert entries[..k][i] == entries[i] && writes[..k][i] == writes[i]; }
        }
      }
    }
  }

  /** An answered poll that is applied and finished without interruption does to the store and
      the cursors what `Poller.PollFeed` does. */
  lemma UninterruptedPoll(w: World, n: Net, id: nat, writes: seq<bool>, persists: bool)
    requires id in n.polls && n.polls[id].Applying? && n.polls[id].done == 0 && n.polls[id].allOk
    requires |writes| == |n.polls[id].entries|
    ensures var p := n.polls[id];
            var n' := RunNet(w, n, ApplyEvents(id, writes) + [Finish(id, persists)]);
            var moves := AllWritten(w.issuer, p.entries, writes) && p.next.Some?;
            && n'.client == ApplyAll(n.client, w.issuer, p.entries, writes, n.clientNow)
            && n'.cursor == (if moves then p.next.value else n.cursor)
            && n'.persisted == (if moves && persists then p.next else n.persisted)
  {
    hide ApplyAll, AllWritten;
    var p, applies := n.polls[id], ApplyEvents(id, writes);
    AppliedPrefix(w, n, id, writes);
    assert p.entries[..|writes|] == p.entries;
    RunSnoc(w, n, applies, Finish(id, persists));
  }

  // ---- Progress ----

  /** The events of one poll that is not interrupted and whose writes succeed. */
  function PollEvents(n: Net, id: nat): seq<NetEvent> {
    var entries := Normalized(ListSince(n.server, n.cursor, FEED_LIMIT).entries);
    [Start(id), Respond(id)] + ApplyEvents(id, seq(|entries|, i => true)) + [Finish(id, true)]
  }

  /** Polling until an answer names no next cursor. */
  function CatchUp(n: Net, id: nat): seq<NetEvent>
    decreases |After(n.server, n.cursor)|
  {
    var next := ListSince(n.server, n.cursor, FEED_LIMIT).nextCursor;
    RemainingShrinks(n.server, n.cursor, FEED_LIMIT);
    PollEvents(n, id) + if next.Some? then CatchUp(n.(cursor := next.value), id) else []
  }

  lemma {:induction false} RunConcat(w: World, n: Net, a: seq<NetEvent>, b: seq<NetEvent>)
    ensures RunNet(w, n, a + b) == RunNet(w, RunNet(w, n, a), b)
    decreases |b|
  {
    hide Next;
    if b == [] {
      assert a + b == a;
    } else {
      var k := |b| - 1;
      RunConcat(w, n, a, b[..k]);
      assert (a + b)[..|a| + k] == a + b[..k];
    }
  }

  lemma Answered(w: World, n: Net, id: nat)
    requires id !in n.polls
    ensures var page := ListSince(n.server, n.cursor, FEED_LIMIT);
            RunNet(w, n, [Start(id), Respond(id)]) ==
            n.(polls := n.polls[id := Applying(n.cursor, Normalized(page.entries), page.nextCursor, 0, true, n.issued)])
  {
    hide ListSince, Normalized, RunNet, Next;
    assert [Start(id), Respond(id)] == [] + [Start(id)] + [Respond(id)];
    RunNone(w, n);
    RunSnoc(w, n, [], Start(id));
    StartOne(w, n, id);
    RunSnoc(w, n, [] + [Start(id)], Respond(id));
    RespondOne(w, RunNet(w, n, [] + [Start(id)]), id);
  }

  lemma StartOne(w: World, n: Net, id: nat)
    requires id !in n.polls
    ensures Next(w, n, Start(id)) == n.(polls := n.polls[id := Requested(n.cursor)])
  {
  }

  lemma RespondOne(w: World, n: Net, id: nat)
    requires id in n.polls && n.polls[id].Requested?
    ensures var since := n.polls[id].since;
            var page := ListSince(n.server, since, 200);
            Next(w, n, Respond(id)) ==
            n.(polls := n.polls[id := Applying(since, Normalized(page.entries), page.nextCursor, 0, true, n.issued)])
  {
    hide ListSince, Normalized;
  }

  /** Before its last step, a poll whose writes succeed has written the whole page. */
  lemma Written(w: World, n: Net, id: nat)
    requires id !in n.polls
    ensures var page := ListSince(n.server, n.cursor, FEED_LIMIT);
            var entries := Normalized(page.entries);
            var m := RunNet(w, n, [Start(id), Respond(id)] + ApplyEvents(id, seq(|entries|, i => true)));
            && id in m.polls
            && m.polls[id] == Applying(n.cursor, entries, page.nextCursor, |entries|, true, n.issued)
            && m == n.(client := m.client, polls := m.polls) && m.polls - {id} == n.polls
  {
    hide ListSince, Normalized, RunNet, ApplyAll, Next;
    var page := ListSince(n.server, n.cursor, FEED_LIMIT);
    var entries := Normalized(page.entries);
    var writes := seq(|entries|, i => true);
    Answered(w, n, id);
    var n1 := RunNet(w, n, [Start(id), Respond(id)]);
    RunConcat(w, n, [Start(id), Respond(id)], ApplyEvents(id, writes));
    AppliedPrefix(w, n1, id, writes);
    assert entries[..|writes|] == entries;
    assert AllWritten(w.issuer, entries, writes);
  }

  /** One such poll: the cursor moves to the next one named, and every revocation known to the
      server up to there (or all of them) is denied locally or expired. */
  lemma PollAdvances(w: World, n: Net, id: nat)
    requires Inv(w, n) && id !in n.polls
    ensures var next := ListSince(n.server, n.cursor, FEED_LIMIT).nextCursor;
            var n' := RunNet(w, n, PollEvents(n, id));
            && Inv(w, n') && id !in n'.polls
            && n'.server == n.server && n'.issued == n.issued
            && n'.cursor == (if next.Some? then next.value else n.cursor)
            && (next.None? ==> forall r :: r in n.issued && Own(w, r) ==> Safe(w, n', r))
  {
    hide ListSince, Normalized, RunNet, Own, Safe, GoodPoll, Good, StoresOk;
    var page := ListSince(n.server, n.cursor, FEED_LIMIT);
    var applies := ApplyEvents(id, seq(|Normalized(page.entries)|, i => true));
    var front := [Start(id), Respond(id)] + applies;
    var m := RunNet(w, n, front);
    Written(w, n, id);
    InvRuns(w, n, front);
    InvRuns(w, n, front + [Finish(id, true)]);
    RunSnoc(w, n, front, Finish(id, true));
    if page.nextCursor.None? {
      PageCovers(w, m, m.polls[id]);
      SafeSame(w, m, RunNet(w, n, PollEvents(n, id)));
    }
  }

  /** Progress: from every reachable state, polling until no next cursor is named ends, and then
      every well-formed revocation of the issuer that the server ever stored is denied locally
      or expired. */
  lemma CatchUpCovers(w: World, serverNow: int, clientNow: int, events: seq<NetEvent>, id: nat, r: Record)
    requires serverNow >= 1
    requires var n := RunNet(w, Fresh(serverNow, clientNow), events); id !in n.polls && r in n.issued && Own(w, r)
    ensures var n := RunNet(w, Fresh(serverNow, clientNow), events); Safe(w, RunNet(w, n, CatchUp(n, id)), r)
  {
    hide RunNet, Own, Safe, CatchUp, Inv;
    InvRun(w, serverNow, clientNow, events);
    var n := RunNet(w, Fresh(serverNow, clientNow), events);
    CatchUpFrom(w, n, n, id, r);
  }

  lemma {:induction false} CatchUpFrom(w: World, n: Net, from: Net, id: nat, r: Record)
    requires Inv(w, n) && id !in n.polls && r in n.issued && Own(w, r)
    requires from.server == n.server && from.cursor == n.cursor
    ensures Safe(w, RunNet(w, n, CatchUp(from, id)), r)
    decreases |After(n.server, n.cursor)|
  {
    hide RunNet, Own, Safe, Inv, After, ListSince;
    var next := ListSince(n.server, n.cursor, FEED_LIMIT).nextCursor;
    PollAdvances(w, n, id);
    RemainingShrinks(n.server, n.cursor, FEED_LIMIT);
    var n' := RunNet(w, n, PollEvents(n, id));
    assert PollEvents(from, id) == PollEvents(n, id);
    if next.Some? {
      var rest := from.(cursor := next.value);
      CatchUpFrom(w, n', rest, id, r);
      RunConcat(w, n, PollEvents(n, id), CatchUp(rest, id));
    } else {
      assert PollEvents(n, id) + [] == PollEvents(n, id);
    }
  }

  /** A restart loses nothing for good: it interrupts every poll and resumes from the durable
      cursor, or from the beginning when there is none or nothing was durable, and catching up
      from there covers every revocation again. */
  lemma RestartRecovers(
      w: World, serverNow: int, clientNow: int, events: seq<NetEvent>, durable: bool, id: nat, r: Record)
    requires serverNow >= 1 && r in RunNet(w, Fresh(serverNow, clientNow), events).issued && Own(w, r)
    ensures var before := RunNet(w, Fresh(serverNow, clientNow), events);
            var n := RunNet(w, Fresh(serverNow, clientNow), events + [Restart(durable)]);
            && n.polls == map[]
            && n.client == (if durable then before.client else [])
            && n.cursor == (if durable && before.persisted.Some? then before.persisted.value else 0)
            && Safe(w, RunNet(w, n, CatchUp(n, id)), r)
  {
    hide RunNet, Own, Safe, CatchUp;
    RunSnoc(w, Fresh(serverNow, clientNow), events, Restart(durable));
    CatchUpCovers(w, serverNow, clientNow, events + [Restart(durable)], id, r);
  }

  // ---- Issuer confinement ----

  /** The records of the other issuers. */
  function Foreign(w: World, s: seq<Record>): seq<Record> {
    if s == [] then []
    else
      var rest, last := Foreign(w, s[..|s| - 1]), s[|s| - 1];
      if last.iss != w.issuer then rest + [last] else rest
  }

  predicate IsPollEvent(e: NetEvent) {
    e.Start? || e.Respond? || e.FetchFails? || e.Apply? || e.Finish?
  }

  predicate RevokedLocally(events: seq<NetEvent>, r: Record) {
    exists i :: 0 <= i < |events| && events[i] == ClientRevoke(r.iss, r.jti, r.sub)
  }

  /** No step of a poll removes a record or touches those of another issuer. */
  lemma PollStepConfined(w: World, n: Net, e: NetEvent)
    requires IsPollEvent(e)
    ensures n.client <= Next(w, n, e).client
    ensures Foreign(w, Next(w, n, e).client) == Foreign(w, n.client)
  {
    hide ListSince, Normalized;
    var s, t := n.client, Next(w, n, e).client;
    if |t| == |s| + 1 { assert t[..|s|] == s; } else { assert t == s; }
  }

  lemma OneStepConfined(w: World, n: Net, e: NetEvent, r: Record)
    requires r in Next(w, n, e).client && r.iss != w.issuer
    ensures r in n.client || e == ClientRevoke(r.iss, r.jti, r.sub)
  {
    hide ListSince, Normalized;
  }

  /** Over every interleaving, whatever the server serves, a record of another issuer in the
      client's store was there at the start or was put there by the client itself. */
  lemma {:induction false} PollsConfined(w: World, n: Net, events: seq<NetEvent>, r: Record)
    requires r in RunNet(w, n, events).client && r.iss != w.issuer
    ensures r in n.client || RevokedLocally(events, r)
    decreases |events|
  {
    hide Next;
    if events != [] {
      var k := |events| - 1;
      var mid := RunNet(w, n, events[..k]);
      OneStepConfined(w, mid, events[k], r);
      if r in mid.client {
        PollsConfined(w, n, events[..k], r);
        if RevokedLocally(events[..k], r) {
          var i :| 0 <= i < k && events[..k][i] == ClientRevoke(r.iss, r.jti, r.sub);
          assert events[i] == events[..k][i];
        }
      } else {
        assert events[k] == ClientRevoke(r.iss, r.jti, r.sub);
      }
    }
  }
}
