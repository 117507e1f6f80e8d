/** The witness against an honest registry, and the discipline of its alerts. */
module WitnessHonest {
  import opened Bytes
  import opened PowersOfTwo
  import opened LogVerify
  import LogProofs
  import opened WitnessService
  import opened WitnessRuns

  // ---- An honest registry ----

  /** The head that an honest registry of this log serves at size n. */
  function HeadAt(sha: Hash, log: seq<Bytes>, logId: string, n: nat): Head
    requires n <= |log|
  {
    Head(logId, n, RootHash(sha, log[..n]))
  }

  /** What the registry serves is well formed, signed, bound, dated, and a prefix of its log. */
  ghost predicate HonestCheckpoint(sha: Hash, log: seq<Bytes>, logId: string, v: Visit) {
    v.checkpoint.Body? ==>
      && Serves(v) && v.bound && v.signatureValid
      && v.checkpoint.value.value.timestamp - v.now <= MAX_FUTURE_SKEW_MS
      && Served(v).size <= |log|
      && Served(v) == HeadAt(sha, log, logId, Served(v).size)
  }

  /** Asked for a consistency proof from size m, the registry serves the one of RFC 9162
      (there is none from size 0). */
  ghost predicate HonestProof(sha: Hash, log: seq<Bytes>, logId: string, v: Visit, m: nat) {
    Serves(v) && Served(v).size <= |log| && m < Served(v).size && v.proof.Body? && m >= 1 ==>
      v.proof.value == Some(ConsistencyProof(logId, m, Served(v).size,
                                             LogProofs.ConsistencyProof(sha, log[..Served(v).size], m)))
  }

  /** Nothing but the registry's answers decides the outcome of the visit. */
  predicate Completed(v: Visit) {
    && !v.excluded && v.advertises == Some(true) && v.baseUrlKnown && Serves(v)
    && v.didKnown && v.keyResolved && v.readOk && v.advanceOk && v.alertOk && v.proof.Body?
  }

  /** The sizes from which the verifier refuses every, or the honest, consistency proof. */
  predicate Stuck(m: nat) {
    m == 0 || Misjudged(m)
  }

  /** The verdict on an honest registry, exactly: growth from a stuck size is called a
      consistency failure, and every other completed visit ends witnessed. */
  lemma HonestVerdict(sha: Hash, log: seq<Bytes>, logId: string, s: State, v: Visit, m: nat)
    requires HonestCheckpoint(sha, log, logId, v) && HonestProof(sha, log, logId, v, m) && Completed(v)
    requires m <= Served(v).size && CursorOf(s, v.key).head == Some(HeadAt(sha, log, logId, m))
    ensures Step(sha, s, v).1 == if m < Served(v).size && Stuck(m) then Alert(ConsistencyFailed) else Witnessed
  {
    hide ConsistencyAccepts, RootHash, Misjudged, Persist;
    var n := Served(v).size;
    if 1 <= m < n {
      LogProofs.ConsistencyProofComplete(sha, log[..n], m);
      assert log[..n][..m] == log[..m];
    }
    if m == 0 && m < n { ZeroRefused(sha, v, s); }
  }

  lemma ZeroRefused(sha: Hash, v: Visit, s: State)
    requires Serves(v) && v.proof.Body? && Served(v).size > 0
    ensures forall prior: Head :: prior.size == 0 ==>
      !GrowthProven(sha, prior, v.checkpoint.value.value, v.proof.value)
  {
  }

  /** No alert, and if the visit succeeds its checkpoint is the retained head. */
  ghost predicate Calm(s: State, v: Visit, t: State, o: Outcome) {
    && !o.Alert? && t.events == s.events
    && (o.Witnessed? ==> Serves(v) && CursorOf(t, v.key).head == Some(Served(v)))
  }

  lemma RetainCalm(s: State, s': State, v: Visit, via: Option<seq<string>>)
    requires Serves(v) && s'.events == s.events
    ensures var (t, o) := Retain(s', v, v.checkpoint.value.value, via);
            Calm(s, v, t, o) && (v.advanceOk ==> o.Witnessed?)
  {
  }

  lemma CompareCalm(sha: Hash, s: State, v: Visit)
    requires Serves(v) && v.proof != Refused
    requires match CursorOf(s, v.key).head
             case None => true
             case Some(h) =>
               && h.logId == Served(v).logId && h.size <= Served(v).size
               && (h.size == Served(v).size ==> h == Served(v))
               && (h.size < Served(v).size && v.proof.Body? ==>
                    GrowthProven(sha, h, v.checkpoint.value.value, v.proof.value))
    ensures var (t, o) := Compare(sha, s, v, v.checkpoint.value.value);
            Calm(s, v, t, o) && (v.advanceOk && v.proof.Body? ==> o.Witnessed?)
  {
    hide ConsistencyAccepts, Calm, Retain, GrowthProven;
    var cp := v.checkpoint.value.value;
    RetainCalm(s, Persist(s, v, cp, true, None, v.quorum), v, None);
    RetainCalm(s, s, v, None);
    FailureCalm(s, v);
    if v.proof.Body? && v.proof.value.Some? {
      RetainCalm(s, Persist(s, v, cp, true, Some(true), v.quorum), v, Some(v.proof.value.value.path));
    }
    GrownIsSome(sha, s, v);
  }

  lemma GrownIsSome(sha: Hash, s: State, v: Visit)
    ensures forall h, cp, pr :: GrowthProven(sha, h, cp, pr) ==> pr.Some?
  {
  }

  lemma FailureCalm(s: State, v: Visit)
    ensures Calm(s, v, AfterFailure(s, v), Error) && Calm(s, v, s, Skipped) && Calm(s, v, s, Threw)
  {
  }

  /** The head retained so far is one this registry served: a prefix of its log, not longer
      than what it serves now, and not a size its proofs are refused from. */
  ghost predicate Expected(sha: Hash, log: seq<Bytes>, logId: string, v: Visit, h: Head) {
    Serves(v) && h.size <= |log| ==>
      && h.size <= Served(v).size && h == HeadAt(sha, log, logId, h.size)
      && HonestProof(sha, log, logId, v, h.size) && !Stuck(h.size)
  }

  lemma ExpectedGrowth(sha: Hash, log: seq<Bytes>, logId: string, v: Visit, h: Head)
    requires HonestCheckpoint(sha, log, logId, v) && Serves(v) && v.proof.Body?
    requires h.size <= |log| && Expected(sha, log, logId, v, h) && h.size < Served(v).size
    ensures GrowthProven(sha, h, v.checkpoint.value.value, v.proof.value)
  {
    hide ConsistencyAccepts, RootHash, Misjudged;
    var n := Served(v).size;
    LogProofs.ConsistencyProofComplete(sha, log[..n], h.size);
    assert log[..n][..h.size] == log[..h.size];
  }

  /** A visit to an honest registry never alerts; it ends witnessed whenever it completes. */
  lemma HonestNoAlert(sha: Hash, log: seq<Bytes>, logId: string, s: State, v: Visit)
    requires HonestCheckpoint(sha, log, logId, v) && v.proof != Refused
    requires match CursorOf(s, v.key).head
             case None => true
             case Some(h) => h.size <= |log| && Expected(sha, log, logId, v, h)
    ensures var (t, o) := Step(sha, s, v); Calm(s, v, t, o) && (Completed(v) ==> o.Witnessed?)
  {
    hide ConsistencyAccepts, Calm, GrowthProven, AfterFailure, RootHash, HonestProof, Compare;
    var prior := CursorOf(s, v.key).head;
    FailureCalm(s, v);
    if Serves(v) {
      if prior.Some? && v.proof.Body? && prior.value.size < Served(v).size {
        ExpectedGrowth(sha, log, logId, v, prior.value);
      }
      CompareCalm(sha, s, v);
      ThrownCalm(sha, s, v);
    }
  }

  lemma ThrownCalm(sha: Hash, s: State, v: Visit)
    requires Serves(v)
    ensures var (t, o) := Compare(sha, s, v, v.checkpoint.value.value);
            o.Threw? && Calm(s, v, t, o) ==> Calm(s, v, AfterFailure(t, v), Error)
    ensures Calm(s, v, AfterFailure(s, v), Error)
  {
    hide Compare;
  }

  /** The failing run of an honest registry that starts empty: the second visit, to the first
      grown head, is called a consistency failure and the empty head stays. */
  lemma EmptyThenGrown(sha: Hash, log: seq<Bytes>, logId: string, first: Visit, second: Visit)
    requires HonestCheckpoint(sha, log, logId, first) && Completed(first) && Served(first).size == 0
    requires HonestCheckpoint(sha, log, logId, second) && Completed(second) && Served(second).size > 0
    requires first.key == second.key
    ensures var s := Step(sha, EMPTY, first).0;
            && Run(sha, EMPTY, [first]) == s && Step(sha, EMPTY, first).1 == Witnessed
            && Step(sha, s, second).1 == Alert(ConsistencyFailed)
            && CursorOf(Run(sha, EMPTY, [first, second]), first.key).head == Some(Served(first))
  {
    hide Step, Calm, RootHash;
    HonestNoAlert(sha, log, logId, EMPTY, first);
    var s := Step(sha, EMPTY, first).0;
    CalmHead(EMPTY, first, s, Witnessed);
    HonestVerdict(sha, log, logId, s, second, 0);
    EmptyHeadIsFinal(sha, s, [second], first.key);
    assert [first][..0] == [] && [first, second][..1] == [first] && [second][..0] == [];
  }

  lemma CalmHead(s: State, v: Visit, t: State, o: Outcome)
    ensures Calm(s, v, t, o) && o.Witnessed? ==> Serves(v) && CursorOf(t, v.key).head == Some(Served(v))
  {
  }

  // ---- Honest runs ----

  ghost predicate HonestVisit(sha: Hash, log: seq<Bytes>, logId: string, s: State, v: Visit) {
    && HonestCheckpoint(sha, log, logId, v) && v.proof != Refused
    && (Serves(v) ==> !Stuck(Served(v).size))
    && (CursorOf(s, v.key).head.Some? ==> HonestProof(sha, log, logId, v, CursorOf(s, v.key).head.value.size))
  }

  /** Every visit to k meets an honest registry of one log, whose heads never shrink and
      never have a stuck size (sizes from 1 up to 2^32 never are stuck). */
  ghost predicate HonestRun(sha: Hash, log: seq<Bytes>, logId: string, visits: seq<Visit>, k: Key) {
    && (forall i :: 0 <= i < |visits| && visits[i].key == k ==>
         HonestVisit(sha, log, logId, Run(sha, EMPTY, visits[..i]), visits[i]))
    && (forall i, j :: 0 <= i < j < |visits| && visits[i].key == visits[j].key == k
                       && Serves(visits[i]) && Serves(visits[j]) ==>
         Served(visits[i]).size <= Served(visits[j]).size)
  }

  ghost predicate ServedEarlier(visits: seq<Visit>, k: Key, h: Head) {
    exists i :: 0 <= i < |visits| && visits[i].key == k && Serves(visits[i]) && Served(visits[i]) == h
  }

  ghost predicate RetainedWasServed(s: State, visits: seq<Visit>, k: Key) {
    CursorOf(s, k).head.Some? ==> ServedEarlier(visits, k, CursorOf(s, k).head.value)
  }

  /** Over every run in which one registry is honest, and whatever all others do, no visit
      to it alerts, no alert about it is ever sent, and every visit that completes ends
      witnessed. */
  lemma {:induction false} HonestNeverAlerted(sha: Hash, log: seq<Bytes>, logId: string, visits: seq<Visit>, k: Key)
    requires HonestRun(sha, log, logId, visits, k)
    ensures RetainedWasServed(Run(sha, EMPTY, visits), visits, k)
    ensures forall e :: e in Run(sha, EMPTY, visits).events ==> e.key != k
    ensures forall i :: 0 <= i < |visits| && visits[i].key == k ==>
      var o := Step(sha, Run(sha, EMPTY, visits[..i]), visits[i]).1;
      !o.Alert? && (Completed(visits[i]) ==> o.Witnessed?)
    decreases |visits|
  {
    hide Step, HonestVisit, Served, Serves, Completed;
    if visits != [] {
      var n := |visits| - 1;
      var before, v := visits[..n], visits[n];
      forall i | 0 <= i < n ensures before[..i] == visits[..i] {}
      HonestNeverAlerted(sha, log, logId, before, k);
      var s := Run(sha, EMPTY, before);
      HonestStep(sha, log, logId, s, visits, k);
      forall i | 0 <= i < |visits| && visits[i].key == k
        ensures var o := Step(sha, Run(sha, EMPTY, visits[..i]), visits[i]).1;
                !o.Alert? && (Completed(visits[i]) ==> o.Witnessed?)
      {
        if i < n { assert before[i] == visits[i]; }
      }
    }
  }

  lemma HonestStep(sha: Hash, log: seq<Bytes>, logId: string, s: State, visits: seq<Visit>, k: Key)
    requires visits != [] && HonestRun(sha, log, logId, visits, k)
    requires s == Run(sha, EMPTY, visits[..|visits| - 1])
    requires RetainedWasServed(s, visits[..|visits| - 1], k) && forall e :: e in s.events ==> e.key != k
    ensures var v := visits[|visits| - 1];
            var (t, o) := Step(sha, s, v);
            && RetainedWasServed(t, visits, k)
            && (forall e :: e in t.events ==> e.key != k)
            && (v.key == k ==> !o.Alert? && (Completed(v) ==> o.Witnessed?))
  {
    hide Step, Run, HonestProof, HonestCheckpoint, Served, Serves, Stuck, Completed;
    var n := |visits| - 1;
    var v := visits[n];
    var (t, o) := Step(sha, s, v);
    var head := CursorOf(s, k).head;
    StepIsLawful(sha, s, v);
    if head.Some? {
      var i :| 0 <= i < n && visits[..n][i].key == k && Serves(visits[..n][i]) && Served(visits[..n][i]) == head.value;
      assert visits[i].key == k && Serves(visits[i]) && Served(visits[i]) == head.value;
      assert ServedEarlier(visits, k, head.value);
      if v.key == k { StillExpected(sha, log, logId, Run(sha, EMPTY, visits[..i]), visits[i], s, v); }
    }
    if v.key == k {
      HonestUnfold(sha, log, logId, s, v);
      HonestNoAlert(sha, log, logId, s, v);
      if o.Witnessed? {
        assert visits[n].key == k && Served(visits[n]) == CursorOf(t, k).head.value;
      }
    } else {
      OthersEvents(sha, s, v);
      if o.Witnessed? { MovedIsSilent(sha, s, t, v); } else { HeadsKept(sha, s, v, t, o); }
    }
  }

  lemma HonestUnfold(sha: Hash, log: seq<Bytes>, logId: string, s: State, v: Visit)
    requires HonestVisit(sha, log, logId, s, v)
    ensures HonestCheckpoint(sha, log, logId, v) && v.proof != Refused
  {
  }

  lemma StillExpected(sha: Hash, log: seq<Bytes>, logId: string, s0: State, v0: Visit, s: State, v: Visit)
    requires HonestVisit(sha, log, logId, s0, v0) && Serves(v0)
    requires HonestVisit(sha, log, logId, s, v) && CursorOf(s, v.key).head == Some(Served(v0))
    requires Serves(v) ==> Served(v0).size <= Served(v).size
    ensures Served(v0).size <= |log| && Expected(sha, log, logId, v, Served(v0))
  {
    hide HonestProof, Misjudged, RootHash;
  }

  lemma OthersEvents(sha: Hash, s: State, v: Visit)
    ensures forall e :: e in Step(sha, s, v).0.events ==> e in s.events || e.key == v.key
  {
    hide Step, Moved;
    StepIsLawful(sha, s, v);
    var (t, o) := Step(sha, s, v);
    if o.Witnessed? { MovedIsSilent(sha, s, t, v); }
  }

  lemma MovedIsSilent(sha: Hash, s: State, t: State, v: Visit)
    requires exists a, timestamp :: Moved(sha, s, t, v, a, timestamp)
    ensures t.events == s.events && !CursorOf(t, v.key).alerted
    ensures |HistoryOf(t, v.key)| == |HistoryOf(s, v.key)| + 1
    ensures forall k :: k != v.key ==> CursorOf(t, k) == CursorOf(s, k) && HistoryOf(t, k) == HistoryOf(s, k)
  {
    hide Linked;
    var a, timestamp :| Moved(sha, s, t, v, a, timestamp);
  }

  // ---- The discipline of alerts ----

  function LastEvent(events: seq<AlertEvent>, k: Key): Option<AlertEvent> {
    if events == [] then None
    else if events[|events| - 1].key == k then Some(events[|events| - 1])
    else LastEvent(events[..|events| - 1], k)
  }

  /** A cursor is alerted exactly when the last event about it was sent in its current era,
      and then for the reason that event gave. */
  ghost predicate Announced(s: State, k: Key) {
    var c, last := CursorOf(s, k), LastEvent(s.events, k);
    && (c.alerted <==> last.Some? && last.value.era == |HistoryOf(s, k)|)
    && (c.alerted ==> c.reason == Some(last.value.reason))
    && (last.Some? ==> last.value.era <= |HistoryOf(s, k)|)
  }

  /** The j-th event does not repeat the one before it about the same registry, unless the
      witness advanced past that alert in between. */
  predicate NotRepeated(events: seq<AlertEvent>, j: nat)
    requires j < |events|
  {
    var last := LastEvent(events[..j], events[j].key);
    last.Some? ==> last.value.reason != events[j].reason || last.value.era < events[j].era
  }

  ghost predicate AlertsInOrder(s: State) {
    && (forall k :: Announced(s, k))
    && (forall j :: 0 <= j < |s.events| ==> NotRepeated(s.events, j))
  }

  lemma AlertStep(sha: Hash, s: State, v: Visit)
    requires AlertsInOrder(s)
    ensures AlertsInOrder(Step(sha, s, v).0)
  {
    hide Step, Moved;
    StepIsLawful(sha, s, v);
    var (t, o) := Step(sha, s, v);
    assert Announced(s, v.key);
    if o.Witnessed? {
      MovedIsSilent(sha, s, t, v);
      forall k ensures Announced(t, k) { assert Announced(s, k); }
    } else if o.Alert? {
      AccusedInOrder(s, t, v, o.reason);
    } else {
      forall k ensures Announced(t, k) {
        assert Announced(s, k);
        assert CursorOf(t, k).(failures := 0) == CursorOf(s, k).(failures := 0);
      }
    }
  }

  lemma AccusedInOrder(s: State, t: State, v: Visit, reason: AlertReason)
    requires AlertsInOrder(s) && Accused(s, t, v, reason)
    ensures AlertsInOrder(t)
  {
    hide Accused, Announced, NotRepeated;
    forall k ensures Announced(t, k) {
      assert Announced(s, k) && Announced(s, v.key);
      AccusedAnnounced(s, t, v, reason, k);
    }
    forall j | 0 <= j < |t.events| ensures NotRepeated(t.events, j) {
      assert Announced(s, v.key);
      AccusedNotRepeated(s, t, v, reason, j);
    }
  }

  lemma LastEventSnoc(events: seq<AlertEvent>, e: AlertEvent, k: Key)
    ensures LastEvent(events + [e], k) == if e.key == k then Some(e) else LastEvent(events, k)
  {
    assert (events + [e])[..|events|] == events;
  }

  lemma AccusedAnnounced(s: State, t: State, v: Visit, reason: AlertReason, k: Key)
    requires Announced(s, k) && Announced(s, v.key) && Accused(s, t, v, reason)
    ensures Announced(t, k)
  {
    hide LastEvent;
    LastEventSnoc(s.events, AlertEvent(v.key, reason, |HistoryOf(s, v.key)|), k);
  }

  lemma AccusedNotRepeated(s: State, t: State, v: Visit, reason: AlertReason, j: nat)
    requires j < |t.events| && Announced(s, v.key) && Accused(s, t, v, reason)
    requires j < |s.events| ==> NotRepeated(s.events, j)
    ensures NotRepeated(t.events, j)
  {
    hide LastEvent;
    if j < |s.events| {
      assert t.events[..j] == s.events[..j] && t.events[j] == s.events[j];
    } else {
      assert t.events[..j] == s.events;
    }
  }

  /** Over every run, a lasting condition is announced once: no event about a registry
      repeats the reason of the previous one without an advance in between. */
  lemma {:induction false} AlertsAnnouncedOnce(sha: Hash, visits: seq<Visit>)
    ensures AlertsInOrder(Run(sha, EMPTY, visits))
    decreases |visits|
  {
    hide Step;
    if visits != [] {
      AlertsAnnouncedOnce(sha, visits[..|visits| - 1]);
      AlertStep(sha, Run(sha, EMPTY, visits[..|visits| - 1]), visits[|visits| - 1]);
    }
  }
}
