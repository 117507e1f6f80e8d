/** Whole runs of the checkpoint witness against a registry that may answer anything:
    what is retained only grows, what is cosigned is what was just retained, and
    all the heads ever retained for one cursor are prefixes of one log. */
module WitnessRuns {
  import opened Bytes
  import opened LogVerify
  import opened LogProofs
  import opened WitnessService
  import Quorum

  // ---- One step ----

  /** b may follow a: the same head again, or a longer log proved consistent with it. */
  predicate Linked(sha: Hash, a: Head, b: Advance) {
    && b.head.logId == a.logId
    && match b.via
       case None => b.head == a
       case Some(path) =>
         a.size < b.head.size && ConsistencyAccepts(sha, a.size, b.head.size, path, a.root, b.head.root)
  }

  /** Only failure counters differ. */
  ghost predicate Kept(s: State, t: State) {
    && t.cosignatures == s.cosignatures && t.history == s.history && t.events == s.events
    && forall k :: CursorOf(t, k).(failures := 0) == CursorOf(s, k).(failures := 0)
  }

  /** The visited cursor is marked; an event goes out only when the mark is new or changes. */
  ghost predicate Accused(s: State, t: State, v: Visit, reason: AlertReason) {
    var c := CursorOf(s, v.key);
    && t.cosignatures == s.cosignatures && t.history == s.history
    && t.events == (if c.alerted && c.reason == Some(reason) then s.events
                    else s.events + [AlertEvent(v.key, reason, |HistoryOf(s, v.key)|)])
    && CursorOf(t, v.key) == c.(alerted := true, reason := Some(reason))
    && forall k :: k != v.key ==> CursorOf(t, k) == CursorOf(s, k)
  }

  /** The cursor moved to a, which may follow the head it had, and perhaps a was cosigned. */
  ghost predicate Moved(sha: Hash, s: State, t: State, v: Visit, a: Advance, timestamp: int) {
    && (match CursorOf(s, v.key).head case None => a.via.None? case Some(h) => Linked(sha, h, a))
    && CursorOf(t, v.key) == Cursor(Some(a.head), 0, false, None)
    && t.history == s.history[v.key := HistoryOf(s, v.key) + [a]] && t.events == s.events
    && (t.cosignatures == s.cosignatures || t.cosignatures == s.cosignatures + [Cosignature(v.key, a.head, timestamp)])
    && forall k :: k != v.key ==> CursorOf(t, k) == CursorOf(s, k)
  }

  ghost predicate StepShape(sha: Hash, s: State, v: Visit, t: State, o: Outcome) {
    match o
    case Witnessed => exists a, timestamp :: Moved(sha, s, t, v, a, timestamp)
    case Alert(reason) => Accused(s, t, v, reason)
    case _ => Kept(s, t)
  }

  predicate SameButEvidence(s: State, s': State) {
    s' == s.(evidence := s'.evidence)
  }

  lemma RetainShape(sha: Hash, s: State, s': State, v: Visit, cp: Checkpoint, via: Option<seq<string>>)
    requires SameButEvidence(s, s')
    requires match CursorOf(s, v.key).head
             case None => via.None?
             case Some(h) => Linked(sha, h, Advance(cp.head, via))
    ensures var (t, o) := Retain(s', v, cp, via); StepShape(sha, s, v, t, o)
  {
    hide ConsistencyAccepts;
    var (t, o) := Retain(s', v, cp, via);
    if o.Witnessed? { assert Moved(sha, s, t, v, Advance(cp.head, via), cp.timestamp); }
  }

  lemma CompareShape(sha: Hash, s: State, v: Visit, cp: Checkpoint)
    ensures var (t, o) := Compare(sha, s, v, cp); StepShape(sha, s, v, t, o)
  {
    hide ConsistencyAccepts, StepShape, Retain, Alerted;
    var without := Persist(s, v, cp, true, None, v.quorum);
    var withProof := Persist(s, v, cp, true, Some(true), v.quorum);
    match CursorOf(s, v.key).head
    case None => RetainShape(sha, s, without, v, cp, None);
    case Some(prior) =>
      if cp.head == prior {
        RetainShape(sha, s, without, v, cp, None);
        RetainShape(sha, s, s, v, cp, None);
      } else if cp.head.logId == prior.logId && cp.head.size > prior.size && v.proof.Body?
             && GrowthProven(sha, prior, cp, v.proof.value) {
        RetainShape(sha, s, withProof, v, cp, Some(v.proof.value.value.path));
      } else {
        forall reason: AlertReason, c: Option<bool> {
          AlertShape(sha, s, Persist(s, v, cp, true, c, None), v, reason);
        }
        FailureShape(sha, s, v);
      }
  }

  lemma AlertShape(sha: Hash, s: State, s': State, v: Visit, reason: AlertReason)
    requires SameButEvidence(s, s')
    ensures var (t, o) := Alerted(s', v, reason); StepShape(sha, s, v, t, o)
  {
  }

  lemma FailureShape(sha: Hash, s: State, v: Visit)
    ensures StepShape(sha, s, v, AfterFailure(s, v), Error)
  {
  }

  lemma ObserveShape(sha: Hash, s: State, v: Visit)
    ensures var (t, o) := Observe(sha, s, v); StepShape(sha, s, v, t, o)
  {
    hide StepShape, Alerted, Compare, AfterFailure;
    FailureShape(sha, s, v);
    AlertShape(sha, s, s, v, CheckpointInvalid);
    UnchangedShape(sha, s, v);
    if Serves(v) {
      var cp := v.checkpoint.value.value;
      AlertShape(sha, s, Persist(s, v, cp, false, None, None), v, CheckpointSignatureInvalid);
      CompareShape(sha, s, v, cp);
    }
  }

  lemma UnchangedShape(sha: Hash, s: State, v: Visit)
    ensures StepShape(sha, s, v, s, Skipped) && StepShape(sha, s, v, s, Threw)
  {
  }

  lemma KeptTwice(s: State, t: State, u: State)
    requires Kept(s, t) && Kept(t, u)
    ensures Kept(s, u)
  {
    forall k ensures CursorOf(u, k).(failures := 0) == CursorOf(s, k).(failures := 0) {
      assert CursorOf(t, k).(failures := 0) == CursorOf(s, k).(failures := 0);
    }
  }

  /** Every step either leaves all retained heads alone or moves the visited one lawfully. */
  lemma StepIsLawful(sha: Hash, s: State, v: Visit)
    ensures var (t, o) := Step(sha, s, v); StepShape(sha, s, v, t, o)
  {
    hide Observe, Moved;
    ObserveShape(sha, s, v);
    var (t, o) := Observe(sha, s, v);
    if o.Threw? {
      FailureShape(sha, t, v);
      KeptTwice(s, t, AfterFailure(t, v));
    }
  }

  /** Exceptions, errors and skips leave all cursors alone, but for the failure they count. */
  lemma QuietEnds(sha: Hash, s: State, v: Visit)
    ensures var (t, o) := Observe(sha, s, v);
            && (o.Skipped? ==> t == s)
            && (o.Error? ==> t == AfterFailure(s, v))
            && (o.Threw? ==> t.cursors == s.cursors)
  {
    hide ConsistencyAccepts, Alerted, Retain, AfterFailure;
    forall s', reason { AlertThrows(s', v, reason); }
    forall s', cp, via { RetainThrows(s', v, cp, via); }
  }

  lemma AlertThrows(s: State, v: Visit, reason: AlertReason)
    ensures var (t, o) := Alerted(s, v, reason); (o.Threw? ==> t == s) && !o.Error? && !o.Skipped?
  {
  }

  lemma RetainThrows(s: State, v: Visit, cp: Checkpoint, via: Option<seq<string>>)
    ensures var (t, o) := Retain(s, v, cp, via); (o.Threw? ==> t == s) && !o.Error? && !o.Skipped?
  {
  }

  /** Failures are counted at errors only, one each, and cleared by an advance; what happens at
      one registry changes no other cursor. */
  lemma FailuresExact(sha: Hash, s: State, v: Visit)
    ensures var (t, o) := Step(sha, s, v);
            var before := CursorOf(s, v.key).failures;
            && CursorOf(t, v.key).failures ==
               (if o.Witnessed? then 0 else if o.Error? && v.failureOk then before + 1 else before)
            && forall k :: k != v.key ==> CursorOf(t, k) == CursorOf(s, k)
  {
    hide Observe, ConsistencyAccepts;
    ObserveShape(sha, s, v);
    QuietEnds(sha, s, v);
  }

  /** A visit that fails for its surroundings never accuses: an unknown address, a checkpoint or
      a proof that cannot be fetched, an authority without a DID, a key that cannot be
      resolved, and a database that cannot be read leave the alert and the events alone. */
  lemma EnvironmentNeverAccuses(sha: Hash, s: State, v: Visit)
    requires || v.excluded || v.advertises != Some(true) || !v.baseUrlKnown || !v.checkpoint.Body?
             || (Serves(v) && Hindered(CursorOf(s, v.key).head, v, v.checkpoint.value.value))
    ensures var (t, o) := Step(sha, s, v);
            && !o.Alert? && t.events == s.events
            && CursorOf(t, v.key).alerted == CursorOf(s, v.key).alerted
            && CursorOf(t, v.key).reason == CursorOf(s, v.key).reason
  {
    hide Step, Observe, ServedTable, Hindered, Linked;
    StepIsLawful(sha, s, v);
    StepOutcome(sha, s, v);
    if Serves(v) {
      ServedAlert(sha, CursorOf(s, v.key).head, v, v.checkpoint.value.value, Observe(sha, s, v).1);
    }
    var (t, o) := Step(sha, s, v);
    assert CursorOf(t, v.key).(failures := 0) == CursorOf(s, v.key).(failures := 0);
  }

  lemma StepOutcome(sha: Hash, s: State, v: Visit)
    ensures var (o, seen) := (Step(sha, s, v).1, Observe(sha, s, v).1);
            && o == (if seen.Threw? then Error else seen)
            && OutcomeTable(sha, CursorOf(s, v.key).head, v, seen)
  {
    hide Observe, OutcomeTable;
    VisitOutcome(sha, s, v);
  }

  // ---- Runs ----

  ghost predicate Chain(sha: Hash, c: seq<Advance>) {
    forall i :: 0 < i < |c| ==> Linked(sha, c[i - 1].head, c[i])
  }

  /** The retained head is the last advance, every advance follows from the one before
      it, and every cosigned head was retained. */
  ghost predicate Sound(sha: Hash, s: State) {
    && (forall k :: Chain(sha, HistoryOf(s, k)))
    && (forall k :: CursorOf(s, k).head == LastHead(HistoryOf(s, k)))
    && (forall c :: c in s.cosignatures ==> Retained(s, c.key, c.head))
  }

  function LastHead(c: seq<Advance>): Option<Head> {
    if c == [] then None else Some(c[|c| - 1].head)
  }

  predicate Retained(s: State, k: Key, h: Head) {
    exists i :: 0 <= i < |HistoryOf(s, k)| && HistoryOf(s, k)[i].head == h
  }

  lemma SoundStep(sha: Hash, s: State, v: Visit)
    requires Sound(sha, s)
    ensures Sound(sha, Step(sha, s, v).0)
  {
    hide Step, ConsistencyAccepts;
    StepIsLawful(sha, s, v);
    var (t, o) := Step(sha, s, v);
    if !o.Witnessed? {
      HeadsKept(sha, s, v, t, o);
    } else {
      var a, timestamp :| Moved(sha, s, t, v, a, timestamp);
      var h := HistoryOf(s, v.key);
      assert HistoryOf(t, v.key) == h + [a];
      forall k ensures Chain(sha, HistoryOf(t, k)) && CursorOf(t, k).head == LastHead(HistoryOf(t, k)) {
        if k != v.key { assert HistoryOf(t, k) == HistoryOf(s, k); }
      }
      forall c | c in t.cosignatures ensures Retained(t, c.key, c.head) {
        if c in s.cosignatures {
          var i :| 0 <= i < |HistoryOf(s, c.key)| && HistoryOf(s, c.key)[i].head == c.head;
          assert HistoryOf(t, c.key)[i].head == c.head;
        } else {
          assert HistoryOf(t, v.key)[|h|].head == c.head;
        }
      }
    }
  }

  lemma HeadsKept(sha: Hash, s: State, v: Visit, t: State, o: Outcome)
    requires StepShape(sha, s, v, t, o) && !o.Witnessed?
    ensures forall k :: CursorOf(t, k).head == CursorOf(s, k).head && HistoryOf(t, k) == HistoryOf(s, k)
    ensures t.cosignatures == s.cosignatures
  {
    forall k ensures CursorOf(t, k).head == CursorOf(s, k).head {
      assert o.Alert? || CursorOf(t, k).(failures := 0) == CursorOf(s, k).(failures := 0);
    }
  }

  lemma {:induction false} SoundRun(sha: Hash, visits: seq<Visit>)
    ensures Sound(sha, Run(sha, EMPTY, visits))
    decreases |visits|
  {
    hide Step;
    if visits != [] {
      SoundRun(sha, visits[..|visits| - 1]);
      SoundStep(sha, Run(sha, EMPTY, visits[..|visits| - 1]), visits[|visits| - 1]);
    }
  }

  /** A cosignature is made at an advance only, for the head just retained, with the time of its
      checkpoint, and exactly when minting and storing it succeed. */
  lemma CosignedIsRetained(sha: Hash, s: State, v: Visit)
    ensures var (t, o) := Step(sha, s, v);
            if o.Witnessed? then
              && Serves(v) && CursorOf(t, v.key).head == Some(Served(v))
              && t.cosignatures == s.cosignatures + Minted(v, v.checkpoint.value.value)
            else t.cosignatures == s.cosignatures
  {
    hide Observe, HeadsUntouched, Minted;
    ObserveKeepsHeads(sha, s, v);
    CosignedExactly(sha, s, v);
    UntouchedCosignatures(s, Observe(sha, s, v).0);
  }

  function Minted(v: Visit, cp: Checkpoint): seq<Cosignature> {
    if v.signing.Stored? then [Cosignature(v.key, cp.head, cp.timestamp)] else []
  }

  lemma UntouchedCosignatures(s: State, t: State)
    ensures HeadsUntouched(s, t) ==> t.cosignatures == s.cosignatures
  {
  }

  lemma CosignedExactly(sha: Hash, s: State, v: Visit)
    ensures var (t, o) := Observe(sha, s, v);
            o.Witnessed? && Serves(v) ==> t.cosignatures == s.cosignatures + Minted(v, v.checkpoint.value.value)
  {
    hide GrowthProven, Alerted, Retain, AfterFailure, CursorOf, Minted;
    forall s', reason { AlertedHeads(s', v, reason); }
    if Serves(v) {
      var cp := v.checkpoint.value.value;
      forall s', via { RetainCosigns(s', v, cp, via); }
      GrowthHasProof(sha, cp);
      if v.proof.Body? && v.proof.value.Some? {
        RetainCosigns(Persist(s, v, cp, true, Some(true), v.quorum), v, cp, Some(v.proof.value.value.path));
      }
    }
  }

  lemma RetainCosigns(s: State, v: Visit, cp: Checkpoint, via: Option<seq<string>>)
    ensures var (t, o) := Retain(s, v, cp, via);
            o.Witnessed? ==> t.cosignatures == s.cosignatures + Minted(v, cp)
  {
  }

  /** Once a head is retained, its log never changes and its size never shrinks, over any
      further run; and a visit to one registry leaves every other registry's head alone. */
  lemma {:induction false} RetainedHeadGrows(sha: Hash, s: State, visits: seq<Visit>, k: Key)
    requires CursorOf(s, k).head.Some?
    ensures var h, h' := CursorOf(s, k).head, CursorOf(Run(sha, s, visits), k).head;
            h'.Some? && h'.value.logId == h.value.logId && h'.value.size >= h.value.size
    ensures (forall i :: 0 <= i < |visits| ==> visits[i].key != k)
              ==> CursorOf(Run(sha, s, visits), k).head == CursorOf(s, k).head
    decreases |visits|
  {
    hide Step, ConsistencyAccepts;
    if visits != [] {
      var n := |visits| - 1;
      var mid := Run(sha, s, visits[..n]);
      RetainedHeadGrows(sha, s, visits[..n], k);
      StepIsLawful(sha, mid, visits[n]);
      var (t, o) := Step(sha, mid, visits[n]);
      if o.Witnessed? {
        var a, timestamp :| Moved(sha, mid, t, visits[n], a, timestamp);
      } else {
        HeadsKept(sha, mid, visits[n], t, o);
      }
    }
  }

  // ---- One log behind every retained head ----

  /** Between the i-th and the j-th retained head: the collision that a rewrite of the
      first c[i].head.size leaves would need, given the leaves behind the j-th. */
  function ChainCollision(sha: Hash, c: seq<Advance>, i: nat, j: nat, leaves: seq<Bytes>): Option<Collision>
    requires i <= j < |c|
    decreases j
  {
    if i == j then None
    else
      match c[j].via
      case None => ChainCollision(sha, c, i, j - 1, leaves)
      case Some(path) =>
        var prior := c[j - 1].head;
        var x := ConsistencyCollision(sha, leaves, prior.size, path, prior.root);
        if x.Some? || prior.size > |leaves| then x
        else ChainCollision(sha, c, i, j - 1, leaves[..prior.size])
  }

  ghost predicate Commits(sha: Hash, h: Head, leaves: seq<Bytes>) {
    |leaves| == h.size && RootHash(sha, leaves) == h.root
  }

  lemma {:induction false} ChainSound(sha: Hash, c: seq<Advance>, i: nat, j: nat, leaves: seq<Bytes>)
    requires Chain(sha, c) && i <= j < |c| && Commits(sha, c[j].head, leaves)
    ensures c[i].head.logId == c[j].head.logId && c[i].head.size <= c[j].head.size
    ensures c[i].head.size == c[j].head.size ==> c[i].head == c[j].head
    ensures var x := ChainCollision(sha, c, i, j, leaves);
            if x.None? then Commits(sha, c[i].head, leaves[..c[i].head.size]) else IsCollision(sha, x.value)
    decreases j
  {
    hide ConsistencyAccepts, ConsistencyCollision, RootHash, IsCollision;
    if i == j {
      assert leaves[..|leaves|] == leaves;
    } else {
      var prior := c[j - 1].head;
      assert Linked(sha, prior, c[j]);
      ChainOrder(sha, c, i, j - 1);
      match c[j].via
      case None => ChainSound(sha, c, i, j - 1, leaves);
      case Some(path) =>
        ConsistencyProofSound(sha, leaves, prior.size, path, prior.root);
        if ConsistencyCollision(sha, leaves, prior.size, path, prior.root).None? {
          ChainSound(sha, c, i, j - 1, leaves[..prior.size]);
          assert leaves[..prior.size][..c[i].head.size] == leaves[..c[i].head.size];
        }
    }
  }

  lemma {:induction false} ChainOrder(sha: Hash, c: seq<Advance>, i: nat, j: nat)
    requires Chain(sha, c) && i <= j < |c|
    ensures c[i].head.logId == c[j].head.logId && c[i].head.size <= c[j].head.size
    ensures c[i].head.size == c[j].head.size ==> c[i].head == c[j].head
    decreases j
  {
    hide ConsistencyAccepts;
    if i < j {
      assert Linked(sha, c[j - 1].head, c[j]);
      ChainOrder(sha, c, i, j - 1);
    }
  }

  /** The collision that two retained heads of different logs would need. */
  function HeadsCollision(sha: Hash, c: seq<Advance>, i: nat, j: nat, small: seq<Bytes>, large: seq<Bytes>)
    : Option<Collision>
    requires i <= j < |c|
  {
    var x := ChainCollision(sha, c, i, j, large);
    if x.Some? || |small| > |large| || Root(sha, small) != Root(sha, large[..|small|]) then x
    else RootCollision(sha, small, large[..|small|])
  }

  /** Over every run, two heads retained for one cursor belong to one log id, the earlier is
      not the larger, and heads of one size are one head: no split view is ever retained. */
  lemma RetainedInOrder(sha: Hash, visits: seq<Visit>, k: Key, i: nat, j: nat)
    requires i <= j < |HistoryOf(Run(sha, EMPTY, visits), k)|
    ensures var c := HistoryOf(Run(sha, EMPTY, visits), k);
            var a, b := c[i].head, c[j].head;
            a.logId == b.logId && a.size <= b.size && (a.size == b.size ==> a == b)
  {
    hide Run;
    SoundRun(sha, visits);
    ChainOrder(sha, HistoryOf(Run(sha, EMPTY, visits), k), i, j);
  }

  /** Whole-run safety: over every run against any registry, two heads retained for one
      cursor, the i-th and the j-th, belong to one log. The leaves behind the earlier are
      the first leaves behind the later, unless the hash function collides on two byte
      strings that are computed. */
  lemma OneLogBehindAllHeads(
      sha: Hash, visits: seq<Visit>, k: Key, i: nat, j: nat, small: seq<Bytes>, large: seq<Bytes>)
    requires i <= j < |HistoryOf(Run(sha, EMPTY, visits), k)|
    requires var c := HistoryOf(Run(sha, EMPTY, visits), k);
             Commits(sha, c[i].head, small) && Commits(sha, c[j].head, large)
    ensures var c := HistoryOf(Run(sha, EMPTY, visits), k);
            var x := HeadsCollision(sha, c, i, j, small, large);
            if x.None? then |small| <= |large| && small == large[..|small|] else IsCollision(sha, x.value)
  {
    hide Run, ConsistencyAccepts, RootCollision, RootHash, Root, IsCollision, ChainCollision;
    SoundRun(sha, visits);
    var c := HistoryOf(Run(sha, EMPTY, visits), k);
    ChainSound(sha, c, i, j, large);
    if ChainCollision(sha, c, i, j, large).None? {
      RootHashBinding(sha, small, large[..|small|]);
    }
  }

  lemma RootHashBinding(sha: Hash, a: seq<Bytes>, b: seq<Bytes>)
    requires RootHash(sha, a) == RootHash(sha, b)
    ensures Root(sha, a) == Root(sha, b)
    ensures var x := RootCollision(sha, a, b);
            if x.None? then a == b else IsCollision(sha, x.value)
  {
    hide Root, RootCollision, IsCollision;
    WireCanonical(RootHash(sha, a), Root(sha, a));
    WireCanonical(RootHash(sha, b), Root(sha, b));
    RootBinding(sha, a, b);
  }

  // ---- Cosignatures ----

  predicate AtMostRetained(s: State, c: Cosignature) {
    var retained := CursorOf(s, c.key).head;
    retained.Some? && c.head.size <= retained.value.size
  }

  /** Per cursor the cosigned sizes never fall, and none exceeds the retained size. */
  ghost predicate CosignedUpwards(s: State) {
    && (forall p, q :: 0 <= p < q < |s.cosignatures| && s.cosignatures[p].key == s.cosignatures[q].key ==>
         s.cosignatures[p].head.size <= s.cosignatures[q].head.size)
    && (forall p :: 0 <= p < |s.cosignatures| ==> AtMostRetained(s, s.cosignatures[p]))
  }

  lemma CosignedStep(sha: Hash, s: State, v: Visit)
    requires CosignedUpwards(s)
    ensures CosignedUpwards(Step(sha, s, v).0)
  {
    hide Step, ConsistencyAccepts;
    StepIsLawful(sha, s, v);
    var (t, o) := Step(sha, s, v);
    if o.Witnessed? {
      var a, timestamp :| Moved(sha, s, t, v, a, timestamp);
      forall p | 0 <= p < |s.cosignatures| ensures AtMostRetained(t, s.cosignatures[p]) {
        assert AtMostRetained(s, s.cosignatures[p]);
      }
    } else {
      HeadsKept(sha, s, v, t, o);
      forall p | 0 <= p < |s.cosignatures| ensures AtMostRetained(t, s.cosignatures[p]) {
        assert AtMostRetained(s, s.cosignatures[p]);
      }
    }
  }

  lemma {:induction false} CosignedRun(sha: Hash, visits: seq<Visit>)
    ensures CosignedUpwards(Run(sha, EMPTY, visits))
    decreases |visits|
  {
    hide Step;
    if visits != [] {
      CosignedRun(sha, visits[..|visits| - 1]);
      CosignedStep(sha, Run(sha, EMPTY, visits[..|visits| - 1]), visits[|visits| - 1]);
    }
  }

  /** The place of the first advance to h, or |c| if there is none. */
  function FirstAdvance(c: seq<Advance>, h: Head): (i: nat)
    ensures i <= |c| && (i < |c| ==> c[i].head == h)
    ensures forall k :: 0 <= k < i ==> c[k].head != h
  {
    if c == [] || c[0].head == h then 0 else 1 + FirstAdvance(c[1..], h)
  }

  /** Of two cosignatures for one cursor the earlier is for the smaller or the same head,
      and both heads were retained, in that order. */
  lemma CosignedInOrder(sha: Hash, visits: seq<Visit>, p: nat, q: nat)
    requires p <= q < |Run(sha, EMPTY, visits).cosignatures|
    requires var cs := Run(sha, EMPTY, visits).cosignatures; cs[p].key == cs[q].key
    ensures var s := Run(sha, EMPTY, visits);
            var a, b, c := s.cosignatures[p].head, s.cosignatures[q].head, HistoryOf(s, s.cosignatures[p].key);
            && a.logId == b.logId && a.size <= b.size && (a.size == b.size ==> a == b)
            && FirstAdvance(c, a) <= FirstAdvance(c, b) < |c|
  {
    hide Run, ConsistencyAccepts;
    SoundRun(sha, visits);
    CosignedRun(sha, visits);
    var s := Run(sha, EMPTY, visits);
    var a, b := s.cosignatures[p], s.cosignatures[q];
    var c := HistoryOf(s, a.key);
    assert Chain(sha, c) && Retained(s, a.key, a.head) && Retained(s, b.key, b.head);
    var i, j := FirstAdvance(c, a.head), FirstAdvance(c, b.head);
    if i <= j { ChainOrder(sha, c, i, j); } else { ChainOrder(sha, c, j, i); }
  }

  /** The collision that two cosigned heads of different logs would need. */
  function CosignedCollision(sha: Hash, c: seq<Advance>, a: Head, b: Head, small: seq<Bytes>, large: seq<Bytes>)
    : Option<Collision>
  {
    var i, j := FirstAdvance(c, a), FirstAdvance(c, b);
    if i <= j < |c| then HeadsCollision(sha, c, i, j, small, large) else None
  }

  /** Over every run against any registry the cosignatures for one cursor attest one growing
      log: the leaves behind the earlier are the first leaves behind the later, unless the
      hash function collides on two byte strings that are computed. */
  lemma OneLogBehindCosignatures(
      sha: Hash, visits: seq<Visit>, p: nat, q: nat, small: seq<Bytes>, large: seq<Bytes>)
    requires p <= q < |Run(sha, EMPTY, visits).cosignatures|
    requires var cs := Run(sha, EMPTY, visits).cosignatures;
             cs[p].key == cs[q].key && Commits(sha, cs[p].head, small) && Commits(sha, cs[q].head, large)
    ensures var s := Run(sha, EMPTY, visits);
            var a, b := s.cosignatures[p], s.cosignatures[q];
            var x := CosignedCollision(sha, HistoryOf(s, a.key), a.head, b.head, small, large);
            if x.None? then |small| <= |large| && small == large[..|small|] else IsCollision(sha, x.value)
  {
    hide Run, HeadsCollision, IsCollision, RootHash, FirstAdvance;
    CosignedInOrder(sha, visits, p, q);
    var s := Run(sha, EMPTY, visits);
    var a, b, c := s.cosignatures[p].head, s.cosignatures[q].head, HistoryOf(s, s.cosignatures[p].key);
    OneLogBehindAllHeads(sha, visits, s.cosignatures[p].key, FirstAdvance(c, a), FirstAdvance(c, b), small, large);
  }

  /** A log first witnessed empty can never be seen to grow: its cursor keeps the empty
      head over every further run, because a proof from size 0 is always refused. */
  lemma {:induction false} EmptyHeadIsFinal(sha: Hash, s: State, visits: seq<Visit>, k: Key)
    requires CursorOf(s, k).head.Some? && CursorOf(s, k).head.value.size == 0
    ensures CursorOf(Run(sha, s, visits), k).head == CursorOf(s, k).head
    decreases |visits|
  {
    hide Step;
    if visits != [] {
      var n := |visits| - 1;
      var mid := Run(sha, s, visits[..n]);
      EmptyHeadIsFinal(sha, s, visits[..n], k);
      StepIsLawful(sha, mid, visits[n]);
      var (t, o) := Step(sha, mid, visits[n]);
      if o.Witnessed? {
        var a, timestamp :| Moved(sha, mid, t, visits[n], a, timestamp);
      } else {
        HeadsKept(sha, mid, visits[n], t, o);
      }
    }
  }

  // ---- Alerts over runs ----

  lemma HistoryGrows(sha: Hash, s: State, v: Visit, k: Key)
    ensures var (t, o) := Step(sha, s, v);
            |HistoryOf(t, k)| == |HistoryOf(s, k)| + if o.Witnessed? && v.key == k then 1 else 0
  {
    hide Step, ConsistencyAccepts;
    StepIsLawful(sha, s, v);
    var (t, o) := Step(sha, s, v);
    if o.Witnessed? {
      var a, timestamp :| Moved(sha, s, t, v, a, timestamp);
    }
  }

  /** The reason of the last visit to k that ended in an alert, or `first` if none did. */
  function LastReason(sha: Hash, s: State, visits: seq<Visit>, k: Key, first: AlertReason): AlertReason
    decreases |visits|
  {
    if visits == [] then first
    else
      var n := |visits| - 1;
      var o := Step(sha, Run(sha, s, visits[..n]), visits[n]).1;
      if o.Alert? && visits[n].key == k then o.reason else LastReason(sha, s, visits[..n], k, first)
  }

  /** Over every run an alert stands until the next advance of its cursor, for the reason that the
      last alerting visit gave: neither errors, nor skips, nor other registries clear it. */
  lemma {:induction false} AlertStands(sha: Hash, s: State, visits: seq<Visit>, k: Key, first: AlertReason)
    requires CursorOf(s, k).alerted && CursorOf(s, k).reason == Some(first)
    ensures |HistoryOf(Run(sha, s, visits), k)| >= |HistoryOf(s, k)|
    ensures |HistoryOf(Run(sha, s, visits), k)| == |HistoryOf(s, k)| ==>
      var c := CursorOf(Run(sha, s, visits), k);
      c.alerted && c.reason == Some(LastReason(sha, s, visits, k, first))
    decreases |visits|
  {
    hide Step, ConsistencyAccepts;
    if visits != [] {
      var n := |visits| - 1;
      var mid, v := Run(sha, s, visits[..n]), visits[n];
      AlertStands(sha, s, visits[..n], k, first);
      HistoryGrows(sha, mid, v, k);
      StepIsLawful(sha, mid, v);
      var (t, o) := Step(sha, mid, v);
      if o.Witnessed? {
        var a, timestamp :| Moved(sha, mid, t, v, a, timestamp);
      } else if !o.Alert? {
        assert CursorOf(t, k).(failures := 0) == CursorOf(mid, k).(failures := 0);
      }
    }
  }

  /** A registry that serves a checkpoint whose signature fails under its resolved key is
      accused of it at once, and stays accused until its next advance. */
  lemma BadSignatureStands(sha: Hash, s: State, v: Visit, later: seq<Visit>)
    requires Reached(v) && v.didKnown && v.bound && v.checkpoint.value.value.timestamp - v.now <= 120_000
    requires v.keyResolved && !v.signatureValid && v.alertOk
    ensures var (t, o) := Step(sha, s, v);
            && o == Alert(CheckpointSignatureInvalid)
            && (t.events == s.events ==>
                 CursorOf(s, v.key).alerted && CursorOf(s, v.key).reason == Some(CheckpointSignatureInvalid))
            && (|HistoryOf(Run(sha, t, later), v.key)| == |HistoryOf(s, v.key)| ==>
                 var c := CursorOf(Run(sha, t, later), v.key);
                 c.alerted && c.reason == Some(LastReason(sha, t, later, v.key, CheckpointSignatureInvalid)))
  {
    hide Step, Observe, Run, LastReason, ConsistencyAccepts;
    StepOutcome(sha, s, v);
    StepIsLawful(sha, s, v);
    HistoryGrows(sha, s, v, v.key);
    AlertStands(sha, Step(sha, s, v).0, later, v.key, CheckpointSignatureInvalid);
  }

  // ---- Evidence ----

  /** Rows stay, and only their quorum can change. */
  ghost predicate EvidenceGrows(s: State, t: State) {
    forall row :: row in s.evidence ==>
      row in t.evidence && t.evidence[row].(quorum := None) == s.evidence[row].(quorum := None)
  }

  type Table = map<(string, Head), Evidence>

  /** At most this row changes: it is there if it was or is written now, with what was found if it
      is new, and otherwise with its old findings and the new quorum, if there is one. */
  ghost predicate OneRow(before: Table, after: Table, row: (string, Head), writes: bool, found: Evidence) {
    && (forall r :: r != row ==> (r in after <==> r in before))
    && (forall r :: r != row && r in before ==> after[r] == before[r])
    && (row in after <==> row in before || writes)
    && (row in after ==>
         after[row] == if row !in before then found
                       else if writes && found.quorum.Some? then before[row].(quorum := found.quorum)
                       else before[row])
  }

  lemma PersistRow(s: State, v: Visit, cp: Checkpoint, valid: bool, ok: Option<bool>, quorum: Option<Quorum.Report>)
    ensures OneRow(s.evidence, Persist(s, v, cp, valid, ok, quorum).evidence, (v.key.0, cp.head), v.persistOk,
                   Evidence(v.key.1, valid, ok, quorum))
  {
  }

  /** A visit that fetched cp writes its row: bound, dated and under a resolved key, and then
      badly signed, or compared with a head that it does not merely confirm without a quorum. */
  predicate Writes(prior: Option<Head>, v: Visit, cp: Checkpoint) {
    && v.didKnown && v.bound && cp.timestamp - v.now <= 120_000 && v.keyResolved && v.persistOk
    && (v.signatureValid ==>
         v.readOk && !Undecided(v, prior, cp) && !(prior == Some(cp.head) && v.quorum.None?))
  }

  /** What was found of its signature, of its consistency (None where there was nothing to compare
      it with), and the quorum of an accepted head. */
  function Finding(sha: Hash, prior: Option<Head>, v: Visit, cp: Checkpoint): Evidence {
    var compared := v.signatureValid && prior.Some? && prior.value.logId == cp.head.logId && prior.value != cp.head;
    var accepted := v.signatureValid && MayFollow(sha, v, prior, cp);
    Evidence(v.key.1, v.signatureValid, if compared then Some(accepted) else None, if accepted then v.quorum else None)
  }

  lemma AlertEvidence(s: State, v: Visit, reason: AlertReason)
    ensures Alerted(s, v, reason).0.evidence == s.evidence
  {
  }

  lemma RetainEvidence(s: State, v: Visit, cp: Checkpoint, via: Option<seq<string>>)
    ensures Retain(s, v, cp, via).0.evidence == s.evidence
  {
  }

  lemma ServedEvidence(sha: Hash, s: State, v: Visit, cp: Checkpoint)
    ensures var prior := CursorOf(s, v.key).head;
            var f := Finding(sha, prior, v, cp);
            CheckAndCompare(sha, s, v, cp).0.evidence ==
            if Writes(prior, v, cp) then Persist(s, v, cp, f.signatureValid, f.consistencyOk, f.quorum).evidence
            else s.evidence
  {
    hide GrowthProven, Alerted, Retain, AfterFailure, CursorOf, Persist;
    forall s', reason { AlertEvidence(s', v, reason); }
    forall s', via { RetainEvidence(s', v, cp, via); }
    forall valid, ok, quorum { PersistSkips(s, v, cp, valid, ok, quorum); }
    FailureEvidenceSame(s, v);
    GrowthHasProof(sha, cp);
    var ok := Finding(sha, CursorOf(s, v.key).head, v, cp).consistencyOk;
    if ok.Some? {
      if ok.value {
        assert ok == Some(true);
        if v.proof.Body? && v.proof.value.Some? {
          RetainEvidence(Persist(s, v, cp, true, Some(true), v.quorum), v, cp, Some(v.proof.value.value.path));
        }
      } else {
        assert ok == Some(false);
      }
    }
  }

  lemma PersistSkips(s: State, v: Visit, cp: Checkpoint, valid: bool, ok: Option<bool>, quorum: Option<Quorum.Report>)
    ensures !v.persistOk ==> Persist(s, v, cp, valid, ok, quorum) == s
  {
  }

  /** The evidence table after a visit, exactly: only the row of the checkpoint it fetched can
      change, when it is written, and how. */
  lemma EvidenceExact(sha: Hash, s: State, v: Visit)
    ensures var t := Step(sha, s, v).0;
            if !Reached(v) then t.evidence == s.evidence
            else
              var cp, prior := v.checkpoint.value.value, CursorOf(s, v.key).head;
              OneRow(s.evidence, t.evidence, (v.key.0, cp.head), Writes(prior, v, cp), Finding(sha, prior, v, cp))
  {
    hide CheckAndCompare, Alerted, AfterFailure, Writes, Finding, OneRow, Persist;
    AlertEvidence(s, v, CheckpointInvalid);
    forall s' { FailureEvidenceSame(s', v); }
    if Reached(v) {
      var cp, prior := v.checkpoint.value.value, CursorOf(s, v.key).head;
      ServedEvidence(sha, s, v, cp);
      if Writes(prior, v, cp) {
        var f := Finding(sha, prior, v, cp);
        WritesPersist(prior, v, cp);
        PersistRow(s, v, cp, f.signatureValid, f.consistencyOk, f.quorum);
        FoundBy(sha, prior, v, cp);
      } else {
        NoRow(s.evidence, (v.key.0, cp.head), Finding(sha, prior, v, cp));
      }
    }
  }

  lemma NoRow(before: Table, row: (string, Head), found: Evidence)
    ensures OneRow(before, before, row, false, found)
  {
  }

  lemma WritesPersist(prior: Option<Head>, v: Visit, cp: Checkpoint)
    requires Writes(prior, v, cp)
    ensures v.persistOk
  {
  }

  lemma FoundBy(sha: Hash, prior: Option<Head>, v: Visit, cp: Checkpoint)
    ensures Finding(sha, prior, v, cp).authority == v.key.1
  {
  }

  lemma FailureEvidenceSame(s: State, v: Visit)
    ensures AfterFailure(s, v).evidence == s.evidence
  {
  }

  /** Evidence is append-once: a visit removes no row, changes no verdict on a row, and adds at
      most the row of the checkpoint cp that it fetched. An alert over cp whose writes succeed
      leaves cp on record if and only if its reason is not `CheckpointInvalid` or the row was
      there before: an unbound or future-dated checkpoint is accused without being kept. */
  lemma EvidenceStep(sha: Hash, s: State, v: Visit, cp: Checkpoint)
    requires Serves(v) ==> cp == v.checkpoint.value.value
    ensures var (t, o) := Step(sha, s, v);
            && EvidenceGrows(s, t)
            && (forall row :: row in t.evidence ==> row in s.evidence || row == (v.key.0, cp.head))
            && var row := (v.key.0, cp.head);
               o.Alert? && v.persistOk ==> (row in t.evidence <==> o.reason != CheckpointInvalid || row in s.evidence)
  {
    hide Step, Observe, Writes, Finding, ServedTable;
    EvidenceExact(sha, s, v);
    StepOutcome(sha, s, v);
    if Reached(v) { AlertWrites(sha, CursorOf(s, v.key).head, v, cp, Observe(sha, s, v).1); }
  }

  lemma AlertWrites(sha: Hash, prior: Option<Head>, v: Visit, cp: Checkpoint, o: Outcome)
    ensures ServedTable(sha, prior, v, cp, o) && o.Alert? && v.persistOk ==>
      (Writes(prior, v, cp) <==> o.reason != CheckpointInvalid)
  {
    hide ConsistencyAccepts;
    if o.Alert? {
      match o.reason {
        case CheckpointInvalid => assert o == Alert(CheckpointInvalid);
        case CheckpointSignatureInvalid => assert o == Alert(CheckpointSignatureInvalid);
        case TreeSizeRegression => assert o == Alert(TreeSizeRegression);
        case RootMismatch => assert o == Alert(RootMismatch);
        case ConsistencyFailed => assert o == Alert(ConsistencyFailed);
        case LogIdChanged => assert o == Alert(LogIdChanged);
      }
    }
  }

  /** The failing input of "every alert keeps its evidence": a checkpoint that is accused as
      unbound or future-dated is on no record afterwards, whatever the database does. */
  lemma AccusedOffRecord(sha: Hash, s: State, v: Visit)
    requires Reached(v) && v.didKnown && v.alertOk
    requires !v.bound || v.checkpoint.value.value.timestamp - v.now > MAX_FUTURE_SKEW_MS
    requires (v.key.0, Served(v)) !in s.evidence
    ensures var (t, o) := Step(sha, s, v);
            o == Alert(CheckpointInvalid) && (v.key.0, Served(v)) !in t.evidence
  {
  }

  /** Over every run no evidence is lost or altered but for its quorum. */
  lemma {:induction false} EvidenceRun(sha: Hash, s: State, visits: seq<Visit>)
    ensures EvidenceGrows(s, Run(sha, s, visits))
    decreases |visits|
  {
    hide Step;
    if visits != [] {
      var n := |visits| - 1;
      EvidenceRun(sha, s, visits[..n]);
      var v := visits[n];
      var cp := if Serves(v) then v.checkpoint.value.value else Checkpoint(Head("", 0, ""), 0);
      EvidenceStep(sha, Run(sha, s, visits[..n]), v, cp);
      var mid, t := Run(sha, s, visits[..n]), Run(sha, s, visits);
      forall row | row in s.evidence
        ensures row in t.evidence && t.evidence[row].(quorum := None) == s.evidence[row].(quorum := None)
      {
        assert row in mid.evidence && mid.evidence[row].(quorum := None) == s.evidence[row].(quorum := None);
      }
    }
  }
}
