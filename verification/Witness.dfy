/** src/audit/checkpoint-witness.service.ts over src/storage/log-witness.repository.ts:
    one visit to one registry, as a function of the stored tables and of every
    answer the registry and the environment may give. */
module WitnessService {
  import opened Bytes
  import opened LogVerify
  import Quorum

  /** (tenant, registry authority). */
  type Key = (string, string)

  datatype Checkpoint = Checkpoint(head: Head, timestamp: int)
  datatype ConsistencyProof = ConsistencyProof(logId: string, first: nat, second: nat, path: seq<string>)

  datatype AlertReason =
    | CheckpointInvalid
    | CheckpointSignatureInvalid
    | TreeSizeRegression
    | RootMismatch
    | ConsistencyFailed
    | LogIdChanged

  /** Threw: an exception left `witnessRegistry`; the sweep turns it into Error. */
  datatype Outcome = Witnessed | Skipped | Alert(reason: AlertReason) | Error | Threw

  /** An HTTP exchange: no usable answer, a non-2xx status, or a JSON body. */
  datatype Response<T> = Unreachable | Refused | Body(value: T)

  datatype Signing = Off | MintFails | RecordFails | Duplicate | Stored

  /** Everything outside the tables that one visit depends on. A `None` body is one
      that the closed parser rejects. The `...Ok` fields say which statements on
      the database succeed. */
  datatype Visit = Visit(
    key: Key, excluded: bool, advertises: Option<bool>, baseUrlKnown: bool,
    checkpoint: Response<Option<Checkpoint>>, now: int,
    didKnown: bool, bound: bool, keyResolved: bool, signatureValid: bool,
    quorum: Option<Quorum.Report>, proof: Response<Option<ConsistencyProof>>, signing: Signing,
    readOk: bool, persistOk: bool, advanceOk: bool, alertOk: bool, failureOk: bool)

  datatype Cursor = Cursor(head: Option<Head>, failures: nat, alerted: bool, reason: Option<AlertReason>)
  datatype Evidence = Evidence(
    authority: string, signatureValid: bool, consistencyOk: Option<bool>, quorum: Option<Quorum.Report>)
  datatype Cosignature = Cosignature(key: Key, head: Head, timestamp: int)

  /** One outgoing alert; `era` counts the advances of its cursor so far. */
  datatype AlertEvent = AlertEvent(key: Key, reason: AlertReason, era: nat)

  /** One call of `advanceCursor`, with the consistency path that justified it. */
  datatype Advance = Advance(head: Head, via: Option<seq<string>>)

  /** The tables, the emitted events, and the history of advances per cursor. */
  datatype State = State(
    cursors: map<Key, Cursor>, evidence: map<(string, Head), Evidence>,
    cosignatures: seq<Cosignature>, events: seq<AlertEvent>, history: map<Key, seq<Advance>>)

  const EMPTY := State(map[], map[], [], [], map[])
  const MAX_FUTURE_SKEW_MS := 120_000
  const NO_CURSOR := Cursor(None, 0, false, None)

  function CursorOf(s: State, k: Key): Cursor {
    if k in s.cursors then s.cursors[k] else NO_CURSOR
  }

  function HistoryOf(s: State, k: Key): seq<Advance> {
    if k in s.history then s.history[k] else []
  }

  /** The visit fetches a checkpoint that its parser accepts. */
  predicate Serves(v: Visit) {
    v.checkpoint.Body? && v.checkpoint.value.Some?
  }

  function Served(v: Visit): Head
    requires Serves(v)
  {
    v.checkpoint.value.value.head
  }

  // ---- The repository statements ----

  function AfterFailure(s: State, v: Visit): State {
    var c := CursorOf(s, v.key);
    if v.failureOk then s.(cursors := s.cursors[v.key := c.(failures := c.failures + 1)]) else s
  }

  function Persist(s: State, v: Visit, cp: Checkpoint, signatureValid: bool, consistencyOk: Option<bool>,
                   quorum: Option<Quorum.Report>): State {
    var row := (v.key.0, cp.head);
    if !v.persistOk then s
    else if row !in s.evidence then
      s.(evidence := s.evidence[row := Evidence(v.key.1, signatureValid, consistencyOk, quorum)])
    else if quorum.Some? then s.(evidence := s.evidence[row := s.evidence[row].(quorum := quorum)])
    else s
  }

  function Advanced(s: State, k: Key, head: Head, via: Option<seq<string>>): State {
    s.(cursors := s.cursors[k := Cursor(Some(head), 0, false, None)],
       history := s.history[k := HistoryOf(s, k) + [Advance(head, via)]])
  }

  function Cosigned(s: State, v: Visit, cp: Checkpoint): State {
    if v.signing.Stored? then s.(cosignatures := s.cosignatures + [Cosignature(v.key, cp.head, cp.timestamp)]) else s
  }

  // ---- The ends of a visit ----

  function Alerted(s: State, v: Visit, reason: AlertReason): (State, Outcome) {
    var c := CursorOf(s, v.key);
    if !v.alertOk then (s, Threw)
    else
      var marked := s.(cursors := s.cursors[v.key := c.(alerted := true, reason := Some(reason))]);
      var event := AlertEvent(v.key, reason, |HistoryOf(s, v.key)|);
      (if !c.alerted || c.reason != Some(reason) then marked.(events := s.events + [event]) else marked, Alert(reason))
  }

  function Retain(s: State, v: Visit, cp: Checkpoint, via: Option<seq<string>>): (State, Outcome) {
    if v.advanceOk then (Cosigned(Advanced(s, v.key, cp.head, via), v, cp), Witnessed) else (s, Threw)
  }

  // ---- The state machine against the retained head ----

  predicate GrowthProven(sha: Hash, prior: Head, cp: Checkpoint, proof: Option<ConsistencyProof>) {
    && proof.Some?
    && proof.value.logId == cp.head.logId
    && proof.value.first == prior.size
    && proof.value.second == cp.head.size
    && ConsistencyAccepts(sha, proof.value.first, proof.value.second, proof.value.path, prior.root, cp.head.root)
  }

  function Growth(sha: Hash, s: State, v: Visit, prior: Head, cp: Checkpoint): (State, Outcome) {
    match v.proof
    case Refused => Alerted(Persist(s, v, cp, true, Some(false), None), v, ConsistencyFailed)
    case Unreachable => (AfterFailure(s, v), Error)
    case Body(proof) =>
      if GrowthProven(sha, prior, cp, proof) then
        Retain(Persist(s, v, cp, true, Some(true), v.quorum), v, cp, Some(proof.value.path))
      else Alerted(Persist(s, v, cp, true, Some(false), None), v, ConsistencyFailed)
  }

  function Compare(sha: Hash, s: State, v: Visit, cp: Checkpoint): (State, Outcome) {
    match CursorOf(s, v.key).head
    case None => Retain(Persist(s, v, cp, true, None, v.quorum), v, cp, None)
    case Some(prior) =>
      if cp.head.logId != prior.logId then Alerted(Persist(s, v, cp, true, None, None), v, LogIdChanged)
      else if cp.head.size < prior.size then
        Alerted(Persist(s, v, cp, true, Some(false), None), v, TreeSizeRegression)
      else if cp.head.size == prior.size then
        if cp.head.root != prior.root then Alerted(Persist(s, v, cp, true, Some(false), None), v, RootMismatch)
        else Retain(if v.quorum.Some? then Persist(s, v, cp, true, None, v.quorum) else s, v, cp, None)
      else Growth(sha, s, v, prior, cp)
  }

  /** Section 9.3 of RFC-ACDP-0012 on a fetched checkpoint, then the comparison. */
  function CheckAndCompare(sha: Hash, s: State, v: Visit, cp: Checkpoint): (State, Outcome) {
    if !v.didKnown then (AfterFailure(s, v), Error)
    else if !v.bound || cp.timestamp - v.now > MAX_FUTURE_SKEW_MS then Alerted(s, v, CheckpointInvalid)
    else if !v.keyResolved then (AfterFailure(s, v), Error)
    else if !v.signatureValid then Alerted(Persist(s, v, cp, false, None, None), v, CheckpointSignatureInvalid)
    else if !v.readOk then (s, Threw)
    else Compare(sha, s, v, cp)
  }

  function Observe(sha: Hash, s: State, v: Visit): (State, Outcome) {
    if v.excluded || v.advertises != Some(true) then (s, Skipped)
    else if !v.baseUrlKnown then (AfterFailure(s, v), Error)
    else
      match v.checkpoint
      case Unreachable => (AfterFailure(s, v), Error)
      case Refused => (AfterFailure(s, v), Error)
      case Body(None) => Alerted(s, v, CheckpointInvalid)
      case Body(Some(cp)) => CheckAndCompare(sha, s, v, cp)
  }

  /** One visit of a sweep: an exception is recorded as a failure of that registry only. */
  function Step(sha: Hash, s: State, v: Visit): (State, Outcome) {
    var (t, o) := Observe(sha, s, v);
    if o.Threw? then (AfterFailure(t, v), Error) else (t, o)
  }

  /** Any number of sweeps: the visits in the order they happen. */
  function Run(sha: Hash, s: State, visits: seq<Visit>): State
    decreases |visits|
  {
    if visits == [] then s else Step(sha, Run(sha, s, visits[..|visits| - 1]), visits[|visits| - 1]).0
  }

  // ---- What a visit accepts ----

  /** The tables that a cosignature can rest on are as they were. */
  ghost predicate HeadsUntouched(s: State, t: State) {
    && t.history == s.history && t.cosignatures == s.cosignatures
    && forall k :: CursorOf(t, k).head == CursorOf(s, k).head
  }

  /** cp is the first head, the retained head again, or a longer log proved consistent with it. */
  predicate MayFollow(sha: Hash, v: Visit, prior: Option<Head>, cp: Checkpoint) {
    || prior.None?
    || prior.value == cp.head
    || (prior.value.logId == cp.head.logId && prior.value.size < cp.head.size
        && v.proof.Body? && GrowthProven(sha, prior.value, cp, v.proof.value))
  }

  /** A longer log whose consistency proof cannot be fetched: neither accepted nor accused. */
  predicate Undecided(v: Visit, prior: Option<Head>, cp: Checkpoint) {
    prior.Some? && prior.value.logId == cp.head.logId && prior.value.size < cp.head.size && v.proof.Unreachable?
  }

  function Blame(prior: Head, served: Head): AlertReason {
    if served.logId != prior.logId then LogIdChanged
    else if served.size < prior.size then TreeSizeRegression
    else if served.size == prior.size then RootMismatch
    else ConsistencyFailed
  }

  predicate Reached(v: Visit) {
    !v.excluded && v.advertises == Some(true) && v.baseUrlKnown && Serves(v)
  }

  lemma AlertedHeads(s: State, v: Visit, reason: AlertReason)
    ensures var (t, o) := Alerted(s, v, reason);
            HeadsUntouched(s, t) && o == if v.alertOk then Alert(reason) else Threw
  {
  }

  lemma AlertedUntouched(s: State, v: Visit, cp: Checkpoint, valid: bool, ok: Option<bool>, reason: AlertReason)
    ensures var (t, o) := Alerted(Persist(s, v, cp, valid, ok, None), v, reason);
            HeadsUntouched(s, t) && o == if v.alertOk then Alert(reason) else Threw
  {
    hide Alerted;
    AlertedHeads(Persist(s, v, cp, valid, ok, None), v, reason);
  }

  lemma GrowthHasProof(sha: Hash, cp: Checkpoint)
    ensures forall h: Head :: !GrowthProven(sha, h, cp, None)
  {
  }

  lemma RetainedMoves(s: State, v: Visit, cp: Checkpoint, ok: Option<bool>, via: Option<seq<string>>)
    ensures var (t, o) := Retain(Persist(s, v, cp, true, ok, v.quorum), v, cp, via);
            && o == (if v.advanceOk then Witnessed else Threw)
            && if v.advanceOk then CursorOf(t, v.key).head == Some(cp.head) else HeadsUntouched(s, t)
    ensures var (t, o) := Retain(s, v, cp, via);
            && o == (if v.advanceOk then Witnessed else Threw)
            && if v.advanceOk then CursorOf(t, v.key).head == Some(cp.head) else HeadsUntouched(s, t)
  {
  }

  lemma FailureUntouched(s: State, v: Visit)
    ensures HeadsUntouched(s, AfterFailure(s, v)) && HeadsUntouched(s, s)
  {
  }

  /** The comparison accepts exactly what may follow the retained head, accuses exactly what may
      not and for the reason that tells it apart, and otherwise leaves every head alone. */
  lemma CompareExact(sha: Hash, s: State, v: Visit, cp: Checkpoint)
    ensures var (t, o) := Compare(sha, s, v, cp);
            var prior := CursorOf(s, v.key).head;
            && (o.Witnessed? <==> v.advanceOk && MayFollow(sha, v, prior, cp))
            && (o.Alert? <==> v.alertOk && !MayFollow(sha, v, prior, cp) && !Undecided(v, prior, cp))
            && (o.Alert? ==> o.reason == Blame(prior.value, cp.head))
            && (if o.Witnessed? then CursorOf(t, v.key).head == Some(cp.head) else HeadsUntouched(s, t))
  {
    hide GrowthProven, HeadsUntouched, Alerted, Retain, AfterFailure, Persist;
    AlertedUntouched(s, v, cp, true, None, LogIdChanged);
    AlertedUntouched(s, v, cp, true, Some(false), TreeSizeRegression);
    AlertedUntouched(s, v, cp, true, Some(false), RootMismatch);
    AlertedUntouched(s, v, cp, true, Some(false), ConsistencyFailed);
    RetainedMoves(s, v, cp, None, None);
    if v.proof.Body? && v.proof.value.Some? {
      RetainedMoves(s, v, cp, Some(true), Some(v.proof.value.value.path));
    }
    GrowthHasProof(sha, cp);
    FailureUntouched(s, v);
  }

  /** A visit that ends witnessed retains what it fetched; every other end leaves every head alone. */
  lemma ObserveKeepsHeads(sha: Hash, s: State, v: Visit)
    ensures var (t, o) := Observe(sha, s, v);
            if o.Witnessed? then Serves(v) && CursorOf(t, v.key).head == Some(Served(v)) else HeadsUntouched(s, t)
  {
    hide Compare, MayFollow, Alerted, AfterFailure, Persist, HeadsUntouched;
    AlertedHeads(s, v, CheckpointInvalid);
    FailureUntouched(s, v);
    if Serves(v) {
      var cp := v.checkpoint.value.value;
      CompareExact(sha, s, v, cp);
      AlertedUntouched(s, v, cp, false, None, CheckpointSignatureInvalid);
    }
  }

  /** The end of a visit, decided by its answers alone. Against the head retained so far a served
      checkpoint is accused for one reason at most; an exception replaces an accusation or an
      advance that the database refuses, and everything else ends in Error. */
  ghost predicate OutcomeTable(sha: Hash, prior: Option<Head>, v: Visit, o: Outcome) {
    var asked := !v.excluded && v.advertises == Some(true);
    && (o == Skipped <==> !asked)
    && (o.Alert? ==> v.alertOk && asked && v.baseUrlKnown && v.checkpoint.Body?)
    && match v.checkpoint
       case Unreachable => asked ==> o == Error
       case Refused => asked ==> o == Error
       case Body(None) =>
         asked ==> o == if !v.baseUrlKnown then Error else if v.alertOk then Alert(CheckpointInvalid) else Threw
       case Body(Some(cp)) => asked ==> if v.baseUrlKnown then ServedTable(sha, prior, v, cp, o) else o == Error
  }

  ghost predicate ServedTable(sha: Hash, prior: Option<Head>, v: Visit, cp: Checkpoint, o: Outcome) {
    var dated := cp.timestamp - v.now <= 120_000;
    var signed := v.didKnown && v.bound && dated && v.keyResolved && v.signatureValid;
    var same := prior.Some? && prior.value.logId == cp.head.logId;
    var grown := same && prior.value.size < cp.head.size;
    var proven := grown && v.proof.Body? && v.proof.value.Some?
                  && v.proof.value.value.logId == cp.head.logId
                  && v.proof.value.value.first == prior.value.size && v.proof.value.value.second == cp.head.size
                  && ConsistencyAccepts(sha, prior.value.size, cp.head.size, v.proof.value.value.path,
                                        prior.value.root, cp.head.root);
    var accepted := signed && v.readOk && (prior.None? || prior.value == cp.head || proven);
    && o != Skipped
    && (o == Alert(CheckpointInvalid) <==> v.alertOk && v.didKnown && !(v.bound && dated))
    && (o == Alert(CheckpointSignatureInvalid) <==>
         v.alertOk && v.didKnown && v.bound && dated && v.keyResolved && !v.signatureValid)
    && (o == Alert(LogIdChanged) <==> v.alertOk && signed && v.readOk && prior.Some? && !same)
    && (o == Alert(TreeSizeRegression) <==>
         v.alertOk && signed && v.readOk && same && cp.head.size < prior.value.size)
    && (o == Alert(RootMismatch) <==>
         && v.alertOk && signed && v.readOk && same
         && cp.head.size == prior.value.size && cp.head.root != prior.value.root)
    && (o == Alert(ConsistencyFailed) <==>
         v.alertOk && signed && v.readOk && grown && !proven && !v.proof.Unreachable?)
    && (o == Witnessed <==> v.advanceOk && accepted)
    && (o == Error <==> !v.didKnown || (v.bound && dated && !v.keyResolved)
                        || (signed && v.readOk && grown && v.proof.Unreachable?))
  }

  /** The checkpoint cannot be judged: no DID, no key, no database, or no answer to the request
      for a consistency proof that a longer log needs. */
  predicate Hindered(prior: Option<Head>, v: Visit, cp: Checkpoint) {
    || !v.didKnown
    || (v.bound && cp.timestamp - v.now <= 120_000
        && (|| !v.keyResolved
            || (v.signatureValid && (!v.readOk || Undecided(v, prior, cp)))))
  }

  lemma RetainEnds(s: State, v: Visit, cp: Checkpoint, via: Option<seq<string>>)
    ensures Retain(s, v, cp, via).1 == if v.advanceOk then Witnessed else Threw
  {
  }

  lemma ServedOutcome(sha: Hash, s: State, v: Visit, cp: Checkpoint)
    ensures ServedTable(sha, CursorOf(s, v.key).head, v, cp, CheckAndCompare(sha, s, v, cp).1)
  {
    hide ConsistencyAccepts, Alerted, Retain, Persist, AfterFailure, CursorOf;
    forall s', reason { AlertedHeads(s', v, reason); }
    forall s', via { RetainEnds(s', v, cp, via); }
  }

  /** Exactly when a visit accuses, and of what; when it advances; and that nothing but the
      registry's own answers ever accuses it. */
  lemma VisitOutcome(sha: Hash, s: State, v: Visit)
    ensures OutcomeTable(sha, CursorOf(s, v.key).head, v, Observe(sha, s, v).1)
  {
    hide CheckAndCompare, Alerted, ServedTable, AfterFailure, CursorOf;
    AlertedHeads(s, v, CheckpointInvalid);
    if Serves(v) {
      ServedOutcome(sha, s, v, v.checkpoint.value.value);
      ServedAlert(sha, CursorOf(s, v.key).head, v, v.checkpoint.value.value, Observe(sha, s, v).1);
    }
  }

  lemma ServedAlert(sha: Hash, prior: Option<Head>, v: Visit, cp: Checkpoint, o: Outcome)
    ensures ServedTable(sha, prior, v, cp, o) ==> o != Skipped && (o.Alert? ==> v.alertOk)
    ensures ServedTable(sha, prior, v, cp, o) && Hindered(prior, v, cp) ==> !o.Alert? && !o.Witnessed?
  {
    hide ConsistencyAccepts;
    if o.Alert? {
      match o.reason {
        case CheckpointInvalid => assert o == Alert(CheckpointInvalid);
        case CheckpointSignatureInvalid => assert o == Alert(CheckpointSignatureInvalid);
        case TreeSizeRegression => assert o == Alert(TreeSizeRegression);
        case RootMismatch => assert o == Alert(RootMismatch);
        case ConsistencyFailed => assert o == Alert(ConsistencyFailed);
        case LogIdChanged => assert o == Alert(LogIdChanged);
      }
    }
  }

  // ---- The service ----

  class CheckpointWitness {
    var cursors: map<Key, Cursor>
    var evidence: map<(string, Head), Evidence>
    var cosignatures: seq<Cosignature>
    var events: seq<AlertEvent>
    var history: map<Key, seq<Advance>>

    function Tables(): State
      reads this
    {
      State(cursors, evidence, cosignatures, events, history)
    }

    constructor ()
      ensures Tables() == EMPTY
    {
      cursors, evidence, cosignatures, events, history := map[], map[], [], [], map[];
    }

    method RecordFailureSafe(v: Visit)
      modifies this
      ensures Tables() == AfterFailure(old(Tables()), v)
      ensures HeadsUntouched(old(Tables()), Tables()) && evidence == old(evidence) && events == old(events)
      ensures forall k ::
        var c, c' := CursorOf(old(Tables()), k), CursorOf(Tables(), k);
        c' == c.(failures := c'.failures) && c'.failures == c.failures + if k == v.key && v.failureOk then 1 else 0
    {
      if v.failureOk {
        var c := CursorOf(Tables(), v.key);
        cursors := cursors[v.key := c.(failures := c.failures + 1)];
      }
    }

    method PersistCheckpointSafe(v: Visit, cp: Checkpoint, signatureValid: bool, consistencyOk: Option<bool>,
                                 quorum: Option<Quorum.Report>)
      modifies this
      ensures Tables() == Persist(old(Tables()), v, cp, signatureValid, consistencyOk, quorum)
      ensures Tables() == old(Tables()).(evidence := evidence)
      ensures forall row :: row in evidence <==> row in old(evidence) || (v.persistOk && row == (v.key.0, cp.head))
      ensures forall row :: row in old(evidence) ==>
        evidence[row].(quorum := None) == old(evidence)[row].(quorum := None)
    {
      if !v.persistOk { return; }
      var row := (v.key.0, cp.head);
      var inserted := row !in evidence;
      if inserted {
        evidence := evidence[row := Evidence(v.key.1, signatureValid, consistencyOk, quorum)];
      } else if quorum.Some? {
        evidence := evidence[row := evidence[row].(quorum := quorum)];
      }
    }

    method RaiseAlert(v: Visit, reason: AlertReason) returns (o: Outcome)
      modifies this
      ensures (Tables(), o) == Alerted(old(Tables()), v, reason)
      ensures o == if v.alertOk then Alert(reason) else Threw
      ensures HeadsUntouched(old(Tables()), Tables()) && evidence == old(evidence)
      ensures forall k :: k != v.key ==> CursorOf(Tables(), k) == CursorOf(old(Tables()), k)
      ensures v.alertOk ==> CursorOf(Tables(), v.key).alerted && CursorOf(Tables(), v.key).reason == Some(reason)
      ensures var was := CursorOf(old(Tables()), v.key);
              |events| == |old(events)| + if v.alertOk && !(was.alerted && was.reason == Some(reason)) then 1 else 0
    {
      if !v.alertOk { return Threw; }
      var previous := CursorOf(Tables(), v.key);
      cursors := cursors[v.key := previous.(alerted := true, reason := Some(reason))];
      var isTransition := !previous.alerted || previous.reason != Some(reason);
      if isTransition {
        events := events + [AlertEvent(v.key, reason, |HistoryOf(Tables(), v.key)|)];
      }
      return Alert(reason);
    }

    method AdvanceAndCosign(v: Visit, cp: Checkpoint, via: Option<seq<string>>) returns (o: Outcome)
      modifies this
      ensures (Tables(), o) == Retain(old(Tables()), v, cp, via)
      ensures if v.advanceOk then o == Witnessed else o == Threw && Tables() == old(Tables())
      ensures o == Witnessed ==> CursorOf(Tables(), v.key) == Cursor(Some(cp.head), 0, false, None)
      ensures forall k :: k != v.key ==> CursorOf(Tables(), k) == CursorOf(old(Tables()), k)
      ensures cosignatures == old(cosignatures)
                + if o == Witnessed && v.signing.Stored? then [Cosignature(v.key, cp.head, cp.timestamp)] else []
      ensures evidence == old(evidence) && events == old(events)
    {
      if !v.advanceOk { return Threw; }
      cursors := cursors[v.key := Cursor(Some(cp.head), 0, false, None)];
      history := history[v.key := HistoryOf(Tables(), v.key) + [Advance(cp.head, via)]];
      if v.signing.Stored? {
        cosignatures := cosignatures + [Cosignature(v.key, cp.head, cp.timestamp)];
      }
      return Witnessed;
    }

    method VerifyGrowth(sha: Hash, v: Visit, prior: Head, cp: Checkpoint) returns (o: Outcome)
      modifies this
      ensures (Tables(), o) == Growth(sha, old(Tables()), v, prior, cp)
    {
      match v.proof {
        case Refused =>
          PersistCheckpointSafe(v, cp, true, Some(false), None);
          o := RaiseAlert(v, ConsistencyFailed);
        case Unreachable =>
          RecordFailureSafe(v);
          o := Error;
        case Body(parsed) =>
          var folded := false;
          if parsed.Some? && parsed.value.logId == cp.head.logId && parsed.value.first == prior.size
             && parsed.value.second == cp.head.size {
            folded := VerifyConsistencyPath(
              sha, parsed.value.first, parsed.value.second, parsed.value.path, prior.root, cp.head.root);
          }
          if !folded {
            PersistCheckpointSafe(v, cp, true, Some(false), None);
            o := RaiseAlert(v, ConsistencyFailed);
          } else {
            PersistCheckpointSafe(v, cp, true, Some(true), v.quorum);
            o := AdvanceAndCosign(v, cp, Some(parsed.value.path));
          }
      }
    }

    method WitnessRegistry(sha: Hash, v: Visit) returns (o: Outcome)
      modifies this
      ensures (Tables(), o) == Observe(sha, old(Tables()), v)
      ensures OutcomeTable(sha, CursorOf(old(Tables()), v.key).head, v, o)
      ensures if o.Witnessed? then Serves(v) && CursorOf(Tables(), v.key).head == Some(Served(v))
              else HeadsUntouched(old(Tables()), Tables())
    {
      ObserveKeepsHeads(sha, Tables(), v);
      VisitOutcome(sha, Tables(), v);
      if v.excluded || v.advertises != Some(true) { return Skipped; }
      if !v.baseUrlKnown || !v.checkpoint.Body? {
        RecordFailureSafe(v);
        return Error;
      }
      if v.checkpoint.value.None? {
        o := RaiseAlert(v, CheckpointInvalid);
        return;
      }
      var cp := v.checkpoint.value.value;
      if !v.didKnown {
        RecordFailureSafe(v);
        return Error;
      }
      if !v.bound || cp.timestamp - v.now > MAX_FUTURE_SKEW_MS {
        o := RaiseAlert(v, CheckpointInvalid);
        return;
      }
      if !v.keyResolved {
        RecordFailureSafe(v);
        return Error;
      }
      if !v.signatureValid {
        PersistCheckpointSafe(v, cp, false, None, None);
        o := RaiseAlert(v, CheckpointSignatureInvalid);
        return;
      }
      if !v.readOk { return Threw; }
      o := CompareWithRetained(sha, v, cp);
    }

    method CompareWithRetained(sha: Hash, v: Visit, cp: Checkpoint) returns (o: Outcome)
      modifies this
      ensures (Tables(), o) == Compare(sha, old(Tables()), v, cp)
      ensures var prior := CursorOf(old(Tables()), v.key).head;
              && (o.Witnessed? <==> v.advanceOk && MayFollow(sha, v, prior, cp))
              && (o.Alert? <==> v.alertOk && !MayFollow(sha, v, prior, cp) && !Undecided(v, prior, cp))
              && (o.Alert? ==> o.reason == Blame(prior.value, cp.head))
      ensures if o.Witnessed? then CursorOf(Tables(), v.key).head == Some(cp.head)
              else HeadsUntouched(old(Tables()), Tables())
    {
      CompareExact(sha, Tables(), v, cp);
      var retained := CursorOf(Tables(), v.key).head;
      if retained.None? {
        PersistCheckpointSafe(v, cp, true, None, v.quorum);
        o := AdvanceAndCosign(v, cp, None);
        return;
      }
      var prior := retained.value;
      if cp.head.logId != prior.logId {
        PersistCheckpointSafe(v, cp, true, None, None);
        o := RaiseAlert(v, LogIdChanged);
      } else if cp.head.size < prior.size {
        PersistCheckpointSafe(v, cp, true, Some(false), None);
        o := RaiseAlert(v, TreeSizeRegression);
      } else if cp.head.size > prior.size {
        o := VerifyGrowth(sha, v, prior, cp);
      } else if cp.head.root != prior.root {
        PersistCheckpointSafe(v, cp, true, Some(false), None);
        o := RaiseAlert(v, RootMismatch);
      } else {
        if v.quorum.Some? { PersistCheckpointSafe(v, cp, true, None, v.quorum); }
        o := AdvanceAndCosign(v, cp, None);
      }
    }

    /** One registry of a sweep: an exception stays with that registry. */
    method VisitRegistry(sha: Hash, v: Visit) returns (o: Outcome)
      modifies this
      ensures (Tables(), o) == Step(sha, old(Tables()), v)
    {
      hide Observe;
      o := WitnessRegistry(sha, v);
      if o.Threw? {
        RecordFailureSafe(v);
        o := Error;
      }
    }

    /** One pass over the enrolled registries; nothing happens without the advisory lock. */
    method Sweep(sha: Hash, acquired: bool, visits: seq<Visit>) returns (outcomes: seq<Outcome>)
      modifies this
      ensures Tables() == if acquired then Run(sha, old(Tables()), visits) else old(Tables())
      ensures |outcomes| == if acquired then |visits| else 0
      ensures forall i :: 0 <= i < |outcomes| ==>
        outcomes[i] == Step(sha, Run(sha, old(Tables()), visits[..i]), visits[i]).1
    {
      hide Step, Run;
      outcomes := [];
      if !acquired { return; }
      RunStep(sha, Tables(), visits, 0);
      for i := 0 to |visits|
        invariant |outcomes| == i
        invariant Tables() == Run(sha, old(Tables()), visits[..i])
        invariant forall j :: 0 <= j < i ==> outcomes[j] == Step(sha, Run(sha, old(Tables()), visits[..j]), visits[j]).1
      {
        var o := VisitRegistry(sha, visits[i]);
        RunStep(sha, old(Tables()), visits, i);
        outcomes := outcomes + [o];
      }
      assert visits[..|visits|] == visits;
    }
  }

  lemma RunStep(sha: Hash, s: State, visits: seq<Visit>, i: nat)
    requires i <= |visits|
    ensures i == 0 ==> Run(sha, s, visits[..i]) == s
    ensures i < |visits| ==> Run(sha, s, visits[..i + 1]) == Step(sha, Run(sha, s, visits[..i]), visits[i]).0
  {
    hide Step;
    if i < |visits| { assert visits[..i + 1][..i] == visits[..i]; }
  }
}
