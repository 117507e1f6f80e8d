/** src/audit/log-inclusion-audit.service.ts: the verdict on one published event, and
    what it means for every head the checkpoint witness retains afterwards. */
module InclusionAudit {
  import opened Bytes
  import opened LogVerify
  import opened LogProofs
  import opened WitnessService
  import opened WitnessRuns
  import opened WitnessHonest

  datatype InclusionProof = InclusionProof(logId: string, leafIndex: nat, treeSize: nat, path: seq<string>,
                                           checkpoint: Option<Checkpoint>)

  datatype Answer = NotFound | HttpError | FetchFailed | Json(proof: Option<InclusionProof>)

  /** Everything the verdict depends on. `leaf` is the canonical form of the leaf rebuilt
      from the stored receipt, `witnessedRoot` the root of an evidence row of this tenant
      at the log and size of the proof's checkpoint. A `None` proof or checkpoint is one
      that its parser rejects. */
  datatype Event = Event(
    hasReceipt: bool, hasCtxId: bool, advertises: Option<bool>, baseUrlKnown: bool, leaf: Option<Bytes>,
    answer: Answer, didKnown: bool, logBound: bool, keyBound: bool, now: int, keyResolved: bool,
    signatureValid: bool, witnessedRoot: Option<string>)

  /** `Unverified` is the status 'error': the audit could not be completed. */
  datatype Verdict = Included | InvalidProof | NotLogged | NoLog | Unverified

  /** The proof belongs to the checkpoint it carries, and to what the witness saw. */
  predicate ProofBound(e: Event, p: InclusionProof, cp: Checkpoint) {
    && p.logId == cp.head.logId && p.treeSize == cp.head.size && p.leafIndex < p.treeSize
    && (e.witnessedRoot.Some? ==> e.witnessedRoot.value == cp.head.root)
  }

  function JudgeProof(sha: Hash, e: Event, leaf: Bytes, p: InclusionProof): Verdict {
    if p.checkpoint.None? then InvalidProof
    else
      var cp := p.checkpoint.value;
      if !e.didKnown then Unverified
      else if !e.logBound || !e.keyBound || cp.timestamp - e.now > MAX_FUTURE_SKEW_MS then InvalidProof
      else if !e.keyResolved then Unverified
      else if !e.signatureValid || !ProofBound(e, p, cp) then InvalidProof
      else if InclusionAccepts(sha, p.leafIndex, p.treeSize, LeafHash(sha, leaf), p.path, cp.head.root) then Included
      else InvalidProof
  }

  function Judge(sha: Hash, e: Event): Verdict {
    if !e.hasReceipt || !e.hasCtxId then Unverified
    else if e.advertises == Some(false) then NoLog
    else if e.advertises.None? || !e.baseUrlKnown || e.leaf.None? then Unverified
    else
      match e.answer
      case NotFound => NotLogged
      case HttpError => Unverified
      case FetchFailed => Unverified
      case Json(None) => InvalidProof
      case Json(Some(p)) => JudgeProof(sha, e, e.leaf.value, p)
  }

  /** The verdict, exactly, on any registry. Included takes a bound, dated and well-signed
      checkpoint that the proof belongs to and the witness does not contradict, and a path that
      folds to its root; an accusation takes a JSON answer; and what cannot be decided for the
      auditor's own surroundings accuses nobody. */
  lemma VerdictExact(sha: Hash, e: Event)
    ensures var asked := && e.hasReceipt && e.hasCtxId && e.advertises == Some(true) && e.baseUrlKnown
                         && e.leaf.Some?;
            var read := asked && e.answer.Json? && e.answer.proof.Some? && e.answer.proof.value.checkpoint.Some?;
            && (Judge(sha, e) == NoLog <==> e.hasReceipt && e.hasCtxId && e.advertises == Some(false))
            && (Judge(sha, e) == NotLogged <==> asked && e.answer == NotFound)
            && (Judge(sha, e) == InvalidProof ==> asked && e.answer.Json?)
            && (asked && e.answer.Json? && !read ==> Judge(sha, e) == InvalidProof)
            && (Judge(sha, e) == Included ==> read)
    ensures e.answer.Json? && e.answer.proof.Some? && e.answer.proof.value.checkpoint.Some?
            && e.hasReceipt && e.hasCtxId && e.advertises == Some(true) && e.baseUrlKnown && e.leaf.Some? ==>
      var p, cp := e.answer.proof.value, e.answer.proof.value.checkpoint.value;
      var bound := e.logBound && e.keyBound && cp.timestamp - e.now <= 120_000;
      var proven :=
        && e.signatureValid && p.logId == cp.head.logId && p.treeSize == cp.head.size && p.leafIndex < cp.head.size
        && (e.witnessedRoot.Some? ==> e.witnessedRoot.value == cp.head.root)
        && InclusionAccepts(sha, p.leafIndex, cp.head.size, LeafHash(sha, e.leaf.value), p.path, cp.head.root);
      && (Judge(sha, e) == Included <==> e.didKnown && bound && e.keyResolved && proven)
      && (Judge(sha, e) == InvalidProof <==> e.didKnown && (!bound || (e.keyResolved && !proven)))
  {
    hide InclusionAccepts, LeafHash;
    if e.advertises.Some? {
      if e.advertises.value { assert e.advertises == Some(true); } else { assert e.advertises == Some(false); }
    }
  }

  /** The checkpoint that an included event was proved against. */
  function ProvenHead(e: Event): Option<Head> {
    match e.answer
    case Json(Some(p)) => if p.checkpoint.Some? then Some(p.checkpoint.value.head) else None
    case _ => None
  }

  function IncludedCollision(sha: Hash, c: seq<Advance>, i: nat, j: nat, e: Event, leaves: seq<Bytes>)
    : Option<Collision>
    requires i <= j < |c|
  {
    var x := ChainCollision(sha, c, i, j, leaves);
    if x.Some? || !e.answer.Json? || e.answer.proof.None? || e.leaf.None? then x
    else
      var p := e.answer.proof.value;
      if p.leafIndex < c[i].head.size <= |leaves| then
        InclusionCollision(sha, leaves[..c[i].head.size], p.leafIndex, e.leaf.value, p.path)
      else None
  }

  /** Included stays included: an event judged included against the i-th head retained for
      a cursor has its rebuilt leaf at that same index in the log behind every head that
      cursor retains later, over every run and against any registry, unless a collision of
      the hash function is computed. */
  lemma IncludedStaysIncluded(sha: Hash, visits: seq<Visit>, k: Key, i: nat, j: nat, e: Event, leaves: seq<Bytes>)
    requires i <= j < |HistoryOf(Run(sha, EMPTY, visits), k)|
    requires Judge(sha, e) == Included
    requires var c := HistoryOf(Run(sha, EMPTY, visits), k);
             ProvenHead(e) == Some(c[i].head) && Commits(sha, c[j].head, leaves)
    ensures var c := HistoryOf(Run(sha, EMPTY, visits), k);
            var x := IncludedCollision(sha, c, i, j, e, leaves);
            if x.Some? then IsCollision(sha, x.value)
            else
              var p := e.answer.proof.value;
              p.leafIndex < |leaves| && leaves[p.leafIndex] == e.leaf.value
  {
    hide Run, InclusionAccepts, ConsistencyAccepts, InclusionCollision, ChainCollision, RootHash, IsCollision;
    SoundRun(sha, visits);
    var c := HistoryOf(Run(sha, EMPTY, visits), k);
    assert Chain(sha, c);
    ChainSound(sha, c, i, j, leaves);
    if ChainCollision(sha, c, i, j, leaves).None? {
      var p, prefix := e.answer.proof.value, leaves[..c[i].head.size];
      InclusionProofSound(sha, prefix, p.leafIndex, e.leaf.value, p.path);
    }
  }

  /** Everything but the log's own answers succeeds. */
  predicate Decidable(e: Event) {
    && e.hasReceipt && e.hasCtxId && e.advertises == Some(true) && e.baseUrlKnown && e.leaf.Some?
    && e.didKnown && e.keyResolved
  }

  /** The registry proves leaf i of its log against a signed prefix of it. */
  ghost predicate HonestAnswer(sha: Hash, log: seq<Bytes>, logId: string, i: nat, n: nat, e: Event)
    requires i < n <= |log|
  {
    && e.logBound && e.keyBound && e.signatureValid && e.leaf == Some(log[i])
    && e.answer.Json? && e.answer.proof.Some?
    && var p := e.answer.proof.value;
       && p.checkpoint.Some? && p.checkpoint.value.timestamp - e.now <= MAX_FUTURE_SKEW_MS
       && p.checkpoint.value.head == HeadAt(sha, log, logId, n)
       && p == InclusionProof(logId, i, n, AuditPath(sha, log[..n], i), p.checkpoint)
  }

  // ---- What the witness has on record ----

  /** `findByLogIdAndSize`: the root of any one row of the tenant at that log and size, or
      None when there is no such row. */
  ghost predicate LookedUp(s: State, tenant: string, logId: string, n: nat, root: Option<string>) {
    match root
    case Some(r) => (tenant, Head(logId, n, r)) in s.evidence
    case None => forall r :: (tenant, Head(logId, n, r)) !in s.evidence
  }

  /** The verdict on an honest registry, exactly, in any state of the evidence table: included,
      unless the row looked up has another root. So it is included whichever row the lookup
      returns if and only if no row of the tenant at that log and size has another root. */
  lemma HonestVerdictExact(
      sha: Hash, log: seq<Bytes>, logId: string, i: nat, n: nat, e: Event, s: State, tenant: string)
    requires i < n <= |log| && HonestAnswer(sha, log, logId, i, n, e) && Decidable(e)
    ensures forall r :: LookedUp(s, tenant, logId, n, r) ==>
      Judge(sha, e.(witnessedRoot := r)) ==
      if r.Some? && r.value != RootHash(sha, log[..n]) then InvalidProof else Included
    ensures (forall r :: LookedUp(s, tenant, logId, n, r) ==> Judge(sha, e.(witnessedRoot := r)) == Included)
       <==> (forall r :: (tenant, Head(logId, n, r)) in s.evidence ==> r == RootHash(sha, log[..n]))
  {
    hide Judge, RootHash, HonestAnswer, Decidable;
    forall r: Option<string>
      ensures Judge(sha, e.(witnessedRoot := r)) ==
              if r.Some? && r.value != RootHash(sha, log[..n]) then InvalidProof else Included
    {
      JudgedHonest(sha, log, logId, i, n, e, r);
    }
    if forall r :: LookedUp(s, tenant, logId, n, r) ==> Judge(sha, e.(witnessedRoot := r)) == Included {
      forall r | (tenant, Head(logId, n, r)) in s.evidence ensures r == RootHash(sha, log[..n]) {
        assert LookedUp(s, tenant, logId, n, Some(r));
      }
    }
  }

  lemma JudgedHonest(
      sha: Hash, log: seq<Bytes>, logId: string, i: nat, n: nat, e: Event, root: Option<string>)
    requires i < n <= |log| && HonestAnswer(sha, log, logId, i, n, e) && Decidable(e)
    ensures Judge(sha, e.(witnessedRoot := root)) ==
            if root.Some? && root.value != RootHash(sha, log[..n]) then InvalidProof else Included
  {
    hide InclusionAccepts, RootHash, AuditPath;
    InclusionProofComplete(sha, log[..n], i);
  }

  /** Every checkpoint that k serves is a signed prefix of the log, and no other key of its
      tenant serves one that passes the registry binding under that log id. */
  ghost predicate OneHonestSource(sha: Hash, log: seq<Bytes>, logId: string, visits: seq<Visit>, k: Key) {
    && (forall i :: 0 <= i < |visits| && visits[i].key == k ==> HonestCheckpoint(sha, log, logId, visits[i]))
    && (forall i :: 0 <= i < |visits| && visits[i].key.0 == k.0 && visits[i].key != k
                    && Serves(visits[i]) && visits[i].bound ==>
         Served(visits[i]).logId != logId)
  }

  /** Over such a run every row of the tenant at that log is a head of the log. */
  lemma {:induction false} HonestRows(
      sha: Hash, log: seq<Bytes>, logId: string, visits: seq<Visit>, k: Key, row: (string, Head))
    requires OneHonestSource(sha, log, logId, visits, k)
    requires row in Run(sha, EMPTY, visits).evidence && row.0 == k.0 && row.1.logId == logId
    ensures row.1.size <= |log| && row.1 == HeadAt(sha, log, logId, row.1.size)
    decreases |visits|
  {
    hide Step, RootHash;
    if visits != [] {
      var n := |visits| - 1;
      var before, v := visits[..n], visits[n];
      assert forall i :: 0 <= i < n ==> before[i] == visits[i];
      var s := Run(sha, EMPTY, before);
      if row in s.evidence {
        HonestRows(sha, log, logId, before, k, row);
      } else {
        EvidenceExact(sha, s, v);
      }
    }
  }

  /** Over every run in which one registry of the tenant serves the log, and serves it honestly,
      an honest inclusion proof is judged included whatever the lookup returns. */
  lemma HonestLogIncluded(
      sha: Hash, log: seq<Bytes>, logId: string, i: nat, n: nat, e: Event, visits: seq<Visit>, k: Key)
    requires i < n <= |log| && HonestAnswer(sha, log, logId, i, n, e) && Decidable(e)
    requires OneHonestSource(sha, log, logId, visits, k)
    requires LookedUp(Run(sha, EMPTY, visits), k.0, logId, n, e.witnessedRoot)
    ensures Judge(sha, e) == Included
  {
    hide Run, Judge, RootHash, HonestAnswer, Decidable, OneHonestSource;
    assert e.(witnessedRoot := e.witnessedRoot) == e;
    if e.witnessedRoot.Some? {
      HonestRows(sha, log, logId, visits, k, (k.0, Head(logId, n, e.witnessedRoot.value)));
    }
    JudgedHonest(sha, log, logId, i, n, e, e.witnessedRoot);
  }

  /** A visit that fetches `head` bound to its registry but with a signature that fails. */
  function BadlySigned(k: Key, head: Head): Visit {
    Visit(k, false, Some(true), true, Body(Some(Checkpoint(head, 0))), 0, true, true, true, false,
          None, Unreachable, Off, true, true, true, true, true)
  }

  /** The failing run: the row of one badly signed checkpoint, kept as evidence, is all the
      lookup finds, and every honest proof at that size is then judged invalid. */
  lemma BadlySignedRowDecides(
      sha: Hash, log: seq<Bytes>, logId: string, i: nat, n: nat, e: Event, k: Key, other: string)
    requires i < n <= |log| && HonestAnswer(sha, log, logId, i, n, e) && Decidable(e)
    requires other != RootHash(sha, log[..n])
    ensures var s := Run(sha, EMPTY, [BadlySigned(k, Head(logId, n, other))]);
            && LookedUp(s, k.0, logId, n, Some(other))
            && forall r :: LookedUp(s, k.0, logId, n, r) ==> Judge(sha, e.(witnessedRoot := r)) == InvalidProof
  {
  }
}
