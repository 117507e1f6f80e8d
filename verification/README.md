# ACDP control plane: a Dafny model of its hard core

The control plane watches registries that keep append-only transparency logs, propagates
token revocations between issuers, and answers for its own health. This project models the
parts of it whose correctness cannot be read off one function body, and proves what they
guarantee.

- **Transparency log** (`PowersOfTwo`, `MerkleTree`, `MerkleProofs`, `LogVerify`, `LogProofs`).
  The tree hash, audit paths and consistency proofs of section 2.1 of RFC 9162 are defined from
  the root down. The verifiers of `src/audit/log-verify.ts` are loops over two shifted
  integers. The bridge is one level of the tree at a time: hashing neighbours keeps the root,
  and a proof loses at most its first element. SHA-256 is a parameter about which nothing is
  assumed; every soundness statement ends in "or these two byte strings collide", and the
  strings are computed by functions (`InclusionCollision`, `ConsistencyCollision`,
  `RootCollision`, `ChainCollision`, `HeadsCollision`, `CosignedCollision`), not merely said to
  exist.
- **Checkpoint witness** (`WitnessService`, `WitnessRuns`, `WitnessHonest`, `InclusionAudit`).
  One visit to a registry is a function of the stored tables and of every answer the registry, the
  network and the database may give; `CheckpointWitness` is the service that computes it. Runs
  are arbitrary sequences of visits.
- **Revocation feed** (`RevocationStore`, `RevocationRepository`, `RevocationPoller`,
  `RevocationFeed`). The server's store and its pages, the client's poll, and the protocol of
  the two as a state machine whose runs are all interleavings of revocations, expiry,
  overlapping and failing polls, and restarts.
- **Multibase** (`Positional`, `Multibase`). Base58 and the multibase form of Ed25519 keys.
- **Controllers** (`Readiness`, `Shutdown`). The readiness probe and the shutdown handler as the
  callbacks that drive them, in every order.
- **Folds** (`Quorum`, `Lineage`, `TrustProxy`). Witness quorum, lineage walk, and the IPv6
  range test.

Objects that the source updates in place are classes whose methods are proved equal to a
function of their old state; properties of runs are proved of those functions.

Five findings about the code:

- `isPowerOfTwo` (src/audit/log-verify.ts:538-540) sees only 32 bits. Soundness does not depend
  on it. Completeness does: an honest consistency proof from size m is accepted if and only if
  m is not `Misjudged`, that is, above 2^32, not a power of two, and with its low 32 bits zero
  or a power of two. The smallest such size is 2^32 + 1.
- A log first witnessed at size 0 can never be advanced past (`EmptyHeadIsFinal`), because the
  fold refuses every proof from size 0; an honest registry that starts empty is accused at its
  first growth (`EmptyThenGrown`).
- Not every alert keeps its evidence, although src/audit/checkpoint-witness.service.ts:36 says
  so: a parsed checkpoint that is accused as unbound or future-dated (lines 327 and 336 of that
  file) is not stored. `EvidenceStep` gives the exact condition, `AccusedOffRecord` the input.
- The inclusion audit compares a proof with any stored row at its log and size
  (src/audit/log-inclusion-audit.service.ts:307-326), and rows of checkpoints whose signature
  failed are stored too. An honest proof is therefore judged included, whichever row is found,
  if and only if no stored row of the tenant has another root (`HonestVerdictExact`).
  `BadlySignedRowDecides` is a run of one visit after which it is not; `HonestLogIncluded`
  shows that it always is while every bound checkpoint of that log is honest.
- `base58btcDecode` returns one zero byte too many exactly on strings of `1`s only
  (src/common/multibase.ts:132-134), so the raw codec is an inverse pair exactly off the
  all-zero inputs. Ed25519 keys are not affected.

Where comments and code disagree the model follows the code: `RevocationRepository.listSince`
documents a next cursor whenever a page is full, while the in-memory repository returns one
exactly when records remain; `cosignSafe` is documented as idempotent per head, while it mints
anew at each observation.

## Model

| member | source | states |
|---|---|---|
| `PowersOfTwo.JsIsPowerOfTwoExact` | src/audit/log-verify.ts:538-540 | The 32-bit test accepts exactly the powers of two and the misjudged sizes above 2^32. |
| `PowersOfTwo.SplitPointLargest` | src/audit/log-verify.ts:408-411 | The tree that the verifiers fold splits at the largest power of two smaller than its size, as section 2.1.1 of RFC 9162 asks. |
| `MerkleTree.MthPairUp` | src/audit/log-verify.ts:403-406 | Hashing neighbouring nodes together, an odd last one moving up unchanged, keeps the root of section 2.1.1 of RFC 9162. |
| `MerkleTree.PathPairUp` | src/audit/log-verify.ts:428-448 | One level up, an audit path loses exactly the sibling of its node, if there is one. |
| `MerkleTree.SubProofKnown` | src/audit/log-verify.ts:497-498 | A consistency proof omits the root of the first tree exactly when the first size is a power of two. |
| `MerkleProofs.InclusionSound` | src/audit/log-verify.ts:428-453 | Over any node function: a path that folds from index i to the root is the audit path of i and starts at the i-th leaf hash, or two different pairs of nodes with one hash are computed. |
| `MerkleProofs.FoldLength` | src/audit/log-verify.ts:431-449 | Whatever the hashes, the fold reaches its end exactly on paths as long as the audit path. |
| `MerkleProofs.FoldBothFirst` | src/audit/log-verify.ts:508-526 | Along the audit path of i the first running root collects exactly the subtrees left of i. |
| `MerkleProofs.ConsistencySound` | src/audit/log-verify.ts:500-534 | Over any node function: a proof that folds to the root of n leaves has folded the root of the first m of them and is the proof of section 2.1.4.1 of RFC 9162, or a clash is computed. |
| `MerkleProofs.ConsistencyComplete` | src/audit/log-verify.ts:500-534 | The proof of section 2.1.4.1 of RFC 9162, led by the shared node, folds to both roots for all 0 < m < n. |
| `LogVerify.VerifyInclusionPath` | src/audit/log-verify.ts:412-454 | The loop accepts exactly the inputs whose path decodes and whose fold is the expected root. |
| `LogVerify.VerifyConsistencyPath` | src/audit/log-verify.ts:462-536 | The loops accept exactly: equal sizes with an empty path and equal roots, or 0 < first < second with a non-empty path that folds to both roots. |
| `Bytes.WireCanonical` | src/audit/log-verify.ts:383-387 | A digest has exactly one wire form, so comparing wire strings compares digests. |
| `Bytes.WireForm` | src/audit/log-verify.ts:383-387 | A string decodes exactly when it matches `^sha256:[0-9a-f]{64}$`, and each byte is spelled by its two lower-case hexadecimal digits in place. |
| `LogProofs.InclusionProofSound` | src/audit/log-verify.ts:412-454 | An accepted inclusion proof against the root of a log shows its leaf at that index by the one audit path, or a hash collision is computed. |
| `LogProofs.InclusionProofComplete` | src/audit/log-verify.ts:412-454 | The audit path of every leaf of every log is accepted. |
| `LogProofs.InclusionProofLength` | src/audit/log-verify.ts:431-449 | Longer and shorter paths are rejected, whatever they hold. |
| `LogProofs.InclusionRootUnique` | src/audit/log-verify.ts:412-454 | Only well-formed wire hashes are accepted, and a proof is accepted against one root only. |
| `LogProofs.ConsistencyProofSound` | src/audit/log-verify.ts:462-536 | An accepted consistency proof to the root of a log shows that the retained root is the root of its first m leaves, for every m; off the misjudged sizes the proof is the one of RFC 9162; or a collision is computed. |
| `LogProofs.ConsistencyProofComplete` | src/audit/log-verify.ts:486-540 | The honest proof is accepted if and only if the first size is not misjudged by the power-of-two test. |
| `LogProofs.HonestProofRefused` | src/audit/log-verify.ts:538-540 | The honest proof from size 2^32 + 1 is refused, and no smaller size is misjudged. |
| `LogProofs.ConsistencyEdges` | src/audit/log-verify.ts:462-500 | Equal sizes are accepted exactly with an empty path and one well-formed root twice; otherwise only 0 < first < second with a path, and never a malformed hash. |
| `LogProofs.RootBinding` | src/audit/log-verify.ts:389-406 | Two logs of any sizes with one root are one log, or a collision is computed; leaf and node tags are what makes it so. |
| `LogProofs.RootIsTreeHash` | src/audit/log-verify.ts:389-406 | The root byte for byte: the empty hash, 0x00 before a leaf, 0x01 before two roots split at the largest power of two below the size. |
| `LogProofs.SmallRoots` | src/audit/log-verify.ts:396-406 | The roots of all logs of one and of two leaves, as hashes of literal bytes. |
| `WitnessService.CheckpointWitness.WitnessRegistry` | src/audit/checkpoint-witness.service.ts:240-366 | The end of a visit as a table of its answers: each of the six accusations exactly when the answers call for it, witnessed exactly on a checked checkpoint that may follow the retained head, skipped exactly when not asked for; only a witnessed visit touches heads, history or cosignatures. |
| `WitnessService.CheckpointWitness.CompareWithRetained` | src/audit/checkpoint-witness.service.ts:374-472 | Witnessed exactly on a first head, the same head, or a proven longer log; accused exactly on the rest, unless the proof cannot be fetched, and for the reason that tells changed log, regression, split view and failed consistency apart; no accusation moves a head. |
| `WitnessService.CheckpointWitness.VerifyGrowth` | src/audit/checkpoint-witness.service.ts:480-563 | Growth advances and cosigns only on a bound consistency proof that verifies against the retained root. |
| `WitnessService.CheckpointWitness.RaiseAlert` | src/audit/checkpoint-witness.service.ts:664-713 | All heads, evidence and other cursors stay; the cursor carries the reason; one event is sent exactly when the mark succeeds and is new or changes its reason. |
| `WitnessService.CheckpointWitness.AdvanceAndCosign` | src/storage/log-witness.repository.ts:200-243 | The retained head is replaced and its alert cleared, other cursors, evidence and events stay; one cosignature is added exactly when the advance and the cosignature are stored; a failed advance changes nothing. |
| `WitnessService.CheckpointWitness.PersistCheckpointSafe` | src/audit/checkpoint-witness.service.ts:715-776 | Only evidence changes: exactly the row of tenant and head is added, once, and an existing row changes nothing but its quorum. |
| `WitnessService.CheckpointWitness.RecordFailureSafe` | src/storage/log-witness.repository.ts:297-315 | One failure is counted for the visited cursor; heads, alerts, evidence, events and every other cursor stay. |
| `WitnessService.CheckpointWitness.Sweep` | src/audit/checkpoint-witness.service.ts:206-237 | A sweep is the run of its visits, with one outcome each; an exception becomes an error of its own registry; without the lock nothing happens. |
| `WitnessService.VisitOutcome` | src/audit/checkpoint-witness.service.ts:240-563 | For every state and visit the outcome is the one of the table: which reason, if and only if which answers. |
| `WitnessRuns.FailuresExact` | src/storage/log-witness.repository.ts:297-315 | A failure is counted exactly at an error, once, and cleared by an advance; no visit changes another cursor. |
| `WitnessRuns.EnvironmentNeverAccuses` | src/audit/checkpoint-witness.service.ts:265-366 | An unknown address or DID, an unreachable checkpoint or proof, an unresolved key or an unreadable database never alerts and leaves alert and events alone. |
| `WitnessRuns.StepIsLawful` | src/audit/checkpoint-witness.service.ts:374-563 | Every step keeps all retained heads, or moves the visited one to the same head or to a proven longer log. |
| `WitnessRuns.RetainedHeadGrows` | src/audit/checkpoint-witness.service.ts:411-431 | Over any run a retained log never changes and its size never shrinks, and visits to other registries leave it alone. |
| `WitnessRuns.CosignedIsRetained` | src/audit/checkpoint-witness.service.ts:543-634 | A cosignature is made exactly at an advance whose minting and storing succeed, for the head just retained and with its checkpoint's time. |
| `WitnessRuns.RetainedInOrder` | src/audit/checkpoint-witness.service.ts:411-452 | Over every run two heads retained for one cursor have one log id, the earlier is not the larger, and heads of one size are one head. |
| `WitnessRuns.OneLogBehindAllHeads` | src/audit/checkpoint-witness.service.ts:374-563 | Over every run against any registry the leaves behind an earlier retained head are the first leaves behind a later one, or a collision is computed. |
| `WitnessRuns.CosignedInOrder` | src/audit/checkpoint-witness.service.ts:578-634 | Over every run, of two cosignatures for one cursor the earlier has the smaller or the same head, under the same log id, and both heads were retained in that order; equal sizes force equal heads. |
| `WitnessRuns.OneLogBehindCosignatures` | src/audit/checkpoint-witness.service.ts:374-634 | Over every run against any registry the leaves behind an earlier cosignature are the first leaves behind a later one for that cursor, or a collision is computed. |
| `WitnessRuns.EmptyHeadIsFinal` | src/audit/log-verify.ts:486-489 | A head retained at size 0 is kept over every further run. |
| `WitnessRuns.EvidenceStep` | src/audit/checkpoint-witness.service.ts:715-776 | A visit removes no evidence, alters none but its quorum, and adds at most the row of the checkpoint it fetched; after an alert whose writes succeed that row is on record if and only if the reason is not `checkpoint_invalid` or it was there before. |
| `WitnessRuns.EvidenceExact` | src/audit/checkpoint-witness.service.ts:715-776 | The evidence table after every visit, exactly: only the row of the fetched checkpoint can change, when it is written, and with which findings on signature, consistency and quorum. |
| `WitnessRuns.AccusedOffRecord` | src/audit/checkpoint-witness.service.ts:326-341 | A new checkpoint accused as unbound or future-dated is not on record afterwards. |
| `WitnessRuns.EvidenceRun` | src/storage/log-witness.repository.ts:28-43 | Over every run no evidence row is lost, and only its quorum ever changes. |
| `WitnessHonest.HonestVerdict` | src/audit/checkpoint-witness.service.ts:433-563 | On an honest registry a completed visit alerts if and only if the log grew from size 0 or a misjudged size; otherwise it ends witnessed. |
| `WitnessHonest.EmptyThenGrown` | src/audit/checkpoint-witness.service.ts:480-563 | Two visits to an honest registry, at size 0 and then larger, end witnessed and then in a consistency alert, and the empty head stays. |
| `WitnessHonest.HonestNeverAlerted` | src/audit/checkpoint-witness.service.ts:384-563 | Over every run in which one registry is honest at sizes that are not stuck, whatever the others do, no visit to it alerts, no event about it is sent, and every completed visit ends witnessed. |
| `WitnessHonest.AlertsAnnouncedOnce` | src/audit/checkpoint-witness.service.ts:657-681 | Over every run no event about a registry repeats the reason of the one before it without an advance in between. |
| `WitnessRuns.AlertStands` | src/storage/log-witness.repository.ts:196-291 | Over every run an alert stands, for the reason of the last alerting visit, until the next advance of its cursor. |
| `WitnessRuns.BadSignatureStands` | src/audit/checkpoint-witness.service.ts:343-366 | A checkpoint whose signature fails under its resolved key is accused at once, and the accusation stands until the next advance. |
| `InclusionAudit.IncludedStaysIncluded` | src/audit/log-inclusion-audit.service.ts:291-335 | An event judged included against a retained head has its leaf at the same index in the log behind every later head of that cursor, or a collision is computed. |
| `InclusionAudit.VerdictExact` | src/audit/log-inclusion-audit.service.ts:163-336 | The verdict on any registry, exactly: included demands binding, date, resolved key, signature, proof and checkpoint in agreement, no other witnessed root and a folding path; an accusation demands an answer; not logged exactly on 404; no log exactly when none is advertised. |
| `InclusionAudit.HonestVerdictExact` | src/audit/log-inclusion-audit.service.ts:163-336 | In every state of the evidence table an honest proof is judged included unless the row looked up has another root; it is included whichever row is looked up if and only if no row of the tenant at that log and size has another root. |
| `InclusionAudit.HonestLogIncluded` | src/audit/log-inclusion-audit.service.ts:307-326 | Over every run in which one registry of the tenant passes the binding for the log, and serves it honestly, an honest proof is judged included whatever the lookup returns. |
| `InclusionAudit.BadlySignedRowDecides` | src/storage/log-witness.repository.ts:110-127 | After a run of one visit with a failed signature the lookup finds that row alone, and every honest proof at its size is judged invalid. |
| `RevocationStore.PageExact` | src/auth/in-memory-revocation.repository.ts:58-93 | A page is ordered; with a next cursor it holds exactly the records between the cursors and more remain, without one all that remain. |
| `RevocationStore.PageSize` | src/auth/in-memory-revocation.repository.ts:62-87 | A page is filled to the limit if so much remains, and exceeds it only by records that share the time of its last. |
| `RevocationStore.CapExact` | src/auth/in-memory-revocation.repository.ts:62 | The limit is taken modulo 2^32 as a signed number and clamped to 1..500. |
| `RevocationStore.PagesPartitionFeed` | src/auth/in-memory-revocation.repository.ts:58-93 | For every limit, following the cursors ends and yields the whole feed once, in order. |
| `RevocationRepository.InMemoryRevocationRepository.Revoke` | src/auth/in-memory-revocation.repository.ts:17-22 | A record is added once per issuer and jti. |
| `RevocationRepository.InMemoryRevocationRepository.IsRevoked` | src/auth/in-memory-revocation.repository.ts:24-35 | True exactly for an unexpired record; an expired one is dropped and nothing else. |
| `RevocationRepository.InMemoryRevocationRepository.EvictExpired` | src/auth/in-memory-revocation.repository.ts:41-51 | Exactly the expired records go, and are counted. |
| `RevocationRepository.InMemoryRevocationRepository.ListSince` | src/auth/in-memory-revocation.repository.ts:58-93 | The page with its extension loop is the page that `PageExact` describes. |
| `RevocationRepository.EvictionInvisible` | src/auth/in-memory-revocation.repository.ts:24-51 | Eviction never changes an answer of `isRevoked`, then or later. |
| `RevocationPoller.Poller.ApplyEntries` | src/auth/revocation-poller.service.ts:274-326 | The store after a page; the applied count is the number of applicable entries whose write succeeded, the dropped count the number of inapplicable ones; success exactly when every applicable entry was written. |
| `RevocationPoller.Poller.PollFeed` | src/auth/revocation-poller.service.ts:162-214 | The cursor moves exactly when the whole page was written and a next cursor is named; the reported counts are those of the page, and zero without one. |
| `RevocationPoller.FeedConfined` | src/auth/revocation-poller.service.ts:274-326 | A page removes nothing; each record it adds comes from a written entry of the feed's own or no issuer with a positive expiry, under the feed's issuer; and every such entry is denied afterwards. |
| `RevocationPoller.NormalizedParts` | src/auth/revocation-poller.service.ts:330-356 | Entries without a jti are skipped and the others keep their order. |
| `RevocationFeed.PollStepConfined` | src/auth/revocation-poller.service.ts:162-326 | No step of a poll removes a record, and the records of other issuers stay exactly as they are. |
| `RevocationFeed.PollsConfined` | src/auth/revocation-poller.service.ts:281-314 | After every interleaving a record of another issuer was in the client's store at the start or was revoked there by the client itself. |
| `RevocationFeed.NoRevocationSkipped` | src/auth/revocation-poller.service.ts:162-326 | After every interleaving, each well-formed revocation of the issuer at or below the cursor, or the durable cursor, is denied locally or expired. |
| `RevocationFeed.LastPageCatchesUp` | src/auth/revocation-poller.service.ts:176-196 | When a page without a next cursor is wholly written, every revocation stored at the server when it answered is denied locally or expired. |
| `RevocationFeed.CatchUpCovers` | src/auth/revocation-poller.service.ts:162-326 | From every reachable state, polling until no next cursor is named ends with every well-formed revocation the server ever stored denied locally or expired. |
| `RevocationFeed.RestartRecovers` | src/auth/revocation-poller.service.ts:110-132 | A restart interrupts every poll, resumes from the durable cursor or the beginning, and catching up from there covers every revocation. |
| `RevocationFeed.UninterruptedPoll` | src/auth/revocation-poller.service.ts:176-196 | A poll applied without interruption does to store and cursors what `PollFeed` does. |
| `Positional.ValueDigits` | src/common/multibase.ts:107-134 | Digit strings without a leading zero and numbers correspond one to one in every base. |
| `Positional.HexBytes` | src/common/multibase.ts:132-134 | Through padded hexadecimal a positive number gets its base-256 digits, and zero one zero byte. |
| `Multibase.AlphabetSpelled` | src/common/multibase.ts:17-20 | The digits in order spell the base58 alphabet. |
| `Multibase.Base58btcEncode` | src/common/multibase.ts:107-124 | The division and leading-zero loops compute the base-58 rewriting with leading zeros kept. |
| `Multibase.Base58btcDecode` | src/common/multibase.ts:126-144 | The multiplication and leading-one loops compute the base-256 rewriting, with the extra byte on all-`1` input. |
| `Multibase.DecodeEncode` | src/common/multibase.ts:107-144 | Decoding inverts encoding exactly on byte strings with a non-zero byte; on others it adds one zero byte. |
| `Multibase.EncodeDecode` | src/common/multibase.ts:107-144 | Encoding inverts decoding exactly on base58 strings with a character other than `1`; on others it adds one `1`. |
| `Multibase.EncodedMeans` | src/common/multibase.ts:107-124 | An encoding has the value of its bytes, in base 58, behind as many `1`s as there are leading zero bytes. |
| `Multibase.EncodedVectors` | src/common/multibase.ts:107-124 | Three encodings, spelled out. |
| `Multibase.DecodesExactly` | src/common/multibase.ts:60-105 | An input decodes to a key if and only if its multibase value is the encoding of that key and the key has 32 bytes. |
| `Multibase.RefusedExactly` | src/common/multibase.ts:66-104 | Each refusal occurs exactly for its reason, with the P-256 prefix told apart. |
| `Multibase.MultibaseSpelled` | src/common/multibase.ts:60-64 | The value is what follows `did:key:`, if present, up to the first `#`. |
| `Multibase.KeyRoundTrip` | src/common/multibase.ts:47-105 | Every 32-byte key survives bare, as a `did:key`, and with any fragment. |
| `Readiness.ReadinessService.EvaluateNow` | src/health/readiness.service.ts:152-159 | Answers from a verdict younger than the cache time, else waits for the probe in flight, else starts exactly one. |
| `Readiness.ReadinessService.OnQuerySuccess` | src/health/readiness.service.ts:222-231 | A success decides its probe, or refreshes the verdict after a timeout without being counted again. |
| `Readiness.ReadinessService.Record` | src/health/readiness.service.ts:256-282 | A verdict is stored unless a newer one is, the stored number never falls, and the log grows by the new readiness exactly when readiness changes. |
| `Readiness.OneQueryAtATime` | src/health/readiness.service.ts:180-248 | In every reachable state only the newest query can be outstanding, and a probe is counted once if decided and never otherwise. |
| `Readiness.NoStaleVerdict` | src/health/readiness.service.ts:188-267 | The guard against older probes never fires and the stored number never decreases; a success makes the verdict ready, a deciding deadline or failure not ready, and after the decision neither changes it. |
| `Readiness.ReadyMeansSucceeded` | src/health/readiness.service.ts:180-248 | Over every run the stored verdict is ready if and only if the query of the newest decided probe has succeeded, in time or late. |
| `Readiness.LoadBound` | src/health/readiness.service.ts:152-159 | At any request rate an interval of length L sees at most 1 + L / cache probe starts. |
| `Readiness.LogAlternates` | src/health/readiness.service.ts:263-280 | Logged readiness changes alternate, starting with not-ready. |
| `Shutdown.DrainState.Begin` | src/shutdown-drain.ts:54-59 | Enters draining once and never leaves a later phase. |
| `Shutdown.DrainState.BeginClosing` | src/shutdown-drain.ts:63-66 | Enters closing from any phase, having begun the drain. |
| `Shutdown.ShutdownHandler.OnSignal` | src/shutdown.ts:425-446 | The first signal begins the drain and, without a delay, closes; a later one closes if that has not happened, and does nothing else. |
| `Shutdown.ShutdownHandler.OnRaceEnd` | src/shutdown.ts:325-410 | The forced path, the hook probe and the telemetry flush after each outcome of the race. |
| `Shutdown.RunsOnce` | src/shutdown.ts:193-423 | Over every sequence of signals and outcomes the actions are a beginning of one script with one close and one exit, whose code is 0 exactly on a clean shutdown; the drain fires at most once. |
| `Shutdown.TraceExact` | src/shutdown.ts:193-446 | The whole trace from the events alone: drain at the first signal, close() when it is due, a forced close exactly after the deadline, and exit at the first end of the flush, with code 0 exactly if close() fulfilled, all hooks passed and telemetry stopped. |
| `Shutdown.FourEventsSuffice` | src/shutdown.ts:193-423 | A signal, another or the end of the delay, an outcome of the race and one of the flush, with anything around them, play the whole script. |
| `Shutdown.AlwaysExits` | src/shutdown.ts:229-423 | From every state after a signal, the end of the delay (or a signal), the deadline and the telemetry lead to exit. |
| `Shutdown.ExtraSignalsOnlyShortenDelay` | src/shutdown.ts:425-443 | Replacing every signal after the first by the end of the delay gives the same shutdown. |
| `Shutdown.ArrivalDecides` | src/middleware/drain-gate.middleware.ts:84-103 | For every interleaving before its arrival and between arrival and gate, a request is refused exactly when close() had been called before its headers arrived, `beginClosing` does not throw, and it is no event stream. |
| `Quorum.EvaluateQuorum` | src/audit/cosign.ts:854-921 | The counts are the cardinalities of the sets of verified, fresh and historical witnesses. |
| `Quorum.CountHistorical` | src/audit/cosign.ts:734-762 | The historical count is the number of distinct retired-key witnesses that attest. |
| `Quorum.CountedExactly` | src/audit/cosign.ts:734-911 | Who is counted as verified, as fresh (by the first attesting cosignature) and as historical, in terms of the policy, the keys and the list alone. |
| `Quorum.CountMonotone` | src/audit/cosign.ts:865-911 | The count depends only on which cosignatures are present and never falls when some are added. |
| `Quorum.CountsBounded` | src/audit/cosign.ts:854-921 | Fresh witnesses are verified ones; current and historical together never exceed the distinct trusted ones when historical ids are trusted. |
| `Quorum.FreshOrderMatters` | src/audit/cosign.ts:904-910 | The fresh set is the same for every ordering of the list if and only if no witness has both a fresh and a stale counting cosignature; then repetitions do not change it either. |
| `Lineage.Walk` | src/audit/revocation-lineage.ts:217-404 | Success exactly when the naming context is present and no evaluated member is unavailable, then exactly the verified members in order; every refusal with its kind and tally. |
| `Lineage.TallySums` | src/audit/revocation-lineage.ts:225-338 | The tallies sum to the members evaluated, for every prefix walked. |
| `Lineage.TallyExact` | src/audit/revocation-lineage.ts:315-381 | Each tally is the number of typed members with a ctx_id and a verdict of its kind. |
| `Lineage.MembersJoin` | src/audit/revocation-lineage.ts:315-381 | The members of two joined lists are the members of each, in order. |
| `Lineage.JunkProof` | src/audit/revocation-lineage.ts:315-381 | Inserting invalid, unsupported, untyped or unusable members anywhere changes neither availability, nor members, nor the earliest compromise time, which stays the least of the verified members' times. |
| `TrustProxy.Ipv6ToBigInt` | src/config/app-config.service.ts:187-194 | Shifting and or-ing the groups gives the base-65536 value of the expanded address. |
| `TrustProxy.SpellingsAgree` | src/config/app-config.service.ts:187-194 | Two spellings have one value exactly when they expand to the same eight groups. |
| `TrustProxy.OverlapExact` | src/config/app-config.service.ts:196-204 | The test is true if and only if the two ranges share an address. |
| `TrustProxy.CidrIsInterval` | src/config/app-config.service.ts:196-204 | A range is the interval of addresses that share its network bits. |
| `TrustProxy.AcceptedExactly` | src/config/app-config.service.ts:146-182 | An IPv6 entry is accepted exactly when its prefix is from 7 to 128 and its range holds ::ffff:g:h for no g and h. |

## Left out

- The native branches of the `acdp` binding, Ed25519, JSON canonicalization and SHA-256 itself: a hash function, signature checks and canonical leaf bytes are inputs.
- The reason strings of `VerifyOutcome` and of the inclusion verdict: the verifiers are modelled by acceptance alone.
- Sizes that are not exact integers in JavaScript: from 2^53 up the `n - 1` inside `isPowerOfTwo` is rounded, while the model computes it exactly.
- HTTP, DNS, DID resolution, JSON parsing and the closed-schema parsers: each is a response that may be anything, with `None` for what a parser rejects.
- `WitnessService.CheckpointWitness.RaiseAlert`: metrics, log lines, alert detail and operator acknowledgement are not modelled, because they decide nothing.
- `WitnessService.CheckpointWitness.AdvanceAndCosign`: the time and signature of a cosignature are not modelled; a mint or a write that fails, or a duplicate, stores no row.
- Concurrent sweeps: the advisory lock is taken to exclude them, and one database statement is taken to succeed or fail as a whole.
- `InclusionAudit.HonestVerdictExact`: which of several evidence rows at one size the lookup returns is left open, since the query names no order; the statement covers all of them.
- The Postgres repositories of the feed, whose cursor is floored to milliseconds and behaves differently.
- `RevocationStore.PageExact`: ties within a millisecond are ordered by code units, not by `localeCompare`; no other result depends on it.
- `RevocationFeed.NoRevocationSkipped`: assumes a monotone server clock, server records dated by it (no caller passes `revokedAt`), and one expiry per issuer and jti.
- `RevocationPoller.Poller.PollFeed`: the transport limits of a fetch are one failing case, and an expiry is an integer.
- `Readiness.OneQueryAtATime`: the report-only Redis checks and the latency and reason fields are not modelled, because they never affect readiness.
- `Shutdown.RunsOnce`: the idle-socket reaper, the summary line and a throwing logger are not modelled; telemetry is taken to settle.
- `Quorum.EvaluateQuorum`: the list of failure texts is not modelled, and the keys are given, as `consumeQuorumSafe` resolves them.
- `Lineage.Walk`: the classification of DID resolution errors is settled by reading its table.
- `TrustProxy.AcceptedExactly`: IPv4 entries, range names, hop counts and the textual splitting of an address.
- Receipt audit, key revocation classification, issuance ledger, controllers, dashboards and configuration reading: foreign classification or wiring.
