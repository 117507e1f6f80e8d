/** src/health/readiness.service.ts: the readiness probe as the callbacks that drive it. The
    clock, the deadline timer, the query and its `finally` are events in any order that the
    promises allow. */
module Readiness {
  import opened Bytes
  import Positional

  datatype Verdict = Verdict(ready: bool, checkedAt: int)

  /** One probe: `count` is how often it moved the checks counter; the query is outstanding
      until `settled`, and `cleared` once its `finally` has run. */
  datatype Probe = Probe(startedAt: int, decided: bool, count: nat, settled: bool, cleared: bool)

  /** Probe number n is probes[n - 1]; `log` holds the logged readiness changes. */
  datatype State = State(
    cacheMs: int, now: int, last: Option<Verdict>, lastSeq: nat, inFlight: Option<nat>,
    probes: seq<Probe>, log: seq<bool>)

  datatype Event =
    | Tick(now: int)
    | Evaluate
    | Deadline(n: nat)
    | QuerySucceeds(n: nat)
    | QueryFails(n: nat)
    | Finally(n: nat)

  function Initial(cacheMs: int, now: int): State {
    State(cacheMs, now, None, 0, None, [], [])
  }

  predicate Enabled(s: State, e: Event) {
    match e
    case Tick(now) => now >= s.now
    case Evaluate => true
    case Deadline(n) => 1 <= n <= |s.probes|
    case QuerySucceeds(n) => 1 <= n <= |s.probes| && !s.probes[n - 1].settled
    case QueryFails(n) => 1 <= n <= |s.probes| && !s.probes[n - 1].settled
    case Finally(n) => 1 <= n <= |s.probes| && s.probes[n - 1].settled && !s.probes[n - 1].cleared
  }

  /** Before any probe the service counts as ready. */
  function CurrentlyReady(s: State): bool {
    s.last.Some? ==> s.last.value.ready
  }

  predicate Cached(s: State) {
    s.last.Some? && s.now - s.last.value.checkedAt < s.cacheMs
  }

  /** `record`, with its guard against older probes. */
  function Recorded(s: State, n: nat, up: bool): State {
    if n < s.lastSeq then s
    else s.(last := Some(Verdict(up, s.now)), lastSeq := n,
            log := if up != CurrentlyReady(s) then s.log + [up] else s.log)
  }

  function WithProbe(s: State, n: nat, p: Probe): State
    requires 1 <= n <= |s.probes|
  {
    s.(probes := s.probes[n - 1 := p])
  }

  /** `decide`: only the first decision of a probe counts and records. */
  function Decided(s: State, n: nat, up: bool): State
    requires 1 <= n <= |s.probes|
  {
    var p := s.probes[n - 1];
    if p.decided then s else Recorded(WithProbe(s, n, p.(decided := true, count := p.count + 1)), n, up)
  }

  function Settled(s: State, n: nat): State
    requires 1 <= n <= |s.probes|
  {
    WithProbe(s, n, s.probes[n - 1].(settled := true))
  }

  function Evaluated(s: State): State {
    if Cached(s) || s.inFlight.Some? then s
    else s.(probes := s.probes + [Probe(s.now, false, 0, false, false)], inFlight := Some(|s.probes| + 1))
  }

  function Next(s: State, e: Event): State {
    if !Enabled(s, e) then s
    else
      match e
      case Tick(now) => s.(now := now)
      case Evaluate => Evaluated(s)
      case Deadline(n) => Decided(s, n, false)
      case QuerySucceeds(n) =>
        Settled(if s.probes[n - 1].decided then Recorded(s, n, true) else Decided(s, n, true), n)
      case QueryFails(n) => Settled(Decided(s, n, false), n)
      case Finally(n) =>
        var t := WithProbe(s, n, s.probes[n - 1].(cleared := true));
        if s.inFlight == Some(n) then t.(inFlight := None) else t
  }

  function Run(s: State, events: seq<Event>): State
    decreases |events|
  {
    if events == [] then s else Next(Run(s, events[..|events| - 1]), events[|events| - 1])
  }

  // ---- The service ----

  class ReadinessService {
    const cacheMs: int
    var now: int
    var last: Option<Verdict>
    var lastSeq: nat
    var inFlight: Option<nat>
    var probes: seq<Probe>
    var log: seq<bool>

    function View(): State
      reads this
    {
      State(cacheMs, now, last, lastSeq, inFlight, probes, log)
    }

    constructor (cacheMs: int, now: int)
      ensures View() == Initial(cacheMs, now)
    {
      this.cacheMs, this.now := cacheMs, now;
      last, lastSeq, inFlight, probes, log := None, 0, None, [], [];
    }

    method Record(n: nat, up: bool)
      modifies this
      ensures View() == Recorded(old(View()), n, up)
      ensures lastSeq >= old(lastSeq) && probes == old(probes) && inFlight == old(inFlight)
      ensures if n >= old(lastSeq) then lastSeq == n && last == Some(Verdict(up, now)) else View() == old(View())
      ensures var after, before := CurrentlyReady(View()), CurrentlyReady(old(View()));
              log == old(log) + if after == before then [] else [after]
    {
      if n < lastSeq { return; }
      var wasReady := if last.Some? then last.value.ready else true;
      last := Some(Verdict(up, now));
      lastSeq := n;
      if up != wasReady { log := log + [up]; }
    }

    method Decide(n: nat, up: bool) returns (first: bool)
      requires 1 <= n <= |probes|
      modifies this
      ensures View() == Decided(old(View()), n, up)
      ensures first <==> !old(probes[n - 1].decided)
    {
      var p := probes[n - 1];
      if p.decided { return false; }
      probes := probes[n - 1 := p.(decided := true, count := p.count + 1)];
      Record(n, up);
      return true;
    }

    /** Answers from the cache, or from the probe in flight, or from a new probe. */
    method EvaluateNow() returns (cached: Option<Verdict>, waitsFor: Option<nat>)
      modifies this
      ensures View() == Evaluated(old(View()))
      ensures last == old(last) && lastSeq == old(lastSeq) && log == old(log)
      ensures var young := last.Some? && now - last.value.checkedAt < cacheMs;
              && (if young then cached == last && waitsFor.None? else cached.None? && waitsFor == inFlight)
              && probes == old(probes)
                 + if young || old(inFlight).Some? then [] else [Probe(now, false, 0, false, false)]
    {
      if last.Some? && now - last.value.checkedAt < cacheMs { return last, None; }
      if inFlight.None? {
        var n := |probes| + 1;
        probes := probes + [Probe(now, false, 0, false, false)];
        inFlight := Some(n);
      }
      return None, inFlight;
    }

    method OnDeadline(n: nat)
      requires Enabled(View(), Deadline(n))
      modifies this
      ensures View() == Next(old(View()), Deadline(n))
    {
      var _ := Decide(n, false);
    }

    method OnQuerySuccess(n: nat)
      requires Enabled(View(), QuerySucceeds(n))
      modifies this
      ensures View() == Next(old(View()), QuerySucceeds(n))
    {
      var first := Decide(n, true);
      if !first { Record(n, true); }
      probes := probes[n - 1 := probes[n - 1].(settled := true)];
    }

    method OnQueryFailure(n: nat)
      requires Enabled(View(), QueryFails(n))
      modifies this
      ensures View() == Next(old(View()), QueryFails(n))
    {
      var _ := Decide(n, false);
      probes := probes[n - 1 := probes[n - 1].(settled := true)];
    }

    method OnFinally(n: nat)
      requires Enabled(View(), Finally(n))
      modifies this
      ensures View() == Next(old(View()), Finally(n))
    {
      probes := probes[n - 1 := probes[n - 1].(cleared := true)];
      if inFlight == Some(n) { inFlight := None; }
    }
  }

  // ---- Every reachable state ----

  /** Only the newest probe can be undecided, unsettled or in flight. */
  ghost predicate SingleFlight(s: State) {
    var n := |s.probes|;
    && (forall i :: 0 <= i < n ==> s.probes[i].count == if s.probes[i].decided then 1 else 0)
    && (forall i :: 0 <= i < n && s.probes[i].settled ==> s.probes[i].decided)
    && (forall i :: 0 <= i < n && s.probes[i].cleared ==> s.probes[i].settled)
    && (forall i :: 0 <= i < n - 1 ==> s.probes[i].cleared)
    && s.inFlight == (if n > 0 && !s.probes[n - 1].cleared then Some(n) else None)
    && s.lastSeq == (if n > 0 && !s.probes[n - 1].decided then n - 1 else n)
  }

  ghost predicate Paced(s: State) {
    && (s.last.Some? <==> s.lastSeq > 0)
    && s.lastSeq <= |s.probes|
    && (s.last.Some? ==> s.probes[s.lastSeq - 1].startedAt <= s.last.value.checkedAt <= s.now)
    && (forall i :: 0 <= i < |s.probes| ==> s.probes[i].startedAt <= s.now)
    && (forall i :: 0 < i < |s.probes| ==> s.probes[i].startedAt - s.probes[i - 1].startedAt >= s.cacheMs)
  }

  /** Logged changes alternate from not-ready, and the last one is the current readiness. */
  ghost predicate Alternating(s: State) {
    && (forall i :: 0 <= i < |s.log| ==> s.log[i] == (i % 2 == 1))
    && CurrentlyReady(s) == (|s.log| % 2 == 0)
  }

  ghost predicate Inv(s: State) {
    SingleFlight(s) && Paced(s) && Alternating(s)
  }

  /** The probe that an event records a verdict for, if it records one. */
  function Records(s: State, e: Event): Option<nat> {
    if !Enabled(s, e) then None
    else
      match e
      case Deadline(n) => if s.probes[n - 1].decided then None else Some(n)
      case QuerySucceeds(n) => Some(n)
      case QueryFails(n) => if s.probes[n - 1].decided then None else Some(n)
      case _ => None
  }

  lemma RecordKeeps(s: State, n: nat, up: bool)
    requires Paced(s) && Alternating(s) && n == |s.probes| >= 1 && s.lastSeq <= n
    ensures Paced(Recorded(s, n, up)) && Alternating(Recorded(s, n, up))
  {
  }

  lemma DecideKeeps(s: State, n: nat, up: bool)
    requires Inv(s) && 1 <= n <= |s.probes|
    ensures Inv(Decided(s, n, up))
  {
    hide Recorded, Alternating;
    var p := s.probes[n - 1];
    if !p.decided {
      var marked := WithProbe(s, n, p.(decided := true, count := p.count + 1));
      MarkKeeps(s, n, p.(decided := true, count := p.count + 1));
      RecordKeeps(marked, n, up);
      RecordedFields(marked, n, up);
    }
  }

  lemma RecordedFields(s: State, n: nat, up: bool)
    requires n >= s.lastSeq
    ensures var t := Recorded(s, n, up);
            && t.lastSeq == n && t.probes == s.probes && t.inFlight == s.inFlight
            && t.last.Some? && t.last.value.ready == up
  {
  }

  lemma MarkKeeps(s: State, n: nat, p: Probe)
    requires 1 <= n <= |s.probes| && Paced(s) && Alternating(s) && p.startedAt == s.probes[n - 1].startedAt
    ensures Paced(WithProbe(s, n, p)) && Alternating(WithProbe(s, n, p))
  {
  }

  lemma SettleKeeps(s: State, n: nat)
    requires Inv(s) && 1 <= n <= |s.probes| && s.probes[n - 1].decided
    ensures Inv(Settled(s, n))
  {
    hide Alternating, Paced;
    MarkKeeps(s, n, s.probes[n - 1].(settled := true));
  }

  lemma InvStep(s: State, e: Event)
    requires Inv(s)
    ensures Inv(Next(s, e))
  {
    hide Decided, Recorded, Settled, Inv, Alternating;
    if Enabled(s, e) {
      match e
      case Tick(now) => TickKeeps(s, now);
      case Evaluate => EvaluateKeeps(s);
      case Deadline(n) => DecideKeeps(s, n, false);
      case QuerySucceeds(n) => SuccessKeeps(s, n);
      case QueryFails(n) =>
        DecideKeeps(s, n, false);
        DecidedMarks(s, n, false);
        SettleKeeps(Decided(s, n, false), n);
      case Finally(n) => FinallyKeeps(s, n);
    }
  }

  lemma DecidedMarks(s: State, n: nat, up: bool)
    requires 1 <= n <= |s.probes|
    ensures |Decided(s, n, up).probes| == |s.probes| && Decided(s, n, up).probes[n - 1].decided
  {
  }

  lemma TickKeeps(s: State, now: int)
    requires Inv(s) && now >= s.now
    ensures Inv(s.(now := now))
  {
  }

  lemma EvaluateKeeps(s: State)
    requires Inv(s)
    ensures Inv(Evaluated(s))
  {
  }

  lemma SuccessKeeps(s: State, n: nat)
    requires Inv(s) && Enabled(s, QuerySucceeds(n))
    ensures Inv(Next(s, QuerySucceeds(n)))
  {
    hide Alternating, Paced, Recorded;
    if s.probes[n - 1].decided {
      NewestOnly(s, n);
      RecordKeeps(s, n, true);
      RecordedFields(s, n, true);
      SettleKeeps(Recorded(s, n, true), n);
    } else {
      DecideKeeps(s, n, true);
      DecidedMarks(s, n, true);
      SettleKeeps(Decided(s, n, true), n);
    }
  }

  lemma NewestOnly(s: State, n: nat)
    requires SingleFlight(s) && 1 <= n <= |s.probes| && !s.probes[n - 1].settled
    ensures n == |s.probes| && s.lastSeq <= n
  {
  }

  lemma FinallyKeeps(s: State, n: nat)
    requires Inv(s) && Enabled(s, Finally(n))
    ensures Inv(Next(s, Finally(n)))
  {
    hide Alternating;
    MarkKeeps(s, n, s.probes[n - 1].(cleared := true));
    NotInFlightFields(WithProbe(s, n, s.probes[n - 1].(cleared := true)));
  }

  lemma NotInFlightFields(s: State)
    ensures Alternating(s.(inFlight := None)) <==> Alternating(s)
  {
  }

  lemma {:induction false} InvRun(cacheMs: int, now: int, events: seq<Event>)
    ensures Inv(Run(Initial(cacheMs, now), events))
    decreases |events|
  {
    hide Next;
    if events != [] {
      InvRun(cacheMs, now, events[..|events| - 1]);
      InvStep(Run(Initial(cacheMs, now), events[..|events| - 1]), events[|events| - 1]);
    }
  }

  /** Single flight: in every reachable state only the newest query can be outstanding, a probe
      is counted once if it is decided and never otherwise, and every settled probe is decided. */
  lemma OneQueryAtATime(cacheMs: int, now: int, events: seq<Event>)
    ensures var s := Run(Initial(cacheMs, now), events);
            && (forall k :: 0 <= k < |s.probes| - 1 ==> s.probes[k].settled)
            && (forall k :: 0 <= k < |s.probes| ==>
                 s.probes[k].count <= 1 && (s.probes[k].decided <==> s.probes[k].count == 1)
                 && (s.probes[k].settled ==> s.probes[k].decided))
  {
    hide Run;
    InvRun(cacheMs, now, events);
  }

  /** What one event does to the stored verdict: nothing, or the verdict of the newest probe. */
  lemma VerdictStep(s: State, e: Event)
    requires Inv(s)
    ensures var t := Next(s, e);
            match Records(s, e)
            case None => t.last == s.last && t.lastSeq == s.lastSeq
            case Some(n) => n == |s.probes| >= s.lastSeq && t.lastSeq == n
                            && t.last == Some(Verdict(e.QuerySucceeds?, s.now))
  {
    hide Alternating, Paced;
    if Records(s, e).Some? { assert Records(s, e).value == |s.probes|; }
  }

  /** No verdict is ever stale: whatever happens next in a reachable state, the probe recorded
      is not older than the one behind the stored verdict, so the guard in `record` never
      fires and the stored number never decreases. A success leaves the verdict ready; a
      deadline or a failure makes it not ready if it is what decides its probe, and changes
      nothing once the probe is decided. */
  lemma NoStaleVerdict(cacheMs: int, now: int, events: seq<Event>, e: Event)
    ensures var s := Run(Initial(cacheMs, now), events);
            var t := Next(s, e);
            && (Records(s, e).Some? ==> Records(s, e).value >= s.lastSeq)
            && t.lastSeq >= s.lastSeq
            && (e.QuerySucceeds? && Enabled(s, e) ==> t.last == Some(Verdict(true, s.now)))
            && ((e.Deadline? || e.QueryFails?) && Enabled(s, e) ==>
                 t.last == if s.probes[e.n - 1].decided then s.last else Some(Verdict(false, s.now)))
            && (e.Tick? || e.Evaluate? || e.Finally? || !Enabled(s, e) ==> t.last == s.last)
  {
    hide Run, Next, Inv;
    InvRun(cacheMs, now, events);
    VerdictStep(Run(Initial(cacheMs, now), events), e);
  }

  /** The query of probe n has succeeded, in time or late. */
  ghost predicate Succeeded(s: State, events: seq<Event>, n: nat) {
    exists i :: 0 <= i < |events| && events[i] == QuerySucceeds(n) && Enabled(Run(s, events[..i]), events[i])
  }

  lemma SucceededSnoc(s: State, events: seq<Event>, n: nat)
    requires events != []
    ensures var k := |events| - 1;
            Succeeded(s, events, n) <==>
            Succeeded(s, events[..k], n) || (events[k] == QuerySucceeds(n) && Enabled(Run(s, events[..k]), events[k]))
  {
    hide Run, Enabled;
    var k := |events| - 1;
    if Succeeded(s, events, n) {
      var i :| 0 <= i < |events| && events[i] == QuerySucceeds(n) && Enabled(Run(s, events[..i]), events[i]);
      if i < k { assert events[..k][i] == events[i] && events[..k][..i] == events[..i]; }
    }
    if Succeeded(s, events[..k], n) {
      var i :| 0 <= i < k && events[..k][i] == QuerySucceeds(n) && Enabled(Run(s, events[..k][..i]), events[..k][i]);
      assert events[..k][i] == events[i] && events[..k][..i] == events[..i];
    }
  }

  predicate SettledProbe(s: State, n: nat) {
    1 <= n <= |s.probes| && s.probes[n - 1].settled
  }

  lemma SettledStays(s: State, e: Event, n: nat)
    requires SettledProbe(s, n) || (e == QuerySucceeds(n) && Enabled(s, e))
    ensures SettledProbe(Next(s, e), n)
  {
  }

  lemma {:induction false} SucceededSettled(s: State, events: seq<Event>, n: nat)
    requires Succeeded(s, events, n)
    ensures SettledProbe(Run(s, events), n)
    decreases |events|
  {
    hide Next, Succeeded, SettledProbe;
    if events != [] {
      var k := |events| - 1;
      SucceededSnoc(s, events, n);
      if Succeeded(s, events[..k], n) { SucceededSettled(s, events[..k], n); }
      SettledStays(Run(s, events[..k]), events[k], n);
    } else {
      NothingSucceeded(s, n);
    }
  }

  lemma NothingSucceeded(s: State, n: nat)
    ensures !Succeeded(s, [], n)
  {
  }

  /** The stored verdict tells the truth about its probe: over every run it is ready if and only
      if the query of the newest decided probe has succeeded, in time or late. */
  lemma {:induction false} ReadyMeansSucceeded(cacheMs: int, now: int, events: seq<Event>)
    ensures var s := Run(Initial(cacheMs, now), events);
            s.last.Some? ==> (s.last.value.ready <==> Succeeded(Initial(cacheMs, now), events, s.lastSeq))
    decreases |events|
  {
    hide Next, Succeeded, Inv;
    if events != [] {
      var k := |events| - 1;
      var init := Initial(cacheMs, now);
      var s, e := Run(init, events[..k]), events[k];
      ReadyMeansSucceeded(cacheMs, now, events[..k]);
      InvRun(cacheMs, now, events[..k]);
      VerdictStep(s, e);
      SucceededSnoc(init, events, Next(s, e).lastSeq);
      if Records(s, e).Some? && !e.QuerySucceeds? {
        var n := Records(s, e).value;
        if Succeeded(init, events[..k], n) {
          SucceededSettled(init, events[..k], n);
          SettledDecided(s, n);
        }
      }
    }
  }

  lemma SettledDecided(s: State, n: nat)
    requires Inv(s) && SettledProbe(s, n)
    ensures s.probes[n - 1].decided
  {
  }

  // ---- Load ----

  lemma {:induction false} Spread(s: State, i: nat, j: nat)
    requires Paced(s) && i <= j < |s.probes|
    ensures s.probes[j].startedAt - s.probes[i].startedAt >= (j - i) * s.cacheMs
    decreases j
  {
    if i < j { Spread(s, i, j - 1); }
  }

  /** Load bound: whatever the request rate, the probes i..j all start within an interval of
      length L only if there are at most 1 + L / cacheMs of them. */
  lemma LoadBound(cacheMs: int, now: int, events: seq<Event>, i: nat, j: nat, from: int, length: int)
    requires cacheMs > 0 && i <= j < |Run(Initial(cacheMs, now), events).probes|
    requires var p := Run(Initial(cacheMs, now), events).probes;
             from <= p[i].startedAt && p[j].startedAt <= from + length
    ensures j - i + 1 <= 1 + length / cacheMs
  {
    hide Run;
    InvRun(cacheMs, now, events);
    var s := Run(Initial(cacheMs, now), events);
    SameCache(cacheMs, now, events);
    Spread(s, i, j);
    AtMost(j - i, cacheMs, length);
  }

  lemma AtMost(k: nat, c: int, l: int)
    requires c > 0 && k * c <= l
    ensures k <= l / c
  {
    assert k * c >= 0;
    Positional.DivMod(l, c);
    if l / c < k { Positional.Less(l / c, k, c); }
  }

  lemma {:induction false} SameCache(cacheMs: int, now: int, events: seq<Event>)
    ensures Run(Initial(cacheMs, now), events).cacheMs == cacheMs
    decreases |events|
  {
    if events != [] { SameCache(cacheMs, now, events[..|events| - 1]); }
  }

  /** Readiness changes are logged as an alternation that starts with not-ready. */
  lemma LogAlternates(cacheMs: int, now: int, events: seq<Event>)
    ensures var s := Run(Initial(cacheMs, now), events);
            && (forall i :: 0 <= i < |s.log| ==> s.log[i] == (i % 2 == 1))
            && (s.last.Some? ==> s.last.value.ready == (|s.log| % 2 == 0))
  {
    hide Run;
    InvRun(cacheMs, now, events);
  }
}
