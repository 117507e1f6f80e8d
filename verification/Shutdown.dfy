/** src/shutdown.ts and src/shutdown-drain.ts: the shutdown handler as the callbacks that drive
    it, and the drain phases it moves through. The logger does not throw. */
module Shutdown {
  import opened Bytes

  datatype Phase = Serving | Draining | Closing

  function Rank(p: Phase): nat {
    match p case Serving => 0 case Draining => 1 case Closing => 2
  }

  // ---- DrainState ----

  /** The phase, and how often `drained$` has fired. */
  datatype Drain = Drain(phase: Phase, fired: nat)

  function Begun(d: Drain): Drain {
    if d.phase.Serving? then Drain(Draining, d.fired + 1) else d
  }

  function ClosingBegun(d: Drain): Drain {
    Begun(d).(phase := Closing)
  }

  class DrainState {
    var current: Phase
    var fired: nat

    function View(): Drain
      reads this
    {
      Drain(current, fired)
    }

    constructor ()
      ensures View() == Drain(Serving, 0)
    {
      current, fired := Serving, 0;
    }

    method Begin()
      modifies this
      ensures View() == Begun(old(View()))
      ensures Rank(old(current)) <= Rank(current)
    {
      if current != Serving { return; }
      current := Draining;
      fired := fired + 1;
    }

    method BeginClosing()
      modifies this
      ensures View() == ClosingBegun(old(View()))
      ensures current == Closing && Rank(old(current)) <= Rank(current)
    {
      Begin();
      current := Closing;
    }
  }

  // ---- The handler ----

  /** What the handler does to the outside, in order. */
  datatype Action = BeginDrain | BeginClosing | CallClose | ForceClose | StopTelemetry | Exit(code: nat)

  /** What the destroy-hook probe reports after the race. */
  datatype Hooks = AllPassed | SomeFailed | ProbeThrows

  datatype Event =
    | Signal
    | DelayElapsed
    | CloseFulfils(hooks: Hooks)
    | CloseRejects(hooks: Hooks)
    | DeadlineFires(hooks: Hooks)
    | TelemetryStops
    | TelemetryFails

  datatype Pc = Idle | Delaying | Racing | Flushing | Done

  /** How the close ended its race, if it has. */
  datatype Race = Open | Fulfilled | Rejected | TimedOut

  datatype Config = Config(delayMs: int, drainThrows: bool, closingThrows: bool)

  /** `race`, `hooks` and `telemetryOk` are the history of what the environment answered. */
  datatype State = State(
    pc: Pc, drain: Drain, failed: bool, trace: seq<Action>,
    race: Race, hooks: Option<Hooks>, telemetryOk: Option<bool>)

  const INITIAL := State(Idle, Drain(Serving, 0), false, [], Open, None, None)

  /** Enter `closing`, then call close() and start the race. */
  function StartClose(c: Config, s: State): State {
    s.(pc := Racing,
       drain := if c.closingThrows then s.drain else ClosingBegun(s.drain),
       trace := s.trace + [BeginClosing, CallClose])
  }

  function OnFirstSignal(c: Config, s: State): State {
    var t := s.(drain := if c.drainThrows then s.drain else Begun(s.drain), trace := s.trace + [BeginDrain]);
    if c.delayMs > 0 then t.(pc := Delaying) else StartClose(c, t)
  }

  /** After the race: the forced path, the hook probe, then the telemetry flush. */
  function EndRace(s: State, race: Race, hooks: Hooks): State {
    s.(pc := Flushing,
       failed := s.failed || race != Fulfilled || hooks != AllPassed,
       trace := s.trace + (if race.TimedOut? then [ForceClose] else []) + [StopTelemetry],
       race := race, hooks := Some(hooks))
  }

  function Finish(s: State, ok: bool): State {
    var failed := s.failed || !ok;
    s.(pc := Done, failed := failed, trace := s.trace + [Exit(if failed then 1 else 0)], telemetryOk := Some(ok))
  }

  function Next(c: Config, s: State, e: Event): State {
    match e
    case Signal => if s.pc.Idle? then OnFirstSignal(c, s) else if s.pc.Delaying? then StartClose(c, s) else s
    case DelayElapsed => if s.pc.Delaying? then StartClose(c, s) else s
    case CloseFulfils(hooks) => if s.pc.Racing? then EndRace(s, Fulfilled, hooks) else s
    case CloseRejects(hooks) =>
      if s.pc.Racing? then EndRace(s, Rejected, hooks)
      else if s.pc.Flushing? && s.race.TimedOut? then s.(failed := true)
      else s
    case DeadlineFires(hooks) => if s.pc.Racing? then EndRace(s, TimedOut, hooks) else s
    case TelemetryStops => if s.pc.Flushing? then Finish(s, true) else s
    case TelemetryFails => if s.pc.Flushing? then Finish(s, false) else s
  }

  function Run(c: Config, events: seq<Event>): State
    decreases |events|
  {
    if events == [] then INITIAL else Next(c, Run(c, events[..|events| - 1]), events[|events| - 1])
  }

  class ShutdownHandler {
    const config: Config
    const drain: DrainState
    var inFlight: bool
    var delayPending: bool
    var closeCalled: bool
    var raceOver: bool
    var exited: bool
    var failed: bool
    var trace: seq<Action>
    ghost var race: Race
    ghost var hooks: Option<Hooks>
    ghost var telemetryOk: Option<bool>

    ghost function View(): State
      reads this, drain
    {
      var pc := if !inFlight then Idle else if delayPending then Delaying else if !raceOver then Racing
                else if !exited then Flushing else Done;
      State(pc, drain.View(), failed, trace, race, hooks, telemetryOk)
    }

    ghost predicate Valid()
      reads this
    {
      && (delayPending ==> inFlight && !closeCalled)
      && (closeCalled <==> inFlight && !delayPending)
      && (raceOver ==> closeCalled)
      && (exited ==> raceOver)
    }

    constructor (config: Config)
      ensures Valid() && View() == INITIAL && this.config == config && fresh(drain)
    {
      this.config := config;
      drain := new DrainState();
      inFlight, delayPending, closeCalled, raceOver, exited, failed := false, false, false, false, false, false;
      trace, race, hooks, telemetryOk := [], Open, None, None;
    }

    /** The signal listener: start once; afterwards only skip what is left of the delay. */
    method OnSignal()
      requires Valid()
      modifies this, drain
      ensures Valid() && View() == Next(config, old(View()), Signal)
      ensures inFlight && (closeCalled <==> old(inFlight) || config.delayMs <= 0)
      ensures trace == old(trace) + (if old(inFlight) then [] else [BeginDrain])
                                  + (if closeCalled && !old(closeCalled) then [BeginClosing, CallClose] else [])
    {
      if inFlight {
        if delayPending { StartClosing(); }
        return;
      }
      inFlight := true;
      if !config.drainThrows { drain.Begin(); }
      trace := trace + [BeginDrain];
      delayPending := true;
      if config.delayMs <= 0 { StartClosing(); }
    }

    method StartClosing()
      requires Valid() && inFlight && delayPending
      modifies this, drain
      ensures Valid() && View() == StartClose(config, old(View()))
    {
      delayPending := false;
      if !config.closingThrows { drain.BeginClosing(); }
      trace := trace + [BeginClosing, CallClose];
      closeCalled := true;
    }

    method OnDelayElapsed()
      requires Valid()
      modifies this, drain
      ensures Valid() && View() == Next(config, old(View()), DelayElapsed)
      ensures closeCalled <==> old(inFlight)
    {
      if delayPending { StartClosing(); }
    }

    method OnRaceEnd(outcome: Race, report: Hooks)
      requires Valid() && outcome != Open && closeCalled && !raceOver
      modifies this
      ensures Valid() && View() == EndRace(old(View()), outcome, report)
    {
      if outcome.Rejected? { failed := true; }
      if outcome.TimedOut? {
        failed := true;
        trace := trace + [ForceClose];
      }
      if report != AllPassed { failed := true; }
      trace := trace + [StopTelemetry];
      raceOver, race, hooks := true, outcome, Some(report);
    }

    /** A close that rejects after it lost the race still marks the shutdown failed. */
    method OnLateRejection(report: Hooks)
      requires Valid() && raceOver && !exited && race == TimedOut
      modifies this
      ensures Valid() && View() == Next(config, old(View()), CloseRejects(report))
    {
      failed := true;
    }

    method OnTelemetry(ok: bool)
      requires Valid() && raceOver && !exited
      modifies this
      ensures Valid() && View() == Finish(old(View()), ok)
    {
      if !ok { failed := true; }
      trace := trace + [Exit(if failed then 1 else 0)];
      exited, telemetryOk := true, Some(ok);
    }
  }

  // ---- Every run ----

  /** A whole shutdown. */
  function Script(timedOut: bool, code: nat): seq<Action> {
    if timedOut then [BeginDrain, BeginClosing, CallClose, ForceClose, StopTelemetry, Exit(code)]
    else [BeginDrain, BeginClosing, CallClose, StopTelemetry, Exit(code)]
  }

  /** How much of the script has been played. */
  function Played(s: State): nat {
    match s.pc
    case Idle => 0
    case Delaying => 1
    case Racing => 3
    case Flushing => if s.race.TimedOut? then 5 else 4
    case Done => if s.race.TimedOut? then 6 else 5
  }

  /** The close ended in time, no hook failed, and the telemetry was flushed. */
  predicate Clean(s: State) {
    s.race == Fulfilled && s.hooks == Some(AllPassed) && s.telemetryOk == Some(true)
  }

  ghost predicate Inv(c: Config, s: State) {
    && s.trace == Script(s.race.TimedOut?, if s.failed then 1 else 0)[..Played(s)]
    && (s.race.Open? <==> s.hooks.None?)
    && (s.race.Open? <==> s.pc.Idle? || s.pc.Delaying? || s.pc.Racing?)
    && (s.telemetryOk.Some? <==> s.pc.Done?)
    && (s.failed <==>
         !s.race.Open? && (s.race != Fulfilled || s.hooks != Some(AllPassed) || s.telemetryOk == Some(false)))
    && s.drain.fired == (if s.drain.phase.Serving? then 0 else 1)
    && s.drain.phase == (if s.pc.Idle? then Serving
                         else if !s.pc.Delaying? && !c.closingThrows then Closing
                         else if c.drainThrows then Serving else Draining)
  }

  lemma InvStep(c: Config, s: State, e: Event)
    requires Inv(c, s)
    ensures Inv(c, Next(c, s, e))
    ensures Rank(s.drain.phase) <= Rank(Next(c, s, e).drain.phase)
  {
  }

  lemma {:induction false} InvRun(c: Config, events: seq<Event>)
    ensures Inv(c, Run(c, events))
    decreases |events|
  {
    hide Next;
    if events != [] {
      InvRun(c, events[..|events| - 1]);
      InvStep(c, Run(c, events[..|events| - 1]), events[|events| - 1]);
    }
  }

  lemma FailedExactly(c: Config, s: State)
    requires Inv(c, s) && s.pc.Done?
    ensures s.failed <==> !Clean(s)
  {
    if s.telemetryOk.value {
      assert s.telemetryOk == Some(true);
    } else {
      assert s.telemetryOk == Some(false);
    }
  }

  /** Over every sequence of signals and outcomes the handler's actions are a beginning of one
      script, and all of it once it is done: drain, closing, one call of close(), the forced
      close only after a timeout, the telemetry flush, one exit. The exit code is 0 exactly on
      a clean shutdown, and the drain signal fires at most once. */
  lemma RunsOnce(c: Config, events: seq<Event>)
    ensures var s := Run(c, events);
            var script := Script(s.race.TimedOut?, if Clean(s) then 0 else 1);
            && s.trace <= script
            && (s.pc.Done? <==> s.trace == script)
            && s.drain.fired <= 1
  {
    hide Run, Clean;
    InvRun(c, events);
    var s := Run(c, events);
    if s.pc.Done? {
      FailedExactly(c, s);
    } else {
      assert Script(s.race.TimedOut?, 0)[..Played(s)] == Script(s.race.TimedOut?, 1)[..Played(s)];
    }
  }

  // ---- What the events decide ----

  predicate EndsRace(e: Event) {
    e.CloseFulfils? || e.CloseRejects? || e.DeadlineFires?
  }

  predicate EndsFlush(e: Event) {
    e.TelemetryStops? || e.TelemetryFails?
  }

  /** close() is due: at the first signal without a delay, and with one at the next signal or at
      the end of the delay. */
  ghost predicate CloseDue(c: Config, events: seq<Event>) {
    exists i, j :: 0 <= i <= j < |events| && events[i].Signal? && (events[j].Signal? || events[j].DelayElapsed?)
                   && (c.delayMs > 0 ==> i < j)
  }

  /** The first outcome of the race that close() starts. */
  ghost function RaceEnd(c: Config, events: seq<Event>): (r: Option<Event>)
    ensures r.Some? ==> EndsRace(r.value)
    decreases |events|
  {
    if events == [] then None
    else
      var n := |events| - 1;
      var earlier := RaceEnd(c, events[..n]);
      if earlier.None? && EndsRace(events[n]) && CloseDue(c, events[..n]) then Some(events[n]) else earlier
  }

  /** The first outcome of the telemetry flush that follows. */
  ghost function FlushEnd(c: Config, events: seq<Event>): (r: Option<Event>)
    ensures r.Some? ==> EndsFlush(r.value) && RaceEnd(c, events).Some?
    decreases |events|
  {
    if events == [] then None
    else
      var n := |events| - 1;
      var earlier := FlushEnd(c, events[..n]);
      if earlier.None? && EndsFlush(events[n]) && RaceEnd(c, events[..n]).Some? then Some(events[n]) else earlier
  }

  function RaceOf(e: Option<Event>): Race {
    match e
    case Some(CloseFulfils(_)) => Fulfilled
    case Some(CloseRejects(_)) => Rejected
    case Some(DeadlineFires(_)) => TimedOut
    case _ => Open
  }

  function HooksOf(e: Option<Event>): Option<Hooks> {
    if e.Some? && EndsRace(e.value) then Some(e.value.hooks) else None
  }

  ghost function PcOf(c: Config, events: seq<Event>): Pc {
    if Signal !in events then Idle
    else if !CloseDue(c, events) then Delaying
    else if RaceEnd(c, events).None? then Racing
    else if FlushEnd(c, events).None? then Flushing
    else Done
  }

  ghost predicate Tracks(c: Config, events: seq<Event>, s: State) {
    && s.pc == PcOf(c, events)
    && s.race == RaceOf(RaceEnd(c, events)) && s.hooks == HooksOf(RaceEnd(c, events))
    && (FlushEnd(c, events).Some? ==> s.telemetryOk == Some(FlushEnd(c, events).value.TelemetryStops?))
  }

  lemma CloseDueSnoc(c: Config, events: seq<Event>, e: Event)
    ensures CloseDue(c, events + [e]) <==>
      || CloseDue(c, events)
      || (Signal in events && (e.Signal? || e.DelayElapsed?))
      || (e.Signal? && c.delayMs <= 0)
    ensures CloseDue(c, events) ==> Signal in events
  {
    var all := events + [e];
    if CloseDue(c, all) {
      var i, j :| 0 <= i <= j < |all| && all[i].Signal? && (all[j].Signal? || all[j].DelayElapsed?)
                  && (c.delayMs > 0 ==> i < j);
      if j < |events| { assert events[i] == all[i] && events[j] == all[j]; }
      if i < |events| { assert events[i] == all[i] && all[i] in events; }
    }
    if CloseDue(c, events) {
      var i, j :| 0 <= i <= j < |events| && events[i].Signal? && (events[j].Signal? || events[j].DelayElapsed?)
                  && (c.delayMs > 0 ==> i < j);
      assert all[i] == events[i] && all[j] == events[j] && events[i] == Signal;
    }
    if Signal in events && (e.Signal? || e.DelayElapsed?) {
      var i :| 0 <= i < |events| && events[i] == Signal;
      assert all[i] == events[i] && all[|events|] == e;
    }
    if e.Signal? && c.delayMs <= 0 { assert all[|events|] == e; }
  }

  lemma EndsSnoc(c: Config, events: seq<Event>, e: Event)
    ensures var r, r' := RaceEnd(c, events), RaceEnd(c, events + [e]);
            r' == if r.None? && EndsRace(e) && CloseDue(c, events) then Some(e) else r
    ensures var f, f' := FlushEnd(c, events), FlushEnd(c, events + [e]);
            f' == if f.None? && EndsFlush(e) && RaceEnd(c, events).Some? then Some(e) else f
    ensures RaceEnd(c, events).Some? ==> CloseDue(c, events)
  {
    hide CloseDue;
    assert (events + [e])[..|events|] == events;
    RaceNeedsClose(c, events);
  }

  lemma {:induction false} RaceNeedsClose(c: Config, events: seq<Event>)
    ensures RaceEnd(c, events).Some? ==> CloseDue(c, events)
    decreases |events|
  {
    hide CloseDue;
    if events != [] {
      var n := |events| - 1;
      RaceNeedsClose(c, events[..n]);
      assert events == events[..n] + [events[n]];
      CloseDueSnoc(c, events[..n], events[n]);
    }
  }

  lemma TracksStep(c: Config, events: seq<Event>, s: State, e: Event)
    requires Tracks(c, events, s)
    ensures Tracks(c, events + [e], Next(c, s, e))
  {
    hide CloseDue, RaceEnd, FlushEnd;
    CloseDueSnoc(c, events, e);
    EndsSnoc(c, events, e);
    assert Signal in events + [e] <==> Signal in events || e == Signal;
  }

  lemma {:induction false} TracksRun(c: Config, events: seq<Event>)
    ensures Tracks(c, events, Run(c, events))
    decreases |events|
  {
    hide Next, Tracks;
    if events == [] {
      NothingTracked(c);
    } else {
      var n := |events| - 1;
      TracksRun(c, events[..n]);
      TracksStep(c, events[..n], Run(c, events[..n]), events[n]);
      assert events == events[..n] + [events[n]];
    }
  }

  lemma NothingTracked(c: Config)
    ensures Tracks(c, [], INITIAL)
  {
  }

  /** Everything the handler does, from the events alone: the drain begins at the first signal;
      close() is called when it is due; its first outcome ends the race, with a forced close
      after the deadline; the first outcome of the flush exits, with code 0 exactly when close()
      fulfilled with all hooks passed and the telemetry stopped. */
  lemma TraceExact(c: Config, events: seq<Event>)
    ensures var race, flush := RaceEnd(c, events), FlushEnd(c, events);
            Run(c, events).trace ==
            (if Signal in events then [BeginDrain] else [])
            + (if CloseDue(c, events) then [BeginClosing, CallClose] else [])
            + (if race.None? then []
               else if race.value.DeadlineFires? then [ForceClose, StopTelemetry] else [StopTelemetry])
            + (if flush.None? then []
               else [Exit(if race == Some(CloseFulfils(AllPassed)) && flush == Some(TelemetryStops) then 0 else 1)])
  {
    hide Run, CloseDue, RaceEnd, FlushEnd;
    InvRun(c, events);
    TracksRun(c, events);
    EndsSnoc(c, events, Signal);
    CloseDueSnoc(c, events, Signal);
  }

  lemma {:induction false} EndsStay(c: Config, events: seq<Event>, later: seq<Event>)
    ensures RaceEnd(c, events).Some? ==> RaceEnd(c, events + later) == RaceEnd(c, events)
    ensures FlushEnd(c, events).Some? ==> FlushEnd(c, events + later) == FlushEnd(c, events)
    decreases |later|
  {
    hide RaceEnd, FlushEnd, CloseDue;
    if later == [] {
      assert events + later == events;
    } else {
      var n := |later| - 1;
      EndsStay(c, events, later[..n]);
      EndsSnoc(c, events + later[..n], later[n]);
      assert events + later == events + later[..n] + [later[n]];
    }
  }

  /** A signal, then another or the end of the delay, then an outcome of the race, then one of the
      flush, with anything before, between and after them: the whole script is played. */
  lemma FourEventsSuffice(c: Config, events: seq<Event>, i: nat, j: nat, k: nat, l: nat)
    requires i < j < k < l < |events|
    requires events[i].Signal? && (events[j].Signal? || events[j].DelayElapsed?)
    requires EndsRace(events[k]) && EndsFlush(events[l])
    ensures var s := Run(c, events); s.pc.Done? && s.trace == Script(s.race.TimedOut?, if Clean(s) then 0 else 1)
  {
    hide Run, RaceEnd, FlushEnd, Clean;
    var upTo := events[..k];
    assert upTo[i] == events[i] && upTo[j] == events[j];
    assert CloseDue(c, upTo);
    EndsSnoc(c, upTo, events[k]);
    EndsStay(c, upTo + [events[k]], events[k + 1..l]);
    assert upTo + [events[k]] + events[k + 1..l] == events[..l];
    EndsSnoc(c, events[..l], events[l]);
    EndsStay(c, events[..l] + [events[l]], events[l + 1..]);
    assert events[..l] + [events[l]] + events[l + 1..] == events;
    TracksRun(c, events);
    EndsSnoc(c, events, Signal);
    CloseDueSnoc(c, events, Signal);
    RunsOnce(c, events);
  }

  /** Progress: once signalled, the end of the delay (or another signal), the deadline and the
      telemetry suffice, from wherever the shutdown is, to exit. */
  lemma AlwaysExits(c: Config, events: seq<Event>, e: Event, hooks: Hooks)
    requires Signal in events && (e == Signal || e == DelayElapsed)
    ensures var s := Run(c, events + [e] + [DeadlineFires(hooks)] + [TelemetryStops]);
            s.pc.Done? && exists code :: Exit(code) in s.trace
  {
    hide Run, CloseDue, RaceEnd, FlushEnd;
    CloseDueSnoc(c, events, e);
    EndsSnoc(c, events + [e], DeadlineFires(hooks));
    CloseDueSnoc(c, events + [e], DeadlineFires(hooks));
    EndsSnoc(c, events + [e] + [DeadlineFires(hooks)], TelemetryStops);
    CloseDueSnoc(c, events + [e] + [DeadlineFires(hooks)], TelemetryStops);
    var all := events + [e] + [DeadlineFires(hooks)] + [TelemetryStops];
    TracksRun(c, all);
    TraceExact(c, all);
    assert Signal in all;
    var t := Run(c, all).trace;
    assert t[|t| - 1].Exit?;
    assert Exit(t[|t| - 1].code) in t;
  }

  /** Signals beyond the first never change how the shutdown ends: replacing each of them by
      the end of the delay gives the same state. */
  function Replaced(events: seq<Event>, started: bool): seq<Event> {
    if events == [] then []
    else if events[0].Signal? then [if started then DelayElapsed else Signal] + Replaced(events[1..], true)
    else [events[0]] + Replaced(events[1..], started)
  }

  function RunFrom(c: Config, s: State, events: seq<Event>): State
    decreases |events|
  {
    if events == [] then s else RunFrom(c, Next(c, s, events[0]), events[1..])
  }

  lemma {:induction false} ExtraSignalsOnlyShortenDelay(c: Config, s: State, events: seq<Event>)
    ensures RunFrom(c, s, Replaced(events, !s.pc.Idle?)) == RunFrom(c, s, events)
    decreases |events|
  {
    if events != [] {
      var e, rest := events[0], Replaced(events[1..], !s.pc.Idle? || events[0].Signal?);
      var s' := Next(c, s, e);
      ExtraSignalsOnlyShortenDelay(c, s', events[1..]);
      StillIdle(c, s, e);
      assert Replaced(events, !s.pc.Idle?)[1..] == rest;
    }
  }

  lemma StillIdle(c: Config, s: State, e: Event)
    ensures Next(c, s, e).pc.Idle? <==> s.pc.Idle? && !e.Signal?
    ensures !s.pc.Idle? ==> Next(c, s, Signal) == Next(c, s, DelayElapsed)
  {
  }

  // ---- The drain gate ----

  /** `sse`: a GET on one of the two event-stream routes. */
  datatype Request = Request(id: nat, sse: bool)

  /** A step of the handler, the arrival marker on a request's headers, or the gate, after its
      body has been read. Marker and gate run once per request. */
  datatype Moment = Handle(e: Event) | Arrive(r: Request) | Gate(r: Request)

  /** `stamps` holds the phases that the marker wrote, `refused` the answers of the gate. */
  datatype Traffic = Traffic(handler: State, stamps: map<Request, Phase>, refused: map<Request, bool>)

  /** The gate reads only the stamp and the route; a request that the marker never saw passes. */
  function NextMoment(c: Config, t: Traffic, m: Moment): Traffic {
    match m
    case Handle(e) => t.(handler := Next(c, t.handler, e))
    case Arrive(r) => if r in t.stamps then t else t.(stamps := t.stamps[r := t.handler.drain.phase])
    case Gate(r) =>
      if r in t.refused then t
      else t.(refused := t.refused[r := r in t.stamps && t.stamps[r] == Closing && !r.sse])
  }

  function RunTraffic(c: Config, moments: seq<Moment>): Traffic
    decreases |moments|
  {
    if moments == [] then Traffic(INITIAL, map[], map[])
    else NextMoment(c, RunTraffic(c, moments[..|moments| - 1]), moments[|moments| - 1])
  }

  lemma {:induction false} InvTraffic(c: Config, moments: seq<Moment>)
    ensures Inv(c, RunTraffic(c, moments).handler)
    decreases |moments|
  {
    hide Next, Inv;
    if moments == [] {
      InvRun(c, []);
    } else {
      var n := |moments| - 1;
      InvTraffic(c, moments[..n]);
      if moments[n].Handle? { InvStep(c, RunTraffic(c, moments[..n]).handler, moments[n].e); }
    }
  }

  /** The stamp of r is p, and so is what its answer, if it has one, was based on. */
  predicate Stamped(t: Traffic, r: Request, p: Phase) {
    r in t.stamps && t.stamps[r] == p && (r in t.refused ==> (t.refused[r] <==> p == Closing && !r.sse))
  }

  lemma {:induction false} StampStays(c: Config, before: seq<Moment>, after: seq<Moment>, r: Request, p: Phase)
    requires Stamped(RunTraffic(c, before), r, p)
    ensures Stamped(RunTraffic(c, before + after), r, p)
    decreases |after|
  {
    hide Next;
    if after == [] {
      assert before + after == before;
    } else {
      var n := |after| - 1;
      StampStays(c, before, after[..n], r, p);
      assert (before + after)[..|before| + n] == before + after[..n];
      assert (before + after)[|before| + n] == after[n];
    }
  }

  lemma LastMoment(c: Config, moments: seq<Moment>, m: Moment)
    ensures RunTraffic(c, moments + [m]) == NextMoment(c, RunTraffic(c, moments), m)
  {
    assert (moments + [m])[..|moments|] == moments;
  }

  lemma ClosingExactly(c: Config, s: State)
    requires Inv(c, s)
    ensures s.drain.phase == Closing <==> CallClose in s.trace && !c.closingThrows
  {
    if !s.pc.Idle? && !s.pc.Delaying? { assert s.trace[2] == CallClose; }
  }

  /** A request is refused exactly when close() had been called before its headers arrived (and
      `beginClosing` had not thrown) and it is no event stream: whatever happens between its
      arrival and its gate, signals, timeouts, the close itself, other requests, does not
      change the answer. */
  lemma ArrivalDecides(c: Config, before: seq<Moment>, r: Request, between: seq<Moment>)
    requires r !in RunTraffic(c, before).stamps && r !in RunTraffic(c, before).refused
    ensures var arrived := RunTraffic(c, before).handler;
            var end := RunTraffic(c, before + [Arrive(r)] + between + [Gate(r)]);
            r in end.refused && (end.refused[r] <==> CallClose in arrived.trace && !c.closingThrows && !r.sse)
  {
    hide Next, Inv, RunTraffic;
    var p := RunTraffic(c, before).handler.drain.phase;
    LastMoment(c, before, Arrive(r));
    StampStays(c, before + [Arrive(r)], between, r, p);
    LastMoment(c, before + [Arrive(r)] + between, Gate(r));
    InvTraffic(c, before);
    ClosingExactly(c, RunTraffic(c, before).handler);
  }
}
