/**
  The template poller: fetches, installs, pauses while the node is unfit, and gives up on two timers.
  What the node answers and what the clock reads are inputs of each turn.
 */
module Poller {
  import opened Wrappers
  import opened Bytes

  const POLL_INTERVAL: nat := 500
  const REFRESH_INTERVAL: nat := 30_000
  const MAX_TEMPLATE_OUTAGE: nat := 120_000
  const READINESS_INTERVAL: nat := 60_000
  const MAX_UNREADY: nat := 1_800_000

  /** A template, and whether a job could be built from it. */
  datatype Template = Template(tip: string, bits: Option<u32>, builds: bool)

  datatype Check = Unasked | Fit | Unfit

  /** What the clock reads at each place a turn reads it, in milliseconds. */
  datatype Clock = Clock(refresh: nat, installed: nat, outage: nat, due: nat, checked: nat, since: nat, judged: nat, paused: nat)
  {
    predicate Ordered() { refresh <= installed <= outage <= due <= checked <= since <= judged <= paused }
  }

  datatype Input = Input(stop: bool, template: Option<Template>, check: Check, clock: Clock)

  /** What can be seen of a run: its calls, its announcements, a check that could not be made, and the timer held at the start of a pause. */
  datatype Event =
    | Fetched
    | Installed(tip: string, bits: Option<u32>, clean: bool, at: nat)
    | PoolReady
    | Checked(fit: bool, at: nat)
    | AskFailed(at: nat)
    | Paused(at: nat)
    | TimerHeld(at: nat)
    | Resumed

  datatype Exit = Running | Stopped | Outage(at: nat) | NodeUnfit(at: nat)

  datatype State = State(
    lastTip: Option<string>,
    lastBits: Option<u32>,
    lastBuilt: nat,
    lastJobInstalled: nat,
    lastReadinessCheck: nat,
    announcedReady: bool,
    unreadySince: Option<nat>,
    announcedUnready: bool)

  function Initial(now: nat): State { State(None, None, now, now, now, false, None, false) }

  function Elapsed(now: nat, since: nat): nat { if now >= since then now - since else 0 }

  predicate BitsChanged(before: Option<u32>, after: Option<u32>) { before.Some? && after.Some? && before != after }

  // ----- one turn -----

  /** Fetches a template, and builds and installs a job when the tip or the target moved or the last job is old. */
  function FetchAndInstall(s: State, i: Input): (State, seq<Event>)
  {
    if i.template.None? then (s, [Fetched])
    else
      var t := i.template.value;
      var moved := s.lastTip != Some(t.tip) || BitsChanged(s.lastBits, t.bits);
      if (moved || Elapsed(i.clock.refresh, s.lastBuilt) >= REFRESH_INTERVAL) && t.builds then
        (s.(lastTip := Some(t.tip), lastBits := t.bits, lastBuilt := i.clock.installed, lastJobInstalled := i.clock.installed,
            announcedReady := true),
         [Fetched, Installed(t.tip, t.bits, moved, i.clock.installed)] + if s.announcedReady then [] else [PoolReady])
      else (s, [Fetched])
  }

  function Recheck(s: State, i: Input): (State, seq<Event>, Exit)
  {
    if Elapsed(i.clock.due, s.lastReadinessCheck) < READINESS_INTERVAL then (s, [], Running)
    else
      var asked := s.(lastReadinessCheck := i.clock.checked);
      match i.check
      case Unasked => (asked, [AskFailed(i.clock.checked)], Running)
      case Fit =>
        (asked.(unreadySince := None, announcedUnready := false),
         [Checked(true, i.clock.checked)] + if s.announcedUnready then [Resumed] else [], Running)
      case Unfit =>
        var since := if s.unreadySince.Some? then s.unreadySince.value else i.clock.since;
        var unready := asked.(unreadySince := Some(since));
        if Elapsed(i.clock.judged, since) >= MAX_UNREADY then (unready, [Checked(false, i.clock.checked)], NodeUnfit(i.clock.judged))
        else
          (unready.(announcedUnready := true),
           [Checked(false, i.clock.checked)] + if s.announcedUnready then [] else [Paused(i.clock.since)], Running)
  }

  /** One turn of the loop. */
  function Turn(s: State, i: Input): (State, seq<Event>, Exit)
  {
    if i.stop then (s, [], Stopped)
    else if s.unreadySince.Some? then Recheck(s, i)
    else
      var (fetched, events) := FetchAndInstall(s, i);
      if Elapsed(i.clock.outage, fetched.lastJobInstalled) >= MAX_TEMPLATE_OUTAGE then (fetched, events, Outage(i.clock.outage))
      else
        var (checked, more, exit) := Recheck(fetched, i);
        if exit.Running? && checked.unreadySince.Some? then
          (checked.(lastJobInstalled := i.clock.paused), events + more + [TimerHeld(i.clock.paused)], exit)
        else (checked, events + more, exit)
  }

  /** Turns until one exits. */
  function Run(s: State, inputs: seq<Input>): (State, seq<Event>, Exit)
    decreases |inputs|
  {
    if inputs == [] then (s, [], Running)
    else
      var (t, events, exit) := Turn(s, inputs[0]);
      if !exit.Running? then (t, events, exit)
      else var (u, more, last) := Run(t, inputs[1..]); (u, events + more, last)
  }

  class Poller {
    var state: State
    var events: seq<Event>

    constructor (now: nat)
      ensures state == Initial(now) && events == []
    {
      state, events := Initial(now), [];
    }

    method Emit(e: Event)
      modifies this`events
      ensures events == old(events) + [e]
    {
      events := events + [e];
    }

    method RecheckReadiness(i: Input) returns (exit: Exit)
      modifies this
      ensures (state, events, exit) == (Recheck(old(state), i).0, old(events) + Recheck(old(state), i).1, Recheck(old(state), i).2)
    {
      if Elapsed(i.clock.due, state.lastReadinessCheck) < READINESS_INTERVAL {
        assert events == events + [];
        return Running;
      }
      state := state.(lastReadinessCheck := i.clock.checked);
      match i.check
      case Unasked =>
        Emit(AskFailed(i.clock.checked));
        return Running;
      case Unfit =>
        Emit(Checked(false, i.clock.checked));
        if state.unreadySince.None? { state := state.(unreadySince := Some(i.clock.since)); }
        if Elapsed(i.clock.judged, state.unreadySince.value) >= MAX_UNREADY { return NodeUnfit(i.clock.judged); }
        if !state.announcedUnready {
          state := state.(announcedUnready := true);
          Emit(Paused(i.clock.since));
        }
        assert events == old(events) + Recheck(old(state), i).1;
        return Running;
      case Fit =>
        Emit(Checked(true, i.clock.checked));
        if state.announcedUnready { Emit(Resumed); }
        state := state.(announcedUnready := false);
        state := state.(unreadySince := None);
        assert events == old(events) + Recheck(old(state), i).1;
        return Running;
    }

    method FetchTemplate(i: Input)
      modifies this
      ensures (state, events) == (FetchAndInstall(old(state), i).0, old(events) + FetchAndInstall(old(state), i).1)
    {
      Emit(Fetched);
      if i.template.None? { return; }
      var t := i.template.value;
      var tipChanged := state.lastTip != Some(t.tip);
      var bitsChanged := state.lastBits.Some? && t.bits.Some? && t.bits != state.lastBits;
      var stale := Elapsed(i.clock.refresh, state.lastBuilt) >= REFRESH_INTERVAL;
      if (tipChanged || bitsChanged || stale) && t.builds {
        Emit(Installed(t.tip, t.bits, tipChanged || bitsChanged, i.clock.installed));
        if !state.announcedReady {
          state := state.(announcedReady := true);
          Emit(PoolReady);
        }
        state := state.(lastTip := Some(t.tip));
        state := state.(lastBits := t.bits);
        state := state.(lastBuilt := i.clock.installed);
        state := state.(lastJobInstalled := i.clock.installed);
      }
      assert events == old(events) + FetchAndInstall(old(state), i).1;
    }

    method TakeTurn(i: Input) returns (exit: Exit)
      modifies this
      ensures (state, events, exit) == (Turn(old(state), i).0, old(events) + Turn(old(state), i).1, Turn(old(state), i).2)
    {
      hide FetchAndInstall, Recheck;
      assert old(events) + [] == old(events);
      if i.stop { return Stopped; }
      if state.unreadySince.Some? {
        exit := RecheckReadiness(i);
        return exit;
      }
      FetchTemplate(i);
      ghost var fetched := FetchAndInstall(old(state), i);
      if Elapsed(i.clock.outage, state.lastJobInstalled) >= MAX_TEMPLATE_OUTAGE { return Outage(i.clock.outage); }
      exit := RecheckReadiness(i);
      assert events == old(events) + (fetched.1 + Recheck(fetched.0, i).1);
      if !exit.Running? { return exit; }
      if state.unreadySince.Some? {
        state := state.(lastJobInstalled := i.clock.paused);
        ghost var before := events;
        Emit(TimerHeld(i.clock.paused));
        Regroup(old(events), fetched.1 + Recheck(fetched.0, i).1, [TimerHeld(i.clock.paused)]);
      }
    }

    method Poll(inputs: seq<Input>) returns (exit: Exit)
      modifies this
      ensures (state, events, exit) == (Run(old(state), inputs).0, old(events) + Run(old(state), inputs).1, Run(old(state), inputs).2)
    {
      hide Turn;
      exit := Running;
      assert inputs[0..] == inputs;
      for k := 0 to |inputs|
        invariant Run(old(state), inputs).0 == Run(state, inputs[k..]).0 && Run(old(state), inputs).2 == Run(state, inputs[k..]).2
        invariant old(events) + Run(old(state), inputs).1 == events + Run(state, inputs[k..]).1
      {
        assert inputs[k..][1..] == inputs[k + 1..];
        ghost var before, rest := events, Run(Turn(state, inputs[k]).0, inputs[k + 1..]).1;
        ghost var turn := Turn(state, inputs[k]).1;
        exit := TakeTurn(inputs[k]);
        assert before + (turn + rest) == before + turn + rest;
        if !exit.Running? { return exit; }
      }
      assert events + [] == events;
      exit := Running;
    }
  }

  // ----- what a log says -----

  /** When the pause that is on was announced, if one is. */
  function Spell(log: seq<Event>): Option<nat>
  {
    if log == [] then None
    else
      var e := log[|log| - 1];
      if e.Paused? then Some(e.at) else if e.Resumed? then None else Spell(log[..|log| - 1])
  }

  /** A pause has been announced and not yet ended. */
  predicate Open(log: seq<Event>) { Spell(log).Some? }

  function LastInstall(log: seq<Event>): Option<Event>
  {
    if log == [] then None
    else if log[|log| - 1].Installed? then Some(log[|log| - 1]) else LastInstall(log[..|log| - 1])
  }

  /** When the checks that have failed ever since began to. */
  function FailingSince(log: seq<Event>): Option<nat>
  {
    if log == [] then None
    else
      var e, before := log[|log| - 1], FailingSince(log[..|log| - 1]);
      if !e.Checked? then before else if e.fit then None else if before.Some? then before else Some(e.at)
  }

  /** When the outage timer was last set: at an install, at the start of a pause, or when the poller started. */
  function LastRelief(log: seq<Event>, start: nat): nat
  {
    if log == [] then start
    else
      var e := log[|log| - 1];
      if e.Installed? || e.TimerHeld? then e.at else LastRelief(log[..|log| - 1], start)
  }

  /** When readiness was last asked about, with or without an answer. */
  function LastAsked(log: seq<Event>, start: nat): nat
  {
    if log == [] then start
    else
      var e := log[|log| - 1];
      if e.Checked? || e.AskFailed? then e.at else LastAsked(log[..|log| - 1], start)
  }

  /** Whether an event may follow a log. */
  predicate MayFollow(log: seq<Event>, e: Event)
  {
    match e
    case Fetched => !Open(log)
    case Installed(tip, bits, clean, at) =>
      var last := LastInstall(log);
      !Open(log) && (!clean <==> last.Some? && last.value.Installed? && last.value.tip == tip && !BitsChanged(last.value.bits, bits))
    case PoolReady => PoolReady !in log && log != [] && log[|log| - 1].Installed?
    case Checked(_, _) => true
    case AskFailed(_) => true
    case Paused(_) => !Open(log)
    case TimerHeld(_) => log != [] && log[|log| - 1].Paused?
    case Resumed => Open(log)
  }

  /**
    No fetch while paused; pauses and resumptions alternate; one readiness signal, right after an install;
    a job keeps work in flight exactly when its parent and target are the last install's.
   */
  predicate Lawful(log: seq<Event>)
  {
    log == [] || (Lawful(log[..|log| - 1]) && MayFollow(log[..|log| - 1], log[|log| - 1]))
  }

  /** The state is what the log says. */
  predicate Linked(s: State, log: seq<Event>, start: nat)
  {
    && s.unreadySince == Spell(log) && s.announcedUnready == Open(log)
    && s.announcedReady == (PoolReady in log) == LastInstall(log).Some?
    && s.lastReadinessCheck == LastAsked(log, start) && s.lastJobInstalled == LastRelief(log, start)
    && (match LastInstall(log)
        case Some(Installed(tip, bits, _, at)) => s.lastTip == Some(tip) && s.lastBits == bits && s.lastBuilt == at
        case _ => LastInstall(log).None? && s.lastTip.None? && s.lastBits.None? && s.lastBuilt == start)
    && FailingSince(log).Some? == Open(log)
    && (Open(log) ==> FailingSince(log).value <= Spell(log).value)
  }

  /** What a fatal exit must show for itself. */
  predicate Justified(exit: Exit, log: seq<Event>, start: nat)
  {
    match exit
    case Outage(at) => at >= LastRelief(log, start) + MAX_TEMPLATE_OUTAGE && !Open(log)
    case NodeUnfit(at) => FailingSince(log).Some? && at >= FailingSince(log).value + MAX_UNREADY
    case _ => true
  }

  /** How one more event moves everything read off a log. */
  lemma OneMore(log: seq<Event>, e: Event, start: nat)
    ensures var next := log + [e];
      && Spell(next) == (if e.Paused? then Some(e.at) else if e.Resumed? then None else Spell(log))
      && LastInstall(next) == (if e.Installed? then Some(e) else LastInstall(log))
      && FailingSince(next) == (if !e.Checked? then FailingSince(log) else if e.fit then None
                                else if FailingSince(log).Some? then FailingSince(log) else Some(e.at))
      && LastRelief(next, start) == (if e.Installed? || e.TimerHeld? then e.at else LastRelief(log, start))
      && LastAsked(next, start) == (if e.Checked? || e.AskFailed? then e.at else LastAsked(log, start))
      && (Lawful(next) <==> Lawful(log) && MayFollow(log, e))
      && (PoolReady in next <==> PoolReady in log || e == PoolReady)
  {
    assert (log + [e])[..|log|] == log;
  }

  /** A fetch, and an install when there is one, happen outside any pause. */
  lemma FetchKeepsLaw(s: State, log: seq<Event>, i: Input, start: nat)
    requires Lawful(log) && Linked(s, log, start) && s.unreadySince.None?
    ensures var (t, events) := FetchAndInstall(s, i);
      Lawful(log + events) && Linked(t, log + events, start) && t.unreadySince.None? && t.lastReadinessCheck == s.lastReadinessCheck
  {
    var (t, events) := FetchAndInstall(s, i);
    hide Spell, LastInstall, FailingSince, LastRelief, LastAsked, Lawful;
    OneMore(log, Fetched, start);
    var fetched := log + [Fetched];
    if |events| > 1 {
      OneMore(fetched, events[1], start);
      var installed := fetched + [events[1]];
      assert installed[|installed| - 1].Installed?;
      if |events| > 2 {
        OneMore(installed, PoolReady, start);
        assert log + events == installed + [PoolReady];
      } else {
        assert log + events == installed;
      }
    }
  }

  lemma RecheckKeepsLaw(s: State, log: seq<Event>, i: Input, start: nat)
    requires Lawful(log) && Linked(s, log, start) && i.clock.Ordered()
    ensures var (t, events, exit) := Recheck(s, i);
      && Lawful(log + events) && Justified(exit, log + events, start) && !exit.Outage? && !exit.Stopped?
      && (exit.Running? ==>
            && Linked(t, log + events, start)
            && (s.unreadySince.None? && t.unreadySince.Some? ==> events != [] && events[|events| - 1].Paused?))
  {
    var (t, events, exit) := Recheck(s, i);
    hide Spell, LastInstall, FailingSince, LastRelief, LastAsked, Lawful;
    assert log + [] == log;
    if events != [] {
      OneMore(log, events[0], start);
      var checked := log + [events[0]];
      if |events| > 1 {
        OneMore(checked, events[1], start);
        assert log + events == checked + [events[1]];
      } else {
        assert log + events == checked;
      }
    }
  }

  lemma TurnKeepsLaw(s: State, log: seq<Event>, i: Input, start: nat)
    requires Lawful(log) && Linked(s, log, start) && i.clock.Ordered()
    ensures var (t, events, exit) := Turn(s, i);
      Lawful(log + events) && Justified(exit, log + events, start) && (exit.Running? ==> Linked(t, log + events, start))
  {
    hide FetchAndInstall, Recheck, Lawful, Spell, LastInstall, FailingSince, LastRelief, LastAsked;
    assert log + [] == log;
    if i.stop {
    } else if s.unreadySince.Some? {
      RecheckKeepsLaw(s, log, i, start);
    } else {
      var (fetched, events) := FetchAndInstall(s, i);
      FetchKeepsLaw(s, log, i, start);
      RecheckKeepsLaw(fetched, log + events, i, start);
      var (checked, more, exit) := Recheck(fetched, i);
      assert log + (events + more) == log + events + more;
      if exit.Running? && checked.unreadySince.Some? {
        TimerKeepsLaw(checked, log + events + more, i.clock.paused, start);
        assert log + (events + more + [TimerHeld(i.clock.paused)]) == log + events + more + [TimerHeld(i.clock.paused)];
      }
    }
  }

  lemma TimerKeepsLaw(s: State, log: seq<Event>, at: nat, start: nat)
    requires Lawful(log) && Linked(s, log, start) && log != [] && log[|log| - 1].Paused?
    ensures Lawful(log + [TimerHeld(at)]) && Linked(s.(lastJobInstalled := at), log + [TimerHeld(at)], start)
  {
    hide Spell, LastInstall, FailingSince, LastRelief, LastAsked, Lawful;
    OneMore(log, TimerHeld(at), start);
  }

  lemma {:induction false} RunKeepsLaw(s: State, log: seq<Event>, inputs: seq<Input>, start: nat)
    requires Lawful(log) && Linked(s, log, start) && forall i :: i in inputs ==> i.clock.Ordered()
    ensures var (t, events, exit) := Run(s, inputs);
      Lawful(log + events) && Justified(exit, log + events, start) && (exit.Running? ==> Linked(t, log + events, start))
    decreases |inputs|
  {
    hide Turn, Lawful, Linked;
    if inputs == [] {
      assert log + [] == log;
    } else {
      var (t, events, exit) := Turn(s, inputs[0]);
      TurnKeepsLaw(s, log, inputs[0], start);
      if exit.Running? {
        RunKeepsLaw(t, log + events, inputs[1..], start);
        assert log + (events + Run(t, inputs[1..]).1) == log + events + Run(t, inputs[1..]).1;
      }
    }
  }

  /**
    Over every timed run: nothing is fetched while paused; pauses and resumptions alternate; readiness is
    announced at most once and right after an install; a job that keeps work in flight has the parent and
    target of the last install; giving up on an unfit node takes thirty minutes of failing checks with no
    passing one; and giving up for want of jobs takes two minutes since the last install or pause start.
   */
  lemma PollerIsSafe(start: nat, inputs: seq<Input>)
    requires forall i :: i in inputs ==> i.clock.Ordered()
    ensures var (t, log, exit) := Run(Initial(start), inputs); Lawful(log) && Justified(exit, log, start)
  {
    RunKeepsLaw(Initial(start), [], inputs, start);
    assert [] + Run(Initial(start), inputs).1 == Run(Initial(start), inputs).1;
  }

  // ----- what a turn must do, read off the log -----

  /** The template's parent is not the last install's, or both give a target and it is another. */
  predicate Moved(log: seq<Event>, t: Template)
  {
    match LastInstall(log)
    case Some(Installed(tip, bits, _, _)) => tip != t.tip || (bits.Some? && t.bits.Some? && bits.value != t.bits.value)
    case _ => true
  }

  function LastInstallAt(log: seq<Event>, start: nat): nat
  {
    match LastInstall(log) case Some(Installed(_, _, _, at)) => at case _ => start
  }

  /** A job is to be installed: outside a pause, from a template that builds, when it moved or the last is thirty seconds old. */
  predicate MustInstall(log: seq<Event>, start: nat, i: Input)
  {
    && !Open(log) && i.template.Some? && i.template.value.builds
    && (Moved(log, i.template.value) || i.clock.refresh >= LastInstallAt(log, start) + 30_000)
  }

  /** No job for two minutes: outside a pause, counting from this turn's install if it makes one. */
  predicate MustStopForWant(log: seq<Event>, start: nat, i: Input)
  {
    && !Open(log)
    && i.clock.outage >= (if MustInstall(log, start, i) then i.clock.installed else LastRelief(log, start)) + 120_000
  }

  /** The last question is a minute old, and the pool is not giving up for want of jobs. */
  predicate MustAsk(log: seq<Event>, start: nat, i: Input)
  {
    !MustStopForWant(log, start, i) && i.clock.due >= LastAsked(log, start) + 60_000
  }

  /** The check fails, and the spell it belongs to, which this check may begin, is thirty minutes old. */
  predicate MustStopUnfit(log: seq<Event>, start: nat, i: Input)
  {
    && MustAsk(log, start, i) && i.check.Unfit?
    && i.clock.judged >= (if Open(log) then Spell(log).value else i.clock.since) + 1_800_000
  }

  /** The fetch of a turn outside a pause, and the install it leads to. */
  function FetchPart(log: seq<Event>, start: nat, i: Input): seq<Event>
  {
    if Open(log) then []
    else if !MustInstall(log, start, i) then [Fetched]
    else
      [Fetched, Installed(i.template.value.tip, i.template.value.bits, Moved(log, i.template.value), i.clock.installed)]
      + if LastInstall(log).None? then [PoolReady] else []
  }

  /** The check of a turn in which one is due, and the pause it begins or ends. */
  function CheckPart(log: seq<Event>, start: nat, i: Input): seq<Event>
  {
    if !MustAsk(log, start, i) then []
    else
      match i.check
      case Unasked => [AskFailed(i.clock.checked)]
      case Fit => [Checked(true, i.clock.checked)] + if Open(log) then [Resumed] else []
      case Unfit =>
        [Checked(false, i.clock.checked)]
        + if Open(log) || MustStopUnfit(log, start, i) then [] else [Paused(i.clock.since), TimerHeld(i.clock.paused)]
  }

  /** Everything a turn is to show, in order. */
  function Shown(log: seq<Event>, start: nat, i: Input): seq<Event> { FetchPart(log, start, i) + CheckPart(log, start, i) }

  lemma FetchShown(s: State, log: seq<Event>, start: nat, i: Input)
    requires Linked(s, log, start) && !Open(log)
    ensures var (t, events) := FetchAndInstall(s, i);
      && events == FetchPart(log, start, i)
      && t.lastJobInstalled == (if MustInstall(log, start, i) then i.clock.installed else LastRelief(log, start))
      && t.unreadySince == s.unreadySince && t.announcedUnready == s.announcedUnready && t.lastReadinessCheck == s.lastReadinessCheck
  {
    hide Spell, LastInstall, FailingSince, LastRelief, LastAsked;
  }

  lemma CheckShown(s: State, log: seq<Event>, start: nat, i: Input)
    requires s.unreadySince == Spell(log) && s.announcedUnready == Open(log) && s.lastReadinessCheck == LastAsked(log, start)
    requires !MustStopForWant(log, start, i)
    ensures var (t, events, exit) := Recheck(s, i);
      && events + (if exit.Running? && !Open(log) && t.unreadySince.Some? then [TimerHeld(i.clock.paused)] else []) == CheckPart(log, start, i)
      && exit == if MustStopUnfit(log, start, i) then NodeUnfit(i.clock.judged) else Running
  {
    hide Spell, LastAsked, MustStopForWant;
  }

  /** A turn does exactly what the log and its own readings call for. */
  lemma TurnShown(s: State, log: seq<Event>, start: nat, i: Input)
    requires Linked(s, log, start) && !i.stop
    ensures var (t, events, exit) := Turn(s, i);
      && events == Shown(log, start, i)
      && exit == (if MustStopForWant(log, start, i) then Outage(i.clock.outage)
                  else if MustStopUnfit(log, start, i) then NodeUnfit(i.clock.judged) else Running)
  {
    hide Spell, LastInstall, FailingSince, LastRelief, LastAsked, FetchAndInstall, Recheck, FetchPart, CheckPart, MustInstall, MustStopUnfit;
    var part := CheckPart(log, start, i);
    if Open(log) {
      CheckShown(s, log, start, i);
      assert FetchPart(log, start, i) + part == part by { NothingFetched(log, start, i); }
    } else {
      FetchShown(s, log, start, i);
      var (fetched, events) := FetchAndInstall(s, i);
      if MustStopForWant(log, start, i) {
        NothingAsked(log, start, i);
      } else {
        CheckShown(fetched, log, start, i);
        Regroup(events, Recheck(fetched, i).1, [TimerHeld(i.clock.paused)]);
      }
    }
  }

  lemma NothingFetched(log: seq<Event>, start: nat, i: Input)
    requires Open(log)
    ensures FetchPart(log, start, i) == []
  {
  }

  lemma NothingAsked(log: seq<Event>, start: nat, i: Input)
    requires MustStopForWant(log, start, i)
    ensures CheckPart(log, start, i) == [] && !MustStopUnfit(log, start, i)
  {
  }

  lemma StartIsLinked(start: nat)
    ensures Lawful([]) && Linked(Initial(start), [], start)
  {
  }

  /**
    Over every timed run, the next turn stops the pool for want of jobs exactly when none was installed and
    no pause began for two minutes; it stops it over the node exactly when a check is due and fails thirty
    minutes into the unfit spell; and it shows exactly the calls and announcements the log calls for.
   */
  lemma ExitsWhenItMust(start: nat, inputs: seq<Input>, i: Input)
    requires (forall j :: j in inputs ==> j.clock.Ordered()) && Run(Initial(start), inputs).2.Running?
    ensures var (s, log, _) := Run(Initial(start), inputs);
      var (_, events, exit) := Turn(s, i);
      && (exit.Stopped? <==> i.stop)
      && (exit.Outage? <==> !i.stop && MustStopForWant(log, start, i))
      && (exit.NodeUnfit? <==> !i.stop && MustStopUnfit(log, start, i))
      && events == if i.stop then [] else Shown(log, start, i)
  {
    hide Run, MustStopForWant, MustStopUnfit, Shown, Linked, Lawful;
    StartIsLinked(start);
    RunKeepsLaw(Initial(start), [], inputs, start);
    var (s, log, _) := Run(Initial(start), inputs);
    assert [] + log == log;
    if !i.stop { TurnShown(s, log, start, i); }
    if MustStopForWant(log, start, i) { NothingAsked(log, start, i); }
  }

  /**
    A fit turn never leaves miners behind: given a template that builds, the last install then has its
    parent, no other target, and is less than thirty seconds old; and readiness was asked within the last minute.
   */
  lemma FreshAfterTurn(s: State, i: Input)
    requires !i.stop && s.unreadySince.None? && i.clock.Ordered() && Turn(s, i).2.Running?
    ensures var t := Turn(s, i).0;
      && Elapsed(i.clock.due, t.lastReadinessCheck) < READINESS_INTERVAL
      && (i.template.Some? && i.template.value.builds ==>
            && t.lastTip == Some(i.template.value.tip) && !BitsChanged(t.lastBits, i.template.value.bits)
            && Elapsed(i.clock.refresh, t.lastBuilt) < REFRESH_INTERVAL)
  {
  }

  // ----- the outage timer after a pause -----

  /** A paused turn never touches the outage timer, whatever the check says. */
  lemma {:induction false} PauseLeavesTimer(s: State, inputs: seq<Input>)
    requires s.unreadySince.Some? && forall k :: 0 <= k < |inputs| ==> Run(s, inputs[..k]).0.unreadySince.Some?
    requires Run(s, inputs).2.Running?
    ensures Run(s, inputs).0.lastJobInstalled == s.lastJobInstalled
    decreases |inputs|
  {
    hide Recheck;
    if inputs != [] {
      var t := Turn(s, inputs[0]).0;
      RecheckLeavesTimer(s, inputs[0]);
      if |inputs| > 1 {
        forall k | 0 <= k < |inputs| - 1
          ensures Run(t, inputs[1..][..k]).0 == Run(s, inputs[..k + 1]).0
        {
          assert inputs[..k + 1][1..] == inputs[1..][..k];
        }
        assert Run(t, inputs[1..][..0]).0 == t;
        PauseLeavesTimer(t, inputs[1..]);
      } else {
        assert inputs[1..] == [];
      }
    }
  }

  lemma RecheckLeavesTimer(s: State, i: Input)
    ensures Recheck(s, i).0.lastJobInstalled == s.lastJobInstalled
  {
  }

  /** `s` is paused, stays so until the last of these turns, and is fit after it. */
  predicate PauseEnds(s: State, turns: seq<Input>)
  {
    && turns != [] && (forall k :: 0 <= k < |turns| ==> Run(s, turns[..k]).0.unreadySince.Some?)
    && Run(s, turns).2.Running? && Run(s, turns).0.unreadySince.None?
  }

  /**
    The timer keeps running through a pause: the first turn after one that installs nothing is fatal
    exactly when the timer was last set, which is when the pause began, two minutes before.
   */
  lemma FirstFailureAfterPause(s: State, turns: seq<Input>, i: Input)
    requires PauseEnds(s, turns) && !i.stop && (i.template.None? || !i.template.value.builds)
    ensures Turn(Run(s, turns).0, i).2.Outage? <==> i.clock.outage >= s.lastJobInstalled + MAX_TEMPLATE_OUTAGE
  {
    assert turns[..0] == [];
    PauseLeavesTimer(s, turns);
    assert !Recheck(Run(s, turns).0, i).2.Outage?;
  }

  function At(now: nat): Clock { Clock(now, now, now, now, now, now, now, now) }

  /** When each turn of the long pause asks: half a second apart, but for the wait on either side of the pause. */
  function Time(k: nat): nat { if k <= 120 then 500 * k else if k < 480 then 500 * (k + 1) else 500 * k }

  /** Templates until the check at one minute fails; it fails at two and three, and passes at four, when the next template is missed. */
  function LongPauseTurn(k: nat): Input
  {
    var check := if k == 120 || k == 239 || k == 359 then Unfit else if k == 479 then Fit else Unasked;
    Input(false, if k <= 120 then Some(Template("a", Some(1), true)) else None, check, At(Time(k)))
  }

  function LongPause(): seq<Input> { seq(481, k requires 0 <= k < 481 => LongPauseTurn(k)) }

  /** The state before each turn: installs at 0, 30 and 60 s, and checks at 60, 120, 180 and 240 s. */
  function Before(k: nat): State
  {
    var last := if k <= 60 then 0 else if k <= 120 then 30_000 else 60_000;
    if k == 0 then Initial(0)
    else if k <= 120 then State(Some("a"), Some(1), last, last, 0, true, None, false)
    else if k < 480 then
      State(Some("a"), Some(1), last, last, if k <= 239 then 60_000 else if k <= 359 then 120_000 else 180_000, true, Some(60_000), true)
    else State(Some("a"), Some(1), last, last, 240_000, true, None, false)
  }

  lemma EachTurn(k: nat)
    requires k < 480
    ensures var (t, events, exit) := Turn(Before(k), LongPauseTurn(k));
      t == Before(k + 1) && exit.Running? && (k == 479 ==> events == [Checked(true, 240_000), Resumed])
  {
  }

  lemma {:induction false} RunOneMore(s: State, inputs: seq<Input>, i: Input)
    requires Run(s, inputs).2.Running?
    ensures var (t, events, _) := Run(s, inputs);
      Run(s, inputs + [i]) == (Turn(t, i).0, events + Turn(t, i).1, Turn(t, i).2)
    decreases |inputs|
  {
    hide Turn;
    if inputs == [] {
      assert inputs + [i] == [i] && [i][1..] == [];
      assert [] + Turn(s, i).1 == Turn(s, i).1 && Turn(s, i).1 + [] == Turn(s, i).1;
    } else {
      var (t, events, _) := Turn(s, inputs[0]);
      assert (inputs + [i])[1..] == inputs[1..] + [i];
      RunOneMore(t, inputs[1..], i);
      var (u, more, _) := Run(t, inputs[1..]);
      Regroup(events, more, Turn(u, i).1);
    }
  }

  lemma {:induction false} LongPauseRuns(k: nat)
    requires k <= 480
    ensures var (t, log, exit) := Run(Initial(0), LongPause()[..k]);
      t == Before(k) && exit.Running? && (k == 480 ==> log != [] && log[|log| - 1] == Resumed)
  {
    hide Turn;
    if k == 0 {
      assert LongPause()[..0] == [];
    } else {
      LongPauseRuns(k - 1);
      assert LongPause()[..k] == LongPause()[..k - 1] + [LongPauseTurn(k - 1)];
      RunOneMore(Initial(0), LongPause()[..k - 1], LongPauseTurn(k - 1));
      EachTurn(k - 1);
    }
  }

  /** The loop waits at the end of a turn that fetches and at the start of one while paused. */
  predicate Waits(inputs: seq<Input>, start: nat, k: nat)
    requires k + 1 < |inputs|
  {
    var (before, after) := (Run(Initial(start), inputs[..k]).0, Run(Initial(start), inputs[..k + 1]).0);
    inputs[k + 1].clock.refresh
    == inputs[k].clock.refresh + (if before.unreadySince.None? then POLL_INTERVAL else 0) + if after.unreadySince.Some? then POLL_INTERVAL else 0
  }

  lemma LongPauseWaits(k: nat)
    requires k < 480
    ensures Waits(LongPause(), 0, k)
  {
    LongPauseRuns(k);
    LongPauseRuns(k + 1);
    hide Run;
  }

  /** A single missed template right after a pause the node recovered from stops the pool, which the pause was meant to prevent. */
  lemma OneMissAfterRecoveryIsFatal()
    ensures var (t, log, exit) := Run(Initial(0), LongPause());
      exit == Outage(240_000) && |log| > 1 && log[|log| - 2] == Resumed && log[|log| - 1] == Fetched
    ensures forall k :: 0 <= k < |LongPause()| - 1 ==> Waits(LongPause(), 0, k)
  {
    hide Run, Waits;
    forall k | 0 <= k < 480
      ensures Waits(LongPause(), 0, k)
    {
      LongPauseWaits(k);
    }
    LongPauseRuns(480);
    var front, last := LongPause()[..480], LongPauseTurn(480);
    assert LongPause() == front + [last];
    RunOneMore(Initial(0), front, last);
    assert Turn(Before(480), last) == (Before(480), [Fetched], Outage(240_000));
    assert Run(Initial(0), LongPause()) == (Before(480), Run(Initial(0), front).1 + [Fetched], Outage(240_000));
  }
}
