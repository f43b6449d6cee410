/**
 The capture sequencer: a list of door actions, each sent when its delay is over and followed by a wait
 for the state it aims at. Every run's log is shown to be a beginning of "sent 0, met 0, sent 1, met 1, ...".
 Times are in milliseconds of one monotonic clock, read once per event.
 */
module Sequencer {
  import opened Options

  datatype Action = Open | Close | Vent | Target

  datatype Goal = ReachOpen | ReachClosed | ReachVenting | ReachPosition

  datatype Step = Step(action: Action, goal: Goal, position: Option<real>)

  datatype Config = Config(
    steps: seq<Step>, initialDelay: int, settleDelay: int, motionTimeout: int, ventTimeout: int,
    ventObserve: int, tolerance: real)

  datatype Command = Command(action: Action, position: Option<real>)

  datatype Scheduled = Scheduled(command: Command, due: int)

  /** What the door reports: its state text, whether it stands still, its position (0 to 1). */
  datatype Door = Door(state: string, idle: bool, position: Option<real>)

  /** The run log: a step's action was sent, or the wait behind it was met by what the door reported. */
  datatype Entry = Sent(k: nat, now: int) | Met(k: nat, now: int, started: int, door: Door)

  datatype Coordinator = Coordinator(
    scheduled: Option<Scheduled>, index: int, waiting: Option<Goal>, waitStarted: Option<int>, done: bool,
    stop: bool, failed: bool, door: Door, submitted: seq<Command>, log: seq<Entry>)

  function Initial(): Coordinator {
    Coordinator(None, -1, None, None, false, false, false, Door("", true, None), [], [])
  }

  function Lower(text: string): string {
    seq(|text|, i requires 0 <= i < |text| =>
      if 'A' <= text[i] <= 'Z' then (text[i] - 'A') + 'a' else text[i])
  }

  function GoalName(g: Goal): string {
    match g
    case ReachOpen => "open"
    case ReachClosed => "closed"
    case ReachVenting => "venting"
    case ReachPosition => "position"
  }

  function Abs(x: real): real { if x < 0.0 then -x else x }

  predicate Near(door: Door, step: Step, tolerance: real) {
    && door.position.Some? && step.position.Some?
    && Abs(door.position.value * 100.0 - step.position.value) <= tolerance
  }

  /** Is the wait for `g` over? `step` is the step waited for. */
  predicate WaitIsMet(config: Config, g: Goal, step: Option<Step>, door: Door, elapsed: int) {
    || Lower(door.state) == GoalName(g)
    || (g.ReachPosition? && door.idle && step.Some? && Near(door, step.value, config.tolerance))
    || (g.ReachVenting? && elapsed >= config.ventObserve && door.idle)
  }

  function StepAt(config: Config, index: int): Option<Step> {
    if 0 <= index < |config.steps| then Some(config.steps[index]) else None
  }

  // ---------------------------------------------------------------- the handlers

  function Advance(config: Config, c: Coordinator, now: int, initial: bool): Coordinator {
    var next := if initial then 0 else c.index + 1;
    if next >= |config.steps| || next < 0 then
      c.(done := true, waiting := None, waitStarted := None, stop := true)
    else
      var step := config.steps[next];
      var delay := if initial then config.initialDelay else config.settleDelay;
      c.(index := next, waiting := None, waitStarted := None,
         scheduled := Some(Scheduled(Command(step.action, step.position), now + delay)))
  }

  function StartSequence(config: Config, c: Coordinator, now: int): Coordinator {
    if config.steps == [] then c.(failed := true)
    else if c.index >= 0 || c.done then c
    else Advance(config, c, now, true)
  }

  /** The space bar: cancel what is scheduled, or start the sequence, or just set a marker. */
  function StartOrCancel(config: Config, c: Coordinator, now: int): Coordinator {
    if c.scheduled.Some? then c.(scheduled := None)
    else if c.index < 0 && !c.done then StartSequence(config, c, now)
    else c
  }

  function CommandSent(config: Config, c: Coordinator, action: Action, now: int): Coordinator {
    if c.index < 0 || c.index >= |config.steps| || config.steps[c.index].action != action then c
    else
      c.(waiting := Some(config.steps[c.index].goal), waitStarted := Some(now), log := c.log + [Sent(c.index, now)])
  }

  function SendDue(config: Config, c: Coordinator, now: int): Coordinator {
    if c.scheduled.None? || now < c.scheduled.value.due then c
    else
      var command := c.scheduled.value.command;
      CommandSent(config, c.(scheduled := None, submitted := c.submitted + [command]), command.action, now)
  }

  function ServiceWait(config: Config, c: Coordinator, now: int): Coordinator {
    if c.waiting.None? || c.waitStarted.None? then c
    else
      var elapsed := now - c.waitStarted.value;
      if WaitIsMet(config, c.waiting.value, StepAt(config, c.index), c.door, elapsed) then
        var met := if c.index < 0 then c.log else c.log + [Met(c.index, now, c.waitStarted.value, c.door)];
        Advance(config, c.(waiting := None, waitStarted := None, log := met), now, false)
      else if elapsed > (if c.waiting.value.ReachVenting? then config.ventTimeout else config.motionTimeout) then
        c.(failed := true, stop := true)
      else c
  }

  function Tick(config: Config, c: Coordinator, now: int): Coordinator {
    ServiceWait(config, SendDue(config, c, now), now)
  }

  datatype Event = TickAt(now: int) | SpaceKey(now: int) | Report(door: Door) | Cancel | Exit

  function Next(config: Config, c: Coordinator, e: Event): Coordinator {
    match e
    case TickAt(now) => Tick(config, c, now)
    case SpaceKey(now) => StartOrCancel(config, c, now)
    case Report(door) => c.(door := door)
    case Cancel => c.(scheduled := None)
    case Exit => c.(stop := true)
  }

  // ---------------------------------------------------------------- the log

  /** `log` is a beginning of sent 0, met 0, sent 1, met 1, ... */
  predicate Alternates(log: seq<Entry>) {
    forall i :: 0 <= i < |log| ==>
      if i % 2 == 0 then log[i].Sent? && log[i].k == i / 2 else log[i].Met? && log[i].k == i / 2
  }

  /** The actions sent are the first ones of the sequence, in order. */
  predicate Prefix(config: Config, submitted: seq<Command>) {
    && |submitted| <= |config.steps|
    && (forall i :: 0 <= i < |submitted| ==>
          submitted[i] == Command(config.steps[i].action, config.steps[i].position))
  }

  /** Every wait was met: by the door's report at that moment, measured from when its action was sent. */
  predicate WaitsWereMet(config: Config, log: seq<Entry>) {
    forall i :: 0 < i < |log| && log[i].Met? ==>
      && log[i].k < |config.steps|
      && log[i - 1].Sent? && log[i].started == log[i - 1].now
      && WaitIsMet(config, config.steps[log[i].k].goal, Some(config.steps[log[i].k]), log[i].door,
                   log[i].now - log[i].started)
  }

  /** No action before its delay is over. */
  predicate DelaysKept(config: Config, log: seq<Entry>) {
    forall i :: 0 < i < |log| && log[i].Sent? ==> log[i - 1].Met? && log[i].now >= log[i - 1].now + config.settleDelay
  }

  predicate LogOk(config: Config, log: seq<Entry>) {
    Alternates(log) && WaitsWereMet(config, log) && DelaysKept(config, log)
  }

  lemma LogSent(config: Config, log: seq<Entry>, k: nat, now: int)
    requires LogOk(config, log) && |log| == 2 * k
    requires k > 0 ==> now >= log[|log| - 1].now + config.settleDelay
    ensures LogOk(config, log + [Sent(k, now)])
  {
    hide WaitIsMet;
  }

  lemma LogMet(config: Config, log: seq<Entry>, k: nat, now: int, started: int, door: Door)
    requires LogOk(config, log) && |log| == 2 * k + 1 && k < |config.steps|
    requires log[2 * k] == Sent(k, started)
    requires WaitIsMet(config, config.steps[k].goal, Some(config.steps[k]), door, now - started)
    ensures LogOk(config, log + [Met(k, now, started, door)])
  {
    var e := Met(k, now, started, door);
    AlternatesOn(log, e);
    WaitsOn(config, log, e);
    DelaysOn(config, log, e);
    hide WaitIsMet, Alternates, WaitsWereMet, DelaysKept;
  }

  lemma WaitsOn(config: Config, log: seq<Entry>, e: Entry)
    requires WaitsWereMet(config, log) && log != [] && e.Met? && e.k < |config.steps|
    requires log[|log| - 1].Sent? && e.started == log[|log| - 1].now
    requires WaitIsMet(config, config.steps[e.k].goal, Some(config.steps[e.k]), e.door, e.now - e.started)
    ensures WaitsWereMet(config, log + [e])
  {
    hide WaitIsMet;
  }

  lemma DelaysOn(config: Config, log: seq<Entry>, e: Entry)
    requires DelaysKept(config, log) && e.Met?
    ensures DelaysKept(config, log + [e])
  {}

  lemma AlternatesOn(log: seq<Entry>, e: Entry)
    requires Alternates(log) && |log| % 2 == 1 && e.Met? && e.k == |log| / 2
    ensures Alternates(log + [e])
  {}

  /** Where the sequence stands, read off the log: scheduled, waiting, cancelled or done. */
  predicate Inv(config: Config, c: Coordinator) {
    && -1 <= c.index < |config.steps|
    && Prefix(config, c.submitted) && LogOk(config, c.log)
    && |c.submitted| == (|c.log| + 1) / 2
    && (c.index < 0 ==> c.log == [] && c.scheduled.None? && c.waiting.None?)
    && (c.index >= 0 ==> |c.log| == 2 * c.index || |c.log| == 2 * c.index + 1 || c.done)
    && (c.done ==> |c.log| == 2 * |config.steps| && c.scheduled.None? && c.stop && c.index == |config.steps| - 1)
    && WaitingOk(config, c) && ScheduledOk(config, c)
  }

  predicate WaitingOk(config: Config, c: Coordinator)
    requires -1 <= c.index < |config.steps|
  {
    c.waiting.Some? ==>
      && c.waitStarted.Some? && c.index >= 0 && c.waiting.value == config.steps[c.index].goal
      && |c.log| == 2 * c.index + 1 && c.log[2 * c.index] == Sent(c.index, c.waitStarted.value)
  }

  predicate ScheduledOk(config: Config, c: Coordinator)
    requires -1 <= c.index < |config.steps|
  {
    c.scheduled.Some? ==>
      && c.index >= 0 && |c.log| == 2 * c.index && c.waiting.None?
      && c.scheduled.value.command == Command(config.steps[c.index].action, config.steps[c.index].position)
      && (c.index > 0 ==> c.scheduled.value.due >= c.log[2 * c.index - 1].now + config.settleDelay)
  }

  lemma PrefixSent(config: Config, submitted: seq<Command>, k: nat)
    requires Prefix(config, submitted) && |submitted| == k < |config.steps|
    ensures Prefix(config, submitted + [Command(config.steps[k].action, config.steps[k].position)])
  {}

  /** The state behind a sent action: its wait has begun. */
  function AfterSending(config: Config, c: Coordinator, now: int): Coordinator
    requires 0 <= c.index < |config.steps|
  {
    var step := config.steps[c.index];
    c.(scheduled := None, submitted := c.submitted + [Command(step.action, step.position)],
       waiting := Some(step.goal), waitStarted := Some(now), log := c.log + [Sent(c.index, now)])
  }

  lemma SendingIs(config: Config, c: Coordinator, now: int)
    requires -1 <= c.index < |config.steps| && ScheduledOk(config, c)
    requires c.scheduled.Some? && now >= c.scheduled.value.due
    ensures SendDue(config, c, now) == AfterSending(config, c, now)
  {}

  lemma SentKeeps(config: Config, c: Coordinator, now: int)
    requires Inv(config, c) && c.scheduled.Some? && now >= c.scheduled.value.due
    ensures Inv(config, AfterSending(config, c, now))
  {
    LogSent(config, c.log, c.index, now);
    PrefixSent(config, c.submitted, c.index);
    hide LogOk, Prefix;
  }

  lemma SendKeeps(config: Config, c: Coordinator, now: int)
    requires Inv(config, c)
    ensures Inv(config, SendDue(config, c, now))
  {
    if c.scheduled.Some? && now >= c.scheduled.value.due {
      SendingIs(config, c, now);
      hide SendDue, AfterSending, LogOk, Prefix, WaitingOk, ScheduledOk;
      SentKeeps(config, c, now);
    }
  }

  /** The wait behind step `index` is over. */
  predicate JustMet(config: Config, c: Coordinator, now: int) {
    && 0 <= c.index < |config.steps| && !c.done && c.scheduled.None? && c.waiting.None?
    && Prefix(config, c.submitted) && LogOk(config, c.log)
    && |c.log| == 2 * c.index + 2 && |c.submitted| == c.index + 1 && c.log[|c.log| - 1].now == now
  }

  lemma AdvanceKeeps(config: Config, c: Coordinator, now: int)
    requires JustMet(config, c, now)
    ensures Inv(config, Advance(config, c, now, false))
  {
    hide LogOk, Prefix;
  }

  lemma ServiceKeeps(config: Config, c: Coordinator, now: int)
    requires Inv(config, c)
    ensures Inv(config, ServiceWait(config, c, now))
  {
    if && c.waiting.Some?
       && WaitIsMet(config, c.waiting.value, StepAt(config, c.index), c.door, now - c.waitStarted.value) {
      LogMet(config, c.log, c.index, now, c.waitStarted.value, c.door);
      var met := c.(waiting := None, waitStarted := None,
                    log := c.log + [Met(c.index, now, c.waitStarted.value, c.door)]);
      hide WaitIsMet, LogOk, Prefix;
      AdvanceKeeps(config, met, now);
      hide Advance;
    } else {
      hide WaitIsMet, LogOk, Prefix;
    }
  }

  lemma StartKeeps(config: Config, c: Coordinator, now: int)
    requires Inv(config, c)
    ensures Inv(config, StartOrCancel(config, c, now))
  {
    hide LogOk, Prefix;
  }

  lemma StepKeeps(config: Config, c: Coordinator, e: Event)
    requires Inv(config, c)
    ensures Inv(config, Next(config, c, e))
  {
    hide Inv, SendDue, ServiceWait, StartOrCancel;
    match e
    case TickAt(now) =>
      SendKeeps(config, c, now);
      ServiceKeeps(config, SendDue(config, c, now), now);
    case SpaceKey(now) =>
      StartKeeps(config, c, now);
    case Report(door) =>
      OutsideKeeps(config, c, c.(door := door));
    case Cancel =>
      OutsideKeeps(config, c, c.(scheduled := None));
    case Exit =>
      OutsideKeeps(config, c, c.(stop := true));
  }

  /** Reports, cancelling and leaving touch nothing the log tells. */
  lemma OutsideKeeps(config: Config, c: Coordinator, d: Coordinator)
    requires Inv(config, c)
    requires d == c.(door := d.door, scheduled := d.scheduled, stop := d.stop)
    requires (d.scheduled == c.scheduled || d.scheduled.None?) && (c.stop ==> d.stop)
    ensures Inv(config, d)
  {
    hide LogOk, Prefix;
  }

  function Run(config: Config, events: seq<Event>): Coordinator
    decreases |events|
  {
    if events == [] then Initial() else Next(config, Run(config, events[..|events| - 1]), events[|events| - 1])
  }

  lemma {:induction false} RunKeeps(config: Config, events: seq<Event>)
    ensures Inv(config, Run(config, events))
    decreases |events|
  {
    if events != [] {
      RunKeeps(config, events[..|events| - 1]);
      hide Inv, Next;
      StepKeeps(config, Run(config, events[..|events| - 1]), events[|events| - 1]);
    } else {
      assert -1 < |config.steps|;
    }
  }

  /**
   In every run of ticks, key presses and door reports: the actions submitted are the first ones of the
   sequence, in order; between two of them lies the first one's wait, met by what the door then reported,
   and the settling delay; the run is done exactly after the last wait.
   */
  lemma RunFollowsSequence(config: Config, events: seq<Event>)
    ensures var c := Run(config, events);
      && Prefix(config, c.submitted) && |c.submitted| == (|c.log| + 1) / 2
      && Alternates(c.log) && WaitsWereMet(config, c.log) && DelaysKept(config, c.log)
      && (c.done ==> |c.log| == 2 * |config.steps| && |c.submitted| == |config.steps| && c.stop)
      && (config.steps != [] && |c.log| == 2 * |config.steps| ==> c.done)
  {
    RunKeeps(config, events);
    hide Prefix, Alternates, WaitsWereMet, DelaysKept, Run;
  }

  /** Nothing pending in a started sequence: its action was cancelled, or it is done. */
  predicate Stalled(c: Coordinator) {
    (c.index >= 0 || c.done) && c.scheduled.None? && c.waiting.None?
  }

  function RunFrom(config: Config, c: Coordinator, events: seq<Event>): Coordinator
    decreases |events|
  {
    if events == [] then c else RunFrom(config, Next(config, c, events[0]), events[1..])
  }

  /** Cancelling a scheduled action ends the sequence for good: nothing more is ever sent. */
  lemma {:induction false} CancelIsFinal(config: Config, c: Coordinator, events: seq<Event>)
    requires Stalled(c)
    ensures var end := RunFrom(config, c, events);
      Stalled(end) && end.submitted == c.submitted && end.log == c.log
    decreases |events|
  {
    if events != [] {
      hide WaitIsMet;
      CancelIsFinal(config, Next(config, c, events[0]), events[1..]);
    }
  }

  /**
   In every run: once the action scheduled next is cancelled, by the space bar or on exit, nothing is ever sent
   again, whatever happens afterwards.
   */
  lemma CancelEndsRun(config: Config, events: seq<Event>, cancel: Event, later: seq<Event>)
    requires Run(config, events).scheduled.Some? && (cancel.SpaceKey? || cancel.Cancel?)
    ensures var c := Run(config, events);
      var end := RunFrom(config, Next(config, c, cancel), later);
      Stalled(end) && end.submitted == c.submitted && end.log == c.log
  {
    RunKeeps(config, events);
    hide Prefix, LogOk, Run, Tick, StartSequence;
    assert Stalled(Next(config, Run(config, events), cancel));
    hide Inv, Next, Stalled;
    CancelIsFinal(config, Next(config, Run(config, events), cancel), later);
    hide RunFrom;
    SameLog(config, Run(config, events), cancel);
  }

  lemma SameLog(config: Config, c: Coordinator, cancel: Event)
    requires c.scheduled.Some? && (cancel.SpaceKey? || cancel.Cancel?)
    ensures Next(config, c, cancel).submitted == c.submitted && Next(config, c, cancel).log == c.log
  {}

  // ---------------------------------------------------------------- the coordinator

  class CaptureCoordinator {
    const config: Config
    var scheduled: Option<Scheduled>
    var sequenceIndex: int
    var sequenceWaitingForState: Option<Goal>
    var sequenceWaitStarted: Option<int>
    var sequenceDone: bool
    var stopRequested: bool
    var failed: bool
    var door: Door
    var submitted: seq<Command>
    ghost var log: seq<Entry>

    ghost function State(): Coordinator
      reads this
    {
      Coordinator(scheduled, sequenceIndex, sequenceWaitingForState, sequenceWaitStarted, sequenceDone,
                  stopRequested, failed, door, submitted, log)
    }

    constructor (config: Config)
      ensures this.config == config && State() == Initial()
    {
      this.config := config;
      scheduled, sequenceIndex := None, -1;
      sequenceWaitingForState, sequenceWaitStarted := None, None;
      sequenceDone, stopRequested, failed := false, false, false;
      door, submitted, log := Door("", true, None), [], [];
    }

    method AdvanceSequence(now: int, initial: bool)
      modifies this`scheduled, this`sequenceIndex, this`sequenceWaitingForState, this`sequenceWaitStarted,
               this`sequenceDone, this`stopRequested
      ensures State() == Advance(config, old(State()), now, initial)
    {
      var next := if initial then 0 else sequenceIndex + 1;
      if next >= |config.steps| || next < 0 {
        sequenceDone := true;
        sequenceWaitingForState := None;
        sequenceWaitStarted := None;
        stopRequested := true;
        return;
      }
      var step := config.steps[next];
      var delay := if initial then config.initialDelay else config.settleDelay;
      sequenceIndex := next;
      sequenceWaitingForState := None;
      sequenceWaitStarted := None;
      scheduled := Some(Scheduled(Command(step.action, step.position), now + delay));
    }

    method StartAutoSequence(now: int)
      modifies this
      ensures State() == StartSequence(config, old(State()), now)
    {
      if config.steps == [] {
        failed := true;
        return;
      }
      if sequenceIndex >= 0 || sequenceDone {
        return;
      }
      AdvanceSequence(now, true);
    }

    method PressSpace(now: int)
      modifies this
      ensures State() == StartOrCancel(config, old(State()), now)
    {
      hide StartSequence;
      var hasScheduled := scheduled.Some?;
      var notStarted := sequenceIndex < 0 && !sequenceDone;
      if hasScheduled {
        scheduled := None;
      } else if notStarted {
        StartAutoSequence(now);
      }
    }

    method OnSequenceCommandSent(action: Action, now: int)
      modifies this`sequenceWaitingForState, this`sequenceWaitStarted, this`log
      ensures State() == CommandSent(config, old(State()), action, now)
    {
      if sequenceIndex < 0 || sequenceIndex >= |config.steps| {
        return;
      }
      var step := config.steps[sequenceIndex];
      if step.action != action {
        return;
      }
      sequenceWaitingForState := Some(step.goal);
      sequenceWaitStarted := Some(now);
      log := log + [Sent(sequenceIndex, now)];
    }

    method ServiceSequenceWait(now: int)
      modifies this
      ensures State() == ServiceWait(config, old(State()), now)
    {
      hide WaitIsMet, Advance;
      if sequenceWaitingForState.None? || sequenceWaitStarted.None? {
        return;
      }
      var goal := sequenceWaitingForState.value;
      var elapsed := now - sequenceWaitStarted.value;
      if WaitIsMet(config, goal, StepAt(config, sequenceIndex), door, elapsed) {
        if sequenceIndex >= 0 {
          log := log + [Met(sequenceIndex, now, sequenceWaitStarted.value, door)];
        }
        sequenceWaitingForState := None;
        sequenceWaitStarted := None;
        AdvanceSequence(now, false);
        return;
      }
      var timeout := if goal.ReachVenting? then config.ventTimeout else config.motionTimeout;
      if elapsed > timeout {
        failed := true;
        stopRequested := true;
      }
    }

    method OnTick(now: int)
      modifies this
      ensures State() == Tick(config, old(State()), now)
    {
      hide CommandSent, ServiceWait;
      if scheduled.Some? && now >= scheduled.value.due {
        var command := scheduled.value.command;
        scheduled := None;
        submitted := submitted + [command];
        OnSequenceCommandSent(command.action, now);
      }
      ServiceSequenceWait(now);
    }

    method UpdateDoor(report: Door)
      modifies this`door
      ensures State() == old(State()).(door := report)
    {
      door := report;
    }
  }
}
