/**
 The capture run told from its events alone: when it was started, what was sent and met, whether the next action
 was cancelled. The coordinator of `Sequencer`, with its schedule, its index and its wait, never says anything else.
 */
module CaptureStory {
  import opened Options
  import opened Sequencer

  datatype Story = Story(start: Option<int>, cancelled: bool, log: seq<Entry>, door: Door, failed: bool, left: bool)

  // ---------------------------------------------------------------- waits, in words and numbers

  /** `text` reads `small`, or `capital`, or any mixture of the two. */
  predicate Spells(text: string, small: string, capital: string)
    requires |small| == |capital|
  {
    |text| == |small| && forall i :: 0 <= i < |text| ==> text[i] == small[i] || text[i] == capital[i]
  }

  predicate Within(door: Door, step: Step, tolerance: real) {
    && door.position.Some? && step.position.Some?
    && step.position.value - tolerance <= 100.0 * door.position.value <= step.position.value + tolerance
  }

  /** Has the door done what `step` waits for, `elapsed` after its action was sent? */
  predicate Reached(config: Config, step: Step, door: Door, elapsed: int) {
    match step.goal
    case ReachOpen => Spells(door.state, "open", "OPEN")
    case ReachClosed => Spells(door.state, "closed", "CLOSED")
    case ReachVenting =>
      Spells(door.state, "venting", "VENTING") || (door.idle && elapsed >= config.ventObserve)
    case ReachPosition =>
      Spells(door.state, "position", "POSITION") || (door.idle && Within(door, step, config.tolerance))
  }

  lemma LowerIs(text: string, small: string, capital: string)
    requires |small| == |capital|
    requires forall i :: 0 <= i < |small| ==>
               'a' <= small[i] <= 'z' && capital[i] as int == small[i] as int - 32
    ensures Lower(text) == small <==> Spells(text, small, capital)
  {
    if Spells(text, small, capital) {
      assert forall i :: 0 <= i < |text| ==> Lower(text)[i] == small[i];
    }
    if Lower(text) == small {
      assert forall i :: 0 <= i < |text| ==> Lower(text)[i] == small[i];
    }
  }

  lemma MetIsReached(config: Config, step: Step, door: Door, elapsed: int)
    ensures WaitIsMet(config, step.goal, Some(step), door, elapsed) <==> Reached(config, step, door, elapsed)
  {
    LowerIs(door.state, "open", "OPEN");
    LowerIs(door.state, "closed", "CLOSED");
    LowerIs(door.state, "venting", "VENTING");
    LowerIs(door.state, "position", "POSITION");
    hide Lower, Spells;
  }

  /** How long a wait may last. */
  function Patience(config: Config, step: Step): int {
    if step.goal == ReachVenting then config.ventTimeout else config.motionTimeout
  }

  // ---------------------------------------------------------------- the story

  /** The run is on and its next action is still to be sent. */
  predicate ToSend(config: Config, s: Story) {
    s.start.Some? && !s.cancelled && |s.log| % 2 == 0 && |s.log| / 2 < |config.steps|
  }

  /** The first action is due the initial delay behind the start, every other one the settling delay behind a wait. */
  function DueTime(config: Config, s: Story): int
    requires s.start.Some?
  {
    if s.log == [] then s.start.value + config.initialDelay else s.log[|s.log| - 1].now + config.settleDelay
  }

  function Send(config: Config, s: Story, now: int): Story {
    if ToSend(config, s) && DueTime(config, s) <= now then s.(log := s.log + [Sent(|s.log| / 2, now)]) else s
  }

  function Look(config: Config, s: Story, now: int): Story
    requires |s.log| / 2 <= |config.steps| && (|s.log| % 2 == 1 ==> |s.log| / 2 < |config.steps|)
  {
    if |s.log| % 2 == 0 then s
    else
      var k, sent := |s.log| / 2, s.log[|s.log| - 1].now;
      if Reached(config, config.steps[k], s.door, now - sent) then s.(log := s.log + [Met(k, now, sent, s.door)])
      else if now - sent > Patience(config, config.steps[k]) then s.(failed := true, left := true)
      else s
  }

  function Press(config: Config, s: Story, now: int): Story {
    if ToSend(config, s) then s.(cancelled := true)
    else if s.start.Some? then s
    else if config.steps == [] then s.(failed := true)
    else s.(start := Some(now))
  }

  function Tell(config: Config, s: Story, e: Event): Story
    requires Fits(config, s)
  {
    match e
    case TickAt(now) => Look(config, Send(config, s, now), now)
    case SpaceKey(now) => Press(config, s, now)
    case Report(door) => s.(door := door)
    case Cancel => s.(cancelled := s.cancelled || ToSend(config, s))
    case Exit => s.(left := true)
  }

  predicate Fits(config: Config, s: Story) {
    && |s.log| <= 2 * |config.steps|
    && (s.start.None? ==> s.log == [] && !s.cancelled) && (s.start.Some? ==> config.steps != [])
    && (s.cancelled ==> |s.log| % 2 == 0 && |s.log| / 2 < |config.steps|)
  }

  lemma TellFits(config: Config, s: Story, e: Event)
    requires Fits(config, s)
    ensures Fits(config, Tell(config, s, e))
  {
    hide Reached, Patience, DueTime;
  }

  function Told(config: Config, events: seq<Event>): (s: Story)
    ensures Fits(config, s)
    decreases |events|
  {
    if events == [] then Story(None, false, [], Door("", true, None), false, false)
    else
      var before := Told(config, events[..|events| - 1]);
      TellFits(config, before, events[|events| - 1]);
      Tell(config, before, events[|events| - 1])
  }

  // ---------------------------------------------------------------- the coordinator shows the story

  function CommandOf(step: Step): Command { Command(step.action, step.position) }

  /** Every step sent and met. */
  predicate Complete(config: Config, s: Story) { s.start.Some? && |s.log| == 2 * |config.steps| }

  /** What the coordinator's fields are once the story is `s`. */
  function Shown(config: Config, s: Story): Coordinator
    requires Fits(config, s)
  {
    var k := |s.log| / 2;
    var waits := |s.log| % 2 == 1;
    Coordinator(
      if ToSend(config, s) then Some(Scheduled(CommandOf(config.steps[k]), DueTime(config, s))) else None,
      if s.start.None? then -1 else if Complete(config, s) then |config.steps| - 1 else k,
      if waits then Some(config.steps[k].goal) else None,
      if waits then Some(s.log[|s.log| - 1].now) else None,
      Complete(config, s), s.left || Complete(config, s), s.failed, s.door,
      seq((|s.log| + 1) / 2, i requires 0 <= i < (|s.log| + 1) / 2 => CommandOf(config.steps[i])), s.log)
  }

  lemma SendIsShown(config: Config, s: Story, now: int)
    requires Fits(config, s)
    ensures Fits(config, Send(config, s, now))
    ensures SendDue(config, Shown(config, s), now) == Shown(config, Send(config, s, now))
  {
    hide DueTime;
  }

  /** The wait open in `s` ends at `now`. */
  predicate Ends(config: Config, s: Story, now: int) {
    && |s.log| % 2 == 1 && |s.log| / 2 < |config.steps|
    && Reached(config, config.steps[|s.log| / 2], s.door, now - s.log[|s.log| - 1].now)
  }

  lemma MeetingIsShown(config: Config, s: Story, now: int)
    requires Fits(config, s) && Ends(config, s, now)
    ensures var k := |s.log| / 2;
      var met := s.(log := s.log + [Met(k, now, s.log[|s.log| - 1].now, s.door)]);
      Fits(config, met) &&
      Advance(config, Shown(config, s).(waiting := None, waitStarted := None, log := met.log), now, false)
      == Shown(config, met)
  {
    hide Reached;
  }

  lemma OpenIsShown(config: Config, s: Story, now: int)
    requires Fits(config, s) && !Ends(config, s, now)
    ensures Fits(config, Look(config, s, now))
    ensures ServiceWait(config, Shown(config, s), now) == Shown(config, Look(config, s, now))
  {
    hide WaitIsMet, Reached, Advance, DueTime;
    if |s.log| % 2 == 1 {
      MetIsReached(config, config.steps[|s.log| / 2], s.door, now - s.log[|s.log| - 1].now);
    }
  }

  lemma LookIsShown(config: Config, s: Story, now: int)
    requires Fits(config, s)
    ensures Fits(config, Look(config, s, now))
    ensures ServiceWait(config, Shown(config, s), now) == Shown(config, Look(config, s, now))
  {
    hide WaitIsMet, Reached, Advance, DueTime, ToSend;
    if Ends(config, s, now) {
      MetIsReached(config, config.steps[|s.log| / 2], s.door, now - s.log[|s.log| - 1].now);
      MeetingIsShown(config, s, now);
    } else {
      OpenIsShown(config, s, now);
    }
  }

  lemma PressIsShown(config: Config, s: Story, now: int)
    requires Fits(config, s)
    ensures Fits(config, Press(config, s, now))
    ensures StartOrCancel(config, Shown(config, s), now) == Shown(config, Press(config, s, now))
  {}

  lemma TellIsShown(config: Config, s: Story, e: Event)
    requires Fits(config, s)
    ensures Fits(config, Tell(config, s, e)) && Next(config, Shown(config, s), e) == Shown(config, Tell(config, s, e))
  {
    TellFits(config, s, e);
    match e
    case TickAt(now) =>
      hide SendDue, ServiceWait, Shown, Send, Look, Fits;
      SendIsShown(config, s, now);
      LookIsShown(config, Send(config, s, now), now);
    case SpaceKey(now) =>
      hide StartOrCancel, Shown, Press, Fits;
      PressIsShown(config, s, now);
    case _ =>
      hide SendDue, ServiceWait, StartOrCancel, DueTime;
  }

  /**
   Over every run, each field of the coordinator is the one the story tells: the action scheduled and when it is due,
   the wait and since when, the index, done, stop, failed, and the commands submitted.
   */
  lemma {:induction false} RunIsStory(config: Config, events: seq<Event>)
    ensures Run(config, events) == Shown(config, Told(config, events))
    decreases |events|
  {
    if events != [] {
      hide Next, Shown, Tell;
      RunIsStory(config, events[..|events| - 1]);
      TellIsShown(config, Told(config, events[..|events| - 1]), events[|events| - 1]);
    }
  }

  // ---------------------------------------------------------------- the start and the failures of a run

  /** Event `i` is the first space bar of the run. */
  predicate FirstPress(events: seq<Event>, i: nat) {
    i < |events| && events[i].SpaceKey? && forall j :: 0 <= j < i ==> !events[j].SpaceKey?
  }

  predicate StartFound(config: Config, events: seq<Event>, start: Option<int>) {
    if start.None? then config.steps != [] ==> forall i :: 0 <= i < |events| ==> !events[i].SpaceKey?
    else exists i | 0 <= i < |events| :: FirstPress(events, i) && events[i].now == start.value
  }

  lemma StartOn(config: Config, events: seq<Event>, start: Option<int>)
    requires events != [] && StartFound(config, events[..|events| - 1], start)
    ensures var e := events[|events| - 1];
      var after := if start.None? && e.SpaceKey? && config.steps != [] then Some(e.now) else start;
      StartFound(config, events, after)
  {
    var init := events[..|events| - 1];
    if start.Some? {
      var i :| 0 <= i < |init| && FirstPress(init, i) && init[i].now == start.value;
      assert FirstPress(events, i);
    } else if config.steps != [] && events[|init|].SpaceKey? {
      assert FirstPress(events, |init|);
    }
  }

  lemma {:induction false} StartIsFirstPress(config: Config, events: seq<Event>)
    ensures StartFound(config, events, Told(config, events).start)
    decreases |events|
  {
    if events != [] {
      StartIsFirstPress(config, events[..|events| - 1]);
      StartOnTelling(config, Told(config, events[..|events| - 1]), events[|events| - 1]);
      StartOn(config, events, Told(config, events[..|events| - 1]).start);
      hide StartFound, Tell, Fits;
    }
  }

  lemma StartOnTelling(config: Config, s: Story, e: Event)
    requires Fits(config, s)
    ensures Tell(config, s, e).start
         == if s.start.None? && e.SpaceKey? && config.steps != [] then Some(e.now) else s.start
  {
    hide Reached, DueTime;
  }

  /** The first action sent is as late as the initial delay demands. */
  predicate StartDelayed(config: Config, s: Story) {
    s.log != [] ==> s.start.Some? && s.log[0].now >= s.start.value + config.initialDelay
  }

  lemma DelayOnTelling(config: Config, s: Story, e: Event)
    requires Fits(config, s) && StartDelayed(config, s)
    ensures StartDelayed(config, Tell(config, s, e))
  {
    hide Reached, Patience;
  }

  lemma {:induction false} DelayIsKept(config: Config, events: seq<Event>)
    ensures StartDelayed(config, Told(config, events))
    decreases |events|
  {
    if events != [] {
      DelayIsKept(config, events[..|events| - 1]);
      DelayOnTelling(config, Told(config, events[..|events| - 1]), events[|events| - 1]);
      hide StartDelayed, Tell, Fits;
    }
  }

  /**
   In every run nothing is sent before the initial delay behind the first space bar has passed; and with steps to do,
   the first space bar always starts the run.
   */
  lemma SendingIsDelayed(config: Config, events: seq<Event>)
    ensures var c := Run(config, events);
      && (c.log != [] ==> exists i: nat :: FirstPress(events, i) && c.log[0].now >= events[i].now + config.initialDelay)
      && (c.index < 0 && config.steps != [] ==> forall i :: 0 <= i < |events| ==> !events[i].SpaceKey?)
  {
    RunIsStory(config, events);
    StartIsFirstPress(config, events);
    DelayIsKept(config, events);
    hide Run, Told, ToSend, DueTime;
  }

  /** Tick `i` leaves a wait open that is older than its limit. */
  predicate RanOut(config: Config, events: seq<Event>, i: nat) {
    && i < |events| && events[i].TickAt?
    && var log := Run(config, events[..i + 1]).log;
       && |log| % 2 == 1 && |log| / 2 < |config.steps|
       && events[i].now - log[|log| - 1].now > Patience(config, config.steps[|log| / 2])
  }

  /** The space bar of a run without steps. */
  predicate NothingToDo(config: Config, events: seq<Event>, i: nat) {
    i < |events| && events[i].SpaceKey? && config.steps == []
  }

  predicate Left(events: seq<Event>, i: nat) { i < |events| && events[i].Exit? }

  /** A wait open in `s` at `now` is older than its limit. */
  predicate Overdue(config: Config, s: Story, now: int) {
    && |s.log| % 2 == 1 && |s.log| / 2 < |config.steps|
    && now - s.log[|s.log| - 1].now > Patience(config, config.steps[|s.log| / 2])
  }

  lemma LookStops(config: Config, s: Story, now: int)
    requires Fits(config, s)
    ensures var after := Look(config, s, now);
      && (after.failed <==> s.failed || Overdue(config, after, now))
      && (after.left <==> s.left || Overdue(config, after, now))
  {
    hide Reached, Patience;
  }

  lemma StopOnTelling(config: Config, s: Story, e: Event)
    requires Fits(config, s)
    ensures var after := Tell(config, s, e);
      && (after.failed <==>
            || s.failed || (e.TickAt? && Overdue(config, after, e.now)) || (e.SpaceKey? && config.steps == []))
      && (after.left <==> s.left || (e.TickAt? && Overdue(config, after, e.now)) || e.Exit?)
  {
    if e.TickAt? {
      SendIsShown(config, s, e.now);
      LookStops(config, Send(config, s, e.now), e.now);
      hide Look, Overdue, ToSend, DueTime;
    } else {
      hide Look, Send, Overdue, ToSend, DueTime;
    }
  }

  lemma StopsOnTelling(config: Config, events: seq<Event>)
    requires events != []
    ensures var n := |events| - 1;
      var before, after := Told(config, events[..n]), Told(config, events);
      && (after.failed <==> before.failed || RanOut(config, events, n) || NothingToDo(config, events, n))
      && (after.left <==> before.left || RanOut(config, events, n) || Left(events, n))
  {
    hide Run, Tell, Patience, Fits, Shown;
    var n := |events| - 1;
    assert events[..n + 1] == events;
    LogIsTold(config, events);
    StopOnTelling(config, Told(config, events[..n]), events[n]);
  }

  lemma LogIsTold(config: Config, events: seq<Event>)
    ensures Run(config, events).log == Told(config, events).log
  {
    RunIsStory(config, events);
    hide Run, Told, ToSend, DueTime;
  }

  lemma Earlier(config: Config, events: seq<Event>, i: nat)
    requires i < |events| - 1
    ensures var init := events[..|events| - 1];
      && RanOut(config, init, i) == RanOut(config, events, i)
      && NothingToDo(config, init, i) == NothingToDo(config, events, i)
      && Left(init, i) == Left(events, i)
  {
    assert events[..|events| - 1][..i + 1] == events[..i + 1];
    hide Run, Patience;
  }

  ghost predicate Fails(config: Config, events: seq<Event>) {
    exists i: nat :: RanOut(config, events, i) || NothingToDo(config, events, i)
  }

  ghost predicate Leaves(config: Config, events: seq<Event>) {
    exists i: nat :: RanOut(config, events, i) || Left(events, i)
  }

  lemma FailsOn(config: Config, events: seq<Event>)
    requires events != []
    ensures var n := |events| - 1;
      && (Fails(config, events) <==>
            Fails(config, events[..n]) || RanOut(config, events, n) || NothingToDo(config, events, n))
      && (Leaves(config, events) <==> Leaves(config, events[..n]) || RanOut(config, events, n) || Left(events, n))
  {
    var n := |events| - 1;
    forall i: nat | i < n
      ensures RanOut(config, events[..n], i) == RanOut(config, events, i)
      ensures NothingToDo(config, events[..n], i) == NothingToDo(config, events, i)
      ensures Left(events[..n], i) == Left(events, i)
    {
      Earlier(config, events, i);
    }
    OnlyInside(config, events);
    OnlyInside(config, events[..n]);
    hide Run, RanOut, NothingToDo, Left;
    forall i: nat | RanOut(config, events, i) || NothingToDo(config, events, i) || Left(events, i)
      ensures i == n || i < n
    {}
  }

  lemma OnlyInside(config: Config, events: seq<Event>)
    ensures forall i: nat :: RanOut(config, events, i) || NothingToDo(config, events, i) || Left(events, i) ==>
              i < |events|
  {
    hide Run;
  }

  lemma {:induction false} ToldStops(config: Config, events: seq<Event>)
    ensures Told(config, events).failed <==> Fails(config, events)
    ensures Told(config, events).left <==> Leaves(config, events)
    decreases |events|
  {
    hide Run, RanOut, NothingToDo, Left, Patience;
    if events != [] {
      ToldStops(config, events[..|events| - 1]);
      StopsOnTelling(config, events);
      FailsOn(config, events);
      hide Told, Fails, Leaves;
    } else {
      OnlyInside(config, events);
    }
  }

  /**
   In every run: the capture has failed exactly if some tick left a wait open beyond its limit, or the space bar found
   nothing to do; it stops exactly if some tick did so, on leaving, or with the last step done.
   */
  lemma FailureIsExact(config: Config, events: seq<Event>)
    ensures var c := Run(config, events);
      && (c.failed <==> exists i: nat :: RanOut(config, events, i) || NothingToDo(config, events, i))
      && (c.stop <==> c.done || exists i: nat :: RanOut(config, events, i) || Left(events, i))
      && (c.done <==> config.steps != [] && |c.log| == 2 * |config.steps|)
  {
    RunIsStory(config, events);
    ToldStops(config, events);
    hide Run, Told, RanOut, NothingToDo, Left, ToSend, DueTime;
  }
}
