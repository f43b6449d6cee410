/**
 The obstruction latch: set by a reversal nobody commanded, held for ten seconds, on a millisecond clock
 that wraps at 2^32. It is shown to be a property of the history of samples and commands.
 */
module Obstruction {
  import opened Options
  import opened Words

  const COMMAND_GRACE_MS: nat := 2000
  const LATCH_MS: nat := 10000

  const OPENING: nat := 0x01
  const CLOSING: nat := 0x02
  const HALF_OPENING: nat := 0x05
  const VENT_MOVING: nat := 0x09

  datatype Button = NoButton | Open | Close | Stop | Vent | Half | LightButton

  datatype Drive = Drive(targetPosition: nat, currentPosition: nat, state: nat, lightRaw: nat, lightOn: nat)

  predicate IsOpening(state: nat) { state == OPENING || state == HALF_OPENING || state == VENT_MOVING }

  predicate IsClosing(state: nat) { state == CLOSING }

  predicate IsUncommandedClosingReversal(previous: nat, current: nat, recent: Button) {
    if !IsClosing(previous) || !IsOpening(current) then false else recent != Open && recent != Half
  }

  /** A subtraction of two 32-bit clock readings, read as signed. */
  function Since(now: nat, then_: nat): int {
    Signed32(Minus32(now, then_))
  }

  datatype Latch = Latch(
    drive: Drive, valid: bool, obstruction: bool, untilMs: nat, lastButton: Button, lastCommandedMs: nat)

  function Initial(): Latch {
    Latch(Drive(0, 0, 0, 0, 0), false, false, 0, NoButton, 0)
  }

  /** The command still counted as recent; a reading of zero means there was none. */
  function RecentCommand(l: Latch, now: nat): Button {
    if l.lastCommandedMs != 0 && Since(now, (l.lastCommandedMs + COMMAND_GRACE_MS) % UINT32) <= 0 then l.lastButton
    else NoButton
  }

  function Apply(l: Latch, status: Option<Drive>, validSeen: bool, now: nat): Latch {
    var a :=
      if status.None? || status.value == l.drive then l
      else
        var reversed := l.valid
          && IsUncommandedClosingReversal(l.drive.state, status.value.state, RecentCommand(l, now));
        l.(drive := status.value,
           obstruction := l.obstruction || reversed,
           untilMs := if reversed then (now + LATCH_MS) % UINT32 else l.untilMs);
    a.(valid := a.valid || validSeen,
       obstruction := a.obstruction && Since(now, a.untilMs) < 0)
  }

  class Bridge {
    var driveStatus: Drive
    var validBroadcast: bool
    var obstruction: bool
    var obstructionUntilMs: nat
    var lastCommandedButton: Button
    var lastCommandedMs: nat

    ghost function State(): Latch
      reads this
    {
      Latch(driveStatus, validBroadcast, obstruction, obstructionUntilMs, lastCommandedButton, lastCommandedMs)
    }

    constructor ()
      ensures State() == Initial()
    {
      driveStatus := Drive(0, 0, 0, 0, 0);
      validBroadcast, obstruction, obstructionUntilMs := false, false, 0;
      lastCommandedButton, lastCommandedMs := NoButton, 0;
    }

    method ApplyDriveStatus(status: Option<Drive>, validSeen: bool, now: nat) returns (changed: bool)
      requires now < UINT32
      modifies this
      ensures State() == Apply(old(State()), status, validSeen, now)
      ensures changed <==> State().(untilMs := 0) != old(State()).(untilMs := 0)
    {
      hide Since;
      changed := false;
      if status.Some? && driveStatus != status.value {
        var previousState := driveStatus.state;
        var currentState := status.value.state;
        var recent := NoButton;
        if lastCommandedMs != 0 && Since(now, (lastCommandedMs + COMMAND_GRACE_MS) % UINT32) <= 0 {
          recent := lastCommandedButton;
        }
        if validBroadcast && IsUncommandedClosingReversal(previousState, currentState, recent) {
          obstruction := true;
          obstructionUntilMs := (now + LATCH_MS) % UINT32;
          changed := true;
        }
        driveStatus := status.value;
        changed := true;
      }
      if !validBroadcast && validSeen {
        validBroadcast := true;
        changed := true;
      }
      if obstruction && Since(now, obstructionUntilMs) >= 0 {
        obstruction := false;
        changed := true;
      }
    }

    method NoteCommand(button: Button, now: nat)
      modifies this`lastCommandedButton, this`lastCommandedMs
      ensures State() == old(State()).(lastButton := button, lastCommandedMs := now)
    {
      lastCommandedButton := button;
      lastCommandedMs := now;
    }
  }

  // ---------------------------------------------------------------- the history

  /** What reaches the bridge; `time` is the true time in milliseconds. */
  datatype Event = Sample(time: nat, status: Option<Drive>, validSeen: bool) | Command(time: nat, button: Button)

  function Clock(time: nat): nat { time % UINT32 }

  function Next(l: Latch, e: Event): Latch {
    match e
    case Sample(time, status, validSeen) => Apply(l, status, validSeen, Clock(time))
    case Command(time, button) => l.(lastButton := button, lastCommandedMs := Clock(time))
  }

  function Run(h: seq<Event>): Latch
    decreases |h|
  {
    if h == [] then Initial() else Next(Run(h[..|h| - 1]), h[|h| - 1])
  }

  /** The last status received. */
  function LastDrive(h: seq<Event>): Drive
    decreases |h|
  {
    if h == [] then Drive(0, 0, 0, 0, 0)
    else if h[|h| - 1].Sample? && h[|h| - 1].status.Some? then h[|h| - 1].status.value
    else LastDrive(h[..|h| - 1])
  }

  predicate SeenValid(h: seq<Event>) {
    exists i :: 0 <= i < |h| && h[i].Sample? && h[i].validSeen
  }

  function LastCommand(h: seq<Event>): (c: Option<Event>)
    ensures c.Some? ==> c.value.Command?
    decreases |h|
  {
    if h == [] then None
    else if h[|h| - 1].Command? then Some(h[|h| - 1])
    else LastCommand(h[..|h| - 1])
  }

  function LastSample(h: seq<Event>): Option<nat>
    decreases |h|
  {
    if h == [] then None else if h[|h| - 1].Sample? then Some(h[|h| - 1].time) else LastSample(h[..|h| - 1])
  }

  /** Samples come in order, never half a turn of the clock apart. */
  ghost predicate GapsOk(h: seq<Event>) {
    forall i :: 0 <= i < |h| && h[i].Sample? && LastSample(h[..i]).Some? ==>
      LastSample(h[..i]).value <= h[i].time < LastSample(h[..i]).value + HALF_RANGE
  }

  /** As the code sees it: was `c` an OPEN or HALF command counted as recent at `time`? */
  predicate CountsAsRecent(c: Event, time: nat)
    requires c.Command?
  {
    Clock(c.time) != 0 && Since(Clock(time), (Clock(c.time) + COMMAND_GRACE_MS) % UINT32) <= 0
  }

  predicate Excused(h: seq<Event>, time: nat) {
    var c := LastCommand(h);
    c.Some? && (c.value.button.Open? || c.value.button.Half?) && CountsAsRecent(c.value, time)
  }

  /** Event `i` reports a closing door opening, after a first valid broadcast. */
  predicate Candidate(h: seq<Event>, i: nat)
    requires i < |h|
  {
    && h[i].Sample? && h[i].status.Some?
    && IsClosing(LastDrive(h[..i]).state) && IsOpening(h[i].status.value.state)
    && SeenValid(h[..i])
  }

  /** It is a reversal for the code unless a command excuses it. */
  predicate ReversalAt(h: seq<Event>, i: nat)
    requires i < |h|
  {
    Candidate(h, i) && !Excused(h[..i], h[i].time)
  }

  lemma {:induction false} FieldsAreHistory(h: seq<Event>)
    ensures var l := Run(h);
      && l.drive == LastDrive(h) && l.valid == SeenValid(h)
      && l.lastButton == (if LastCommand(h).Some? then LastCommand(h).value.button else NoButton)
      && l.lastCommandedMs == (if LastCommand(h).Some? then Clock(LastCommand(h).value.time) else 0)
    decreases |h|
  {
    if h != [] {
      var before, e := h[..|h| - 1], h[|h| - 1];
      assert h == before + [e];
      FieldsAreHistory(before);
      hide Since, RecentCommand;
    }
  }

  /** The code's reversal test is the one on the history. */
  predicate Reverses(h: seq<Event>, e: Event) {
    && e.Sample? && e.status.Some?
    && IsClosing(LastDrive(h).state) && IsOpening(e.status.value.state) && SeenValid(h) && !Excused(h, e.time)
  }

  lemma ReversalSnoc(h: seq<Event>, e: Event)
    ensures ReversalAt(h + [e], |h|) == Reverses(h, e)
    ensures forall i :: 0 <= i < |h| ==> ReversalAt(h + [e], i) == ReversalAt(h, i)
  {
    hide Excused, SeenValid, LastDrive;
    assert (h + [e])[..|h|] == h;
    forall i | 0 <= i < |h| ensures ReversalAt(h + [e], i) == ReversalAt(h, i) {
      assert (h + [e])[..i] == h[..i];
    }
  }

  lemma RunSnoc(h: seq<Event>, e: Event)
    ensures Run(h + [e]) == Next(Run(h), e)
  {
    hide Next;
    assert (h + [e])[..|h|] == h;
  }

  lemma SampleStep(h: seq<Event>, e: Event)
    requires e.Sample?
    ensures var a, l := Run(h), Run(h + [e]);
      var until := if Reverses(h, e) then Clock(e.time + LATCH_MS) else a.untilMs;
      && l.untilMs == until
      && l.obstruction == ((a.obstruction || Reverses(h, e)) && Since(Clock(e.time), until) < 0)
  {
    RunSnoc(h, e);
    FieldsAreHistory(h);
    var now := Clock(e.time);
    assert (now + LATCH_MS) % UINT32 == Clock(e.time + LATCH_MS);
    hide Since, SeenValid, LastDrive, LastCommand, Run, Clock;
  }

  lemma ClockSince(a: nat, b: nat)
    requires a < b + HALF_RANGE && b <= a + HALF_RANGE
    ensures Since(Clock(a), Clock(b)) == a - b
  {
    var qa, qb := a / UINT32, b / UINT32;
    assert a == qa * UINT32 + Clock(a) && b == qb * UINT32 + Clock(b);
    Turns(Clock(a) - Clock(b), qa - qb);
  }

  /** `r` is the latest reversal, and the latch runs on it. */
  ghost predicate LatchedBy(h: seq<Event>, r: nat, untilMs: nat) {
    && r < |h| && ReversalAt(h, r) && LastSample(h).Some?
    && untilMs == Clock(h[r].time + LATCH_MS)
    && h[r].time <= LastSample(h).value < h[r].time + LATCH_MS
    && (forall i :: 0 <= i < |h| && ReversalAt(h, i) ==> h[i].time <= h[r].time)
  }

  ghost predicate AllOver(h: seq<Event>) {
    forall i :: 0 <= i < |h| && ReversalAt(h, i) ==> LastSample(h).Some? && LastSample(h).value - h[i].time >= LATCH_MS
  }

  lemma SnocGaps(h: seq<Event>, e: Event)
    requires GapsOk(h + [e])
    ensures GapsOk(h)
    ensures e.Sample? && LastSample(h).Some? ==> LastSample(h).value <= e.time < LastSample(h).value + HALF_RANGE
  {
    var all := h + [e];
    assert all[..|h|] == h && all[|h|] == e;
    forall i | 0 <= i < |h| && h[i].Sample? && LastSample(h[..i]).Some?
      ensures LastSample(h[..i]).value <= h[i].time < LastSample(h[..i]).value + HALF_RANGE
    {
      assert all[..i] == h[..i] && all[i] == h[i];
    }
  }

  lemma LastSampleSnoc(h: seq<Event>, e: Event)
    ensures LastSample(h + [e]) == if e.Sample? then Some(e.time) else LastSample(h)
  {
    assert (h + [e])[..|h|] == h;
  }

  lemma LatestIsLast(h: seq<Event>, e: Event)
    requires GapsOk(h + [e]) && e.Sample?
    requires forall i :: 0 <= i < |h| && ReversalAt(h, i) ==> LastSample(h).Some? && h[i].time <= LastSample(h).value
    ensures forall i :: 0 <= i <= |h| && ReversalAt(h + [e], i) ==> (h + [e])[i].time <= e.time
  {
    SnocGaps(h, e);
    ReversalSnoc(h, e);
    hide Reverses, ReversalAt, LastSample, GapsOk;
    forall i | 0 <= i <= |h| && ReversalAt(h + [e], i)
      ensures (h + [e])[i].time <= e.time
    {
      assert i < |h| ==> (h + [e])[i] == h[i];
    }
  }

  lemma ReversalSets(h: seq<Event>, e: Event)
    requires Reverses(h, e)
    ensures Run(h + [e]).obstruction && Run(h + [e]).untilMs == Clock(e.time + LATCH_MS)
  {
    SampleStep(h, e);
    ClockSince(e.time, e.time + LATCH_MS);
    hide Run, Clock, Since;
  }

  lemma NewestLatch(h: seq<Event>, e: Event)
    requires e.Sample? && ReversalAt(h + [e], |h|)
    requires forall i :: 0 <= i <= |h| && ReversalAt(h + [e], i) ==> (h + [e])[i].time <= e.time
    ensures LatchedBy(h + [e], |h|, Clock(e.time + LATCH_MS))
  {
    hide ReversalAt, Clock;
    var all := h + [e];
    assert all[|h|] == e;
  }

  lemma ReversalIsThere(h: seq<Event>, e: Event)
    requires Reverses(h, e)
    ensures e.Sample? && ReversalAt(h + [e], |h|)
  {
    ReversalSnoc(h, e);
  }

  lemma LatchAfterReversal(h: seq<Event>, e: Event)
    requires GapsOk(h + [e]) && Reverses(h, e)
    requires forall i :: 0 <= i < |h| && ReversalAt(h, i) ==> LastSample(h).Some? && h[i].time <= LastSample(h).value
    ensures Run(h + [e]).obstruction && Run(h + [e]).untilMs == Clock(e.time + LATCH_MS)
    ensures LatchedBy(h + [e], |h|, Clock(e.time + LATCH_MS))
  {
    hide ReversalAt, LastSample, Run, GapsOk, Clock, Reverses;
    ReversalSets(h, e);
    ReversalIsThere(h, e);
    LatestIsLast(h, e);
    NewestLatch(h, e);
  }

  lemma LatchGoesOn(h: seq<Event>, e: Event, r: nat)
    requires GapsOk(h + [e]) && e.Sample? && !Reverses(h, e)
    requires Run(h).obstruction && LatchedBy(h, r, Run(h).untilMs)
    ensures if Run(h + [e]).obstruction then LatchedBy(h + [e], r, Run(h + [e]).untilMs) else AllOver(h + [e])
  {
    SampleStep(h, e);
    SnocGaps(h, e);
    ClockSince(e.time, h[r].time + LATCH_MS);
    ReversalSnoc(h, e);
    LastSampleSnoc(h, e);
    hide Reverses, ReversalAt, LastSample, Run, GapsOk, Clock, Since;
    assert (h + [e])[r] == h[r];
  }

  /** The latch says what the reversals say; `r` is the latest of them while it is set. */
  ghost predicate Faithful(h: seq<Event>, r: nat) {
    if Run(h).obstruction then LatchedBy(h, r, Run(h).untilMs) else AllOver(h)
  }

  lemma CommandKeeps(h: seq<Event>, e: Event, r: nat)
    requires e.Command? && Faithful(h, r)
    ensures Faithful(h + [e], r)
  {
    RunSnoc(h, e);
    ReversalSnoc(h, e);
    LastSampleSnoc(h, e);
    assert !Reverses(h, e);
    hide Reverses, ReversalAt, LastSample, Run, Clock;
    var all := h + [e];
    assert forall i :: 0 <= i < |h| ==> all[i] == h[i];
  }

  lemma ReversalKeeps(h: seq<Event>, e: Event, r: nat)
    requires GapsOk(h + [e]) && Reverses(h, e) && Faithful(h, r)
    ensures Faithful(h + [e], |h|)
  {
    hide Reverses, ReversalAt, LastSample, Run, GapsOk, Clock;
    LatchAfterReversal(h, e);
  }

  lemma SampleKeeps(h: seq<Event>, e: Event, r: nat)
    requires GapsOk(h + [e]) && e.Sample? && !Reverses(h, e) && Faithful(h, r)
    ensures Faithful(h + [e], r)
  {
    hide Reverses, Next, GapsOk, ReversalAt, Clock;
    if Run(h).obstruction {
      LatchGoesOn(h, e, r);
    } else {
      StaysClear(h, e);
    }
  }

  lemma {:induction false} LatchKeeps(h: seq<Event>) returns (r: nat)
    requires GapsOk(h)
    ensures Faithful(h, r)
    decreases |h|
  {
    r := 0;
    if h != [] {
      var before, e := h[..|h| - 1], h[|h| - 1];
      assert h == before + [e];
      SnocGaps(before, e);
      hide Faithful, Reverses, GapsOk;
      r := LatchKeeps(before);
      if e.Command? {
        CommandKeeps(before, e, r);
      } else if Reverses(before, e) {
        ReversalKeeps(before, e, r);
        r := |before|;
      } else {
        SampleKeeps(before, e, r);
      }
    }
  }

  lemma StaysClear(h: seq<Event>, e: Event)
    requires GapsOk(h + [e]) && e.Sample? && !Reverses(h, e) && !Run(h).obstruction && AllOver(h)
    ensures !Run(h + [e]).obstruction && AllOver(h + [e])
  {
    SampleStep(h, e);
    SnocGaps(h, e);
    ReversalSnoc(h, e);
    LastSampleSnoc(h, e);
    hide Reverses, ReversalAt, LastSample, Run, GapsOk, Clock, Since;
  }

  /**
   After any history of samples and commands, the latch is set exactly if some uncommanded reversal lies
   less than ten seconds before the last sample.
   */
  lemma LatchIsHistory(h: seq<Event>)
    requires GapsOk(h)
    ensures Run(h).obstruction <==>
      exists i :: 0 <= i < |h| && ReversalAt(h, i) && LastSample(h).Some?
                  && LastSample(h).value - h[i].time < LATCH_MS
  {
    var r := LatchKeeps(h);
    hide ReversalAt, LastSample, Run, GapsOk, Clock;
  }

  // ---------------------------------------------------------------- what counts as recent

  /** The promise: a command excuses for two seconds. */
  predicate WithinGrace(c: Event, time: nat)
    requires c.Command?
  {
    time - c.time <= COMMAND_GRACE_MS
  }

  /**
   The code keeps the promise except when the command fell on a clock reading of zero, or is so old that
   the signed comparison has come round again.
   */
  lemma RecencyIsExact(c: Event, time: nat)
    requires c.Command? && c.time <= time
    ensures var late := (time - c.time - COMMAND_GRACE_MS) % UINT32;
      (CountsAsRecent(c, time) <==> WithinGrace(c, time)) <==>
        !(if WithinGrace(c, time) then Clock(c.time) == 0
          else Clock(c.time) != 0 && (late == 0 || late >= HALF_RANGE))
  {
    LateClock(c.time, time);
  }

  lemma LateClock(from: nat, time: nat)
    requires from <= time
    ensures (Clock(time) - (Clock(from) + COMMAND_GRACE_MS) % UINT32) % UINT32
         == (time - from - COMMAND_GRACE_MS) % UINT32
  {
    var a, b := Clock(time), Clock(from);
    var qa, qb := time / UINT32, from / UINT32;
    assert time == qa * UINT32 + a && from == qb * UINT32 + b;
    var q := (b + COMMAND_GRACE_MS) / UINT32;
    assert b + COMMAND_GRACE_MS == q * UINT32 + (b + COMMAND_GRACE_MS) % UINT32;
    Turns(a - (b + COMMAND_GRACE_MS) % UINT32, qa - qb - q);
  }

  // ---------------------------------------------------------------- exactly when the latch is wrong

  predicate Opens(e: Event) {
    e.Command? && (e.button.Open? || e.button.Half?)
  }

  /** The last command before event `i` was OPEN or HALF. */
  predicate Commanded(h: seq<Event>, i: nat)
    requires i < |h|
  {
    var c := LastCommand(h[..i]);
    c.Some? && Opens(c.value)
  }

  /** Some OPEN or HALF command lies at most two seconds before event `i`. */
  predicate OpenedWithin(h: seq<Event>, i: nat)
    requires i < |h|
  {
    exists j :: 0 <= j < i && Opens(h[j]) && WithinGrace(h[j], h[i].time)
  }

  /** The reversal as promised: not within two seconds of any OPEN or HALF command. */
  predicate PromisedReversalAt(h: seq<Event>, i: nat)
    requires i < |h|
  {
    Candidate(h, i) && !OpenedWithin(h, i)
  }

  predicate Fresh(h: seq<Event>, i: nat)
    requires i < |h|
  {
    LastSample(h).Some? && LastSample(h).value - h[i].time < LATCH_MS
  }

  /** A command on a clock reading of zero, still within its two seconds at event `i`. */
  predicate Zeroed(h: seq<Event>, i: nat)
    requires i < |h|
  {
    && Commanded(h, i)
    && WithinGrace(LastCommand(h[..i]).value, h[i].time) && Clock(LastCommand(h[..i]).value.time) == 0
  }

  /** An OPEN or HALF still within its two seconds at event `i`, but followed by another button's command. */
  predicate Superseded(h: seq<Event>, i: nat)
    requires i < |h|
  {
    OpenedWithin(h, i) && !Commanded(h, i)
  }

  /** A command so old at event `i` that the signed comparison has come round again. */
  predicate Aliased(h: seq<Event>, i: nat)
    requires i < |h|
  {
    && Commanded(h, i) && !WithinGrace(LastCommand(h[..i]).value, h[i].time)
    && Clock(LastCommand(h[..i]).value.time) != 0
    && var late := (h[i].time - LastCommand(h[..i]).value.time - COMMAND_GRACE_MS) % UINT32;
       late == 0 || late >= HALF_RANGE
  }

  /** A commanded reversal that the code takes for an obstruction. */
  predicate Accused(h: seq<Event>, i: nat)
    requires i < |h|
  {
    Candidate(h, i) && (Zeroed(h, i) || Superseded(h, i))
  }

  /** A real one that the code excuses. */
  predicate Missed(h: seq<Event>, i: nat)
    requires i < |h|
  {
    Candidate(h, i) && Aliased(h, i)
  }

  ghost predicate InOrder(h: seq<Event>) {
    forall i, j :: 0 <= i < j < |h| ==> h[i].time <= h[j].time
  }

  lemma {:induction false} LastCommandIsThere(h: seq<Event>) returns (k: nat)
    ensures LastCommand(h).Some? ==> k < |h| && h[k] == LastCommand(h).value
    ensures forall j :: 0 <= j < |h| && h[j].Command? ==> LastCommand(h).Some? && j <= k
    decreases |h|
  {
    k := 0;
    if h != [] {
      var before, n := h[..|h| - 1], |h| - 1;
      k := LastCommandIsThere(before);
      assert forall j :: 0 <= j < n ==> before[j] == h[j];
      k := if h[n].Command? then n else k;
    }
  }

  /** If any OPEN or HALF is within grace and the last command is one, then that one is. */
  lemma LatestIsWithin(h: seq<Event>, i: nat)
    requires i < |h| && InOrder(h) && Commanded(h, i)
    ensures LastCommand(h[..i]).value.time <= h[i].time
    ensures OpenedWithin(h, i) <==> WithinGrace(LastCommand(h[..i]).value, h[i].time)
  {
    var k := LastCommandIsThere(h[..i]);
    assert h[k] == h[..i][k] == LastCommand(h[..i]).value;
    hide LastCommand;
    forall j | 0 <= j < i && Opens(h[j]) ensures h[j].time <= h[k].time {
      assert h[..i][j] == h[j];
    }
  }

  lemma JudgedAt(h: seq<Event>, i: nat)
    requires i < |h| && InOrder(h)
    ensures ReversalAt(h, i) <==> Accused(h, i) || (PromisedReversalAt(h, i) && !Missed(h, i))
    ensures Missed(h, i) ==> PromisedReversalAt(h, i)
    ensures Accused(h, i) ==> !PromisedReversalAt(h, i)
  {
    if Commanded(h, i) {
      LatestIsWithin(h, i);
      RecencyIsExact(LastCommand(h[..i]).value, h[i].time);
    }
    hide CountsAsRecent, WithinGrace, Candidate, OpenedWithin;
  }

  /** What the source promises of the latch after `h`. */
  ghost predicate Promised(h: seq<Event>) {
    exists i :: 0 <= i < |h| && Fresh(h, i) && PromisedReversalAt(h, i)
  }

  /**
   The latch is the promised one exactly if some fresh promised reversal is not missed, or fresh reversals
   wrongly accused and fresh ones wrongly excused are both there or both absent.
   */
  lemma LatchIsExact(h: seq<Event>)
    requires GapsOk(h) && InOrder(h)
    ensures
      (Run(h).obstruction <==> Promised(h))
      <==>
      (|| (exists i :: 0 <= i < |h| && Fresh(h, i) && PromisedReversalAt(h, i) && !Missed(h, i))
       || ((exists i :: 0 <= i < |h| && Fresh(h, i) && Accused(h, i))
           <==> (exists i :: 0 <= i < |h| && Fresh(h, i) && Missed(h, i))))
  {
    LatchIsHistory(h);
    assert Run(h).obstruction <==> exists i :: 0 <= i < |h| && Fresh(h, i) && ReversalAt(h, i);
    forall i | 0 <= i < |h|
      ensures ReversalAt(h, i) <==> Accused(h, i) || (PromisedReversalAt(h, i) && !Missed(h, i))
      ensures Missed(h, i) ==> PromisedReversalAt(h, i)
    {
      JudgedAt(h, i);
    }
    hide ReversalAt, PromisedReversalAt, Accused, Missed, Fresh, LastSample, Run, GapsOk, InOrder;
  }

  /** So where no fresh reversal is accused or missed, the latch is the promised one. */
  lemma LatchIsPromised(h: seq<Event>)
    requires GapsOk(h) && InOrder(h)
    requires forall i :: 0 <= i < |h| && Fresh(h, i) ==> !Accused(h, i) && !Missed(h, i)
    ensures Run(h).obstruction <==> Promised(h)
  {
    LatchIsExact(h);
    hide PromisedReversalAt, Accused, Missed, Fresh, Run, GapsOk, InOrder, Promised;
  }

  // ---------------------------------------------------------------- seen concretely

  function Reported(time: nat, state: nat): Event {
    Sample(time, Some(Drive(0, 0, state, 0, 0)), true)
  }

  /** Some commands, and then a door seen closing and opening. */
  function ReversalBehind(commands: seq<Event>, closing: nat, opening: nat): seq<Event> {
    commands + [Reported(closing, CLOSING)] + [Reported(opening, OPENING)]
  }

  ghost predicate OnlyCommands(h: seq<Event>) {
    forall i :: 0 <= i < |h| ==> h[i].Command?
  }

  lemma {:induction false} CommandsChangeNothing(commands: seq<Event>)
    requires OnlyCommands(commands)
    ensures var l := Run(commands); l.drive == Initial().drive && !l.valid && !l.obstruction
    ensures LastSample(commands).None?
    decreases |commands|
  {
    if commands != [] {
      CommandsChangeNothing(commands[..|commands| - 1]);
      hide Apply;
    }
  }

  lemma BeforeReversal(commands: seq<Event>, closing: nat)
    requires OnlyCommands(commands)
    ensures var l, c := Run(commands + [Reported(closing, CLOSING)]), LastCommand(commands);
      && IsClosing(l.drive.state) && l.valid && !l.obstruction
      && l.lastButton == (if c.Some? then c.value.button else NoButton)
      && l.lastCommandedMs == (if c.Some? then Clock(c.value.time) else 0)
  {
    CommandsChangeNothing(commands);
    FieldsAreHistory(commands);
    RunSnoc(commands, Reported(closing, CLOSING));
    hide Since, Run, LastCommand, LastDrive, SeenValid;
  }

  lemma ReversalNext(l: Latch, opening: nat)
    requires IsClosing(l.drive.state) && l.valid && !l.obstruction
    ensures var recent := RecentCommand(l, Clock(opening));
      Next(l, Reported(opening, OPENING)).obstruction == (recent != Open && recent != Half)
  {
    ClockSince(opening, opening + LATCH_MS);
    assert (Clock(opening) + LATCH_MS) % UINT32 == Clock(opening + LATCH_MS);
    hide Since, Clock, RecentCommand;
  }

  /** One reversal behind any commands sets the latch exactly if the last of them does not excuse it. */
  lemma OneIsJudged(commands: seq<Event>, closing: nat, opening: nat)
    requires OnlyCommands(commands)
    ensures Run(ReversalBehind(commands, closing, opening)).obstruction <==> !Excused(commands, opening)
  {
    var before := commands + [Reported(closing, CLOSING)];
    BeforeReversal(commands, closing);
    ReversalNext(Run(before), opening);
    RunSnoc(before, Reported(opening, OPENING));
    hide Run, Next, Since, LastCommand, IsClosing, Clock;
  }

  lemma OneIsInOrder(commands: seq<Event>, closing: nat, opening: nat)
    requires OnlyCommands(commands) && closing <= opening < closing + HALF_RANGE
    ensures GapsOk(ReversalBehind(commands, closing, opening))
  {
    var h, n := ReversalBehind(commands, closing, opening), |commands|;
    CommandsChangeNothing(commands);
    LastSampleSnoc(commands, Reported(closing, CLOSING));
    assert h[..n] == commands && h[..n + 1] == commands + [Reported(closing, CLOSING)];
    hide LastSample, Run;
    assert forall i :: 0 <= i < n ==> h[i] == commands[i];
  }

  lemma OnlyOne(c: Event)
    requires c.Command?
    ensures LastCommand([c]) == Some(c)
  {}

  /** An OPEN command 25 days ago keeps a real obstruction from being reported. */
  lemma OldCommandExcuses()
    ensures var t := COMMAND_GRACE_MS + HALF_RANGE;
      var h := ReversalBehind([Command(1, Open)], t, t + 1);
      GapsOk(h) && !WithinGrace(h[0], h[2].time) && !Run(h).obstruction
  {
    var t, c := COMMAND_GRACE_MS + HALF_RANGE, Command(1, Open);
    OneIsInOrder([c], t, t + 1);
    OneIsJudged([c], t, t + 1);
    OnlyOne(c);
    hide Run, GapsOk, LastCommand;
  }

  /** A door opened by a command given on a clock reading of zero is reported as obstructed at once. */
  lemma ZeroCommandAccuses()
    ensures var h := ReversalBehind([Command(UINT32, Open)], UINT32, UINT32 + 1);
      GapsOk(h) && WithinGrace(h[0], h[2].time) && Run(h).obstruction
  {
    var c := Command(UINT32, Open);
    OneIsInOrder([c], UINT32, UINT32 + 1);
    OneIsJudged([c], UINT32, UINT32 + 1);
    OnlyOne(c);
    hide Run, GapsOk, LastCommand;
  }

  /** So is one opened by a command a second ago, if the light was switched since. */
  lemma LightAccuses()
    ensures var h := ReversalBehind([Command(1000, Open), Command(1500, LightButton)], 1600, 2000);
      GapsOk(h) && WithinGrace(h[0], h[3].time) && Run(h).obstruction
  {
    var a, b := Command(1000, Open), Command(1500, LightButton);
    OneIsInOrder([a, b], 1600, 2000);
    OneIsJudged([a, b], 1600, 2000);
    assert LastCommand([a, b]) == Some(b);
    hide Run, GapsOk, LastCommand;
  }

  lemma FirstStatus(time: nat, code: nat)
    requires code != 0
    ensures var l := Run([Reported(time, code)]);
      l.drive.state == code && l.valid && !l.obstruction && l.lastCommandedMs == 0
  {
    var a := Reported(time, code);
    assert [] + [a] == [a];
    RunSnoc([], a);
    assert Run([]) == Initial();
    hide Since, Clock, Run;
  }

  lemma NextStatus(l: Latch, time: nat, code: nat)
    requires l.valid && !l.obstruction && l.lastCommandedMs == 0
    ensures Next(l, Reported(time, code)).obstruction
      <==> IsClosing(l.drive.state) && IsOpening(code)
  {
    ClockSince(time, time + LATCH_MS);
    assert (Clock(time) + LATCH_MS) % UINT32 == Clock(time + LATCH_MS);
    hide Since, Clock;
  }

  /** Drive states by number: only 0x02 closes, only 0x01, 0x05 and 0x09 open. */
  lemma StatesAreNumbers(before: nat, after: nat, time: nat)
    requires before != 0
    ensures Run([Reported(time, before), Reported(time + 1, after)]).obstruction
      <==> before == 0x02 && after in {0x01, 0x05, 0x09}
  {
    var a, b := Reported(time, before), Reported(time + 1, after);
    assert [a] + [b] == [a, b];
    FirstStatus(time, before);
    NextStatus(Run([a]), time + 1, after);
    RunSnoc([a], b);
    hide Run, Next;
  }

  lemma CountsUntil(commanded: nat, time: nat)
    requires 0 < commanded <= time < HALF_RANGE
    ensures CountsAsRecent(Command(commanded, Open), time) <==> time <= commanded + 2000
  {}

  /** An OPEN command excuses until 2000 ms later, and no longer. */
  lemma GraceIsTwoSeconds(commanded: nat, opening: nat)
    requires 0 < commanded <= opening < HALF_RANGE
    ensures Run(ReversalBehind([Command(commanded, Open)], commanded, opening)).obstruction
      <==> opening > commanded + 2000
  {
    var c := Command(commanded, Open);
    hide Run, LastCommand, CountsAsRecent;
    OneIsJudged([c], commanded, opening);
    OnlyOne(c);
    CountsUntil(commanded, opening);
  }

  lemma LatchedUntil(l: Latch, opening: nat)
    requires IsClosing(l.drive.state) && l.valid && !l.obstruction && l.lastCommandedMs == 0
    ensures var n := Next(l, Reported(opening, OPENING)); n.obstruction && n.untilMs == Clock(opening + LATCH_MS)
  {
    ClockSince(opening, opening + LATCH_MS);
    assert (Clock(opening) + LATCH_MS) % UINT32 == Clock(opening + LATCH_MS);
    hide Since, Clock;
  }

  lemma StaysUntil(l: Latch, later: nat)
    requires l.obstruction
    ensures Next(l, Sample(later, None, true)).obstruction <==> Since(Clock(later), l.untilMs) < 0
  {
    hide Since, Clock;
  }

  /** The latch is held until the sample 10000 ms after the reversal, and no longer. */
  lemma LatchIsTenSeconds(closing: nat, later: nat)
    requires closing + 1 <= later < closing + HALF_RANGE
    ensures Run([Reported(closing, CLOSING), Reported(closing + 1, OPENING), Sample(later, None, true)]).obstruction
      <==> later < closing + 1 + 10000
  {
    var a, b, e := Reported(closing, CLOSING), Reported(closing + 1, OPENING), Sample(later, None, true);
    assert [a, b] == [a] + [b] && [a, b, e] == [a, b] + [e];
    hide Run, Next, Since, Clock;
    FirstStatus(closing, CLOSING);
    LatchedUntil(Run([a]), closing + 1);
    RunSnoc([a], b);
    StaysUntil(Run([a, b]), later);
    RunSnoc([a, b], e);
    ClockSince(later, closing + 1 + LATCH_MS);
  }
}
