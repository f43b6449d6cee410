/**
 Which bytes the emulated master answers to, over whole runs: those behind the last frame it sent that asks for
 something. And what it does while nothing answers: it repeats the scan.
 */
module MasterReceives {
  import opened ChipReceiver
  import opened Crc16
  import opened Framing
  import opened MasterChip
  import opened MasterProgress
  import opened MasterRuns
  import opened Protocol

  // ---------------------------------------------------------------- the receive buffer

  /** Between these two states a frame went out that is addressed to the slave; broadcasts are addressed to 0. */
  predicate Asked(before: Chip, after: Chip) {
    && |after.sent| > |before.sent|
    && Addressed(after.sent[|after.sent| - 1])
  }

  /** The bytes that arrived since the chip last asked for something. */
  function Recent(m: Master, events: seq<Event>): seq<byte>
    decreases |events|
  {
    if events == [] then []
    else
      var before, e := events[..|events| - 1], events[|events| - 1];
      if e.Receive? then Recent(m, before) + [e.b]
      else if Asked(Run(m, before).chip, Run(m, events).chip) then []
      else Recent(m, before)
  }

  predicate Addressed(frame: seq<byte>) { |frame| > 0 && frame[0] == SLAVE_ID }

  lemma RequestsAreAddressed(cycles: nat)
    ensures Addressed(SCAN_REQUEST) && Addressed(LIGHT_COMMAND)
    ensures Addressed(PollFrame(cycles)) && Addressed(ProbeFrame(cycles))
  {
    hide Crc, Lo, Hi;
  }

  lemma PollAsks(c: Chip, accepted: bool)
    requires !Final(SendStatusPoll(c, accepted).phase) && VerdictOk(c) && !Final(c.phase)
    ensures Asked(c, SendStatusPoll(c, accepted))
  {
    RequestsAreAddressed(c.polling.cycles);
    hide PollFrame, ProbeFrame;
  }

  /** Sending empties the buffer, or broadcasts, or fails. */
  lemma SendingAsks(m: Master, accepted: bool)
    requires !Final(Expire(m, accepted).chip.phase) && VerdictOk(m.chip)
    ensures var after := Expire(m, accepted);
      if Asked(m.chip, after.chip) then after.rx == [] else after.rx == m.rx
  {
    hide SendStatusPoll, SendBroadcast, Deserved, Addressed;
    var c := m.chip.(timer := false);
    match c.phase
    case NextCycle => BroadcastAsksNothing(c, accepted);
    case BeforePoll => PollAsks(c, accepted);
    case WaitSilence =>
      PollAsks(c.(detours := c.detours.(faultRecoveries := c.detours.faultRecoveries + 1)), accepted);
    case Start => RequestsAreAddressed(0);
    case _ =>
  }

  lemma BroadcastAsksNothing(c: Chip, accepted: bool)
    ensures !Asked(c, SendBroadcast(c, accepted))
  {
    hide Crc;
  }

  lemma Instalment(a: seq<byte>, b: byte)
    requires Decisive(ResponseNeed, MAX_FRAME)
    ensures Drain(ResponseNeed, MAX_FRAME, a + [b]).held
         == Drain(ResponseNeed, MAX_FRAME, Drain(ResponseNeed, MAX_FRAME, a).held + [b]).held
  {
    DrainInstalments(ResponseNeed, MAX_FRAME, a, [b]);
  }

  lemma ByteIsHeld(m: Master, b: byte)
    requires Decisive(ResponseNeed, MAX_FRAME) && Quiet(m.rx) && !Final(m.chip.phase)
    ensures OnByte(m, b).rx == Drain(ResponseNeed, MAX_FRAME, m.rx + [b]).held
  {
    QuietIsShort(m.rx);
    ConsumeIsDrain(m.chip, m.rx + [b]);
    hide Consume, Drain, Quiet, ResponseNeed;
  }

  lemma FinalStays(m: Master, e: Event)
    requires Final(m.chip.phase)
    ensures Final(Next(m, e).chip.phase)
  {}

  lemma {:induction false} HeldIsRecent(m: Master, events: seq<Event>)
    requires PoweredOn(m) && Decisive(ResponseNeed, MAX_FRAME) && !Final(Run(m, events).chip.phase)
    ensures Run(m, events).rx == Drain(ResponseNeed, MAX_FRAME, Recent(m, events)).held
    decreases |events|
  {
    hide Quiet, ResponseNeed, Decisive, Drain;
    if events == [] {
      assert Drain(ResponseNeed, MAX_FRAME, []).held == [] by { DrainNothing(); }
    } else {
      var init, e := events[..|events| - 1], events[|events| - 1];
      if Final(Run(m, init).chip.phase) {
        FinalStays(Run(m, init), e);
      }
      HeldIsRecent(m, init);
      RunIsQuiet(m, init);
      hide PoweredOn, Expire, OnByte, Final, Asked;
      match e
      case Receive(b) =>
        ByteIsHeld(Run(m, init), b);
        Instalment(Recent(m, init), b);
      case Timer(accepted) =>
        RunIsUnjudged(m, init);
        SendingAsks(Run(m, init), accepted);
        DrainNothing();
    }
  }

  lemma DrainNothing()
    requires Decisive(ResponseNeed, MAX_FRAME)
    ensures Drain(ResponseNeed, MAX_FRAME, []).held == []
  {
    hide Decisive;
    DrainConserves(ResponseNeed, MAX_FRAME, []);
  }

  lemma RunIsUnjudged(m: Master, events: seq<Event>)
    requires PoweredOn(m)
    ensures VerdictOk(Run(m, events).chip)
  {
    PowerIsQuiet(m);
    RunKeeps(m, events);
  }

  lemma RunIsQuiet(m: Master, events: seq<Event>)
    requires PoweredOn(m)
    ensures Quiet(Run(m, events).rx)
  {
    PowerIsQuiet(m);
    RunKeeps(m, events);
  }

  lemma PowerIsQuiet(m: Master)
    requires PoweredOn(m)
    ensures Inv(m.chip) && Quiet(m.rx) && Tells(m.chip.polling, [])
  {
    EmptyTells(m.chip.polling);
  }

  /**
   In every run without a verdict so far, the buffer holds what framing leaves of the bytes since the chip last
   asked for something: bytes from before a poll never become part of its answer, and none behind it are lost.
   */
  lemma AnswersAreRecent(m: Master, events: seq<Event>)
    requires PoweredOn(m) && !Final(Run(m, events).chip.phase)
    ensures Decisive(ResponseNeed, MAX_FRAME)
    ensures Run(m, events).rx == Drain(ResponseNeed, MAX_FRAME, Recent(m, events)).held
  {
    ResponseIsDecisive();
    HeldIsRecent(m, events);
  }

  // ---------------------------------------------------------------- the scan

  predicate Scanning(c: Chip) { c.phase.Start? || c.phase.WaitScan? }

  /** `n` expiries while scanning: every other one sends the request. */
  predicate Scanned(c: Chip, n: nat) {
    && c.sent == seq((n + 1) / 2, i => SCAN_REQUEST)
    && c.phase == (if n % 2 == 0 then Start else WaitScan)
    && c.timer
  }

  lemma ScanByte(m: Master, b: byte)
    requires Quiet(m.rx) && Scanning(OnByte(m, b).chip)
    ensures OnByte(m, b).chip == m.chip
  {
    hide Quiet, ResponseNeed, Crc, RecordReply;
    if !Final(m.chip.phase) {
      OneFramePerByte(m, b);
      hide OnByte;
    }
  }

  lemma ScanExpiry(c: Chip, accepted: bool, n: nat)
    requires Scanning(OnTimer(c, accepted)) && VerdictOk(c) && (Scanning(c) ==> Scanned(c, n))
    ensures Scanning(c) && Scanned(OnTimer(c, accepted), n + 1)
  {
    hide Deserved, AppendCrc, RecordMiss;
  }

  lemma ScanStep(m: Master, e: Event, n: nat)
    requires Quiet(m.rx) && VerdictOk(m.chip) && Scanning(Next(m, e).chip) && (Scanning(m.chip) ==> Scanned(m.chip, n))
    ensures Scanning(m.chip) && Scanned(Next(m, e).chip, n + One(e.Timer?))
  {
    hide Quiet, OnTimer, OnByte, Scanned, Scanning, VerdictOk;
    match e
    case Receive(b) => ScanByte(m, b);
    case Timer(accepted) => ScanExpiry(m.chip, accepted, n);
  }

  lemma {:induction false} ScanGoesOn(m: Master, events: seq<Event>)
    requires PoweredOn(m)
    ensures Scanning(Run(m, events).chip) ==> Scanned(Run(m, events).chip, Timers(events))
    decreases |events|
  {
    if events != [] {
      var init, e := events[..|events| - 1], events[|events| - 1];
      hide Quiet, PoweredOn, Next, Scanned, Scanning, VerdictOk;
      ScanGoesOn(m, init);
      RunIsQuiet(m, init);
      RunIsUnjudged(m, init);
      if Scanning(Next(Run(m, init), e).chip) {
        ScanStep(Run(m, init), e, Timers(init));
      }
    }
  }

  /**
   In every run in which nothing has answered the scan yet: every other expiry of the timer has sent the scan request
   again, nothing else has been sent, and the timer is running.
   */
  lemma ScanIsRepeated(m: Master, events: seq<Event>)
    requires PoweredOn(m) && Scanning(Run(m, events).chip)
    ensures var c := Run(m, events).chip;
      && |c.sent| == (Timers(events) + 1) / 2 && (forall i :: 0 <= i < |c.sent| ==> c.sent[i] == SCAN_REQUEST)
      && (c.phase.Start? <==> Timers(events) % 2 == 0) && c.timer
  {
    ScanGoesOn(m, events);
    hide Run, Timers, PoweredOn;
  }
}
