/** The emulated master ends: once the scan is answered, a measure falls with every timer expiry. */
module MasterProgress {
  import ChipFrames
  import opened Crc16
  import opened MasterChip
  import opened MasterRuns
  import Protocol
  import opened Words

  /** Cycles left, a detour still to come, and the place within the cycle, in one number. */
  function Work(c: Chip): int {
    var cycle := 3 * (c.config.target - c.polling.cycles)
      + 3 * One((c.config.mode.Light? && !c.detours.commandSent) || (c.config.mode.Fault? && !c.detours.faultInjected));
    match c.phase
    case NextCycle => cycle
    case BeforePoll => cycle - 1
    case WaitPoll => cycle - 2
    case WaitCommand => cycle + 1
    case WaitSilence => cycle + 1
    case _ => 0
  }

  lemma StatusPollWorks(c: Chip, accepted: bool)
    requires c.phase.BeforePoll? || c.phase.WaitSilence?
    requires c.polling.cycles < c.config.target && !c.verdictPrinted
    requires c.phase.WaitSilence? ==> c.detours.faultInjected && c.config.mode.Fault?
    ensures 0 <= Work(SendStatusPoll(c, accepted)) < Work(c)
  {
    hide PollFrame, ProbeFrame;
  }

  lemma CycleWorks(c: Chip)
    requires c.phase.WaitPoll? && c.polling.cycles < c.config.target && !c.verdictPrinted
    ensures 0 <= Work(CycleOver(c)) < Work(c)
  {
    hide Deserved;
  }

  /** Every timer expiry after the scan brings the verdict closer. */
  lemma TimerWorks(c: Chip, accepted: bool)
    requires Inv(c) && c.scanOk && !Final(c.phase)
    ensures 0 <= Work(OnTimer(c, accepted)) < Work(c)
    ensures OnTimer(c, accepted).scanOk
  {
    var x := c.(timer := false);
    hide SendStatusPoll, OpeningFrame, CycleOver, Deserved;
    match c.phase
    case BeforePoll =>
      StatusPollWorks(x, accepted);
      KeepsScan(x, accepted);
    case WaitSilence =>
      var y := x.(detours := x.detours.(faultRecoveries := x.detours.faultRecoveries + 1));
      StatusPollWorks(y, accepted);
      KeepsScan(y, accepted);
    case WaitPoll =>
      var m := JudgeMiss(x.(polling := RecordMiss(x.polling)));
      if !m.phase.Failed? {
        CycleWorks(m);
        CycleKeepsScan(m);
      }
    case _ =>
  }

  lemma KeepsScan(c: Chip, accepted: bool)
    ensures SendStatusPoll(c, accepted).scanOk == c.scanOk
  {
    hide PollFrame, ProbeFrame;
  }

  lemma CycleKeepsScan(c: Chip)
    ensures CycleOver(c).scanOk == c.scanOk
  {
    hide Deserved;
  }

  /** Every accepted response brings the verdict closer, any other changes nothing. */
  lemma ProcessWorks(c: Chip, frame: seq<byte>)
    requires Inv(c) && c.scanOk && |frame| >= 3
    ensures Process(c, frame).scanOk
    ensures Process(c, frame) == c || 0 <= Work(Process(c, frame)) < Work(c)
  {
    hide Crc;
    if c.phase.WaitPoll? {
      CycleWorks(c.(polling := RecordReply(c.polling)));
      CycleKeepsScan(c.(polling := RecordReply(c.polling)));
      hide CycleOver;
    } else {
      hide CycleOver;
    }
  }

  lemma {:induction false} ConsumeWorks(c: Chip, buffer: seq<byte>)
    requires Inv(c) && c.scanOk
    ensures Consume(c, buffer).chip.scanOk
    ensures Consume(c, buffer).chip == c || 0 <= Work(Consume(c, buffer).chip) < Work(c)
    decreases |buffer|
  {
    hide Inv, Process, Work;
    match ResponseNeed(buffer)
    case More =>
    case Bad => ConsumeWorks(c, buffer[1..]);
    case Exactly(n) =>
      if |buffer| == n {
        ProcessWorks(c, buffer);
      } else if |buffer| > n {
        ProcessWorks(c, buffer[..n]);
        ProcessKeeps(c, buffer[..n]);
        ConsumeWorks(Process(c, buffer[..n]), buffer[n..]);
      }
  }

  function Timers(events: seq<Event>): nat
    decreases |events|
  {
    if events == [] then 0 else Timers(events[..|events| - 1]) + One(events[|events| - 1].Timer?)
  }

  lemma WorkIsPositive(c: Chip)
    requires Inv(c) && c.scanOk
    ensures 0 <= Work(c) <= 3 * c.config.target + 3
    ensures !Final(c.phase) ==> Work(c) > 0
  {}

  /** One event: the scan stays answered, and a timer expiry costs at least one unit of work. */
  lemma StepWorks(m: Master, e: Event)
    requires Inv(m.chip) && m.chip.scanOk
    ensures Next(m, e).chip.scanOk
    ensures Final(m.chip.phase) ==> Final(Next(m, e).chip.phase)
    ensures Final(Next(m, e).chip.phase) || Work(Next(m, e).chip) + One(e.Timer?) <= Work(m.chip)
  {
    match e
    case Timer(accepted) =>
      hide Consume, Work, Inv;
      if !Final(m.chip.phase) {
        TimerWorks(m.chip, accepted);
        hide OnTimer;
      }
    case Receive(b) =>
      hide OnTimer, Consume, Inv, Work;
      if !Final(m.chip.phase) {
        ConsumeWorks(m.chip, MakeRoom(m.rx) + [b]);
      }
  }

  /** Once the scan is answered, the phases before it are never seen again and the timers are numbered. */
  lemma {:induction false} TimersAreBounded(m: Master, events: seq<Event>)
    requires Inv(m.chip) && m.chip.scanOk
    ensures var c := Run(m, events).chip;
      && Inv(c) && c.scanOk && (Final(c.phase) || Timers(events) + Work(c) <= Work(m.chip))
    decreases |events|
  {
    if events != [] {
      var before, e := events[..|events| - 1], events[|events| - 1];
      hide Inv, Next, Work;
      TimersAreBounded(m, before);
      StepKeeps(Run(m, before), e);
      StepWorks(Run(m, before), e);
    }
  }

  /**
   After the scan is answered, a verdict is out by the time the timer has expired 3 * target + 3 times,
   whatever is received in between; until then the timer is running.
   */
  lemma VerdictComes(m: Master, events: seq<Event>)
    requires Inv(m.chip) && m.chip.scanOk
    ensures var c := Run(m, events).chip;
      && (Timers(events) >= 3 * m.chip.config.target + 3 ==> Final(c.phase) && |c.verdicts| == 1)
      && !c.phase.Start? && !c.phase.WaitScan?
      && (!Final(c.phase) ==> c.timer)
  {
    TimersAreBounded(m, events);
    WorkIsPositive(m.chip);
    WorkIsPositive(Run(m, events).chip);
    hide Run, Timers, Work;
  }

  /** A verdict is final: nothing that happens later changes it or the books. */
  lemma {:induction false} VerdictIsFinal(m: Master, events: seq<Event>)
    requires Final(m.chip.phase)
    ensures Run(m, events).chip == m.chip.(timer := Run(m, events).chip.timer)
    decreases |events|
  {
    if events != [] {
      VerdictIsFinal(m, events[..|events| - 1]);
      hide Consume;
    }
  }

  // ---------------------------------------------------------------- what is sent

  /** Every poll carries a good CRC; the fault probe never does. */
  lemma ProbeIsCorrupt(cycles: nat)
    ensures CrcOk(PollFrame(cycles)) && !CrcOk(ProbeFrame(cycles))
  {
    var payload: seq<byte> :=
      [0x02, 0x17, 0x9C, 0xB9, 0x00, 0x08, 0x9C, 0x41, 0x00, 0x02, 0x04, (cycles % 256) as byte, 0x03, 0x00, 0x00];
    hide Crc, Lo, Hi;
    AppendedResidue(payload);
    var frame := PollFrame(cycles);
    Flipped(frame[16]);
    assert ProbeFrame(cycles)[16] != frame[16];
    AdjacentBytesDetected(frame, ProbeFrame(cycles), 16);
  }

  lemma Flipped(b: byte)
    ensures b ^ 0x55 != b
  {}

  /** The chip's status polls are the ones the bench builds. */
  lemma PollIsBuilt(cycles: nat)
    ensures PollFrame(cycles) == Protocol.StatusPoll(cycles, Protocol.SLAVE_ID)
  {
    hide Crc, Lo, Hi;
    var payload: seq<byte> :=
      [0x02, 0x17, 0x9C, 0xB9, 0x00, 0x08, 0x9C, 0x41, 0x00, 0x02, 0x04, (cycles % 256) as byte, 0x03, 0x00, 0x00];
    assert payload == Protocol.RequestHead(Protocol.SLAVE_ID, 8, 2, 4) + [Protocol.ToByte(cycles), 0x03, 0x00, 0x00];
  }

  /** Concretely: the recorded poll 0x3E ends in EB CC, and its damaged form in EB 99. */
  lemma ProbeOfRecordedPoll()
    ensures ProbeFrame(0x3E) == ChipFrames.STATUS_POLL[16 := 0x99] && ChipFrames.STATUS_POLL[15..] == [0xEB, 0xCC]
  {
    PollIsBuilt(0x3E);
    ChipFrames.StatusPollIsBuilt();
    hide PollFrame;
  }

  /** No 32-bit counter of the chip ever wraps. */
  lemma CountersFit(m: Master, events: seq<Event>)
    requires PoweredOn(m) && m.chip.config.target < UINT32
    ensures var p, d := Run(m, events).chip.polling, Run(m, events).chip.detours;
      && p.polls < UINT32 && p.replies < UINT32 && p.misses < UINT32 && p.consecutive < UINT32
      && p.maxConsecutive < UINT32 && p.cycles < UINT32
      && d.commandReplies <= 1 && d.faultChecks <= 1 && d.faultRecoveries <= 1 && d.unexpected <= 1
  {
    EmptyTells(m.chip.polling);
    RunKeeps(m, events);
    RunConfig(m, events);
    CountsAre(Outcomes(m, events));
    hide Run, Outcomes, CountOf, Missed, Recovered;
  }
}
