/** The emulated master as the chip implements it: one struct updated in place by its handlers. */
module VirtualMaster {
  import opened Crc16
  import opened MasterChip
  import opened Protocol
  import opened Words

  lemma FullRoom(rx: seq<byte>)
    requires |rx| <= MAX_FRAME
    ensures MakeRoom(rx) == if |rx| == MAX_FRAME then rx[1..] else rx
  {}

  class ChipState {
    const config: Config
    const rx: array<byte>
    var rxLen: nat
    var phase: Phase
    var timer: bool
    var sent: seq<seq<byte>>
    var polling: Polling
    var detours: Detours
    var scanOk: bool
    var verdictPrinted: bool
    var verdicts: seq<bool>

    ghost predicate Valid()
      reads this
    {
      rx.Length == MAX_FRAME && rxLen <= MAX_FRAME
    }

    ghost function Value(): Chip
      reads this
    {
      Chip(config, phase, timer, sent, polling, detours, scanOk, verdictPrinted, verdicts)
    }

    ghost function State(): Master
      requires Valid()
      reads this, rx
    {
      Master(Value(), rx[..rxLen])
    }

    constructor (cycles: nat, mode: nat, threshold: nat, requireRecovery: bool)
      ensures Valid() && fresh(rx)
      ensures State() == Init(cycles, mode, threshold, requireRecovery)
    {
      config := Config(
        if mode == 1 then Restart else if mode == 2 then Opening
        else if mode == 3 then Light else if mode == 4 then Fault else Steady,
        if cycles == 0 then DEFAULT_CYCLES else cycles,
        if threshold == 0 then DEFAULT_MISSED_POLL_THRESHOLD else threshold, requireRecovery);
      rx := new byte[MAX_FRAME](_ => 0);
      rxLen := 0;
      phase, timer, sent := Start, true, [];
      polling := Polling(0, 0, 0, 0, 0, 0, false, false);
      detours := Detours(false, 0, false, 0, 0, 0);
      scanOk, verdictPrinted, verdicts := false, false, [];
    }

    method PutVerdict(ok: bool)
      modifies this`verdictPrinted, this`phase, this`verdicts
      ensures Value() == SetVerdict(old(Value()), ok)
    {
      if verdictPrinted {
        return;
      }
      verdictPrinted := true;
      phase := if ok then Done else Failed;
      verdicts := verdicts + [ok];
    }

    /** `accepted` is the UART's answer; the timer is started behind an accepted frame. */
    method SendFrame(frame: seq<byte>, accepted: bool)
      modifies this`verdictPrinted, this`phase, this`verdicts, this`sent, this`timer
      ensures Value() == Send(old(Value()), frame, accepted)
    {
      if !accepted {
        PutVerdict(false);
        return;
      }
      sent := sent + [frame];
      timer := true;
    }

    method RequestScan(accepted: bool)
      requires Valid()
      modifies this
      ensures Valid() && State() == Master(SendScan(old(Value()), accepted), [])
    {
      rxLen := 0;
      phase := WaitScan;
      SendFrame(SCAN_REQUEST, accepted);
    }

    /** The broadcast of this cycle: a fixed one, or one that shows the door opening. */
    method BroadcastFrame() returns (frame: seq<byte>)
      ensures frame == if config.mode.Opening? then OpeningFrame(polling.cycles) else BROADCAST_CLOSED
    {
      hide AppendCrc;
      frame := BROADCAST_CLOSED;
      if config.mode.Opening? {
        var current := polling.cycles * 12 % UINT32;
        if current > 200 {
          current := 200;
        }
        frame := BROADCAST_OPENING[10 := current as byte];
        if current >= 200 {
          frame := BROADCAST_OPEN;
        } else {
          assert frame[..25] == BROADCAST_OPENING[..25][10 := current as byte];
          frame := AppendCrc(frame[..25]);
        }
      }
    }

    method Broadcast(accepted: bool)
      requires Valid()
      modifies this
      ensures Valid() && rxLen == old(rxLen)
      ensures Value() == SendBroadcast(old(Value()), accepted)
    {
      hide Send, OpeningFrame;
      phase := BeforePoll;
      var frame := BroadcastFrame();
      SendFrame(frame, accepted);
    }

    method CommandLight(accepted: bool)
      requires Valid()
      modifies this
      ensures Valid() && State() == Master(SendLightCommand(old(Value()), accepted), [])
    {
      hide Send;
      rxLen := 0;
      detours := detours.(commandSent := true);
      phase := WaitCommand;
      SendFrame(LIGHT_COMMAND, accepted);
    }

    method ProbeFault(accepted: bool)
      requires Valid()
      modifies this
      ensures Valid() && State() == Master(SendFaultProbe(old(Value()), accepted), [])
    {
      hide ProbeFrame, Send;
      rxLen := 0;
      detours := detours.(faultChecks := detours.faultChecks + 1);
      detours := detours.(faultInjected := true);
      phase := WaitSilence;
      SendFrame(ProbeFrame(polling.cycles), accepted);
    }

    method Poll(accepted: bool)
      requires Valid()
      modifies this
      ensures Valid() && State() == Master(SendStatusPoll(old(Value()), accepted), [])
    {
      hide Send, PollFrame, ProbeFrame, SendLightCommand, SendFaultProbe;
      if config.mode.Light? && !detours.commandSent && polling.cycles == 2 {
        CommandLight(accepted);
        return;
      }
      if config.mode.Fault? && !detours.faultInjected && polling.cycles == 2 {
        ProbeFault(accepted);
        return;
      }
      rxLen := 0;
      polling := polling.(polls := polling.polls + 1);
      phase := WaitPoll;
      SendFrame(PollFrame(polling.cycles), accepted);
    }

    method NotePollReply()
      modifies this`polling
      ensures polling == RecordReply(old(polling))
    {
      polling := polling.(replies := polling.replies + 1);
      polling := polling.(consecutive := 0);
      if polling.sawMiss {
        polling := polling.(recovered := true);
      }
    }

    method NotePollMiss()
      modifies this`polling, this`verdictPrinted, this`phase, this`verdicts
      ensures Value() == JudgeMiss(old(Value()).(polling := RecordMiss(old(polling))))
    {
      polling := polling.(misses := polling.misses + 1);
      polling := polling.(sawMiss := true);
      polling := polling.(consecutive := polling.consecutive + 1);
      if polling.consecutive > polling.maxConsecutive {
        polling := polling.(maxConsecutive := polling.consecutive);
      }
      if polling.consecutive >= config.threshold {
        PutVerdict(false);
      }
    }

    method Finish()
      modifies this`verdictPrinted, this`phase, this`verdicts
      ensures Value() == FinishIfDone(old(Value()))
    {
      if phase.Failed? || phase.Done? {
        return;
      }
      if polling.cycles < config.target {
        return;
      }
      if !scanOk {
        PutVerdict(false);
        return;
      }
      if config.mode.Steady? && polling.misses != 0 {
        PutVerdict(false);
        return;
      }
      if config.mode.Light? && detours.commandReplies == 0 {
        PutVerdict(false);
        return;
      }
      if config.mode.Fault? &&
         (detours.faultChecks == 0 || detours.faultRecoveries == 0 || detours.unexpected != 0) {
        PutVerdict(false);
        return;
      }
      if config.requireRecovery && !polling.recovered {
        PutVerdict(false);
        return;
      }
      PutVerdict(true);
    }

    /** A poll is settled: count the cycle, then give the verdict or pause. */
    method EndCycle()
      modifies this`polling, this`timer, this`verdictPrinted, this`phase, this`verdicts
      ensures Value() == CycleOver(old(Value()))
    {
      hide FinishIfDone;
      polling := polling.(cycles := polling.cycles + 1);
      Finish();
      if !phase.Done? && !phase.Failed? {
        phase := NextCycle;
        timer := true;
      }
    }

    method ProcessResponse(frame: seq<byte>)
      requires |frame| >= 3
      modifies this
      ensures rxLen == old(rxLen)
      ensures Value() == Process(old(Value()), frame)
    {
      hide CycleOver, Crc, SetVerdict, RecordReply;
      var crc := Crc16Modbus(frame);
      if crc != 0 {
        return;
      }
      if phase.WaitSilence? {
        detours := detours.(unexpected := detours.unexpected + 1);
        PutVerdict(false);
        return;
      }
      if frame == SCAN_RESPONSE && phase.WaitScan? {
        scanOk := true;
        phase := NextCycle;
        timer := true;
        return;
      }
      if frame[2] == 16 && phase.WaitPoll? {
        NotePollReply();
        EndCycle();
        return;
      }
      if frame[2] == 4 && phase.WaitCommand? && frame == LIGHT_RESPONSE {
        detours := detours.(commandReplies := detours.commandReplies + 1);
        phase := NextCycle;
        timer := true;
      }
    }

    /** Drops `n` bytes from the front of the receive buffer. */
    method ShiftDown(n: nat)
      requires Valid() && n <= rxLen
      modifies this`rxLen, rx
      ensures Valid() && rx[..rxLen] == old(rx[..rxLen])[n..]
    {
      forall i | 0 <= i < rxLen - n {
        rx[i] := rx[i + n];
      }
      rxLen := rxLen - n;
    }

    /** Appends to the receive buffer, which must have room. */
    method AppendByte(b: byte)
      requires Valid() && rxLen < MAX_FRAME
      modifies this`rxLen, rx
      ensures Valid() && rx[..rxLen] == old(rx[..rxLen]) + [b]
    {
      rx[rxLen] := b;
      rxLen := rxLen + 1;
    }

    method StoreByte(b: byte)
      requires Valid()
      modifies this`rxLen, rx
      ensures Valid() && rx[..rxLen] == MakeRoom(old(rx[..rxLen])) + [b]
    {
      FullRoom(rx[..rxLen]);
      if rxLen >= MAX_FRAME {
        ShiftDown(1);
      }
      AppendByte(b);
    }

    method DrainBuffer()
      requires Valid()
      modifies this, rx
      ensures Valid() && State() == Consume(old(Value()), old(rx[..rxLen]))
    {
      hide Process;
      ghost var goal := Consume(Value(), rx[..rxLen]);
      while rxLen > 0
        invariant Valid()
        invariant Consume(Value(), rx[..rxLen]) == goal
        decreases rxLen
      {
        match ResponseNeed(rx[..rxLen])
        case More => return;
        case Bad => ShiftDown(1);
        case Exactly(expected) =>
          if rxLen < expected {
            return;
          }
          assert rx[..rxLen][..expected] == rx[..expected];
          ProcessResponse(rx[..expected]);
          if rxLen == expected {
            rxLen := 0;
            return;
          }
          ShiftDown(expected);
      }
    }

    method OnUartRxData(b: byte)
      requires Valid()
      modifies this, rx
      ensures Valid() && State() == OnByte(old(State()), b)
    {
      hide Consume;
      if phase.Done? || phase.Failed? {
        return;
      }
      StoreByte(b);
      DrainBuffer();
    }

    method OnTimerExpiry(accepted: bool)
      requires Valid()
      modifies this, rx
      ensures Valid() && State() == Expire(old(State()), accepted)
    {
      hide SendScan, SendStatusPoll, SendBroadcast, CycleOver, FinishIfDone, SetVerdict, JudgeMiss;
      timer := false;
      match phase
      case Start => RequestScan(accepted);
      case WaitScan =>
        phase := Start;
        timer := true;
      case BeforePoll => Poll(accepted);
      case WaitSilence =>
        detours := detours.(faultRecoveries := detours.faultRecoveries + 1);
        Poll(accepted);
      case WaitCommand => PutVerdict(false);
      case WaitPoll =>
        NotePollMiss();
        if !phase.Failed? {
          EndCycle();
        }
      case NextCycle =>
        Finish();
        if !phase.Done? && !phase.Failed? {
          Broadcast(accepted);
        }
      case Done =>
      case Failed =>
    }
  }
}
