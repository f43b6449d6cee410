/**
 The emulated bus master as a value: one function per handler of the chip. Latency statistics, traces and
 pin writes are left out; a verdict is recorded in `verdicts` where the chip prints it.
 */
module MasterChip {
  import opened Crc16
  import opened Framing
  import opened Protocol
  import opened Words

  const DEFAULT_CYCLES: nat := 200
  const DEFAULT_MISSED_POLL_THRESHOLD: nat := 5

  const SCAN_REQUEST: seq<byte> :=
    [0x02, 0x17, 0x9C, 0xB9, 0x00, 0x05, 0x9C, 0x41, 0x00, 0x03, 0x06, 0x00, 0x02, 0x00, 0x00, 0x01, 0x02, 0xF8, 0x35]
  const SCAN_RESPONSE: seq<byte> :=
    [0x02, 0x17, 0x0A, 0x00, 0x00, 0x02, 0x05, 0x04, 0x30, 0x10, 0xFF, 0xA8, 0x45, 0x0E, 0xDF]
  const BROADCAST_CLOSED: seq<byte> :=
    [0x00, 0x10, 0x9D, 0x31, 0x00, 0x09, 0x12, 0x16, 0x00, 0x00, 0x00, 0x40, 0x60, 0x00, 0x00, 0x00, 0x00, 0x00,
     0x00, 0x00, 0x14, 0x00, 0x01, 0x00, 0x00, 0x41, 0x42]
  const BROADCAST_OPENING: seq<byte> :=
    [0x00, 0x10, 0x9D, 0x31, 0x00, 0x09, 0x12, 0x16, 0x00, 0xC8, 0x00, 0x01, 0x60, 0x00, 0x00, 0x00, 0x00, 0x00,
     0x00, 0x00, 0x14, 0x00, 0x01, 0x00, 0x00, 0x57, 0x95]
  const BROADCAST_OPEN: seq<byte> :=
    [0x00, 0x10, 0x9D, 0x31, 0x00, 0x09, 0x12, 0x16, 0x00, 0xC8, 0xC8, 0x20, 0x60, 0x00, 0x00, 0x00, 0x00, 0x00,
     0x00, 0x00, 0x14, 0x00, 0x01, 0x00, 0x00, 0xBE, 0xE2]
  const LIGHT_COMMAND: seq<byte> :=
    [0x02, 0x17, 0x9C, 0xB9, 0x00, 0x02, 0x9C, 0x41, 0x00, 0x02, 0x04, 0x02, 0x04, 0x17, 0x00, 0x79, 0x8D]
  const LIGHT_RESPONSE: seq<byte> := [0x02, 0x17, 0x04, 0x02, 0x00, 0x04, 0xFD, 0x08, 0xDE]

  datatype Mode = Steady | Restart | Opening | Light | Fault

  datatype Phase =
    | Start | WaitScan | BeforePoll | WaitPoll | WaitCommand | WaitSilence | NextCycle | Done | Failed

  datatype Config = Config(mode: Mode, target: nat, threshold: nat, requireRecovery: bool)

  /** Poll bookkeeping. */
  datatype Polling = Polling(
    polls: nat, replies: nat, misses: nat, consecutive: nat, maxConsecutive: nat, cycles: nat,
    sawMiss: bool, recovered: bool)

  /** Bookkeeping of the light command and of the fault probe. */
  datatype Detours = Detours(
    commandSent: bool, commandReplies: nat,
    faultInjected: bool, faultChecks: nat, faultRecoveries: nat, unexpected: nat)

  datatype Chip = Chip(
    config: Config, phase: Phase, timer: bool, sent: seq<seq<byte>>, polling: Polling, detours: Detours,
    scanOk: bool, verdictPrinted: bool, verdicts: seq<bool>)

  /** The chip with its receive buffer. */
  datatype Master = Master(chip: Chip, rx: seq<byte>)

  predicate Final(p: Phase) { p.Done? || p.Failed? }

  /** Power-on, from the chip's attributes: zero means the default, an unknown mode means steady. */
  function Init(cycles: nat, mode: nat, threshold: nat, requireRecovery: bool): Master {
    var m := if mode == 1 then Restart else if mode == 2 then Opening
             else if mode == 3 then Light else if mode == 4 then Fault else Steady;
    var config := Config(m, if cycles == 0 then DEFAULT_CYCLES else cycles,
                         if threshold == 0 then DEFAULT_MISSED_POLL_THRESHOLD else threshold, requireRecovery);
    Master(Chip(config, Start, true, [], Polling(0, 0, 0, 0, 0, 0, false, false),
                Detours(false, 0, false, 0, 0, 0), false, false, []), [])
  }

  function SetVerdict(c: Chip, ok: bool): Chip {
    if c.verdictPrinted then c
    else c.(verdictPrinted := true, phase := if ok then Done else Failed, verdicts := c.verdicts + [ok])
  }

  // ---------------------------------------------------------------- sending

  /** A frame goes out and the timer starts, unless the UART refuses it. */
  function Send(c: Chip, frame: seq<byte>, accepted: bool): Chip {
    if accepted then c.(sent := c.sent + [frame], timer := true) else SetVerdict(c, false)
  }

  function SendScan(c: Chip, accepted: bool): Chip {
    Send(c.(phase := WaitScan), SCAN_REQUEST, accepted)
  }

  /** The opening broadcast shows a position that grows by 12 per cycle (in 32 bits) up to 200. */
  function OpeningFrame(cycles: nat): seq<byte> {
    var current := cycles * 12 % UINT32;
    if current >= 200 then BROADCAST_OPEN else AppendCrc(BROADCAST_OPENING[..25][10 := current as byte])
  }

  function SendBroadcast(c: Chip, accepted: bool): Chip {
    Send(c.(phase := BeforePoll), if c.config.mode.Opening? then OpeningFrame(c.polling.cycles) else BROADCAST_CLOSED,
         accepted)
  }

  function SendLightCommand(c: Chip, accepted: bool): Chip {
    Send(c.(detours := c.detours.(commandSent := true), phase := WaitCommand), LIGHT_COMMAND, accepted)
  }

  function PollFrame(cycles: nat): seq<byte> {
    AppendCrc([0x02, 0x17, 0x9C, 0xB9, 0x00, 0x08, 0x9C, 0x41, 0x00, 0x02, 0x04,
               (cycles % 256) as byte, 0x03, 0x00, 0x00])
  }

  /** A status poll whose last CRC byte is damaged. */
  function ProbeFrame(cycles: nat): seq<byte> {
    var frame := PollFrame(cycles);
    frame[|frame| - 1 := frame[|frame| - 1] ^ 0x55]
  }

  function SendFaultProbe(c: Chip, accepted: bool): Chip {
    Send(c.(detours := c.detours.(faultChecks := c.detours.faultChecks + 1, faultInjected := true),
            phase := WaitSilence),
         ProbeFrame(c.polling.cycles), accepted)
  }

  function SendStatusPoll(c: Chip, accepted: bool): Chip {
    if c.config.mode.Light? && !c.detours.commandSent && c.polling.cycles == 2 then SendLightCommand(c, accepted)
    else if c.config.mode.Fault? && !c.detours.faultInjected && c.polling.cycles == 2 then SendFaultProbe(c, accepted)
    else Send(c.(polling := c.polling.(polls := c.polling.polls + 1), phase := WaitPoll),
              PollFrame(c.polling.cycles), accepted)
  }

  // ---------------------------------------------------------------- bookkeeping

  function RecordReply(p: Polling): Polling {
    p.(replies := p.replies + 1, consecutive := 0, recovered := p.recovered || p.sawMiss)
  }

  function RecordMiss(p: Polling): Polling {
    var n := p.consecutive + 1;
    p.(misses := p.misses + 1, sawMiss := true, consecutive := n,
       maxConsecutive := if n > p.maxConsecutive then n else p.maxConsecutive)
  }

  function JudgeMiss(c: Chip): Chip {
    if c.polling.consecutive >= c.config.threshold then SetVerdict(c, false) else c
  }

  /** The verdict a finished run deserves. */
  predicate Deserved(c: Chip) {
    && c.scanOk
    && !(c.config.mode.Steady? && c.polling.misses != 0)
    && !(c.config.mode.Light? && c.detours.commandReplies == 0)
    && !(c.config.mode.Fault?
         && (c.detours.faultChecks == 0 || c.detours.faultRecoveries == 0 || c.detours.unexpected != 0))
    && !(c.config.requireRecovery && !c.polling.recovered)
  }

  function FinishIfDone(c: Chip): Chip {
    if Final(c.phase) || c.polling.cycles < c.config.target then c else SetVerdict(c, Deserved(c))
  }

  /** After a poll is settled: verdict, or pause before the next cycle. */
  function CycleOver(c: Chip): Chip {
    var f := FinishIfDone(c.(polling := c.polling.(cycles := c.polling.cycles + 1)));
    if Final(f.phase) then f else f.(phase := NextCycle, timer := true)
  }

  // ---------------------------------------------------------------- the handlers

  /** The timer expires; `accepted` is the UART's answer if a frame is sent. */
  function OnTimer(c: Chip, accepted: bool): Chip {
    var x := c.(timer := false);
    match x.phase
    case Start => SendScan(x, accepted)
    case WaitScan => x.(phase := Start, timer := true)
    case BeforePoll => SendStatusPoll(x, accepted)
    case WaitSilence =>
      SendStatusPoll(x.(detours := x.detours.(faultRecoveries := x.detours.faultRecoveries + 1)), accepted)
    case WaitCommand => SetVerdict(x, false)
    case WaitPoll =>
      var m := JudgeMiss(x.(polling := RecordMiss(x.polling)));
      if m.phase.Failed? then m else CycleOver(m)
    case NextCycle =>
      var f := FinishIfDone(x);
      if Final(f.phase) then f else SendBroadcast(f, accepted)
    case Done => x
    case Failed => x
  }

  /** Every frame but the broadcast empties the receive buffer as it goes out. */
  function Expire(m: Master, accepted: bool): Master {
    Master(OnTimer(m.chip, accepted),
           if m.chip.phase.Start? || m.chip.phase.BeforePoll? || m.chip.phase.WaitSilence? then [] else m.rx)
  }

  function ResponseNeed(buffer: seq<byte>): Need {
    if |buffer| < 3 then More
    else if buffer[0] != SLAVE_ID || buffer[1] != 0x17 then Bad
    else
      var expected := (buffer[2] as nat + 5) % 256;
      if expected < 5 || expected > MAX_FRAME then Bad else Exactly(expected)
  }

  /** A complete frame was received. */
  function Process(c: Chip, frame: seq<byte>): Chip
    requires |frame| >= 3
  {
    if Crc(frame) != 0 then c
    else if c.phase.WaitSilence? then
      SetVerdict(c.(detours := c.detours.(unexpected := c.detours.unexpected + 1)), false)
    else if frame == SCAN_RESPONSE && c.phase.WaitScan? then c.(scanOk := true, phase := NextCycle, timer := true)
    else if frame[2] == 16 && c.phase.WaitPoll? then CycleOver(c.(polling := RecordReply(c.polling)))
    else if frame == LIGHT_RESPONSE && c.phase.WaitCommand? then
      c.(detours := c.detours.(commandReplies := c.detours.commandReplies + 1), phase := NextCycle, timer := true)
    else c
  }

  /** The inner receive loop over the buffered bytes. */
  function Consume(c: Chip, buffer: seq<byte>): Master
    decreases |buffer|
  {
    match ResponseNeed(buffer)
    case More => Master(c, buffer)
    case Bad => Consume(c, buffer[1..])
    case Exactly(n) =>
      if |buffer| < n then Master(c, buffer)
      else if |buffer| == n then Master(Process(c, buffer), [])
      else Consume(Process(c, buffer[..n]), buffer[n..])
  }

  /** A full buffer loses its oldest byte. */
  function MakeRoom(rx: seq<byte>): seq<byte> {
    if |rx| >= MAX_FRAME then rx[1..MAX_FRAME] else rx
  }

  /** A byte arrives; once there is a verdict it is ignored. */
  function OnByte(m: Master, b: byte): Master {
    if Final(m.chip.phase) then m else Consume(m.chip, MakeRoom(m.rx) + [b])
  }
}
