/**
 What the emulated master puts on the bus over a whole run: some scan requests, and then cycle by cycle a broadcast,
 the one detour its mode asks for in the third cycle, and a poll that carries the number of the cycle.
 */
module MasterScript {
  import opened Crc16
  import opened Framing
  import opened MasterChip
  import opened MasterRuns

  /** The third cycle is the one with a detour. */
  const DETOUR: nat := 2

  function BroadcastOf(config: Config, cycle: nat): seq<byte> {
    if config.mode.Opening? then OpeningFrame(cycle) else BROADCAST_CLOSED
  }

  function DetourOf(config: Config, cycle: nat): seq<seq<byte>> {
    if cycle != DETOUR then []
    else if config.mode.Light? then [LIGHT_COMMAND, BroadcastOf(config, cycle)]
    else if config.mode.Fault? then [ProbeFrame(cycle)]
    else []
  }

  function CycleFrames(config: Config, cycle: nat): seq<seq<byte>> {
    [BroadcastOf(config, cycle)] + DetourOf(config, cycle) + [PollFrame(cycle)]
  }

  /** The frames of the first `n` cycles. */
  function Script(config: Config, n: nat): seq<seq<byte>> {
    if n == 0 then [] else Script(config, n - 1) + CycleFrames(config, n - 1)
  }

  function Scans(k: nat): seq<seq<byte>> {
    if k == 0 then [] else Scans(k - 1) + [SCAN_REQUEST]
  }

  /** The light command of this cycle has been answered. */
  predicate Lit(c: Chip) { c.detours.commandSent && c.polling.cycles == DETOUR }

  /** What of the current cycle has been sent, by phase. */
  function Part(c: Chip): seq<seq<byte>> {
    var b := BroadcastOf(c.config, c.polling.cycles);
    var before := if Lit(c) then [b, LIGHT_COMMAND] else [];
    match c.phase
    case NextCycle => before
    case BeforePoll => before + [b]
    case WaitCommand => [b, LIGHT_COMMAND]
    case WaitSilence => [b, ProbeFrame(c.polling.cycles)]
    case WaitPoll => CycleFrames(c.config, c.polling.cycles)
    case _ => []
  }

  /** The detour is made in its cycle, and only there. */
  predicate DetourKept(c: Chip) {
    var d, cycles := c.detours, c.polling.cycles;
    && (d.commandSent ==> c.config.mode.Light? && cycles >= DETOUR)
    && (d.faultInjected ==> c.config.mode.Fault? && cycles >= DETOUR)
    && (cycles > DETOUR || (cycles == DETOUR && c.phase.WaitPoll?) ==>
          (c.config.mode.Light? ==> d.commandSent) && (c.config.mode.Fault? ==> d.faultInjected))
    && (c.phase.WaitCommand? ==> cycles == DETOUR && d.commandSent)
    && (c.phase.WaitSilence? ==> cycles == DETOUR && d.faultInjected)
    && (cycles == DETOUR && (c.phase.BeforePoll? || c.phase.NextCycle?) ==> !d.faultInjected)
    && (c.phase.Start? || c.phase.WaitScan? ==> cycles == 0)
  }

  /** The frames sent so far, `k` of them scan requests. */
  ghost predicate OnScript(c: Chip, k: nat) {
    if Final(c.phase) then c.sent <= Scans(k) + Script(c.config, c.polling.cycles + 1)
    else DetourKept(c) && c.sent == Scans(k) + Script(c.config, c.polling.cycles) + Part(c)
  }

  lemma PartIsBegun(c: Chip)
    requires DetourKept(c)
    ensures Part(c) <= CycleFrames(c.config, c.polling.cycles)
  {
    hide PollFrame, ProbeFrame, BroadcastOf;
  }

  lemma Begun(scans: seq<seq<byte>>, script: seq<seq<byte>>, part: seq<seq<byte>>, cycle: seq<seq<byte>>)
    requires part <= cycle
    ensures scans + script + part <= scans + (script + cycle)
  {}

  /** A verdict leaves what was sent as the beginning of the script. */
  lemma VerdictOnScript(c: Chip, k: nat, d: Chip)
    requires OnScript(c, k) && !Final(c.phase)
    requires Final(d.phase) && d.sent == c.sent && d.config == c.config && d.polling.cycles == c.polling.cycles
    ensures OnScript(d, k)
  {
    PartIsBegun(c);
    Begun(Scans(k), Script(c.config, c.polling.cycles), Part(c), CycleFrames(c.config, c.polling.cycles));
    hide Part, CycleFrames, Scans, DetourKept;
  }

  /** The poll of a cycle is settled: the script has one more cycle. */
  lemma CycleOnScript(c: Chip, k: nat, d: Chip)
    requires OnScript(c, k) && c.phase.WaitPoll?
    requires d.sent == c.sent && d.config == c.config && d.polling.cycles == c.polling.cycles + 1
    requires d.detours == c.detours && (Final(d.phase) || d.phase.NextCycle?)
    ensures OnScript(d, k)
  {
    var script, cycle := Script(c.config, c.polling.cycles), CycleFrames(c.config, c.polling.cycles);
    Joined(Scans(k), script, cycle);
    if Final(d.phase) {
      Begun(Scans(k), script + cycle, [], CycleFrames(c.config, d.polling.cycles));
      assert Scans(k) + (script + cycle) + [] == Scans(k) + (script + cycle);
    } else {
      assert Scans(k) + (script + cycle) + [] == Scans(k) + (script + cycle);
    }
    hide CycleFrames, Scans;
  }

  lemma Joined(a: seq<seq<byte>>, b: seq<seq<byte>>, c: seq<seq<byte>>)
    ensures a + b + c == a + (b + c)
  {}

  /** Sending one more frame of the cycle. */
  lemma SentOnScript(c: Chip, k: nat, d: Chip, frame: seq<byte>)
    requires OnScript(c, k) && !Final(c.phase) && !Final(d.phase) && DetourKept(d)
    requires d.sent == c.sent + [frame] && d.config == c.config && d.polling.cycles == c.polling.cycles
    requires Part(d) == Part(c) + [frame]
    ensures OnScript(d, k)
  {
    hide Part, DetourKept, Scans, Script;
  }

  /** Nothing sent, and the same part of the cycle. */
  lemma StillOnScript(c: Chip, k: nat, d: Chip)
    requires OnScript(c, k) && !Final(c.phase) && !Final(d.phase) && DetourKept(d)
    requires d.sent == c.sent && d.config == c.config && d.polling.cycles == c.polling.cycles && Part(d) == Part(c)
    ensures OnScript(d, k)
  {
    hide Part, DetourKept, Scans, Script;
  }

  // ---------------------------------------------------------------- every event

  lemma ScanOnScript(c: Chip, k: nat, accepted: bool) returns (k': nat)
    requires OnScript(c, k) && c.phase.Start? && VerdictOk(c)
    ensures OnScript(OnTimer(c, accepted), k')
  {
    k' := if accepted then k + 1 else k;
    if accepted {
      assert Scans(k) + [] + [] == Scans(k) && Scans(k + 1) + [] + [] == Scans(k + 1);
    } else {
      VerdictOnScript(c, k, OnTimer(c, accepted));
    }
  }

  lemma PollOnScript(c: Chip, k: nat, accepted: bool)
    requires OnScript(c, k) && VerdictOk(c) && (c.phase.BeforePoll? || c.phase.WaitSilence?)
    ensures OnScript(OnTimer(c, accepted), k)
  {
    hide PollFrame, ProbeFrame, BroadcastOf, Script, Scans;
    var d := OnTimer(c, accepted);
    if !accepted {
      VerdictOnScript(c, k, d);
    } else {
      hide OnScript;
      SentOnScript(c, k, d, d.sent[|d.sent| - 1]);
    }
  }

  lemma MissOnScript(c: Chip, k: nat, accepted: bool)
    requires OnScript(c, k) && VerdictOk(c) && c.phase.WaitPoll?
    ensures OnScript(OnTimer(c, accepted), k)
  {
    var d := OnTimer(c, accepted);
    hide Script, Scans, CycleFrames, DetourKept, OnScript, Part;
    if d.polling.cycles == c.polling.cycles {
      VerdictOnScript(c, k, d);
    } else {
      CycleOnScript(c, k, d);
    }
  }

  lemma BroadcastOnScript(c: Chip, k: nat, accepted: bool)
    requires OnScript(c, k) && VerdictOk(c) && c.phase.NextCycle?
    ensures OnScript(OnTimer(c, accepted), k)
  {
    var d := OnTimer(c, accepted);
    hide Script, Scans, OpeningFrame;
    if Final(d.phase) {
      VerdictOnScript(c, k, d);
    } else {
      hide OnScript;
      SentOnScript(c, k, d, d.sent[|d.sent| - 1]);
    }
  }

  lemma TimerOnScript(c: Chip, k: nat, accepted: bool) returns (k': nat)
    requires OnScript(c, k) && VerdictOk(c)
    ensures OnScript(OnTimer(c, accepted), k')
  {
    k' := k;
    var d := OnTimer(c, accepted);
    match c.phase
    case Start => k' := ScanOnScript(c, k, accepted);
    case BeforePoll => PollOnScript(c, k, accepted);
    case WaitSilence => PollOnScript(c, k, accepted);
    case WaitPoll => MissOnScript(c, k, accepted);
    case NextCycle => BroadcastOnScript(c, k, accepted);
    case WaitCommand =>
      VerdictOnScript(c, k, d);
    case WaitScan =>
      hide Script, Scans;
    case _ =>
      hide Script, Scans;
  }

  lemma ProcessOnScript(c: Chip, k: nat, frame: seq<byte>)
    requires OnScript(c, k) && VerdictOk(c) && |frame| >= 3
    ensures OnScript(Process(c, frame), k)
  {
    var d := Process(c, frame);
    hide Crc, Script, Scans, PollFrame, ProbeFrame, BroadcastOf, Deserved, RecordReply;
    if d == c {
    } else if c.phase.WaitPoll? {
      hide OnScript, Part, DetourKept;
      ReplyOnScript(c, k, frame);
    } else if Final(d.phase) {
      hide OnScript, Part, DetourKept;
      VerdictOnScript(c, k, d);
    } else {
      hide OnScript;
      StillOnScript(c, k, d);
    }
  }

  lemma ReplyOnScript(c: Chip, k: nat, frame: seq<byte>)
    requires OnScript(c, k) && VerdictOk(c) && |frame| >= 3 && c.phase.WaitPoll? && Process(c, frame) != c
    ensures OnScript(Process(c, frame), k)
  {
    hide Crc, Script, Scans, Part, DetourKept, OnScript, Deserved;
    CycleOnScript(c, k, Process(c, frame));
  }

  lemma {:induction false} ConsumeOnScript(c: Chip, k: nat, buffer: seq<byte>)
    requires OnScript(c, k) && Inv(c)
    ensures OnScript(Consume(c, buffer).chip, k)
    decreases |buffer|
  {
    assert VerdictOk(c);
    hide Process, OnScript, Inv;
    match ResponseNeed(buffer)
    case More =>
    case Bad => ConsumeOnScript(c, k, buffer[1..]);
    case Exactly(n) =>
      if |buffer| == n {
        ProcessOnScript(c, k, buffer);
      } else if |buffer| > n {
        ProcessOnScript(c, k, buffer[..n]);
        ProcessKeeps(c, buffer[..n]);
        ConsumeOnScript(Process(c, buffer[..n]), k, buffer[n..]);
      }
  }

  lemma PowerOnScript(m: Master)
    requires PoweredOn(m)
    ensures OnScript(m.chip, 0) && Inv(m.chip)
  {
    assert Scans(0) + Script(m.chip.config, 0) + [] == [];
  }

  lemma StepOnScript(m: Master, e: Event, k: nat) returns (k': nat)
    requires OnScript(m.chip, k) && Inv(m.chip)
    ensures OnScript(Next(m, e).chip, k')
  {
    assert VerdictOk(m.chip);
    hide OnScript, Inv, OnTimer, Consume;
    k' := k;
    match e
    case Timer(accepted) => k' := TimerOnScript(m.chip, k, accepted);
    case Receive(b) => ConsumeOnScript(m.chip, k, MakeRoom(m.rx) + [b]);
  }

  lemma {:induction false} RunOnScript(m: Master, events: seq<Event>) returns (k: nat)
    requires PoweredOn(m)
    ensures OnScript(Run(m, events).chip, k) && Inv(Run(m, events).chip)
    decreases |events|
  {
    if events == [] {
      PowerOnScript(m);
      k := 0;
    } else {
      var before, e := events[..|events| - 1], events[|events| - 1];
      hide OnScript, Inv, Next, PoweredOn;
      k := RunOnScript(m, before);
      k := StepOnScript(Run(m, before), e, k);
      StepKeeps(Run(m, before), e);
    }
  }

  /**
   In every run and mode: the frames sent are some scan requests and a beginning of the script. While there is no
   verdict they are the frames of all cycles completed and the part of the current one that belongs to the phase.
   */
  lemma SentIsScript(m: Master, events: seq<Event>) returns (k: nat)
    requires PoweredOn(m)
    ensures var c := Run(m, events).chip;
      && c.sent <= Scans(k) + Script(m.chip.config, c.polling.cycles + 1)
      && (!Final(c.phase) ==> c.sent == Scans(k) + Script(m.chip.config, c.polling.cycles) + Part(c))
  {
    hide Run, Inv, Script, OnScript, Part, Scans, PoweredOn;
    k := RunOnScript(m, events);
    RunConfig(m, events);
    ScriptedBegins(Run(m, events).chip, k);
  }

  lemma ScriptedBegins(c: Chip, k: nat)
    requires OnScript(c, k)
    ensures c.sent <= Scans(k) + Script(c.config, c.polling.cycles + 1)
    ensures !Final(c.phase) ==> c.sent == Scans(k) + Script(c.config, c.polling.cycles) + Part(c)
  {
    if !Final(c.phase) {
      WholeScript(c);
      PartIsBegun(c);
      Begun(Scans(k), Script(c.config, c.polling.cycles), Part(c), CycleFrames(c.config, c.polling.cycles));
    }
    hide Part, CycleFrames, Scans, DetourKept, Script;
  }

  lemma WholeScript(c: Chip)
    ensures Script(c.config, c.polling.cycles + 1)
         == Script(c.config, c.polling.cycles) + CycleFrames(c.config, c.polling.cycles)
  {}
}
