/** What every run of the emulated master keeps: accounting, verdicts, outcome history, termination. */
module MasterRuns {
  import opened ChipFrames
  import opened ChipReceiver
  import opened Crc16
  import opened Framing
  import opened MasterChip

  /** What can happen to the chip; a timer expiry is allowed at any time. */
  datatype Event = Timer(accepted: bool) | Receive(b: byte)

  function Next(m: Master, e: Event): Master {
    match e
    case Timer(accepted) => Expire(m, accepted)
    case Receive(b) => OnByte(m, b)
  }

  // ---------------------------------------------------------------- accounting

  function One(b: bool): nat { if b then 1 else 0 }

  /** One verdict at most, printed exactly in the final phases. */
  predicate VerdictOk(c: Chip) {
    && c.verdictPrinted == Final(c.phase)
    && (c.phase.Done? ==> c.verdicts == [true])
    && (c.phase.Failed? ==> c.verdicts == [false])
    && (!Final(c.phase) ==> c.verdicts == [])
  }

  predicate CountsOk(c: Chip) {
    var p := c.polling;
    && p.cycles == p.replies + p.misses
    && p.polls == p.replies + p.misses + One(c.phase.WaitPoll?)
    && p.consecutive <= p.maxConsecutive < c.config.threshold
    && p.maxConsecutive <= p.misses
  }

  predicate DetoursOk(c: Chip) {
    var d := c.detours;
    && d.faultChecks == One(d.faultInjected) && (d.faultInjected ==> c.config.mode.Fault?)
    && d.faultChecks == d.faultRecoveries + One(c.phase.WaitSilence?)
    && One(d.commandSent) == d.commandReplies + One(c.phase.WaitCommand?) && (d.commandSent ==> c.config.mode.Light?)
    && d.unexpected == 0
  }

  /** While no verdict is out. */
  predicate Running(c: Chip) {
    && !Final(c.phase) && c.timer
    && CountsOk(c) && DetoursOk(c)
    && c.polling.cycles < c.config.target
    && c.scanOk == !(c.phase.Start? || c.phase.WaitScan?)
    && (!c.scanOk ==> c.polling.polls == 0 && !c.detours.commandSent && !c.detours.faultInjected)
  }

  /** What an OK verdict is worth. */
  predicate Sound(c: Chip) {
    var p, d := c.polling, c.detours;
    && c.scanOk && p.cycles == c.config.target == p.replies + p.misses == p.polls
    && p.consecutive <= p.maxConsecutive < c.config.threshold
    && (c.config.mode.Steady? ==> p.misses == 0)
    && (c.config.mode.Light? ==> d.commandReplies == 1)
    && (c.config.mode.Fault? ==> d.faultChecks == 1 && d.faultRecoveries == 1 && d.unexpected == 0)
    && (c.config.requireRecovery ==> p.recovered)
  }

  /** What holds after any verdict. */
  predicate Bounded(c: Chip) {
    var p, d := c.polling, c.detours;
    && p.replies + p.misses <= c.config.target && p.polls <= c.config.target
    && p.cycles <= c.config.target
    && d.faultRecoveries <= d.faultChecks <= 1 && d.commandReplies <= 1 && d.unexpected <= 1
  }

  /** A run that settled all its polls fails only for a reason. */
  predicate Deservedly(c: Chip) {
    c.polling.replies + c.polling.misses == c.config.target ==>
      !Deserved(c) || c.polling.consecutive >= c.config.threshold
  }

  predicate ConfigOk(c: Config) { 0 < c.target && 0 < c.threshold }

  predicate Inv(c: Chip) {
    && ConfigOk(c.config) && VerdictOk(c)
    && (!Final(c.phase) ==> Running(c))
    && (c.phase.Done? ==> Sound(c))
    && (Final(c.phase) ==> Bounded(c))
    && (c.phase.Failed? ==> Deservedly(c))
  }

  /** A poll has just been settled, the cycle not yet counted. */
  predicate Settled(c: Chip) {
    var p := c.polling;
    && ConfigOk(c.config) && VerdictOk(c) && c.phase.WaitPoll? && c.scanOk && DetoursOk(c)
    && p.polls == p.replies + p.misses == p.cycles + 1 <= c.config.target
    && p.consecutive <= p.maxConsecutive < c.config.threshold && p.maxConsecutive <= p.misses
  }

  lemma CycleKeeps(c: Chip)
    requires Settled(c)
    ensures Inv(CycleOver(c))
    ensures !Final(CycleOver(c).phase) ==> CycleOver(c).phase.NextCycle?
  {}

  lemma SendKeeps(c: Chip, frame: seq<byte>, accepted: bool)
    requires ConfigOk(c.config) && VerdictOk(c) && Bounded(c)
    requires Running(c.(timer := true))
    ensures Inv(Send(c, frame, accepted))
  {}

  lemma StatusPollKeeps(c: Chip, accepted: bool)
    requires ConfigOk(c.config) && VerdictOk(c) && c.scanOk && c.phase.BeforePoll?
    requires CountsOk(c) && DetoursOk(c) && c.polling.cycles < c.config.target
    ensures Inv(SendStatusPoll(c, accepted))
  {
    hide PollFrame, ProbeFrame;
  }

  lemma TimerKeeps(c: Chip, accepted: bool)
    requires Inv(c)
    ensures Inv(OnTimer(c, accepted))
  {
    hide PollFrame, ProbeFrame, OpeningFrame;
    var x := c.(timer := false);
    match c.phase
    case BeforePoll => StatusPollKeeps(x, accepted);
    case WaitSilence => SilenceKeeps(x, accepted);
    case WaitPoll => MissKeeps(x);
    case _ =>
  }

  lemma SilenceKeeps(x: Chip, accepted: bool)
    requires Inv(x.(timer := true)) && !x.timer && x.phase.WaitSilence?
    ensures Inv(OnTimer(x, accepted))
  {
    hide PollFrame, ProbeFrame;
  }

  lemma MissKeeps(x: Chip)
    requires Inv(x.(timer := true)) && !x.timer && x.phase.WaitPoll?
    ensures var m := JudgeMiss(x.(polling := RecordMiss(x.polling)));
      Inv(if m.phase.Failed? then m else CycleOver(m))
  {
    var m := JudgeMiss(x.(polling := RecordMiss(x.polling)));
    if !m.phase.Failed? {
      CycleKeeps(m);
    }
  }

  lemma ReplyKeeps(c: Chip)
    requires Inv(c) && c.phase.WaitPoll?
    ensures Inv(CycleOver(c.(polling := RecordReply(c.polling))))
  {
    CycleKeeps(c.(polling := RecordReply(c.polling)));
  }

  lemma ProcessKeeps(c: Chip, frame: seq<byte>)
    requires Inv(c) && |frame| >= 3
    ensures Inv(Process(c, frame))
  {
    hide Crc;
    if c.phase.WaitPoll? {
      ReplyKeeps(c);
      hide CycleOver, Inv;
    } else {
      hide CycleOver;
    }
  }

  lemma {:induction false} ConsumeKeeps(c: Chip, buffer: seq<byte>)
    requires Inv(c)
    ensures Inv(Consume(c, buffer).chip)
    decreases |buffer|
  {
    hide Inv, Process;
    match ResponseNeed(buffer)
    case More =>
    case Bad => ConsumeKeeps(c, buffer[1..]);
    case Exactly(n) =>
      if |buffer| >= n {
        ProcessKeeps(c, buffer[..n]);
        if |buffer| > n {
          ConsumeKeeps(Process(c, buffer[..n]), buffer[n..]);
        } else {
          assert buffer[..n] == buffer;
        }
      }
  }

  /** Every event keeps the books. */
  lemma StepKeeps(m: Master, e: Event)
    requires Inv(m.chip)
    ensures Inv(Next(m, e).chip)
  {
    match e
    case Timer(accepted) => TimerKeeps(m.chip, accepted);
    case Receive(b) => ConsumeKeeps(m.chip, MakeRoom(m.rx) + [b]);
  }

  // ---------------------------------------------------------------- outcome history

  function Run(m: Master, events: seq<Event>): Master
    decreases |events|
  {
    if events == [] then m else Next(Run(m, events[..|events| - 1]), events[|events| - 1])
  }

  /** A status response that passes the CRC check. */
  predicate Answers(frame: seq<byte>) {
    |frame| >= 3 && Crc(frame) == 0 && frame[2] == 16
  }

  /**
   The outcome an event settles, if any. While a poll is awaited, the byte that completes a status response is
   its reply (true), and an expiring timer makes it a miss (false); nothing else settles a poll.
   */
  function Outcome(m: Master, e: Event): seq<bool> {
    if !m.chip.phase.WaitPoll? then []
    else
      match e
      case Timer(_) => [false]
      case Receive(b) =>
        var buffer := m.rx + [b];
        if ResponseNeed(buffer) == Exactly(|buffer|) && Answers(buffer) then [true] else []
  }

  function Outcomes(m: Master, events: seq<Event>): seq<bool>
    decreases |events|
  {
    if events == [] then []
    else
      var before := events[..|events| - 1];
      Outcomes(m, before) + Outcome(Run(m, before), events[|events| - 1])
  }

  function CountOf(outs: seq<bool>, v: bool): nat {
    if outs == [] then 0 else CountOf(outs[..|outs| - 1], v) + One(outs[|outs| - 1] == v)
  }

  /** Polls `i` to `j` were all missed. */
  ghost predicate MissRun(outs: seq<bool>, i: nat, j: nat) {
    i <= j <= |outs| && forall k :: i <= k < j ==> !outs[k]
  }

  ghost predicate LongestMissRun(outs: seq<bool>, n: nat) {
    && (exists i: nat, j: nat :: MissRun(outs, i, j) && j - i == n)
    && (forall i: nat, j: nat :: MissRun(outs, i, j) ==> j - i <= n)
  }

  ghost predicate TrailingMisses(outs: seq<bool>, n: nat) {
    n <= |outs| && MissRun(outs, |outs| - n, |outs|) && (n < |outs| ==> outs[|outs| - n - 1])
  }

  ghost predicate Missed(outs: seq<bool>) { exists i :: 0 <= i < |outs| && !outs[i] }

  /** Some miss was followed, sooner or later, by a reply. */
  ghost predicate Recovered(outs: seq<bool>) {
    exists i, j :: 0 <= i < j < |outs| && !outs[i] && outs[j]
  }

  /** The counters are what the outcomes say. */
  ghost predicate Tells(p: Polling, outs: seq<bool>) {
    && p.replies == CountOf(outs, true) && p.misses == CountOf(outs, false)
    && TrailingMisses(outs, p.consecutive) && LongestMissRun(outs, p.maxConsecutive)
    && p.sawMiss == Missed(outs) && p.recovered == Recovered(outs)
  }

  lemma LongestAfterMiss(outs: seq<bool>, n: nat, trailing: nat)
    requires LongestMissRun(outs, n) && TrailingMisses(outs, trailing)
    ensures TrailingMisses(outs + [false], trailing + 1)
    ensures LongestMissRun(outs + [false], if trailing + 1 > n then trailing + 1 else n)
  {
    var all := outs + [false];
    var top := if trailing + 1 > n then trailing + 1 else n;
    assert trailing < |outs| ==> all[|outs| - trailing - 1];
    forall i: nat, j: nat | MissRun(all, i, j)
      ensures j - i <= top
    {
      if j <= |outs| {
        assert MissRun(outs, i, j) by {
          assert forall k :: i <= k < j ==> outs[k] == all[k];
        }
      }
    }
    assert MissRun(all, |outs| - trailing, |all|);
    var i: nat, j: nat :| MissRun(outs, i, j) && j - i == n;
    assert MissRun(all, i, j) by {
      assert forall k :: i <= k < j ==> outs[k] == all[k];
    }
  }

  lemma LongestAfterReply(outs: seq<bool>, n: nat)
    requires LongestMissRun(outs, n)
    ensures TrailingMisses(outs + [true], 0) && LongestMissRun(outs + [true], n)
  {
    var all := outs + [true];
    assert all[|outs|] && MissRun(outs, 0, 0);
    forall i: nat, j: nat | MissRun(all, i, j)
      ensures j - i <= n
    {
      if j <= |outs| {
        assert MissRun(outs, i, j) by {
          assert forall k :: i <= k < j ==> outs[k] == all[k];
        }
      }
    }
    var i: nat, j: nat :| MissRun(outs, i, j) && j - i == n;
    assert MissRun(all, i, j) by {
      assert forall k :: i <= k < j ==> outs[k] == all[k];
    }
  }

  lemma SawAfter(outs: seq<bool>, v: bool)
    ensures Missed(outs + [v]) == (Missed(outs) || !v)
    ensures Recovered(outs + [v]) == (Recovered(outs) || (v && Missed(outs)))
  {
    var all := outs + [v];
    assert forall i :: 0 <= i < |outs| ==> all[i] == outs[i];
    assert all[|outs|] == v;
  }

  lemma CountAfter(outs: seq<bool>, v: bool)
    ensures CountOf(outs + [v], true) == CountOf(outs, true) + One(v)
    ensures CountOf(outs + [v], false) == CountOf(outs, false) + One(!v)
  {
    assert (outs + [v])[..|outs|] == outs;
  }

  lemma ReplyTells(p: Polling, outs: seq<bool>)
    requires Tells(p, outs)
    ensures Tells(RecordReply(p), outs + [true])
  {
    hide CountOf, Missed, Recovered, LongestMissRun, TrailingMisses, MissRun;
    CountAfter(outs, true);
    SawAfter(outs, true);
    LongestAfterReply(outs, p.maxConsecutive);
  }

  lemma MissTells(p: Polling, outs: seq<bool>)
    requires Tells(p, outs)
    ensures Tells(RecordMiss(p), outs + [false])
  {
    hide CountOf, Missed, Recovered, LongestMissRun, TrailingMisses, MissRun;
    CountAfter(outs, false);
    SawAfter(outs, false);
    LongestAfterMiss(outs, p.maxConsecutive, p.consecutive);
  }

  // ---------------------------------------------------------------- every run

  /** The bookkeeping a poll's outcome decides. */
  function Core(p: Polling): Polling { p.(cycles := 0, polls := 0) }

  /** The counters as these outcomes change them. */
  function Settling(p: Polling, outcome: seq<bool>): Polling {
    if outcome == [] then p else if outcome[0] then RecordReply(p) else RecordMiss(p)
  }

  lemma StatusPollCore(c: Chip, accepted: bool)
    ensures Core(SendStatusPoll(c, accepted).polling) == Core(c.polling)
  {
    hide PollFrame, ProbeFrame;
  }

  lemma CycleCore(c: Chip)
    ensures Core(CycleOver(c).polling) == Core(c.polling)
  {
    hide Deserved;
  }

  lemma PollTimerCore(c: Chip, accepted: bool)
    requires c.phase.WaitPoll?
    ensures Core(OnTimer(c, accepted).polling) == Core(RecordMiss(c.polling))
  {
    var m := JudgeMiss(c.(timer := false).(polling := RecordMiss(c.polling)));
    assert m.polling == RecordMiss(c.polling);
    CycleCore(m);
    hide CycleOver, RecordMiss;
  }

  lemma SilenceTimerCore(c: Chip, accepted: bool)
    requires c.phase.WaitSilence?
    ensures Core(OnTimer(c, accepted).polling) == Core(c.polling)
  {
    hide SendStatusPoll;
    var x := c.(timer := false);
    StatusPollCore(x.(detours := x.detours.(faultRecoveries := x.detours.faultRecoveries + 1)), accepted);
  }

  lemma OtherTimerCore(c: Chip, accepted: bool)
    requires !c.phase.WaitPoll? && !c.phase.WaitSilence?
    ensures Core(OnTimer(c, accepted).polling) == Core(c.polling)
  {
    hide SendStatusPoll, OpeningFrame, Deserved;
    StatusPollCore(c.(timer := false), accepted);
  }

  lemma TimerSettles(m: Master, accepted: bool)
    ensures Core(OnTimer(m.chip, accepted).polling) == Core(Settling(m.chip.polling, Outcome(m, Timer(accepted))))
  {
    hide OnTimer, Core, RecordMiss, RecordReply;
    if m.chip.phase.WaitPoll? {
      PollTimerCore(m.chip, accepted);
    } else if m.chip.phase.WaitSilence? {
      SilenceTimerCore(m.chip, accepted);
    } else {
      OtherTimerCore(m.chip, accepted);
    }
  }

  lemma ProcessSettles(c: Chip, frame: seq<byte>)
    requires |frame| >= 3
    ensures Core(Process(c, frame).polling)
         == Core(if c.phase.WaitPoll? && Answers(frame) then RecordReply(c.polling) else c.polling)
  {
    hide Crc, Deserved, CycleOver, RecordReply;
    CycleCore(c.(polling := RecordReply(c.polling)));
  }

  lemma ByteSettles(m: Master, b: byte)
    requires Quiet(m.rx)
    ensures Core(OnByte(m, b).chip.polling) == Core(Settling(m.chip.polling, Outcome(m, Receive(b))))
  {
    hide Process, Consume, Quiet, Core, RecordMiss, RecordReply, Answers;
    if !Final(m.chip.phase) {
      var buffer := m.rx + [b];
      OneFramePerByte(m, b);
      if ResponseNeed(buffer) == Exactly(|buffer|) {
        ProcessSettles(m.chip, buffer);
      }
    }
  }

  lemma CoreTells(p: Polling, q: Polling, outs: seq<bool>)
    requires Tells(p, outs) && Core(p) == Core(q)
    ensures Tells(q, outs)
  {
    hide CountOf, Missed, Recovered, LongestMissRun, TrailingMisses;
  }

  /** Each outcome changes the counters as it should. */
  lemma StepTells(m: Master, e: Event, outs: seq<bool>)
    requires Quiet(m.rx) && Tells(m.chip.polling, outs)
    ensures Tells(Next(m, e).chip.polling, outs + Outcome(m, e))
  {
    match e {
      case Timer(accepted) => TimerSettles(m, accepted);
      case Receive(b) => ByteSettles(m, b);
    }
    var p, outcome := m.chip.polling, Outcome(m, e);
    assert outcome == [] || outcome == [true] || outcome == [false];
    ReplyTells(p, outs);
    MissTells(p, outs);
    hide Next, Tells, Outcome, Core, Quiet, RecordReply, RecordMiss;
    assert outs + [] == outs;
    CoreTells(Settling(p, outcome), Next(m, e).chip.polling, outs + outcome);
  }

  lemma StepIsQuiet(m: Master, e: Event)
    requires Quiet(m.rx)
    ensures Quiet(Next(m, e).rx)
  {
    if e.Receive? && !Final(m.chip.phase) {
      OneFramePerByte(m, e.b);
    }
    hide OnTimer, Consume;
  }

  // ---------------------------------------------------------------- scan, command and fault probe

  /** Events that the verdict depends on besides the polls' outcomes. */
  datatype Mark = ScanAnswer | CommandAnswer | Silence | Intrusion

  /** The byte completes exactly this frame. */
  predicate Completes(m: Master, e: Event, frame: seq<byte>) {
    e.Receive? && m.rx + [e.b] == frame
  }

  /** The byte completes some frame that passes the CRC check. */
  predicate CompletesAny(m: Master, e: Event) {
    e.Receive? && ResponseNeed(m.rx + [e.b]) == Exactly(|m.rx| + 1) && CrcOk(m.rx + [e.b])
  }

  predicate Marks(m: Master, e: Event, mark: Mark) {
    match mark
    case ScanAnswer => m.chip.phase.WaitScan? && Completes(m, e, SCAN_RESPONSE)
    case CommandAnswer => m.chip.phase.WaitCommand? && Completes(m, e, LIGHT_RESPONSE)
    case Silence => m.chip.phase.WaitSilence? && e.Timer?
    case Intrusion => m.chip.phase.WaitSilence? && CompletesAny(m, e)
  }

  /** How often it happened. */
  function Times(m: Master, events: seq<Event>, mark: Mark): nat
    decreases |events|
  {
    if events == [] then 0
    else
      var before := events[..|events| - 1];
      Times(m, before, mark) + One(Marks(Run(m, before), events[|events| - 1], mark))
  }

  /** What the chip remembers of them. */
  predicate Remembers(c: Chip, scans: nat, commands: nat, silences: nat, intrusions: nat) {
    && c.scanOk == (scans > 0) && c.detours.commandReplies == commands
    && c.detours.faultRecoveries == silences && c.detours.unexpected == intrusions
  }

  /** The fields that remember them. */
  function Notes(c: Chip): (bool, nat, nat, nat) {
    (c.scanOk, c.detours.commandReplies, c.detours.unexpected, c.detours.faultRecoveries)
  }

  lemma StatusPollNotes(c: Chip, accepted: bool)
    ensures Notes(SendStatusPoll(c, accepted)) == Notes(c)
  {
    hide PollFrame, ProbeFrame;
  }

  lemma CycleNotes(c: Chip)
    ensures Notes(CycleOver(c)) == Notes(c) && Notes(JudgeMiss(c)) == Notes(c) && Notes(FinishIfDone(c)) == Notes(c)
  {
    hide Deserved;
  }

  lemma PollTimerNotes(c: Chip, accepted: bool)
    requires c.phase.WaitPoll?
    ensures Notes(OnTimer(c, accepted)) == Notes(c)
  {
    hide CycleOver, JudgeMiss, RecordMiss;
    var m := c.(timer := false).(polling := RecordMiss(c.polling));
    CycleNotes(m);
    CycleNotes(JudgeMiss(m));
  }

  lemma SilenceNotes(c: Chip, accepted: bool)
    requires c.phase.WaitSilence?
    ensures Notes(OnTimer(c, accepted)) == Notes(c).(3 := c.detours.faultRecoveries + 1)
  {
    hide SendStatusPoll;
    var x := c.(timer := false);
    StatusPollNotes(x.(detours := x.detours.(faultRecoveries := x.detours.faultRecoveries + 1)), accepted);
  }

  lemma TimerMarks(c: Chip, accepted: bool)
    ensures Notes(OnTimer(c, accepted))
         == Notes(c).(3 := c.detours.faultRecoveries + One(c.phase.WaitSilence?))
  {
    if c.phase.WaitPoll? {
      PollTimerNotes(c, accepted);
      hide OnTimer;
    } else if c.phase.WaitSilence? {
      SilenceNotes(c, accepted);
      hide OnTimer;
    } else {
      OtherNotes(c, accepted);
      hide OnTimer;
    }
  }

  lemma SendNotes(c: Chip, accepted: bool)
    ensures Notes(SendScan(c, accepted)) == Notes(c) && Notes(SendBroadcast(c, accepted)) == Notes(c)
  {
    hide OpeningFrame;
  }

  lemma OtherNotes(c: Chip, accepted: bool)
    requires !c.phase.WaitPoll? && !c.phase.WaitSilence?
    ensures Notes(OnTimer(c, accepted)) == Notes(c)
  {
    hide SendStatusPoll, SendScan, SendBroadcast, FinishIfDone, CycleOver, JudgeMiss, RecordMiss;
    var x := c.(timer := false);
    StatusPollNotes(x, accepted);
    CycleNotes(x);
    SendNotes(x, accepted);
    SendNotes(FinishIfDone(x), accepted);
  }

  lemma LiteralsAreWhole()
    ensures ResponseNeed(SCAN_RESPONSE) == Exactly(15) && Crc(SCAN_RESPONSE) == 0
    ensures ResponseNeed(LIGHT_RESPONSE) == Exactly(9) && Crc(LIGHT_RESPONSE) == 0
    ensures |SCAN_RESPONSE| == 15 && |LIGHT_RESPONSE| == 9
  {
    ScanResponseIsBuilt();
    LightResponseIsBuilt();
    hide Crc;
  }

  lemma ProcessMarks(c: Chip, frame: seq<byte>)
    requires |frame| >= 3
    ensures var d := Process(c, frame);
      && d.scanOk == (c.scanOk || (c.phase.WaitScan? && frame == SCAN_RESPONSE))
      && d.detours.commandReplies
         == c.detours.commandReplies + One(c.phase.WaitCommand? && frame == LIGHT_RESPONSE)
      && d.detours.faultRecoveries == c.detours.faultRecoveries
      && d.detours.unexpected == c.detours.unexpected + One(c.phase.WaitSilence? && Crc(frame) == 0)
  {
    LiteralsAreWhole();
    hide Crc, Deserved, RecordReply;
  }

  lemma ByteMarks(m: Master, b: byte)
    requires Quiet(m.rx)
    ensures var c, d, e := m.chip, OnByte(m, b).chip, Receive(b);
      && d.scanOk == (c.scanOk || Marks(m, e, ScanAnswer))
      && d.detours.commandReplies == c.detours.commandReplies + One(Marks(m, e, CommandAnswer))
      && d.detours.faultRecoveries == c.detours.faultRecoveries
      && d.detours.unexpected == c.detours.unexpected + One(Marks(m, e, Intrusion))
  {
    hide Process, Consume, Quiet, Crc;
    var buffer := m.rx + [b];
    LiteralsAreWhole();
    if !Final(m.chip.phase) {
      OneFramePerByte(m, b);
      if ResponseNeed(buffer) == Exactly(|buffer|) {
        WholeIsLong(buffer);
        hide ResponseNeed;
        ProcessMarks(m.chip, buffer);
      }
    }
    hide ResponseNeed;
  }

  lemma WholeIsLong(buffer: seq<byte>)
    requires ResponseNeed(buffer) == Exactly(|buffer|)
    ensures |buffer| >= 3
  {}

  lemma StepMarks(m: Master, e: Event, scans: nat, commands: nat, silences: nat, intrusions: nat)
    requires Quiet(m.rx) && Remembers(m.chip, scans, commands, silences, intrusions)
    ensures Remembers(Next(m, e).chip, scans + One(Marks(m, e, ScanAnswer)),
                      commands + One(Marks(m, e, CommandAnswer)), silences + One(Marks(m, e, Silence)),
                      intrusions + One(Marks(m, e, Intrusion)))
  {
    match e
    case Timer(accepted) => TimerMarks(m.chip, accepted);
      hide OnTimer;
    case Receive(b) => ByteMarks(m, b);
      hide OnByte, CompletesAny, Completes;
  }

  /** In every run the chip remembers exactly what happened. */
  lemma {:induction false} RunMarks(m: Master, events: seq<Event>)
    requires Inv(m.chip) && Quiet(m.rx) && Tells(m.chip.polling, [])
    requires Remembers(m.chip, 0, 0, 0, 0)
    ensures Remembers(Run(m, events).chip, Times(m, events, ScanAnswer), Times(m, events, CommandAnswer),
                      Times(m, events, Silence), Times(m, events, Intrusion))
    decreases |events|
  {
    if events != [] {
      var before, e := events[..|events| - 1], events[|events| - 1];
      hide Inv, Tells, Next, Quiet, Marks, Remembers;
      RunMarks(m, before);
      RunKeeps(m, before);
      StepMarks(Run(m, before), e, Times(m, before, ScanAnswer), Times(m, before, CommandAnswer),
                Times(m, before, Silence), Times(m, before, Intrusion));
    }
  }

  /** In every run the books balance and the counters are what the outcomes say. */
  lemma {:induction false} RunKeeps(m: Master, events: seq<Event>)
    requires Inv(m.chip) && Quiet(m.rx) && Tells(m.chip.polling, [])
    ensures Inv(Run(m, events).chip) && Quiet(Run(m, events).rx)
    ensures Tells(Run(m, events).chip.polling, Outcomes(m, events))
    decreases |events|
  {
    if events != [] {
      var before, e := events[..|events| - 1], events[|events| - 1];
      hide Inv, Tells, Next, Outcome, Quiet;
      RunKeeps(m, before);
      StepIsQuiet(Run(m, before), e);
      StepKeeps(Run(m, before), e);
      StepTells(Run(m, before), e, Outcomes(m, before));
    }
  }

  /** The chip at power-on. */
  predicate PoweredOn(m: Master) {
    && ConfigOk(m.chip.config)
    && m == Master(Chip(m.chip.config, Start, true, [], Polling(0, 0, 0, 0, 0, 0, false, false),
                        Detours(false, 0, false, 0, 0, 0), false, false, []), [])
  }

  /**
   Whatever its attributes, the chip powers on with a usable configuration and all books empty: modes 1 to 4 are
   the special ones, and an attribute of zero stands for 200 cycles and a threshold of five misses.
   */
  lemma InitPowersOn(cycles: nat, mode: nat, threshold: nat, requireRecovery: bool)
    ensures var m := Init(cycles, mode, threshold, requireRecovery);
      && PoweredOn(m) && Inv(m.chip)
      && m.chip.config.requireRecovery == requireRecovery
      && m.chip.config.target == (if cycles > 0 then cycles else 200)
      && m.chip.config.threshold == (if threshold > 0 then threshold else 5)
      && (m.chip.config.mode == Restart <==> mode == 1) && (m.chip.config.mode == Opening <==> mode == 2)
      && (m.chip.config.mode == Light <==> mode == 3) && (m.chip.config.mode == Fault <==> mode == 4)
  {}

  lemma EmptyTells(p: Polling)
    requires p == Polling(0, 0, 0, 0, 0, 0, false, false)
    ensures Tells(p, [])
  {
    assert MissRun([], 0, 0);
  }

  lemma StatusPollConfig(c: Chip, accepted: bool)
    ensures SendStatusPoll(c, accepted).config == c.config
  {}

  lemma CycleConfig(c: Chip)
    ensures CycleOver(c).config == c.config && JudgeMiss(c).config == c.config && FinishIfDone(c).config == c.config
  {
    hide Deserved;
  }

  lemma PollTimerConfig(c: Chip, accepted: bool)
    requires c.phase.WaitPoll?
    ensures OnTimer(c, accepted).config == c.config
  {
    hide CycleOver, JudgeMiss, RecordMiss;
    var m := c.(timer := false).(polling := RecordMiss(c.polling));
    CycleConfig(m);
    CycleConfig(JudgeMiss(m));
  }

  lemma SendTimerConfig(c: Chip, accepted: bool)
    requires c.phase.BeforePoll? || c.phase.WaitSilence?
    ensures OnTimer(c, accepted).config == c.config
  {
    hide SendStatusPoll;
    var x := c.(timer := false);
    StatusPollConfig(x, accepted);
    StatusPollConfig(x.(detours := x.detours.(faultRecoveries := x.detours.faultRecoveries + 1)), accepted);
  }

  lemma TimerConfig(c: Chip, accepted: bool)
    ensures OnTimer(c, accepted).config == c.config
  {
    if c.phase.WaitPoll? {
      PollTimerConfig(c, accepted);
    } else if c.phase.BeforePoll? || c.phase.WaitSilence? {
      SendTimerConfig(c, accepted);
    } else {
      hide SendStatusPoll, OpeningFrame, CycleOver, FinishIfDone, Deserved;
      CycleConfig(c.(timer := false));
    }
  }

  lemma {:induction false} ConsumeConfig(c: Chip, buffer: seq<byte>)
    ensures Consume(c, buffer).chip.config == c.config
    decreases |buffer|
  {
    hide Crc, Deserved;
    match ResponseNeed(buffer)
    case More =>
    case Bad => ConsumeConfig(c, buffer[1..]);
    case Exactly(n) => if |buffer| > n { ConsumeConfig(Process(c, buffer[..n]), buffer[n..]); }
  }

  lemma {:induction false} RunConfig(m: Master, events: seq<Event>)
    ensures Run(m, events).chip.config == m.chip.config
    decreases |events|
  {
    if events != [] {
      var before := events[..|events| - 1];
      RunConfig(m, before);
      var mid := Run(m, before);
      hide OnTimer, Consume;
      match events[|events| - 1]
      case Timer(accepted) => TimerConfig(mid.chip, accepted);
      case Receive(b) => ConsumeConfig(mid.chip, MakeRoom(mid.rx) + [b]);
    }
  }

  lemma {:induction false} CountsAre(outs: seq<bool>)
    ensures CountOf(outs, true) + CountOf(outs, false) == |outs|
    ensures CountOf(outs, false) == 0 <==> !Missed(outs)
  {
    if outs != [] {
      var most := outs[..|outs| - 1];
      CountsAre(most);
      assert outs == most + [outs[|outs| - 1]];
      SawAfter(most, outs[|outs| - 1]);
    }
  }

  /** The requirements on the polls' outcomes that the configuration sets. */
  ghost predicate OutcomesMeet(config: Config, outs: seq<bool>) {
    && (config.mode.Steady? ==> !Missed(outs))
    && (config.requireRecovery ==> Recovered(outs))
    && (forall i: nat, j: nat :: MissRun(outs, i, j) ==> j - i < config.threshold)
  }

  /**
   In every run and mode, an OK verdict means: one verdict, the scan answered, every poll of the target
   settled, outcomes as the mode demands, the light command answered once, one silent fault probe followed
   by recovery.
   */
  lemma OkIsSound(m: Master, events: seq<Event>)
    requires PoweredOn(m) && Run(m, events).chip.phase.Done?
    ensures var c := Run(m, events).chip;
      var outs := Outcomes(m, events);
      && c.verdicts == [true] && Times(m, events, ScanAnswer) > 0
      && |outs| == m.chip.config.target == c.polling.polls && OutcomesMeet(m.chip.config, outs)
      && (m.chip.config.mode.Light? ==> Times(m, events, CommandAnswer) == 1)
      && (m.chip.config.mode.Fault? ==>
            c.detours.faultChecks == 1 && Times(m, events, Silence) == 1 && Times(m, events, Intrusion) == 0)
  {
    EmptyTells(m.chip.polling);
    hide Run, Outcomes, CountOf, Missed, Recovered, MissRun, Quiet;
    RunKeeps(m, events);
    RunMarks(m, events);
    RunConfig(m, events);
    CountsAre(Outcomes(m, events));
    hide Times;
  }

  /** The verdict behind the last poll, in terms of the chip's fields. */
  lemma SettledVerdict(c: Chip)
    requires Inv(c) && c.polling.replies + c.polling.misses == c.config.target
    requires c.polling.consecutive <= c.polling.maxConsecutive
    ensures Final(c.phase)
    ensures var p, d := c.polling, c.detours;
      c.phase.Done? <==>
        && (c.config.mode.Steady? ==> p.misses == 0) && (c.config.requireRecovery ==> p.recovered)
        && p.maxConsecutive < c.config.threshold && c.scanOk
        && (c.config.mode.Light? ==> d.commandReplies > 0)
        && (c.config.mode.Fault? ==> d.faultChecks > 0 && d.faultRecoveries > 0 && d.unexpected == 0)
  {}

  /** Whether the outcomes meet the requirements can be read off the counters. */
  lemma CountersMeet(config: Config, p: Polling, outs: seq<bool>)
    requires Tells(p, outs)
    ensures OutcomesMeet(config, outs) <==>
      && (config.mode.Steady? ==> p.misses == 0) && (config.requireRecovery ==> p.recovered)
      && p.maxConsecutive < config.threshold
    ensures p.consecutive <= p.maxConsecutive
  {
    CountsAre(outs);
    assert MissRun(outs, |outs| - p.consecutive, |outs|);
    hide CountOf, Missed, Recovered, MissRun;
  }

  lemma TellsCounts(p: Polling, outs: seq<bool>)
    requires Tells(p, outs)
    ensures p.replies == CountOf(outs, true) && p.misses == CountOf(outs, false)
  {
    hide CountOf, Missed, Recovered, TrailingMisses, LongestMissRun;
  }

  /** A run that has settled all its polls has a verdict, and it is OK exactly if it deserves to be. */
  lemma VerdictIsExact(m: Master, events: seq<Event>)
    requires PoweredOn(m) && |Outcomes(m, events)| == m.chip.config.target
    ensures var c := Run(m, events).chip;
      && Final(c.phase)
      && (c.phase.Done? <==>
            && OutcomesMeet(m.chip.config, Outcomes(m, events))
            && Times(m, events, ScanAnswer) > 0
            && (m.chip.config.mode.Light? ==> Times(m, events, CommandAnswer) > 0)
            && (m.chip.config.mode.Fault? ==>
                  c.detours.faultChecks > 0 && Times(m, events, Silence) > 0 && Times(m, events, Intrusion) == 0))
  {
    hide Run, Outcomes, CountOf, Missed, Recovered, MissRun, Times;
    EmptyTells(m.chip.polling);
    assert Quiet(m.rx);
    hide Quiet, ResponseNeed;
    RunKeeps(m, events);
    RunMarks(m, events);
    RunConfig(m, events);
    var c, outs := Run(m, events).chip, Outcomes(m, events);
    CountsAre(outs);
    CountersMeet(c.config, c.polling, outs);
    TellsCounts(c.polling, outs);
    hide Tells, OutcomesMeet, Inv;
    SettledVerdict(c);
  }
}
