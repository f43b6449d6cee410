/**
 Facts about the protocol log that a user can check from outside: what a reader gets who connects while the log is
 running, which switch setting the log obeys, which lines fit, and where their numbers stand.
 */
module LogReaders {
  import opened ProtocolLog
  import opened LogHistory
  import opened LogStream
  import opened Words

  // ---------------------------------------------------------------- a reader connects

  /** Nothing but writes and reads from action `k` on. */
  ghost predicate OnlyReads(actions: seq<Action>, k: nat) {
    forall j :: k <= j < |actions| ==> actions[j].Do? || actions[j].Read?
  }

  lemma {:induction false} StartStays(s: Stream, actions: seq<Action>, k: nat)
    requires k <= |actions| && OnlyReads(actions, k)
    ensures ActAll(s, actions).from == ActAll(s, actions[..k]).from
    decreases |actions|
  {
    if k == |actions| {
      assert actions[..k] == actions;
    } else {
      var before := actions[..|actions| - 1];
      StartStays(s, before, k);
      assert before[..k] == actions[..k];
    }
  }

  /**
   A reader that connects at action `k` of any run is sent only lines written later: each carries a number above
   those given out so far, and no retained line of that kind behind the reader's cursor is missing.
   */
  lemma NewReaderSeesLater(s: Stream, actions: seq<Action>, k: nat)
    requires Started(s) && NeverWraps(s, actions)
    requires forall i :: 0 <= i < |actions| ==> ProperAction(actions[i])
    requires k < |actions| && actions[k] == Connect && OnlyReads(actions, k + 1)
    ensures var earlier, end := |ActAll(s, actions[..k]).written|, ActAll(s, actions);
      var got, kept := Lines(end.sent), Lines(end.log.contents);
      && (forall i :: 0 <= i < |got| ==> LineSeq(got[i]) > earlier)
      && (forall i :: 0 <= i < |kept| && earlier < LineSeq(kept[i]) < end.cursor ==> kept[i] in got)
  {
    StreamIsExactlyOnce(s, actions);
    StartStays(s, actions, k + 1);
    NumberAt(s, actions, k);
    hide LineSeq, Lines, Holds, Genuine, Increasing, AllClean, ActAll, Started, ProperAction, NeverWraps;
  }

  lemma NumberAt(s: Stream, actions: seq<Action>, k: nat)
    requires Started(s) && NeverWraps(s, actions)
    requires forall i :: 0 <= i < |actions| ==> ProperAction(actions[i])
    requires k < |actions| && actions[k] == Connect
    ensures ActAll(s, actions[..k + 1]).from == |ActAll(s, actions[..k]).written| + 1
  {
    assert actions[..k + 1][..k] == actions[..k];
    Shorter(s, actions, k);
    StreamIsExactlyOnce(s, actions[..k]);
    hide Lines, Started, ProperAction, NeverWraps, Orderly, Between, NoneSkipped;
  }

  lemma Shorter(s: Stream, actions: seq<Action>, k: nat)
    requires k <= |actions| && NeverWraps(s, actions)
    ensures NeverWraps(s, actions[..k])
  {
    hide ActAll;
    forall j | 0 <= j <= k ensures |ActAll(s, actions[..k][..j]).written| + 1 < UINT32 {
      assert actions[..k][..j] == actions[..j];
    }
  }

  /** A clear request leaves its own control line, number 1, as the only one, whether or not the log is on. */
  lemma ClearLeavesItsLine(s: Stream, rest: string)
    requires s.log.ready && |Record(1, rest)| + 1 <= CAPACITY
    ensures var after, line := Act(s, ClearRequest([], rest)), Record(1, rest);
      && after.log.contents == line + "\n" && after.log.nextSeq == 2 && after.log.enabled == s.log.enabled
      && after.written == [line] && after.cursor == 1 && after.sent == ""
  {
    var cleared, write := Clear(s.log), Write(rest, true);
    assert ClearEvents([], rest) == [write];
    OneEvent(cleared, [], write);
    RunTwo(cleared, Take, Append(Record(1, rest), true));
    hide Record, Run, AfterAll, WrittenAll;
    assert "" + (Record(1, rest) + "\n") == Record(1, rest) + "\n";
  }

  // ---------------------------------------------------------------- the switch

  lemma {:induction false} EvictOnlyTakes(l: Log, needed: nat)
    requires needed <= CAPACITY
    ensures var e := EvictFor(l, needed); e.ready == l.ready && e.enabled == l.enabled && e.nextSeq == l.nextSeq
    decreases |l.contents|
  {
    if needed + |l.contents| > CAPACITY {
      EvictOnlyTakes(DiscardOldest(l), needed);
    }
  }

  /** Only the switch changes the setting; nothing makes a log ready or unready. */
  lemma StepKeepsSwitch(l: Log, op: Op)
    ensures Step(l, op).ready == l.ready
    ensures Step(l, op).enabled == if op.Enable? then op.on else l.enabled
  {
    if op.Append? && |op.line| + 1 <= CAPACITY {
      EvictOnlyTakes(l, |op.line| + 1);
    }
    hide EvictFor;
  }

  /**
   Over every run of appends, clears and switchings the log obeys the last switching, or else the setting it began
   with: clearing it or writing to it changes neither that nor its being ready.
   */
  lemma {:induction false} RunKeepsSwitch(l: Log, ops: seq<Op>)
    ensures Run(l, ops).ready == l.ready
    ensures (forall i :: 0 <= i < |ops| ==> !ops[i].Enable?) ==> Run(l, ops).enabled == l.enabled
    ensures forall i :: 0 <= i < |ops| && ops[i].Enable? && (forall j :: i < j < |ops| ==> !ops[j].Enable?) ==>
              Run(l, ops).enabled == ops[i].on
    decreases |ops|
  {
    if ops != [] {
      hide Step;
      RunKeepsSwitch(l, ops[..|ops| - 1]);
      StepKeepsSwitch(Run(l, ops[..|ops| - 1]), ops[|ops| - 1]);
    }
  }

  // ---------------------------------------------------------------- one line

  lemma MakesRoom(l: Log, lines: seq<string>, needed: nat) returns (k: nat)
    requires l.ready && l.contents == Text(lines) && AllClean(lines) && |l.contents| <= CAPACITY
    requires l.droppedRecords < UINT32 && l.droppedBytes < UINT32 && needed <= CAPACITY
    ensures k <= |lines| && EvictFor(l, needed).contents == Text(lines[k..])
  {
    EvictsLines(l, lines, needed);
    KeepIsLongest(lines, needed);
    k := |lines| - |KeepFor(lines, needed)|;
    hide EvictFor, KeepFor, Text, AllClean;
  }

  /**
   A line offered to a ready log is stored as its last one exactly if it is forced or the log is on, and it is
   shorter than 48 KiB; a longer one is counted as dropped, a refused one leaves no trace.
   */
  lemma StoredIfFits(l: Log, lines: seq<string>, line: string, force: bool) returns (k: nat)
    requires l.ready && l.contents == Text(lines) && AllClean(lines) && |l.contents| <= CAPACITY
    requires l.droppedRecords < UINT32 && l.droppedBytes < UINT32
    ensures var after := AppendLine(l, line, force);
      if !force && !l.enabled then after == l
      else if |line| < 48 * 1024 then
        k <= |lines| && after.contents == Text(lines[k..]) + (line + "\n")
      else
        && after.contents == l.contents && after.droppedRecords == U32(l.droppedRecords + 1)
        && after.droppedBytes == U32(l.droppedBytes + |line| + 1)
  {
    hide EvictFor, Text, AllClean, U32;
    k := 0;
    if |line| + 1 <= CAPACITY {
      k := MakesRoom(l, lines, |line| + 1);
    }
  }

  /** The number of a line stands behind its opening `{"seq":`; a line that opens otherwise has none. */
  lemma NumbersStandInFront(rest: string, other: string)
    requires rest == "" || !('0' <= rest[0] <= '9')
    requires |other| < 7 || other[..7] != "{\"seq\":"
    ensures LineSeq("{\"seq\":" + "12" + rest) == 12
    ensures LineSeq(other) == 0
  {
    var line := "{\"seq\":" + "12" + rest;
    assert line[..7] == "{\"seq\":" && line[7..] == "12" + rest;
    assert Decimal(12) == "12" by { assert Decimal(1) == "1"; }
    ParseInvertsDecimal(12, rest);
  }
}
