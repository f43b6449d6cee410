/**
 What the log holds after any history: exactly the longest suffix of the accepted lines that fits,
 with the drop counters accounting for everything else.
 */
module LogHistory {
  import opened Sequences
  import opened ProtocolLog
  import opened Words

  ghost predicate AllClean(lines: seq<string>) {
    forall i :: 0 <= i < |lines| ==> Clean(lines[i])
  }

  /** Lines as stored: each followed by a newline. */
  function Text(lines: seq<string>): string {
    if lines == [] then "" else (lines[0] + "\n") + Text(lines[1..])
  }

  lemma {:induction false} TextSnoc(lines: seq<string>, line: string)
    ensures Text(lines + [line]) == Text(lines) + (line + "\n")
  {
    var all := lines + [line];
    if lines == [] {
      assert all[1..] == [];
      assert Text(all) == (line + "\n") + "";
    } else {
      TextSnoc(lines[1..], line);
      assert all[1..] == lines[1..] + [line];
      Assoc(lines[0] + "\n", Text(lines[1..]), line + "\n");
    }
  }

  /** The longest suffix that leaves room for `needed` more bytes. */
  function KeepFor(lines: seq<string>, needed: nat): (kept: seq<string>)
    ensures |kept| <= |lines|
  {
    if lines == [] || |Text(lines)| + needed <= CAPACITY then lines else KeepFor(lines[1..], needed)
  }

  function Retained(lines: seq<string>): seq<string> {
    KeepFor(lines, 0)
  }

  /** `KeepFor` cuts at a line boundary, and one line more would not have fitted. */
  lemma {:induction false} KeepIsLongest(lines: seq<string>, needed: nat)
    requires needed <= CAPACITY
    ensures var kept := KeepFor(lines, needed);
      var k := |lines| - |kept|;
      && kept == lines[k..]
      && |Text(kept)| + needed <= CAPACITY
      && (k > 0 ==> |Text(lines[k - 1..])| + needed > CAPACITY)
  {
    var k := |lines| - |KeepFor(lines, needed)|;
    if lines == [] || |Text(lines)| + needed <= CAPACITY {
      assert lines[0..] == lines;
    } else {
      KeepIsLongest(lines[1..], needed);
      hide Text, KeepFor;
      assert k > 0 && lines[1..][k - 1..] == lines[k..];
      if k > 1 {
        assert lines[1..][k - 2..] == lines[k - 1..];
      } else {
        assert lines[k - 1..] == lines;
      }
    }
  }

  lemma {:induction false} KeepKept(lines: seq<string>, needed: nat)
    ensures KeepFor(Retained(lines), needed) == KeepFor(lines, needed)
  {
    if lines != [] && |Text(lines)| > CAPACITY {
      KeepKept(lines[1..], needed);
    }
  }

  /** Appending evicts from the old lines what the new line displaces, and nothing more. */
  lemma {:induction false} RetainedSnoc(lines: seq<string>, line: string)
    requires |line| + 1 <= CAPACITY
    ensures Retained(lines + [line]) == KeepFor(lines, |line| + 1) + [line]
  {
    TextSnoc(lines, line);
    if lines == [] {
      assert [] + [line] == [line];
      TextSnoc([], line);
    } else if |Text(lines)| + (|line| + 1) > CAPACITY {
      RetainedSnoc(lines[1..], line);
      assert (lines + [line])[1..] == lines[1..] + [line];
    }
  }

  lemma FirstLineOfText(lines: seq<string>)
    requires lines != [] && Clean(lines[0])
    ensures FirstLine(Text(lines)) == |lines[0]| + 1
    ensures Text(lines)[|lines[0]| + 1..] == Text(lines[1..])
  {
    FirstLineEnds(lines[0], Text(lines[1..]));
  }

  lemma U32Add(a: nat, b: nat)
    ensures U32(U32(a) + b) == U32(a + b)
  {}

  lemma DiscardsFirst(l: Log, lines: seq<string>)
    requires lines != [] && Clean(lines[0]) && l.contents == Text(lines)
    ensures DiscardOldest(l) == l.(contents := Text(lines[1..]),
                                   droppedRecords := U32(l.droppedRecords + 1),
                                   droppedBytes := U32(l.droppedBytes + (|lines[0]| + 1)))
    ensures |Text(lines)| == |lines[0]| + 1 + |Text(lines[1..])|
  {
    FirstLineOfText(lines);
  }

  /** The log after its lines shrank to `kept`, the rest being counted as dropped. */
  ghost function Evicted(l: Log, lines: seq<string>, kept: seq<string>): Log
    requires |kept| <= |lines| && |Text(kept)| <= |Text(lines)|
  {
    l.(contents := Text(kept),
       droppedRecords := U32(l.droppedRecords + (|lines| - |kept|)),
       droppedBytes := U32(l.droppedBytes + (|Text(lines)| - |Text(kept)|)))
  }

  lemma EvictedInSteps(l: Log, lines: seq<string>, mid: seq<string>, kept: seq<string>)
    requires |kept| <= |mid| <= |lines|
    requires |Text(kept)| <= |Text(mid)| <= |Text(lines)|
    ensures Evicted(Evicted(l, lines, mid), mid, kept) == Evicted(l, lines, kept)
  {
    hide Text, U32;
    SumOfDrops(l.droppedRecords, |lines|, |mid|, |kept|);
    SumOfDrops(l.droppedBytes, |Text(lines)|, |Text(mid)|, |Text(kept)|);
  }

  lemma SumOfDrops(count: nat, from: nat, mid: nat, to: nat)
    requires to <= mid <= from
    ensures U32(U32(count + (from - mid)) + (mid - to)) == U32(count + (from - to))
  {}

  /** Eviction removes exactly the lines `KeepFor` gives up, and counts them. */
  lemma {:induction false} EvictsLines(l: Log, lines: seq<string>, needed: nat)
    requires needed <= CAPACITY
    requires l.contents == Text(lines) && AllClean(lines)
    requires l.droppedRecords < UINT32 && l.droppedBytes < UINT32
    ensures |Text(KeepFor(lines, needed))| <= |Text(lines)|
    ensures EvictFor(l, needed) == Evicted(l, lines, KeepFor(lines, needed))
    decreases |lines|
  {
    if |Text(lines)| + needed <= CAPACITY {
      EvictStops(l, lines, needed);
    } else {
      EvictsFirst(l, lines, needed);
      hide Text, FirstLine, DiscardOldest, KeepFor, EvictFor, U32;
      EvictsLines(DiscardOldest(l), lines[1..], needed);
      hide Evicted;
      EvictedInSteps(l, lines, lines[1..], KeepFor(lines, needed));
    }
  }

  lemma EvictStops(l: Log, lines: seq<string>, needed: nat)
    requires l.contents == Text(lines) && |Text(lines)| + needed <= CAPACITY
    requires l.droppedRecords < UINT32 && l.droppedBytes < UINT32
    ensures KeepFor(lines, needed) == lines
    ensures EvictFor(l, needed) == Evicted(l, lines, lines)
  {
    hide Text;
  }

  lemma EvictsFirst(l: Log, lines: seq<string>, needed: nat)
    requires needed <= CAPACITY < |Text(lines)| + needed
    requires l.contents == Text(lines) && AllClean(lines)
    ensures lines != [] && |Text(lines[1..])| <= |Text(lines)|
    ensures DiscardOldest(l) == Evicted(l, lines, lines[1..])
    ensures EvictFor(l, needed) == EvictFor(DiscardOldest(l), needed)
    ensures KeepFor(lines, needed) == KeepFor(lines[1..], needed)
  {
    assert lines != [];
    DiscardsFirst(l, lines);
    hide FirstLine, DiscardOldest, Text, U32;
  }

  // ---------------------------------------------------------------- histories

  /** What has been offered since the last clear. */
  datatype Tally = Tally(accepted: seq<string>, records: nat, bytes: nat)

  function Count(l: Log, t: Tally, op: Op): Tally {
    match op
    case ClearAll => Tally([], 0, 0)
    case Append(line, force) =>
      if !l.ready || (!force && !l.enabled) then t
      else Tally(if |line| + 1 <= CAPACITY then t.accepted + [line] else t.accepted,
                 t.records + 1, t.bytes + (|line| + 1))
    case _ => t
  }

  function History(l: Log, ops: seq<Op>): Tally
    decreases |ops|
  {
    if ops == [] then Tally([], 0, 0)
    else
      var before := ops[..|ops| - 1];
      Count(Run(l, before), History(l, before), ops[|ops| - 1])
  }

  /** The log is the longest fitting suffix of what was accepted; the counters hold the rest. */
  ghost predicate Accounts(l: Log, t: Tally) {
    && AllClean(t.accepted)
    && l.contents == Text(Retained(t.accepted))
    && |Retained(t.accepted)| <= t.records
    && l.droppedRecords == U32(t.records - |Retained(t.accepted)|)
    && |l.contents| <= t.bytes
    && l.droppedBytes == U32(t.bytes - |l.contents|)
  }

  lemma RetainedClean(lines: seq<string>)
    requires AllClean(lines)
    ensures AllClean(Retained(lines))
  {
    KeepIsLongest(lines, 0);
  }

  lemma AppendAccounts(l: Log, t: Tally, line: string, force: bool)
    requires Accounts(l, t) && Clean(line)
    ensures Accounts(AppendLine(l, line, force), Count(l, t, Append(line, force)))
  {
    var needed := |line| + 1;
    if !(!l.ready || (!force && !l.enabled)) {
      if needed > CAPACITY {
        U32Add(t.records - |Retained(t.accepted)|, 1);
        U32Add(t.bytes - |l.contents|, needed);
      } else {
        AppendFits(l, t, line);
      }
    }
  }

  lemma AppendFits(l: Log, t: Tally, line: string)
    requires Accounts(l, t) && Clean(line) && |line| + 1 <= CAPACITY
    ensures var needed := |line| + 1;
      var e := EvictFor(l, needed);
      Accounts(e.(contents := e.contents + (line + "\n")),
               Tally(t.accepted + [line], t.records + 1, t.bytes + needed))
  {
    var needed := |line| + 1;
    var lines := Retained(t.accepted);
    var kept := KeepFor(lines, needed);
    RetainedClean(t.accepted);
    EvictsLines(l, lines, needed);
    KeepKept(t.accepted, needed);
    RetainedSnoc(t.accepted, line);
    TextSnoc(kept, line);
    hide KeepFor, Retained, Text, EvictFor, U32;
    U32Add(t.records - |lines|, |lines| - |kept|);
    U32Add(t.bytes - |Text(lines)|, |Text(lines)| - |Text(kept)|);
  }

  /** An empty log, whatever its switches. */
  predicate Fresh(l: Log) {
    l.contents == "" && l.nextSeq == 1 && l.droppedRecords == 0 && l.droppedBytes == 0
  }

  /** After any history the log is the longest fitting suffix of the accepted lines, fully accounted. */
  lemma {:induction false} RunAccounts(l: Log, ops: seq<Op>)
    requires Fresh(l)
    requires forall i :: 0 <= i < |ops| && ops[i].Append? ==> Clean(ops[i].line)
    ensures Accounts(Run(l, ops), History(l, ops))
    decreases |ops|
  {
    if ops == [] {
    } else {
      var before, op := ops[..|ops| - 1], ops[|ops| - 1];
      RunAccounts(l, before);
      match op
      case Append(line, force) => AppendAccounts(Run(l, before), History(l, before), line, force);
      case _ =>
    }
  }

  /** Without counter wrap-around the books balance exactly. */
  lemma BooksBalance(l: Log, ops: seq<Op>)
    requires Fresh(l)
    requires forall i :: 0 <= i < |ops| && ops[i].Append? ==> Clean(ops[i].line)
    requires History(l, ops).bytes < UINT32 && History(l, ops).records < UINT32
    ensures var end, t := Run(l, ops), History(l, ops);
      && |end.contents| + end.droppedBytes == t.bytes
      && |Retained(t.accepted)| + end.droppedRecords == t.records
  {
    RunAccounts(l, ops);
    hide Run, History, Accounts;
    Exactly(Run(l, ops), History(l, ops));
  }

  lemma Exactly(l: Log, t: Tally)
    requires Accounts(l, t) && t.bytes < UINT32 && t.records < UINT32
    ensures |l.contents| + l.droppedBytes == t.bytes
    ensures |Retained(t.accepted)| + l.droppedRecords == t.records
  {
    hide Text, Retained, AllClean;
  }
}
