/**
 Reading the protocol log by cursor: every retained line is delivered once, whole and in order,
 however writes fall between the reader's two critical sections.
 */
module LogStream {
  import opened Sequences
  import opened ProtocolLog
  import opened LogHistory
  import opened Words

  // ---------------------------------------------------------------- sequence numbers in text

  function DigitOf(d: nat): (c: char)
    requires d < 10
    ensures Digit(c) && (c - '0') as nat == d
  {
    '0' + d as char
  }

  /** Decimal digits of a number, most significant first. */
  function Decimal(n: nat): string {
    if n < 10 then [DigitOf(n)] else Decimal(n / 10) + [DigitOf(n % 10)]
  }

  lemma DecimalDigits(n: nat)
    ensures Decimal(n) != "" && Clean(Decimal(n))
  {}

  lemma ParseDigit(d: nat, rest: string, value: nat)
    requires d < 10
    ensures ParseDigits([DigitOf(d)] + rest, value) == ParseDigits(rest, U32(value * 10 + d))
  {
    assert ([DigitOf(d)] + rest)[1..] == rest;
  }

  lemma {:induction false} ParseInvertsDecimal(n: nat, rest: string)
    requires n < UINT32
    ensures ParseDigits(Decimal(n) + rest, 0) == ParseDigits(rest, n)
  {
    hide ParseDigits, DigitOf;
    ParseDigit(n % 10, rest, n / 10);
    assert U32(n / 10 * 10 + n % 10) == n;
    if n >= 10 {
      var d := [DigitOf(n % 10)];
      ParseInvertsDecimal(n / 10, d + rest);
      Assoc(Decimal(n / 10), d, rest);
    }
  }

  /** A line as the writers print it: sequence number first, then the rest of the object. */
  function Record(n: nat, rest: string): string {
    PREFIX + Decimal(n) + rest
  }

  predicate RestOk(rest: string) {
    Clean(rest) && (rest == "" || !Digit(rest[0]))
  }

  lemma RecordSeq(n: nat, rest: string)
    requires n < UINT32 && RestOk(rest)
    ensures LineSeq(Record(n, rest)) == n
    ensures Clean(Record(n, rest))
  {
    var line := Record(n, rest);
    DecimalDigits(n);
    assert line[..|PREFIX|] == PREFIX && line[|PREFIX|..] == Decimal(n) + rest;
    ParseInvertsDecimal(n, rest);
  }

  // ---------------------------------------------------------------- lines of a text

  lemma {:induction false} LinesOfText(lines: seq<string>)
    requires AllClean(lines)
    ensures Lines(Text(lines)) == lines
  {
    if lines != [] {
      LinesOfText(lines[1..]);
      LinesStep(lines[0], Text(lines[1..]));
    }
  }

  lemma CutInside(line: string, rest: string, n: nat)
    requires Clean(line) && n <= |line|
    ensures Lines((line + "\n" + rest)[..n]) == []
  {
    assert (line + "\n" + rest)[..n] == line[..n];
  }

  lemma CutBehind(line: string, rest: string, n: nat)
    requires Clean(line) && n <= |rest|
    ensures Lines((line + "\n" + rest)[..|line| + 1 + n]) == [line] + Lines(rest[..n])
  {
    assert (line + "\n" + rest)[..|line| + 1 + n] == line + "\n" + rest[..n];
    LinesStep(line, rest[..n]);
  }

  lemma PrefixCons(lines: seq<string>, k: nat)
    requires k < |lines|
    ensures [lines[0]] + lines[1..][..k] == lines[..k + 1]
  {}

  lemma TextOfTake(lines: seq<string>, k: nat)
    requires k < |lines|
    ensures Text(lines[..k + 1]) == (lines[0] + "\n") + Text(lines[1..][..k])
  {
    assert lines[..k + 1][0] == lines[0] && lines[..k + 1][1..] == lines[1..][..k];
  }

  /** A cut anywhere in a text leaves a prefix of its lines: those that end within the cut. */
  lemma {:induction false} LinesOfPrefix(lines: seq<string>, n: nat) returns (k: nat)
    requires AllClean(lines) && n <= |Text(lines)|
    ensures k <= |lines| && Lines(Text(lines)[..n]) == lines[..k]
    ensures n == |Text(lines)| ==> k == |lines|
    ensures |Text(lines[..k])| <= n && (k < |lines| ==> n < |Text(lines[..k + 1])|)
  {
    assert Text([]) == "";
    if lines == [] {
      k := 0;
    } else {
      var line, rest := lines[0], Text(lines[1..]);
      assert Text(lines) == line + "\n" + rest && |Text(lines)| == |line| + 1 + |rest|;
      hide Text, Lines, Clean;
      TextOfTake(lines, 0);
      if n <= |line| {
        CutInside(line, rest, n);
        k := 0;
        assert lines[..0] == [];
      } else {
        var m := n - |line| - 1;
        CutBehind(line, rest, m);
        k := LinesOfPrefix(lines[1..], m);
        PrefixCons(lines, k);
        TextOfTake(lines, k);
        if k + 1 < |lines| {
          TextOfTake(lines, k + 1);
        }
        k := k + 1;
      }
    }
  }

  /**
   What a reader of the whole log copies: if nothing was evicted between its looks, what the log held at the
   first; in any case some whole lines of the second look and the beginning of one more, which is missing exactly
   if the length at the first look ends a line of the second or covers it all.
   */
  lemma BodyIsLines(first: Log, second: Log, lines: seq<string>) returns (k: nat, tail: string)
    requires AllClean(lines) && second.contents == Text(lines)
    ensures first.contents <= second.contents ==> Snapshot(first, second) == first.contents
    ensures k <= |lines| && Snapshot(first, second) == Text(lines[..k]) + tail
    ensures Lines(Snapshot(first, second)) == lines[..k]
    ensures k < |lines| ==> tail < lines[k] + "\n"
    ensures tail == "" <==> |second.contents| <= |first.contents|
                            || exists j :: 0 <= j <= |lines| && |first.contents| == |Text(lines[..j])|
  {
    var n := if |first.contents| <= |second.contents| then |first.contents| else |second.contents|;
    k := LinesOfPrefix(lines, n);
    tail := CutTail(lines, k, n);
    hide Text, Lines, Clean;
    OneBoundary(lines, k, n);
    assert lines[..|lines|] == lines;
  }

  /** The cut text: whole lines, and the beginning of the next. */
  lemma CutTail(lines: seq<string>, k: nat, n: nat) returns (tail: string)
    requires k <= |lines| && |Text(lines[..k])| <= n <= |Text(lines)|
    requires k < |lines| ==> n < |Text(lines[..k + 1])|
    ensures Text(lines)[..n] == Text(lines[..k]) + tail
    ensures k < |lines| ==> tail < lines[k] + "\n"
    ensures |tail| == n - |Text(lines[..k])|
  {
    var whole, rest := Text(lines[..k]), Text(lines[k..]);
    assert lines == lines[..k] + lines[k..];
    TextConcat(lines[..k], lines[k..]);
    tail := rest[..n - |whole|];
    if k < |lines| {
      TextSnoc(lines[..k], lines[k]);
      assert lines[..k + 1] == lines[..k] + [lines[k]];
      assert rest == (lines[k] + "\n") + Text(lines[k..][1..]);
      hide Text;
      assert tail == (lines[k] + "\n")[..n - |whole|];
    }
  }

  /** The texts of the prefixes grow with every line. */
  lemma OneBoundary(lines: seq<string>, k: nat, n: nat)
    requires k <= |lines| && |Text(lines[..k])| <= n && (k < |lines| ==> n < |Text(lines[..k + 1])|)
    ensures forall j :: 0 <= j <= |lines| && |Text(lines[..j])| == n ==> j == k
  {
    forall j | 0 <= j <= |lines| && |Text(lines[..j])| == n ensures j == k {
      if j < k {
        PrefixGrows(lines, j + 1, k);
        assert lines[..j + 1] == lines[..j] + [lines[j]];
        TextSnoc(lines[..j], lines[j]);
      } else if k < j {
        PrefixGrows(lines, k + 1, j);
      }
    }
  }

  lemma PrefixGrows(lines: seq<string>, i: nat, j: nat)
    requires i <= j <= |lines|
    ensures |Text(lines[..i])| <= |Text(lines[..j])|
  {
    assert lines[..j] == lines[..i] + lines[i..j];
    TextConcat(lines[..i], lines[i..j]);
  }

  // ---------------------------------------------------------------- one chunk

  ghost predicate Increasing(lines: seq<string>) {
    forall i, j :: 0 <= i < j < |lines| ==> LineSeq(lines[i]) < LineSeq(lines[j])
  }

  ghost predicate AllBelow(lines: seq<string>, cursor: nat) {
    forall i :: 0 <= i < |lines| ==> LineSeq(lines[i]) < cursor
  }

  ghost predicate AllFrom(lines: seq<string>, cursor: nat) {
    forall i :: 0 <= i < |lines| ==> cursor <= LineSeq(lines[i])
  }

  /** How many leading lines the reader has already seen. */
  function Seen(lines: seq<string>, cursor: nat): (k: nat)
    ensures k <= |lines|
  {
    if lines == [] || cursor <= LineSeq(lines[0]) then 0 else 1 + Seen(lines[1..], cursor)
  }

  lemma {:induction false} SeenSplits(lines: seq<string>, cursor: nat)
    requires Increasing(lines)
    ensures AllBelow(lines[..Seen(lines, cursor)], cursor)
    ensures AllFrom(lines[Seen(lines, cursor)..], cursor)
  {
    hide LineSeq;
    if lines != [] && LineSeq(lines[0]) < cursor {
      SeenSplits(lines[1..], cursor);
      var k := Seen(lines[1..], cursor);
      assert lines[..k + 1] == [lines[0]] + lines[1..][..k];
      assert lines[k + 1..] == lines[1..][k..];
    }
  }

  lemma {:induction false} PickSkips(lines: seq<string>, cursor: nat, maxBytes: nat, sofar: Chunk)
    ensures Pick(lines, cursor, maxBytes, sofar)
         == Pick(lines[Seen(lines, cursor)..], cursor, maxBytes, sofar)
  {
    hide LineSeq;
    if lines != [] && LineSeq(lines[0]) < cursor {
      PickSkips(lines[1..], cursor, maxBytes, sofar);
      assert lines[Seen(lines, cursor)..] == lines[1..][Seen(lines[1..], cursor)..];
    }
  }

  /** From the cursor on, the reader takes a leading block of lines, as many as fit. */
  lemma {:induction false} PickTakes(lines: seq<string>, cursor: nat, maxBytes: nat, sofar: Chunk) returns (k: nat)
    requires AllFrom(lines, cursor)
    ensures k <= |lines|
    ensures Pick(lines, cursor, maxBytes, sofar).body == sofar.body + Text(lines[..k])
    ensures Pick(lines, cursor, maxBytes, sofar).lastSeq
         == if k == 0 then sofar.lastSeq else LineSeq(lines[k - 1])
    ensures sofar.body == "" && lines != [] ==> k > 0
    ensures k > 0 && (sofar.body != "" || k > 1) ==> |sofar.body + Text(lines[..k])| <= maxBytes
    ensures k < |lines| ==> |sofar.body + Text(lines[..k + 1])| > maxBytes
    decreases |lines|
  {
    hide LineSeq;
    k := 0;
    if lines == [] {
      assert sofar.body + "" == sofar.body;
    } else {
      var line := lines[0];
      var body := sofar.body + line + "\n";
      assert lines[..1] == [line] && Text([line]) == (line + "\n") + "";
      if sofar.body != "" && |sofar.body| + (|line| + 1) > maxBytes {
        assert sofar.body + "" == sofar.body;
      } else {
        k := PickTakes(lines[1..], cursor, maxBytes, Chunk(body, LineSeq(line)));
        TakeOneMore(sofar.body, lines, k);
        if k < |lines| - 1 {
          TakeOneMore(sofar.body, lines, k + 1);
        }
        k := k + 1;
      }
    }
  }

  lemma TakeOneMore(body: string, lines: seq<string>, k: nat)
    requires lines != [] && k < |lines|
    ensures (body + lines[0] + "\n") + Text(lines[1..][..k]) == body + Text(lines[..k + 1])
  {
    var more := lines[..k + 1];
    assert more[0] == lines[0] && more[1..] == lines[1..][..k];
    Assoc(body, lines[0], "\n");
    Assoc(body, lines[0] + "\n", Text(more[1..]));
  }

  // ---------------------------------------------------------------- one writer, one reader

  /** What other tasks do: write a line (allocating its number and appending it), or switch the log. */
  datatype Event = Write(rest: string, force: bool) | Switch(on: bool)

  function Stored(l: Log, e: Event): bool {
    e.Write? && (e.force || l.enabled)
  }

  /** The operations of one event; a refused line takes no number. */
  function OpsOf(l: Log, e: Event): seq<Op> {
    match e
    case Switch(on) => [Enable(on)]
    case Write(rest, force) =>
      if Stored(l, e) then [Take, Append(Record(l.nextSeq, rest), force)] else []
  }

  function After(l: Log, e: Event): Log {
    Run(l, OpsOf(l, e))
  }

  function AfterAll(l: Log, events: seq<Event>): Log
    decreases |events|
  {
    if events == [] then l else AfterAll(After(l, events[0]), events[1..])
  }

  predicate Proper(e: Event) { e.Write? ==> RestOk(e.rest) }

  ghost predicate AllProper(events: seq<Event>) {
    forall i :: 0 <= i < |events| ==> Proper(events[i])
  }

  function Written(l: Log, written: seq<string>, e: Event): seq<string> {
    if Stored(l, e) then written + [Record(l.nextSeq, e.rest)] else written
  }

  /** Every line ever numbered, in order: number `n` is entry `n - 1`. */
  function WrittenAll(l: Log, written: seq<string>, events: seq<Event>): seq<string>
    decreases |events|
  {
    if events == [] then written
    else WrittenAll(After(l, events[0]), Written(l, written, events[0]), events[1..])
  }

  /** These lines are genuine: each is what was written under its own number. */
  ghost predicate Genuine(lines: seq<string>, written: seq<string>) {
    forall i :: 0 <= i < |lines| ==>
      1 <= LineSeq(lines[i]) <= |written| && written[LineSeq(lines[i]) - 1] == lines[i]
  }

  /** The log holds genuine lines in order. */
  ghost predicate Orderly(l: Log, lines: seq<string>, written: seq<string>) {
    && l.ready
    && l.droppedRecords < UINT32 && l.droppedBytes < UINT32
    && l.contents == Text(lines) && |l.contents| <= CAPACITY
    && AllClean(lines) && Increasing(lines) && Genuine(lines, written)
  }

  /** The next number follows the last one given out. */
  ghost predicate Holds(l: Log, lines: seq<string>, written: seq<string>) {
    Orderly(l, lines, written) && l.nextSeq == |written| + 1
  }

  lemma RunTwo(l: Log, a: Op, b: Op)
    ensures Run(l, [a, b]) == Step(Step(l, a), b)
  {
    assert [a, b][..1] == [a] && [a][..0] == [];
    assert Run(l, [a]) == Step(Run(l, []), a);
  }

  lemma RunOne(l: Log, a: Op)
    ensures Run(l, [a]) == Step(l, a)
  {
    assert [a][..0] == [];
  }

  lemma OneMoreGenuine(lines: seq<string>, written: seq<string>, record: string)
    requires AllClean(lines) && Increasing(lines) && Genuine(lines, written)
    requires Clean(record) && LineSeq(record) == |written| + 1
    ensures var now := lines + [record];
      AllClean(now) && Increasing(now) && Genuine(now, written + [record])
  {
    hide LineSeq;
  }

  lemma SuffixHolds(lines: seq<string>, written: seq<string>, k: nat)
    requires k <= |lines| && AllClean(lines) && Increasing(lines) && Genuine(lines, written)
    ensures AllClean(lines[k..]) && Increasing(lines[k..]) && Genuine(lines[k..], written)
  {
    hide LineSeq;
  }

  function Appended(l: Log, line: string): Log
    requires |line| + 1 <= CAPACITY
  {
    var e := EvictFor(l, |line| + 1);
    e.(contents := e.contents + (line + "\n"))
  }

  lemma AppendHolds(l: Log, lines: seq<string>, written: seq<string>, record: string)
    requires Holds(l, lines, written) && |record| + 1 <= CAPACITY
    requires Clean(record) && LineSeq(record) == l.nextSeq
    ensures Orderly(Appended(TakeSeq(l), record), KeepFor(lines, |record| + 1) + [record], written + [record])
    ensures Appended(TakeSeq(l), record).nextSeq == U32(l.nextSeq + 1)
  {
    var needed := |record| + 1;
    var kept := KeepFor(lines, needed);
    EvictsLines(TakeSeq(l), lines, needed);
    KeepIsLongest(lines, needed);
    SuffixHolds(lines, written, |lines| - |kept|);
    OneMoreGenuine(kept, written, record);
    TextSnoc(kept, record);
    hide LineSeq, Text, EvictFor, KeepFor, AllClean, Increasing, Genuine;
  }

  /** A write stores its line behind what eviction leaves, or, if oversized, changes nothing stored. */
  lemma WriteKeeps(l: Log, lines: seq<string>, written: seq<string>, e: Event) returns (now: seq<string>)
    requires Holds(l, lines, written) && Proper(e) && |Written(l, written, e)| + 1 < UINT32
    ensures Holds(After(l, e), now, Written(l, written, e))
    ensures forall i :: 0 <= i < |now| ==> now[i] in lines || (LineSeq(now[i]) == l.nextSeq && Stored(l, e))
  {
    now := lines;
    if Stored(l, e) {
      now := StoreKeeps(l, lines, written, e);
    } else if e.Switch? {
      RunOne(l, Enable(e.on));
      hide LineSeq, Text, Run, AllClean, Increasing, Genuine;
    } else {
      assert Run(l, []) == l;
    }
  }

  lemma Stores(l: Log, e: Event)
    requires l.ready && Stored(l, e)
    ensures var record := Record(l.nextSeq, e.rest);
      After(l, e) == if |record| + 1 <= CAPACITY then Appended(TakeSeq(l), record)
                     else TakeSeq(l).(droppedRecords := U32(l.droppedRecords + 1),
                                      droppedBytes := U32(l.droppedBytes + (|record| + 1)))
  {
    hide EvictFor, Record, Run;
    RunTwo(l, Take, Append(Record(l.nextSeq, e.rest), e.force));
  }

  lemma KeptAreOld(lines: seq<string>, needed: nat)
    requires needed <= CAPACITY
    ensures forall i :: 0 <= i < |KeepFor(lines, needed)| ==> KeepFor(lines, needed)[i] in lines
  {
    KeepIsLongest(lines, needed);
    hide KeepFor, Text;
  }

  lemma StoreKeeps(l: Log, lines: seq<string>, written: seq<string>, e: Event) returns (now: seq<string>)
    requires Holds(l, lines, written) && Proper(e) && Stored(l, e) && |written| + 2 < UINT32
    ensures Holds(After(l, e), now, Written(l, written, e))
    ensures forall i :: 0 <= i < |now| ==> now[i] in lines || LineSeq(now[i]) == l.nextSeq
  {
    var record := Record(l.nextSeq, e.rest);
    RecordSeq(l.nextSeq, e.rest);
    Stores(l, e);
    hide LineSeq, Record, Text, After, EvictFor, AllClean, Increasing;
    if |record| + 1 <= CAPACITY {
      AppendHolds(l, lines, written, record);
      hide Genuine, Orderly, KeepFor;
      KeptAreOld(lines, |record| + 1);
      now := KeepFor(lines, |record| + 1) + [record];
    } else {
      now := lines;
    }
  }

  /** No event loses a number, and no line that is gone comes back. */
  lemma {:induction false} EventsKeep(l: Log, lines: seq<string>, written: seq<string>, events: seq<Event>)
    returns (now: seq<string>)
    requires Holds(l, lines, written) && AllProper(events)
    requires |WrittenAll(l, written, events)| + 1 < UINT32
    ensures Holds(AfterAll(l, events), now, WrittenAll(l, written, events))
    ensures forall i :: 0 <= i < |now| ==> now[i] in lines || l.nextSeq <= LineSeq(now[i])
    decreases |events|
  {
    now := lines;
    if events != [] {
      var e, rest := events[0], events[1..];
      WrittenGrows(After(l, e), Written(l, written, e), rest);
      var mid := WriteKeeps(l, lines, written, e);
      now := EventsKeep(After(l, e), mid, Written(l, written, e), rest);
      hide LineSeq, AllClean, Increasing, Genuine, Text, Run, Record, OpsOf, After;
    }
  }

  lemma {:induction false} WrittenGrows(l: Log, written: seq<string>, events: seq<Event>)
    ensures written <= WrittenAll(l, written, events)
    decreases |events|
  {
    if events != [] {
      hide After, Record;
      WrittenGrows(After(l, events[0]), Written(l, written, events[0]), events[1..]);
    }
  }

  /** The reader's choice among the lines it sees: from the first new one, as many as fit. */
  lemma PickBlock(seen: seq<string>, cursor: nat, maxBytes: nat) returns (i: nat, j: nat)
    requires Increasing(seen)
    ensures i <= j <= |seen| && AllBelow(seen[..i], cursor) && AllFrom(seen[i..], cursor)
    ensures i < |seen| ==> i < j
    ensures var chunk := Pick(seen, cursor, maxBytes, Chunk("", 0));
      && chunk.body == Text(seen[i..j])
      && chunk.lastSeq == (if i < j then LineSeq(seen[j - 1]) else 0)
      && (j > i + 1 ==> |chunk.body| <= maxBytes)
      && (j < |seen| ==> |Text(seen[i..j + 1])| > maxBytes)
  {
    i := Seen(seen, cursor);
    SeenSplits(seen, cursor);
    PickSkips(seen, cursor, maxBytes, Chunk("", 0));
    var taken := PickTakes(seen[i..], cursor, maxBytes, Chunk("", 0));
    j := i + taken;
    hide LineSeq, Pick, Seen, Text, AllBelow, AllFrom, Increasing;
    BlockOfRest(seen, i, taken);
    if j < |seen| {
      BlockOfRest(seen, i, taken + 1);
    }
  }

  lemma BlockOfRest(seen: seq<string>, i: nat, n: nat)
    requires i + n <= |seen|
    ensures seen[i..][..n] == seen[i..i + n] && "" + Text(seen[i..i + n]) == Text(seen[i..i + n])
  {
    hide Text;
  }

  /** One call of the reader takes a block of whole lines, from the first one not yet seen. */
  lemma ReadTakes(first: Log, second: Log, lines: seq<string>, cursor: nat, maxBytes: nat)
    returns (i: nat, j: nat)
    requires AllClean(lines) && Increasing(lines) && second.contents == Text(lines)
    requires forall n :: 0 <= n < |lines| ==> 1 <= LineSeq(lines[n]) < UINT32 - 1
    requires cursor < first.nextSeq <= second.nextSeq
    ensures i <= j <= |lines| && AllBelow(lines[..i], cursor) && AllFrom(lines[i..j], cursor)
    ensures var reply := Since(first, second, cursor, maxBytes);
      && reply.body == Text(lines[i..j])
      && (j > i + 1 ==> |reply.body| <= maxBytes)
      && reply.nextCursor == (if i < j then LineSeq(lines[j - 1]) + 1 else cursor)
    ensures |second.contents| <= |first.contents| ==> i < j || AllBelow(lines, cursor)
  {
    SinceIs(first, second, cursor, maxBytes);
    var n := if |first.contents| <= |second.contents| then |first.contents| else |second.contents|;
    var k := LinesOfPrefix(lines, n);
    assert Snapshot(first, second) == Text(lines)[..n];
    hide Lines, Text, Pick, LineSeq, Since, Snapshot, AllClean;
    i, j := PickFromPrefix(lines, k, cursor, maxBytes);
    hide *;
  }

  lemma PickFromPrefix(lines: seq<string>, k: nat, cursor: nat, maxBytes: nat) returns (i: nat, j: nat)
    requires k <= |lines| && Increasing(lines)
    requires forall n :: 0 <= n < |lines| ==> 1 <= LineSeq(lines[n]) < UINT32 - 1
    ensures i <= j <= |lines| && AllBelow(lines[..i], cursor) && AllFrom(lines[i..j], cursor)
    ensures var chunk := Pick(lines[..k], cursor, maxBytes, Chunk("", 0));
      && chunk.body == Text(lines[i..j])
      && (j > i + 1 ==> |chunk.body| <= maxBytes)
      && (if chunk.lastSeq != 0 then U32(chunk.lastSeq + 1) else cursor)
         == (if i < j then LineSeq(lines[j - 1]) + 1 else cursor)
    ensures k == |lines| ==> i < j || AllBelow(lines, cursor)
  {
    hide LineSeq, Pick, Text, Increasing, AllBelow, AllFrom;
    var seen := lines[..k];
    PrefixIncreases(lines, k);
    i, j := PickBlock(seen, cursor, maxBytes);
    BlockOfPrefix(lines, k, i, j);
    SubBlock(seen[i..], j - i, cursor);
  }

  lemma PrefixIncreases(lines: seq<string>, k: nat)
    requires k <= |lines| && Increasing(lines)
    ensures Increasing(lines[..k])
  {
    hide LineSeq;
  }

  lemma BlockOfPrefix(lines: seq<string>, k: nat, i: nat, j: nat)
    requires i <= j <= k <= |lines|
    ensures var seen := lines[..k];
      && seen[..i] == lines[..i] && seen[i..j] == lines[i..j] && seen[i..][..j - i] == lines[i..j]
      && (i < j ==> seen[j - 1] == lines[j - 1])
      && (k == |lines| && i == k ==> seen[..i] == lines)
  {}

  lemma SubBlock(lines: seq<string>, n: nat, cursor: nat)
    requires n <= |lines| && AllFrom(lines, cursor)
    ensures AllFrom(lines[..n], cursor)
  {
    hide LineSeq;
  }

  lemma SinceIs(first: Log, second: Log, cursor: nat, maxBytes: nat)
    requires cursor < first.nextSeq <= second.nextSeq
    ensures var chunk := Pick(Lines(Snapshot(first, second)), cursor, maxBytes, Chunk("", 0));
      Since(first, second, cursor, maxBytes)
      == Reply(chunk.body, if chunk.lastSeq != 0 then U32(chunk.lastSeq + 1) else cursor)
  {}

  // ---------------------------------------------------------------- whole runs

  /**
   The log with everything written to it since it was last cleared, and one reader: the number it started
   from, its cursor, and everything it was sent since.
   */
  datatype Stream = Stream(log: Log, written: seq<string>, from: nat, cursor: nat, sent: string)

  /** The operations another task performs for these events, as a list for the ring buffer. */
  function OpsOfAll(l: Log, events: seq<Event>): seq<Op>
    decreases |events|
  {
    if events == [] then [] else OpsOf(l, events[0]) + OpsOfAll(After(l, events[0]), events[1..])
  }

  lemma {:induction false} RunConcat(l: Log, a: seq<Op>, b: seq<Op>)
    ensures Run(l, a + b) == Run(Run(l, a), b)
    decreases |b|
  {
    hide Step;
    if b == [] {
      assert a + b == a;
    } else {
      var ops := a + b;
      RunConcat(l, a, b[..|b| - 1]);
      assert ops[..|ops| - 1] == a + b[..|b| - 1];
    }
  }

  lemma {:induction false} AfterAllIsRun(l: Log, events: seq<Event>)
    ensures AfterAll(l, events) == Run(l, OpsOfAll(l, events))
    decreases |events|
  {
    if events != [] {
      hide OpsOf;
      AfterAllIsRun(After(l, events[0]), events[1..]);
      RunConcat(l, OpsOf(l, events[0]), OpsOfAll(After(l, events[0]), events[1..]));
    } else {
      assert Run(l, []) == l;
    }
  }

  /**
   What happens to the stream. A clear request empties the log, writes a control line (other tasks may write
   first) and sets the reader back to number 1; a reader that connects starts at the next number.
   */
  datatype Action =
    | Do(event: Event)
    | Read(maxBytes: nat, between: seq<Event>)
    | ClearRequest(between: seq<Event>, rest: string)
    | Connect

  function ClearEvents(between: seq<Event>, rest: string): seq<Event> {
    between + [Write(rest, true)]
  }

  function Act(s: Stream, a: Action): Stream {
    match a
    case Do(e) => s.(log := After(s.log, e), written := Written(s.log, s.written, e))
    case Read(maxBytes, between) =>
      var second := AfterAll(s.log, between);
      var reply := Since(s.log, second, s.cursor, maxBytes);
      Stream(second, WrittenAll(s.log, s.written, between), s.from, reply.nextCursor, s.sent + reply.body)
    case ClearRequest(between, rest) =>
      var cleared, events := Clear(s.log), ClearEvents(between, rest);
      Stream(AfterAll(cleared, events), WrittenAll(cleared, [], events), 1, 1, "")
    case Connect => s.(from := s.log.nextSeq, cursor := s.log.nextSeq, sent := "")
  }

  function ActAll(s: Stream, actions: seq<Action>): Stream
    decreases |actions|
  {
    if actions == [] then s else Act(ActAll(s, actions[..|actions| - 1]), actions[|actions| - 1])
  }

  ghost predicate ProperAction(a: Action) {
    match a
    case Do(e) => Proper(e)
    case Read(_, between) => AllProper(between)
    case ClearRequest(between, rest) => AllProper(between) && RestOk(rest)
    case Connect => true
  }

  /** No clear-to-clear stretch of the run gives out the last 32-bit number. */
  ghost predicate NeverWraps(s: Stream, actions: seq<Action>) {
    forall k :: 0 <= k <= |actions| ==> |ActAll(s, actions[..k]).written| + 1 < UINT32
  }

  ghost predicate Between(lines: seq<string>, from: nat, to: nat) {
    forall i :: 0 <= i < |lines| ==> from <= LineSeq(lines[i]) < to
  }

  /** Every retained line the cursor has passed was sent. */
  ghost predicate NoneSkipped(kept: seq<string>, got: seq<string>, from: nat, cursor: nat) {
    forall i :: 0 <= i < |kept| && from <= LineSeq(kept[i]) < cursor ==> kept[i] in got
  }

  /** `got` is what the reader was sent since it started at `from`, `kept` what the log retains. */
  ghost predicate Delivered(s: Stream, kept: seq<string>, got: seq<string>, from: nat) {
    && Holds(s.log, kept, s.written)
    && 1 <= from <= s.cursor <= s.log.nextSeq
    && s.sent == Text(got) && AllClean(got)
    && Increasing(got) && Genuine(got, s.written) && Between(got, from, s.cursor)
    && NoneSkipped(kept, got, from, s.cursor)
  }

  lemma GenuineLater(lines: seq<string>, written: seq<string>, later: seq<string>)
    requires Genuine(lines, written) && written <= later
    ensures Genuine(lines, later)
  {
    hide LineSeq;
  }

  /** Writes leave the reader's books in order: what they evict stays gone, what they add is ahead. */
  lemma WritesDeliver(s: Stream, kept: seq<string>, got: seq<string>, from: nat, events: seq<Event>)
    returns (now: seq<string>)
    requires Delivered(s, kept, got, from) && AllProper(events)
    requires |WrittenAll(s.log, s.written, events)| + 1 < UINT32
    ensures Delivered(s.(log := AfterAll(s.log, events), written := WrittenAll(s.log, s.written, events)),
                      now, got, from)
  {
    now := EventsKeep(s.log, kept, s.written, events);
    WrittenGrows(s.log, s.written, events);
    GenuineLater(got, s.written, WrittenAll(s.log, s.written, events));
    hide LineSeq, Genuine, Increasing, AllClean, AfterAll, WrittenAll, Text, AllProper, Between;
  }

  lemma {:induction false} TextConcat(a: seq<string>, b: seq<string>)
    ensures Text(a + b) == Text(a) + Text(b)
  {
    if a == [] {
      assert a + b == b && "" + Text(b) == Text(b);
    } else {
      TextConcat(a[1..], b);
      assert (a + b)[1..] == a[1..] + b;
      Assoc(a[0] + "\n", Text(a[1..]), Text(b));
    }
  }

  lemma SliceOk(lines: seq<string>, written: seq<string>, i: nat, j: nat, cursor: nat)
    requires i <= j <= |lines| && AllFrom(lines[i..j], cursor)
    requires AllClean(lines) && Increasing(lines) && Genuine(lines, written)
    ensures var block := lines[i..j];
      && AllClean(block) && Increasing(block) && Genuine(block, written)
      && (i < j ==> cursor <= LineSeq(lines[j - 1]) && Between(block, cursor, LineSeq(lines[j - 1]) + 1))
  {
    hide LineSeq, Clean;
    if i < j {
      var block := lines[i..j];
      assert block[j - 1 - i] == lines[j - 1];
    }
  }

  lemma JoinOk(got: seq<string>, block: seq<string>, written: seq<string>, from: nat, mid: nat, to: nat)
    requires AllClean(got) && Increasing(got) && Genuine(got, written) && Between(got, from, mid)
    requires AllClean(block) && Increasing(block) && Genuine(block, written) && Between(block, mid, to)
    requires from <= mid <= to
    ensures var all := got + block;
      AllClean(all) && Increasing(all) && Genuine(all, written) && Between(all, from, to)
  {
    hide LineSeq, Clean;
  }

  lemma BlockSkipsNone(kept: seq<string>, got: seq<string>, from: nat, cursor: nat, i: nat, j: nat)
    requires Increasing(kept) && NoneSkipped(kept, got, from, cursor)
    requires i < j <= |kept| && AllBelow(kept[..i], cursor)
    ensures NoneSkipped(kept, got + kept[i..j], from, LineSeq(kept[j - 1]) + 1)
  {
    hide LineSeq;
    var all := got + kept[i..j];
    forall n | 0 <= n < |kept| && from <= LineSeq(kept[n]) < LineSeq(kept[j - 1]) + 1
      ensures kept[n] in all
    {
      if n < i {
        assert kept[..i][n] == kept[n];
      } else if n < j {
        assert kept[i..j][n - i] == kept[n];
      }
    }
  }

  /** A read whose cursor is already at the end changes nothing. */
  lemma IdleRead(s: Stream, maxBytes: nat, between: seq<Event>)
    requires s.cursor == s.log.nextSeq
    ensures Act(s, Read(maxBytes, between))
         == s.(log := AfterAll(s.log, between), written := WrittenAll(s.log, s.written, between))
  {
    hide AfterAll, WrittenAll;
    assert s.sent + "" == s.sent;
  }

  /** One read delivers one block of the lines retained at its second look. */
  lemma ReadDelivers(s: Stream, kept: seq<string>, got: seq<string>, from: nat, maxBytes: nat, between: seq<Event>)
    returns (now: seq<string>, i: nat, j: nat)
    requires Delivered(s, kept, got, from) && AllProper(between)
    requires |WrittenAll(s.log, s.written, between)| + 1 < UINT32
    ensures i <= j <= |now|
    ensures var after := Act(s, Read(maxBytes, between));
      && Delivered(after, now, got + now[i..j], from)
      && after.sent == s.sent + Text(now[i..j])
      && (j > i + 1 ==> |Text(now[i..j])| <= maxBytes)
      && AllFrom(now[i..j], s.cursor)
      && (between == [] ==> i < j || AllBelow(now, s.cursor))
  {
    var second := s.(log := AfterAll(s.log, between), written := WrittenAll(s.log, s.written, between));
    now := WritesDeliver(s, kept, got, from, between);
    if s.cursor == s.log.nextSeq {
      IdleRead(s, maxBytes, between);
      i, j := 0, 0;
      IdleDelivers(s, second, now, got, from);
      assert between == [] ==> s.log == second.log;
    } else {
      NumbersGrow(s.log, kept, s.written, between);
      InRange(second.log, now, second.written);
      assert between == [] ==> s.log == second.log;
      i, j := ReadTakes(s.log, second.log, now, s.cursor, maxBytes);
      var reply := Since(s.log, second.log, s.cursor, maxBytes);
      BlockDelivers(second, now, got, from, i, j);
      hide Delivered, Text, Since, AllBelow, AllFrom, Increasing, AllClean, Genuine, LineSeq;
      assert Act(s, Read(maxBytes, between))
        == second.(cursor := reply.nextCursor, sent := s.sent + reply.body);
    }
  }

  lemma NumbersGrow(l: Log, kept: seq<string>, written: seq<string>, between: seq<Event>)
    requires Holds(l, kept, written) && AllProper(between)
    requires |WrittenAll(l, written, between)| + 1 < UINT32
    ensures l.nextSeq <= AfterAll(l, between).nextSeq
  {
    var now := EventsKeep(l, kept, written, between);
    WrittenGrows(l, written, between);
  }

  lemma InRange(l: Log, lines: seq<string>, written: seq<string>)
    requires Holds(l, lines, written) && |written| + 1 < UINT32
    ensures forall n :: 0 <= n < |lines| ==> 1 <= LineSeq(lines[n]) < UINT32 - 1
  {
    hide LineSeq;
  }

  lemma IdleDelivers(s: Stream, second: Stream, now: seq<string>, got: seq<string>, from: nat)
    requires Delivered(second, now, got, from) && s.cursor == second.cursor
    requires Genuine(now, second.written)
    ensures Delivered(second, now, got + now[0..0], from)
    ensures second.sent == second.sent + Text(now[0..0])
  {
    assert got + now[0..0] == got;
  }

  lemma BlockDelivers(s: Stream, kept: seq<string>, got: seq<string>, from: nat, i: nat, j: nat)
    requires Delivered(s, kept, got, from)
    requires i <= j <= |kept| && AllBelow(kept[..i], s.cursor) && AllFrom(kept[i..j], s.cursor)
    ensures Delivered(s.(cursor := if i < j then LineSeq(kept[j - 1]) + 1 else s.cursor,
                         sent := s.sent + Text(kept[i..j])), kept, got + kept[i..j], from)
  {
    SliceOk(kept, s.written, i, j, s.cursor);
    if i < j {
      JoinOk(got, kept[i..j], s.written, from, s.cursor, LineSeq(kept[j - 1]) + 1);
      BlockSkipsNone(kept, got, from, s.cursor, i, j);
    } else {
      assert got + kept[i..j] == got;
    }
    TextConcat(got, kept[i..j]);
    hide LineSeq, Text, AllClean, Increasing, Genuine, Between, NoneSkipped;
    hide AllBelow, AllFrom;
  }

  /** A reader starting somewhere in a log in order, nothing sent yet. */
  ghost predicate Started(s: Stream) {
    && Holds(s.log, Lines(s.log.contents), s.written)
    && 1 <= s.from == s.cursor <= s.log.nextSeq && s.sent == ""
  }

  lemma {:induction false} RunDelivers(s: Stream, actions: seq<Action>) returns (kept: seq<string>, got: seq<string>)
    requires Started(s) && NeverWraps(s, actions)
    requires forall i :: 0 <= i < |actions| ==> ProperAction(actions[i])
    ensures Delivered(ActAll(s, actions), kept, got, ActAll(s, actions).from)
    decreases |actions|
  {
    if actions == [] {
      kept, got := Lines(s.log.contents), [];
    } else {
      var before, a := actions[..|actions| - 1], actions[|actions| - 1];
      var mid := ActAll(s, before);
      WrapsLater(s, actions);
      hide Delivered, ProperAction, NeverWraps, Act;
      kept, got := RunDelivers(s, before);
      kept, got := ActDelivers(mid, kept, got, a);
    }
  }

  lemma WrapsLater(s: Stream, actions: seq<Action>)
    requires NeverWraps(s, actions) && actions != []
    ensures NeverWraps(s, actions[..|actions| - 1])
    ensures |ActAll(s, actions).written| + 1 < UINT32
  {
    var before := actions[..|actions| - 1];
    hide Act;
    assert actions[..|actions|] == actions;
    forall k | 0 <= k <= |before| ensures |ActAll(s, before[..k]).written| + 1 < UINT32 {
      assert before[..k] == actions[..k];
    }
  }

  /** A cleared log starts anew, and so does its reader. */
  lemma ClearDelivers(s: Stream, between: seq<Event>, rest: string) returns (kept: seq<string>)
    requires s.log.ready && AllProper(between) && RestOk(rest)
    requires |Act(s, ClearRequest(between, rest)).written| + 1 < UINT32
    ensures Delivered(Act(s, ClearRequest(between, rest)), kept, [], 1)
  {
    var events := ClearEvents(between, rest);
    assert AllProper(events);
    assert Holds(Clear(s.log), [], []);
    hide Proper, AfterAll, WrittenAll, LineSeq, Orderly, Genuine, Increasing;
    kept := EventsKeep(Clear(s.log), [], [], events);
  }

  lemma ConnectDelivers(s: Stream, kept: seq<string>, got: seq<string>, from: nat)
    requires Delivered(s, kept, got, from)
    ensures Delivered(Act(s, Connect), kept, [], Act(s, Connect).from)
  {
    assert Text([]) == "";
    hide LineSeq, Text;
  }

  lemma ActDelivers(s: Stream, kept: seq<string>, got: seq<string>, a: Action)
    returns (kept': seq<string>, got': seq<string>)
    requires Delivered(s, kept, got, s.from) && ProperAction(a) && |Act(s, a).written| + 1 < UINT32
    ensures Delivered(Act(s, a), kept', got', Act(s, a).from)
  {
    match a
    case Do(e) =>
      OneEvent(s.log, s.written, e);
      kept' := WritesDeliver(s, kept, got, s.from, [e]);
      got' := got;
    case Read(maxBytes, between) =>
      var i, j;
      kept', i, j := ReadDelivers(s, kept, got, s.from, maxBytes, between);
      got' := got + kept'[i..j];
    case ClearRequest(between, rest) =>
      kept' := ClearDelivers(s, between, rest);
      got' := [];
    case Connect =>
      ConnectDelivers(s, kept, got, s.from);
      kept', got' := kept, [];
  }

  lemma OneEvent(l: Log, written: seq<string>, e: Event)
    ensures AfterAll(l, [e]) == After(l, e) && WrittenAll(l, written, [e]) == Written(l, written, e)
  {
    assert [e][1..] == [];
  }

  /**
   After any run of writes, reads, clear requests and new connections, in any interleaving: what the reader
   was sent since it connected or the log was cleared is a list of whole lines, each as written under its own
   number, in strictly increasing order, and every line the log still retains with a number the cursor has
   passed is among them.
   */
  lemma StreamIsExactlyOnce(s: Stream, actions: seq<Action>)
    requires Started(s) && NeverWraps(s, actions)
    requires forall i :: 0 <= i < |actions| ==> ProperAction(actions[i])
    ensures var end := ActAll(s, actions);
      Delivered(end, Lines(end.log.contents), Lines(end.sent), end.from)
  {
    var kept, got := RunDelivers(s, actions);
    LinesOfText(kept);
    LinesOfText(got);
  }

  /** An undisturbed read comes back empty exactly when the reader has every retained line. */
  lemma ReadProgresses(s: Stream, from: nat, maxBytes: nat)
    requires Delivered(s, Lines(s.log.contents), Lines(s.sent), from) && |s.written| + 1 < UINT32
    ensures Act(s, Read(maxBytes, [])).sent == s.sent <==> AllBelow(Lines(s.log.contents), s.cursor)
  {
    var now, i, j := ReadDelivers(s, Lines(s.log.contents), Lines(s.sent), from, maxBytes, []);
    NothingWritten(s, maxBytes, now, Lines(s.sent) + now[i..j], from);
    hide Lines, Act, Delivered, AllFrom, AllBelow, Text;
    BlockIsText(now, i, j, s.cursor);
    assert s.sent + "" == s.sent;
  }

  lemma NothingWritten(s: Stream, maxBytes: nat, now: seq<string>, got: seq<string>, from: nat)
    requires Delivered(Act(s, Read(maxBytes, [])), now, got, from)
    ensures now == Lines(s.log.contents)
  {
    hide Lines, Text, Since, Increasing, Genuine, Between, NoneSkipped;
    assert Act(s, Read(maxBytes, [])).log == s.log;
    LinesOfText(now);
  }

  lemma BlockIsText(lines: seq<string>, i: nat, j: nat, cursor: nat)
    requires i <= j <= |lines| && AllFrom(lines[i..j], cursor)
    ensures (Text(lines[i..j]) == "") == (i == j)
    ensures i < j ==> !AllBelow(lines, cursor)
  {
    hide LineSeq;
    if i < j {
      assert lines[i..j][0] == lines[i];
    }
  }
}
