/**
 Reading the protocol log by cursor when the 32-bit sequence numbers have wrapped, any number of times: what is
 sent, and exactly when a line is sent twice or lost. Lines are indexed without bound; a line carries its index
 modulo 2^32.
 */
module LogWrap {
  import opened LogHistory
  import opened LogStream
  import opened Options
  import opened ProtocolLog
  import opened Words

  // ---------------------------------------------------------------- what the log retains

  /** A retained line with its index: 1 for the first line written since the last clear. */
  datatype Entry = Entry(index: nat, line: string)

  function LinesOf(es: seq<Entry>): (lines: seq<string>)
    ensures |lines| == |es| && forall i :: 0 <= i < |es| ==> lines[i] == es[i].line
  {
    seq(|es|, i requires 0 <= i < |es| => es[i].line)
  }

  ghost predicate Sorted(es: seq<Entry>) {
    forall i, j :: 0 <= i < j < |es| ==> es[i].index < es[j].index
  }

  /** Each line is clean and carries its index modulo 2^32. */
  ghost predicate Marked(es: seq<Entry>) {
    forall i :: 0 <= i < |es| ==> Clean(es[i].line) && LineSeq(es[i].line) == U32(es[i].index)
  }

  /** Each is the line written under its index. */
  ghost predicate FromWritten(es: seq<Entry>, written: seq<string>) {
    forall i :: 0 <= i < |es| ==> 1 <= es[i].index <= |written| && written[es[i].index - 1] == es[i].line
  }

  ghost predicate Retains(l: Log, es: seq<Entry>, written: seq<string>) {
    && l.ready && l.droppedRecords < UINT32 && l.droppedBytes < UINT32
    && l.contents == Text(LinesOf(es)) && |l.contents| <= CAPACITY
    && l.nextSeq == U32(|written| + 1)
    && Sorted(es) && Marked(es) && FromWritten(es, written)
  }

  lemma MarkedIsClean(es: seq<Entry>)
    requires Marked(es)
    ensures AllClean(LinesOf(es))
  {
    hide LineSeq, Clean;
  }

  /** Every log of a run that has not wrapped retains lines in this sense, too. */
  lemma HoldsRetains(l: Log, lines: seq<string>, written: seq<string>) returns (es: seq<Entry>)
    requires Holds(l, lines, written) && |written| + 1 < UINT32
    ensures Retains(l, es, written) && LinesOf(es) == lines
  {
    hide LineSeq, Text;
    es := seq(|lines|, i requires 0 <= i < |lines| => Entry(LineSeq(lines[i]), lines[i]));
    assert LinesOf(es) == lines;
  }

  lemma NextMarked(es: seq<Entry>, written: seq<string>, d: nat, record: string)
    requires d <= |es| && Sorted(es) && Marked(es) && FromWritten(es, written)
    requires Clean(record) && LineSeq(record) == U32(|written| + 1)
    ensures var now := es[d..] + [Entry(|written| + 1, record)];
      && Sorted(now) && Marked(now) && FromWritten(now, written + [record])
      && LinesOf(now) == LinesOf(es)[d..] + [record]
  {
    hide LineSeq, Clean;
  }

  lemma EntriesStay(es: seq<Entry>, written: seq<string>, record: string)
    requires FromWritten(es, written)
    ensures FromWritten(es, written + [record])
  {}

  lemma StoreRetains(l: Log, es: seq<Entry>, written: seq<string>, record: string) returns (d: nat)
    requires Retains(l, es, written) && |record| + 1 <= CAPACITY
    requires Clean(record) && LineSeq(record) == l.nextSeq
    ensures d <= |es|
    ensures Retains(Appended(TakeSeq(l), record), es[d..] + [Entry(|written| + 1, record)], written + [record])
    ensures d > 0 ==> |Text(LinesOf(es)[d - 1..])| + |record| + 1 > CAPACITY
  {
    hide LineSeq, Text, EvictFor, KeepFor, AllClean, Clean, Sorted, Marked, FromWritten;
    var lines, needed := LinesOf(es), |record| + 1;
    var kept := KeepFor(lines, needed);
    d := |lines| - |kept|;
    MarkedIsClean(es);
    EvictsLines(TakeSeq(l), lines, needed);
    KeepIsLongest(lines, needed);
    TextSnoc(kept, record);
    NextMarked(es, written, d, record);
    U32Add(|written| + 1, 1);
    hide LinesOf;
  }

  /** A write of any length, under any number, keeps this. */
  lemma WriteRetains(l: Log, es: seq<Entry>, written: seq<string>, e: Event) returns (now: seq<Entry>)
    requires Retains(l, es, written) && Proper(e)
    ensures Retains(After(l, e), now, Written(l, written, e))
  {
    now := es;
    if Stored(l, e) {
      var record := Record(l.nextSeq, e.rest);
      RecordSeq(l.nextSeq, e.rest);
      Stores(l, e);
      hide LineSeq, Record, Text, After, EvictFor, Sorted, Marked, FromWritten, LinesOf, Appended;
      if |record| + 1 <= CAPACITY {
        var d := StoreRetains(l, es, written, record);
        now := es[d..] + [Entry(|written| + 1, record)];
      } else {
        EntriesStay(es, written, record);
        U32Add(|written| + 1, 1);
      }
    } else if e.Switch? {
      RunOne(l, Enable(e.on));
      hide LineSeq, Text, Run, Sorted, Marked, FromWritten, LinesOf;
    } else {
      assert Run(l, []) == l;
    }
  }

  /** So does any run of events, past any number of wraps. */
  lemma {:induction false} RunRetains(l: Log, es: seq<Entry>, written: seq<string>, events: seq<Event>)
    returns (now: seq<Entry>)
    requires Retains(l, es, written) && AllProper(events)
    ensures Retains(AfterAll(l, events), now, WrittenAll(l, written, events))
    decreases |events|
  {
    now := es;
    if events != [] {
      hide Retains, After, Written, Proper;
      now := WriteRetains(l, es, written, events[0]);
      now := RunRetains(After(l, events[0]), now, Written(l, written, events[0]), events[1..]);
    }
  }

  /** In particular every stream delivered so far, whatever is written to its log from now on. */
  lemma StreamRetains(s: Stream, kept: seq<string>, got: seq<string>, from: nat, events: seq<Event>)
    returns (es: seq<Entry>)
    requires Delivered(s, kept, got, from) && |s.written| + 1 < UINT32 && AllProper(events)
    ensures Retains(AfterAll(s.log, events), es, WrittenAll(s.log, s.written, events))
  {
    hide Retains, Holds, AfterAll, WrittenAll, Text, Increasing, Genuine, Between, NoneSkipped, AllClean;
    es := HoldsRetains(s.log, kept, s.written);
    es := RunRetains(s.log, es, s.written, events);
  }

  // ---------------------------------------------------------------- what a read sends

  /** The entries whose number is not below the cursor. */
  function Passing(es: seq<Entry>, cursor: nat): seq<Entry> {
    if es == [] then []
    else (if cursor <= U32(es[0].index) then [es[0]] else []) + Passing(es[1..], cursor)
  }

  lemma {:induction false} PassingIs(es: seq<Entry>, cursor: nat)
    requires Sorted(es)
    ensures forall e :: e in Passing(es, cursor) <==> e in es && cursor <= U32(e.index)
    ensures Sorted(Passing(es, cursor))
  {
    hide U32;
    if es != [] {
      PassingIs(es[1..], cursor);
      assert es == [es[0]] + es[1..];
      assert forall e :: e in es[1..] ==> es[0].index < e.index;
    }
  }

  lemma {:induction false} PassingMarked(es: seq<Entry>, cursor: nat)
    requires Marked(es)
    ensures Marked(Passing(es, cursor))
    ensures AllFrom(LinesOf(Passing(es, cursor)), cursor)
  {
    hide U32, LineSeq, Clean;
    if es != [] {
      PassingMarked(es[1..], cursor);
    }
  }

  lemma LinesOfRest(es: seq<Entry>)
    requires es != []
    ensures LinesOf(es)[0] == es[0].line && LinesOf(es)[1..] == LinesOf(es[1..])
  {}

  lemma PassingStep(es: seq<Entry>, cursor: nat)
    requires es != [] && cursor <= U32(es[0].index)
    ensures Passing(es, cursor) == [es[0]] + Passing(es[1..], cursor)
    ensures LinesOf(Passing(es, cursor)) != [] && LinesOf(Passing(es, cursor))[0] == es[0].line
    ensures LinesOf(Passing(es, cursor))[1..] == LinesOf(Passing(es[1..], cursor))
  {
    hide U32;
    LinesOfRest(Passing(es, cursor));
    assert Passing(es, cursor)[1..] == Passing(es[1..], cursor);
  }

  /** Skipping the lines below the cursor beforehand makes no difference. */
  lemma {:induction false} PickPasses(es: seq<Entry>, cursor: nat, maxBytes: nat, sofar: Chunk)
    requires Marked(es)
    ensures Pick(LinesOf(es), cursor, maxBytes, sofar) == Pick(LinesOf(Passing(es, cursor)), cursor, maxBytes, sofar)
    decreases |es|
  {
    if es != [] {
      var line, n := es[0].line, U32(es[0].index);
      assert LineSeq(line) == n && Marked(es[1..]);
      hide U32, LineSeq, Clean, Marked;
      LinesOfRest(es);
      if n < cursor {
        PickPasses(es[1..], cursor, maxBytes, sofar);
        assert [] + Passing(es[1..], cursor) == Passing(es[1..], cursor);
      } else {
        PassingStep(es, cursor);
        PickPasses(es[1..], cursor, maxBytes, Chunk(sofar.body + line + "\n", n));
        hide Passing, LinesOf;
      }
    }
  }

  /** The first `j` entries are as many as fit, and at least one. */
  ghost predicate Fits(es: seq<Entry>, j: nat, maxBytes: nat)
    requires j <= |es|
  {
    && (es != [] ==> j > 0)
    && (j > 1 ==> |Text(LinesOf(es[..j]))| <= maxBytes)
    && (j < |es| ==> |Text(LinesOf(es[..j + 1]))| > maxBytes)
  }

  lemma LinesOfTake(es: seq<Entry>, j: nat)
    requires j <= |es|
    ensures LinesOf(es)[..j] == LinesOf(es[..j])
  {}

  lemma LinesOfFit(es: seq<Entry>, j: nat, maxBytes: nat)
    requires j <= |es| && (es != [] ==> j > 0)
    requires j > 1 ==> |"" + Text(LinesOf(es)[..j])| <= maxBytes
    requires j < |es| ==> |"" + Text(LinesOf(es)[..j + 1])| > maxBytes
    ensures Fits(es, j, maxBytes)
  {
    hide LinesOf, Text;
    LinesOfTake(es, j);
    if j < |es| {
      LinesOfTake(es, j + 1);
    }
  }

  lemma Chosen(es: seq<Entry>, cursor: nat, maxBytes: nat) returns (j: nat)
    requires Marked(es)
    ensures j <= |Passing(es, cursor)| && Fits(Passing(es, cursor), j, maxBytes)
    ensures var sent := Passing(es, cursor)[..j];
      Pick(LinesOf(es), cursor, maxBytes, Chunk("", 0))
      == Chunk(Text(LinesOf(sent)), if sent == [] then 0 else U32(sent[|sent| - 1].index))
  {
    var passing := Passing(es, cursor);
    PickPasses(es, cursor, maxBytes, Chunk("", 0));
    PassingMarked(es, cursor);
    hide Passing, Fits;
    j := PickTakes(LinesOf(passing), cursor, maxBytes, Chunk("", 0));
    hide AllFrom, Pick, LineSeq, Text, U32, Clean;
    LinesOfFit(passing, j, maxBytes);
    LinesOfTake(passing, j);
    assert "" + Text(LinesOf(passing[..j])) == Text(LinesOf(passing[..j]));
    assert j > 0 ==> LinesOf(passing)[j - 1] == passing[j - 1].line;
  }

  /** The number a read really starts from, given the next number at its two looks; none if it stops at once. */
  function StartOf(first: nat, second: nat, cursor: nat): Option<nat> {
    var start := if first < cursor then 1 else cursor;
    if cursor == first || start == second then None else Some(if second < start then 1 else start)
  }

  /** The reply that sends these entries, started from `cursor`. */
  function ReplyOf(sent: seq<Entry>, cursor: nat): Reply {
    var last := if sent == [] then 0 else U32(sent[|sent| - 1].index);
    Reply(Text(LinesOf(sent)), if last != 0 then U32(last + 1) else cursor)
  }

  lemma SinceStarts(first: Log, second: Log, cursor: nat, maxBytes: nat)
    ensures var start := StartOf(first.nextSeq, second.nextSeq, cursor);
      Since(first, second, cursor, maxBytes)
      == if start.None? then Reply("", if cursor == first.nextSeq then first.nextSeq else second.nextSeq)
         else
           var chunk := Pick(Lines(Snapshot(first, second)), start.value, maxBytes, Chunk("", 0));
           Reply(chunk.body, if chunk.lastSeq != 0 then U32(chunk.lastSeq + 1) else start.value)
  {
    hide Pick, Lines, Snapshot, U32;
  }

  /** The reader's snapshot is some of the entries, whole, and perhaps the beginning of one more. */
  lemma SnapshotIs(first: Log, second: Log, es: seq<Entry>) returns (seen: nat)
    requires Marked(es) && second.contents == Text(LinesOf(es))
    ensures seen <= |es| && (|second.contents| <= |first.contents| ==> seen == |es|)
    ensures Marked(es[..seen]) && Lines(Snapshot(first, second)) == LinesOf(es[..seen])
  {
    MarkedIsClean(es);
    var n := if |first.contents| <= |second.contents| then |first.contents| else |second.contents|;
    hide Lines, Text, LinesOf, LineSeq, Clean;
    seen := LinesOfPrefix(LinesOf(es), n);
    LinesOfTake(es, seen);
  }

  /**
   For every log, every cursor and any writes between the reader's two looks: a read that does not stop at once
   sends the entries it sees whose number is not below the one it starts from, as many as fit.
   */
  lemma ReadSends(first: Log, second: Log, es: seq<Entry>, written: seq<string>, cursor: nat, maxBytes: nat)
    returns (seen: nat, j: nat)
    requires Retains(second, es, written)
    ensures seen <= |es| && (|second.contents| <= |first.contents| ==> seen == |es|)
    ensures var start := StartOf(first.nextSeq, second.nextSeq, cursor);
      var reply := Since(first, second, cursor, maxBytes);
      if start.None? then reply == Reply("", if cursor == first.nextSeq then first.nextSeq else second.nextSeq)
      else
        var passing := Passing(es[..seen], start.value);
        j <= |passing| && Fits(passing, j, maxBytes) && reply == ReplyOf(passing[..j], start.value)
  {
    hide Lines, Text, Pick, Snapshot, Marked, Sorted, FromWritten, LinesOf, Fits, Passing, Since, StartOf, U32;
    seen := SnapshotIs(first, second, es);
    SinceStarts(first, second, cursor, maxBytes);
    var start := StartOf(first.nextSeq, second.nextSeq, cursor);
    j := 0;
    if start.Some? {
      j := Chosen(es[..seen], start.value, maxBytes);
    }
  }

  // ---------------------------------------------------------------- exactly when a line is repeated or lost

  /** The index that carries number zero, of the latest turn before `next`. */
  function Zero(next: nat): nat { next - U32(next) }

  /** The index a cursor stands for: the latest one up to `next` with that number. */
  function Place(next: nat, cursor: nat): int { next - (next - cursor) % UINT32 }

  /** Less than a turn back from `next`. */
  predicate InTurn(index: nat, next: nat) { index <= next < index + UINT32 }

  ghost predicate AllInTurn(es: seq<Entry>, next: nat) {
    forall e :: e in es ==> InTurn(e.index, next) && e.index < next
  }

  lemma Residue(index: nat, next: nat)
    requires InTurn(index, next)
    ensures U32(index) == if Zero(next) <= index then index - Zero(next) else index - Zero(next) + UINT32
    ensures Zero(next) > index ==> U32(index) > U32(next)
  {
    var q := next / UINT32;
    assert next == q * UINT32 + U32(next);
    if Zero(next) <= index {
      Turns(index - Zero(next), q);
    } else {
      Turns(index - Zero(next) + UINT32, q - 1);
    }
  }

  lemma PlaceIs(index: nat, next: nat)
    requires InTurn(index, next)
    ensures Place(next, U32(index)) == index
  {
    var q := index / UINT32;
    assert index == q * UINT32 + U32(index);
    Turns(next - index, q);
  }

  lemma PlaceFits(next: nat, cursor: nat)
    requires cursor < UINT32
    ensures next - UINT32 < Place(next, cursor) <= next
    ensures Place(next, cursor) % UINT32 == cursor
  {
    var q := (next - cursor) / UINT32;
    assert next - cursor == q * UINT32 + (next - cursor) % UINT32;
    Turns(cursor, q);
  }

  /** Where a read starts, in terms of indices: of the reader, and of the next line at both looks. */
  lemma StartIs(first: nat, next: nat, place: nat)
    requires place <= first <= next < place + UINT32
    ensures var start := StartOf(U32(first), U32(next), U32(place));
      if place == first then start == None
      else if Zero(next) <= place then start == Some(place - Zero(next)) && U32(place) == place - Zero(next)
      else if Zero(next) <= first && U32(next) == 1 then start == None
      else start == Some(1)
    ensures place < first ==> U32(place) != U32(first)
  {
    Residue(place, next);
    Residue(first, next);
    hide U32;
  }

  /** Sent although the reader was past it already, or although the reader is not past it now. */
  ghost predicate Repeats(sent: seq<Entry>, place: nat, after: int) {
    exists e :: e in sent && (e.index < place || after <= e.index)
  }

  /** Retained, not sent, and yet the reader is past it now. */
  ghost predicate Loses(es: seq<Entry>, sent: seq<Entry>, place: nat, after: int) {
    exists e :: e in es && place <= e.index < after && e !in sent
  }

  /** The first entry has number zero and is the only one sent. */
  ghost predicate ZeroAlone(seen: seq<Entry>, zero: nat, maxBytes: nat) {
    && seen != [] && seen[0].index == zero
    && (|seen| == 1 || |Text(LinesOf(seen[..2]))| > maxBytes)
  }

  /** The line behind number zero is sent: what is before fits with it, or nothing is before. */
  ghost predicate ZeroPassed(seen: seq<Entry>, zero: nat, maxBytes: nat) {
    exists i :: 0 <= i < |seen| - 1 && seen[i].index == zero
                && (i == 0 || |Text(LinesOf(seen[..i] + [seen[i + 1]]))| <= maxBytes)
  }

  ghost predicate OnlyZero(seen: seq<Entry>, zero: nat) {
    forall e :: e in seen ==> e.index == zero
  }

  /** Does the read stop at its second look, with the cursor set to 1? */
  predicate StopsAtOne(first: nat, next: nat) { Zero(next) <= first && U32(next) == 1 }

  ghost predicate MustRepeat(seen: seq<Entry>, first: nat, next: nat, place: nat, maxBytes: nat) {
    var zero := Zero(next);
    if place == first then false
    else if zero <= place then
      (seen != [] && seen[0].index < zero) || (place == zero && ZeroAlone(seen, zero, maxBytes))
    else !StopsAtOne(first, next) && seen != [] && seen[0].index < place
  }

  ghost predicate MustLose(es: seq<Entry>, seen: seq<Entry>, first: nat, next: nat, place: nat, maxBytes: nat) {
    var zero := Zero(next);
    if place == first || zero <= place then false
    else if StopsAtOne(first, next) then exists e :: e in es && place <= e.index
    else if OnlyZero(seen, zero) then U32(next) > 0 && exists e :: e in es && place <= e.index <= zero
    else ZeroPassed(seen, zero, maxBytes)
  }

  /** The reader's place after sending something: behind its last line, unless that has number zero. */
  lemma PlaceBehind(sent: seq<Entry>, cursor: nat, next: nat)
    requires sent != [] && InTurn(sent[|sent| - 1].index, next) && sent[|sent| - 1].index < next
    ensures var last := sent[|sent| - 1].index;
      U32(last) != 0 ==> Place(next, ReplyOf(sent, cursor).nextCursor) == last + 1
    ensures U32(sent[|sent| - 1].index) == 0 ==> ReplyOf(sent, cursor).nextCursor == cursor
  {
    var last := sent[|sent| - 1].index;
    U32Add(last, 1);
    PlaceIs(last + 1, next);
    hide U32, Place, Text, LinesOf;
  }

  lemma SortedPrefix(es: seq<Entry>, m: nat)
    requires m <= |es| && Sorted(es)
    ensures Sorted(es[..m]) && forall e :: e in es[..m] ==> e in es
    ensures forall e, f :: e in es && e !in es[..m] && f in es[..m] ==> f.index < e.index
  {}

  lemma PrefixIsLower(es: seq<Entry>, j: nat)
    requires j <= |es| && Sorted(es)
    ensures forall e :: e in es[..j] ==> e.index <= es[j - 1].index
    ensures forall e :: e in es && e !in es[..j] ==> j == 0 || es[j - 1].index < e.index
    ensures forall e :: e in es ==> es[0].index <= e.index
  {}

  // ---------------------------------------------------------------- a reader in the same turn

  /** The filter keeps everything older than number zero, and everything not behind the reader. */
  lemma AheadPasses(seen: seq<Entry>, next: nat, place: nat)
    requires Sorted(seen) && AllInTurn(seen, next) && Zero(next) <= place < next
    ensures forall e :: e in Passing(seen, place - Zero(next))
                        <==> e in seen && (e.index < Zero(next) || place <= e.index)
    ensures forall e :: e in seen ==> (U32(e.index) == 0 <==> e.index == Zero(next))
  {
    PassingIs(seen, place - Zero(next));
    forall e | e in seen
      ensures place - Zero(next) <= U32(e.index) <==> e.index < Zero(next) || place <= e.index
      ensures U32(e.index) == 0 <==> e.index == Zero(next)
    {
      Residue(e.index, next);
    }
    hide U32, Passing, Zero;
  }

  /** Without anything older than number zero, a reader at number zero passes everything. */
  lemma {:induction false} AllPass(seen: seq<Entry>)
    ensures Passing(seen, 0) == seen
  {
    if seen != [] {
      AllPass(seen[1..]);
    }
  }

  lemma PrefixIsShorter(es: seq<Entry>, k: nat, j: nat)
    requires k <= j <= |es|
    ensures |Text(LinesOf(es[..k]))| <= |Text(LinesOf(es[..j]))|
  {
    LinesOfTake(es, k);
    LinesOfTake(es, j);
    PrefixGrows(LinesOf(es), k, j);
    hide LinesOf, Text;
  }

  /** Where the read leaves a reader of this turn. */
  lemma AfterAhead(seen: seq<Entry>, next: nat, place: nat, j: nat)
    requires Sorted(seen) && AllInTurn(seen, next) && Zero(next) <= place < next
    requires j <= |Passing(seen, place - Zero(next))|
    ensures var passing := Passing(seen, place - Zero(next));
      Place(next, ReplyOf(passing[..j], place - Zero(next)).nextCursor)
      == if j == 0 || passing[j - 1].index == Zero(next) then place else passing[j - 1].index + 1
  {
    var passing := Passing(seen, place - Zero(next));
    AheadPasses(seen, next, place);
    Residue(place, next);
    PlaceIs(place, next);
    if j > 0 {
      assert passing[j - 1] in passing;
      PlaceBehind(passing[..j], place - Zero(next), next);
    }
    hide U32, Place, Passing, Zero, Text, LinesOf;
  }

  lemma AheadRepeats(seen: seq<Entry>, next: nat, place: nat, maxBytes: nat, j: nat)
    requires Sorted(seen) && AllInTurn(seen, next) && Zero(next) <= place < next
    requires j <= |Passing(seen, place - Zero(next))| && Fits(Passing(seen, place - Zero(next)), j, maxBytes)
    ensures var cursor := place - Zero(next);
      var sent := Passing(seen, cursor)[..j];
      Repeats(sent, place, Place(next, ReplyOf(sent, cursor).nextCursor))
      <==> (seen != [] && seen[0].index < Zero(next)) || (place == Zero(next) && ZeroAlone(seen, Zero(next), maxBytes))
  {
    hide U32, Place, ReplyOf, Passing, Zero, Fits, ZeroAlone, AllInTurn, Sorted;
    var zero := Zero(next);
    var passing := Passing(seen, place - zero);
    AheadPasses(seen, next, place);
    PassingIs(seen, place - zero);
    AfterAhead(seen, next, place, j);
    FitsOne(passing, j, maxBytes);
    if seen != [] && seen[0].index < zero {
      OldIsSent(seen, passing, j, zero);
    } else {
      NoneOlder(seen, passing, place, zero);
      RepeatsZero(passing, j, place, zero);
      if place == zero && seen != [] && seen[0].index == zero {
        AllPass(seen);
        ZeroSent(seen, j, maxBytes);
        OnlyFirstIsZero(seen, j);
      } else {
        ZeroIsFirst(seen, passing, zero);
        if place == zero {
          NotAlone(seen, zero, maxBytes);
        }
      }
    }
  }

  /** Nothing sent lies before the reader: only number zero, sent last, is sent again. */
  lemma RepeatsZero(passing: seq<Entry>, j: nat, place: nat, zero: nat)
    requires j <= |passing| && Sorted(passing) && (passing != [] ==> j > 0)
    requires zero <= place && forall e :: e in passing ==> place <= e.index
    ensures var after := if j == 0 || passing[j - 1].index == zero then place else passing[j - 1].index + 1;
      Repeats(passing[..j], place, after) <==> j > 0 && passing[j - 1].index == zero
    ensures passing != [] && passing[j - 1].index == zero ==> j == 1 && place == zero
  {
    PrefixIsLower(passing, j);
    if j > 0 {
      assert passing[j - 1] in passing && passing[0] in passing && passing[j - 1] in passing[..j];
    }
  }

  lemma FitsOne(es: seq<Entry>, j: nat, maxBytes: nat)
    requires j <= |es| && Fits(es, j, maxBytes)
    ensures es != [] ==> j > 0
  {}

  lemma NoneOlder(seen: seq<Entry>, passing: seq<Entry>, place: nat, zero: nat)
    requires Sorted(seen) && (seen != [] ==> zero <= seen[0].index)
    requires forall e :: e in passing <==> e in seen && (e.index < zero || place <= e.index)
    ensures forall e :: e in passing ==> place <= e.index
  {
    PrefixIsLower(seen, |seen|);
  }

  lemma OnlyFirstIsZero(seen: seq<Entry>, j: nat)
    requires Sorted(seen) && 0 < j <= |seen|
    ensures seen[j - 1].index == seen[0].index <==> j == 1
  {}

  /** If number zero is there and nothing is older, it comes first. */
  lemma ZeroIsFirst(seen: seq<Entry>, passing: seq<Entry>, zero: nat)
    requires Sorted(seen) && (seen != [] ==> zero <= seen[0].index) && forall e :: e in passing ==> e in seen
    ensures forall i :: 0 <= i < |passing| && passing[i].index == zero ==> seen != [] && seen[0].index == zero
  {
    PrefixIsLower(seen, |seen|);
    forall i | 0 <= i < |passing| && passing[i].index == zero ensures seen != [] && seen[0].index == zero {
      assert passing[i] in seen;
    }
  }

  lemma NotAlone(seen: seq<Entry>, zero: nat, maxBytes: nat)
    requires seen == [] || seen[0].index != zero
    ensures !ZeroAlone(seen, zero, maxBytes)
  {}

  lemma OldIsSent(seen: seq<Entry>, passing: seq<Entry>, j: nat, bound: nat)
    requires seen != [] && seen[0].index < bound && seen[0] in passing && Sorted(passing)
    requires j <= |passing| && (passing != [] ==> j > 0)
    ensures passing[..j][0] in passing[..j] && passing[..j][0].index < bound
  {
    PrefixIsLower(passing, j);
  }

  lemma ZeroSent(seen: seq<Entry>, j: nat, maxBytes: nat)
    requires seen != [] && j <= |seen| && Fits(seen, j, maxBytes)
    ensures j > 0 && (j == 1 <==> ZeroAlone(seen, seen[0].index, maxBytes))
  {
    if j > 1 {
      PrefixIsShorter(seen, 2, j);
    }
    hide LinesOf, Text;
  }

  /** A reader of this turn loses nothing. */
  lemma AheadLoses(es: seq<Entry>, m: nat, next: nat, place: nat, maxBytes: nat, j: nat)
    requires m <= |es| && Sorted(es) && AllInTurn(es[..m], next) && Zero(next) <= place < next
    requires j <= |Passing(es[..m], place - Zero(next))| && Fits(Passing(es[..m], place - Zero(next)), j, maxBytes)
    ensures var cursor := place - Zero(next);
      var sent := Passing(es[..m], cursor)[..j];
      !Loses(es, sent, place, Place(next, ReplyOf(sent, cursor).nextCursor))
  {
    hide U32, Place, ReplyOf, Passing, Zero, LinesOf, Text, Sorted, AllInTurn, Fits, Loses;
    var seen := es[..m];
    var passing := Passing(seen, place - Zero(next));
    SortedPrefix(es, m);
    AheadPasses(seen, next, place);
    PassingIs(seen, place - Zero(next));
    AfterAhead(seen, next, place, j);
    FitsOne(passing, j, maxBytes);
    PrefixIsLower(passing, j);
    NothingSkipped(es, seen, passing, j, place, Zero(next));
  }

  lemma NothingSkipped(es: seq<Entry>, seen: seq<Entry>, passing: seq<Entry>, j: nat, place: nat, zero: nat)
    requires j <= |passing| && (passing != [] ==> j > 0) && zero <= place
    requires forall e, f :: e in es && e !in seen && f in seen ==> f.index < e.index
    requires forall e :: e in passing <==> e in seen && (e.index < zero || place <= e.index)
    requires forall e :: e in passing && e !in passing[..j] ==> j == 0 || passing[j - 1].index < e.index
    ensures var after := if j == 0 || passing[j - 1].index == zero then place else passing[j - 1].index + 1;
      !Loses(es, passing[..j], place, after)
  {
    if j > 0 {
      assert passing[j - 1] in passing;
    }
  }

  // ---------------------------------------------------------------- a reader of the turn before

  lemma BehindPasses(seen: seq<Entry>, next: nat)
    requires Sorted(seen) && AllInTurn(seen, next)
    ensures forall e :: e in Passing(seen, 1) <==> e in seen && e.index != Zero(next)
    ensures forall e :: e in seen ==> (U32(e.index) == 0 <==> e.index == Zero(next))
  {
    PassingIs(seen, 1);
    forall e | e in seen ensures U32(e.index) == 0 <==> e.index == Zero(next) {
      Residue(e.index, next);
    }
    hide U32, Passing, Zero;
  }

  lemma PlaceOfOne(next: nat)
    requires UINT32 <= next
    ensures Place(next, 1) == if U32(next) == 0 then next - UINT32 + 1 else Zero(next) + 1
  {
    var index: nat := if U32(next) == 0 then next - UINT32 + 1 else Zero(next) + 1;
    Residue(index, next);
    PlaceIs(index, next);
  }

  lemma AfterBehind(seen: seq<Entry>, next: nat, j: nat)
    requires Sorted(seen) && AllInTurn(seen, next) && UINT32 <= next
    requires j <= |Passing(seen, 1)|
    ensures var passing := Passing(seen, 1);
      Place(next, ReplyOf(passing[..j], 1).nextCursor)
      == if j > 0 then passing[j - 1].index + 1
         else if U32(next) == 0 then next - UINT32 + 1 else Zero(next) + 1
  {
    var passing := Passing(seen, 1);
    BehindPasses(seen, next);
    if j > 0 {
      assert passing[j - 1] in passing;
      PlaceBehind(passing[..j], 1, next);
    } else {
      PlaceOfOne(next);
    }
    hide U32, Place, Passing, Zero, Text, LinesOf;
  }

  lemma BehindRepeats(seen: seq<Entry>, next: nat, place: nat, maxBytes: nat, j: nat)
    requires Sorted(seen) && AllInTurn(seen, next) && InTurn(place, next) && place < Zero(next) && UINT32 <= next
    requires j <= |Passing(seen, 1)| && Fits(Passing(seen, 1), j, maxBytes)
    ensures var sent := Passing(seen, 1)[..j];
      Repeats(sent, place, Place(next, ReplyOf(sent, 1).nextCursor)) <==> seen != [] && seen[0].index < place
  {
    var passing := Passing(seen, 1);
    BehindPasses(seen, next);
    PassingIs(seen, 1);
    AfterBehind(seen, next, j);
    hide U32, Place, ReplyOf, Passing, Zero, LinesOf, Text;
    if seen != [] && seen[0].index < place {
      OldIsSent(seen, passing, j, place);
    } else if j > 0 {
      PrefixIsLower(passing, j);
      assert passing[j - 1] in passing;
      PrefixIsLower(seen, |seen|);
    }
  }

  /** The filter takes out just number zero. */
  lemma {:induction false} PassingAround(seen: seq<Entry>, next: nat, i: nat)
    requires Sorted(seen) && AllInTurn(seen, next) && i < |seen| && seen[i].index == Zero(next)
    ensures Passing(seen, 1) == seen[..i] + seen[i + 1..]
    decreases |seen|
  {
    hide U32, Zero, Sorted, AllInTurn;
    var rest := seen[1..];
    HeadPasses(seen, next);
    if i == 0 {
      EachPasses(rest, next);
      assert seen[..0] + seen[1..] == rest && [] + rest == rest;
    } else {
      assert rest[i - 1] == seen[i];
      PassingAround(rest, next, i - 1);
      assert [seen[0]] + (rest[..i - 1] + rest[i..]) == seen[..i] + seen[i + 1..];
    }
  }

  lemma HeadPasses(seen: seq<Entry>, next: nat)
    requires Sorted(seen) && AllInTurn(seen, next) && seen != []
    ensures Sorted(seen[1..]) && AllInTurn(seen[1..], next)
    ensures 1 <= U32(seen[0].index) <==> seen[0].index != Zero(next)
    ensures forall i :: 0 < i < |seen| ==> seen[i].index != seen[0].index
    ensures forall e :: e in seen[1..] ==> e.index != seen[0].index
  {
    Residue(seen[0].index, next);
    hide U32, Zero;
  }

  lemma {:induction false} EachPasses(seen: seq<Entry>, next: nat)
    requires Sorted(seen) && AllInTurn(seen, next) && forall e :: e in seen ==> e.index != Zero(next)
    ensures Passing(seen, 1) == seen
    decreases |seen|
  {
    BehindPasses(seen, next);
    if seen != [] {
      EachPasses(seen[1..], next);
    }
    hide U32, Zero;
  }

  lemma BehindNothing(es: seq<Entry>, m: nat, next: nat, place: nat)
    requires m <= |es| && Sorted(es) && AllInTurn(es[..m], next)
    requires InTurn(place, next) && place < Zero(next) && UINT32 <= next && OnlyZero(es[..m], Zero(next))
    ensures Passing(es[..m], 1) == []
    ensures Loses(es, [], place, Place(next, 1))
      <==> U32(next) > 0 && exists e :: e in es && place <= e.index <= Zero(next)
  {
    SortedPrefix(es, m);
    BehindPasses(es[..m], next);
    PlaceOfOne(next);
    hide U32, Place, Zero, Sorted, AllInTurn, Passing;
    if Passing(es[..m], 1) != [] {
      assert Passing(es[..m], 1)[0] in Passing(es[..m], 1);
    }
  }

  /** Of a reader behind the wrap only number zero is lost, and only if the line behind it is sent. */
  lemma BehindLoses(es: seq<Entry>, m: nat, next: nat, place: nat, maxBytes: nat, j: nat)
    requires m <= |es| && Sorted(es) && AllInTurn(es[..m], next)
    requires InTurn(place, next) && place < Zero(next) && UINT32 <= next && !OnlyZero(es[..m], Zero(next))
    requires j <= |Passing(es[..m], 1)| && Fits(Passing(es[..m], 1), j, maxBytes)
    ensures var sent := Passing(es[..m], 1)[..j];
      Loses(es, sent, place, Place(next, ReplyOf(sent, 1).nextCursor)) <==> ZeroPassed(es[..m], Zero(next), maxBytes)
  {
    var seen, zero := es[..m], Zero(next);
    var passing := Passing(seen, 1);
    SortedPrefix(es, m);
    BehindPasses(seen, next);
    PassingIs(seen, 1);
    AfterBehind(seen, next, j);
    PrefixIsLower(passing, j);
    assert j > 0 by {
      hide Zero, Passing, U32, Place, ReplyOf, LinesOf, Text;
    }
    ZeroIsPassed(seen, next, maxBytes, j);
    hide U32, Place, ReplyOf, Passing, Zero, LinesOf, Text, Sorted, AllInTurn, Fits, OnlyZero, ZeroPassed;
    assert passing[j - 1] in passing;
    assert Loses(es, passing[..j], place, passing[j - 1].index + 1)
      <==> exists e :: e in seen && e.index == zero && zero < passing[j - 1].index;
  }

  lemma ZeroIsPassed(seen: seq<Entry>, next: nat, maxBytes: nat, j: nat)
    requires Sorted(seen) && AllInTurn(seen, next)
    requires 0 < j <= |Passing(seen, 1)| && Fits(Passing(seen, 1), j, maxBytes)
    ensures ZeroPassed(seen, Zero(next), maxBytes)
      <==> exists e :: e in seen && e.index == Zero(next) && Zero(next) < Passing(seen, 1)[j - 1].index
  {
    hide U32, Zero, Passing, AllInTurn, LinesOf, Text, Fits, Sorted;
    if i :| 0 <= i < |seen| && seen[i].index == Zero(next) {
      PassingAround(seen, next, i);
      PassedAt(seen, i, maxBytes, j);
      OneOfIndex(seen, i);
      assert seen[i] in seen;
    }
  }

  lemma OneOfIndex(seen: seq<Entry>, i: nat)
    requires i < |seen| && Sorted(seen)
    ensures forall k :: 0 <= k < |seen| && seen[k].index == seen[i].index ==> k == i
  {}

  lemma PassedAt(seen: seq<Entry>, i: nat, maxBytes: nat, j: nat)
    requires Sorted(seen) && i < |seen|
    requires var passing := seen[..i] + seen[i + 1..];
      0 < j <= |passing| && Fits(passing, j, maxBytes)
    ensures seen[i].index < (seen[..i] + seen[i + 1..])[j - 1].index
      <==> i < |seen| - 1 && (i == 0 || |Text(LinesOf(seen[..i] + [seen[i + 1]]))| <= maxBytes)
  {
    var passing := seen[..i] + seen[i + 1..];
    assert seen[i].index < passing[j - 1].index <==> i < j;
    if i < |seen| - 1 {
      assert passing[..i + 1] == seen[..i] + [seen[i + 1]];
      if i < j {
        PrefixIsShorter(passing, i + 1, j);
      } else {
        PrefixIsShorter(passing, j + 1, i + 1);
      }
    }
    hide LinesOf, Text, Sorted;
  }

  // ---------------------------------------------------------------- any read

  /** A read that stops at once sends nothing, and moves the reader to the end or leaves it where it is. */
  lemma StopsAt(es: seq<Entry>, seen: seq<Entry>, from: nat, next: nat, place: nat, maxBytes: nat)
    requires place <= from <= next < place + UINT32 && AllInTurn(es, next)
    requires place == from || (place < Zero(next) && StopsAtOne(from, next))
    ensures var after := Place(next, if U32(place) == U32(from) then U32(from) else U32(next));
      && (Repeats([], place, after) <==> MustRepeat(seen, from, next, place, maxBytes))
      && (Loses(es, [], place, after) <==> MustLose(es, seen, from, next, place, maxBytes))
  {
    StartIs(from, next, place);
    PlaceIs(place, next);
    PlaceIs(next, next);
    hide U32, Place, Zero, ZeroAlone, OnlyZero, ZeroPassed;
  }

  lemma AheadIsExact(es: seq<Entry>, m: nat, from: nat, next: nat, place: nat, maxBytes: nat, j: nat)
    requires m <= |es| && Sorted(es) && AllInTurn(es[..m], next)
    requires Zero(next) <= place < from <= next < place + UINT32
    requires j <= |Passing(es[..m], place - Zero(next))| && Fits(Passing(es[..m], place - Zero(next)), j, maxBytes)
    ensures var sent := Passing(es[..m], place - Zero(next))[..j];
      var after := Place(next, ReplyOf(sent, place - Zero(next)).nextCursor);
      && (Repeats(sent, place, after) <==> MustRepeat(es[..m], from, next, place, maxBytes))
      && (Loses(es, sent, place, after) <==> MustLose(es, es[..m], from, next, place, maxBytes))
  {
    hide U32, Place, ReplyOf, Passing, Zero, ZeroAlone, OnlyZero, ZeroPassed, Fits, Repeats, Loses, Sorted, AllInTurn;
    assert Sorted(es[..m]) by {
      SortedPrefix(es, m);
    }
    AheadRepeats(es[..m], next, place, maxBytes, j);
    AheadLoses(es, m, next, place, maxBytes, j);
  }

  lemma BehindIsExact(es: seq<Entry>, m: nat, from: nat, next: nat, place: nat, maxBytes: nat, j: nat)
    requires m <= |es| && Sorted(es) && AllInTurn(es[..m], next)
    requires place < from <= next < place + UINT32 && place < Zero(next) && !StopsAtOne(from, next)
    requires j <= |Passing(es[..m], 1)| && Fits(Passing(es[..m], 1), j, maxBytes)
    ensures var sent := Passing(es[..m], 1)[..j];
      var after := Place(next, ReplyOf(sent, 1).nextCursor);
      && (Repeats(sent, place, after) <==> MustRepeat(es[..m], from, next, place, maxBytes))
      && (Loses(es, sent, place, after) <==> MustLose(es, es[..m], from, next, place, maxBytes))
  {
    AtLeastOneTurn(next, place);
    hide U32, Place, Passing, Zero, ZeroAlone, OnlyZero, ZeroPassed, Fits, Repeats, Loses, Sorted, AllInTurn;
    assert Sorted(es[..m]) by {
      SortedPrefix(es, m);
    }
    BehindRepeats(es[..m], next, place, maxBytes, j);
    if OnlyZero(es[..m], Zero(next)) {
      BehindNothing(es, m, next, place);
      assert Passing(es[..m], 1)[..j] == [];
    } else {
      BehindLoses(es, m, next, place, maxBytes, j);
    }
  }

  lemma AtLeastOneTurn(next: nat, place: nat)
    requires place < Zero(next)
    ensures UINT32 <= next
  {}

  /** What is sent is some of what is retained, in order. */
  lemma SentIsRetained(es: seq<Entry>, m: nat, cursor: nat, j: nat)
    requires m <= |es| && Sorted(es) && j <= |Passing(es[..m], cursor)|
    ensures var sent := Passing(es[..m], cursor)[..j];
      Sorted(sent) && forall e :: e in sent ==> e in es
  {
    SortedPrefix(es, m);
    PassingIs(es[..m], cursor);
    hide Passing, U32;
    SortedPrefix(Passing(es[..m], cursor), j);
  }

  lemma ReplyFits(sent: seq<Entry>, cursor: nat, next: nat)
    requires cursor < UINT32
    ensures var after := Place(next, ReplyOf(sent, cursor).nextCursor);
      next - UINT32 < after <= next && after % UINT32 == ReplyOf(sent, cursor).nextCursor
  {
    hide LinesOf, Text, Place;
    PlaceFits(next, ReplyOf(sent, cursor).nextCursor);
  }

  /**
   For every log, however often the numbers have wrapped, every reader less than a turn behind and any writes
   between its two looks: what one read sends are retained entries in order, and it repeats or loses one exactly
   under the conditions above. If neither, it sends exactly what is retained between the reader's place before
   and after, so reads in a row send each retained line once.
   */
  lemma ReadIsExact(first: Log, second: Log, es: seq<Entry>, written: seq<string>, from: nat, place: nat, maxBytes: nat)
    returns (seen: nat, sent: seq<Entry>)
    requires Retains(second, es, written) && first.nextSeq == U32(from)
    requires place <= from <= |written| + 1 < place + UINT32 && AllInTurn(es, |written| + 1)
    ensures var reply, next := Since(first, second, U32(place), maxBytes), |written| + 1;
      var after := Place(next, reply.nextCursor);
      && reply.body == Text(LinesOf(sent)) && Sorted(sent) && (forall e :: e in sent ==> e in es)
      && after % UINT32 == reply.nextCursor && next - UINT32 < after <= next
      && seen <= |es| && (|second.contents| <= |first.contents| ==> seen == |es|)
      && (Repeats(sent, place, after) <==> MustRepeat(es[..seen], from, next, place, maxBytes))
      && (Loses(es, sent, place, after) <==> MustLose(es, es[..seen], from, next, place, maxBytes))
  {
    var next := |written| + 1;
    hide U32, Place, Passing, Zero, Fits, Repeats, Loses, Sorted, AllInTurn, MustRepeat, MustLose, Since, StartOf,
         Marked, FromWritten;
    var j;
    seen, j := ReadSends(first, second, es, written, U32(place), maxBytes);
    StartIs(from, next, place);
    TurnOfPrefix(es, seen, next);
    if place == from || (place < Zero(next) && StopsAtOne(from, next)) {
      sent := [];
      StopsAt(es, es[..seen], from, next, place, maxBytes);
      PlaceFits(next, if U32(place) == U32(from) then U32(from) else U32(next));
      NothingIsSorted();
    } else {
      var start := if Zero(next) <= place then place - Zero(next) else 1;
      sent := Passing(es[..seen], start)[..j];
      if Zero(next) <= place {
        AheadIsExact(es, seen, from, next, place, maxBytes, j);
      } else {
        BehindIsExact(es, seen, from, next, place, maxBytes, j);
      }
      SentIsRetained(es, seen, start, j);
      ReplyFits(sent, start, next);
    }
  }

  lemma NothingIsSorted()
    ensures Sorted([]) && Text(LinesOf([])) == ""
  {}

  lemma TurnOfPrefix(es: seq<Entry>, m: nat, next: nat)
    requires m <= |es| && AllInTurn(es, next)
    ensures AllInTurn(es[..m], next)
  {}

  // ---------------------------------------------------------------- seen concretely

  function Power10(k: nat): nat { if k == 0 then 1 else 10 * Power10(k - 1) }

  lemma {:induction false} DecimalLength(n: nat, k: nat)
    requires 1 <= k && n < Power10(k)
    ensures |Decimal(n)| <= k
    decreases k
  {
    hide DigitOf;
    if n >= 10 {
      assert Power10(k) == 10 * Power10(k - 1);
      assert k > 1 by {
        assert Power10(0) == 1;
      }
      DecimalLength(n / 10, k - 1);
    }
  }

  lemma RecordIsShort(n: nat)
    requires n < UINT32
    ensures |Record(n, "")| <= |PREFIX| + 10
  {
    assert Power10(3) == 1000 by { assert Power10(1) == 10; }
    assert Power10(6) == 1000000 by { assert Power10(4) == 10000; }
    assert Power10(9) == 1000000000 by { assert Power10(7) == 10000000; }
    assert Power10(10) == 10000000000;
    DecimalLength(n, 10);
  }

  function Shorts(m: nat): seq<Event> {
    if m == 0 then [] else [Write("", false)] + Shorts(m - 1)
  }

  /** The last line written is retained, and short, and what is retained was written in a row. */
  ghost predicate Recent(es: seq<Entry>, written: seq<string>) {
    && es != [] && |es[|es| - 1].line| <= |PREFIX| + 10
    && forall i :: 0 <= i < |es| ==> es[i].index == |written| + 1 - |es| + i
  }

  lemma OneLine(line: string)
    ensures |Text([line])| == |line| + 1
  {
    assert [line][1..] == [];
  }

  lemma RecentSnoc(es: seq<Entry>, written: seq<string>, d: nat, record: string)
    requires d <= |es| && (es == [] || Recent(es, written)) && |record| <= |PREFIX| + 10
    ensures Recent(es[d..] + [Entry(|written| + 1, record)], written + [record])
  {}

  /** A short line is stored, and the short line before it stays. */
  lemma ShortWrite(l: Log, es: seq<Entry>, written: seq<string>) returns (now: seq<Entry>)
    requires Retains(l, es, written) && l.enabled && (es == [] || Recent(es, written))
    ensures var record := Record(l.nextSeq, "");
      && Written(l, written, Write("", false)) == written + [record]
      && Retains(After(l, Write("", false)), now, written + [record]) && After(l, Write("", false)).enabled
      && Recent(now, written + [record]) && now != [] && (es != [] ==> |now| >= 2)
  {
    var record := Record(l.nextSeq, "");
    RecordSeq(l.nextSeq, "");
    RecordIsShort(l.nextSeq);
    Stores(l, Write("", false));
    EvictKeepsSwitch(TakeSeq(l), |record| + 1);
    hide LineSeq, Record, Text, EvictFor, Sorted, Marked, FromWritten, LinesOf, After;
    var d := StoreRetains(l, es, written, record);
    now := es[d..] + [Entry(|written| + 1, record)];
    RecentSnoc(es, written, d, record);
    if es != [] && d == |es| {
      OneLine(es[d - 1].line);
      LastLine(es);
    }
  }

  lemma LastLine(es: seq<Entry>)
    requires es != []
    ensures LinesOf(es)[|es| - 1..] == [es[|es| - 1].line]
  {}

  lemma {:induction false} EvictKeepsSwitch(l: Log, needed: nat)
    requires needed <= CAPACITY
    ensures EvictFor(l, needed).enabled == l.enabled
    decreases |l.contents|
  {
    if needed + |l.contents| > CAPACITY {
      EvictKeepsSwitch(DiscardOldest(l), needed);
      hide FirstLine;
    }
  }

  lemma {:induction false} ShortRun(l: Log, es: seq<Entry>, written: seq<string>, m: nat) returns (now: seq<Entry>)
    requires Retains(l, es, written) && l.enabled && m > 0
    requires es == [] ==> m > 1
    requires es != [] ==> Recent(es, written)
    ensures var end, all := AfterAll(l, Shorts(m)), WrittenAll(l, written, Shorts(m));
      Retains(end, now, all) && |all| == |written| + m && Recent(now, all) && |now| >= 2
    decreases m
  {
    hide Retains, Recent, After, Record, Written;
    now := ShortWrite(l, es, written);
    assert Shorts(m)[0] == Write("", false) && Shorts(m)[1..] == Shorts(m - 1);
    if m > 1 {
      now := ShortRun(After(l, Write("", false)), now, Written(l, written, Write("", false)), m - 1);
    } else {
      assert Shorts(0) == [];
    }
  }

  lemma {:induction false} TextIsLong(lines: seq<string>)
    ensures |lines| <= |Text(lines)|
  {
    if lines != [] {
      TextIsLong(lines[1..]);
    }
  }

  lemma RecentInTurn(l: Log, es: seq<Entry>, written: seq<string>)
    requires Retains(l, es, written) && Recent(es, written)
    ensures AllInTurn(es, |written| + 1)
  {
    TextIsLong(LinesOf(es));
    hide Text, Sorted, Marked, FromWritten;
  }

  function EmptyLog(): Log { Log(true, true, "", 1, 0, 0) }

  /** An empty log after 2^32 short writes: the last line, number zero, and the one before it are there. */
  lemma OneTurn() returns (es: seq<Entry>)
    ensures var end, all := AfterAll(EmptyLog(), Shorts(UINT32)), WrittenAll(EmptyLog(), [], Shorts(UINT32));
      && Retains(end, es, all) && |all| == UINT32 && AllInTurn(es, UINT32 + 1)
      && |es| >= 2 && es[|es| - 1].index == UINT32 && es[|es| - 2].index == UINT32 - 1
  {
    NothingIsSorted();
    assert Retains(EmptyLog(), [], []) by {
      hide Text, LinesOf;
    }
    hide Retains, Shorts, AfterAll, WrittenAll;
    es := ShortRun(EmptyLog(), [], [], UINT32);
    RecentInTurn(AfterAll(EmptyLog(), Shorts(UINT32)), es, WrittenAll(EmptyLog(), [], Shorts(UINT32)));
  }

  lemma EndOfTurn()
    ensures U32(UINT32 + 1) == 1 && Zero(UINT32 + 1) == UINT32 && U32(UINT32) == 0 && U32(UINT32 - 1) == UINT32 - 1
  {}

  /** A reader that had everything before number zero is sent some of it again. */
  lemma WrapRepeats(maxBytes: nat) returns (sent: seq<Entry>)
    ensures var l := AfterAll(EmptyLog(), Shorts(UINT32));
      var reply := Since(l, l, 0, maxBytes);
      reply.body == Text(LinesOf(sent)) && Repeats(sent, UINT32, Place(UINT32 + 1, reply.nextCursor))
  {
    var es := OneTurn();
    EndOfTurn();
    hide Shorts, AfterAll, WrittenAll, Since, Text, LinesOf, Repeats, Loses, AllInTurn, MustLose, ZeroAlone, U32, Zero,
         Marked, FromWritten;
    var l, written := AfterAll(EmptyLog(), Shorts(UINT32)), WrittenAll(EmptyLog(), [], Shorts(UINT32));
    var seen;
    seen, sent := ReadIsExact(l, l, es, written, UINT32 + 1, UINT32, maxBytes);
    assert es[..seen] == es;
    assert es[0].index < UINT32;
  }

  /** A reader that lacks the last line before number zero is sent nothing and set behind it. */
  lemma WrapLoses(maxBytes: nat) returns (es: seq<Entry>)
    ensures var l := AfterAll(EmptyLog(), Shorts(UINT32));
      && Retains(l, es, WrittenAll(EmptyLog(), [], Shorts(UINT32)))
      && Since(l, l, UINT32 - 1, maxBytes) == Reply("", 1)
      && Loses(es, [], UINT32 - 1, UINT32 + 1) && Place(UINT32 + 1, 1) == UINT32 + 1
  {
    es := OneTurn();
    EndOfTurn();
    hide Shorts, AfterAll, WrittenAll, Text, LinesOf, AllInTurn, U32, Zero, Marked, FromWritten, Sorted, Pick, Lines;
    assert es[|es| - 1] in es;
  }
}
