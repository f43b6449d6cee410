/** The circular buffer behind the protocol log, proved to be the log value at every operation. */
module LogRing {
  import opened ProtocolLog

  /** Buffer position of the `i`-th stored byte. */
  function Slot(start: nat, i: nat): (r: nat)
    requires start < CAPACITY && i <= CAPACITY
    ensures r < CAPACITY
    ensures r == if start + i < CAPACITY then start + i else start + i - CAPACITY
  {
    (start + i) % CAPACITY
  }

  lemma SlotIs(start: nat, i: nat)
    requires start < CAPACITY && i <= CAPACITY
    ensures (start + i) % CAPACITY == Slot(start, i)
  {}

  lemma NextSlot(start: nat, i: nat)
    requires start < CAPACITY && i < CAPACITY
    ensures (Slot(start, i) + 1) % CAPACITY == Slot(start, i + 1)
  {}

  lemma ShiftSlots(start: nat, n: nat, left: nat)
    requires start < CAPACITY && n + left <= CAPACITY
    ensures forall i :: 0 <= i <= left ==> Slot(Slot(start, n), i) == Slot(start, n + i)
  {}

  lemma OtherSlots(start: nat, i: nat)
    requires start < CAPACITY && i < CAPACITY
    ensures forall j :: 0 <= j < i ==> Slot(start, j) != Slot(start, i)
  {}

  class ProtocolLogRing {
    var buffer: array<char>
    var start: nat
    var used: nat
    var nextSeq: nat
    var droppedRecords: nat
    var droppedBytes: nat
    var ready: bool
    var enabled: bool

    ghost predicate Valid()
      reads this
    {
      buffer.Length == CAPACITY && start < CAPACITY && used <= CAPACITY
    }

    ghost function Contents(): (s: string)
      requires Valid()
      reads this, buffer
      ensures |s| == used
      ensures forall i :: 0 <= i < used ==> s[i] == buffer[Slot(start, i)]
    {
      seq(used, i requires 0 <= i < used && Valid() reads this, buffer => buffer[Slot(start, i)])
    }

    ghost function State(): Log
      requires Valid()
      reads this, buffer
    {
      Log(ready, enabled, Contents(), nextSeq, droppedRecords, droppedBytes)
    }

    /** Setup; the log may have been enabled before. */
    constructor (on: bool)
      ensures Valid() && fresh(buffer)
      ensures State() == Log(true, on, "", 1, 0, 0)
    {
      buffer := new char[CAPACITY](_ => '\0');
      start, used, nextSeq, droppedRecords, droppedBytes := 0, 0, 1, 0, 0;
      ready, enabled := true, on;
    }

    method ClearLog()
      requires Valid()
      modifies this, buffer
      ensures Valid() && buffer == old(buffer)
      ensures State() == Clear(old(State()))
    {
      start := 0;
      used := 0;
      nextSeq := 1;
      droppedRecords := 0;
      droppedBytes := 0;
      forall i | 0 <= i < buffer.Length {
        buffer[i] := '\0';
      }
      assert Contents() == "";
    }

    /** Scans for the end of the oldest line. */
    method OldestLineLength() returns (discard: nat)
      requires Valid()
      ensures discard == FirstLine(Contents())
    {
      ghost var text := Contents();
      discard := used;
      assert text[0..] == text;
      for i := 0 to used
        invariant FirstLine(text) == i + FirstLine(text[i..])
      {
        var index := (start + i) % CAPACITY;
        assert index == Slot(start, i);
        assert text[i..][0] == buffer[index] && text[i..][1..] == text[i + 1..];
        if buffer[index] == '\n' {
          discard := i + 1;
          return;
        }
      }
      assert text[used..] == "";
    }

    /** Drops `n` stored bytes from the front. */
    method Advance(n: nat)
      requires Valid() && n <= used
      modifies this`start, this`used
      ensures Valid()
      ensures Contents() == old(Contents())[n..]
    {
      assert (start + n) % CAPACITY == Slot(start, n);
      ShiftSlots(start, n, used - n);
      start := (start + n) % CAPACITY;
      used := used - n;
    }

    method DiscardOldestLine()
      requires Valid()
      modifies this`start, this`used, this`droppedRecords, this`droppedBytes
      ensures Valid()
      ensures State() == DiscardOldest(old(State()))
    {
      if used == 0 {
        return;
      }
      var discard := OldestLineLength();
      hide FirstLine;
      Advance(discard);
      droppedRecords := U32(droppedRecords + 1);
      droppedBytes := U32(droppedBytes + discard);
    }

    /** Writes `line` and a newline behind the stored bytes; there must be room. */
    method WriteLine(line: string)
      requires Valid() && used + |line| + 1 <= CAPACITY
      modifies this`used, buffer
      ensures Valid()
      ensures Contents() == old(Contents()) + (line + "\n")
    {
      hide Slot;
      ghost var whole := Contents() + (line + "\n");
      var write := (start + used) % CAPACITY;
      SlotIs(start, used);
      for i := 0 to |line|
        invariant start == old(start) && used == old(used) && buffer == old(buffer)
        invariant write == Slot(start, used + i)
        invariant forall j :: 0 <= j < used + i ==> buffer[Slot(start, j)] == whole[j]
      {
        OtherSlots(start, used + i);
        buffer[write] := line[i];
        NextSlot(start, used + i);
        write := (write + 1) % CAPACITY;
      }
      OtherSlots(start, used + |line|);
      buffer[write] := '\n';
      used := used + (|line| + 1);
      assert Contents() == whole;
    }

    method Append(line: string, force: bool)
      requires Valid()
      modifies this, buffer
      ensures Valid() && buffer == old(buffer)
      ensures State() == AppendLine(old(State()), line, force)
    {
      if !ready {
        return;
      }
      if !force && !enabled {
        return;
      }
      var needed := |line| + 1;
      if needed > CAPACITY {
        droppedRecords := U32(droppedRecords + 1);
        droppedBytes := U32(droppedBytes + needed);
        return;
      }
      ghost var goal := EvictFor(State(), needed);
      while needed > CAPACITY - used
        invariant Valid() && buffer == old(buffer)
        invariant EvictFor(State(), needed) == goal
        decreases used
      {
        DiscardOldestLine();
      }
      WriteLine(line);
    }

    method Perform(op: Op)
      requires Valid()
      modifies this, buffer
      ensures Valid() && buffer == old(buffer)
      ensures State() == Step(old(State()), op)
    {
      match op
      case Append(line, force) => Append(line, force);
      case ClearAll => ClearLog();
      case Enable(on) => enabled := on;
      case Take => nextSeq := U32(nextSeq + 1);
    }

    /** Whatever other tasks do between two critical sections of a reader. */
    method PerformAll(ops: seq<Op>)
      requires Valid()
      modifies this, buffer
      ensures Valid() && buffer == old(buffer)
      ensures State() == Run(old(State()), ops)
    {
      for i := 0 to |ops|
        invariant Valid() && buffer == old(buffer)
        invariant State() == Run(old(State()), ops[..i])
      {
        Perform(ops[i]);
        assert ops[..i + 1][..i] == ops[..i];
      }
      assert ops[..|ops|] == ops;
    }

    /** The second critical section: copy at most `limit` bytes from the front. */
    method CopyOut(limit: nat) returns (text: string)
      requires Valid()
      ensures text == Contents()[..if limit <= used then limit else used]
    {
      var count := if limit <= used then limit else used;
      text := "";
      for i := 0 to count
        invariant text == Contents()[..i]
      {
        text := text + [buffer[(start + i) % CAPACITY]];
        assert (start + i) % CAPACITY == Slot(start, i);
      }
    }

    /** The whole log as text; `between` runs between the reader's two critical sections. */
    method Body(between: seq<Op>) returns (body: string)
      requires Valid()
      modifies this, buffer
      ensures Valid() && buffer == old(buffer)
      ensures State() == Run(old(State()), between)
      ensures body == Snapshot(old(State()), State())
    {
      var snapshotLen := used;
      PerformAll(between);
      body := CopyOut(snapshotLen);
    }

    /** The cursor reader; `between` runs between its two critical sections. */
    method BodySince(cursor: nat, maxBytes: nat, between: seq<Op>) returns (body: string, nextCursor: nat)
      requires Valid()
      modifies this, buffer
      ensures Valid() && buffer == old(buffer)
      ensures State() == (if cursor == old(nextSeq) then old(State()) else Run(old(State()), between))
      ensures Reply(body, nextCursor) == Since(old(State()), State(), cursor, maxBytes)
    {
      hide Pick, Lines, Run;
      var cursorSeq := cursor;
      var snapshotLen := used;
      var next := nextSeq;
      if next < cursorSeq {
        cursorSeq := 1;
      } else if cursorSeq >= next {
        return "", next;
      }
      PerformAll(between);
      next := nextSeq;
      var snapshot := CopyOut(snapshotLen);
      if next < cursorSeq {
        cursorSeq := 1;
      } else if cursorSeq >= next {
        return "", next;
      }
      var lastSent;
      body, lastSent := PickLines(snapshot, cursorSeq, maxBytes);
      nextCursor := if lastSent != 0 then U32(lastSent + 1) else cursorSeq;
    }
  }

  /** What the scan will have picked, with `line` begun, `rest` still to come and `sofar` already picked. */
  function Picked(line: string, rest: string, cursor: nat, maxBytes: nat, sofar: Chunk): Chunk {
    Pick(Lines(line + rest), cursor, maxBytes, sofar)
  }

  lemma ScanStarts(snapshot: string, cursor: nat, maxBytes: nat, sofar: Chunk)
    ensures Picked("", snapshot[0..], cursor, maxBytes, sofar) == Pick(Lines(snapshot), cursor, maxBytes, sofar)
  {
    hide Pick, Lines;
    assert "" + snapshot[0..] == snapshot;
  }

  lemma ScanCharacter(line: string, c: char, rest: string, cursor: nat, maxBytes: nat, sofar: Chunk)
    ensures Picked(line, [c] + rest, cursor, maxBytes, sofar) == Picked(line + [c], rest, cursor, maxBytes, sofar)
  {
    hide Pick, Lines;
    assert line + ([c] + rest) == (line + [c]) + rest;
  }

  lemma ScanLineEnd(line: string, rest: string, cursor: nat, maxBytes: nat, sofar: Chunk)
    requires Clean(line)
    ensures Picked(line, "\n" + rest, cursor, maxBytes, sofar)
         == if LineSeq(line) < cursor then Picked("", rest, cursor, maxBytes, sofar)
            else if sofar.body != "" && |sofar.body| + (|line| + 1) > maxBytes then sofar
            else Picked("", rest, cursor, maxBytes, Chunk(sofar.body + line + "\n", LineSeq(line)))
  {
    hide Pick, Lines, LineSeq;
    assert line + ("\n" + rest) == line + "\n" + rest && "" + rest == rest;
    LinesStep(line, rest);
    PickStep(line, Lines(rest), cursor, maxBytes, sofar);
  }

  lemma ScanEnds(line: string, cursor: nat, maxBytes: nat, sofar: Chunk)
    requires Clean(line)
    ensures Picked(line, "", cursor, maxBytes, sofar) == sofar
  {
    assert line + "" == line;
  }

  /** The reader's scan of its snapshot, character by character. */
  method PickLines(snapshot: string, cursor: nat, maxBytes: nat) returns (body: string, lastSent: nat)
    ensures Chunk(body, lastSent) == Pick(Lines(snapshot), cursor, maxBytes, Chunk("", 0))
  {
    hide Picked, Pick, Lines, LineSeq;
    body, lastSent := "", 0;
    var line := "";
    ghost var goal := Pick(Lines(snapshot), cursor, maxBytes, Chunk("", 0));
    ScanStarts(snapshot, cursor, maxBytes, Chunk("", 0));
    for i := 0 to |snapshot|
      invariant Clean(line)
      invariant Picked(line, snapshot[i..], cursor, maxBytes, Chunk(body, lastSent)) == goal
    {
      var c := snapshot[i];
      ghost var rest := snapshot[i + 1..];
      assert snapshot[i..] == [c] + rest;
      if c != '\n' {
        ScanCharacter(line, c, rest, cursor, maxBytes, Chunk(body, lastSent));
        line := line + [c];
        continue;
      }
      ScanLineEnd(line, rest, cursor, maxBytes, Chunk(body, lastSent));
      var seqNo := ReadLineSeq(line);
      if seqNo >= cursor {
        var needed := |line| + 1;
        if body != "" && |body| + needed > maxBytes {
          return;
        }
        body := body + line + "\n";
        lastSent := seqNo;
      }
      line := "";
    }
    assert snapshot[|snapshot|..] == "";
    ScanEnds(line, cursor, maxBytes, Chunk(body, lastSent));
  }

  lemma PickStep(line: string, rest: seq<string>, cursor: nat, maxBytes: nat, sofar: Chunk)
    ensures Pick([line] + rest, cursor, maxBytes, sofar)
         == if LineSeq(line) < cursor then Pick(rest, cursor, maxBytes, sofar)
            else if sofar.body != "" && |sofar.body| + (|line| + 1) > maxBytes then sofar
            else Pick(rest, cursor, maxBytes, Chunk(sofar.body + line + "\n", LineSeq(line)))
  {
    assert ([line] + rest)[1..] == rest;
  }
}
