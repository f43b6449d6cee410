/**
 The protocol log: a circular byte buffer of newline-terminated lines that evicts whole oldest lines
 to make room. Bytes are modelled as characters, `std::string` as `string`.
 */
module ProtocolLog {
  import opened Words

  const CAPACITY: nat := 49152

  function U32(n: nat): (r: nat)
    ensures r < UINT32
  {
    n % UINT32
  }

  // ---------------------------------------------------------------- the log as a value

  datatype Log = Log(
    ready: bool, enabled: bool,
    contents: string,
    nextSeq: nat, droppedRecords: nat, droppedBytes: nat)

  /** Length of the first line with its newline; everything, if there is no newline. */
  function FirstLine(contents: string): (n: nat)
    ensures n <= |contents|
    ensures contents != [] ==> n > 0
  {
    if contents == [] then 0
    else if contents[0] == '\n' then 1
    else 1 + FirstLine(contents[1..])
  }

  predicate Clean(line: string) { '\n' !in line }

  lemma {:induction false} FirstLineEnds(line: string, rest: string)
    requires Clean(line)
    ensures FirstLine((line + "\n") + rest) == |line| + 1
    decreases |line|
  {
    var text := (line + "\n") + rest;
    if line == "" {
      assert text[0] == '\n';
    } else {
      FirstLineEnds(line[1..], rest);
      assert text[1..] == (line[1..] + "\n") + rest && text[0] == line[0];
    }
  }

  function DiscardOldest(l: Log): Log {
    if l.contents == [] then l
    else
      var n := FirstLine(l.contents);
      l.(contents := l.contents[n..],
         droppedRecords := U32(l.droppedRecords + 1),
         droppedBytes := U32(l.droppedBytes + n))
  }

  function EvictFor(l: Log, needed: nat): Log
    requires needed <= CAPACITY
    decreases |l.contents|
  {
    if needed + |l.contents| <= CAPACITY then l else EvictFor(DiscardOldest(l), needed)
  }

  function AppendLine(l: Log, line: string, force: bool): Log {
    if !l.ready || (!force && !l.enabled) then l
    else
      var needed := |line| + 1;
      if needed > CAPACITY then
        l.(droppedRecords := U32(l.droppedRecords + 1), droppedBytes := U32(l.droppedBytes + needed))
      else
        var e := EvictFor(l, needed);
        e.(contents := e.contents + (line + "\n"))
  }

  function Clear(l: Log): Log {
    l.(contents := "", nextSeq := 1, droppedRecords := 0, droppedBytes := 0)
  }

  function TakeSeq(l: Log): Log {
    l.(nextSeq := U32(l.nextSeq + 1))
  }

  datatype Op = Append(line: string, force: bool) | ClearAll | Enable(on: bool) | Take

  function Step(l: Log, op: Op): Log {
    match op
    case Append(line, force) => AppendLine(l, line, force)
    case ClearAll => Clear(l)
    case Enable(on) => l.(enabled := on)
    case Take => TakeSeq(l)
  }

  function Run(l: Log, ops: seq<Op>): Log
    decreases |ops|
  {
    if ops == [] then l else Step(Run(l, ops[..|ops| - 1]), ops[|ops| - 1])
  }

  // ---------------------------------------------------------------- reading

  predicate Digit(c: char) { '0' <= c <= '9' }

  function ParseDigits(text: string, value: nat): nat
    decreases |text|
  {
    if text == [] || !Digit(text[0]) then value
    else ParseDigits(text[1..], U32(value * 10 + (text[0] - '0') as nat))
  }

  const PREFIX: string := "{\"seq\":"

  /** The sequence number printed at the front of a line; 0 if there is none. */
  function LineSeq(line: string): nat {
    if |line| <= |PREFIX| || line[..|PREFIX|] != PREFIX then 0 else ParseDigits(line[|PREFIX|..], 0)
  }

  method ReadLineSeq(line: string) returns (value: nat)
    ensures value == LineSeq(line)
  {
    if |line| <= |PREFIX| || line[..|PREFIX|] != PREFIX {
      return 0;
    }
    value := 0;
    for i := |PREFIX| to |line|
      invariant ParseDigits(line[|PREFIX|..], 0) == ParseDigits(line[i..], value)
    {
      assert line[i..][1..] == line[i + 1..];
      if !Digit(line[i]) {
        return;
      }
      value := U32(value * 10 + (line[i] - '0') as nat);
    }
  }

  /** The complete lines of a text; an unterminated tail is dropped. */
  function Lines(text: string): seq<string>
    decreases |text|
  {
    if '\n' !in text then []
    else
      var n := FirstLine(text);
      [text[..n - 1]] + Lines(text[n..])
  }

  lemma LinesStep(line: string, rest: string)
    requires Clean(line)
    ensures Lines(line + "\n" + rest) == [line] + Lines(rest)
  {
    var text := line + "\n" + rest;
    FirstLineEnds(line, rest);
    assert text[|line|] == '\n';
    assert text[..|line|] == line && text[|line| + 1..] == rest;
  }

  datatype Chunk = Chunk(body: string, lastSeq: nat)

  /** Lines from the cursor on, whole, until the size limit; the first one always fits. */
  function Pick(lines: seq<string>, cursor: nat, maxBytes: nat, sofar: Chunk): Chunk
    decreases |lines|
  {
    if lines == [] then sofar
    else if LineSeq(lines[0]) < cursor then Pick(lines[1..], cursor, maxBytes, sofar)
    else if sofar.body != "" && |sofar.body| + (|lines[0]| + 1) > maxBytes then sofar
    else Pick(lines[1..], cursor, maxBytes, Chunk(sofar.body + lines[0] + "\n", LineSeq(lines[0])))
  }

  /** What the reader copies: as many bytes as there were at its first look, if there still are. */
  function Snapshot(first: Log, second: Log): string {
    second.contents[..if |first.contents| <= |second.contents| then |first.contents| else |second.contents|]
  }

  datatype Reply = Reply(body: string, nextCursor: nat)

  /** The reader's result, given the log at its first and at its second critical section. */
  function Since(first: Log, second: Log, cursor: nat, maxBytes: nat): Reply {
    if cursor == first.nextSeq then Reply("", first.nextSeq)
    else
      var cursor1 := if first.nextSeq < cursor then 1 else cursor;
      if cursor1 == second.nextSeq then Reply("", second.nextSeq)
      else
        var cursor2 := if second.nextSeq < cursor1 then 1 else cursor1;
        var chunk := Pick(Lines(Snapshot(first, second)), cursor2, maxBytes, Chunk("", 0));
        Reply(chunk.body, if chunk.lastSeq != 0 then U32(chunk.lastSeq + 1) else cursor2)
  }
}
