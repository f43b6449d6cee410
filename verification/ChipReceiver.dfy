/** The chip's response framer: at most one frame per byte, and each response seen once, in order. */
module ChipReceiver {
  import opened Crc16
  import opened Framing
  import opened MasterChip
  import opened Protocol
  import opened Sequences

  lemma ResponseIsDecisive()
    ensures Decisive(ResponseNeed, MAX_FRAME)
  {
    forall s: seq<byte> | ResponseNeed(s).Exactly? && ResponseNeed(s).length <= |s|
      ensures ResponseNeed(s[..ResponseNeed(s).length]) == ResponseNeed(s)
    {}
  }

  /** The responses the chip takes: from the slave, of function 0x17, as long as their third byte says, 32 at most. */
  lemma WellFormedResponse(frame: seq<byte>)
    ensures ResponseNeed(frame) == Exactly(|frame|) <==>
      5 <= |frame| <= 32 && frame[0] == 0x02 && frame[1] == 0x17 && frame[2] as nat + 5 == |frame|
  {}

  /** What the buffer may hold between two bytes. */
  predicate Quiet(rx: seq<byte>) {
    match ResponseNeed(rx)
    case More => true
    case Bad => false
    case Exactly(n) => |rx| < n
  }

  lemma NeedGrows(rx: seq<byte>, b: byte)
    requires Quiet(rx)
    ensures |rx| < MAX_FRAME
    ensures |rx| >= 3 ==> ResponseNeed(rx + [b]) == ResponseNeed(rx)
    ensures !Quiet(rx + [b]) ==> ResponseNeed(rx + [b]) == (if |rx| == 2 then Bad else Exactly(|rx| + 1))
  {}

  lemma QuietIsShort(rx: seq<byte>)
    requires Quiet(rx)
    ensures |rx| < MAX_FRAME
  {}

  /**
   A byte added to a quiet buffer completes at most one frame, and then that frame is the whole buffer;
   otherwise no frame is processed. Either way the buffer is quiet again and shorter than a frame may be,
   so neither the overflow shift nor the shift behind a processed frame ever happens.
   */
  lemma OneFramePerByte(m: Master, b: byte)
    requires Quiet(m.rx) && !Final(m.chip.phase)
    ensures |m.rx| < MAX_FRAME
    ensures var buffer := m.rx + [b];
      if ResponseNeed(buffer) == Exactly(|buffer|) then OnByte(m, b) == Master(Process(m.chip, buffer), [])
      else OnByte(m, b).chip == m.chip
    ensures Quiet(OnByte(m, b).rx) && |OnByte(m, b).rx| < MAX_FRAME
  {
    var buffer := m.rx + [b];
    NeedGrows(m.rx, b);
    assert MakeRoom(m.rx) == m.rx;
    hide Process;
    if !Quiet(buffer) && |m.rx| == 2 {
      SkipOne(m.chip, buffer);
    } else {
      NoSkip(m.chip, buffer);
    }
    hide Consume, ResponseNeed, Quiet;
    QuietIsShort(OnByte(m, b).rx);
  }

  lemma SkipOne(c: Chip, buffer: seq<byte>)
    requires |buffer| == 3 && ResponseNeed(buffer).Bad?
    ensures Consume(c, buffer) == Master(c, buffer[1..]) && Quiet(buffer[1..])
  {
    hide Process;
    assert ResponseNeed(buffer[1..]).More?;
  }

  lemma NoSkip(c: Chip, buffer: seq<byte>)
    requires Quiet(buffer) || ResponseNeed(buffer) == Exactly(|buffer|)
    ensures Consume(c, buffer) == if Quiet(buffer) then Master(c, buffer) else Master(Process(c, buffer), [])
    ensures Quiet([])
  {
    hide Process;
  }

  function OnBytes(m: Master, input: seq<byte>): Master
    decreases |input|
  {
    if input == [] then m else OnBytes(OnByte(m, input[0]), input[1..])
  }

  // ---------------------------------------------------------------- the frames of a stream

  function FramesOf(chunks: seq<Chunk<byte>>): seq<seq<byte>> {
    if chunks == [] then []
    else (if chunks[0].Frame? then [chunks[0].items] else []) + FramesOf(chunks[1..])
  }

  /** Shorter sequences, which the framer never yields, are passed over. */
  function ProcessIt(c: Chip, frame: seq<byte>): Chip {
    if |frame| >= 3 then Process(c, frame) else c
  }

  function ProcessAll(c: Chip, frames: seq<seq<byte>>): Chip
    decreases |frames|
  {
    if frames == [] then c else ProcessAll(ProcessIt(c, frames[0]), frames[1..])
  }

  lemma {:induction false} ProcessConcat(c: Chip, a: seq<seq<byte>>, b: seq<seq<byte>>)
    ensures ProcessAll(c, a + b) == ProcessAll(ProcessAll(c, a), b)
    decreases |a|
  {
    hide ProcessIt;
    if a == [] {
      assert a + b == b;
    } else {
      ProcessConcat(ProcessIt(c, a[0]), a[1..], b);
      assert (a + b)[1..] == a[1..] + b;
    }
  }

  lemma {:induction false} FramesConcat(a: seq<Chunk<byte>>, b: seq<Chunk<byte>>)
    ensures FramesOf(a + b) == FramesOf(a) + FramesOf(b)
  {
    if a == [] {
      assert a + b == b;
    } else {
      FramesConcat(a[1..], b);
      assert (a + b)[1..] == a[1..] + b;
      Assoc(if a[0].Frame? then [a[0].items] else [], FramesOf(a[1..]), FramesOf(b));
    }
  }

  lemma FinalProcessIt(c: Chip, frame: seq<byte>)
    requires Final(c.phase)
    ensures ProcessIt(c, frame) == c
  {
    hide Crc;
  }

  /** After the verdict nothing that arrives changes anything. */
  lemma {:induction false} FinalProcess(c: Chip, frames: seq<seq<byte>>)
    requires Final(c.phase)
    ensures ProcessAll(c, frames) == c
  {
    hide ProcessIt;
    if frames != [] {
      FinalProcessIt(c, frames[0]);
      FinalProcess(c, frames[1..]);
    }
  }

  function Tail(c: Chip, split: Split<byte>): Master {
    Master(ProcessAll(c, FramesOf(split.chunks)), split.held)
  }

  lemma FrontFirst(c: Chip, first: Chunk<byte>, rest: Split<byte>)
    ensures Tail(c, Split([first] + rest.chunks, rest.held))
         == Tail(if first.Frame? then ProcessIt(c, first.items) else c, rest)
  {
    hide ProcessIt;
    var chunks := [first] + rest.chunks;
    assert chunks[1..] == rest.chunks;
    if first.Frame? {
      assert FramesOf(chunks) == [first.items] + FramesOf(rest.chunks);
      assert FramesOf(chunks)[1..] == FramesOf(rest.chunks);
    } else {
      assert FramesOf(chunks) == FramesOf(rest.chunks);
    }
  }

  /** The inner loop processes the frames that framing the buffer yields. */
  lemma {:induction false} ConsumeIsDrain(c: Chip, buffer: seq<byte>)
    requires Decisive(ResponseNeed, MAX_FRAME)
    ensures Consume(c, buffer) == Tail(c, Drain(ResponseNeed, MAX_FRAME, buffer))
    decreases |buffer|
  {
    hide Process, Decisive;
    var n := Leaving(ResponseNeed, MAX_FRAME, buffer);
    if n > 0 {
      var first := Front(ResponseNeed, MAX_FRAME, buffer);
      var rest := Drain(ResponseNeed, MAX_FRAME, buffer[n..]);
      FrontFirst(c, first, rest);
      ConsumeIsDrain(if first.Frame? then ProcessIt(c, first.items) else c, buffer[n..]);
      ConsumeStep(c, buffer, n);
    }
  }

  lemma ConsumeStep(c: Chip, buffer: seq<byte>, n: nat)
    requires 0 < n <= |buffer| && ResponseNeed(buffer) == (if ResponseNeed(buffer).Bad? then Bad else Exactly(n))
    requires ResponseNeed(buffer).Bad? ==> n == 1
    ensures Consume(c, buffer)
         == Consume(if ResponseNeed(buffer).Bad? then c else ProcessIt(c, buffer[..n]), buffer[n..])
  {
    hide Process;
    if n == |buffer| {
      assert buffer[..n] == buffer && buffer[n..] == [];
    }
  }

  /**
   Whatever arrives, the chip acts on exactly the frames that framing the whole stream yields, in order;
   frames after a verdict have no effect.
   */
  lemma {:induction false} StreamIsProcessed(m: Master, input: seq<byte>)
    requires Decisive(ResponseNeed, MAX_FRAME) && Quiet(m.rx)
    ensures OnBytes(m, input).chip
         == ProcessAll(m.chip, FramesOf(DrainEach(ResponseNeed, MAX_FRAME, m.rx, input).chunks))
    decreases |input|
  {
    hide ProcessIt, Decisive, Consume, Drain, Process, ResponseNeed;
    if input == [] {
    } else if Final(m.chip.phase) {
      FinalIgnores(m, input);
      FinalProcess(m.chip, FramesOf(DrainEach(ResponseNeed, MAX_FRAME, m.rx, input).chunks));
    } else {
      var now := Drain(ResponseNeed, MAX_FRAME, m.rx + [input[0]]);
      var later := DrainEach(ResponseNeed, MAX_FRAME, now.held, input[1..]);
      QuietIsShort(m.rx);
      ConsumeIsDrain(m.chip, m.rx + [input[0]]);
      OneFramePerByte(m, input[0]);
      StreamIsProcessed(OnByte(m, input[0]), input[1..]);
      FramesConcat(now.chunks, later.chunks);
      ProcessConcat(m.chip, FramesOf(now.chunks), FramesOf(later.chunks));
    }
  }

  lemma {:induction false} FinalIgnores(m: Master, input: seq<byte>)
    requires Final(m.chip.phase)
    ensures OnBytes(m, input) == m
    decreases |input|
  {
    hide Consume;
    if input != [] {
      FinalIgnores(m, input[1..]);
    }
  }

  lemma {:induction false} FramesOfFrames(frames: seq<seq<byte>>)
    ensures FramesOf(AsFrames(frames)) == frames
  {
    if frames != [] {
      FramesOfFrames(frames[1..]);
    }
  }

  /** Well-formed responses sent back to back, in any number, are each processed once, in order. */
  lemma ResponsesAreSeenOnce(c: Chip, frames: seq<seq<byte>>)
    requires forall i :: 0 <= i < |frames| ==> ResponseNeed(frames[i]) == Exactly(|frames[i]|)
    ensures OnBytes(Master(c, []), Flatten(frames)).chip == ProcessAll(c, frames)
  {
    ResponseIsDecisive();
    hide Decisive, ResponseNeed, ProcessIt;
    StreamIsProcessed(Master(c, []), Flatten(frames));
    SentFramesAreReceived(ResponseNeed, MAX_FRAME, frames);
    FramesOfFrames(frames);
  }

  lemma NeedOfHead(frame: seq<byte>, n: nat)
    requires n < 256 && |frame| == n + 5 <= MAX_FRAME
    requires frame[..3] == [SLAVE_ID, FC_READ_WRITE_MULTIPLE_REGISTERS, n as byte]
    ensures ResponseNeed(frame) == Exactly(|frame|)
  {
    assert frame[0] == frame[..3][0] && frame[1] == frame[..3][1] && frame[2] == frame[..3][2];
  }

  /** The bench's response builders produce well-formed responses. */
  lemma BuiltScanResponse(signature: seq<byte>)
    requires |signature| <= MAX_FRAME - 5
    ensures var scan := ScanResponse(SLAVE_ID, signature);
      ResponseNeed(scan) == Exactly(|scan|) && CrcOk(scan)
  {
    hide Crc, Lo, Hi;
    var scan := [SLAVE_ID, FC_READ_WRITE_MULTIPLE_REGISTERS, |signature| as byte] + signature;
    AppendedResidue(scan);
    assert AppendCrc(scan)[..3] == scan[..3] && |AppendCrc(scan)| == |signature| + 5;
    NeedOfHead(AppendCrc(scan), |signature|);
    hide ResponseNeed, AppendCrc, CrcOk;
  }

  lemma BuiltCommandResponse(counter: int, command: int)
    ensures var reply := CommandResponse(SLAVE_ID, counter, command);
      ResponseNeed(reply) == Exactly(|reply|) && CrcOk(reply)
  {
    hide Crc, Lo, Hi, ToByte;
    AppendedResidue([SLAVE_ID, FC_READ_WRITE_MULTIPLE_REGISTERS, 0x04, ToByte(counter), 0x00, ToByte(command), 0xFD]);
  }
}
