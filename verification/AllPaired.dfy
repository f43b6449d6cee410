/**
 End to end: polls and status responses on two sampled lines, each response in its own gate window, come out of
 the latency summary as one pair per poll with nothing left over.
 */
module AllPaired {
  import opened Crc16
  import opened GateWindows
  import opened LaDecoder
  import opened Latency
  import opened MasterFrames
  import opened Options
  import opened Protocol
  import opened ResponseWindows
  import opened Sequences
  import opened Uart
  import opened UartLine

  // ---------------------------------------------------------------- responses are recognised

  lemma ScanReplyIsRecognised(slaveId: byte, signature: seq<byte>)
    requires |signature| == 10
    ensures var frame := ScanResponse(slaveId, signature);
      CrcOk(frame) && DecodeResponseKind(frame) == ScanReply && ResponseCounter(frame) == None
  {
    hide Crc, Lo, Hi;
    var payload := [slaveId, FC_READ_WRITE_MULTIPLE_REGISTERS, 0x0A as byte] + signature;
    AppendedResidue(payload);
    assert AppendCrc(payload)[1] == payload[1] && AppendCrc(payload)[2] == payload[2];
  }

  lemma CommandReplyIsRecognised(slaveId: byte, counter: int, command: int)
    ensures var frame := CommandResponse(slaveId, counter, command);
      CrcOk(frame) && DecodeResponseKind(frame) == CommandReply && ResponseCounter(frame) == Some(ToByte(counter))
  {
    hide Crc, Lo, Hi, ToByte;
    AppendedResidue([slaveId, FC_READ_WRITE_MULTIPLE_REGISTERS, 0x04, ToByte(counter), 0x00, ToByte(command), 0xFD]);
  }

  /** A status response: sixteen bytes of data, the first of them the counter of the poll it answers. */
  function StatusResponse(slaveId: byte, data: seq<byte>): seq<byte> {
    AppendCrc([slaveId, FC_READ_WRITE_MULTIPLE_REGISTERS, 0x10] + data)
  }

  lemma StatusReplyIsRecognised(slaveId: byte, data: seq<byte>)
    requires |data| == 16
    ensures var frame := StatusResponse(slaveId, data);
      CrcOk(frame) && DecodeResponseKind(frame) == StatusReply && ResponseCounter(frame) == Some(data[0])
  {
    hide Crc, Lo, Hi;
    var payload := [slaveId, FC_READ_WRITE_MULTIPLE_REGISTERS, 0x10 as byte] + data;
    AppendedResidue(payload);
    var frame := AppendCrc(payload);
    assert frame[1] == payload[1] && frame[2] == payload[2] && frame[3] == payload[3] == data[0];
  }

  /** Any frame is judged by its second and third byte: 10, 16 or 4 bytes of data read with function 0x17. */
  lemma KindsAreCounts(frame: seq<byte>)
    ensures var kind, known := DecodeResponseKind(frame), 3 <= |frame| && frame[1] == 0x17;
      && (kind == ScanReply <==> known && frame[2] as nat == 10)
      && (kind == StatusReply <==> known && frame[2] as nat == 16)
      && (kind == CommandReply <==> known && frame[2] as nat == 4)
      && (ResponseCounter(frame).Some? <==> 4 <= |frame| && (kind == StatusReply || kind == CommandReply))
  {}

  // ---------------------------------------------------------------- the lists

  /** A poll as the summary takes it from a decoded frame. */
  function PollOf(f: StreamFrame, t0: real, bitS: real): Poll
    requires f.counter.Some? && f.bytes != []
  {
    Poll.Poll(f.counter.value as int, Micros(f.bytes[0].startS, t0),
              Micros(f.bytes[|f.bytes| - 1].startS, t0) + 11.0 * bitS * 1000000.0)
  }

  predicate IsPoll(f: StreamFrame) {
    f.crcOk && NoErrors(f.bytes) && f.kind.StatusPollKind? && f.counter.Some? && f.bytes != []
  }

  lemma {:induction false} EachIsPoll(frames: seq<StreamFrame>, t0: real, bitS: real)
    requires forall i :: 0 <= i < |frames| ==> IsPoll(frames[i])
    ensures |StatusPolls(frames, t0, bitS)| == |frames|
    ensures forall i :: 0 <= i < |frames| ==>
      IsPoll(frames[i]) && StatusPolls(frames, t0, bitS)[i] == PollOf(frames[i], t0, bitS)
    decreases |frames|
  {
    hide NoErrors;
    if frames != [] {
      EachIsPoll(frames[..|frames| - 1], t0, bitS);
    }
  }

  predicate IsReply(w: WindowReport) {
    w.crcOk && NoErrors(w.bytes) && w.kind.StatusReply? && w.counter.Some?
  }

  lemma {:induction false} EachIsReply(reports: seq<WindowReport>)
    requires forall i :: 0 <= i < |reports| ==> IsReply(reports[i])
    ensures |StatusResponses(reports)| == |reports|
    ensures forall i :: 0 <= i < |reports| ==>
      var w := reports[i];
      && IsReply(w)
      && StatusResponses(reports)[i]
         == Response(w.counter.value as int, w.startUs, w.endUs, w.firstByteUs, w.frameEndUs)
    decreases |reports|
  {
    hide NoErrors;
    if reports != [] {
      EachIsReply(reports[..|reports| - 1]);
    }
  }

  /** A request frame the summary counts: checked, without a faulty byte, a status poll with its counter. */
  ghost predicate CountsAsPoll(f: StreamFrame, t0: real, bitS: real, p: Poll) {
    && f.crcOk && (forall b :: b in f.bytes ==> b.errors == []) && f.kind == StatusPollKind
    && f.counter.Some? && f.bytes != [] && p == PollOf(f, t0, bitS)
  }

  /** The summary's polls are exactly the clean status polls among the frames. */
  lemma {:induction false} PollsAreClean(frames: seq<StreamFrame>, t0: real, bitS: real, p: Poll)
    ensures p in StatusPolls(frames, t0, bitS) <==>
      exists i :: 0 <= i < |frames| && CountsAsPoll(frames[i], t0, bitS, p)
    decreases |frames|
  {
    if frames != [] {
      var init, f := frames[..|frames| - 1], frames[|frames| - 1];
      PollsAreClean(init, t0, bitS, p);
      assert forall i :: 0 <= i < |init| ==> init[i] == frames[i];
      PollCounts(f, t0, bitS, p);
      hide CountsAsPoll, PollOf, NoErrors, Micros;
    }
  }

  lemma PollCounts(f: StreamFrame, t0: real, bitS: real, p: Poll)
    ensures CountsAsPoll(f, t0, bitS, p) <==> IsPoll(f) && p == PollOf(f, t0, bitS)
  {
    if IsPoll(f) {
      assert forall b :: b in f.bytes ==> b.errors == [];
    }
    hide PollOf;
  }

  /** A window the summary counts: checked, without a faulty byte, a status response with its counter. */
  ghost predicate CountsAsReply(w: WindowReport, r: Response) {
    && w.crcOk && (forall b :: b in w.bytes ==> b.errors == []) && w.kind == StatusReply && w.counter.Some?
    && r == Response(w.counter.value as int, w.startUs, w.endUs, w.firstByteUs, w.frameEndUs)
  }

  /** The summary's responses are exactly the clean status responses among the windows. */
  lemma {:induction false} RepliesAreClean(reports: seq<WindowReport>, r: Response)
    ensures r in StatusResponses(reports) <==> exists i :: 0 <= i < |reports| && CountsAsReply(reports[i], r)
    decreases |reports|
  {
    if reports != [] {
      var init, w := reports[..|reports| - 1], reports[|reports| - 1];
      RepliesAreClean(init, r);
      assert forall i :: 0 <= i < |init| ==> init[i] == reports[i];
      ReplyCounts(w, r);
      hide CountsAsReply, NoErrors;
    }
  }

  lemma ReplyCounts(w: WindowReport, r: Response)
    ensures CountsAsReply(w, r) <==>
      IsReply(w) && r == Response(w.counter.value as int, w.startUs, w.endUs, w.firstByteUs, w.frameEndUs)
  {
    if IsReply(w) {
      assert forall b :: b in w.bytes ==> b.errors == [];
    }
  }

  // ---------------------------------------------------------------- the pairing

  /** Response `k` carries the counter of poll `k` and starts between the ends of that poll and the next. */
  ghost predicate Alternate(polls: seq<Poll>, responses: seq<Response>) {
    && |polls| == |responses|
    && (forall k :: 0 <= k < |polls| ==> Eligible(polls[k], responses[k]) && Timed(responses[k]))
    && (forall k :: 0 <= k < |polls| - 1 ==> responses[k].startUs < polls[k + 1].endUs)
    && (forall j, k :: 0 <= j < k < |polls| ==> polls[j].endUs < polls[k].endUs)
  }

  /** Then each response takes its own poll. */
  lemma {:induction false} OwnPolls(polls: seq<Poll>, responses: seq<Response>, taken: seq<int>)
    requires Alternate(polls, responses) && Greedy(polls, responses, taken)
    ensures forall k :: 0 <= k < |taken| ==> taken[k] == k
    decreases |taken|
  {
    if taken != [] {
      var n := |taken| - 1;
      GreedyPrefix(polls, responses, taken);
      OwnPolls(polls, responses, taken[..n]);
      assert Choice(polls, responses[n], taken[..n], taken[n]);
      assert Eligible(polls[n], responses[n]);
      LaterIsNotEligible(polls, responses, n);
      hide Alternate, Greedy, Eligible;
      ChoiceIsOwn(polls, responses[n], taken[..n], taken[n]);
    }
  }

  lemma ChoiceIsOwn(polls: seq<Poll>, response: Response, taken: seq<int>, p: int)
    requires Choice(polls, response, taken, p) && |taken| < |polls| && Eligible(polls[|taken|], response)
    requires forall k :: 0 <= k < |taken| ==> taken[k] == k
    requires forall k :: |taken| < k < |polls| ==> !Eligible(polls[k], response)
    ensures p == |taken|
  {
    hide Eligible;
    assert Unused(taken, |taken|);
    forall k | 0 <= k < |taken| ensures k in taken {
      assert taken[k] == k;
    }
  }

  lemma LaterIsNotEligible(polls: seq<Poll>, responses: seq<Response>, n: nat)
    requires Alternate(polls, responses) && n < |polls|
    ensures forall k :: n < k < |polls| ==> !Eligible(polls[k], responses[n])
  {
    hide Timed;
    forall k | n < k < |polls| ensures !Eligible(polls[k], responses[n]) {
      assert responses[n].startUs < polls[n + 1].endUs;
      assert n + 1 < k ==> polls[n + 1].endUs < polls[k].endUs;
    }
  }

  lemma {:induction false} OwnPairs(responses: seq<Response>, taken: seq<int>)
    requires |taken| <= |responses| && forall k :: 0 <= k < |taken| ==> taken[k] == k && Timed(responses[k])
    ensures |Pairs(responses, taken)| == |taken|
    ensures forall k :: 0 <= k < |taken| ==> Pairs(responses, taken)[k] == (k, k)
    decreases |taken|
  {
    hide Timed;
    if taken != [] {
      OwnPairs(responses, taken[..|taken| - 1]);
    }
  }

  // ---------------------------------------------------------------- what is on the lines

  datatype Exchange = Exchange(counter: int, slaveId: byte, data: seq<byte>)

  /** Each answer has sixteen bytes, the first of them its poll's counter. */
  ghost predicate Answered(exchanges: seq<Exchange>) {
    forall k :: 0 <= k < |exchanges| ==>
      |exchanges[k].data| == 16 && exchanges[k].data[0] == ToByte(exchanges[k].counter)
  }

  function Requests(exchanges: seq<Exchange>): (requests: seq<Request>)
    ensures |requests| == |exchanges|
    ensures forall k :: 0 <= k < |exchanges| ==> requests[k] == Request.Poll(exchanges[k].counter, exchanges[k].slaveId)
  {
    seq(|exchanges|, k requires 0 <= k < |exchanges| => Request.Poll(exchanges[k].counter, exchanges[k].slaveId))
  }

  /** The bytes on the request line are the polls, one behind the other. */
  ghost predicate PollsSent(sent: seq<Sent>, exchanges: seq<Exchange>) {
    && |sent| == |Flatten(BuildAll(Requests(exchanges)))|
    && forall j :: 0 <= j < |sent| ==> sent[j].value == Flatten(BuildAll(Requests(exchanges)))[j]
  }

  /** In each gate window lies one answer. */
  ghost predicate RepliesSent(sent: seq<Sent>, cuts: seq<(nat, nat)>, exchanges: seq<Exchange>) {
    && |cuts| == |exchanges|
    && forall k :: 0 <= k < |cuts| ==>
         && cuts[k].0 <= cuts[k].1 <= |sent|
         && SentValues(sent, cuts[k].0, cuts[k].1) == StatusResponse(exchanges[k].slaveId, exchanges[k].data)
  }

  const POLL_BYTES: nat := 17

  /** Window `k` opens when poll `k` is over, however late it was seen, and before the next one is. */
  ghost predicate InTurn(sent: seq<Sent>, windows: seq<Window>, bitS: real, gapS: real) {
    && |sent| == POLL_BYTES * |windows|
    && forall k :: 0 <= k < |windows| ==>
         && sent[POLL_BYTES * k + 16].startS + gapS + 11.0 * bitS <= windows[k].startS
         && (k + 1 < |windows| ==> windows[k].startS < sent[POLL_BYTES * (k + 1) + 16].startS + 11.0 * bitS)
  }

  // ---------------------------------------------------------------- the decoded lists

  lemma {:induction false} FlattenAt(blocks: seq<seq<DecodedByte>>, k: nat, j: nat)
    requires k < |blocks| && j < POLL_BYTES && forall i :: 0 <= i < |blocks| ==> |blocks[i]| == POLL_BYTES
    ensures POLL_BYTES * k + j < |Flatten(blocks)| && Flatten(blocks)[POLL_BYTES * k + j] == blocks[k][j]
    decreases k
  {
    if k > 0 {
      FlattenAt(blocks[1..], k - 1, j);
    }
  }

  lemma PollIsShort(counter: int, slaveId: byte)
    ensures |Build(Request.Poll(counter, slaveId))| == POLL_BYTES
  {
    hide Crc, Lo, Hi;
  }

  /** The first and the last byte of poll `k` on the line were seen in time. */
  predicate PollInTime(f: StreamFrame, sent: seq<Sent>, k: nat, gapS: real) {
    && |f.bytes| == POLL_BYTES && POLL_BYTES * k + 16 < |sent|
    && sent[POLL_BYTES * k].startS <= f.bytes[0].startS < sent[POLL_BYTES * k].startS + gapS
    && sent[POLL_BYTES * k + 16].startS <= f.bytes[16].startS < sent[POLL_BYTES * k + 16].startS + gapS
  }

  lemma BlockInTime(frames: seq<StreamFrame>, sent: seq<Sent>, k: nat, gapS: real)
    requires k < |frames| && BytesInTime(Flatten(BytesOf(frames)), sent, gapS)
    requires forall i :: 0 <= i < |frames| ==> |frames[i].bytes| == POLL_BYTES
    ensures PollInTime(frames[k], sent, k, gapS)
  {
    FlattenAt(BytesOf(frames), k, 0);
    FlattenAt(BytesOf(frames), k, 16);
    hide Flatten;
  }

  /** Every decoded request is a poll of its exchange, seen in time. */
  lemma PollsDecoded(exchanges: seq<Exchange>, samples: seq<Sample>, signal: string, sent: seq<Sent>,
                     lineS: real, bitS: real, gapS: real)
    requires TimingOk(lineS, bitS, gapS) && Sorted(samples)
    requires Captures(Known(samples, signal), signal, sent, lineS, gapS) && Spaced(sent, lineS)
    requires PollsSent(sent, exchanges)
    ensures HasChannel(samples, signal)
    ensures var frames := StreamFrames(samples, signal, bitS);
      && |frames| == |exchanges|
      && forall k :: 0 <= k < |frames| ==>
           && IsPoll(frames[k]) && frames[k].counter == Some(ToByte(exchanges[k].counter))
           && PollInTime(frames[k], sent, k, gapS)
  {
    RequestsAreDecoded(Requests(exchanges), samples, signal, sent, lineS, bitS, gapS);
    var frames := StreamFrames(samples, signal, bitS);
    hide StreamFrames, Captures, Known, Spaced, TimingOk, PollsSent, Sorted, HasChannel, Build, BuildAll, ToByte,
         IsPoll;
    FramesArePolls(exchanges, frames);
    forall k | 0 <= k < |frames| ensures PollInTime(frames[k], sent, k, gapS) {
      BlockInTime(frames, sent, k, gapS);
    }
  }

  lemma FramesArePolls(exchanges: seq<Exchange>, frames: seq<StreamFrame>)
    requires |frames| == |exchanges|
    requires forall k :: 0 <= k < |frames| ==> Reproduces(frames[k], Requests(exchanges)[k])
    ensures forall k :: 0 <= k < |frames| ==>
      && IsPoll(frames[k]) && |frames[k].bytes| == POLL_BYTES
      && frames[k].counter == Some(ToByte(exchanges[k].counter))
  {
    hide Build, ToByte;
    forall k | 0 <= k < |frames|
      ensures IsPoll(frames[k]) && |frames[k].bytes| == POLL_BYTES
      ensures frames[k].counter == Some(ToByte(exchanges[k].counter))
    {
      assert Reproduces(frames[k], Requests(exchanges)[k]);
      PollIsShort(exchanges[k].counter, exchanges[k].slaveId);
    }
  }

  /** Every gate window is reported as the reply of its exchange. */
  lemma RepliesDecoded(exchanges: seq<Exchange>, samples: seq<Sample>, signal: string, gate: string, sent: seq<Sent>,
                       cuts: seq<(nat, nat)>, lineS: real, bitS: real, gapS: real)
    requires TimingOk(lineS, bitS, gapS) && HasChannel(samples, gate)
    requires Captures(Known(samples, signal), signal, sent, lineS, gapS) && Spaced(sent, lineS)
    requires GatedBy(Windows(samples, gate), sent, lineS, cuts)
    requires Answered(exchanges) && RepliesSent(sent, cuts, exchanges)
    ensures DecodedWindows(samples, signal, gate, bitS).Some?
    ensures var reports, windows := DecodedWindows(samples, signal, gate, bitS).value, Windows(samples, gate);
      && |reports| == |windows| == |exchanges|
      && forall k :: 0 <= k < |reports| ==>
           && IsReply(reports[k]) && reports[k].counter == Some(ToByte(exchanges[k].counter))
           && reports[k].startUs == Micros(windows[k].startS, samples[0].timeS)
           && reports[k].firstByteUs.Some? && reports[k].frameEndUs.Some?
  {
    WindowsAreDecoded(samples, signal, gate, sent, cuts, lineS, bitS, gapS);
    DecoderReports(samples, signal, gate, bitS);
    var reports, windows := DecodedWindows(samples, signal, gate, bitS).value, Windows(samples, gate);
    StartsOfReports(samples, signal, gate, bitS);
    assert |windows| == |cuts|;
    hide DecodedWindows, Windows, Captures, Known, Spaced, TimingOk, GatedBy, HasChannel, Micros;
    forall k | 0 <= k < |reports|
      ensures IsReply(reports[k]) && reports[k].counter == Some(ToByte(exchanges[k].counter))
      ensures reports[k].firstByteUs.Some? && reports[k].frameEndUs.Some?
    {
      var frame := SentValues(sent, cuts[k].0, cuts[k].1);
      assert Reproduced(reports[k], frame) && Reported(reports[k]);
      StatusReplyIsRecognised(exchanges[k].slaveId, exchanges[k].data);
      ReproducedReply(reports[k], frame);
      hide Reproduced, AllReproduced, StatusResponse, RepliesSent, SentValues;
    }
  }

  lemma ReproducedReply(w: WindowReport, frame: seq<byte>)
    requires Reproduced(w, frame) && CrcOk(frame) && DecodeResponseKind(frame) == StatusReply
    requires ResponseCounter(frame).Some?
    ensures IsReply(w)
  {
    hide Crc, DecodeResponseKind, ResponseCounter;
  }

  lemma StartsOfReports(samples: seq<Sample>, signal: string, gate: string, bitS: real)
    requires DecodedWindows(samples, signal, gate, bitS).Some?
    ensures var reports, windows := DecodedWindows(samples, signal, gate, bitS).value, Windows(samples, gate);
      && |reports| == |windows|
      && forall k :: 0 <= k < |reports| ==> reports[k].startUs == Micros(windows[k].startS, samples[0].timeS)
  {
    hide Windows, WindowBytes, Micros, CrcOk;
  }

  // ---------------------------------------------------------------- every poll is paired

  lemma {:induction false} EndsGrow(polls: seq<Poll>, responses: seq<Response>, j: nat, k: nat)
    requires |polls| == |responses| && j < k < |polls|
    requires forall i :: 0 <= i < |polls| ==> polls[i].endUs <= responses[i].startUs
    requires forall i :: 0 <= i < |polls| - 1 ==> responses[i].startUs < polls[i + 1].endUs
    ensures polls[j].endUs < polls[k].endUs
    decreases k
  {
    if j < k - 1 {
      EndsGrow(polls, responses, j, k - 1);
    }
    assert polls[k - 1].endUs <= responses[k - 1].startUs < polls[k].endUs;
  }

  /** A poll whose last byte is seen in time ends, for the summary, before its window and after the one before. */
  lemma PollEnds(f: StreamFrame, t0: real, bitS: real, gapS: real, sentS: real)
    requires f.counter.Some? && |f.bytes| == POLL_BYTES && sentS <= f.bytes[16].startS < sentS + gapS
    ensures forall w: real :: sentS + gapS + 11.0 * bitS <= w ==> PollOf(f, t0, bitS).endUs <= Micros(w, t0)
    ensures forall w: real :: w < sentS + 11.0 * bitS ==> Micros(w, t0) < PollOf(f, t0, bitS).endUs
  {}

  lemma ListsAlternate(frames: seq<StreamFrame>, reports: seq<WindowReport>, windows: seq<Window>,
                       exchanges: seq<Exchange>, sent: seq<Sent>, t0: real, bitS: real, gapS: real)
    requires |frames| == |reports| == |windows| == |exchanges| && InTurn(sent, windows, bitS, gapS)
    requires forall k :: 0 <= k < |frames| ==>
      && IsPoll(frames[k]) && frames[k].counter == Some(ToByte(exchanges[k].counter))
      && PollInTime(frames[k], sent, k, gapS)
    requires forall k :: 0 <= k < |reports| ==>
      && IsReply(reports[k]) && reports[k].counter == Some(ToByte(exchanges[k].counter))
      && reports[k].startUs == Micros(windows[k].startS, t0)
      && reports[k].firstByteUs.Some? && reports[k].frameEndUs.Some?
    ensures Alternate(StatusPolls(frames, t0, bitS), StatusResponses(reports))
  {
    hide StatusPolls, StatusResponses, ToByte, IsPoll, IsReply, Micros;
    EachIsPoll(frames, t0, bitS);
    EachIsReply(reports);
    var polls, responses := StatusPolls(frames, t0, bitS), StatusResponses(reports);
    forall k | 0 <= k < |frames|
      ensures Eligible(polls[k], responses[k]) && Timed(responses[k])
      ensures k + 1 < |frames| ==> responses[k].startUs < polls[k + 1].endUs
    {
      PollEnds(frames[k], t0, bitS, gapS, sent[POLL_BYTES * k + 16].startS);
      if k + 1 < |frames| {
        PollEnds(frames[k + 1], t0, bitS, gapS, sent[POLL_BYTES * (k + 1) + 16].startS);
      }
    }
    forall j, k | 0 <= j < k < |polls| ensures polls[j].endUs < polls[k].endUs {
      EndsGrow(polls, responses, j, k);
    }
  }

  /**
   A capture of any number of polls, each answered in its own gate window after it ended and before the next one
   does, gives one pair per poll: poll and response of the same exchange, none unmatched.
   */
  lemma EveryPollIsPaired(exchanges: seq<Exchange>, samples: seq<Sample>, request: string, response: string,
                          gate: string, pollsSent: seq<Sent>, repliesSent: seq<Sent>, cuts: seq<(nat, nat)>,
                          lineS: real, bitS: real, gapS: real, taken: seq<int>)
    requires TimingOk(lineS, bitS, gapS) && Sorted(samples) && HasChannel(samples, gate)
    requires Captures(Known(samples, request), request, pollsSent, lineS, gapS) && Spaced(pollsSent, lineS)
    requires PollsSent(pollsSent, exchanges)
    requires Captures(Known(samples, response), response, repliesSent, lineS, gapS) && Spaced(repliesSent, lineS)
    requires GatedBy(Windows(samples, gate), repliesSent, lineS, cuts)
    requires Answered(exchanges) && RepliesSent(repliesSent, cuts, exchanges)
    requires InTurn(pollsSent, Windows(samples, gate), bitS, gapS)
    ensures DecodedWindows(samples, response, gate, bitS).Some?
    ensures var polls := StatusPolls(StreamFrames(samples, request, bitS), samples[0].timeS, bitS);
      var responses := StatusResponses(DecodedWindows(samples, response, gate, bitS).value);
      && |polls| == |responses| == |exchanges|
      && (|taken| == |responses| && Greedy(polls, responses, taken) ==>
            && |Pairs(responses, taken)| == |exchanges|
            && forall k :: 0 <= k < |exchanges| ==> Pairs(responses, taken)[k] == (k, k))
  {
    PollsDecoded(exchanges, samples, request, pollsSent, lineS, bitS, gapS);
    RepliesDecoded(exchanges, samples, response, gate, repliesSent, cuts, lineS, bitS, gapS);
    var frames, reports := StreamFrames(samples, request, bitS), DecodedWindows(samples, response, gate, bitS).value;
    var t0 := samples[0].timeS;
    var polls, responses := StatusPolls(frames, t0, bitS), StatusResponses(reports);
    hide StreamFrames, DecodedWindows, Windows, Captures, Known, Spaced, TimingOk, GatedBy, HasChannel, Sorted,
         PollsSent, RepliesSent, Answered, Micros, ToByte, InTurn, Greedy;
    ListsAlternate(frames, reports, Windows(samples, gate), exchanges, pollsSent, t0, bitS, gapS);
    EachIsPoll(frames, t0, bitS);
    hide StatusPolls, StatusResponses;
    if |taken| == |responses| && Greedy(polls, responses, taken) {
      OwnPolls(polls, responses, taken);
      OwnPairs(responses, taken);
    }
  }
}
