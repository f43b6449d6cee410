/** The latency summary computes with the times of the bytes on the lines, late by less than a sampling gap. */
module MeasuredTimes {
  import opened AllPaired
  import Crc16
  import opened GateWindows
  import opened LaDecoder
  import opened Latency
  import opened Protocol
  import opened ResponseWindows
  import opened Uart
  import opened UartLine

  /** `us` microseconds after `t0` is less than `gapS` behind the time `t`. */
  predicate Late(us: real, t: real, t0: real, gapS: real) {
    1_000_000.0 * (t - t0) <= us < 1_000_000.0 * (t - t0 + gapS)
  }

  /** The end of a byte: eleven bit times behind its start. */
  function EndOf(b: Sent, bitS: real): real { b.startS + 11.0 * bitS }

  lemma MicrosAreLate(s: real, t: real, t0: real, bitS: real, gapS: real)
    requires t <= s < t + gapS
    ensures Late(Micros(s, t0), t, t0, gapS)
    ensures Late(Micros(s, t0) + 11.0 * bitS * 1000000.0, t + 11.0 * bitS, t0, gapS)
  {}

  /** A report of the bytes `i` to `m` sent while `window` was open, with its times true. */
  ghost predicate TrueTimes(w: WindowReport, window: Window, sent: seq<Sent>, i: nat, m: nat,
                            t0: real, bitS: real, gapS: real)
    requires i < m <= |sent|
  {
    && w.startUs == 1_000_000.0 * (window.startS - t0) && w.endUs == 1_000_000.0 * (window.endS - t0)
    && w.firstByteUs.Some? && Late(w.firstByteUs.value, sent[i].startS, t0, gapS)
    && w.frameEndUs.Some? && Late(w.frameEndUs.value, EndOf(sent[m - 1], bitS), t0, gapS)
  }

  lemma ReportIsTrue(window: Window, bytes: seq<DecodedByte>, sent: seq<Sent>, i: nat, m: nat,
                     t0: real, bitS: real, gapS: real)
    requires i < m <= |sent| && BytesInTime(bytes, sent[i..m], gapS)
    ensures TrueTimes(ReportWindow(window, bytes, t0, bitS), window, sent, i, m, t0, bitS, gapS)
  {
    hide Crc16.CrcOk, DecodeResponseKind, ResponseCounter;
    var last := m - 1 - i;
    assert sent[i..m][0] == sent[i] && sent[i..m][last] == sent[m - 1];
    assert sent[i..m][0].startS <= bytes[0].startS && sent[i..m][last].startS <= bytes[last].startS;
    MicrosAreLate(bytes[0].startS, sent[i].startS, t0, bitS, gapS);
    MicrosAreLate(bytes[last].startS, sent[m - 1].startS, t0, bitS, gapS);
    WindowMicros(window, t0);
    hide Micros, Late;
  }

  lemma WindowMicros(window: Window, t0: real)
    ensures Micros(window.startS, t0) == 1_000_000.0 * (window.startS - t0)
    ensures Micros(window.endS, t0) == 1_000_000.0 * (window.endS - t0)
  {}

  /**
   Over a whole capture: the report of every window with bytes gives the window's own times, the start of its first
   byte and the end of its last.
   */
  lemma ResponseTimesAreTrue(samples: seq<Sample>, signal: string, gate: string, sent: seq<Sent>,
                             cuts: seq<(nat, nat)>, lineS: real, bitS: real, gapS: real)
    requires TimingOk(lineS, bitS, gapS) && HasChannel(samples, gate)
    requires Captures(Known(samples, signal), signal, sent, lineS, gapS) && Spaced(sent, lineS)
    requires GatedBy(Windows(samples, gate), sent, lineS, cuts)
    ensures DecodedWindows(samples, signal, gate, bitS).Some?
    ensures var reports, windows := DecodedWindows(samples, signal, gate, bitS).value, Windows(samples, gate);
      && |reports| == |windows| == |cuts|
      && forall k :: 0 <= k < |cuts| && cuts[k].0 < cuts[k].1 <= |sent| ==>
           TrueTimes(reports[k], windows[k], sent, cuts[k].0, cuts[k].1, samples[0].timeS, bitS, gapS)
  {
    WindowsAreDecoded(samples, signal, gate, sent, cuts, lineS, bitS, gapS);
    var windows := Windows(samples, gate);
    var reports := DecodedWindows(samples, signal, gate, bitS).value;
    assert reports == ReportAll(samples, signal, bitS, windows);
    hide Known, Captures, Spaced, TimingOk, Windows, DecodedWindows, TrueTimes, ReportWindow, WindowBytes,
         AllReproduced, HasChannel;
    forall k | 0 <= k < |cuts| && cuts[k].0 < cuts[k].1 <= |sent|
      ensures TrueTimes(reports[k], windows[k], sent, cuts[k].0, cuts[k].1, samples[0].timeS, bitS, gapS)
    {
      assert SentWithin(sent, lineS, windows[k], cuts[k].0, cuts[k].1);
      WindowInTime(samples, signal, sent, windows[k], lineS, bitS, gapS, cuts[k].0, cuts[k].1);
      ReportIsTrue(windows[k], WindowBytes(samples, signal, bitS, windows[k]), sent, cuts[k].0, cuts[k].1,
                   samples[0].timeS, bitS, gapS);
    }
  }

  lemma WindowInTime(samples: seq<Sample>, signal: string, sent: seq<Sent>, window: Window,
                     lineS: real, bitS: real, gapS: real, i: nat, m: nat)
    requires TimingOk(lineS, bitS, gapS) && samples != []
    requires Captures(Known(samples, signal), signal, sent, lineS, gapS) && Spaced(sent, lineS)
    requires SentWithin(sent, lineS, window, i, m) && i <= m <= |sent|
    ensures BytesInTime(WindowBytes(samples, signal, bitS, window), sent[i..m], gapS)
  {
    WindowIsDecoded(samples, signal, sent, window, lineS, bitS, gapS, i, m);
    hide Captures, Known, Spaced, TimingOk, SentWithin, BytesAt, StartEdges, Edges, BytesInTime;
  }

  // ---------------------------------------------------------------- polls

  lemma PollIsTrue(f: StreamFrame, sent: seq<Sent>, k: nat, t0: real, bitS: real, gapS: real)
    requires PollInTime(f, sent, k, gapS) && f.counter.Some?
    ensures Late(PollOf(f, t0, bitS).startUs, sent[POLL_BYTES * k].startS, t0, gapS)
    ensures Late(PollOf(f, t0, bitS).endUs, EndOf(sent[POLL_BYTES * k + 16], bitS), t0, gapS)
  {
    MicrosAreLate(f.bytes[0].startS, sent[POLL_BYTES * k].startS, t0, bitS, gapS);
    MicrosAreLate(f.bytes[16].startS, sent[POLL_BYTES * k + 16].startS, t0, bitS, gapS);
    hide Micros, Late;
  }

  // ---------------------------------------------------------------- latencies

  /** `us` microseconds are the seconds from `a` to `b`, to less than `gapS` either way. */
  predicate Measures(us: real, a: real, b: real, gapS: real) {
    1_000_000.0 * (b - a - gapS) < us < 1_000_000.0 * (b - a + gapS)
  }

  lemma Difference(us: real, from: real, a: real, b: real, t0: real, gapS: real)
    requires Late(from, a, t0, gapS) && Late(us, b, t0, gapS)
    ensures Measures(us - from, a, b, gapS)
  {}

  /**
   Exchange `k`: the times from the end of the poll to the first byte of its response, and to the end of its response,
   are those on the line. Bytes `i` to `m` are the response's.
   */
  predicate Measured(polls: seq<Poll>, responses: seq<Response>, pollsSent: seq<Sent>, repliesSent: seq<Sent>,
                     k: nat, i: nat, m: nat, bitS: real, gapS: real)
  {
    && k < |polls| && k < |responses| && Timed(responses[k])
    && POLL_BYTES * k + 16 < |pollsSent| && i < m <= |repliesSent|
    && var pollEnds := EndOf(pollsSent[POLL_BYTES * k + 16], bitS);
       && Measures(responses[k].firstByteUs.value - polls[k].endUs, pollEnds, repliesSent[i].startS, gapS)
       && Measures(responses[k].frameEndUs.value - polls[k].endUs, pollEnds, EndOf(repliesSent[m - 1], bitS), gapS)
  }

  lemma ExchangeIsTrue(frames: seq<StreamFrame>, reports: seq<WindowReport>, window: Window, pollsSent: seq<Sent>,
                       repliesSent: seq<Sent>, i: nat, m: nat, t0: real, bitS: real, gapS: real, k: nat)
    requires k < |frames| == |reports| && i < m <= |repliesSent|
    requires forall n :: 0 <= n < |frames| ==> IsPoll(frames[n])
    requires forall n :: 0 <= n < |reports| ==> IsReply(reports[n])
    requires PollInTime(frames[k], pollsSent, k, gapS)
    requires TrueTimes(reports[k], window, repliesSent, i, m, t0, bitS, gapS)
    ensures Measured(StatusPolls(frames, t0, bitS), StatusResponses(reports), pollsSent, repliesSent, k, i, m,
                     bitS, gapS)
  {
    EachIsPoll(frames, t0, bitS);
    EachIsReply(reports);
    PollIsTrue(frames[k], pollsSent, k, t0, bitS, gapS);
    hide StatusPolls, StatusResponses, PollOf, PollInTime, NoErrors, Late, Measures, EndOf;
    var from, pollEnds := PollOf(frames[k], t0, bitS).endUs, EndOf(pollsSent[POLL_BYTES * k + 16], bitS);
    Difference(reports[k].firstByteUs.value, from, pollEnds, repliesSent[i].startS, t0, gapS);
    Difference(reports[k].frameEndUs.value, from, pollEnds, EndOf(repliesSent[m - 1], bitS), t0, gapS);
  }

  /**
   End to end, for every exchange of a capture as in `EveryPollIsPaired`: the times from the end of the poll to the
   first byte of its response and to the end of its response are those on the line, to less than a sampling gap.
   */
  lemma LatenciesAreTrue(exchanges: seq<Exchange>, samples: seq<Sample>, request: string, response: string,
                         gate: string, pollsSent: seq<Sent>, repliesSent: seq<Sent>, cuts: seq<(nat, nat)>,
                         lineS: real, bitS: real, gapS: real, k: nat)
    requires TimingOk(lineS, bitS, gapS) && Sorted(samples) && HasChannel(samples, gate)
    requires Captures(Known(samples, request), request, pollsSent, lineS, gapS) && Spaced(pollsSent, lineS)
    requires PollsSent(pollsSent, exchanges)
    requires Captures(Known(samples, response), response, repliesSent, lineS, gapS) && Spaced(repliesSent, lineS)
    requires GatedBy(Windows(samples, gate), repliesSent, lineS, cuts)
    requires Answered(exchanges) && RepliesSent(repliesSent, cuts, exchanges) && k < |exchanges|
    ensures DecodedWindows(samples, response, gate, bitS).Some?
    ensures Measured(StatusPolls(StreamFrames(samples, request, bitS), samples[0].timeS, bitS),
                     StatusResponses(DecodedWindows(samples, response, gate, bitS).value),
                     pollsSent, repliesSent, k, cuts[k].0, cuts[k].1, bitS, gapS)
  {
    assert samples != [];
    hide StreamFrames, DecodedWindows, Windows, Captures, Known, Spaced, TimingOk, GatedBy, HasChannel, Sorted,
         PollsSent, RepliesSent, Answered, Micros, ToByte, IsPoll, IsReply, PollInTime, TrueTimes, StatusPolls,
         StatusResponses, Measured;
    PollsDecoded(exchanges, samples, request, pollsSent, lineS, bitS, gapS);
    RepliesDecoded(exchanges, samples, response, gate, repliesSent, cuts, lineS, bitS, gapS);
    ResponseTimesAreTrue(samples, response, gate, repliesSent, cuts, lineS, bitS, gapS);
    ReplyHasBytes(repliesSent, cuts, exchanges, k);
    ExchangeIsTrue(StreamFrames(samples, request, bitS), DecodedWindows(samples, response, gate, bitS).value,
                   Windows(samples, gate)[k], pollsSent, repliesSent, cuts[k].0, cuts[k].1, samples[0].timeS, bitS,
                   gapS, k);
  }

  lemma ReplyHasBytes(sent: seq<Sent>, cuts: seq<(nat, nat)>, exchanges: seq<Exchange>, k: nat)
    requires RepliesSent(sent, cuts, exchanges) && k < |exchanges|
    ensures k < |cuts| && cuts[k].0 < cuts[k].1 <= |sent|
  {
    hide Crc16.Crc, Crc16.Lo, Crc16.Hi;
    assert |SentValues(sent, cuts[k].0, cuts[k].1)| == |StatusResponse(exchanges[k].slaveId, exchanges[k].data)|;
  }
}
