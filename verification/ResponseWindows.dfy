/**
 The window decoder of the logic-analyser tool as a whole, and the latency summary built on both decoders:
 whatever the capture, every poll ends up in a pair or unmatched, and so does every response.
 */
module ResponseWindows {
  import opened Crc16
  import opened GateWindows
  import opened LaDecoder
  import opened Latency
  import opened Options
  import opened Protocol
  import opened Uart
  import opened UartLine

  datatype ResponseKind = UnknownResponse | ScanReply | StatusReply | CommandReply

  function DecodeResponseKind(frame: seq<byte>): ResponseKind {
    if |frame| < 3 || frame[1] != FC_READ_WRITE_MULTIPLE_REGISTERS then UnknownResponse
    else if frame[2] == 10 then ScanReply
    else if frame[2] == 16 then StatusReply
    else if frame[2] == 4 then CommandReply
    else UnknownResponse
  }

  function ResponseCounter(frame: seq<byte>): Option<byte> {
    var kind := DecodeResponseKind(frame);
    if (kind.StatusReply? || kind.CommandReply?) && |frame| >= 4 then Some(frame[3]) else None
  }

  /** Microseconds since the first sample. */
  function Micros(t: real, t0: real): real { (t - t0) * 1000000.0 }

  datatype WindowReport = WindowReport(
    startUs: real, endUs: real, firstByteUs: Option<real>, frameEndUs: Option<real>,
    bytes: seq<DecodedByte>, crcOk: bool, kind: ResponseKind, counter: Option<byte>)

  /** `t0` is the time of the first sample. */
  function ReportWindow(window: Window, bytes: seq<DecodedByte>, t0: real, bitS: real): WindowReport {
    var frame := Values(bytes);
    WindowReport(
      Micros(window.startS, t0), Micros(window.endS, t0),
      if bytes == [] then None else Some(Micros(bytes[0].startS, t0)),
      if bytes == [] then None else Some(Micros(bytes[|bytes| - 1].startS, t0) + 11.0 * bitS * 1000000.0),
      bytes, frame != [] && CrcOk(frame), DecodeResponseKind(frame), ResponseCounter(frame))
  }

  /** The bytes read in a window. */
  function WindowBytes(samples: seq<Sample>, signal: string, bitS: real, window: Window): seq<DecodedByte>
    requires samples != []
  {
    BytesAt(samples, signal, StartEdges(Edges(samples, signal), window.startS, Until(window.endS), bitS), bitS)
  }

  function ReportAll(samples: seq<Sample>, signal: string, bitS: real, windows: seq<Window>): (r: seq<WindowReport>)
    requires samples != []
    ensures |r| == |windows|
    ensures forall i :: 0 <= i < |windows| ==>
      r[i] == ReportWindow(windows[i], WindowBytes(samples, signal, bitS, windows[i]), samples[0].timeS, bitS)
  {
    seq(|windows|, i requires 0 <= i < |windows| =>
      ReportWindow(windows[i], WindowBytes(samples, signal, bitS, windows[i]), samples[0].timeS, bitS))
  }

  /** `None` stands for the error of a capture without the gate or the signal. */
  function DecodedWindows(samples: seq<Sample>, signal: string, gate: string, bitS: real): Option<seq<WindowReport>> {
    if !HasChannel(samples, gate) || !HasChannel(samples, signal) then None
    else Some(ReportAll(samples, signal, bitS, Windows(samples, gate)))
  }

  lemma InOrderEdges(samples: seq<Sample>, channel: string)
    requires samples != [] && Sorted(samples)
    ensures InOrder(Edges(samples, channel))
  {
    EdgesInOrder(ValueAt(samples[0], channel), samples[1..], channel);
  }

  method DecodeUartWindows(samples: seq<Sample>, signal: string, gate: string, bitS: real)
    returns (reports: Option<seq<WindowReport>>)
    requires Sorted(samples) && 0.0 < bitS
    ensures reports == DecodedWindows(samples, signal, gate, bitS)
  {
    hide Windows, Edges, ReportWindow, StartEdges;
    var windows := HighWindows(samples, gate);
    if windows.None? {
      return None;
    }
    var edges := TransitionEdges(samples, signal);
    if edges.None? {
      return None;
    }
    InOrderEdges(samples, signal);
    var decoded: seq<WindowReport> := [];
    for i := 0 to |windows.value|
      invariant decoded == ReportAll(samples, signal, bitS, windows.value)[..i]
    {
      var bytes := DecodeWindow(samples, edges.value, signal, bitS, windows.value[i]);
      decoded := decoded + [ReportWindow(windows.value[i], bytes, samples[0].timeS, bitS)];
    }
    assert decoded == ReportAll(samples, signal, bitS, windows.value);
    reports := Some(decoded);
  }

  // ---------------------------------------------------------------- what the windows hold

  function SentValues(sent: seq<Sent>, i: nat, m: nat): (r: seq<byte>)
    requires i <= m <= |sent|
    ensures |r| == m - i
  {
    seq(m - i, j requires 0 <= j < m - i => sent[i + j].value)
  }

  /** A window's report is exactly what was sent inside it: bytes, CRC verdict, kind and counter. */
  ghost predicate Reproduced(report: WindowReport, frame: seq<byte>) {
    && Values(report.bytes) == frame
    && (forall j :: 0 <= j < |report.bytes| ==> report.bytes[j].errors == [])
    && report.crcOk == (frame != [] && CrcOk(frame))
    && report.kind == DecodeResponseKind(frame) && report.counter == ResponseCounter(frame)
  }

  /** Each window reports what was sent inside it. */
  ghost predicate AllReproduced(reports: seq<WindowReport>, sent: seq<Sent>, cuts: seq<(nat, nat)>) {
    && |reports| == |cuts|
    && forall k :: 0 <= k < |cuts| ==>
         cuts[k].0 <= cuts[k].1 <= |sent| && Reproduced(reports[k], SentValues(sent, cuts[k].0, cuts[k].1))
  }

  /** Each window of the gate is open around its part of what is sent. */
  ghost predicate GatedBy(windows: seq<Window>, sent: seq<Sent>, lineS: real, cuts: seq<(nat, nat)>) {
    && |cuts| == |windows|
    && forall k :: 0 <= k < |cuts| ==> SentWithin(sent, lineS, windows[k], cuts[k].0, cuts[k].1)
  }

  /**
   Over a whole capture: with a gate that is high around what is sent, each window reports exactly the bytes
   sent while it was open, without errors.
   */
  lemma WindowsAreDecoded(samples: seq<Sample>, signal: string, gate: string, sent: seq<Sent>,
                          cuts: seq<(nat, nat)>, lineS: real, bitS: real, gapS: real)
    requires TimingOk(lineS, bitS, gapS) && HasChannel(samples, gate)
    requires Captures(Known(samples, signal), signal, sent, lineS, gapS) && Spaced(sent, lineS)
    requires GatedBy(Windows(samples, gate), sent, lineS, cuts)
    ensures DecodedWindows(samples, signal, gate, bitS).Some?
    ensures AllReproduced(DecodedWindows(samples, signal, gate, bitS).value, sent, cuts)
  {
    KnownHasChannel(samples, signal);
    assert HasChannel(samples, signal);
    hide Windows, Known, Captures, Spaced, TimingOk, GatedBy, AllReproduced, ReportAll;
    EachReproduced(samples, signal, sent, Windows(samples, gate), cuts, lineS, bitS, gapS);
  }

  lemma EachReproduced(samples: seq<Sample>, signal: string, sent: seq<Sent>, windows: seq<Window>,
                       cuts: seq<(nat, nat)>, lineS: real, bitS: real, gapS: real)
    requires TimingOk(lineS, bitS, gapS) && samples != []
    requires Captures(Known(samples, signal), signal, sent, lineS, gapS) && Spaced(sent, lineS)
    requires GatedBy(windows, sent, lineS, cuts)
    ensures AllReproduced(ReportAll(samples, signal, bitS, windows), sent, cuts)
  {
    hide Known, Captures, Spaced, TimingOk, Reproduced, ReportWindow, WindowBytes;
    forall k | 0 <= k < |cuts|
      ensures cuts[k].0 <= cuts[k].1 <= |sent|
      ensures Reproduced(ReportAll(samples, signal, bitS, windows)[k], SentValues(sent, cuts[k].0, cuts[k].1))
    {
      assert SentWithin(sent, lineS, windows[k], cuts[k].0, cuts[k].1);
      OneWindow(samples, signal, sent, windows[k], lineS, bitS, gapS, cuts[k].0, cuts[k].1);
    }
  }

  lemma OneWindow(samples: seq<Sample>, signal: string, sent: seq<Sent>, window: Window,
                  lineS: real, bitS: real, gapS: real, i: nat, m: nat)
    requires TimingOk(lineS, bitS, gapS) && samples != []
    requires Captures(Known(samples, signal), signal, sent, lineS, gapS) && Spaced(sent, lineS)
    requires SentWithin(sent, lineS, window, i, m)
    ensures Reproduced(ReportWindow(window, WindowBytes(samples, signal, bitS, window), samples[0].timeS, bitS),
                       SentValues(sent, i, m))
  {
    WindowIsDecoded(samples, signal, sent, window, lineS, bitS, gapS, i, m);
    hide Captures, Spaced, SentWithin, BytesAt, StartEdges, Edges;
    assert Values(WindowBytes(samples, signal, bitS, window)) == SentValues(sent, i, m);
  }

  // ---------------------------------------------------------------- polls and responses

  predicate NoErrors(bytes: seq<DecodedByte>) {
    forall j :: 0 <= j < |bytes| ==> bytes[j].errors == []
  }

  /** The status polls among the request frames, with their times. */
  function StatusPolls(frames: seq<StreamFrame>, t0: real, bitS: real): seq<Poll> {
    if frames == [] then []
    else
      var f := frames[|frames| - 1];
      StatusPolls(frames[..|frames| - 1], t0, bitS)
      + (if f.crcOk && NoErrors(f.bytes) && f.kind.StatusPollKind? && f.counter.Some? && f.bytes != [] then
           [Poll.Poll(f.counter.value as int, Micros(f.bytes[0].startS, t0),
                 Micros(f.bytes[|f.bytes| - 1].startS, t0) + 11.0 * bitS * 1000000.0)]
         else [])
  }

  /** The status responses among the windows. */
  function StatusResponses(reports: seq<WindowReport>): seq<Response> {
    if reports == [] then []
    else
      var w := reports[|reports| - 1];
      StatusResponses(reports[..|reports| - 1])
      + (if w.crcOk && NoErrors(w.bytes) && w.kind.StatusReply? && w.counter.Some? then
           [Response(w.counter.value as int, w.startUs, w.endUs, w.firstByteUs, w.frameEndUs)]
         else [])
  }

  /** A report as the window decoder makes it: times exactly for a window with bytes. */
  predicate Reported(w: WindowReport) {
    && (w.bytes != [] ==> w.firstByteUs.Some? && w.frameEndUs.Some?)
    && (w.crcOk ==> w.bytes != [])
  }

  /** A window that passes the CRC has bytes, so every response carries both of its times. */
  lemma {:induction false} ResponsesAreTimed(reports: seq<WindowReport>)
    requires forall i :: 0 <= i < |reports| ==> Reported(reports[i])
    ensures forall r :: 0 <= r < |StatusResponses(reports)| ==> Timed(StatusResponses(reports)[r])
  {
    if reports != [] {
      ResponsesAreTimed(reports[..|reports| - 1]);
      hide NoErrors;
      assert Reported(reports[|reports| - 1]);
    }
  }

  lemma DecoderReports(samples: seq<Sample>, signal: string, gate: string, bitS: real)
    requires DecodedWindows(samples, signal, gate, bitS).Some?
    ensures var reports := DecodedWindows(samples, signal, gate, bitS).value;
      forall i :: 0 <= i < |reports| ==> Reported(reports[i])
  {
    hide Windows, WindowBytes, CrcOk;
  }

  datatype Summary =
    | NotRun
    | Raised
    | Summary(pairs: seq<(int, int)>, unmatchedPolls: nat, unmatchedResponses: nat)

  /**
   The latency summary of a capture. The branch of the matching loop for a response without times is never
   taken, and both sides are conserved outright.
   */
  method SummarizeResponseLatencies(samples: seq<Sample>, requestSignal: string, responseSignal: string,
                                    responseGate: string, bitS: real) returns (s: Summary, ghost taken: seq<int>)
    requires Sorted(samples) && 0.0 < bitS
    ensures s.NotRun? <==> !HasChannel(samples, requestSignal)
    ensures s.Raised? <==> HasChannel(samples, requestSignal)
                           && (!HasChannel(samples, responseGate) || !HasChannel(samples, responseSignal))
    ensures s.Summary? ==>
      var polls := StatusPolls(StreamFrames(samples, requestSignal, bitS), samples[0].timeS, bitS);
      var responses := StatusResponses(DecodedWindows(samples, responseSignal, responseGate, bitS).value);
      && |taken| == |responses| && Greedy(polls, responses, taken) && s.pairs == Pairs(responses, taken)
      && |s.pairs| + s.unmatchedPolls == |polls|
      && |s.pairs| + s.unmatchedResponses == |responses|
  {
    hide StreamFrames, DecodedWindows, StatusPolls, StatusResponses, Greedy, Pairs, Matches, Sorted;
    taken := [];
    if !HasChannel(samples, requestSignal) {
      return NotRun, [];
    }
    var frames := DecodeUartStream(samples, requestSignal, bitS);
    var windows := DecodeUartWindows(samples, responseSignal, responseGate, bitS);
    WhenDecoded(samples, responseSignal, responseGate, bitS);
    if windows.None? {
      return Raised, [];
    }
    var polls := StatusPolls(frames, samples[0].timeS, bitS);
    var responses := StatusResponses(windows.value);
    DecoderReports(samples, responseSignal, responseGate, bitS);
    ResponsesAreTimed(windows.value);
    var pairs, unmatchedPolls, unmatchedResponses;
    pairs, unmatchedPolls, unmatchedResponses, taken := MatchStatusPairs(polls, responses);
    PollsConserved(polls, responses, taken);
    s := Summary(pairs, unmatchedPolls, unmatchedResponses);
  }

  lemma WhenDecoded(samples: seq<Sample>, signal: string, gate: string, bitS: real)
    ensures DecodedWindows(samples, signal, gate, bitS).None?
      <==> !HasChannel(samples, gate) || !HasChannel(samples, signal)
  {}
}
