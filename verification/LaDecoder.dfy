/**
 The two decoders of the logic-analyser tool: bytes of a gate window, and framed requests of a
 free-running line; and the end-to-end statement from requests on the wire to decoded frames.
 */
module LaDecoder {
  import opened Sequences
  import opened Crc16
  import opened Framing
  import opened Protocol
  import opened MasterFrames
  import opened Options
  import opened Uart
  import opened UartLine

  datatype Window = Window(startS: real, endS: real)

  ghost predicate InOrder(edges: seq<Edge>) {
    forall i, j :: 0 <= i < j < |edges| ==> edges[i].timeS <= edges[j].timeS
  }

  lemma {:induction false} EdgesInOrder(last: Level, rest: seq<Sample>, channel: string)
    requires Sorted(rest)
    ensures InOrder(EdgesFrom(last, rest, channel))
    ensures forall e :: e in EdgesFrom(last, rest, channel) ==> exists k :: 0 <= k < |rest| && e.timeS == rest[k].timeS
    decreases |rest|
  {
    if rest != [] {
      var v := ValueAt(rest[0], channel);
      EdgesInOrder(if v.Seen? then v else last, rest[1..], channel);
      forall e | e in EdgesFrom(if v.Seen? then v else last, rest[1..], channel)
        ensures e.timeS >= rest[0].timeS && exists k :: 0 <= k < |rest| && e.timeS == rest[k].timeS
      {
        var k :| 0 <= k < |rest| - 1 && e.timeS == rest[1..][k].timeS;
        assert e.timeS == rest[k + 1].timeS;
      }
    }
  }

  lemma {:induction false} EarlierSkipped(edges: seq<Edge>, cursorS: real, limit: Limit, bitS: real, n: nat)
    requires n <= |edges|
    requires forall i :: 0 <= i < n ==> edges[i].timeS < cursorS
    ensures StartEdges(edges, cursorS, limit, bitS) == StartEdges(edges[n..], cursorS, limit, bitS)
    decreases n
  {
    if n > 0 {
      EarlierSkipped(edges[1..], cursorS, limit, bitS, n - 1);
      assert edges[1..][n - 1..] == edges[n..];
    } else {
      assert edges[0..] == edges;
    }
  }

  /** The decoder of one gate window: rescan the edges for the next start bit until none is left. */
  method DecodeWindow(samples: seq<Sample>, edges: seq<Edge>, signal: string, bitS: real, window: Window)
    returns (bytes: seq<DecodedByte>)
    requires Sorted(samples) && InOrder(edges) && 0.0 < bitS
    ensures bytes == BytesAt(samples, signal, StartEdges(edges, window.startS, Until(window.endS), bitS), bitS)
  {
    bytes := [];
    var cursorS := window.startS;
    ghost var starts: seq<real> := [];
    ghost var limit := Until(window.endS);
    ghost var passed: nat := 0;
    while true
      invariant passed <= |edges|
      invariant forall i :: 0 <= i < passed ==> edges[i].timeS < cursorS
      invariant bytes == BytesAt(samples, signal, starts, bitS)
      invariant StartEdges(edges, window.startS, limit, bitS)
             == starts + StartEdges(edges, cursorS, limit, bitS)
      decreases |edges| - passed
    {
      var found, startS := false, 0.0;
      ghost var at: nat := 0;
      for i := 0 to |edges|
        invariant !found
        invariant StartEdges(edges, cursorS, limit, bitS) == StartEdges(edges[i..], cursorS, limit, bitS)
      {
        assert edges[i..][1..] == edges[i + 1..];
        if edges[i].timeS < cursorS {
          continue;
        }
        if edges[i].timeS > window.endS {
          break;
        }
        if edges[i].before == 1 && edges[i].after == 0 {
          found, startS, at := true, edges[i].timeS, i;
          break;
        }
      }
      if !found {
        assert starts + [] == starts;
        break;
      }
      var b := DecodeUartByte(samples, signal, startS, bitS);
      ghost var rest := StartEdges(edges[at + 1..], NextCursor(startS, bitS), limit, bitS);
      bytes := bytes + [b];
      cursorS := NextCursor(startS, bitS);
      passed := at + 1;
      EarlierSkipped(edges, cursorS, limit, bitS, passed);
      Assoc(starts, [startS], rest);
      starts := starts + [startS];
    }
  }

  // ---------------------------------------------------------------- framed stream

  function Values(items: seq<DecodedByte>): (values: seq<byte>)
    ensures |values| == |items|
    ensures forall i :: 0 <= i < |items| ==> values[i] == items[i].value
  {
    seq(|items|, i requires 0 <= i < |items| => items[i].value)
  }

  function ItemNeed(items: seq<DecodedByte>): Need {
    MasterNeed(Values(items))
  }

  lemma ItemsAreDecisive()
    ensures Decisive(ItemNeed, MAX_FRAME)
  {
    MasterIsDecisive();
    forall s: seq<DecodedByte>, more: seq<DecodedByte> | !ItemNeed(s).More?
      ensures ItemNeed(s + more) == ItemNeed(s)
    {
      assert Values(s + more) == Values(s) + Values(more);
    }
    forall s: seq<DecodedByte> | ItemNeed(s).Exactly? && ItemNeed(s).length <= |s|
      ensures ItemNeed(s[..ItemNeed(s).length]) == ItemNeed(s)
    {
      assert Values(s[..ItemNeed(s).length]) == Values(s)[..ItemNeed(s).length];
    }
    assert Values([]) == [];
  }

  datatype StreamFrame = StreamFrame(bytes: seq<DecodedByte>, crcOk: bool, kind: Kind, counter: Option<byte>)

  function Report(items: seq<DecodedByte>): StreamFrame {
    var frame := Values(items);
    StreamFrame(items, CrcOk(frame), DecodeMasterKind(frame), MasterCounter(frame))
  }

  function Reports(chunks: seq<Chunk<DecodedByte>>): seq<StreamFrame> {
    if chunks == [] then []
    else (if chunks[0].Frame? then [Report(chunks[0].items)] else []) + Reports(chunks[1..])
  }

  lemma ReportsCons(first: Chunk<DecodedByte>, rest: seq<Chunk<DecodedByte>>)
    ensures Reports([first] + rest) == (if first.Frame? then [Report(first.items)] else []) + Reports(rest)
  {
    assert ([first] + rest)[1..] == rest;
  }

  lemma {:induction false} ReportsConcat(a: seq<Chunk<DecodedByte>>, b: seq<Chunk<DecodedByte>>)
    ensures Reports(a + b) == Reports(a) + Reports(b)
  {
    hide Report;
    if a == [] {
      assert a + b == b;
      assert Reports(a) + Reports(b) == Reports(b);
    } else {
      ReportsConcat(a[1..], b);
      assert a + b == [a[0]] + (a[1..] + b);
      ReportsCons(a[0], a[1..] + b);
      Assoc(if a[0].Frame? then [Report(a[0].items)] else [], Reports(a[1..]), Reports(b));
    }
  }

  /** What one turn of the inner loop contributes to the frames already reported. */
  lemma TurnReports(held: seq<DecodedByte>, decoded: seq<StreamFrame>)
    requires Decisive(ItemNeed, MAX_FRAME)
    ensures var n := Leaving(ItemNeed, MAX_FRAME, held);
      if n == 0 then Drain(ItemNeed, MAX_FRAME, held) == Split([], held)
      else
        var now, later := Drain(ItemNeed, MAX_FRAME, held), Drain(ItemNeed, MAX_FRAME, held[n..]);
        && now.held == later.held
        && decoded + Reports(now.chunks)
           == (if ItemNeed(held).Bad? then decoded else decoded + [Report(held[..n])]) + Reports(later.chunks)
  {
    hide Decisive, Report;
    var n := Leaving(ItemNeed, MAX_FRAME, held);
    if n > 0 {
      var later := Drain(ItemNeed, MAX_FRAME, held[n..]).chunks;
      var front := Front(ItemNeed, MAX_FRAME, held);
      ReportsCons(front, later);
      hide Reports;
      if front.Frame? {
        Assoc(decoded, [Report(held[..n])], Reports(later));
      } else {
        assert [] + Reports(later) == Reports(later);
      }
    }
  }

  /** The inner loop of the stream decoder: frames leave the buffer as long as they can. */
  method DrainBuffer(buffer: seq<DecodedByte>, decoded: seq<StreamFrame>)
    returns (held: seq<DecodedByte>, decoded': seq<StreamFrame>)
    requires Decisive(ItemNeed, MAX_FRAME)
    ensures held == Drain(ItemNeed, MAX_FRAME, buffer).held
    ensures decoded' == decoded + Reports(Drain(ItemNeed, MAX_FRAME, buffer).chunks)
  {
    ghost var whole := Drain(ItemNeed, MAX_FRAME, buffer);
    hide Decisive, Drain, Reports, ItemNeed;
    held, decoded' := buffer, decoded;
    while held != []
      invariant Drain(ItemNeed, MAX_FRAME, held).held == whole.held
      invariant decoded + Reports(whole.chunks) == decoded' + Reports(Drain(ItemNeed, MAX_FRAME, held).chunks)
      decreases |held|
    {
      var expected := ItemNeed(held);
      TurnReports(held, decoded');
      if expected.More? {
        break;
      }
      if expected.Bad? {
        held := held[1..];
        continue;
      }
      if |held| < expected.length {
        break;
      }
      decoded' := decoded' + [Report(held[..expected.length])];
      held := held[expected.length..];
    }
    TurnReports(held, decoded');
    NoReports(decoded');
  }

  lemma NoReports(decoded: seq<StreamFrame>)
    ensures decoded + Reports([]) == decoded
  {}

  /** The bytes of a free-running line, from its first sample on. */
  function StreamBytes(samples: seq<Sample>, signal: string, bitS: real): seq<DecodedByte>
    requires samples != []
  {
    BytesAt(samples, signal, StartEdges(Edges(samples, signal), samples[0].timeS, Unlimited, bitS), bitS)
  }

  /** The frames reported for a capture; a channel without any reading has none. */
  ghost function StreamFrames(samples: seq<Sample>, signal: string, bitS: real): seq<StreamFrame> {
    if !HasChannel(samples, signal) then []
    else
      ItemsAreDecisive();
      Reports(DrainEach(ItemNeed, MAX_FRAME, [], StreamBytes(samples, signal, bitS)).chunks)
  }

  method DecodeUartStream(samples: seq<Sample>, signal: string, bitS: real) returns (decoded: seq<StreamFrame>)
    requires Sorted(samples)
    ensures decoded == StreamFrames(samples, signal, bitS)
  {
    if !HasChannel(samples, signal) {
      return [];
    }
    ItemsAreDecisive();
    var result := TransitionEdges(samples, signal);
    decoded := FrameEdges(samples, result.value, signal, bitS);
  }

  /** The loop over the edges: bytes at start bits, frames cut off as they complete. */
  method FrameEdges(samples: seq<Sample>, edges: seq<Edge>, signal: string, bitS: real)
    returns (decoded: seq<StreamFrame>)
    requires samples != [] && Sorted(samples) && edges == Edges(samples, signal)
    requires Decisive(ItemNeed, MAX_FRAME)
    ensures decoded == Reports(DrainEach(ItemNeed, MAX_FRAME, [], StreamBytes(samples, signal, bitS)).chunks)
  {
    hide Decisive, Drain, ItemNeed, ByteAt, Edges, Reports, Sorted;
    var buffer: seq<DecodedByte> := [];
    decoded := [];
    var cursorS := samples[0].timeS;
    ghost var goal := Reports(DrainEach(ItemNeed, MAX_FRAME, [], StreamBytes(samples, signal, bitS)).chunks);
    assert edges[0..] == edges;
    assert [] + goal == goal;
    for i := 0 to |edges|
      invariant goal == decoded + Reports(DrainEach(ItemNeed, MAX_FRAME, buffer,
                                            BytesAt(samples, signal,
                                                    StartEdges(edges[i..], cursorS, Unlimited, bitS), bitS)).chunks)
    {
      assert edges[i..][1..] == edges[i + 1..] && edges[i..][0] == edges[i];
      if edges[i].timeS < cursorS {
        continue;
      }
      if edges[i].before != 1 || edges[i].after != 0 {
        continue;
      }
      var b := DecodeUartByte(samples, signal, edges[i].timeS, bitS);
      cursorS := NextCursor(edges[i].timeS, bitS);
      ghost var rest := StartEdges(edges[i + 1..], cursorS, Unlimited, bitS);
      BytesCons(samples, signal, edges[i].timeS, rest, bitS);
      ByteArrives(buffer, b, BytesAt(samples, signal, rest, bitS), decoded);
      buffer, decoded := DrainBuffer(buffer + [b], decoded);
    }
    assert edges[|edges|..] == [];
    assert BytesAt(samples, signal, [], bitS) == [];
    NoReports(decoded);
  }

  lemma BytesCons(samples: seq<Sample>, signal: string, t: real, rest: seq<real>, bitS: real)
    ensures BytesAt(samples, signal, [t] + rest, bitS)
         == [ByteAt(samples, signal, t, bitS)] + BytesAt(samples, signal, rest, bitS)
  {
    hide ByteAt;
  }

  lemma ByteArrives(buffer: seq<DecodedByte>, b: DecodedByte, rest: seq<DecodedByte>, decoded: seq<StreamFrame>)
    requires Decisive(ItemNeed, MAX_FRAME)
    ensures var now := Drain(ItemNeed, MAX_FRAME, buffer + [b]);
      decoded + Reports(DrainEach(ItemNeed, MAX_FRAME, buffer, [b] + rest).chunks)
      == (decoded + Reports(now.chunks)) + Reports(DrainEach(ItemNeed, MAX_FRAME, now.held, rest).chunks)
  {
    hide Decisive, Drain, ItemNeed, Reports;
    var now := Drain(ItemNeed, MAX_FRAME, buffer + [b]);
    var later := DrainEach(ItemNeed, MAX_FRAME, now.held, rest);
    assert ([b] + rest)[1..] == rest;
    ReportsConcat(now.chunks, later.chunks);
    Assoc(decoded, Reports(now.chunks), Reports(later.chunks));
  }

  // ---------------------------------------------------------------- end to end

  /** Cuts a list of decoded bytes at the boundaries of the frames sent. */
  function Regroup(items: seq<DecodedByte>, frames: seq<seq<byte>>): seq<seq<DecodedByte>>
    requires |items| == |Flatten(frames)|
  {
    if frames == [] then []
    else [items[..|frames[0]|]] + Regroup(items[|frames[0]|..], frames[1..])
  }

  lemma {:induction false} Regrouped(items: seq<DecodedByte>, frames: seq<seq<byte>>)
    requires Values(items) == Flatten(frames)
    ensures var groups := Regroup(items, frames);
      && Flatten(groups) == items
      && |groups| == |frames|
      && (forall i :: 0 <= i < |frames| ==> Values(groups[i]) == frames[i])
      && (forall i, j :: 0 <= i < |frames| && 0 <= j < |groups[i]| ==> groups[i][j] in items)
    decreases frames
  {
    if frames == [] {
    } else {
      var n := |frames[0]|;
      var first, rest := items[..n], items[n..];
      assert Values(first) == Values(items)[..n] && Values(rest) == Values(items)[n..];
      Regrouped(rest, frames[1..]);
      assert items == first + rest;
    }
  }

  lemma {:induction false} ReportsOf(groups: seq<seq<DecodedByte>>)
    ensures |Reports(AsFrames(groups))| == |groups|
    ensures forall i :: 0 <= i < |groups| ==> Reports(AsFrames(groups))[i] == Report(groups[i])
  {
    hide Report;
    if groups != [] {
      ReportsOf(groups[1..]);
      ReportsCons(Frame(groups[0]), AsFrames(groups[1..]));
    }
  }

  ghost predicate Clean(f: StreamFrame) {
    forall b :: b in f.bytes ==> b.errors == []
  }

  function BytesOf(decoded: seq<StreamFrame>): (blocks: seq<seq<DecodedByte>>)
    ensures |blocks| == |decoded| && forall i :: 0 <= i < |decoded| ==> blocks[i] == decoded[i].bytes
  {
    seq(|decoded|, i requires 0 <= i < |decoded| => decoded[i].bytes)
  }

  /** Each byte is seen to start at most one sampling gap late. */
  ghost predicate BytesInTime(items: seq<DecodedByte>, sent: seq<Sent>, gapS: real) {
    |items| == |sent|
    && forall j :: 0 <= j < |items| ==> sent[j].startS <= items[j].startS < sent[j].startS + gapS
  }

  /** What the stream decoder must report for a request. */
  ghost predicate Reproduces(f: StreamFrame, r: Request) {
    && Values(f.bytes) == Build(r)
    && f.crcOk
    && f.kind == KindOf(r)
    && f.counter == CounterOf(r)
    && Clean(f)
  }

  /**
   Any list of built requests, transmitted as 8E1 bytes at any spacing and phase on a line that is
   sampled densely enough, is decoded to exactly those requests.
   */
  lemma RequestsAreDecoded(requests: seq<Request>, samples: seq<Sample>, signal: string, sent: seq<Sent>,
                           lineS: real, bitS: real, gapS: real)
    requires TimingOk(lineS, bitS, gapS) && Sorted(samples)
    requires Captures(Known(samples, signal), signal, sent, lineS, gapS) && Spaced(sent, lineS)
    requires |sent| == |Flatten(BuildAll(requests))|
    requires forall i :: 0 <= i < |sent| ==> sent[i].value == Flatten(BuildAll(requests))[i]
    ensures HasChannel(samples, signal)
    ensures var decoded := StreamFrames(samples, signal, bitS);
      |decoded| == |requests| && forall i :: 0 <= i < |requests| ==> Reproduces(decoded[i], requests[i])
    ensures BytesInTime(Flatten(BytesOf(StreamFrames(samples, signal, bitS))), sent, gapS)
  {
    hide Reports, Reproduces, BuildAll, Regroup, Flatten, DrainEach, Decisive;
    KnownHasChannel(samples, signal);
    FirstKnown(samples, signal);
    ItemsAreDecisive();
    var frames := BuildAll(requests);
    var items := StreamBytes(samples, signal, bitS);
    var starts := BytesRead(samples, signal, sent, lineS, bitS, gapS, samples[0].timeS, Unlimited, 0, |sent|);
    assert Values(items) == Flatten(frames);
    assert forall b :: b in items ==> b.errors == [];
    hide Captures, Spaced, Known, Sorted, TimingOk, StreamBytes;
    ItemsReproduce(items, requests);
  }

  lemma GroupReproduces(group: seq<DecodedByte>, r: Request)
    requires Values(group) == Build(r) && forall j :: 0 <= j < |group| ==> group[j].errors == []
    ensures ItemNeed(group) == Exactly(|group|)
    ensures Reproduces(Report(group), r) && Report(group).bytes == group
  {
    BuiltFrame(r);
    hide Build, MasterNeed, CrcOk, DecodeMasterKind, MasterCounter;
  }

  lemma ItemsReproduce(items: seq<DecodedByte>, requests: seq<Request>)
    requires Decisive(ItemNeed, MAX_FRAME)
    requires Values(items) == Flatten(BuildAll(requests))
    requires forall b :: b in items ==> b.errors == []
    ensures var decoded := Reports(DrainEach(ItemNeed, MAX_FRAME, [], items).chunks);
      && |decoded| == |requests|
      && (forall i :: 0 <= i < |requests| ==> Reproduces(decoded[i], requests[i]))
      && Flatten(BytesOf(decoded)) == items
  {
    hide Decisive, Build, BuildAll, ItemNeed, Report, Reports, Reproduces, Regroup, Flatten, Values, AsFrames,
         DrainEach;
    var frames := BuildAll(requests);
    var groups := Regroup(items, frames);
    AllBuilt(requests);
    Regrouped(items, frames);
    forall i | 0 <= i < |groups|
      ensures ItemNeed(groups[i]) == Exactly(|groups[i]|)
      ensures Reproduces(Report(groups[i]), requests[i]) && Report(groups[i]).bytes == groups[i]
    {
      GroupReproduces(groups[i], requests[i]);
    }
    SentFramesAreReceived(ItemNeed, MAX_FRAME, groups);
    ReportsOf(groups);
    assert BytesOf(Reports(AsFrames(groups))) == groups;
  }

  /** Frames `i` up to `m` lie in the window, all others outside it. */
  ghost predicate SentWithin(sent: seq<Sent>, lineS: real, window: Window, i: nat, m: nat) {
    && i <= m <= |sent|
    && (forall j :: 0 <= j < i ==> sent[j].startS + 11.0 * lineS <= window.startS)
    && (forall j :: i <= j < m ==> window.startS <= sent[j].startS && sent[j].startS + 11.0 * lineS <= window.endS)
    && (forall j :: m <= j < |sent| ==> window.endS < sent[j].startS)
  }

  /** The gate-window decoder returns exactly the bytes sent inside the window, each seen in time. */
  lemma WindowIsDecoded(samples: seq<Sample>, signal: string, sent: seq<Sent>, window: Window,
                        lineS: real, bitS: real, gapS: real, i: nat, m: nat)
    requires TimingOk(lineS, bitS, gapS)
    requires Captures(Known(samples, signal), signal, sent, lineS, gapS) && Spaced(sent, lineS)
    requires SentWithin(sent, lineS, window, i, m)
    ensures HasChannel(samples, signal)
    ensures var bytes := BytesAt(samples, signal,
                           StartEdges(Edges(samples, signal), window.startS, Until(window.endS), bitS), bitS);
      && |bytes| == m - i
      && (forall j :: 0 <= j < m - i ==> bytes[j].value == sent[i + j].value && bytes[j].errors == [])
      && BytesInTime(bytes, sent[i..m], gapS)
  {
    KnownHasChannel(samples, signal);
    var starts := BytesRead(samples, signal, sent, lineS, bitS, gapS, window.startS, Until(window.endS), i, m);
  }
}
