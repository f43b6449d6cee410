/**
 Logic-analyser decoding of an 8E1 line: sampled levels to edges, edges to start bits, start bits
 to bytes. Times are exact reals in seconds.
 */
module Uart {
  import opened Crc16
  import opened Options

  datatype Sample = Sample(timeS: real, values: map<string, int>)

  datatype Level = Missing | Seen(value: int)

  function ValueAt(sample: Sample, channel: string): Level {
    if channel in sample.values then Seen(sample.values[channel]) else Missing
  }

  ghost predicate Sorted(samples: seq<Sample>) {
    forall i, j :: 0 <= i < j < |samples| ==> samples[i].timeS <= samples[j].timeS
  }

  /** The capture has some reading of the channel; without one the scans raise an error. */
  predicate HasChannel(samples: seq<Sample>, channel: string) {
    exists i :: 0 <= i < |samples| && channel in samples[i].values
  }

  // ---------------------------------------------------------------- edges

  datatype Edge = Edge(timeS: real, before: int, after: int)

  /** Level changes in `rest`, given the last level seen before it. */
  function EdgesFrom(last: Level, rest: seq<Sample>, channel: string): seq<Edge>
    decreases |rest|
  {
    if rest == [] then []
    else match ValueAt(rest[0], channel)
      case Missing => EdgesFrom(last, rest[1..], channel)
      case Seen(v) =>
        (if last.Seen? && v != last.value then [Edge(rest[0].timeS, last.value, v)] else [])
        + EdgesFrom(Seen(v), rest[1..], channel)
  }

  function Edges(samples: seq<Sample>, channel: string): seq<Edge>
    requires samples != []
  {
    EdgesFrom(ValueAt(samples[0], channel), samples[1..], channel)
  }

  /** `None` stands for the error. */
  method TransitionEdges(samples: seq<Sample>, channel: string) returns (result: Option<seq<Edge>>)
    ensures result == if HasChannel(samples, channel) then Some(Edges(samples, channel)) else None
  {
    if !HasChannel(samples, channel) {
      return None;
    }
    var edges: seq<Edge> := [];
    var last := ValueAt(samples[0], channel);
    for i := 1 to |samples|
      invariant Edges(samples, channel) == edges + EdgesFrom(last, samples[i..], channel)
    {
      var current := ValueAt(samples[i], channel);
      assert samples[i..][1..] == samples[i + 1..];
      if current.Missing? {
        continue;
      }
      var rest := EdgesFrom(current, samples[i + 1..], channel);
      if last.Seen? && current != last {
        var edge := Edge(samples[i].timeS, last.value, current.value);
        assert (edges + [edge]) + rest == edges + ([edge] + rest);
        edges := edges + [edge];
      } else {
        assert [] + rest == rest;
      }
      last := current;
    }
    assert samples[|samples|..] == [];
    assert edges + [] == edges;
    result := Some(edges);
  }

  /** The last reading before sample `i`. */
  ghost predicate LastReading(samples: seq<Sample>, channel: string, i: nat, value: int)
    requires i <= |samples|
  {
    exists j :: 0 <= j < i && ValueAt(samples[j], channel) == Seen(value)
                && forall k :: j < k < i ==> ValueAt(samples[k], channel).Missing?
  }

  ghost predicate Unread(samples: seq<Sample>, channel: string, i: nat)
    requires i <= |samples|
  {
    forall j :: 0 <= j < i ==> ValueAt(samples[j], channel).Missing?
  }

  /** What is known before sample `i`. */
  ghost predicate KnownBefore(samples: seq<Sample>, channel: string, i: nat, last: Level)
    requires i <= |samples|
  {
    if last.Seen? then LastReading(samples, channel, i, last.value) else Unread(samples, channel, i)
  }

  lemma OneLastReading(samples: seq<Sample>, channel: string, i: nat, a: int, b: int)
    requires i <= |samples| && LastReading(samples, channel, i, a)
    ensures LastReading(samples, channel, i, b) ==> a == b
    ensures !Unread(samples, channel, i)
  {}

  lemma KnownNext(samples: seq<Sample>, channel: string, i: nat, last: Level)
    requires i < |samples| && KnownBefore(samples, channel, i, last)
    ensures var v := ValueAt(samples[i], channel);
      KnownBefore(samples, channel, i + 1, if v.Seen? then v else last)
  {}

  /** Sample `i` reads another level than the last reading before it. */
  ghost predicate Changes(samples: seq<Sample>, channel: string, i: nat)
    requires i < |samples|
  {
    ValueAt(samples[i], channel).Seen?
    && exists v :: LastReading(samples, channel, i, v) && v != ValueAt(samples[i], channel).value
  }

  ghost predicate Rising(at: seq<nat>) {
    forall i, j :: 0 <= i < j < |at| ==> at[i] < at[j]
  }

  /** These edges are at these samples. */
  ghost predicate EdgesAt(samples: seq<Sample>, channel: string, edges: seq<Edge>, at: seq<nat>) {
    && |at| == |edges|
    && forall k :: 0 <= k < |at| ==>
         && at[k] < |samples| && edges[k].timeS == samples[at[k]].timeS
         && ValueAt(samples[at[k]], channel) == Seen(edges[k].after)
         && LastReading(samples, channel, at[k], edges[k].before)
  }

  lemma {:induction false} EdgesBehind(samples: seq<Sample>, channel: string, i: nat, last: Level)
    returns (at: seq<nat>)
    requires i <= |samples| && KnownBefore(samples, channel, i, last)
    ensures EdgesAt(samples, channel, EdgesFrom(last, samples[i..], channel), at) && Rising(at)
    ensures forall k :: k in at <==> i <= k < |samples| && Changes(samples, channel, k)
    decreases |samples| - i
  {
    at := [];
    if i < |samples| {
      var v := ValueAt(samples[i], channel);
      KnownNext(samples, channel, i, last);
      var rest := EdgesBehind(samples, channel, i + 1, if v.Seen? then v else last);
      assert samples[i..][1..] == samples[i + 1..];
      if last.Seen? {
        OneLastReading(samples, channel, i, last.value, last.value);
        ChangesIff(samples, channel, i, last.value);
      }
      var edges := EdgesFrom(if v.Seen? then v else last, samples[i + 1..], channel);
      at := rest;
      if last.Seen? && v.Seen? && v != last {
        EdgeFirst(samples, channel, Edge(samples[i].timeS, last.value, v.value), edges, i, rest);
        at := [i] + rest;
      } else {
        assert [] + edges == edges;
        assert !Changes(samples, channel, i);
      }
      hide LastReading, ValueAt, EdgesAt, Rising, Changes;
    }
  }

  lemma EdgeFirst(samples: seq<Sample>, channel: string, e: Edge, edges: seq<Edge>, i: nat, rest: seq<nat>)
    requires i < |samples| && e.timeS == samples[i].timeS && ValueAt(samples[i], channel) == Seen(e.after)
    requires LastReading(samples, channel, i, e.before)
    requires EdgesAt(samples, channel, edges, rest) && Rising(rest) && forall k :: k in rest ==> i < k
    ensures EdgesAt(samples, channel, [e] + edges, [i] + rest) && Rising([i] + rest)
  {
    hide LastReading, ValueAt;
    assert forall k :: 0 <= k < |rest| ==> rest[k] in rest;
  }

  lemma ChangesIff(samples: seq<Sample>, channel: string, i: nat, last: int)
    requires i < |samples| && LastReading(samples, channel, i, last)
    ensures Changes(samples, channel, i)
      <==> ValueAt(samples[i], channel).Seen? && ValueAt(samples[i], channel).value != last
  {
    forall v | LastReading(samples, channel, i, v) ensures v == last {
      OneLastReading(samples, channel, i, last, v);
    }
    hide LastReading;
  }

  /** The edges are exactly the samples whose reading differs from the last reading before them, in order. */
  lemma EdgesAreChanges(samples: seq<Sample>, channel: string) returns (at: seq<nat>)
    requires samples != []
    ensures EdgesAt(samples, channel, Edges(samples, channel), at) && Rising(at)
    ensures forall k :: k in at <==> 0 <= k < |samples| && Changes(samples, channel, k)
  {
    var first := ValueAt(samples[0], channel);
    assert KnownBefore(samples, channel, 1, first);
    at := EdgesBehind(samples, channel, 1, first);
  }

  // ---------------------------------------------------------------- levels

  /** The latest known level no later than `timeS`. */
  function LevelAt(samples: seq<Sample>, channel: string, timeS: real): Level
    decreases |samples|
  {
    if samples == [] then Missing
    else
      var last := samples[|samples| - 1];
      if last.timeS > timeS || ValueAt(last, channel).Missing? then LevelAt(samples[..|samples| - 1], channel, timeS)
      else ValueAt(last, channel)
  }

  /** How many leading samples are no later than `timeS`: the library's rightmost bisection. */
  function BisectRight(samples: seq<Sample>, timeS: real): (n: nat)
    requires Sorted(samples)
    ensures n <= |samples|
    ensures forall i :: 0 <= i < |samples| ==> (samples[i].timeS <= timeS <==> i < n)
    decreases |samples|
  {
    if samples == [] then 0
    else if samples[|samples| - 1].timeS <= timeS then |samples|
    else BisectRight(samples[..|samples| - 1], timeS)
  }

  method LevelAtTime(samples: seq<Sample>, channel: string, timeS: real) returns (level: Level)
    requires Sorted(samples)
    ensures level == LevelAt(samples, channel, timeS)
  {
    var index := BisectRight(samples, timeS) - 1;
    LaterIgnored(samples, channel, timeS, index + 1);
    while index >= 0
      invariant -1 <= index < |samples|
      invariant forall i :: 0 <= i <= index ==> samples[i].timeS <= timeS
      invariant LevelAt(samples, channel, timeS) == LevelAt(samples[..index + 1], channel, timeS)
    {
      level := ValueAt(samples[index], channel);
      assert samples[..index + 1][..index] == samples[..index];
      if level.Seen? {
        return;
      }
      index := index - 1;
    }
    level := Missing;
  }

  lemma {:induction false} LaterIgnored(samples: seq<Sample>, channel: string, timeS: real, n: nat)
    requires n <= |samples|
    requires forall i :: n <= i < |samples| ==> samples[i].timeS > timeS
    ensures LevelAt(samples, channel, timeS) == LevelAt(samples[..n], channel, timeS)
    decreases |samples|
  {
    if n == |samples| {
      assert samples[..n] == samples;
    } else {
      var shorter := samples[..|samples| - 1];
      LaterIgnored(shorter, channel, timeS, n);
      assert shorter[..n] == samples[..n];
    }
  }

  // ---------------------------------------------------------------- one byte

  datatype ByteError = StartError | DataMissing(bit: nat) | ParityMissing | ParityError | StopError

  datatype DecodedByte = DecodedByte(startS: real, value: byte, errors: seq<ByteError>)

  function BitMask(bit: nat): byte {
    if bit == 0 then 1 else BitMask(bit - 1) << 1
  }

  /** The value, number of ones and errors after reading `n` data levels. */
  function DataValue(levels: seq<Level>, n: nat): byte
    requires n <= |levels|
  {
    if n == 0 then 0
    else if levels[n - 1] == Seen(1) then DataValue(levels, n - 1) | BitMask(n - 1)
    else DataValue(levels, n - 1)
  }

  function Ones(levels: seq<Level>, n: nat): nat
    requires n <= |levels|
  {
    if n == 0 then 0 else Ones(levels, n - 1) + (if levels[n - 1] == Seen(1) then 1 else 0)
  }

  function DataErrors(levels: seq<Level>, n: nat): seq<ByteError>
    requires n <= |levels|
  {
    if n == 0 then []
    else DataErrors(levels, n - 1)
         + (if levels[n - 1] == Seen(0) || levels[n - 1] == Seen(1) then [] else [DataMissing(n - 1)])
  }

  function DataTime(startS: real, bitS: real, bit: nat): real {
    startS + (1.5 + bit as real) * bitS
  }

  /** The levels read in the middle of the eight data slots. */
  function DataLevels(samples: seq<Sample>, channel: string, startS: real, bitS: real): seq<Level> {
    seq(8, i requires 0 <= i < 8 => LevelAt(samples, channel, DataTime(startS, bitS, i)))
  }

  function Unless(ok: bool, error: ByteError): seq<ByteError> {
    if ok then [] else [error]
  }

  function ParityErrors(ones: nat, parity: Level): seq<ByteError> {
    if parity != Seen(0) && parity != Seen(1) then [ParityMissing]
    else Unless((ones + parity.value) % 2 == 0, ParityError)
  }

  function Decode(startS: real, start: Level, levels: seq<Level>, parity: Level, stop: Level): DecodedByte
    requires |levels| == 8
  {
    DecodedByte(startS, DataValue(levels, 8),
                Unless(start == Seen(0), StartError) + DataErrors(levels, 8)
                + ParityErrors(Ones(levels, 8), parity) + Unless(stop == Seen(1), StopError))
  }

  function ByteAt(samples: seq<Sample>, channel: string, startS: real, bitS: real): DecodedByte {
    Decode(startS,
           LevelAt(samples, channel, startS + 0.5 * bitS),
           DataLevels(samples, channel, startS, bitS),
           LevelAt(samples, channel, startS + 9.5 * bitS),
           LevelAt(samples, channel, startS + 10.5 * bitS))
  }

  method DecodeUartByte(samples: seq<Sample>, channel: string, startS: real, bitS: real) returns (b: DecodedByte)
    requires Sorted(samples)
    ensures b == ByteAt(samples, channel, startS, bitS)
  {
    hide LevelAt, BitMask, Sorted, DataTime;
    ghost var levels := DataLevels(samples, channel, startS, bitS);
    var errors := [];
    var start := LevelAtTime(samples, channel, startS + 0.5 * bitS);
    if start != Seen(0) {
      errors := errors + [StartError];
    }
    ghost var before := errors;
    assert before == Unless(start == Seen(0), StartError);
    var value: byte, ones := 0, 0;
    for bit := 0 to 8
      invariant value == DataValue(levels, bit) && ones == Ones(levels, bit)
      invariant errors == before + DataErrors(levels, bit)
    {
      var level := LevelAtTime(samples, channel, DataTime(startS, bitS, bit));
      assert level == levels[bit];
      if level != Seen(0) && level != Seen(1) {
        errors := errors + [DataMissing(bit)];
        level := Seen(0);
      }
      if level == Seen(1) {
        value := value | BitMask(bit);
        ones := ones + 1;
      }
    }
    ghost var data := errors;
    var parity := LevelAtTime(samples, channel, startS + 9.5 * bitS);
    if parity != Seen(0) && parity != Seen(1) {
      errors := errors + [ParityMissing];
    } else if (ones + parity.value) % 2 != 0 {
      errors := errors + [ParityError];
    }
    assert errors == data + ParityErrors(ones, parity);
    var stop := LevelAtTime(samples, channel, startS + 10.5 * bitS);
    if stop != Seen(1) {
      errors := errors + [StopError];
    }
    b := DecodedByte(startS, value, errors);
  }

  // ---------------------------------------------------------------- start edges

  datatype Limit = Unlimited | Until(endS: real)

  /** After a byte the cursor skips eleven bit times less a quarter. */
  function NextCursor(startS: real, bitS: real): real {
    startS + (11.0 - 0.25) * bitS
  }

  /** The falling edges taken as start bits, from the first edge no earlier than the cursor. */
  function StartEdges(edges: seq<Edge>, cursorS: real, limit: Limit, bitS: real): seq<real> {
    if edges == [] then []
    else if edges[0].timeS < cursorS then StartEdges(edges[1..], cursorS, limit, bitS)
    else if limit.Until? && edges[0].timeS > limit.endS then []
    else if edges[0].before == 1 && edges[0].after == 0 then
      [edges[0].timeS] + StartEdges(edges[1..], NextCursor(edges[0].timeS, bitS), limit, bitS)
    else StartEdges(edges[1..], cursorS, limit, bitS)
  }

  function BytesAt(samples: seq<Sample>, channel: string, starts: seq<real>, bitS: real): (bytes: seq<DecodedByte>)
    ensures |bytes| == |starts|
    ensures forall i :: 0 <= i < |starts| ==> bytes[i] == ByteAt(samples, channel, starts[i], bitS)
  {
    seq(|starts|, i requires 0 <= i < |starts| => ByteAt(samples, channel, starts[i], bitS))
  }
}
