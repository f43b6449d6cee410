/**
 The windows in which a gate channel is high. They are shown to cover exactly the times at which the
 channel's level is one, except where a capture starts without a reading of the channel.
 */
module GateWindows {
  import opened LaDecoder
  import opened Options
  import opened Uart

  /** The scan over the samples so far: last known level, start of the open window, closed windows. */
  datatype Scan = Scan(level: Level, startS: Option<real>, windows: seq<Window>)

  function Step(s: Scan, sample: Sample, channel: string): Scan {
    var current := ValueAt(sample, channel);
    if current.Missing? then s
    else if s.level == Seen(0) && current == Seen(1) then s.(level := current, startS := Some(sample.timeS))
    else if s.level == Seen(1) && current == Seen(0) && s.startS.Some? then
      Scan(current, None, s.windows + [Window(s.startS.value, sample.timeS)])
    else s.(level := current)
  }

  function ScanOf(samples: seq<Sample>, channel: string): Scan
    requires samples != []
    decreases |samples|
  {
    if |samples| == 1 then
      var level := ValueAt(samples[0], channel);
      Scan(level, if level == Seen(1) then Some(samples[0].timeS) else None, [])
    else Step(ScanOf(samples[..|samples| - 1], channel), samples[|samples| - 1], channel)
  }

  function Windows(samples: seq<Sample>, channel: string): seq<Window>
    requires samples != []
  {
    var s := ScanOf(samples, channel);
    if s.level == Seen(1) && s.startS.Some? then
      s.windows + [Window(s.startS.value, samples[|samples| - 1].timeS)]
    else s.windows
  }

  /** `None` stands for the error of a capture without the channel. */
  method HighWindows(samples: seq<Sample>, channel: string) returns (result: Option<seq<Window>>)
    ensures result == if HasChannel(samples, channel) then Some(Windows(samples, channel)) else None
  {
    if !HasChannel(samples, channel) {
      return None;
    }
    var windows: seq<Window> := [];
    var level := ValueAt(samples[0], channel);
    var startS := if level == Seen(1) then Some(samples[0].timeS) else None;
    assert samples[..1] == [samples[0]];
    for i := 1 to |samples|
      invariant Scan(level, startS, windows) == ScanOf(samples[..i], channel)
    {
      assert samples[..i + 1][..i] == samples[..i];
      var current := ValueAt(samples[i], channel);
      if current.Missing? {
        continue;
      }
      if level == Seen(0) && current == Seen(1) {
        startS := Some(samples[i].timeS);
      } else if level == Seen(1) && current == Seen(0) && startS.Some? {
        windows := windows + [Window(startS.value, samples[i].timeS)];
        startS := None;
      }
      level := current;
    }
    assert samples[..|samples|] == samples;
    if level == Seen(1) && startS.Some? {
      windows := windows + [Window(startS.value, samples[|samples| - 1].timeS)];
    }
    result := Some(windows);
  }

  // ---------------------------------------------------------------- what they cover

  ghost predicate Binary(samples: seq<Sample>, channel: string) {
    forall i :: 0 <= i < |samples| ==> ValueAt(samples[i], channel) in {Missing, Seen(0), Seen(1)}
  }

  ghost predicate InSome(windows: seq<Window>, t: real) {
    exists i :: 0 <= i < |windows| && windows[i].startS <= t < windows[i].endS
  }

  /** The channel has been read from the start, or has been seen low by `t`. */
  ghost predicate Anchored(samples: seq<Sample>, channel: string, t: real)
    requires samples != []
  {
    || ValueAt(samples[0], channel).Seen?
    || exists i :: 0 <= i < |samples| && samples[i].timeS <= t && ValueAt(samples[i], channel) == Seen(0)
  }

  ghost predicate High(samples: seq<Sample>, channel: string, t: real)
    requires samples != []
  {
    LevelAt(samples, channel, t) == Seen(1) && Anchored(samples, channel, t)
  }

  /** Times covered by the scan: the closed windows, and everything since the open one began. */
  ghost predicate Covered(s: Scan, t: real) {
    InSome(s.windows, t) || (s.level == Seen(1) && s.startS.Some? && s.startS.value <= t)
  }

  lemma LevelSnoc(samples: seq<Sample>, e: Sample, channel: string, t: real)
    ensures LevelAt(samples + [e], channel, t)
         == if e.timeS > t || ValueAt(e, channel).Missing? then LevelAt(samples, channel, t) else ValueAt(e, channel)
  {
    assert (samples + [e])[..|samples|] == samples;
  }

  lemma AnchoredSnoc(samples: seq<Sample>, e: Sample, channel: string, t: real)
    requires samples != []
    ensures Anchored(samples + [e], channel, t)
         <==> Anchored(samples, channel, t) || (e.timeS <= t && ValueAt(e, channel) == Seen(0))
  {
    var all := samples + [e];
    assert all[|samples|] == e && forall i :: 0 <= i < |samples| ==> all[i] == samples[i];
  }

  lemma InSomeSnoc(windows: seq<Window>, w: Window, t: real)
    ensures InSome(windows + [w], t) <==> InSome(windows, t) || w.startS <= t < w.endS
  {
    var all := windows + [w];
    assert all[|windows|] == w && forall i :: 0 <= i < |windows| ==> all[i] == windows[i];
  }

  /** What is known after some samples, the last at `now`. */
  ghost predicate Tracked(samples: seq<Sample>, channel: string, s: Scan)
    requires samples != []
  {
    var now := samples[|samples| - 1].timeS;
    && (forall t :: t >= now ==> LevelAt(samples, channel, t) == s.level)
    && s.level in {Missing, Seen(0), Seen(1)}
    && (s.startS.Some? ==> s.level == Seen(1) && s.startS.value <= now)
    && (forall i :: 0 <= i < |s.windows| ==> s.windows[i].endS <= now)
    && (s.level.Missing? ==> !Anchored(samples, channel, now))
    && (s.level == Seen(0) ==> Anchored(samples, channel, now))
    && (s.level == Seen(1) ==> (s.startS.Some? <==> Anchored(samples, channel, now)))
  }

  lemma AnchoredLater(samples: seq<Sample>, channel: string, t: real)
    requires samples != [] && Sorted(samples) && samples[|samples| - 1].timeS <= t
    ensures Anchored(samples, channel, t) == Anchored(samples, channel, samples[|samples| - 1].timeS)
  {
    assert forall i :: 0 <= i < |samples| ==> samples[i].timeS <= samples[|samples| - 1].timeS;
  }

  /** The next sample, no earlier than the others. */
  predicate Follows(samples: seq<Sample>, e: Sample, channel: string) {
    && samples != [] && samples[|samples| - 1].timeS <= e.timeS
    && ValueAt(e, channel) in {Missing, Seen(0), Seen(1)}
  }

  lemma KnownStep(samples: seq<Sample>, e: Sample, channel: string, s: Scan)
    requires Sorted(samples) && Follows(samples, e, channel) && Tracked(samples, channel, s)
    ensures Tracked(samples + [e], channel, Step(s, e, channel))
  {
    var all, now := samples + [e], e.timeS;
    assert all[|all| - 1] == e;
    AnchoredLater(samples, channel, now);
    AnchoredSnoc(samples, e, channel, now);
    forall t | t >= now ensures LevelAt(all, channel, t) == Step(s, e, channel).level {
      LevelSnoc(samples, e, channel, t);
    }
    hide Anchored, LevelAt, Sorted;
  }

  lemma EarlierCovered(samples: seq<Sample>, e: Sample, channel: string, s: Scan, t: real)
    requires Follows(samples, e, channel) && Tracked(samples, channel, s) && t < e.timeS
    ensures Covered(Step(s, e, channel), t) == Covered(s, t)
    ensures High(samples + [e], channel, t) == High(samples, channel, t)
  {
    LevelSnoc(samples, e, channel, t);
    AnchoredSnoc(samples, e, channel, t);
    if s.startS.Some? {
      InSomeSnoc(s.windows, Window(s.startS.value, e.timeS), t);
    }
    hide Anchored, LevelAt, InSome;
  }

  lemma NotInEarlier(windows: seq<Window>, t: real)
    requires forall i :: 0 <= i < |windows| ==> windows[i].endS <= t
    ensures !InSome(windows, t)
  {}

  lemma LaterCovered(samples: seq<Sample>, channel: string, s: Scan, t: real)
    requires samples != [] && Sorted(samples) && Tracked(samples, channel, s) && samples[|samples| - 1].timeS <= t
    ensures Covered(s, t) == High(samples, channel, t)
  {
    AnchoredLater(samples, channel, t);
    NotInEarlier(s.windows, t);
    hide Anchored, LevelAt, InSome, Sorted;
  }

  ghost predicate CoversHigh(samples: seq<Sample>, channel: string, s: Scan)
    requires samples != []
  {
    forall t :: samples[0].timeS <= t ==> Covered(s, t) == High(samples, channel, t)
  }

  lemma OneSample(samples: seq<Sample>, channel: string)
    requires |samples| == 1 && Binary(samples, channel)
    ensures Tracked(samples, channel, ScanOf(samples, channel))
  {
    var now := samples[0].timeS;
    forall t | t >= now ensures LevelAt(samples, channel, t) == ValueAt(samples[0], channel) {
      assert samples[..0] == [];
    }
  }

  lemma {:induction false} ScanCovers(samples: seq<Sample>, channel: string)
    requires samples != [] && Sorted(samples) && Binary(samples, channel)
    ensures Tracked(samples, channel, ScanOf(samples, channel))
    ensures CoversHigh(samples, channel, ScanOf(samples, channel))
    decreases |samples|
  {
    if |samples| == 1 {
      OneSample(samples, channel);
    } else {
      var before, e := samples[..|samples| - 1], samples[|samples| - 1];
      assert samples == before + [e];
      ScanCovers(before, channel);
      KnownStep(before, e, channel, ScanOf(before, channel));
    }
    var s := ScanOf(samples, channel);
    forall t | samples[0].timeS <= t ensures Covered(s, t) == High(samples, channel, t) {
      if samples[|samples| - 1].timeS <= t {
        LaterCovered(samples, channel, s, t);
      } else {
        var before, e := samples[..|samples| - 1], samples[|samples| - 1];
        assert samples == before + [e] && before[0] == samples[0];
        EarlierCovered(before, e, channel, ScanOf(before, channel), t);
      }
    }
  }

  /**
   A time within the capture lies in a window exactly if the channel is high then and its level has been
   known long enough: read from the first sample on, or seen low before.
   */
  lemma WindowsAreHigh(samples: seq<Sample>, channel: string, t: real)
    requires samples != [] && Sorted(samples) && Binary(samples, channel)
    requires samples[0].timeS <= t < samples[|samples| - 1].timeS
    ensures InSome(Windows(samples, channel), t) <==> High(samples, channel, t)
  {
    ScanCovers(samples, channel);
    var s := ScanOf(samples, channel);
    assert Covered(s, t) == High(samples, channel, t);
    if s.startS.Some? {
      InSomeSnoc(s.windows, Window(s.startS.value, samples[|samples| - 1].timeS), t);
    }
    hide High, InSome, Sorted, Binary, LevelAt, Anchored, Step;
  }

  /** Seen concretely: a channel that is high when first read, but not read at once, has no window. */
  lemma LateReadingIsMissed(channel: string)
    ensures var samples := [Sample(0.0, map[]), Sample(1.0, map[channel := 1]), Sample(2.0, map[channel := 1])];
      Windows(samples, channel) == [] && LevelAt(samples, channel, 1.5) == Seen(1)
  {
    var a, b, c := Sample(0.0, map[]), Sample(1.0, map[channel := 1]), Sample(2.0, map[channel := 1]);
    var samples := [a, b, c];
    assert samples[..2] == [a, b] && [a, b][..1] == [a];
    assert ScanOf([a], channel) == Scan(Missing, None, []);
    assert ScanOf([a, b], channel) == Scan(Seen(1), None, []);
    assert LevelAt([a, b], channel, 1.5) == Seen(1);
  }

  // ---------------------------------------------------------------- each window is one run

  /** The gate is read high, for the first time in the capture's first sample or behind a low reading. */
  ghost predicate Opens(samples: seq<Sample>, channel: string, i: nat)
    requires i < |samples|
  {
    ValueAt(samples[i], channel) == Seen(1) && (i == 0 || LastReading(samples, channel, i, 0))
  }

  ghost predicate NoLow(samples: seq<Sample>, channel: string, i: nat, j: nat) {
    forall k :: i < k < j && k < |samples| ==> ValueAt(samples[k], channel) != Seen(0)
  }

  /** The first low reading behind sample `i`, or else the last sample. */
  ghost predicate ClosedBy(samples: seq<Sample>, channel: string, i: nat, j: nat) {
    && i <= j < |samples| && NoLow(samples, channel, i, j)
    && ((i < j && ValueAt(samples[j], channel) == Seen(0)) || (j == |samples| - 1 && NoLow(samples, channel, i, j + 1)))
  }

  /** The windows closed so far run from these samples to those. */
  ghost predicate Closed(samples: seq<Sample>, channel: string, windows: seq<Window>, starts: seq<nat>,
                         ends: seq<nat>) {
    && |ends| == |windows| <= |starts|
    && (forall k :: 0 <= k < |windows| ==>
          && starts[k] < ends[k] < |samples|
          && windows[k] == Window(samples[starts[k]].timeS, samples[ends[k]].timeS)
          && ValueAt(samples[ends[k]], channel) == Seen(0) && NoLow(samples, channel, starts[k], ends[k]))
    && (forall k :: 0 <= k < |windows| && k + 1 < |starts| ==> ends[k] < starts[k + 1])
  }

  ghost predicate AllOpens(samples: seq<Sample>, channel: string, n: nat, starts: seq<nat>)
    requires n <= |samples|
  {
    Rising(starts) && forall i :: i in starts <==> 0 <= i < n && Opens(samples, channel, i)
  }

  /** The windows and the open one behind `n` samples. */
  ghost predicate Progress(samples: seq<Sample>, channel: string, n: nat, s: Scan, starts: seq<nat>, ends: seq<nat>) {
    && Closed(samples, channel, s.windows, starts, ends)
    && (forall k :: 0 <= k < |ends| ==> ends[k] < n)
    && (if s.startS.None? then |starts| == |s.windows|
        else
          && |starts| == |s.windows| + 1 && s.level == Seen(1) && starts[|starts| - 1] < n <= |samples|
          && s.startS.value == samples[starts[|starts| - 1]].timeS
          && NoLow(samples, channel, starts[|starts| - 1], n))
  }

  /** What the scan knows behind `n` samples. */
  ghost predicate Scanned(samples: seq<Sample>, channel: string, n: nat, s: Scan, starts: seq<nat>, ends: seq<nat>)
    requires n <= |samples|
  {
    && KnownBefore(samples, channel, n, s.level)
    && AllOpens(samples, channel, n, starts) && Progress(samples, channel, n, s, starts, ends)
  }

  lemma OpensIff(samples: seq<Sample>, channel: string, n: nat, level: Level)
    requires 0 < n < |samples| && KnownBefore(samples, channel, n, level)
    ensures Opens(samples, channel, n) <==> level == Seen(0) && ValueAt(samples[n], channel) == Seen(1)
  {
    if level.Seen? {
      OneLastReading(samples, channel, n, level.value, 0);
    }
  }

  lemma OpensNext(samples: seq<Sample>, channel: string, n: nat, starts: seq<nat>)
    requires n < |samples| && AllOpens(samples, channel, n, starts)
    ensures AllOpens(samples, channel, n + 1, if Opens(samples, channel, n) then starts + [n] else starts)
  {
    hide Opens;
    forall j | 0 <= j < |starts| ensures starts[j] < n {
      assert starts[j] in starts;
    }
  }

  lemma ClosesNext(samples: seq<Sample>, channel: string, windows: seq<Window>, starts: seq<nat>, ends: seq<nat>,
                   n: nat)
    requires Closed(samples, channel, windows, starts, ends) && |starts| == |windows| + 1
    requires starts[|windows|] < n < |samples| && ValueAt(samples[n], channel) == Seen(0)
    requires NoLow(samples, channel, starts[|windows|], n)
    ensures Closed(samples, channel, windows + [Window(samples[starts[|windows|]].timeS, samples[n].timeS)],
                   starts, ends + [n])
  {
    hide ValueAt, NoLow;
  }

  lemma OpensLater(samples: seq<Sample>, channel: string, windows: seq<Window>, starts: seq<nat>, ends: seq<nat>,
                   n: nat)
    requires Closed(samples, channel, windows, starts, ends) && |starts| == |windows|
    requires forall k :: 0 <= k < |ends| ==> ends[k] < n
    ensures Closed(samples, channel, windows, starts + [n], ends)
  {
    hide ValueAt, NoLow;
  }

  lemma OpenStep(samples: seq<Sample>, channel: string, n: nat, s: Scan, starts: seq<nat>, ends: seq<nat>)
    requires n < |samples| && Progress(samples, channel, n, s, starts, ends)
    requires s.level == Seen(0) && ValueAt(samples[n], channel) == Seen(1)
    ensures Progress(samples, channel, n + 1, Step(s, samples[n], channel), starts + [n], ends)
  {
    OpensLater(samples, channel, s.windows, starts, ends, n);
    assert (starts + [n])[|starts|] == n;
    hide Closed, ValueAt;
  }

  lemma CloseStep(samples: seq<Sample>, channel: string, n: nat, s: Scan, starts: seq<nat>, ends: seq<nat>)
    requires n < |samples| && Progress(samples, channel, n, s, starts, ends)
    requires s.startS.Some? && ValueAt(samples[n], channel) == Seen(0)
    ensures Progress(samples, channel, n + 1, Step(s, samples[n], channel), starts, ends + [n])
  {
    ClosesNext(samples, channel, s.windows, starts, ends, n);
    hide Closed, ValueAt, NoLow;
  }

  lemma StayStep(samples: seq<Sample>, channel: string, n: nat, s: Scan, starts: seq<nat>, ends: seq<nat>)
    requires n < |samples| && Progress(samples, channel, n, s, starts, ends)
    requires ValueAt(samples[n], channel) in {Missing, Seen(0), Seen(1)}
    requires !(s.level == Seen(0) && ValueAt(samples[n], channel) == Seen(1))
    requires s.startS.Some? ==> ValueAt(samples[n], channel) != Seen(0)
    ensures Progress(samples, channel, n + 1, Step(s, samples[n], channel), starts, ends)
  {
    hide Closed, ValueAt;
  }

  lemma StepIsScanned(samples: seq<Sample>, channel: string, n: nat, s: Scan, starts: seq<nat>, ends: seq<nat>)
    requires 0 < n < |samples| && Binary(samples, channel) && Scanned(samples, channel, n, s, starts, ends)
    ensures var current := ValueAt(samples[n], channel);
      Scanned(samples, channel, n + 1, Step(s, samples[n], channel),
              if s.level == Seen(0) && current == Seen(1) then starts + [n] else starts,
              if current == Seen(0) && s.startS.Some? then ends + [n] else ends)
  {
    KnownNext(samples, channel, n, s.level);
    OpensIff(samples, channel, n, s.level);
    OpensNext(samples, channel, n, starts);
    var current := ValueAt(samples[n], channel);
    assert Step(s, samples[n], channel).level == if current.Seen? then current else s.level;
    assert s.startS.Some? ==> s.level == Seen(1);
    hide AllOpens, Opens, KnownBefore, Step, Progress;
    if s.level == Seen(0) && current == Seen(1) {
      OpenStep(samples, channel, n, s, starts, ends);
    } else if current == Seen(0) && s.startS.Some? {
      CloseStep(samples, channel, n, s, starts, ends);
    } else {
      StayStep(samples, channel, n, s, starts, ends);
    }
    hide ValueAt;
  }

  lemma FirstIsScanned(samples: seq<Sample>, channel: string)
    requires samples != []
    ensures Scanned(samples, channel, 1, ScanOf(samples[..1], channel),
                    if ValueAt(samples[0], channel) == Seen(1) then [0] else [], [])
  {
    assert samples[..1] == [samples[0]];
    assert KnownBefore(samples, channel, 1, ValueAt(samples[0], channel));
  }

  lemma ScanSnoc(samples: seq<Sample>, channel: string, n: nat)
    requires 0 < n < |samples|
    ensures ScanOf(samples[..n + 1], channel) == Step(ScanOf(samples[..n], channel), samples[n], channel)
  {
    assert samples[..n + 1][..n] == samples[..n] && samples[..n + 1][n] == samples[n];
    hide Step, ValueAt;
  }

  lemma {:induction false} ScanIsScanned(samples: seq<Sample>, channel: string, n: nat)
    returns (starts: seq<nat>, ends: seq<nat>)
    requires 0 < n <= |samples| && Binary(samples, channel)
    ensures Scanned(samples, channel, n, ScanOf(samples[..n], channel), starts, ends)
    decreases n
  {
    hide Scanned, Binary, ValueAt, Step, ScanOf;
    if n == 1 {
      FirstIsScanned(samples, channel);
      starts, ends := if ValueAt(samples[0], channel) == Seen(1) then [0] else [], [];
    } else {
      starts, ends := ScanIsScanned(samples, channel, n - 1);
      var s, current := ScanOf(samples[..n - 1], channel), ValueAt(samples[n - 1], channel);
      ScanSnoc(samples, channel, n - 1);
      StepIsScanned(samples, channel, n - 1, s, starts, ends);
      starts, ends := if s.level == Seen(0) && current == Seen(1) then starts + [n - 1] else starts,
                      if current == Seen(0) && s.startS.Some? then ends + [n - 1] else ends;
    }
  }

  lemma LastIsBefore(samples: seq<Sample>, channel: string, n: nat, starts: seq<nat>)
    requires n <= |samples| && AllOpens(samples, channel, n, starts) && starts != []
    ensures starts[|starts| - 1] < n
  {
    hide Opens;
    assert starts[|starts| - 1] in starts;
  }

  /**
   There is one window for every sample at which the gate opens, in order; it runs from there to the first low
   reading behind, or to the end of the capture, and the next window opens later.
   */
  lemma WindowsAreRuns(samples: seq<Sample>, channel: string) returns (starts: seq<nat>, ends: seq<nat>)
    requires samples != [] && Binary(samples, channel)
    ensures var windows := Windows(samples, channel);
      && |starts| == |ends| == |windows| && AllOpens(samples, channel, |samples|, starts)
      && (forall k :: 0 <= k < |windows| ==>
            && ClosedBy(samples, channel, starts[k], ends[k])
            && windows[k] == Window(samples[starts[k]].timeS, samples[ends[k]].timeS))
      && (forall k :: 0 <= k < |windows| - 1 ==>
            ends[k] < starts[k + 1] && ValueAt(samples[ends[k]], channel) == Seen(0))
  {
    starts, ends := ScanIsScanned(samples, channel, |samples|);
    assert samples[..|samples|] == samples;
    var s := ScanOf(samples, channel);
    if s.startS.Some? {
      LastIsBefore(samples, channel, |samples|, starts);
      ends := ends + [|samples| - 1];
    }
    hide AllOpens, ScanOf, KnownBefore, ValueAt;
  }
}
