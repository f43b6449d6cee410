/**
 What an 8E1 transmitter puts on the line, and the proof that the decoder reads it back: for any
 sampling instants close enough together, any phase, and a transmitter clock that may be off.
 */
module UartLine {
  import opened Crc16
  import opened Sequences
  import opened Uart

  datatype Sent = Sent(startS: real, value: byte)

  function CountOnes(bits: seq<bool>): nat {
    if bits == [] then 0 else CountOnes(bits[..|bits| - 1]) + (if bits[|bits| - 1] then 1 else 0)
  }

  /** Start bit, eight data bits least significant first, even parity, stop bit. */
  function LineBit(value: byte, slot: nat): (bit: int)
    ensures bit == 0 || bit == 1
  {
    if slot == 0 then 0
    else if slot <= 8 then (if BitsOf(value)[slot - 1] then 1 else 0)
    else if slot == 9 then CountOnes(BitsOf(value)) % 2
    else 1
  }

  /** The bit slot that a time `d` after the start of a frame falls in. */
  function SlotOf(bitS: real, d: real): nat {
    if d < bitS then 0
    else if d < 2.0 * bitS then 1
    else if d < 3.0 * bitS then 2
    else if d < 4.0 * bitS then 3
    else if d < 5.0 * bitS then 4
    else if d < 6.0 * bitS then 5
    else if d < 7.0 * bitS then 6
    else if d < 8.0 * bitS then 7
    else if d < 9.0 * bitS then 8
    else if d < 10.0 * bitS then 9
    else 10
  }

  /** The line level at time `t`: idle high outside frames. */
  function LineLevel(frames: seq<Sent>, bitS: real, t: real): int {
    if frames == [] then 1
    else if frames[0].startS <= t < frames[0].startS + 11.0 * bitS then
      LineBit(frames[0].value, SlotOf(bitS, t - frames[0].startS))
    else LineLevel(frames[1..], bitS, t)
  }

  /** Frames do not overlap; they may be back to back. */
  ghost predicate Spaced(frames: seq<Sent>, bitS: real) {
    forall i, j :: 0 <= i < j < |frames| ==> frames[i].startS + 11.0 * bitS <= frames[j].startS
  }

  /** A capture of the line: it starts idle, is sampled at least every `gapS`, and covers every frame. */
  ghost predicate Captures(samples: seq<Sample>, channel: string, frames: seq<Sent>, bitS: real, gapS: real) {
    && samples != []
    && Sorted(samples)
    && (forall k :: 0 < k < |samples| ==> samples[k].timeS - samples[k - 1].timeS <= gapS)
    && (forall k :: 0 <= k < |samples| ==>
          ValueAt(samples[k], channel) == Seen(LineLevel(frames, bitS, samples[k].timeS)))
    && (forall i :: 0 <= i < |frames| ==>
          samples[0].timeS < frames[i].startS
          && frames[i].startS + 11.0 * bitS <= samples[|samples| - 1].timeS)
  }

  /**
   The decoder's clock `bitS` against the line's `lineS`: reads of the first and last slot stay in
   their slots, and the cursor after a byte is not past the earliest next start bit.
   */
  predicate TimingOk(lineS: real, bitS: real, gapS: real) {
    && 0.0 < lineS && 0.0 < bitS && 0.0 < gapS
    && gapS <= 0.5 * bitS
    && 0.5 * bitS + gapS <= lineS
    && 10.0 * lineS + gapS <= 10.5 * bitS
    && (11.0 - 0.25) * bitS + gapS <= 11.0 * lineS
  }

  /** Eight samples per bit leave room for one percent of clock mismatch either way. */
  lemma EightSamplesPerBit(lineS: real, bitS: real, gapS: real)
    requires 0.0 < bitS && 0.0 < gapS
    requires 8.0 * gapS <= bitS
    requires 0.99 * bitS <= lineS <= 1.01 * bitS
    ensures TimingOk(lineS, bitS, gapS)
  {}

  // ---------------------------------------------------------------- the line

  lemma {:induction false} LevelInFrame(frames: seq<Sent>, bitS: real, i: nat, t: real)
    requires 0.0 < bitS && Spaced(frames, bitS)
    requires i < |frames| && frames[i].startS <= t < frames[i].startS + 11.0 * bitS
    ensures LineLevel(frames, bitS, t) == LineBit(frames[i].value, SlotOf(bitS, t - frames[i].startS))
  {
    if i > 0 {
      LevelInFrame(frames[1..], bitS, i - 1, t);
    }
  }

  lemma {:induction false} HighOutsideFrames(frames: seq<Sent>, bitS: real, t: real)
    requires 0.0 < bitS
    requires forall i :: 0 <= i < |frames| ==> t < frames[i].startS || frames[i].startS + 10.0 * bitS <= t
    ensures LineLevel(frames, bitS, t) == 1
  {
    if frames != [] && !(frames[0].startS <= t < frames[0].startS + 11.0 * bitS) {
      HighOutsideFrames(frames[1..], bitS, t);
    }
  }

  // ---------------------------------------------------------------- start edges

  /** Frames before `i` are over by the cursor, frames from `i` to `m` are still to come within the limit. */
  ghost predicate Ahead(frames: seq<Sent>, lineS: real, gapS: real, cursorS: real, limit: Limit, i: nat, m: nat)
  {
    && i <= m <= |frames|
    && (forall j :: 0 <= j < i ==> frames[j].startS + 10.0 * lineS <= cursorS)
    && (forall j :: i <= j < m ==> cursorS <= frames[j].startS)
    && (limit.Until? ==> forall j :: i <= j < m ==> frames[j].startS + gapS <= limit.endS)
    && (limit.Until? ==> forall j :: m <= j < |frames| ==> limit.endS < frames[j].startS)
    && (limit.Unlimited? ==> m == |frames|)
  }

  /** The start edges found: one per frame, in order, each within one sampling gap of the true start. */
  ghost predicate Found(starts: seq<real>, frames: seq<Sent>, gapS: real, i: nat, m: nat)
    requires i <= m <= |frames|
  {
    && |starts| == m - i
    && forall j :: 0 <= j < m - i ==> frames[i + j].startS <= starts[j] < frames[i + j].startS + gapS
  }

  lemma {:induction false} NothingBeyond(last: Level, rest: seq<Sample>, channel: string,
                                         cursorS: real, endS: real, bitS: real)
    requires forall k :: 0 <= k < |rest| ==> rest[k].timeS > endS
    ensures StartEdges(EdgesFrom(last, rest, channel), cursorS, Until(endS), bitS) == []
    decreases |rest|
  {
    if rest != [] {
      var v := ValueAt(rest[0], channel);
      NothingBeyond(if v.Seen? then v else last, rest[1..], channel, cursorS, endS, bitS);
      if v.Seen? {
        var later := EdgesFrom(v, rest[1..], channel);
        assert [] + later == later;
        if last.Seen? && v != last {
          assert ([Edge(rest[0].timeS, last.value, v.value)] + later)[1..] == later;
        }
      }
    }
  }

  /** One sample of the scan: what the edge list contributes at sample `k`. */
  lemma ScanStep(samples: seq<Sample>, channel: string, k: nat, cursorS: real, limit: Limit, bitS: real,
                 before: int, now: int)
    requires 0 < k < |samples|
    requires ValueAt(samples[k - 1], channel) == Seen(before) && ValueAt(samples[k], channel) == Seen(now)
    ensures var t := samples[k].timeS;
      var later := EdgesFrom(Seen(now), samples[k + 1..], channel);
      StartEdges(EdgesFrom(Seen(before), samples[k..], channel), cursorS, limit, bitS)
      == if now == before || t < cursorS then StartEdges(later, cursorS, limit, bitS)
         else if limit.Until? && t > limit.endS then []
         else if before == 1 && now == 0 then [t] + StartEdges(later, NextCursor(t, bitS), limit, bitS)
         else StartEdges(later, cursorS, limit, bitS)
  {
    var later := EdgesFrom(Seen(now), samples[k + 1..], channel);
    assert samples[k..][1..] == samples[k + 1..] && samples[k..][0] == samples[k];
    if now == before {
      assert [] + later == later;
    } else {
      assert ([Edge(samples[k].timeS, before, now)] + later)[1..] == later;
    }
  }

  /** The first sample at or after a start bit is low, the one before it is high. */
  lemma StartIsSeen(samples: seq<Sample>, channel: string, frames: seq<Sent>, lineS: real, gapS: real, k: nat, i: nat)
    requires 0.0 < lineS && gapS <= lineS
    requires Captures(samples, channel, frames, lineS, gapS) && Spaced(frames, lineS)
    requires 0 < k < |samples| && i < |frames|
    requires samples[k - 1].timeS < frames[i].startS <= samples[k].timeS
    ensures samples[k].timeS < frames[i].startS + gapS
    ensures ValueAt(samples[k - 1], channel) == Seen(1) && ValueAt(samples[k], channel) == Seen(0)
  {
    var t, before := samples[k].timeS, samples[k - 1].timeS;
    assert t - before <= gapS;
    LevelInFrame(frames, lineS, i, t);
    forall j | 0 <= j < |frames|
      ensures before < frames[j].startS || frames[j].startS + 10.0 * lineS <= before
    {
      if j < i {
        assert frames[j].startS + 11.0 * lineS <= frames[i].startS;
      } else if i < j {
        assert frames[i].startS + 11.0 * lineS <= frames[j].startS;
      }
    }
    HighOutsideFrames(frames, lineS, before);
  }

  /** Between start bits a low sample belongs to a frame already passed. */
  lemma LowIsPast(samples: seq<Sample>, channel: string, frames: seq<Sent>, lineS: real, gapS: real,
                  k: nat, cursorS: real, i: nat)
    requires 0.0 < lineS
    requires Captures(samples, channel, frames, lineS, gapS)
    requires k < |samples| && i <= |frames|
    requires forall j :: i <= j < |frames| ==> samples[k].timeS < frames[j].startS
    requires forall j :: 0 <= j < i ==> frames[j].startS + 10.0 * lineS <= cursorS
    ensures ValueAt(samples[k], channel) == Seen(1) || samples[k].timeS < cursorS
  {
    if samples[k].timeS >= cursorS {
      HighOutsideFrames(frames, lineS, samples[k].timeS);
    }
  }

  /** From any point of the capture, the scan finds exactly the start bits ahead within the limit. */
  lemma {:induction false} StartsFound(samples: seq<Sample>, channel: string, frames: seq<Sent>,
                                       lineS: real, bitS: real, gapS: real,
                                       k: nat, cursorS: real, limit: Limit, i: nat, m: nat)
    requires TimingOk(lineS, bitS, gapS)
    requires Captures(samples, channel, frames, lineS, gapS) && Spaced(frames, lineS)
    requires 0 < k <= |samples|
    requires Ahead(frames, lineS, gapS, cursorS, limit, i, m)
    requires forall j :: i <= j < |frames| ==> samples[k - 1].timeS < frames[j].startS
    ensures Found(StartEdges(EdgesFrom(ValueAt(samples[k - 1], channel), samples[k..], channel), cursorS, limit, bitS),
                  frames, gapS, i, m)
    decreases |samples| - k
  {
    if k == |samples| {
      assert samples[k..] == [];
      FramesAreCovered(samples, channel, frames, lineS, gapS, i);
    } else {
      assert gapS <= lineS && i <= m <= |frames| && (limit.Unlimited? ==> m == |frames|);
      var t := samples[k].timeS;
      var before, now := ValueAt(samples[k - 1], channel).value, ValueAt(samples[k], channel).value;
      hide TimingOk, Found, EdgesFrom, StartEdges, LineLevel, ValueAt;
      ScanStep(samples, channel, k, cursorS, limit, bitS, before, now);
      if i < |frames| && frames[i].startS <= t {
        if i < m {
          StartIsSeen(samples, channel, frames, lineS, gapS, k, i);
          NextAhead(frames, lineS, bitS, gapS, cursorS, t, limit, i, m);
          StartsFound(samples, channel, frames, lineS, bitS, gapS, k + 1, NextCursor(t, bitS), limit, i + 1, m);
          FoundCons(t, StartEdges(EdgesFrom(Seen(now), samples[k + 1..], channel), NextCursor(t, bitS), limit, bitS),
                    frames, gapS, i, m);
        } else {
          BeyondLimit(samples, channel, k, Seen(before), cursorS, limit.endS, bitS);
          FoundNone(frames, gapS, i);
        }
      } else {
        StillAhead(frames, lineS, t, i);
        LowIsPast(samples, channel, frames, lineS, gapS, k, cursorS, i);
        StartsFound(samples, channel, frames, lineS, bitS, gapS, k + 1, cursorS, limit, i, m);
        if i == m { FoundNone(frames, gapS, i); }
      }
    }
  }

  lemma FramesAreCovered(samples: seq<Sample>, channel: string, frames: seq<Sent>, lineS: real, gapS: real, i: nat)
    requires 0.0 < lineS
    requires Captures(samples, channel, frames, lineS, gapS)
    ensures i < |frames| ==> frames[i].startS <= samples[|samples| - 1].timeS
  {}

  lemma BeyondLimit(samples: seq<Sample>, channel: string, k: nat, last: Level, cursorS: real, endS: real, bitS: real)
    requires k < |samples| && Sorted(samples) && samples[k].timeS > endS
    ensures StartEdges(EdgesFrom(last, samples[k..], channel), cursorS, Until(endS), bitS) == []
  {
    assert forall n :: 0 <= n < |samples[k..]| ==> samples[k..][n] == samples[k + n];
    assert forall n :: k <= n < |samples| ==> samples[k].timeS <= samples[n].timeS;
    NothingBeyond(last, samples[k..], channel, cursorS, endS, bitS);
  }

  lemma FoundNone(frames: seq<Sent>, gapS: real, i: nat)
    requires i <= |frames|
    ensures Found([], frames, gapS, i, i)
  {}

  lemma StillAhead(frames: seq<Sent>, lineS: real, t: real, i: nat)
    requires 0.0 < lineS && Spaced(frames, lineS)
    requires i < |frames| ==> t < frames[i].startS
    ensures forall j :: i <= j < |frames| ==> t < frames[j].startS
  {
    forall j | i <= j < |frames| ensures t < frames[j].startS {
      if i < j { assert frames[i].startS + 11.0 * lineS <= frames[j].startS; }
    }
  }

  lemma NextAhead(frames: seq<Sent>, lineS: real, bitS: real, gapS: real,
                  cursorS: real, t: real, limit: Limit, i: nat, m: nat)
    requires TimingOk(lineS, bitS, gapS) && Spaced(frames, lineS)
    requires Ahead(frames, lineS, gapS, cursorS, limit, i, m) && i < m
    requires frames[i].startS <= t < frames[i].startS + gapS
    ensures Ahead(frames, lineS, gapS, NextCursor(t, bitS), limit, i + 1, m)
    ensures forall j :: i < j < |frames| ==> t < frames[j].startS
  {
    assert forall j :: 0 <= j < i ==> frames[j].startS + 11.0 * lineS <= frames[i].startS;
    assert forall j :: i < j < |frames| ==> frames[i].startS + 11.0 * lineS <= frames[j].startS;
  }

  lemma FoundCons(t: real, rest: seq<real>, frames: seq<Sent>, gapS: real, i: nat, m: nat)
    requires i < m <= |frames|
    requires frames[i].startS <= t < frames[i].startS + gapS
    requires Found(rest, frames, gapS, i + 1, m)
    ensures Found([t] + rest, frames, gapS, i, m)
  {
    var starts := [t] + rest;
    forall j | 0 <= j < m - i ensures frames[i + j].startS <= starts[j] < frames[i + j].startS + gapS {
      if j > 0 { assert starts[j] == rest[j - 1] && i + j == (i + 1) + (j - 1); }
    }
  }

  // ---------------------------------------------------------------- bytes

  /** A read lands on a sample less than one gap before it. */
  lemma ReadNear(samples: seq<Sample>, channel: string, frames: seq<Sent>, lineS: real, gapS: real, r: real)
    returns (t: real)
    requires Captures(samples, channel, frames, lineS, gapS)
    requires samples[0].timeS <= r < samples[|samples| - 1].timeS
    ensures r - gapS < t <= r
    ensures LevelAt(samples, channel, r) == Seen(LineLevel(frames, lineS, t))
  {
    var n := BisectRight(samples, r);
    LaterIgnored(samples, channel, r, n);
    assert 0 < n < |samples|;
    t := samples[n - 1].timeS;
    assert samples[n].timeS - t <= gapS;
    assert samples[..n][n - 1] == samples[n - 1];
  }

  /** The same read, placed within the frame: it lands between `lo` and `hi` after the frame's start. */
  lemma ReadWithin(samples: seq<Sample>, channel: string, frames: seq<Sent>, lineS: real, gapS: real,
                   i: nat, e: real, offset: real, lo: real, hi: real) returns (t: real)
    requires 0.0 < lineS && Captures(samples, channel, frames, lineS, gapS) && Spaced(frames, lineS)
    requires i < |frames| && frames[i].startS <= e < frames[i].startS + gapS
    requires 0.0 <= lo <= offset - gapS && offset + gapS <= hi <= 11.0 * lineS
    ensures lo <= t - frames[i].startS < hi
    ensures LevelAt(samples, channel, e + offset)
         == Seen(LineBit(frames[i].value, SlotOf(lineS, t - frames[i].startS)))
  {
    var s := frames[i].startS;
    assert samples[0].timeS < s && s + 11.0 * lineS <= samples[|samples| - 1].timeS;
    hide LineBit, LineLevel, LevelAt, SlotOf, Sorted, ValueAt, Captures;
    t := ReadNear(samples, channel, frames, lineS, gapS, e + offset);
    LevelInFrame(frames, lineS, i, t);
  }

  /** Reading slot `slot` half a bit after its nominal start yields the bit sent in it. */
  lemma SlotRead(samples: seq<Sample>, channel: string, frames: seq<Sent>, lineS: real, bitS: real, gapS: real,
                 i: nat, e: real, slot: nat, offset: real)
    requires TimingOk(lineS, bitS, gapS)
    requires Captures(samples, channel, frames, lineS, gapS) && Spaced(frames, lineS)
    requires i < |frames| && frames[i].startS <= e < frames[i].startS + gapS
    requires slot <= 10 && offset == (slot as real + 0.5) * bitS
    ensures LevelAt(samples, channel, e + offset) == Seen(LineBit(frames[i].value, slot))
  {
    var lo, hi := SlotCentre(lineS, bitS, gapS, slot, offset);
    hide LineBit, LevelAt, SlotOf, Captures, Spaced;
    var t := ReadWithin(samples, channel, frames, lineS, gapS, i, e, offset, lo, hi);
    assert SlotOf(lineS, t - frames[i].startS) == slot;
  }

  /** The slot's extent, with room for one gap on either side of the nominal read. */
  lemma SlotCentre(lineS: real, bitS: real, gapS: real, slot: nat, offset: real) returns (lo: real, hi: real)
    requires TimingOk(lineS, bitS, gapS)
    requires slot <= 10 && offset == (slot as real + 0.5) * bitS
    ensures 0.0 <= lo <= offset - gapS && offset + gapS <= hi <= 11.0 * lineS
    ensures forall d :: lo <= d < hi ==> SlotOf(lineS, d) == slot
  {
    lo, hi := slot as real * lineS, (slot + 1) as real * lineS;
    assert slot == 0 || slot == 1 || slot == 2 || slot == 3 || slot == 4 || slot == 5
        || slot == 6 || slot == 7 || slot == 8 || slot == 9 || slot == 10;
  }

  // ---------------------------------------------------------------- decoding

  function Masked(bit: bool, mask: byte): byte { if bit then mask else 0 }

  function Or(a: byte, b: byte): byte { a | b }

  lemma MaskBits(v: byte, b: seq<bool>)
    requires b == BitsOf(v)
    ensures Or(Or(Or(Or(Or(Or(Or(Or(0, Masked(b[0], 1)), Masked(b[1], 2)), Masked(b[2], 4)), Masked(b[3], 8)),
                     Masked(b[4], 16)), Masked(b[5], 32)), Masked(b[6], 64)), Masked(b[7], 128)) == v
  {}

  /** The levels of clean data slots. */
  ghost predicate Carry(levels: seq<Level>, bits: seq<bool>) {
    && |levels| == |bits|
    && forall i :: 0 <= i < |bits| ==> levels[i] == Seen(if bits[i] then 1 else 0)
  }

  lemma {:induction false} CleanData(levels: seq<Level>, bits: seq<bool>, n: nat)
    requires Carry(levels, bits) && n <= |bits|
    ensures DataErrors(levels, n) == []
    ensures Ones(levels, n) == CountOnes(bits[..n])
  {
    if n > 0 {
      CleanData(levels, bits, n - 1);
      assert bits[..n][..n - 1] == bits[..n - 1];
    }
  }

  lemma DataStep(levels: seq<Level>, bits: seq<bool>, n: nat, before: byte)
    requires Carry(levels, bits) && n < |bits|
    requires DataValue(levels, n) == before
    ensures DataValue(levels, n + 1) == Or(before, Masked(bits[n], BitMask(n)))
  {}

  lemma DataIsValue(levels: seq<Level>, v: byte)
    requires Carry(levels, BitsOf(v))
    ensures DataValue(levels, 8) == v
  {
    hide Masked, BitMask, Or, DataValue, BitsOf;
    var bits := BitsOf(v);
    MaskBits(v, bits);
    Masks();
    EmptyData(levels);
    DataStep(levels, bits, 0, DataValue(levels, 0));
    DataStep(levels, bits, 1, DataValue(levels, 1));
    DataStep(levels, bits, 2, DataValue(levels, 2));
    DataStep(levels, bits, 3, DataValue(levels, 3));
    DataStep(levels, bits, 4, DataValue(levels, 4));
    DataStep(levels, bits, 5, DataValue(levels, 5));
    DataStep(levels, bits, 6, DataValue(levels, 6));
    DataStep(levels, bits, 7, DataValue(levels, 7));
  }

  lemma EmptyData(levels: seq<Level>)
    ensures DataValue(levels, 0) == 0
  {}

  lemma Masks()
    ensures BitMask(0) == 1 && BitMask(1) == 2 && BitMask(2) == 4 && BitMask(3) == 8
    ensures BitMask(4) == 16 && BitMask(5) == 32 && BitMask(6) == 64 && BitMask(7) == 128
  {
    assert BitMask(3) == 8;
    assert BitMask(5) == 32;
  }

  /** A start edge seen within one gap of the true start decodes to the byte sent, without errors. */
  lemma ByteRead(samples: seq<Sample>, channel: string, frames: seq<Sent>, lineS: real, bitS: real, gapS: real,
                 i: nat, e: real)
    requires TimingOk(lineS, bitS, gapS)
    requires Captures(samples, channel, frames, lineS, gapS) && Spaced(frames, lineS)
    requires i < |frames| && frames[i].startS <= e < frames[i].startS + gapS
    ensures ByteAt(samples, channel, e, bitS) == DecodedByte(e, frames[i].value, [])
  {
    var v := frames[i].value;
    var levels := DataLevels(samples, channel, e, bitS);
    SlotRead(samples, channel, frames, lineS, bitS, gapS, i, e, 0, 0.5 * bitS);
    SlotRead(samples, channel, frames, lineS, bitS, gapS, i, e, 9, 9.5 * bitS);
    SlotRead(samples, channel, frames, lineS, bitS, gapS, i, e, 10, 10.5 * bitS);
    assert Carry(levels, BitsOf(v)) by {
      forall n | 0 <= n < 8 ensures levels[n] == Seen(if BitsOf(v)[n] then 1 else 0) {
        DataRead(samples, channel, frames, lineS, bitS, gapS, i, e, n);
      }
    }
    assert BitsOf(v)[..8] == BitsOf(v);
    hide LevelAt, Captures, CountOnes, BitsOf, TimingOk, Spaced;
    CleanData(levels, BitsOf(v), 8);
    DataIsValue(levels, v);
    CleanDecode(e, levels, BitsOf(v), v);
  }

  lemma CleanDecode(e: real, levels: seq<Level>, bits: seq<bool>, v: byte)
    requires |levels| == 8
    requires DataErrors(levels, 8) == [] && DataValue(levels, 8) == v && Ones(levels, 8) == CountOnes(bits)
    ensures Decode(e, Seen(0), levels, Seen(CountOnes(bits) % 2), Seen(1)) == DecodedByte(e, v, [])
  {
    hide DataErrors, DataValue, Ones, CountOnes;
    var none: seq<ByteError> := [];
    assert none + none + none + none == none;
    assert (CountOnes(bits) + CountOnes(bits) % 2) % 2 == 0;
  }

  lemma DataRead(samples: seq<Sample>, channel: string, frames: seq<Sent>, lineS: real, bitS: real, gapS: real,
                 i: nat, e: real, n: nat)
    requires TimingOk(lineS, bitS, gapS)
    requires Captures(samples, channel, frames, lineS, gapS) && Spaced(frames, lineS)
    requires i < |frames| && frames[i].startS <= e < frames[i].startS + gapS
    requires n < 8
    ensures LevelAt(samples, channel, DataTime(e, bitS, n)) == Seen(if BitsOf(frames[i].value)[n] then 1 else 0)
  {
    var offset := (1.5 + n as real) * bitS;
    assert 1.5 + n as real == (n + 1) as real + 0.5;
    SlotRead(samples, channel, frames, lineS, bitS, gapS, i, e, n + 1, offset);
  }

  /** The bytes decoded at the start edges found are the frames sent, in order and clean. */
  lemma AllBytesRead(samples: seq<Sample>, channel: string, frames: seq<Sent>, lineS: real, bitS: real, gapS: real,
                     cursorS: real, limit: Limit, i: nat, m: nat) returns (starts: seq<real>)
    requires TimingOk(lineS, bitS, gapS)
    requires Captures(samples, channel, frames, lineS, gapS) && Spaced(frames, lineS)
    requires Ahead(frames, lineS, gapS, cursorS, limit, i, m)
    ensures starts == StartEdges(Edges(samples, channel), cursorS, limit, bitS)
    ensures Found(starts, frames, gapS, i, m)
    ensures forall j :: 0 <= j < m - i ==>
      BytesAt(samples, channel, starts, bitS)[j] == DecodedByte(starts[j], frames[i + j].value, [])
  {
    starts := StartEdges(Edges(samples, channel), cursorS, limit, bitS);
    StartsFound(samples, channel, frames, lineS, bitS, gapS, 1, cursorS, limit, i, m);
    forall j | 0 <= j < m - i
      ensures ByteAt(samples, channel, starts[j], bitS) == DecodedByte(starts[j], frames[i + j].value, [])
    {
      ByteRead(samples, channel, frames, lineS, bitS, gapS, i + j, starts[j]);
    }
  }

  // ---------------------------------------------------------------- samples without a reading

  /** The samples that have a reading of the channel. */
  function Known(samples: seq<Sample>, channel: string): seq<Sample> {
    if samples == [] then []
    else (if ValueAt(samples[0], channel).Seen? then [samples[0]] else []) + Known(samples[1..], channel)
  }

  lemma {:induction false} KnownSnoc(samples: seq<Sample>, e: Sample, channel: string)
    ensures Known(samples + [e], channel)
         == Known(samples, channel) + (if ValueAt(e, channel).Seen? then [e] else [])
  {
    hide ValueAt;
    if samples == [] {
      assert ([e])[1..] == [] && [] + [e] == [e];
    } else {
      KnownSnoc(samples[1..], e, channel);
      assert (samples + [e])[1..] == samples[1..] + [e];
      Assoc(if ValueAt(samples[0], channel).Seen? then [samples[0]] else [], Known(samples[1..], channel),
            if ValueAt(e, channel).Seen? then [e] else []);
    }
  }

  lemma {:induction false} EdgesOfKnown(last: Level, samples: seq<Sample>, channel: string)
    ensures EdgesFrom(last, samples, channel) == EdgesFrom(last, Known(samples, channel), channel)
    decreases |samples|
  {
    if samples != [] {
      var v := ValueAt(samples[0], channel);
      EdgesOfKnown(if v.Seen? then v else last, samples[1..], channel);
      if v.Seen? {
        assert ([samples[0]] + Known(samples[1..], channel))[1..] == Known(samples[1..], channel);
      } else {
        assert [] + Known(samples[1..], channel) == Known(samples[1..], channel);
      }
    }
  }

  lemma EdgesFromStart(samples: seq<Sample>, channel: string)
    requires samples != []
    ensures Edges(samples, channel) == EdgesFrom(Missing, samples, channel)
  {
    assert [] + EdgesFrom(ValueAt(samples[0], channel), samples[1..], channel)
        == EdgesFrom(ValueAt(samples[0], channel), samples[1..], channel);
  }

  lemma {:induction false} LevelOfKnown(samples: seq<Sample>, channel: string, t: real)
    ensures LevelAt(samples, channel, t) == LevelAt(Known(samples, channel), channel, t)
    decreases |samples|
  {
    if samples != [] {
      var before, e := samples[..|samples| - 1], samples[|samples| - 1];
      assert samples == before + [e];
      KnownSnoc(before, e, channel);
      LevelOfKnown(before, channel, t);
      var known := Known(before, channel);
      assert (known + [e])[..|known|] == known && known + [] == known;
    }
  }

  lemma ByteOfKnown(samples: seq<Sample>, channel: string, startS: real, bitS: real)
    ensures ByteAt(samples, channel, startS, bitS) == ByteAt(Known(samples, channel), channel, startS, bitS)
  {
    hide LevelAt, Known;
    forall t ensures LevelAt(samples, channel, t) == LevelAt(Known(samples, channel), channel, t) {
      LevelOfKnown(samples, channel, t);
    }
    assert DataLevels(samples, channel, startS, bitS) == DataLevels(Known(samples, channel), channel, startS, bitS);
  }

  lemma {:induction false} KnownHasChannel(samples: seq<Sample>, channel: string)
    ensures HasChannel(samples, channel) <==> Known(samples, channel) != []
  {
    if samples != [] {
      KnownHasChannel(samples[1..], channel);
      assert forall i :: 0 <= i < |samples| - 1 ==> samples[1..][i] == samples[i + 1];
      assert HasChannel(samples, channel) <==> ValueAt(samples[0], channel).Seen? || HasChannel(samples[1..], channel);
    }
  }

  lemma {:induction false} FirstKnown(samples: seq<Sample>, channel: string)
    requires Sorted(samples) && Known(samples, channel) != []
    ensures samples[0].timeS <= Known(samples, channel)[0].timeS
  {
    if ValueAt(samples[0], channel).Missing? {
      FirstKnown(samples[1..], channel);
    }
  }

  /**
   Every frame ahead of the cursor within the limit is read as its byte, in order, without errors; samples
   without a reading of the channel may lie anywhere between those that have one.
   */
  lemma BytesRead(samples: seq<Sample>, channel: string, frames: seq<Sent>, lineS: real, bitS: real, gapS: real,
                  cursorS: real, limit: Limit, i: nat, m: nat) returns (starts: seq<real>)
    requires TimingOk(lineS, bitS, gapS) && samples != []
    requires Captures(Known(samples, channel), channel, frames, lineS, gapS) && Spaced(frames, lineS)
    requires Ahead(frames, lineS, gapS, cursorS, limit, i, m)
    ensures starts == StartEdges(Edges(samples, channel), cursorS, limit, bitS)
    ensures Found(starts, frames, gapS, i, m)
    ensures forall j :: 0 <= j < m - i ==>
      BytesAt(samples, channel, starts, bitS)[j] == DecodedByte(starts[j], frames[i + j].value, [])
  {
    var known := Known(samples, channel);
    assert known != [];
    EdgesFromStart(samples, channel);
    EdgesFromStart(known, channel);
    EdgesOfKnown(Missing, samples, channel);
    hide Captures, Spaced, TimingOk, Ahead, Known, Edges, EdgesFrom, StartEdges, ByteAt;
    starts := AllBytesRead(known, channel, frames, lineS, bitS, gapS, cursorS, limit, i, m);
    forall j | 0 <= j < m - i
      ensures ByteAt(samples, channel, starts[j], bitS) == DecodedByte(starts[j], frames[i + j].value, [])
    {
      ByteOfKnown(samples, channel, starts[j], bitS);
    }
  }
}
