/**
 What the byte decoder reports, in terms of the eleven levels it reads: each fault its own error, and nothing
 else. A byte hit by noise in one data or parity slot is always flagged.
 */
module UartFaults {
  import opened Crc16
  import opened LaDecoder
  import opened Uart
  import opened UartLine

  /** The level in the middle of a slot: 0 is the start bit, 1 to 8 the data, 9 the parity, 10 the stop bit. */
  function SlotLevel(samples: seq<Sample>, channel: string, startS: real, bitS: real, slot: nat): Level {
    LevelAt(samples, channel, startS + (slot as real + 0.5) * bitS)
  }

  function Slots(samples: seq<Sample>, channel: string, startS: real, bitS: real): (s: seq<Level>)
    ensures |s| == 11
    ensures forall k :: 0 <= k < 11 ==> s[k] == SlotLevel(samples, channel, startS, bitS, k)
  {
    seq(11, k requires 0 <= k < 11 => SlotLevel(samples, channel, startS, bitS, k))
  }

  predicate IsBit(level: Level) { level == Seen(0) || level == Seen(1) }

  /** Is the number of ones odd? */
  predicate OddOnes(levels: seq<Level>) {
    levels != [] && OddOnes(levels[..|levels| - 1]) != (levels[|levels| - 1] == Seen(1))
  }

  /** The slot an error is about. */
  function SlotOfError(e: ByteError): nat {
    match e
    case StartError => 0
    case DataMissing(bit) => bit + 1
    case ParityMissing => 9
    case ParityError => 9
    case StopError => 10
  }

  /** Does the line show this fault? */
  predicate Faulty(s: seq<Level>, e: ByteError)
    requires |s| == 11
  {
    match e
    case StartError => s[0] != Seen(0)
    case DataMissing(bit) => bit < 8 && !IsBit(s[bit + 1])
    case ParityMissing => !IsBit(s[9])
    case ParityError => IsBit(s[9]) && OddOnes(s[1..10])
    case StopError => s[10] != Seen(1)
  }

  /** In the order of their slots, one error a slot. */
  ghost predicate BySlot(errors: seq<ByteError>) {
    forall i, j :: 0 <= i < j < |errors| ==> SlotOfError(errors[i]) < SlotOfError(errors[j])
  }

  lemma SlotTimes(samples: seq<Sample>, channel: string, startS: real, bitS: real)
    ensures var s := Slots(samples, channel, startS, bitS);
      && DataLevels(samples, channel, startS, bitS) == s[1..9]
      && ByteAt(samples, channel, startS, bitS) == Decode(startS, s[0], s[1..9], s[9], s[10])
  {
    hide LevelAt, Decode;
    var s := Slots(samples, channel, startS, bitS);
    forall i | 0 <= i < 8 ensures DataLevels(samples, channel, startS, bitS)[i] == s[1..9][i] {
      assert 1.5 + i as real == (i + 1) as real + 0.5;
      assert s[1..9][i] == s[i + 1] == SlotLevel(samples, channel, startS, bitS, i + 1);
      assert DataTime(startS, bitS, i) == startS + ((i + 1) as real + 0.5) * bitS;
    }
    assert DataLevels(samples, channel, startS, bitS) == s[1..9];
  }

  lemma {:induction false} DataFaults(levels: seq<Level>, n: nat)
    requires n <= |levels|
    ensures forall e :: e in DataErrors(levels, n) <==> e.DataMissing? && e.bit < n && !IsBit(levels[e.bit])
    ensures BySlot(DataErrors(levels, n))
  {
    if n > 0 {
      DataFaults(levels, n - 1);
    }
  }

  lemma {:induction false} OnesAreOdd(levels: seq<Level>, n: nat)
    requires n <= |levels|
    ensures OddOnes(levels[..n]) <==> Ones(levels, n) % 2 == 1
  {
    if n > 0 {
      OnesAreOdd(levels, n - 1);
      assert levels[..n][..n - 1] == levels[..n - 1];
    }
  }

  lemma ParityFaults(s: seq<Level>)
    requires |s| == 11
    ensures forall e :: e in ParityErrors(Ones(s[1..9], 8), s[9]) <==>
      (e.ParityMissing? || e.ParityError?) && Faulty(s, e)
    ensures |ParityErrors(Ones(s[1..9], 8), s[9])| <= 1
  {
    OnesAreOdd(s[1..9], 8);
    assert s[1..9][..8] == s[1..9];
    assert s[1..10][..8] == s[1..9] && s[1..10][8] == s[9];
    hide Ones;
  }

  lemma Ordered(start: seq<ByteError>, data: seq<ByteError>, parity: seq<ByteError>, stop: seq<ByteError>)
    requires |start| <= 1 && |parity| <= 1 && |stop| <= 1 && BySlot(data)
    requires forall e :: e in start ==> e.StartError?
    requires forall e :: e in data ==> e.DataMissing? && e.bit < 8
    requires forall e :: e in parity ==> e.ParityMissing? || e.ParityError?
    requires forall e :: e in stop ==> e.StopError?
    ensures BySlot(start + data + parity + stop)
  {
    Joined(start, data);
    Joined(start + data, parity);
    Joined(start + data + parity, stop);
  }

  lemma Joined(a: seq<ByteError>, b: seq<ByteError>)
    requires BySlot(a) && BySlot(b) && forall e, f :: e in a && f in b ==> SlotOfError(e) < SlotOfError(f)
    ensures BySlot(a + b)
  {
    hide SlotOfError;
  }

  lemma Members(start: seq<ByteError>, data: seq<ByteError>, parity: seq<ByteError>, stop: seq<ByteError>, e: ByteError)
    ensures e in start + data + parity + stop <==> e in start || e in data || e in parity || e in stop
  {}

  lemma DecodeFaults(startS: real, s: seq<Level>)
    requires |s| == 11
    ensures var b := Decode(startS, s[0], s[1..9], s[9], s[10]);
      BySlot(b.errors) && forall e :: e in b.errors <==> Faulty(s, e)
  {
    var start, stop := Unless(s[0] == Seen(0), StartError), Unless(s[10] == Seen(1), StopError);
    var data, parity := DataErrors(s[1..9], 8), ParityErrors(Ones(s[1..9], 8), s[9]);
    DataFaults(s[1..9], 8);
    ParityFaults(s);
    hide DataErrors, ParityErrors, Ones, OddOnes;
    Ordered(start, data, parity, stop);
    forall e ensures e in start + data + parity + stop <==> Faulty(s, e) {
      Members(start, data, parity, stop, e);
    }
  }

  lemma DecodedBits(levels: seq<Level>)
    requires |levels| == 8
    ensures forall k :: 0 <= k < 8 ==> (BitsOf(DataValue(levels, 8))[k] <==> levels[k] == Seen(1))
  {
    var v := ValueOf(levels);
    var clean := Cleaned(levels);
    DataIsValue(clean, v);
    CleanedValue(levels, 8);
  }

  /** The levels with everything but a one taken for a zero. */
  function Cleaned(levels: seq<Level>): (clean: seq<Level>)
    ensures |clean| == |levels|
  {
    seq(|levels|, i requires 0 <= i < |levels| => if levels[i] == Seen(1) then Seen(1) else Seen(0))
  }

  lemma {:induction false} CleanedValue(levels: seq<Level>, n: nat)
    requires n <= |levels|
    ensures DataValue(Cleaned(levels), n) == DataValue(levels, n)
  {
    hide BitMask;
    if n > 0 {
      CleanedValue(levels, n - 1);
    }
  }

  function Weight(level: Level, weight: byte): byte { if level == Seen(1) then weight else 0 }

  /** The byte with these bits. */
  function ValueOf(levels: seq<Level>): (v: byte)
    requires |levels| == 8
    ensures Carry(Cleaned(levels), BitsOf(v))
  {
    WeightBits(levels[0] == Seen(1), levels[1] == Seen(1), levels[2] == Seen(1), levels[3] == Seen(1),
               levels[4] == Seen(1), levels[5] == Seen(1), levels[6] == Seen(1), levels[7] == Seen(1));
    Weight(levels[0], 1) | Weight(levels[1], 2) | Weight(levels[2], 4) | Weight(levels[3], 8)
    | Weight(levels[4], 16) | Weight(levels[5], 32) | Weight(levels[6], 64) | Weight(levels[7], 128)
  }

  lemma WeightBits(a: bool, b: bool, c: bool, d: bool, e: bool, f: bool, g: bool, h: bool)
    ensures BitsOf(Masked(a, 1) | Masked(b, 2) | Masked(c, 4) | Masked(d, 8)
                   | Masked(e, 16) | Masked(f, 32) | Masked(g, 64) | Masked(h, 128)) == [a, b, c, d, e, f, g, h]
  {}

  /**
   A decoded byte has exactly the bits its data slots show, and exactly the errors the line shows, in the order
   of their slots.
   */
  lemma ErrorsAreExact(samples: seq<Sample>, channel: string, startS: real, bitS: real)
    ensures var b, s := ByteAt(samples, channel, startS, bitS), Slots(samples, channel, startS, bitS);
      && b.startS == startS
      && (forall k :: 0 <= k < 8 ==> (BitsOf(b.value)[k] <==> s[k + 1] == Seen(1)))
      && (forall e :: e in b.errors <==> Faulty(s, e)) && BySlot(b.errors)
  {
    SlotTimes(samples, channel, startS, bitS);
    var s := Slots(samples, channel, startS, bitS);
    DecodeFaults(startS, s);
    DecodedBits(s[1..9]);
    hide ByteAt, Slots, Faulty, BitsOf, DataValue, DataErrors, ParityErrors, Ones;
  }

  /** No error exactly for a proper frame: start low, data and parity read, an even number of ones, stop high. */
  lemma CleanIsProper(samples: seq<Sample>, channel: string, startS: real, bitS: real)
    ensures var s := Slots(samples, channel, startS, bitS);
      ByteAt(samples, channel, startS, bitS).errors == [] <==>
        && s[0] == Seen(0) && (forall k :: 1 <= k <= 9 ==> IsBit(s[k])) && !OddOnes(s[1..10]) && s[10] == Seen(1)
  {
    ErrorsAreExact(samples, channel, startS, bitS);
    var b, s := ByteAt(samples, channel, startS, bitS), Slots(samples, channel, startS, bitS);
    hide ByteAt, Slots, OddOnes, BitsOf;
    if b.errors == [] {
      assert !Faulty(s, StartError) && !Faulty(s, ParityMissing) && !Faulty(s, ParityError) && !Faulty(s, StopError);
      forall k | 1 <= k <= 9 ensures IsBit(s[k]) {
        if k < 9 {
          assert !Faulty(s, DataMissing(k - 1));
        }
      }
    } else {
      assert b.errors[0] in b.errors;
      assert Faulty(s, b.errors[0]);
    }
  }

  /** The slots carry a correctly sent byte but for one data or parity slot, which shows the opposite level. */
  ghost predicate Flipped(s: seq<Level>, value: byte, slot: nat) {
    && |s| == 11 && 1 <= slot <= 9
    && forall k :: 0 <= k < 11 ==> s[k] == Seen(if k == slot then 1 - LineBit(value, k) else LineBit(value, k))
  }

  lemma {:induction false} SentOnes(bits: seq<bool>, levels: seq<Level>, slot: nat)
    requires |bits| == |levels|
    requires forall k :: 0 <= k < |bits| ==> levels[k] == Seen(if bits[k] != (k == slot) then 1 else 0)
    ensures OddOnes(levels) <==> (CountOnes(bits) % 2 == 1) != (slot < |bits|)
    decreases |bits|
  {
    if bits != [] {
      var n := |bits| - 1;
      SentOnes(bits[..n], levels[..n], slot);
    }
  }

  /** One flipped data or parity slot of a correctly sent byte is reported as a parity error and nothing else. */
  lemma NoiseIsFlagged(samples: seq<Sample>, channel: string, startS: real, bitS: real, value: byte, slot: nat)
    requires Flipped(Slots(samples, channel, startS, bitS), value, slot)
    ensures ByteAt(samples, channel, startS, bitS).errors == [ParityError]
  {
    ErrorsAreExact(samples, channel, startS, bitS);
    var b, s := ByteAt(samples, channel, startS, bitS), Slots(samples, channel, startS, bitS);
    hide ByteAt, Slots;
    FlippedIsOdd(s, value, slot);
    hide BitsOf, CountOnes, OddOnes;
    assert Faulty(s, ParityError) && ParityError in b.errors;
    OnlyOne(b.errors, s);
  }

  lemma FlippedIsOdd(s: seq<Level>, value: byte, slot: nat)
    requires Flipped(s, value, slot)
    ensures OddOnes(s[1..10])
  {
    var bits := BitsOf(value);
    assert s[1..10][..8] == s[1..9] && s[1..10][8] == s[9];
    hide BitsOf, CountOnes;
    SentOnes(bits, s[1..9], slot - 1);
    hide OddOnes;
    assert OddOnes(s[1..10]) <==> OddOnes(s[1..10][..8]) != (s[9] == Seen(1)) by {
      LastOne(s[1..10]);
    }
  }

  lemma LastOne(levels: seq<Level>)
    requires levels != []
    ensures OddOnes(levels) <==> OddOnes(levels[..|levels| - 1]) != (levels[|levels| - 1] == Seen(1))
  {}

  lemma OnlyOne(errors: seq<ByteError>, s: seq<Level>)
    requires |s| == 11 && BySlot(errors) && (forall e :: e in errors ==> Faulty(s, e)) && ParityError in errors
    requires s[0] == Seen(0) && s[10] == Seen(1) && forall k :: 1 <= k <= 9 ==> IsBit(s[k])
    ensures errors == [ParityError]
  {
    hide OddOnes;
    assert |errors| > 1 ==> SlotOfError(errors[0]) < SlotOfError(errors[1]);
    forall i | 0 <= i < |errors| ensures errors[i].ParityError? {
      assert errors[i] in errors;
    }
  }

  // ---------------------------------------------------------------- which edges start a byte

  predicate Falls(e: Edge) { e.before == 1 && e.after == 0 }

  /** A byte begun at one of these starts is still on at `t`: it lasts eleven bit times, less a quarter for jitter. */
  ghost predicate Busy(starts: seq<real>, t: real, bitS: real) {
    exists j :: 0 <= j < |starts| && starts[j] <= t < starts[j] + 10.75 * bitS
  }

  predicate Reached(limit: Limit, t: real) { limit.Unlimited? || t <= limit.endS }

  ghost predicate FallsAt(edges: seq<Edge>, t: real) {
    exists i :: 0 <= i < |edges| && Falls(edges[i]) && edges[i].timeS == t
  }

  ghost predicate AllFall(starts: seq<real>, edges: seq<Edge>, cursorS: real, limit: Limit) {
    forall j :: 0 <= j < |starts| ==> cursorS <= starts[j] && Reached(limit, starts[j]) && FallsAt(edges, starts[j])
  }

  predicate Apart(starts: seq<real>, bitS: real) {
    forall j :: 0 <= j < |starts| - 1 ==> starts[j] + 10.75 * bitS <= starts[j + 1]
  }

  ghost predicate AllBusy(starts: seq<real>, edges: seq<Edge>, cursorS: real, limit: Limit, bitS: real) {
    forall i :: 0 <= i < |edges| && Falls(edges[i]) && cursorS <= edges[i].timeS && Reached(limit, edges[i].timeS) ==>
      Busy(starts, edges[i].timeS, bitS)
  }

  /**
   A byte starts exactly at a falling edge behind the cursor and within the limit at which no byte is on: the starts
   are such edges, a byte apart, and at every other one a byte is on.
   */
  lemma {:induction false} StartsAreExact(edges: seq<Edge>, cursorS: real, limit: Limit, bitS: real)
    requires InOrder(edges) && 0.0 < bitS
    ensures var starts := StartEdges(edges, cursorS, limit, bitS);
      AllFall(starts, edges, cursorS, limit) && Apart(starts, bitS) && AllBusy(starts, edges, cursorS, limit, bitS)
    decreases |edges|
  {
    if edges != [] && !(edges[0].timeS >= cursorS && !Reached(limit, edges[0].timeS)) {
      var takes := edges[0].timeS >= cursorS && Falls(edges[0]);
      var next := if takes then NextCursor(edges[0].timeS, bitS) else cursorS;
      var rest := StartEdges(edges[1..], next, limit, bitS);
      StartsAreExact(edges[1..], next, limit, bitS);
      FallLater(rest, edges, next, limit);
      if takes {
        FirstFalls(edges, rest, cursorS, limit, bitS);
        FirstApart(edges[0].timeS, rest, edges, limit, bitS);
        FirstBusy(edges, rest, cursorS, limit, bitS);
      } else {
        StillBusy(edges, rest, cursorS, limit, bitS);
      }
      hide AllFall, Apart, AllBusy, InOrder;
    }
  }

  lemma FallLater(starts: seq<real>, edges: seq<Edge>, cursorS: real, limit: Limit)
    requires edges != [] && AllFall(starts, edges[1..], cursorS, limit)
    ensures AllFall(starts, edges, cursorS, limit)
  {
    forall j | 0 <= j < |starts| ensures FallsAt(edges, starts[j]) {
      var i :| 0 <= i < |edges[1..]| && Falls(edges[1..][i]) && edges[1..][i].timeS == starts[j];
      assert Falls(edges[i + 1]) && edges[i + 1].timeS == starts[j];
    }
  }

  lemma FirstFalls(edges: seq<Edge>, rest: seq<real>, cursorS: real, limit: Limit, bitS: real)
    requires edges != [] && 0.0 < bitS
    requires Falls(edges[0]) && cursorS <= edges[0].timeS && Reached(limit, edges[0].timeS)
    requires AllFall(rest, edges, NextCursor(edges[0].timeS, bitS), limit)
    ensures AllFall([edges[0].timeS] + rest, edges, cursorS, limit)
  {
    assert FallsAt(edges, edges[0].timeS);
    hide FallsAt;
  }

  lemma FirstApart(first: real, rest: seq<real>, edges: seq<Edge>, limit: Limit, bitS: real)
    requires AllFall(rest, edges, NextCursor(first, bitS), limit) && Apart(rest, bitS)
    ensures Apart([first] + rest, bitS)
  {
    hide FallsAt;
  }

  lemma StillBusy(edges: seq<Edge>, rest: seq<real>, cursorS: real, limit: Limit, bitS: real)
    requires edges != [] && !(cursorS <= edges[0].timeS && Falls(edges[0]))
    requires AllBusy(rest, edges[1..], cursorS, limit, bitS)
    ensures AllBusy(rest, edges, cursorS, limit, bitS)
  {
    hide Busy;
    assert forall i :: 0 < i < |edges| ==> edges[i] == edges[1..][i - 1];
  }

  lemma FirstBusy(edges: seq<Edge>, rest: seq<real>, cursorS: real, limit: Limit, bitS: real)
    requires edges != [] && InOrder(edges) && 0.0 < bitS
    requires AllBusy(rest, edges[1..], NextCursor(edges[0].timeS, bitS), limit, bitS)
    ensures AllBusy([edges[0].timeS] + rest, edges, cursorS, limit, bitS)
  {
    var starts := [edges[0].timeS] + rest;
    forall i | 0 <= i < |edges| && Falls(edges[i]) && cursorS <= edges[i].timeS && Reached(limit, edges[i].timeS)
      ensures Busy(starts, edges[i].timeS, bitS)
    {
      assert edges[0].timeS <= edges[i].timeS && starts[0] == edges[0].timeS;
      if edges[i].timeS >= starts[0] + 10.75 * bitS {
        assert edges[i] == edges[1..][i - 1];
        BusyLater(edges[0].timeS, rest, edges[i].timeS, bitS);
      }
    }
  }

  lemma BusyLater(first: real, rest: seq<real>, t: real, bitS: real)
    requires Busy(rest, t, bitS)
    ensures Busy([first] + rest, t, bitS)
  {
    var j :| 0 <= j < |rest| && rest[j] <= t < rest[j] + 10.75 * bitS;
    assert ([first] + rest)[j + 1] == rest[j];
  }
}
