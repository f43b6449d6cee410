/**
 The continuity verdict: per mailbox sample a few fields are updated, and the verdict they give is shown
 to be a property of the whole sample history. Clock readings are milliseconds modulo 2^32.
 */
module Continuity {
  import opened Options
  import opened Words

  const BUS_ONLINE_TIMEOUT_US: nat := 1_000_000
  const MAX_DE_HIGH_US: nat := 9000
  const GOOD_CLEAR_MS: nat := 3000
  const PENDING_REPLY_GRACE_MS: nat := 20

  // ---------------------------------------------------------------- missed polls

  function RawMissedPolls(seen: nat, answered: nat): nat {
    if seen >= answered then seen - answered else 0
  }

  predicate PendingReply(seen: nat, answered: nat, lastPollAgeMs: nat) {
    RawMissedPolls(seen, answered) == 1 && lastPollAgeMs <= PENDING_REPLY_GRACE_MS
  }

  /** A poll whose reply may still come is not missed: zero exactly if none is owed, or one in grace. */
  function EffectiveMissedPolls(seen: nat, answered: nat, lastPollAgeMs: nat): (r: nat)
    ensures r == 0 <==> answered >= seen || (seen == answered + 1 && lastPollAgeMs <= PENDING_REPLY_GRACE_MS)
    ensures r <= RawMissedPolls(seen, answered)
  {
    if PendingReply(seen, answered, lastPollAgeMs) then 0 else RawMissedPolls(seen, answered)
  }

  // ---------------------------------------------------------------- samples

  /** Counters that must not move, and the longest time the bus driver was held. */
  datatype Diagnostics = Diagnostics(
    healthFlags: nat, txAbort: nat, collision: nat, loopOverruns: nat, rxStarvations: nat,
    stuckDe: nat, mailboxRepairs: nat, maxDeHold: nat)

  /** One reading of the mailbox; `time` is the true time in milliseconds since power-on. */
  datatype Sample = Sample(
    time: nat, usesMailbox: bool, validBroadcast: bool, heartbeat: nat,
    seen: nat, answered: nat, lpTimeUs: nat, lastPollUs: nat, diagnostics: Diagnostics)

  /** What the millisecond counter shows. */
  function Clock(s: Sample): nat { s.time % UINT32 }

  function LastPollAgeUs(s: Sample): nat {
    if s.lastPollUs == 0 then 0 else Minus32(s.lpTimeUs, s.lastPollUs)
  }

  predicate BusOnline(s: Sample) {
    s.lastPollUs != 0 && Signed32(Minus32(LastPollAgeUs(s), BUS_ONLINE_TIMEOUT_US)) <= 0
  }

  predicate BaseOk(s: Sample) {
    var age := LastPollAgeUs(s) / 1000;
    && s.usesMailbox && s.seen > 0 && s.heartbeat > 0 && BusOnline(s) && s.validBroadcast
    && EffectiveMissedPolls(s.seen, s.answered, age) == 0
    && (s.answered >= s.seen || PendingReply(s.seen, s.answered, age))
  }

  predicate Sticky(d: Diagnostics) {
    || d.healthFlags != 0 || d.txAbort != 0 || d.collision != 0 || d.loopOverruns != 0 || d.rxStarvations != 0
    || d.stuckDe != 0 || d.mailboxRepairs != 0 || (d.maxDeHold > 0 && d.maxDeHold > MAX_DE_HIGH_US)
  }

  /** Something moved that should not have, or the driver was held too long for longer than before. */
  predicate Moved(before: Sample, s: Sample) {
    var p, d := before.diagnostics, s.diagnostics;
    || s.seen < before.seen || s.answered < before.answered
    || d.healthFlags != p.healthFlags || d.txAbort != p.txAbort || d.collision != p.collision
    || d.loopOverruns != p.loopOverruns || d.rxStarvations != p.rxStarvations
    || d.stuckDe != p.stuckDe || d.mailboxRepairs != p.mailboxRepairs
    || (d.maxDeHold > p.maxDeHold && d.maxDeHold > MAX_DE_HIGH_US)
  }

  // ---------------------------------------------------------------- the fields

  datatype Health = Health(online: bool, healthy: bool, warning: bool, goodSince: nat, goodMs: nat)

  function Judge(h: Health, previous: Option<Sample>, s: Sample): Health {
    var moved := previous.None? || Moved(previous.value, s);
    var good := BaseOk(s) && !moved;
    var since := if !good then 0 else if h.goodSince == 0 then Clock(s) else h.goodSince;
    var ms := if good then Minus32(Clock(s), since) else 0;
    var healthy := BaseOk(s) && (!Sticky(s.diagnostics) || ms >= GOOD_CLEAR_MS);
    Health(BusOnline(s), healthy, healthy && Sticky(s.diagnostics), since, ms)
  }

  class Monitor {
    var busOnline: bool
    var healthy: bool
    var diagnosticWarning: bool
    var goodSinceMs: nat
    var goodMs: nat
    var sampleSeen: bool
    var prevSeen: nat
    var prevAnswered: nat
    var prev: Diagnostics

    ghost function State(): Health
      reads this
    {
      Health(busOnline, healthy, diagnosticWarning, goodSinceMs, goodMs)
    }

    /** The fields remember `previous`. */
    ghost predicate Remembers(previous: Option<Sample>)
      reads this
    {
      && sampleSeen == previous.Some?
      && (sampleSeen ==>
            prevSeen == previous.value.seen && prevAnswered == previous.value.answered
            && prev == previous.value.diagnostics)
    }

    constructor ()
      ensures State() == Health(false, false, false, 0, 0) && Remembers(None)
    {
      busOnline, healthy, diagnosticWarning := false, false, false;
      goodSinceMs, goodMs, sampleSeen := 0, 0, false;
      prevSeen, prevAnswered, prev := 0, 0, Diagnostics(0, 0, 0, 0, 0, 0, 0, 0);
    }

    /** Compares the sample with the remembered one. */
    method DiagnosticsChanged(s: Sample, ghost previous: Option<Sample>) returns (moved: bool)
      requires Remembers(previous)
      ensures moved == (previous.None? || Moved(previous.value, s))
    {
      var d := s.diagnostics;
      moved := !sampleSeen || s.seen < prevSeen || s.answered < prevAnswered
        || d.healthFlags != prev.healthFlags || d.txAbort != prev.txAbort || d.collision != prev.collision
        || d.loopOverruns != prev.loopOverruns || d.rxStarvations != prev.rxStarvations
        || d.stuckDe != prev.stuckDe || d.mailboxRepairs != prev.mailboxRepairs
        || (d.maxDeHold > prev.maxDeHold && d.maxDeHold > MAX_DE_HIGH_US);
    }

    /** The span goes on with a good sample and ends with any other. */
    method TrackSpan(good: bool, clock: nat)
      modifies this`goodSinceMs, this`goodMs
      ensures goodSinceMs == if !good then 0 else if old(goodSinceMs) == 0 then clock else old(goodSinceMs)
      ensures goodMs == if good then Minus32(clock, goodSinceMs) else 0
    {
      if good {
        if goodSinceMs == 0 {
          goodSinceMs := clock;
        }
        goodMs := Minus32(clock, goodSinceMs);
      } else {
        goodSinceMs := 0;
        goodMs := 0;
      }
    }

    method Update(s: Sample, ghost previous: Option<Sample>) returns (changed: bool)
      requires Remembers(previous)
      modifies this
      ensures Remembers(Some(s))
      ensures State() == Judge(old(State()), previous, s)
      ensures changed <==> busOnline != old(busOnline) || healthy != old(healthy)
    {
      hide BusOnline, EffectiveMissedPolls, PendingReply, Sticky, Clock, LastPollAgeUs, Minus32, Moved;
      changed := false;
      var online := BusOnline(s);
      if busOnline != online {
        busOnline := online;
        changed := true;
      }
      var age := LastPollAgeUs(s) / 1000;
      var pending := PendingReply(s.seen, s.answered, age);
      var missed := EffectiveMissedPolls(s.seen, s.answered, age);
      var baseOk := s.usesMailbox && s.seen > 0 && s.heartbeat > 0 && busOnline && s.validBroadcast
        && missed == 0 && (s.answered >= s.seen || pending);
      var moved := DiagnosticsChanged(s, previous);
      assert baseOk == BaseOk(s);
      hide BaseOk;
      TrackSpan(baseOk && !moved, Clock(s));
      var clear := !Sticky(s.diagnostics) || goodMs >= GOOD_CLEAR_MS;
      var verdict := baseOk && clear;
      if healthy != verdict {
        healthy := verdict;
        changed := true;
      }
      diagnosticWarning := verdict && Sticky(s.diagnostics);
      sampleSeen := true;
      prevSeen, prevAnswered, prev := s.seen, s.answered, s.diagnostics;
    }
  }

  // ---------------------------------------------------------------- the history

  /** Sample `i` passes the base checks and moved nothing since sample `i - 1`; the first never counts. */
  predicate Good(history: seq<Sample>, i: nat)
    requires i < |history|
  {
    i > 0 && BaseOk(history[i]) && !Moved(history[i - 1], history[i])
  }

  function Previous(history: seq<Sample>): Option<Sample> {
    if history == [] then None else Some(history[|history| - 1])
  }

  function After(history: seq<Sample>): Health
    decreases |history|
  {
    if history == [] then Health(false, false, false, 0, 0)
    else
      var before := history[..|history| - 1];
      Judge(After(before), Previous(before), history[|history| - 1])
  }

  /** `from` starts the longest suffix of good samples (empty if the last one is not good). */
  predicate GoodFrom(history: seq<Sample>, from: nat) {
    && from <= |history|
    && (forall i :: from <= i < |history| ==> Good(history, i))
    && (from > 0 ==> !Good(history, from - 1))
  }

  /** The span is measured from the first of those samples whose clock reading is not zero. */
  predicate Anchor(history: seq<Sample>, from: nat, anchor: nat) {
    && from <= anchor <= |history|
    && (forall i :: from <= i < anchor ==> Clock(history[i]) == 0)
    && (anchor < |history| ==> Clock(history[anchor]) != 0)
  }

  lemma GoodSnoc(history: seq<Sample>, s: Sample)
    ensures forall i :: 0 <= i < |history| ==> Good(history + [s], i) == Good(history, i)
  {
    hide BaseOk, Moved;
  }

  /** The two fields of the span, for any history. */
  lemma {:induction false} SpanIsHistory(history: seq<Sample>) returns (from: nat, anchor: nat)
    ensures GoodFrom(history, from) && Anchor(history, from, anchor)
    ensures After(history).goodSince == if anchor < |history| then Clock(history[anchor]) else 0
    ensures After(history).goodMs
         == if anchor < |history| then Minus32(Clock(history[|history| - 1]), Clock(history[anchor])) else 0
    decreases |history|
  {
    if history == [] {
      from, anchor := 0, 0;
    } else {
      var n := |history| - 1;
      var before := history[..n];
      assert history == before + [history[n]];
      GoodSnoc(before, history[n]);
      hide BaseOk, Moved;
      from, anchor := SpanIsHistory(before);
      if !Good(history, n) {
        from, anchor := n + 1, n + 1;
      } else if anchor == n && Clock(history[n]) == 0 {
        anchor := n + 1;
      }
    }
  }

  lemma ClocksDiffer(a: nat, b: nat)
    ensures Minus32(a % UINT32, b % UINT32) == Minus32(a, b)
  {
    ModSplits(a);
    ModSplits(b);
    Turns(a % UINT32 - b % UINT32, a / UINT32 - b / UINT32);
  }

  lemma ModSplits(a: nat)
    ensures a == a / UINT32 * UINT32 + a % UINT32
  {}

  /** After any history the verdict is exact: the last sample's checks, and the span behind it. */
  lemma HealthIsHistory(history: seq<Sample>) returns (from: nat, anchor: nat)
    requires history != []
    ensures GoodFrom(history, from) && Anchor(history, from, anchor)
    ensures var last := history[|history| - 1];
      After(history).healthy <==>
        BaseOk(last) && (!Sticky(last.diagnostics)
                         || (anchor < |history| && Minus32(last.time, history[anchor].time) >= GOOD_CLEAR_MS))
  {
    from, anchor := SpanIsHistory(history);
    var last := history[|history| - 1];
    if anchor < |history| {
      ClocksDiffer(last.time, history[anchor].time);
    }
    hide Minus32, BaseOk, Sticky, Moved, GoodFrom, Anchor;
    JudgedBySpan(history);
  }

  /** The verdict in terms of the span field. */
  lemma JudgedBySpan(history: seq<Sample>)
    requires history != []
    ensures var last := history[|history| - 1];
      After(history).healthy <==> BaseOk(last) && (!Sticky(last.diagnostics) || After(history).goodMs >= GOOD_CLEAR_MS)
  {
    hide BaseOk, Sticky, Moved, Minus32;
  }

  lemma GoodFromUnique(history: seq<Sample>, a: nat, b: nat)
    requires GoodFrom(history, a) && GoodFrom(history, b)
    ensures a == b
  {
    hide Good;
  }

  /** The samples are in time order. */
  ghost predicate Ordered(history: seq<Sample>) {
    forall i, j :: 0 <= i < j < |history| ==> history[i].time <= history[j].time
  }

  /** The time from sample `i` to the last one; zero if there is no sample `i`. */
  function SpanFrom(history: seq<Sample>, i: nat): (span: int)
    requires history != []
  {
    if i < |history| then history[|history| - 1].time - history[i].time else 0
  }

  lemma SpansAreOrdered(history: seq<Sample>, from: nat, anchor: nat)
    requires history != [] && Ordered(history) && from <= anchor
    ensures 0 <= SpanFrom(history, anchor) <= SpanFrom(history, from)
  {}

  /** The promise: healthy exactly if nothing sticky is present or the good samples span three seconds. */
  predicate Promised(history: seq<Sample>, from: nat)
    requires history != []
  {
    var last := history[|history| - 1];
    BaseOk(last) && (!Sticky(last.diagnostics) || (from < |history| && SpanFrom(history, from) >= GOOD_CLEAR_MS))
  }

  /** `healthy` follows the anchor's span on the clock, the promise follows the whole span. */
  lemma Balance(healthy: bool, base: bool, sticky: bool, good: bool, anchored: bool, span: nat, seen: nat)
    requires healthy <==> base && (!sticky || (anchored && seen % UINT32 >= GOOD_CLEAR_MS))
    requires seen <= span && (anchored ==> good)
    ensures (healthy <==> base && (!sticky || (good && span >= GOOD_CLEAR_MS)))
       <==> !(base && sticky && good && span >= GOOD_CLEAR_MS && (!anchored || seen % UINT32 < GOOD_CLEAR_MS))
  {}

  /**
   For every history in time order: the promise is kept except when the good samples do span three seconds
   but the clock does not show it, because the span has wrapped round to less than that, or because the time
   before the first non-zero clock reading makes the difference.
   */
  lemma PromiseIsExact(history: seq<Sample>, from: nat, anchor: nat)
    requires history != [] && Ordered(history) && GoodFrom(history, from) && Anchor(history, from, anchor)
    ensures var last := history[|history| - 1];
      (After(history).healthy <==> Promised(history, from)) <==>
        !(&& BaseOk(last) && Sticky(last.diagnostics) && from < |history| && SpanFrom(history, from) >= GOOD_CLEAR_MS
          && (anchor == |history| || SpanFrom(history, anchor) % UINT32 < GOOD_CLEAR_MS))
  {
    hide BaseOk, Sticky, Moved, After, Good, Clock;
    var f, a := HealthIsHistory(history);
    GoodFromUnique(history, f, from);
    AnchorUnique(history, from, a, anchor);
    SpansAreOrdered(history, from, anchor);
    hide GoodFrom, Anchor, Ordered;
    var last := history[|history| - 1];
    Balance(After(history).healthy, BaseOk(last), Sticky(last.diagnostics), from < |history|, anchor < |history|,
            SpanFrom(history, from), SpanFrom(history, anchor));
  }

  lemma AnchorUnique(history: seq<Sample>, from: nat, a: nat, b: nat)
    requires from <= |history| && Anchor(history, from, a) && Anchor(history, from, b)
    ensures a == b
  {
    hide Clock;
  }

  /**
   Within one turn of the clock: healthy exactly if nothing is sticky or the good samples, from the first whose
   clock reading is not zero, span three seconds. Unless a sample fell on reading zero that is the promise.
   */
  lemma HealthIsSpan(history: seq<Sample>, from: nat, anchor: nat)
    requires history != [] && Ordered(history) && GoodFrom(history, from) && Anchor(history, from, anchor)
    requires SpanFrom(history, from) < UINT32
    ensures var last := history[|history| - 1];
      After(history).healthy <==>
        BaseOk(last) && (!Sticky(last.diagnostics)
                         || (anchor < |history| && SpanFrom(history, anchor) >= GOOD_CLEAR_MS))
    ensures (from < |history| ==> Clock(history[from]) != 0) ==>
      anchor == from && (After(history).healthy <==> Promised(history, from))
  {
    hide BaseOk, Sticky, Moved, After, Good, Clock;
    var f, a := HealthIsHistory(history);
    GoodFromUnique(history, f, from);
    AnchorUnique(history, from, a, anchor);
    SpansAreOrdered(history, from, anchor);
    AnchorIsStart(history, from, anchor);
    hide GoodFrom, Anchor, Ordered;
    SmallSpan(SpanFrom(history, anchor));
  }

  lemma SmallSpan(span: nat)
    requires span < UINT32
    ensures span % UINT32 == span
  {}

  lemma AnchorIsStart(history: seq<Sample>, from: nat, anchor: nat)
    requires from <= |history| && Anchor(history, from, anchor)
    ensures (from < |history| ==> Clock(history[from]) != 0) ==> anchor == from
  {
    hide Clock;
  }

  /** A healthy bus with an old, unchanging diagnostic. */
  function Steady(time: nat): Sample {
    Sample(time, true, true, 1, 1, 1, 1, 1, Diagnostics(1, 0, 0, 0, 0, 0, 0, 0))
  }

  lemma SteadyIsGood(history: seq<Sample>)
    requires |history| == 3 && forall i :: 0 <= i < 3 ==> history[i] == Steady(history[i].time)
    ensures GoodFrom(history, 1)
    ensures BaseOk(history[2]) && Sticky(history[2].diagnostics)
  {
    var a, b, c := history[0], history[1], history[2];
    assert BaseOk(a) && BaseOk(b) && BaseOk(c);
    assert !Moved(a, b) && !Moved(b, c);
  }

  /** Seen concretely: good for 2^32 ms, yet reported unhealthy. */
  lemma WrapLosesHealth()
    ensures var history := [Steady(1), Steady(2), Steady(2 + UINT32)];
      GoodFrom(history, 1) && Promised(history, 1) && !After(history).healthy
  {
    var history := [Steady(1), Steady(2), Steady(2 + UINT32)];
    SteadyIsGood(history);
    assert Anchor(history, 1, 1);
    PromiseIsExact(history, 1, 1);
    hide After, GoodFrom, Anchor, BaseOk, Sticky;
  }

  /** Seen concretely: a good span of three seconds that begins on clock reading zero is not seen in full. */
  lemma ZeroReadingLosesTime()
    ensures var history := [Steady(UINT32 - 1), Steady(UINT32), Steady(UINT32 + 3000)];
      GoodFrom(history, 1) && Promised(history, 1) && !After(history).healthy
  {
    var history := [Steady(UINT32 - 1), Steady(UINT32), Steady(UINT32 + 3000)];
    SteadyIsGood(history);
    assert Anchor(history, 1, 2);
    PromiseIsExact(history, 1, 2);
    hide After, GoodFrom, Anchor, BaseOk, Sticky;
  }

  // ---------------------------------------------------------------- the checks, in numbers

  /** Polls owed, except for one whose reply is no more than 20 ms late. */
  lemma MissedIsOwed(seen: nat, answered: nat, ageMs: nat)
    ensures EffectiveMissedPolls(seen, answered, ageMs)
         == if answered >= seen || (seen - answered == 1 && ageMs <= 20) then 0 else seen - answered
  {}

  /** Microseconds since the last poll, as far as the 32-bit counters show it. */
  function AgeUs(s: Sample): nat { (s.lpTimeUs - s.lastPollUs) % 0x1_0000_0000 }

  lemma OnlineInNumbers(s: Sample)
    requires s.lpTimeUs < UINT32 && s.lastPollUs < UINT32
    ensures BusOnline(s) <==> s.lastPollUs != 0 && (AgeUs(s) <= 1_000_000 || AgeUs(s) >= 0x8000_0000 + 1_000_000)
  {}

  /** A sample taken at true time `now` whose last poll came at true time `polled`, both in microseconds. */
  predicate PolledAt(s: Sample, now: nat, polled: nat) {
    polled <= now && s.lpTimeUs == now % UINT32 && s.lastPollUs == polled % UINT32
  }

  lemma AgeIsTrue(s: Sample, now: nat, polled: nat)
    requires PolledAt(s, now, polled)
    ensures AgeUs(s) == (now - polled) % UINT32
  {
    var a, b := now / UINT32, polled / UINT32;
    assert now == a * UINT32 + s.lpTimeUs && polled == b * UINT32 + s.lastPollUs;
    Turns(s.lpTimeUs - s.lastPollUs, a - b);
  }

  /**
   The bus counts as online for a second after a poll, except for a poll on a counter reading of zero, and for
   silences so long that the 32-bit difference reads as less than a second or as negative.
   */
  lemma OnlineIsExact(s: Sample, now: nat, polled: nat)
    requires PolledAt(s, now, polled)
    ensures var silence := now - polled;
      (BusOnline(s) <==> silence <= 1_000_000) <==>
        !(if silence <= 1_000_000 then s.lastPollUs == 0
          else s.lastPollUs != 0
               && (silence % UINT32 <= 1_000_000 || silence % UINT32 >= 0x8000_0000 + 1_000_000))
  {
    AgeIsTrue(s, now, polled);
    OnlineInNumbers(s);
    hide BusOnline, AgeUs;
  }

  /** Seen concretely: a bus that has been silent for 36 minutes is online. */
  lemma SilenceLooksOnline(s: Sample)
    requires PolledAt(s, 1 + 36 * 60 * 1_000_000, 1)
    ensures BusOnline(s)
  {
    OnlineIsExact(s, 1 + 36 * 60 * 1_000_000, 1);
    hide BusOnline;
  }

  /** The base checks: a live mailbox and broadcast, a bus online, and no poll owed but one within 20 ms. */
  lemma BaseInNumbers(s: Sample)
    requires s.lpTimeUs < UINT32 && 0 < s.lastPollUs < UINT32
    ensures BaseOk(s) <==>
      && s.usesMailbox && s.validBroadcast && s.seen >= 1 && s.heartbeat >= 1
      && (AgeUs(s) <= 1_000_000 || AgeUs(s) >= 0x8000_0000 + 1_000_000)
      && (s.answered >= s.seen || (s.answered + 1 == s.seen && AgeUs(s) < 21_000))
  {
    OnlineInNumbers(s);
    hide BusOnline;
  }

  /** All seven counters are zero, and the driver was never held for more than 9000 microseconds. */
  lemma StickyInNumbers(d: Diagnostics)
    ensures !Sticky(d) <==> d.(maxDeHold := 0) == Diagnostics(0, 0, 0, 0, 0, 0, 0, 0) && d.maxDeHold <= 9000
  {}

  /** Nothing moved: no poll count fell, all seven counters stayed, no longer hold beyond 9000 microseconds. */
  lemma MovedInNumbers(before: Sample, s: Sample)
    ensures var p, d := before.diagnostics, s.diagnostics;
      !Moved(before, s) <==>
        && before.seen <= s.seen && before.answered <= s.answered && p.(maxDeHold := 0) == d.(maxDeHold := 0)
        && (d.maxDeHold <= 9000 || d.maxDeHold <= p.maxDeHold)
  {}

  /** The other two fields: the bus is online as the last sample says; a warning is health despite diagnostics. */
  lemma OtherFields(history: seq<Sample>)
    requires history != []
    ensures var last, h := history[|history| - 1], After(history);
      h.online == BusOnline(last) && h.warning == (h.healthy && Sticky(last.diagnostics))
  {
    hide BaseOk, Moved, Sticky, BusOnline;
  }
}
