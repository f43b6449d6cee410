/**
 DMA receive buffers shared by an interrupt callback and a task: four buffers, busy flags, a round-robin
 index and an event queue. The task is broken into micro-steps between which the hardware may write a
 byte or the callback may run; every interleaving is covered.

 Two assumptions stand for the driver: each armed buffer gets one callback, and arming succeeds exactly
 when nothing is armed.
 */
module UhciRx {
  import opened Options
  import opened Words

  const BUFFERS: nat := 4
  const SIZE: nat := 64
  const DEPTH: nat := 6

  /** A filled buffer handed to the task; `framing` marks a truncated transfer. */
  datatype Event = Event(index: nat, len: nat, framing: bool)

  /** The buffer the hardware writes, and how many bytes have arrived for it. */
  datatype Armed = Armed(index: nat, count: nat)

  /** Why the task is arming a buffer. */
  datatype Purpose = Initial | Rearm(event: Event, valid: bool) | Retry

  /** Where the task is between two micro-steps. */
  datatype Pc =
    | Boot
    | Idle
    | Got(event: Event)
    | Scan(purpose: Purpose, tries: nat)
    | Claim(purpose: Purpose, candidate: nat)
    | Receive(purpose: Purpose, candidate: nat)
    | Parse(event: Event, i: nat, rearmed: bool)
    | Release(event: Event, rearmed: bool)

  datatype Item = Item(value: bv8, framing: bool)

  /**
   `incoming` records the bytes that arrived for the armed buffer, `received` those of all completed
   transfers, each cut to what a buffer holds, and `parsed` what the engine was given.
   */
  datatype Rx = Rx(
    busy: seq<bool>, next: nat, bufs: seq<seq<bv8>>,
    armed: Option<Armed>, queue: seq<Event>, pc: Pc,
    starved: nat, incoming: seq<bv8>, received: seq<Item>, parsed: seq<Item>)

  predicate Shaped(s: Rx) {
    && |s.busy| == BUFFERS && |s.bufs| == BUFFERS && s.next < UINT32
    && (forall i :: 0 <= i < BUFFERS ==> |s.bufs[i]| == SIZE)
    && (s.armed.Some? ==> s.armed.value.index < BUFFERS)
  }

  function Items(data: seq<bv8>, framing: bool): (r: seq<Item>)
    ensures |r| == |data|
  {
    seq(|data|, i requires 0 <= i < |data| => Item(data[i], framing))
  }

  // ---------------------------------------------------------------- steps

  /** A byte arrives on the line and is written to the armed buffer while there is room. */
  function Arrive(s: Rx, value: bv8): Rx
    requires Shaped(s) && s.armed.Some?
  {
    var a := s.armed.value;
    s.(armed := Some(a.(count := a.count + 1)),
       incoming := s.incoming + [value],
       bufs := if a.count < SIZE then s.bufs[a.index := s.bufs[a.index][a.count := value]] else s.bufs)
  }

  /** The bytes of a transfer that fit a buffer; a longer one is cut and marked. */
  function Arrived(bytes: seq<bv8>): seq<Item> {
    Items(if |bytes| > SIZE then bytes[..SIZE] else bytes, |bytes| > SIZE)
  }

  function EventOf(a: Armed): Event {
    Event(a.index, if a.count > SIZE then SIZE else a.count, a.count > SIZE)
  }

  /** The callback: the transfer is complete, its event goes to the task. */
  function Complete(s: Rx): Rx
    requires Shaped(s) && s.armed.Some?
  {
    var event := EventOf(s.armed.value);
    var done := s.(armed := None, incoming := [], received := s.received + Arrived(s.incoming));
    if |s.queue| < DEPTH then done.(queue := s.queue + [event])
    else done.(busy := s.busy[event.index := false], starved := s.starved + 1)
  }

  /** A failed attempt is counted at once only for the very first arming. */
  function Failed(s: Rx, purpose: Purpose): Rx {
    s.(starved := if purpose.Initial? then s.starved + 1 else s.starved)
  }

  /** What the task does once an attempt to arm is over. */
  function AfterArming(s: Rx, purpose: Purpose, rearmed: bool): Rx {
    match purpose
    case Initial => s.(pc := Idle)
    case Rearm(event, valid) =>
      if valid then s.(pc := Parse(event, 0, rearmed)) else s.(pc := Idle, starved := s.starved + 1)
    case Retry => s.(pc := Idle, starved := if rearmed then s.starved else s.starved + 1)
  }

  /** Each failed attempt counts once, but for one behind a good event, which is tried again and counted then. */
  lemma FailureCountsOnce(s: Rx, purpose: Purpose)
    ensures AfterArming(Failed(s, purpose), purpose, false).starved
         == s.starved + (if purpose.Rearm? && purpose.valid then 0 else 1)
    ensures AfterArming(s, purpose, true).starved == s.starved + (if purpose.Rearm? && !purpose.valid then 1 else 0)
  {}

  /** One micro-step of the task. */
  function Task(s: Rx): Rx
    requires Shaped(s)
  {
    match s.pc
    case Boot => s.(pc := Scan(Initial, 0))
    case Idle => if s.queue == [] then s else s.(queue := s.queue[1..], pc := Got(s.queue[0]))
    case Got(event) =>
      s.(pc := Scan(Rearm(event, event.index < BUFFERS && s.busy[event.index]), 0))
    case Scan(purpose, tries) =>
      if tries >= BUFFERS then AfterArming(Failed(s, purpose), purpose, false)
      else
        var candidate := s.next % BUFFERS;
        s.(next := (s.next + 1) % UINT32,
           pc := if s.busy[candidate] then Scan(purpose, tries + 1) else Claim(purpose, candidate))
    case Claim(purpose, candidate) =>
      if candidate >= BUFFERS then s
      else s.(busy := s.busy[candidate := true], pc := Receive(purpose, candidate))
    case Receive(purpose, candidate) =>
      if candidate >= BUFFERS then s
      else if s.armed.None? then AfterArming(s.(armed := Some(Armed(candidate, 0))), purpose, true)
      else AfterArming(Failed(s.(busy := s.busy[candidate := false]), purpose), purpose, false)
    case Parse(event, i, rearmed) =>
      if i < event.len && event.index < BUFFERS && i < SIZE then
        s.(parsed := s.parsed + [Item(s.bufs[event.index][i], event.framing)], pc := Parse(event, i + 1, rearmed))
      else s.(pc := Release(event, rearmed))
    case Release(event, rearmed) =>
      if event.index >= BUFFERS then s
      else s.(busy := s.busy[event.index := false], pc := if rearmed then Idle else Scan(Retry, 0))
  }

  datatype Step = TaskStep | ByteStep(value: bv8) | CallbackStep

  predicate Enabled(s: Rx, step: Step) {
    step.TaskStep? || s.armed.Some?
  }

  function Next(s: Rx, step: Step): Rx
    requires Shaped(s) && Enabled(s, step)
  {
    match step
    case TaskStep => Task(s)
    case ByteStep(value) => Arrive(s, value)
    case CallbackStep => Complete(s)
  }

  // ---------------------------------------------------------------- the invariant

  /** The buffer the task is working on: from taking the event to releasing it. */
  function InHand(pc: Pc): Option<Event> {
    match pc
    case Got(event) => Some(event)
    case Scan(purpose, _) => if purpose.Rearm? then Some(purpose.event) else None
    case Claim(purpose, _) => if purpose.Rearm? then Some(purpose.event) else None
    case Receive(purpose, _) => if purpose.Rearm? then Some(purpose.event) else None
    case Parse(event, _, _) => Some(event)
    case Release(event, _) => Some(event)
    case _ => None
  }

  predicate Arming(pc: Pc) {
    pc.Boot? || pc.Got? || pc.Scan? || pc.Claim? || pc.Receive?
  }

  /** Buffer `i` is owned by the hardware, a queued event, the event in hand, or a claim under way. */
  predicate Owned(s: Rx, i: nat) {
    || (s.armed.Some? && s.armed.value.index == i)
    || (s.queue != [] && s.queue[0].index == i)
    || (InHand(s.pc).Some? && InHand(s.pc).value.index == i)
    || (s.pc.Receive? && s.pc.candidate == i)
  }

  predicate EventOk(e: Event) { e.index < BUFFERS && e.len <= SIZE }

  /** While the task arms, the hardware is idle and nothing waits; otherwise exactly one of the two holds. */
  predicate OneInFlight(s: Rx) {
    if Arming(s.pc) then s.armed.None? && s.queue == []
    else if s.armed.Some? then s.queue == [] else |s.queue| == 1
  }

  predicate TaskOk(s: Rx)
    requires Shaped(s)
  {
    match s.pc
    case Scan(Initial, tries) => tries == 0
    case Scan(Rearm(event, valid), tries) =>
      valid && (tries == 0 || (tries == 1 && s.next % BUFFERS != event.index))
    case Claim(Initial, c) => c < BUFFERS
    case Claim(Rearm(event, valid), c) => valid && c < BUFFERS && c != event.index
    case Receive(Initial, c) => c < BUFFERS
    case Receive(Rearm(event, valid), c) => valid && c < BUFFERS && c != event.index
    case Scan(Retry, _) => false
    case Claim(Retry, _) => false
    case Receive(Retry, _) => false
    case Parse(event, i, rearmed) => rearmed && i <= event.len
    case Release(_, rearmed) => rearmed
    case _ => true
  }

  /** The event in hand is on another buffer than the one in flight. */
  predicate Apart(s: Rx) {
    InHand(s.pc).Some? ==>
      var e := InHand(s.pc).value;
      && EventOk(e)
      && (s.armed.Some? ==> s.armed.value.index != e.index)
      && (s.queue != [] ==> s.queue[0].index != e.index)
  }

  function Waiting(s: Rx, e: Event, from: nat): seq<Item>
    requires Shaped(s) && EventOk(e) && from <= e.len
  {
    Items(s.bufs[e.index][from..e.len], e.framing)
  }

  /** Bytes completed but not yet parsed: the rest of the event in hand, then the queued one. */
  function Pending(s: Rx): seq<Item>
    requires Shaped(s) && Apart(s) && (s.queue != [] ==> EventOk(s.queue[0])) && TaskOk(s)
  {
    (if s.pc.Parse? then Waiting(s, s.pc.event, s.pc.i)
     else if s.pc.Release? || InHand(s.pc).None? then []
     else Waiting(s, InHand(s.pc).value, 0))
    + (if s.queue == [] then [] else Waiting(s, s.queue[0], 0))
  }

  /** Who owns which buffer, at every micro-step. */
  ghost predicate Control(s: Rx) {
    && Shaped(s) && OneInFlight(s) && TaskOk(s) && Apart(s)
    && (s.queue != [] ==> EventOk(s.queue[0]))
    && (forall i :: 0 <= i < BUFFERS ==> s.busy[i] == Owned(s, i))
    && s.starved == 0
  }

  /** The armed buffer holds what has arrived for it. */
  ghost predicate Written(s: Rx)
    requires Shaped(s)
  {
    if s.armed.None? then s.incoming == []
    else
      && |s.incoming| == s.armed.value.count
      && forall i :: 0 <= i < |s.incoming| && i < SIZE ==> s.bufs[s.armed.value.index][i] == s.incoming[i]
  }

  ghost predicate Inv(s: Rx) {
    Control(s) && Written(s) && s.received == s.parsed + Pending(s)
  }

  lemma ArmingControl(s: Rx)
    requires Control(s) && Arming(s.pc)
    ensures Control(Task(s))
  {}

  lemma ParsingControl(s: Rx)
    requires Control(s) && !Arming(s.pc)
    ensures Control(Task(s))
  {}

  lemma TaskControl(s: Rx)
    requires Control(s)
    ensures Control(Task(s))
  {
    if Arming(s.pc) {
      ArmingControl(s);
    } else {
      ParsingControl(s);
    }
  }

  lemma ArriveControl(s: Rx, value: bv8)
    requires Control(s) && s.armed.Some?
    ensures Control(Arrive(s, value))
  {}

  lemma CompleteControl(s: Rx)
    requires Control(s) && s.armed.Some?
    ensures Control(Complete(s))
  {}

  // ---------------------------------------------------------------- no byte lost

  lemma ItemsCons(data: seq<bv8>, framing: bool)
    requires data != []
    ensures Items(data, framing) == [Item(data[0], framing)] + Items(data[1..], framing)
  {}

  lemma WaitingCons(s: Rx, e: Event, i: nat)
    requires Shaped(s) && EventOk(e) && i < e.len
    ensures Waiting(s, e, i) == [Item(s.bufs[e.index][i], e.framing)] + Waiting(s, e, i + 1)
  {
    var left := s.bufs[e.index][i..e.len];
    ItemsCons(left, e.framing);
    assert left[1..] == s.bufs[e.index][i + 1..e.len];
  }

  /** Parsing one byte moves it from the pending bytes to the parsed ones. */
  lemma ParseConserves(s: Rx)
    requires Inv(s) && s.pc.Parse? && s.pc.i < s.pc.event.len
    ensures Inv(Task(s))
  {
    TaskControl(s);
    var e, i := s.pc.event, s.pc.i;
    var item := Item(s.bufs[e.index][i], e.framing);
    var tail := if s.queue == [] then [] else Waiting(s, s.queue[0], 0);
    WaitingCons(s, e, i);
    assert Task(s) == s.(parsed := s.parsed + [item], pc := s.pc.(i := i + 1));
    hide Control, Items, Task, Waiting;
    MoveOne(s.parsed, item, Waiting(s, e, i + 1), tail);
    assert Pending(s) == Waiting(s, e, i) + tail;
  }

  lemma MoveOne(done: seq<Item>, item: Item, rest: seq<Item>, tail: seq<Item>)
    ensures done + (([item] + rest) + tail) == (done + [item]) + (rest + tail)
  {}

  lemma ArmingConserves(s: Rx, t: Rx)
    requires Inv(s) && Arming(s.pc) && t == Task(s) && Control(t)
    ensures Written(t) && Pending(t) == Pending(s)
    ensures t.received == s.received && t.parsed == s.parsed
  {}

  lemma IdleConserves(s: Rx, t: Rx)
    requires Inv(s) && !Arming(s.pc) && !(s.pc.Parse? && s.pc.i < s.pc.event.len) && t == Task(s) && Control(t)
    ensures Written(t) && Pending(t) == Pending(s)
    ensures t.received == s.received && t.parsed == s.parsed
  {}

  lemma TaskConserves(s: Rx)
    requires Inv(s)
    ensures Inv(Task(s))
  {
    TaskControl(s);
    hide Control, Task, Pending, Written;
    if s.pc.Parse? && s.pc.i < s.pc.event.len {
      ParseConserves(s);
    } else if Arming(s.pc) {
      ArmingConserves(s, Task(s));
    } else {
      IdleConserves(s, Task(s));
    }
  }

  /** The hardware never touches a byte still to be parsed. */
  lemma ArriveConserves(s: Rx, value: bv8)
    requires Inv(s) && s.armed.Some?
    ensures Inv(Arrive(s, value))
  {
    ArriveControl(s, value);
    assert Pending(Arrive(s, value)) == Pending(s);
  }

  lemma ArrivedIsWaiting(s: Rx)
    requires Inv(s) && s.armed.Some?
    ensures Waiting(s, EventOf(s.armed.value), 0) == Arrived(s.incoming)
  {
    var e := EventOf(s.armed.value);
    var bytes := if |s.incoming| > SIZE then s.incoming[..SIZE] else s.incoming;
    assert s.bufs[e.index][0..e.len] == bytes;
  }

  lemma CompleteConserves(s: Rx)
    requires Inv(s) && s.armed.Some?
    ensures Inv(Complete(s))
  {
    CompleteControl(s);
    ArrivedIsWaiting(s);
    var e := EventOf(s.armed.value);
    hide Items, Arrived;
    assert Pending(Complete(s)) == Pending(s) + Waiting(s, e, 0);
  }

  // ---------------------------------------------------------------- runs

  predicate Initially(s: Rx) {
    && Shaped(s) && s.pc.Boot? && s.armed.None? && s.queue == []
    && (forall i :: 0 <= i < BUFFERS ==> !s.busy[i])
    && s.starved == 0 && s.incoming == [] && s.received == [] && s.parsed == []
  }

  /** `s` reaches `t` by these steps, each enabled where it is taken. */
  ghost predicate Reaches(s: Rx, steps: seq<Step>, t: Rx)
    requires Shaped(s)
    decreases |steps|
  {
    if steps == [] then s == t
    else Enabled(s, steps[0]) && Shaped(Next(s, steps[0])) && Reaches(Next(s, steps[0]), steps[1..], t)
  }

  lemma StepKeeps(s: Rx, step: Step)
    requires Inv(s) && Enabled(s, step)
    ensures Inv(Next(s, step))
  {
    match step
    case TaskStep => TaskConserves(s);
    case ByteStep(value) => ArriveConserves(s, value);
    case CallbackStep => CompleteConserves(s);
  }

  lemma {:induction false} RunKeeps(s: Rx, steps: seq<Step>, t: Rx)
    requires Inv(s) && Reaches(s, steps, t)
    ensures Inv(t)
    decreases |steps|
  {
    if steps != [] {
      StepKeeps(s, steps[0]);
      RunKeeps(Next(s, steps[0]), steps[1..], t);
    }
  }

  function Count(busy: seq<bool>): nat {
    if busy == [] then 0 else (if busy[0] then 1 else 0) + Count(busy[1..])
  }

  lemma FewOwners(s: Rx)
    requires Control(s)
    ensures Count(s.busy) <= 2
  {
    var b := s.busy;
    BusyAreOwned(s);
    CountFour(b);
  }

  lemma BusyAreOwned(s: Rx)
    requires Control(s)
    ensures s.busy[0] == Owned(s, 0) && s.busy[1] == Owned(s, 1)
    ensures s.busy[2] == Owned(s, 2) && s.busy[3] == Owned(s, 3)
  {}

  lemma CountFour(b: seq<bool>)
    requires |b| == 4
    ensures Count(b) == (if b[0] then 1 else 0) + (if b[1] then 1 else 0)
                      + (if b[2] then 1 else 0) + (if b[3] then 1 else 0)
  {
    assert b[1..][1..] == b[2..] && b[2..][1..] == b[3..] && b[3..][1..] == b[4..];
    assert b[4..] == [] && Count(b[4..]) == 0;
    assert Count(b[3..]) == (if b[3] then 1 else 0);
    assert Count(b[2..]) == (if b[2] then 1 else 0) + Count(b[3..]);
  }

  /**
   In every interleaving of task, callback and hardware: the task parses exactly the bytes that arrived, in
   order; the buffer being parsed is never the one being written; at most two buffers are busy; the queue
   never overflows; the round robin finds a free buffer by its second try; nothing is counted as starved.
   */
  lemma ReceiveIsSafe(s: Rx, steps: seq<Step>, t: Rx)
    requires Initially(s) && Reaches(s, steps, t)
    ensures Shaped(t) && t.parsed <= t.received
    ensures Apart(t) && TaskOk(t) && (t.queue != [] ==> EventOk(t.queue[0]))
    ensures t.received == t.parsed + Pending(t)
    ensures t.pc.Parse? && t.armed.Some? ==> t.armed.value.index != t.pc.event.index
    ensures Count(t.busy) <= 2
    ensures |t.queue| <= 1 < DEPTH
    ensures t.pc.Scan? ==> t.pc.tries <= 1 && (t.busy[t.next % BUFFERS] ==> t.pc.tries == 0)
    ensures t.starved == 0
    ensures t.armed.Some? || t.queue != [] || Arming(t.pc)
  {
    assert Inv(s);
    RunKeeps(s, steps, t);
    FewOwners(t);
    BusyAreOwned(t);
  }

  // ---------------------------------------------------------------- what was on the line

  /** The bytes of a run since its last callback, behind `open`. */
  function Unfinished(open: seq<bv8>, steps: seq<Step>): seq<bv8>
    decreases |steps|
  {
    if steps == [] then open
    else match steps[0]
      case ByteStep(value) => Unfinished(open + [value], steps[1..])
      case CallbackStep => Unfinished([], steps[1..])
      case TaskStep => Unfinished(open, steps[1..])
  }

  /** The first 64 bytes between two callbacks, marked if there were more. */
  function Transfer(bytes: seq<bv8>): seq<Item> {
    seq(if |bytes| <= 64 then |bytes| else 64, i requires 0 <= i < |bytes| => Item(bytes[i], |bytes| > 64))
  }

  /** The transfers of a run, each ended by a callback. */
  function Transfers(open: seq<bv8>, steps: seq<Step>): seq<Item>
    decreases |steps|
  {
    if steps == [] then []
    else match steps[0]
      case ByteStep(value) => Transfers(open + [value], steps[1..])
      case CallbackStep => Transfer(open) + Transfers([], steps[1..])
      case TaskStep => Transfers(open, steps[1..])
  }

  lemma StepRecords(s: Rx, step: Step)
    requires Shaped(s) && Enabled(s, step)
    ensures var n := Next(s, step);
      match step
      case ByteStep(value) => n.incoming == s.incoming + [value] && n.received == s.received
      case CallbackStep => n.incoming == [] && n.received == s.received + Transfer(s.incoming)
      case TaskStep => n.incoming == s.incoming && n.received == s.received
  {
    if step.CallbackStep? {
      assert Arrived(s.incoming) == Transfer(s.incoming);
    }
  }

  lemma {:induction false} RunRecords(s: Rx, steps: seq<Step>, t: Rx)
    requires Shaped(s) && Reaches(s, steps, t)
    ensures t.incoming == Unfinished(s.incoming, steps)
    ensures t.received == s.received + Transfers(s.incoming, steps)
    decreases |steps|
  {
    hide Transfer, Next;
    if steps == [] {
      assert s.received + [] == s.received;
    } else {
      var n := Next(s, steps[0]);
      StepRecords(s, steps[0]);
      RunRecords(n, steps[1..], t);
      if steps[0].CallbackStep? {
        assert (s.received + Transfer(s.incoming)) + Transfers([], steps[1..])
            == s.received + (Transfer(s.incoming) + Transfers([], steps[1..]));
      }
    }
  }

  /**
   In terms of the steps alone: the engine has been given a beginning of the transfers on the line, each cut to
   64 bytes and then marked, in order; all of them once the task is idle and nothing is queued.
   */
  lemma ParsedIsOnTheLine(s: Rx, steps: seq<Step>, t: Rx)
    requires Initially(s) && Reaches(s, steps, t)
    ensures t.parsed <= Transfers([], steps) && t.incoming == Unfinished([], steps)
    ensures t.pc.Idle? && t.queue == [] ==> t.parsed == Transfers([], steps)
  {
    ReceiveIsSafe(s, steps, t);
    RunRecords(s, steps, t);
    hide Reaches, Initially, Apart, TaskOk, Transfers;
  }

  // ---------------------------------------------------------------- re-arming

  /** A bound on the task steps until a buffer is armed again. */
  function Gap(pc: Pc): nat {
    match pc
    case Receive(_, _) => 1
    case Claim(_, _) => 2
    case Scan(_, tries) => if tries == 0 then 4 else 3
    case Boot => 5
    case Got(_) => 5
    case Idle => 6
    case Release(_, _) => 7
    case Parse(event, i, _) => if i <= event.len then 8 + (event.len - i) else 8
  }

  function TaskRun(s: Rx, n: nat): Rx
    requires Shaped(s)
    decreases n
  {
    if n == 0 || !Shaped(Task(s)) then s else TaskRun(Task(s), n - 1)
  }

  lemma GapShrinks(s: Rx)
    requires Control(s) && s.armed.None?
    ensures Task(s).armed.Some? || Gap(Task(s).pc) < Gap(s.pc)
  {
    BusyAreOwned(s);
  }

  /** From any reachable state with nothing armed, the task arms a buffer within 72 of its steps. */
  lemma {:induction false} Rearms(s: Rx) returns (n: nat)
    requires Control(s)
    ensures n <= Gap(s.pc) <= 8 + SIZE
    ensures TaskRun(s, n).armed.Some?
    decreases Gap(s.pc)
  {
    if s.armed.Some? {
      n := 0;
    } else {
      GapShrinks(s);
      TaskControl(s);
      if Task(s).armed.Some? {
        n := 1;
        assert TaskRun(Task(s), 0) == Task(s);
      } else {
        var m := Rearms(Task(s));
        n := m + 1;
      }
    }
  }

  // ---------------------------------------------------------------- the code of one attempt

  /** The part of the state that arming and the callback work on. */
  datatype Port = Port(busy: seq<bool>, next: nat, armed: Option<Armed>, queue: seq<Event>, starved: nat)

  function PortOf(s: Rx): Port {
    Port(s.busy, s.next, s.armed, s.queue, s.starved)
  }

  function WithPort(s: Rx, p: Port): Rx {
    s.(busy := p.busy, next := p.next, armed := p.armed, queue := p.queue, starved := p.starved)
  }

  /** The round robin: the first free buffer (`BUFFERS` if none), and the index after the search. */
  function FindFree(busy: seq<bool>, next: nat, tries: nat): (r: (nat, nat))
    requires |busy| == BUFFERS
    ensures r.0 <= BUFFERS && (r.0 < BUFFERS ==> !busy[r.0])
    decreases BUFFERS - tries
  {
    if tries >= BUFFERS then (BUFFERS, next)
    else if !busy[next % BUFFERS] then (next % BUFFERS, (next + 1) % UINT32)
    else FindFree(busy, (next + 1) % UINT32, tries + 1)
  }

  lemma NextCandidate(next: nat)
    requires next < UINT32
    ensures (next + 1) % UINT32 % BUFFERS == (next % BUFFERS + 1) % BUFFERS
  {}

  /** Four tries see every buffer: the search fails exactly when all are busy, wherever the index stands. */
  lemma FindFreeIsComplete(busy: seq<bool>, next: nat)
    requires |busy| == BUFFERS && next < UINT32
    ensures FindFree(busy, next, 0).0 == BUFFERS <==> busy[0] && busy[1] && busy[2] && busy[3]
  {
    var a := (next + 1) % UINT32;
    var b := (a + 1) % UINT32;
    var c := (b + 1) % UINT32;
    NextCandidate(next);
    NextCandidate(a);
    NextCandidate(b);
    FoundAt(busy, next, 0);
    FoundAt(busy, a, 1);
    FoundAt(busy, b, 2);
    FoundAt(busy, c, 3);
    hide FindFree;
    assert next % BUFFERS == 0 || next % BUFFERS == 1 || next % BUFFERS == 2 || next % BUFFERS == 3;
  }

  lemma FoundAt(busy: seq<bool>, next: nat, tries: nat)
    requires |busy| == BUFFERS && tries < BUFFERS
    ensures FindFree(busy, next, tries).0
         == if busy[next % BUFFERS] then FindFree(busy, (next + 1) % UINT32, tries + 1).0 else next % BUFFERS
    ensures FindFree(busy, next, BUFFERS).0 == BUFFERS
    ensures tries == 3 ==> FindFree(busy, (next + 1) % UINT32, tries + 1).0 == BUFFERS
  {}

  function Start(p: Port, record: bool, tries: nat): (r: (Port, bool))
    requires |p.busy| == BUFFERS
  {
    var found := FindFree(p.busy, p.next, tries);
    var failed := p.(next := found.1, starved := if record then p.starved + 1 else p.starved);
    if found.0 >= BUFFERS then (failed, false)
    else if p.armed.Some? then (failed.(busy := p.busy[found.0 := false]), false)
    else (p.(next := found.1, busy := p.busy[found.0 := true], armed := Some(Armed(found.0, 0))), true)
  }

  /** Undisturbed micro-steps from the start of a scan add up to one attempt. */
  lemma {:induction false} ScanIsStart(s: Rx, purpose: Purpose, tries: nat) returns (n: nat)
    requires Shaped(s) && s.pc == Scan(purpose, tries)
    ensures var r := Start(PortOf(s), purpose.Initial?, tries);
      TaskRun(s, n) == AfterArming(WithPort(s, r.0), purpose, r.1)
    decreases BUFFERS - tries
  {
    if tries >= BUFFERS {
      n := 1;
      assert TaskRun(Task(s), 0) == Task(s);
    } else if s.busy[s.next % BUFFERS] {
      ScanOn(s, purpose, tries);
      hide Start, AfterArming, Task;
      var m := ScanIsStart(Task(s), purpose, tries + 1);
      n := m + 1;
    } else {
      ClaimIsStart(s, purpose, tries);
      n := 3;
    }
  }

  lemma ScanOn(s: Rx, purpose: Purpose, tries: nat)
    requires Shaped(s) && s.pc == Scan(purpose, tries) && tries < BUFFERS && s.busy[s.next % BUFFERS]
    ensures Task(s).pc == Scan(purpose, tries + 1) && Shaped(Task(s))
    ensures var r := Start(PortOf(s), purpose.Initial?, tries);
      && Start(PortOf(Task(s)), purpose.Initial?, tries + 1) == r
      && AfterArming(WithPort(Task(s), r.0), purpose, r.1) == AfterArming(WithPort(s, r.0), purpose, r.1)
  {}

  lemma RunThree(s: Rx, a: Rx, b: Rx, c: Rx)
    requires Shaped(s) && Shaped(a) && Shaped(b) && Shaped(c)
    requires Task(s) == a && Task(a) == b && Task(b) == c
    ensures TaskRun(s, 3) == c
  {
    hide Task, Shaped;
    assert TaskRun(c, 0) == c && TaskRun(b, 1) == c && TaskRun(a, 2) == c;
  }

  lemma ClaimIsStart(s: Rx, purpose: Purpose, tries: nat)
    requires Shaped(s) && s.pc == Scan(purpose, tries) && tries < BUFFERS && !s.busy[s.next % BUFFERS]
    ensures var r := Start(PortOf(s), purpose.Initial?, tries);
      TaskRun(s, 3) == AfterArming(WithPort(s, r.0), purpose, r.1)
  {
    var c := s.next % BUFFERS;
    var a := s.(next := (s.next + 1) % UINT32, pc := Claim(purpose, c));
    var b := Claimed(s, purpose);
    assert Task(s) == a;
    assert Task(a) == b;
    ReceiveIsStart(s, purpose, tries);
    hide Start, AfterArming, Task, Claimed;
    RunThree(s, a, b, Task(b));
    hide TaskRun;
  }

  /** The state with the next buffer claimed. */
  function Claimed(s: Rx, purpose: Purpose): Rx
    requires Shaped(s)
  {
    var c := s.next % BUFFERS;
    s.(next := (s.next + 1) % UINT32, busy := s.busy[c := true], pc := Receive(purpose, c))
  }

  lemma ReceiveIsStart(s: Rx, purpose: Purpose, tries: nat)
    requires Shaped(s) && s.pc == Scan(purpose, tries) && tries < BUFFERS && !s.busy[s.next % BUFFERS]
    ensures Shaped(Claimed(s, purpose))
    ensures var r := Start(PortOf(s), purpose.Initial?, tries);
      Task(Claimed(s, purpose)) == AfterArming(WithPort(s, r.0), purpose, r.1)
  {
    var c := s.next % BUFFERS;
    assert s.busy[c := true][c := false] == s.busy[c := false];
  }

  /** The callback for buffer `index` with `size` bytes received; an unknown buffer is counted as starved. */
  function Callback(p: Port, index: nat, size: nat): Port
    requires |p.busy| == BUFFERS
  {
    if index >= BUFFERS then p.(armed := None, starved := p.starved + 1)
    else if |p.queue| < DEPTH then p.(armed := None, queue := p.queue + [EventOf(Armed(index, size))])
    else p.(armed := None, busy := p.busy[index := false], starved := p.starved + 1)
  }

  /** A transfer into memory that is none of the four buffers is counted and leaves buffers and queue alone. */
  lemma StrayTransfer(p: Port, index: nat, size: nat)
    requires |p.busy| == 4 && index >= 4
    ensures var after := Callback(p, index, size);
      after.armed == None && after.starved == p.starved + 1 && after.busy == p.busy && after.queue == p.queue
  {}


  lemma CompleteIsCallback(s: Rx)
    requires Shaped(s) && s.armed.Some?
    ensures PortOf(Complete(s)) == Callback(PortOf(s), s.armed.value.index, s.armed.value.count)
  {}

  class Receiver {
    const bufs: seq<array<bv8>>
    const busy: array<bool>
    var next: nat
    var armed: Option<Armed>
    var queue: seq<Event>
    var starved: nat

    ghost predicate Valid()
      reads this
    {
      && |bufs| == BUFFERS && busy.Length == BUFFERS && next < UINT32
      && (forall i :: 0 <= i < BUFFERS ==> bufs[i].Length == SIZE)
      && (forall i, j :: 0 <= i < j < BUFFERS ==> bufs[i] != bufs[j])
    }

    ghost function State(): Port
      reads this, busy
    {
      Port(busy[..], next, armed, queue, starved)
    }

    /** Four buffers of their own, all free, nothing armed or queued. */
    constructor ()
      ensures Valid() && fresh(busy) && forall i :: 0 <= i < BUFFERS ==> fresh(bufs[i])
      ensures State() == Port([false, false, false, false], 0, None, [], 0)
    {
      var a, b := new bv8[SIZE](_ => 0), new bv8[SIZE](_ => 0);
      var c, d := new bv8[SIZE](_ => 0), new bv8[SIZE](_ => 0);
      bufs := [a, b, c, d];
      busy := new bool[BUFFERS](_ => false);
      next, armed, queue, starved := 0, None, [], 0;
      new;
      assert busy[..] == [false, false, false, false];
    }

    /** Claims a free buffer and hands it to the hardware. */
    method StartRx(recordFailure: bool) returns (ok: bool)
      requires Valid()
      modifies this`next, this`armed, this`starved, busy
      ensures Valid()
      ensures (State(), ok) == Start(old(State()), recordFailure, 0)
    {
      var index := BUFFERS;
      ghost var goal := FindFree(busy[..], next, 0);
      var i := 0;
      while i < BUFFERS
        invariant i <= BUFFERS && next < UINT32 && index == BUFFERS
        invariant busy[..] == old(busy[..]) && armed == old(armed) && starved == old(starved)
        invariant FindFree(busy[..], next, i) == goal
      {
        var candidate := next % BUFFERS;
        next := (next + 1) % UINT32;
        if !busy[candidate] {
          index := candidate;
          break;
        }
        i := i + 1;
      }
      assert goal == (index, next);
      if index >= BUFFERS {
        if recordFailure {
          starved := starved + 1;
        }
        return false;
      }
      busy[index] := true;
      assert busy[..] == old(busy[..])[index := true];
      ok := DriverReceive(index);
      if !ok {
        busy[index] := false;
        assert busy[..] == old(busy[..])[index := false];
        if recordFailure {
          starved := starved + 1;
        }
      }
    }

    /** The driver accepts a buffer exactly when it holds none. */
    method DriverReceive(index: nat) returns (ok: bool)
      modifies this`armed
      ensures ok == old(armed).None?
      ensures armed == if ok then Some(Armed(index, 0)) else old(armed)
    {
      ok := armed.None?;
      if ok {
        armed := Some(Armed(index, 0));
      }
    }

    /** The position of `data` among the buffers, `BUFFERS` if it is none of them. */
    ghost function IndexOf(data: array?<bv8>): (k: nat)
      requires Valid()
      reads this
      ensures k <= BUFFERS
      ensures k < BUFFERS ==> bufs[k] == data
      ensures k == BUFFERS ==> data !in bufs
    {
      if bufs[0] == data then 0 else if bufs[1] == data then 1
      else if bufs[2] == data then 2 else if bufs[3] == data then 3 else BUFFERS
    }

    /** The interrupt callback: the driver lets go of the buffer, its event is queued. */
    method RxCallback(data: array?<bv8>, size: nat)
      requires Valid()
      modifies this`armed, this`queue, this`starved, busy
      ensures Valid()
      ensures State() == Callback(old(State()), IndexOf(data), size)
    {
      armed := None;
      var index := BUFFERS;
      if data != null {
        for i := 0 to BUFFERS
          invariant index == BUFFERS
          invariant forall j :: 0 <= j < i ==> bufs[j] != data
        {
          if data == bufs[i] {
            index := i;
            break;
          }
        }
      }
      assert index == IndexOf(data);
      if index >= BUFFERS {
        starved := starved + 1;
        return;
      }
      var len, framing := size, false;
      if len > SIZE {
        len := SIZE;
        framing := true;
      }
      if |queue| < DEPTH {
        queue := queue + [Event(index, len, framing)];
      } else {
        busy[index] := false;
        starved := starved + 1;
      }
    }
  }
}
