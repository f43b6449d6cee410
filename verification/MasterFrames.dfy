/**
 Recognition of master frames by the logic-analyser decoder: expected length, kind and counter,
 and the proof that it inverts the builders.
 */
module MasterFrames {
  import opened Sequences
  import opened Crc16
  import opened Framing
  import opened Options
  import opened Protocol

  function MasterNeed(buffer: seq<byte>): Need {
    if |buffer| < 2 then More
    else if buffer[1] == FC_WRITE_MULTIPLE_REGISTERS then
      if |buffer| < 7 then More else Bounded(7 + buffer[6] as int + 2)
    else if buffer[1] == FC_READ_WRITE_MULTIPLE_REGISTERS then
      if |buffer| < 11 then More else Bounded(11 + buffer[10] as int + 2)
    else Bad
  }

  function Bounded(expected: int): Need {
    if expected < 5 || expected > MAX_FRAME then Bad else Exactly(expected)
  }

  datatype Kind = Unknown | Broadcast | StatusPollKind | BusScan | Command

  function DecodeMasterKind(frame: seq<byte>): Kind {
    if |frame| < 2 then Unknown
    else if frame[0] == 0 && frame[1] == FC_WRITE_MULTIPLE_REGISTERS then Broadcast
    else if frame[1] != FC_READ_WRITE_MULTIPLE_REGISTERS || |frame| < 13 then Unknown
    else if frame[2..4] != [0x9C, 0xB9] || frame[6..8] != [0x9C, 0x41] then Unknown
    else
      var readQuantity := 256 * frame[4] as int + frame[5] as int;
      var writeQuantity := 256 * frame[8] as int + frame[9] as int;
      if readQuantity == 8 && writeQuantity == 2 && frame[10] == 4 && |frame| == 17 && frame[12] == 0x03 then
        StatusPollKind
      else if readQuantity == 5 && writeQuantity == 3 && frame[10] == 6 && |frame| == 19 then BusScan
      else if readQuantity == 2 && writeQuantity == 2 && frame[10] == 4 && |frame| == 17 then Command
      else Unknown
  }

  function MasterCounter(frame: seq<byte>): Option<byte> {
    if DecodeMasterKind(frame) in {StatusPollKind, Command} && |frame| > 11 then Some(frame[11]) else None
  }

  lemma MasterIsDecisive()
    ensures Decisive(MasterNeed, MAX_FRAME)
  {
    forall s: seq<byte> | MasterNeed(s).Exactly? && MasterNeed(s).length <= |s|
      ensures MasterNeed(s[..MasterNeed(s).length]) == MasterNeed(s)
    {}
  }

  /** A request of function 0x10 tells its length in its seventh byte, one of 0x17 in its eleventh; 32 bytes at most. */
  lemma LengthIsTold(buffer: seq<byte>, n: nat)
    ensures var writes := |buffer| >= 2 && buffer[1] == 0x10;
      var combined := |buffer| >= 2 && buffer[1] == 0x17;
      && (MasterNeed(buffer) == More <==> |buffer| < 2 || (writes && |buffer| < 7) || (combined && |buffer| < 11))
      && (MasterNeed(buffer) == Exactly(n) <==>
            && n <= 32
            && ((writes && |buffer| >= 7 && n == buffer[6] as nat + 9)
                || (combined && |buffer| >= 11 && n == buffer[10] as nat + 13)))
  {}

  /** `frame` begins as a request that the builders make with these quantities. */
  predicate Headed(frame: seq<byte>, readQuantity: byte, writeQuantity: byte, byteCount: byte) {
    |frame| >= 11 && frame[..11] == RequestHead(frame[0], readQuantity, writeQuantity, byteCount)
  }

  lemma HeadedIs(frame: seq<byte>, r: byte, w: byte, n: byte)
    ensures Headed(frame, r, w, n) <==>
      && |frame| >= 11 && frame[1] == 0x17 && frame[2] == 0x9C && frame[3] == 0xB9 && frame[4] == 0 && frame[5] == r
      && frame[6] == 0x9C && frame[7] == 0x41 && frame[8] == 0 && frame[9] == w && frame[10] == n
  {
    if |frame| >= 11 {
      var head, built := frame[..11], RequestHead(frame[0], r, w, n);
      assert forall i :: 0 <= i < 11 ==> head[i] == frame[i];
      assert |built| == 11;
    }
  }

  lemma PairIs(frame: seq<byte>, i: nat, a: byte, b: byte)
    requires i + 2 <= |frame|
    ensures frame[i..i + 2] == [a, b] <==> frame[i] == a && frame[i + 1] == b
  {
    if frame[i] == a && frame[i + 1] == b {
      assert frame[i..i + 2] == [a, b];
    } else {
      assert frame[i..i + 2][0] == frame[i] && frame[i..i + 2][1] == frame[i + 1];
    }
  }

  /**
   Any frame, built or not: it is a poll, a scan request or a command exactly if it has the builder's head and length
   (and, for a poll, the 3 behind the counter), and a broadcast by its first two bytes.
   */
  lemma KindsAreHeads(frame: seq<byte>)
    ensures var kind := DecodeMasterKind(frame);
      && (kind == StatusPollKind <==> |frame| == 17 && Headed(frame, 8, 2, 4) && frame[12] == 3)
      && (kind == BusScan <==> |frame| == 19 && Headed(frame, 5, 3, 6))
      && (kind == Command <==> |frame| == 17 && Headed(frame, 2, 2, 4))
      && (kind == Broadcast <==> |frame| >= 2 && frame[0] == 0 && frame[1] == 0x10)
    ensures MasterCounter(frame)
         == if DecodeMasterKind(frame) in {StatusPollKind, Command} then Some(frame[11]) else None
  {
    HeadedIs(frame, 8, 2, 4);
    HeadedIs(frame, 5, 3, 6);
    HeadedIs(frame, 2, 2, 4);
    if |frame| >= 13 {
      PairIs(frame, 2, 0x9C, 0xB9);
      PairIs(frame, 6, 0x9C, 0x41);
      Quantity(frame[4], frame[5], 8);
      Quantity(frame[4], frame[5], 5);
      Quantity(frame[4], frame[5], 2);
      Quantity(frame[8], frame[9], 2);
      Quantity(frame[8], frame[9], 3);
    }
    hide Headed;
  }

  lemma Quantity(hi: byte, lo: byte, n: byte)
    ensures 256 * hi as int + lo as int == n as int <==> hi == 0 && lo == n
  {}

  /** What the bench tools can put on the bus. */
  datatype Request =
    | Poll(counter: int, slaveId: byte)
    | Scan(slaveId: byte, scanState: int, scanValue: int)
    | Light(counter: int, enabled: bool, slaveId: byte)
    | Status(state: BroadcastState)

  function Build(r: Request): seq<byte> {
    match r
    case Poll(counter, slaveId) => StatusPoll(counter, slaveId)
    case Scan(slaveId, scanState, scanValue) => BusScanRequest(slaveId, scanState, scanValue)
    case Light(counter, enabled, slaveId) => LightCommand(counter, enabled, slaveId)
    case Status(state) => BroadcastStatus(state)
  }

  function KindOf(r: Request): Kind {
    match r
    case Poll(_, _) => StatusPollKind
    case Scan(_, _, _) => BusScan
    case Light(_, _, _) => Command
    case Status(_) => Broadcast
  }

  function CounterOf(r: Request): Option<byte> {
    match r
    case Poll(counter, _) => Some(ToByte(counter))
    case Light(counter, _, _) => Some(ToByte(counter))
    case _ => None
  }

  /** A request in the layout of function 0x17 whose length matches its byte count. */
  lemma RequestShape(head: seq<byte>, data: seq<byte>, slaveId: byte, r: byte, w: byte, n: byte, lo: byte, hi: byte)
    requires head == RequestHead(slaveId, r, w, n) && |data| == n as int && 4 <= n <= 6
    ensures var frame := head + data + [lo, hi];
      && |frame| == 13 + |data|
      && MasterNeed(frame) == Exactly(|frame|)
      && frame[1] == FC_READ_WRITE_MULTIPLE_REGISTERS
      && frame[2..4] == [0x9C, 0xB9] && frame[6..8] == [0x9C, 0x41]
      && frame[4] == 0 && frame[5] == r && frame[8] == 0 && frame[9] == w && frame[10] == n
      && frame[11] == data[0] && frame[12] == data[1]
  {
    var frame := head + data + [lo, hi];
    assert |head| == 11;
    assert frame[..11] == head && frame[11..11 + |data|] == data;
    assert frame[1] == head[1] && frame[4] == head[4] && frame[5] == head[5];
    assert frame[8] == head[8] && frame[9] == head[9] && frame[10] == head[10];
    assert frame[2] == head[2] && frame[3] == head[3] && frame[6] == head[6] && frame[7] == head[7];
  }

  /** Every built frame announces its own length, carries a good CRC and is recognised for what it is. */
  lemma BuiltFrame(r: Request)
    ensures MasterNeed(Build(r)) == Exactly(|Build(r)|)
    ensures CrcOk(Build(r))
    ensures DecodeMasterKind(Build(r)) == KindOf(r)
    ensures MasterCounter(Build(r)) == CounterOf(r)
  {
    match r
    case Poll(counter, slaveId) =>
      BuiltRequest(RequestHead(slaveId, 8, 2, 4), [ToByte(counter), 0x03, 0x00, 0x00], slaveId, 8, 2, 4);
    case Scan(slaveId, scanState, scanValue) =>
      BuiltRequest(RequestHead(slaveId, 5, 3, 6), [0x00, 0x02, 0x00, 0x00, ToByte(scanState), ToByte(scanValue)],
                   slaveId, 5, 3, 6);
    case Light(counter, enabled, slaveId) =>
      BuiltRequest(RequestHead(slaveId, 2, 2, 4), [ToByte(counter), 0x04, 0x17, if enabled then 0x00 else 0x01],
                   slaveId, 2, 2, 4);
    case Status(s) => BuiltBroadcast(s);
  }

  lemma BuiltRequest(head: seq<byte>, data: seq<byte>, slaveId: byte, r: byte, w: byte, n: byte)
    requires head == RequestHead(slaveId, r, w, n) && |data| == n as int && 4 <= n <= 6
    requires r == 8 ==> w == 2 && n == 4 && data[1] == 0x03
    requires r == 5 ==> w == 3 && n == 6
    requires r == 2 ==> w == 2 && n == 4
    requires r in {2, 5, 8}
    ensures var frame := AppendCrc(head + data);
      && CrcOk(frame)
      && MasterNeed(frame) == Exactly(|frame|)
      && DecodeMasterKind(frame) == (if r == 8 then StatusPollKind else if r == 5 then BusScan else Command)
      && MasterCounter(frame) == (if r == 5 then None else Some(data[0]))
  {
    hide Crc, Lo, Hi, RequestHead, MasterNeed;
    var crc := Crc(head + data);
    AppendedResidue(head + data);
    RequestShape(head, data, slaveId, r, w, n, Lo(crc), Hi(crc));
  }

  lemma BuiltBroadcast(s: BroadcastState)
    ensures var frame := BroadcastStatus(s);
      && CrcOk(frame)
      && MasterNeed(frame) == Exactly(|frame|)
      && DecodeMasterKind(frame) == Broadcast
      && MasterCounter(frame) == None
  {
    hide Crc, Lo, Hi, ToByte;
    var data := [0x16, 0x00, ToByte(s.target), ToByte(s.current), ToByte(s.state), 0x60, 0, 0, 0, 0, 0, 0, 0,
                 ToByte(s.light), 0, 0x01, 0, 0];
    AppendedResidue(BroadcastHead() + data);
    var frame := AppendCrc(BroadcastHead() + data);
    assert |frame| == 27;
    assert frame[..7] == BroadcastHead();
    assert frame[0] == 0 && frame[1] == FC_WRITE_MULTIPLE_REGISTERS && frame[6] == 0x12;
  }

  function BuildAll(requests: seq<Request>): seq<seq<byte>> {
    if requests == [] then [] else [Build(requests[0])] + BuildAll(requests[1..])
  }

  lemma {:induction false} AllBuilt(requests: seq<Request>)
    ensures |BuildAll(requests)| == |requests|
    ensures forall i :: 0 <= i < |requests| ==> BuildAll(requests)[i] == Build(requests[i])
  {
    hide Build;
    if requests != [] {
      AllBuilt(requests[1..]);
    }
  }

  /** The framer inverts the builders on every stream of requests. */
  lemma FramerInvertsBuilders(requests: seq<Request>)
    ensures Decisive(MasterNeed, MAX_FRAME)
    ensures DrainEach(MasterNeed, MAX_FRAME, [], Flatten(BuildAll(requests)))
         == Split(AsFrames(BuildAll(requests)), [])
    ensures |BuildAll(requests)| == |requests|
    ensures forall i :: 0 <= i < |requests| ==>
      var frame := BuildAll(requests)[i];
      CrcOk(frame) && DecodeMasterKind(frame) == KindOf(requests[i]) && MasterCounter(frame) == CounterOf(requests[i])
  {
    MasterIsDecisive();
    AllBuilt(requests);
    hide Decisive, MasterNeed, Build, CrcOk, DecodeMasterKind, MasterCounter;
    forall i | 0 <= i < |requests|
      ensures MasterNeed(BuildAll(requests)[i]) == Exactly(|BuildAll(requests)[i]|)
      ensures var frame := BuildAll(requests)[i];
        CrcOk(frame) && DecodeMasterKind(frame) == KindOf(requests[i]) && MasterCounter(frame) == CounterOf(requests[i])
    {
      BuiltFrame(requests[i]);
    }
    SentFramesAreReceived(MasterNeed, MAX_FRAME, BuildAll(requests));
  }

  /** On arbitrary bytes: every received byte is in a frame, was skipped, or is still held, in order. */
  lemma FramerConserves(input: seq<byte>)
    ensures Decisive(MasterNeed, MAX_FRAME)
    ensures var d := DrainEach(MasterNeed, MAX_FRAME, [], input);
      Covered(d.chunks) + d.held == input && |d.held| < MAX_FRAME
  {
    MasterIsDecisive();
    assert [] + input == input;
    EachIsWhole(MasterNeed, MAX_FRAME, [], input);
    DrainConserves(MasterNeed, MAX_FRAME, input);
    DrainSettles(MasterNeed, MAX_FRAME, input);
    SettledIsShort(MasterNeed, MAX_FRAME, Drain(MasterNeed, MAX_FRAME, input).held);
  }
}
