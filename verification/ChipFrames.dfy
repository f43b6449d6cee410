/**
 The frames the emulated master carries as literals, worked out byte by byte: each carries its own CRC, and the
 bench's builders make the same frames. This fixes the CRC's polynomial and initial value, and the builders, by
 example.
 */
module ChipFrames {
  import opened Crc16
  import opened MasterChip
  import opened Protocol
  import opened Words

  /** A poll and an idle status response as recorded from a real bus. */
  const STATUS_POLL: seq<byte> :=
    [0x02, 0x17, 0x9C, 0xB9, 0x00, 0x08, 0x9C, 0x41, 0x00, 0x02, 0x04, 0x3E, 0x03, 0x00, 0x00, 0xEB, 0xCC]
  const STATUS_RESPONSE: seq<byte> :=
    [0x02, 0x17, 0x10, 0x3E, 0x00, 0x03, 0x01, 0x00, 0x00, 0x00, 0x00, 0x00, 0x00, 0x00, 0x00, 0x00, 0x00, 0x00,
     0x00, 0x74, 0x1B]

  function Absorb(crc: bv16, b: byte): bv16 {
    BitStep(BitStep(BitStep(BitStep(BitStep(BitStep(BitStep(BitStep(Xor(crc, Wide(b))))))))))
  }

  function Absorb4(crc: bv16, a: byte, b: byte, c: byte, d: byte): bv16 {
    Absorb(Absorb(Absorb(Absorb(crc, a), b), c), d)
  }

  lemma EightSteps(c: bv16)
    ensures Steps(c, 8) == BitStep(BitStep(BitStep(BitStep(BitStep(BitStep(BitStep(BitStep(c))))))))
  {
    hide BitStep;
    assert Steps(c, 1) == BitStep(Steps(c, 0));
    assert Steps(c, 3) == BitStep(BitStep(Steps(c, 1)));
    assert Steps(c, 5) == BitStep(BitStep(Steps(c, 3)));
    assert Steps(c, 7) == BitStep(BitStep(Steps(c, 5)));
  }

  lemma Start(f: seq<byte>)
    ensures Crc(f[..0]) == 0xFFFF
  {}

  lemma One(f: seq<byte>, k: nat)
    requires k < |f|
    ensures Crc(f[..k + 1]) == Absorb(Crc(f[..k]), f[k])
  {
    assert f[..k + 1][..k] == f[..k] && f[..k + 1][k] == f[k];
    EightSteps(Xor(Crc(f[..k]), Wide(f[k])));
    hide BitStep, Steps;
  }

  lemma Four(f: seq<byte>, k: nat)
    requires k + 4 <= |f|
    ensures Crc(f[..k + 4]) == Absorb4(Crc(f[..k]), f[k], f[k + 1], f[k + 2], f[k + 3])
  {
    One(f, k);
    One(f, k + 1);
    One(f, k + 2);
    One(f, k + 3);
    hide Crc, Absorb;
  }

  lemma IsAppended(f: seq<byte>, n: nat, crc: bv16)
    requires |f| == n + 2 && n > 0 && Crc(f[..n]) == crc && f[n] == Lo(crc) && f[n + 1] == Hi(crc)
    ensures AppendCrc(f[..n]) == f && CrcOk(f)
  {
    AppendedResidue(f[..n]);
    hide Crc, Lo, Hi;
  }

  /** The register after every few bytes. */
  lemma ScanRequestRegisters()
    ensures Absorb4(0xFFFF, 0x02, 0x17, 0x9C, 0xB9) == 0x2A19
    ensures Absorb4(0x2A19, 0x00, 0x05, 0x9C, 0x41) == 0xA59F
    ensures Absorb4(0xA59F, 0x00, 0x03, 0x06, 0x00) == 0x97CD
    ensures Absorb4(0x97CD, 0x02, 0x00, 0x00, 0x01) == 0x384F
    ensures Absorb(0x384F, 0x02) == 0x35F8
  {}

  lemma ScanRequestCrc()
    ensures Crc(SCAN_REQUEST[..17]) == 0x35F8
  {
    hide Crc, Absorb, Absorb4;
    ScanRequestRegisters();
    Start(SCAN_REQUEST);
    Four(SCAN_REQUEST, 0);
    Four(SCAN_REQUEST, 4);
    Four(SCAN_REQUEST, 8);
    Four(SCAN_REQUEST, 12);
    One(SCAN_REQUEST, 16);
  }

  lemma ScanRequestPayload()
    ensures SCAN_REQUEST[..17] == RequestHead(SLAVE_ID, 5, 3, 6) + [0x00, 0x02, 0x00, 0x00, ToByte(1), ToByte(2)]
    ensures SCAN_REQUEST[17] == Lo(0x35F8) && SCAN_REQUEST[18] == Hi(0x35F8)
  {}

  lemma ScanRequestIsBuilt()
    ensures CrcOk(SCAN_REQUEST) && SCAN_REQUEST == BusScanRequest(SLAVE_ID, 1, 2)
  {
    hide CrcOk, Lo, Hi, Crc, RequestHead;
    ScanRequestCrc();
    ScanRequestPayload();
    IsAppended(SCAN_REQUEST, 17, 0x35F8);
  }

  /** The register after every few bytes. */
  lemma ScanResponseRegisters()
    ensures Absorb4(0xFFFF, 0x02, 0x17, 0x0A, 0x00) == 0x38B7
    ensures Absorb4(0x38B7, 0x00, 0x02, 0x05, 0x04) == 0x2A05
    ensures Absorb4(0x2A05, 0x30, 0x10, 0xFF, 0xA8) == 0x8F6F
    ensures Absorb(0x8F6F, 0x45) == 0xDF0E
  {}

  lemma ScanResponseCrc()
    ensures Crc(SCAN_RESPONSE[..13]) == 0xDF0E
  {
    hide Crc, Absorb, Absorb4;
    ScanResponseRegisters();
    Start(SCAN_RESPONSE);
    Four(SCAN_RESPONSE, 0);
    Four(SCAN_RESPONSE, 4);
    Four(SCAN_RESPONSE, 8);
    One(SCAN_RESPONSE, 12);
  }

  lemma ScanResponsePayload()
    ensures SCAN_RESPONSE[..13] == [SLAVE_ID, FC_READ_WRITE_MULTIPLE_REGISTERS, |SIGNATURE| as byte] + SIGNATURE
    ensures SCAN_RESPONSE[13] == Lo(0xDF0E) && SCAN_RESPONSE[14] == Hi(0xDF0E)
  {}

  lemma ScanResponseIsBuilt()
    ensures CrcOk(SCAN_RESPONSE) && SCAN_RESPONSE == ScanResponse(SLAVE_ID, SIGNATURE)
  {
    hide CrcOk, Lo, Hi, Crc, RequestHead;
    ScanResponseCrc();
    ScanResponsePayload();
    IsAppended(SCAN_RESPONSE, 13, 0xDF0E);
  }

  /** The register after every few bytes. */
  lemma LightCommandRegisters()
    ensures Absorb4(0xFFFF, 0x02, 0x17, 0x9C, 0xB9) == 0x2A19
    ensures Absorb4(0x2A19, 0x00, 0x02, 0x9C, 0x41) == 0x642E
    ensures Absorb4(0x642E, 0x00, 0x02, 0x04, 0x02) == 0x366A
    ensures Absorb(0x366A, 0x04) == 0xECB7
    ensures Absorb(0xECB7, 0x17) == 0x78EC
    ensures Absorb(0x78EC, 0x00) == 0x8D79
  {}

  lemma LightCommandCrc()
    ensures Crc(LIGHT_COMMAND[..15]) == 0x8D79
  {
    hide Crc, Absorb, Absorb4;
    LightCommandRegisters();
    Start(LIGHT_COMMAND);
    Four(LIGHT_COMMAND, 0);
    Four(LIGHT_COMMAND, 4);
    Four(LIGHT_COMMAND, 8);
    One(LIGHT_COMMAND, 12);
    One(LIGHT_COMMAND, 13);
    One(LIGHT_COMMAND, 14);
  }

  lemma LightCommandPayload()
    ensures LIGHT_COMMAND[..15] == RequestHead(SLAVE_ID, 2, 2, 4) + [ToByte(2), 0x04, 0x17, 0x00]
    ensures LIGHT_COMMAND[15] == Lo(0x8D79) && LIGHT_COMMAND[16] == Hi(0x8D79)
  {}

  lemma LightCommandIsBuilt()
    ensures CrcOk(LIGHT_COMMAND) && LIGHT_COMMAND == LightCommand(2, true, SLAVE_ID)
  {
    hide CrcOk, Lo, Hi, Crc, RequestHead;
    LightCommandCrc();
    LightCommandPayload();
    IsAppended(LIGHT_COMMAND, 15, 0x8D79);
  }

  /** The register after every few bytes. */
  lemma LightResponseRegisters()
    ensures Absorb4(0xFFFF, 0x02, 0x17, 0x04, 0x02) == 0x9932
    ensures Absorb(0x9932, 0x00) == 0xD518
    ensures Absorb(0xD518, 0x04) == 0xC9D4
    ensures Absorb(0xC9D4, 0xFD) == 0xDE08
  {}

  lemma LightResponseCrc()
    ensures Crc(LIGHT_RESPONSE[..7]) == 0xDE08
  {
    hide Crc, Absorb, Absorb4;
    LightResponseRegisters();
    Start(LIGHT_RESPONSE);
    Four(LIGHT_RESPONSE, 0);
    One(LIGHT_RESPONSE, 4);
    One(LIGHT_RESPONSE, 5);
    One(LIGHT_RESPONSE, 6);
  }

  lemma LightResponsePayload()
    ensures LIGHT_RESPONSE[..7] == [SLAVE_ID, FC_READ_WRITE_MULTIPLE_REGISTERS, 0x04, ToByte(2), 0x00, ToByte(4), 0xFD]
    ensures LIGHT_RESPONSE[7] == Lo(0xDE08) && LIGHT_RESPONSE[8] == Hi(0xDE08)
  {}

  lemma LightResponseIsBuilt()
    ensures CrcOk(LIGHT_RESPONSE) && LIGHT_RESPONSE == CommandResponse(SLAVE_ID, 2, 4)
  {
    hide CrcOk, Lo, Hi, Crc, RequestHead;
    LightResponseCrc();
    LightResponsePayload();
    IsAppended(LIGHT_RESPONSE, 7, 0xDE08);
  }

  lemma ByteZero()
    ensures ToByte(0) == 0
  {}

  lemma ByteOne()
    ensures ToByte(1) == 1
  {}

  lemma ByteHex14()
    ensures ToByte(0x14) == 0x14
  {}

  lemma ByteHex20()
    ensures ToByte(0x20) == 0x20
  {}

  lemma ByteHex40()
    ensures ToByte(0x40) == 0x40
  {}

  lemma ByteTwoHundred()
    ensures ToByte(200) == 0xC8
  {}

  lemma SmallBytes()
    ensures ToByte(0) == 0 && ToByte(1) == 1 && ToByte(0x14) == 0x14 && ToByte(0x20) == 0x20
    ensures ToByte(0x40) == 0x40 && ToByte(200) == 0xC8
  {
    hide ToByte;
    ByteZero();
    ByteOne();
    ByteHex14();
    ByteHex20();
    ByteHex40();
    ByteTwoHundred();
  }

  /** The register after every few bytes. */
  lemma BroadcastClosedRegisters()
    ensures Absorb4(0xFFFF, 0x00, 0x10, 0x9D, 0x31) == 0xA5A8
    ensures Absorb4(0xA5A8, 0x00, 0x09, 0x12, 0x16) == 0x2F6D
    ensures Absorb4(0x2F6D, 0x00, 0x00, 0x00, 0x40) == 0x952C
    ensures Absorb4(0x952C, 0x60, 0x00, 0x00, 0x00) == 0xBC06
    ensures Absorb4(0xBC06, 0x00, 0x00, 0x00, 0x00) == 0x6CC1
    ensures Absorb4(0x6CC1, 0x14, 0x00, 0x01, 0x00) == 0x81F9
    ensures Absorb(0x81F9, 0x00) == 0x4241
  {}

  lemma BroadcastClosedCrc8()
    ensures Crc(BROADCAST_CLOSED[..8]) == 0x2F6D
  {
    hide Crc, Absorb, Absorb4;
    BroadcastClosedRegisters();
    Start(BROADCAST_CLOSED);
    Four(BROADCAST_CLOSED, 0);
    Four(BROADCAST_CLOSED, 4);
  }

  lemma BroadcastClosedCrc16()
    requires Crc(BROADCAST_CLOSED[..8]) == 0x2F6D
    ensures Crc(BROADCAST_CLOSED[..16]) == 0xBC06
  {
    hide Crc, Absorb, Absorb4;
    BroadcastClosedRegisters();
    Four(BROADCAST_CLOSED, 8);
    Four(BROADCAST_CLOSED, 12);
  }

  lemma BroadcastClosedCrc25()
    requires Crc(BROADCAST_CLOSED[..16]) == 0xBC06
    ensures Crc(BROADCAST_CLOSED[..25]) == 0x4241
  {
    hide Crc, Absorb, Absorb4;
    BroadcastClosedRegisters();
    Four(BROADCAST_CLOSED, 16);
    Four(BROADCAST_CLOSED, 20);
    One(BROADCAST_CLOSED, 24);
  }

  lemma BroadcastClosedHead()
    ensures BROADCAST_CLOSED[..7] == BroadcastHead()
    ensures BROADCAST_CLOSED[25] == Lo(0x4241) && BROADCAST_CLOSED[26] == Hi(0x4241)
  {}

  lemma BroadcastClosedData()
    ensures BROADCAST_CLOSED[7..25] == BroadcastData(BroadcastState(0, 0, 0x40, 0x14))
  {
    hide ToByte;
    SmallBytes();
  }

  lemma BroadcastClosedIsBuilt()
    ensures CrcOk(BROADCAST_CLOSED) && BROADCAST_CLOSED == BroadcastStatus(BroadcastState(0, 0, 0x40, 0x14))
  {
    hide CrcOk, Lo, Hi, Crc, BroadcastData, BroadcastHead;
    BroadcastClosedCrc8();
    BroadcastClosedCrc16();
    BroadcastClosedCrc25();
    BroadcastClosedHead();
    BroadcastClosedData();
    IsAppended(BROADCAST_CLOSED, 25, 0x4241);
    assert BROADCAST_CLOSED[..25] == BROADCAST_CLOSED[..7] + BROADCAST_CLOSED[7..25];
  }

  /** The register after every few bytes. */
  lemma BroadcastOpeningRegisters()
    ensures Absorb4(0xFFFF, 0x00, 0x10, 0x9D, 0x31) == 0xA5A8
    ensures Absorb4(0xA5A8, 0x00, 0x09, 0x12, 0x16) == 0x2F6D
    ensures Absorb4(0x2F6D, 0x00, 0xC8, 0x00, 0x01) == 0x5B6D
    ensures Absorb4(0x5B6D, 0x60, 0x00, 0x00, 0x00) == 0x7F73
    ensures Absorb4(0x7F73, 0x00, 0x00, 0x00, 0x00) == 0x5C2B
    ensures Absorb4(0x5C2B, 0x14, 0x00, 0x01, 0x00) == 0x96CD
    ensures Absorb(0x96CD, 0x00) == 0x9557
  {}

  lemma BroadcastOpeningCrc8()
    ensures Crc(BROADCAST_OPENING[..8]) == 0x2F6D
  {
    hide Crc, Absorb, Absorb4;
    BroadcastOpeningRegisters();
    Start(BROADCAST_OPENING);
    Four(BROADCAST_OPENING, 0);
    Four(BROADCAST_OPENING, 4);
  }

  lemma BroadcastOpeningCrc16()
    requires Crc(BROADCAST_OPENING[..8]) == 0x2F6D
    ensures Crc(BROADCAST_OPENING[..16]) == 0x7F73
  {
    hide Crc, Absorb, Absorb4;
    BroadcastOpeningRegisters();
    Four(BROADCAST_OPENING, 8);
    Four(BROADCAST_OPENING, 12);
  }

  lemma BroadcastOpeningCrc25()
    requires Crc(BROADCAST_OPENING[..16]) == 0x7F73
    ensures Crc(BROADCAST_OPENING[..25]) == 0x9557
  {
    hide Crc, Absorb, Absorb4;
    BroadcastOpeningRegisters();
    Four(BROADCAST_OPENING, 16);
    Four(BROADCAST_OPENING, 20);
    One(BROADCAST_OPENING, 24);
  }

  lemma BroadcastOpeningHead()
    ensures BROADCAST_OPENING[..7] == BroadcastHead()
    ensures BROADCAST_OPENING[25] == Lo(0x9557) && BROADCAST_OPENING[26] == Hi(0x9557)
  {}

  lemma BroadcastOpeningData()
    ensures BROADCAST_OPENING[7..25] == BroadcastData(BroadcastState(200, 0, 0x01, 0x14))
  {
    hide ToByte;
    SmallBytes();
  }

  lemma BroadcastOpeningIsBuilt()
    ensures CrcOk(BROADCAST_OPENING) && BROADCAST_OPENING == BroadcastStatus(BroadcastState(200, 0, 0x01, 0x14))
  {
    hide CrcOk, Lo, Hi, Crc, BroadcastData, BroadcastHead;
    BroadcastOpeningCrc8();
    BroadcastOpeningCrc16();
    BroadcastOpeningCrc25();
    BroadcastOpeningHead();
    BroadcastOpeningData();
    IsAppended(BROADCAST_OPENING, 25, 0x9557);
    assert BROADCAST_OPENING[..25] == BROADCAST_OPENING[..7] + BROADCAST_OPENING[7..25];
  }

  /** The register after every few bytes. */
  lemma BroadcastOpenRegisters()
    ensures Absorb4(0xFFFF, 0x00, 0x10, 0x9D, 0x31) == 0xA5A8
    ensures Absorb4(0xA5A8, 0x00, 0x09, 0x12, 0x16) == 0x2F6D
    ensures Absorb4(0x2F6D, 0x00, 0xC8, 0xC8, 0x20) == 0x83FA
    ensures Absorb4(0x83FA, 0x60, 0x00, 0x00, 0x00) == 0x30DF
    ensures Absorb4(0x30DF, 0x00, 0x00, 0x00, 0x00) == 0xDB3B
    ensures Absorb4(0xDB3B, 0x14, 0x00, 0x01, 0x00) == 0x7F79
    ensures Absorb(0x7F79, 0x00) == 0xE2BE
  {}

  lemma BroadcastOpenCrc8()
    ensures Crc(BROADCAST_OPEN[..8]) == 0x2F6D
  {
    hide Crc, Absorb, Absorb4;
    BroadcastOpenRegisters();
    Start(BROADCAST_OPEN);
    Four(BROADCAST_OPEN, 0);
    Four(BROADCAST_OPEN, 4);
  }

  lemma BroadcastOpenCrc16()
    requires Crc(BROADCAST_OPEN[..8]) == 0x2F6D
    ensures Crc(BROADCAST_OPEN[..16]) == 0x30DF
  {
    hide Crc, Absorb, Absorb4;
    BroadcastOpenRegisters();
    Four(BROADCAST_OPEN, 8);
    Four(BROADCAST_OPEN, 12);
  }

  lemma BroadcastOpenCrc25()
    requires Crc(BROADCAST_OPEN[..16]) == 0x30DF
    ensures Crc(BROADCAST_OPEN[..25]) == 0xE2BE
  {
    hide Crc, Absorb, Absorb4;
    BroadcastOpenRegisters();
    Four(BROADCAST_OPEN, 16);
    Four(BROADCAST_OPEN, 20);
    One(BROADCAST_OPEN, 24);
  }

  lemma BroadcastOpenHead()
    ensures BROADCAST_OPEN[..7] == BroadcastHead()
    ensures BROADCAST_OPEN[25] == Lo(0xE2BE) && BROADCAST_OPEN[26] == Hi(0xE2BE)
  {}

  lemma BroadcastOpenData()
    ensures BROADCAST_OPEN[7..25] == BroadcastData(BroadcastState(200, 200, 0x20, 0x14))
  {
    hide ToByte;
    SmallBytes();
  }

  lemma BroadcastOpenIsBuilt()
    ensures CrcOk(BROADCAST_OPEN) && BROADCAST_OPEN == BroadcastStatus(BroadcastState(200, 200, 0x20, 0x14))
  {
    hide CrcOk, Lo, Hi, Crc, BroadcastData, BroadcastHead;
    BroadcastOpenCrc8();
    BroadcastOpenCrc16();
    BroadcastOpenCrc25();
    BroadcastOpenHead();
    BroadcastOpenData();
    IsAppended(BROADCAST_OPEN, 25, 0xE2BE);
    assert BROADCAST_OPEN[..25] == BROADCAST_OPEN[..7] + BROADCAST_OPEN[7..25];
  }

  /** The register after every few bytes. */
  lemma StatusPollRegisters()
    ensures Absorb4(0xFFFF, 0x02, 0x17, 0x9C, 0xB9) == 0x2A19
    ensures Absorb4(0x2A19, 0x00, 0x08, 0x9C, 0x41) == 0x660E
    ensures Absorb4(0x660E, 0x00, 0x02, 0x04, 0x3E) == 0x27C0
    ensures Absorb(0x27C0, 0x03) == 0x5167
    ensures Absorb(0x5167, 0x00) == 0xEA10
    ensures Absorb(0xEA10, 0x00) == 0xCCEB
  {}

  lemma StatusPollCrc()
    ensures Crc(STATUS_POLL[..15]) == 0xCCEB
  {
    hide Crc, Absorb, Absorb4;
    StatusPollRegisters();
    Start(STATUS_POLL);
    Four(STATUS_POLL, 0);
    Four(STATUS_POLL, 4);
    Four(STATUS_POLL, 8);
    One(STATUS_POLL, 12);
    One(STATUS_POLL, 13);
    One(STATUS_POLL, 14);
  }

  lemma StatusPollPayload()
    ensures STATUS_POLL[..15] == RequestHead(SLAVE_ID, 8, 2, 4) + [ToByte(0x3E), 0x03, 0x00, 0x00]
    ensures STATUS_POLL[15] == Lo(0xCCEB) && STATUS_POLL[16] == Hi(0xCCEB)
  {}

  lemma StatusPollIsBuilt()
    ensures CrcOk(STATUS_POLL) && STATUS_POLL == StatusPoll(0x3E, SLAVE_ID)
  {
    hide CrcOk, Lo, Hi, Crc, RequestHead;
    StatusPollCrc();
    StatusPollPayload();
    IsAppended(STATUS_POLL, 15, 0xCCEB);
  }

  lemma DataWithCurrent(current: nat)
    requires current < 256
    ensures (BroadcastHead() + BroadcastData(BroadcastState(200, 0, 0x01, 0x14)))[10 := current as byte]
         == BroadcastHead() + BroadcastData(BroadcastState(200, current, 0x01, 0x14))
  {
    assert ToByte(current) == current as byte;
    hide ToByte;
    var data := BroadcastData(BroadcastState(200, 0, 0x01, 0x14));
    assert data[3 := ToByte(current)] == BroadcastData(BroadcastState(200, current, 0x01, 0x14));
    assert (BroadcastHead() + data)[10 := ToByte(current)] == BroadcastHead() + data[3 := ToByte(current)];
  }

  /** In opening mode each cycle's broadcast shows a door on its way to 200, twelve further every cycle. */
  lemma OpeningIsBuilt(cycles: nat)
    ensures CrcOk(OpeningFrame(cycles))
    ensures 12 * cycles < 200 ==>
      OpeningFrame(cycles) == BroadcastStatus(BroadcastState(200, 12 * cycles, 0x01, 0x14))
    ensures 200 <= 12 * cycles < UINT32 ==>
      OpeningFrame(cycles) == BroadcastStatus(BroadcastState(200, 200, 0x20, 0x14))
  {
    var current := cycles * 12 % UINT32;
    assert 12 * cycles < UINT32 ==> current == 12 * cycles;
    BroadcastOpenIsBuilt();
    BroadcastOpeningHead();
    BroadcastOpeningData();
    assert BROADCAST_OPENING[..25] == BROADCAST_OPENING[..7] + BROADCAST_OPENING[7..25];
    if current < 200 {
      DataWithCurrent(current);
      Appended(BROADCAST_OPENING[..25][10 := current as byte]);
    }
    hide BroadcastData, BroadcastHead, AppendCrc, CrcOk, ToByte, Crc, Lo, Hi;
  }

  lemma Appended(payload: seq<byte>)
    requires payload != []
    ensures CrcOk(AppendCrc(payload))
  {
    AppendedResidue(payload);
    hide Crc, Lo, Hi;
  }

  lemma StatusResponseRegisters()
    ensures Absorb4(0xFFFF, 0x02, 0x17, 0x10, 0x3E) == 0x883D
    ensures Absorb4(0x883D, 0x00, 0x03, 0x01, 0x00) == 0x167C
    ensures Absorb4(0x167C, 0x00, 0x00, 0x00, 0x00) == 0x54F8
    ensures Absorb4(0x54F8, 0x00, 0x00, 0x00, 0x00) == 0xB070
    ensures Absorb(0xB070, 0x00) == 0xE4B1
    ensures Absorb(0xE4B1, 0x00) == 0x7424
    ensures Absorb(0x7424, 0x00) == 0x1B74
  {}

  lemma StatusResponseCrc8()
    ensures Crc(STATUS_RESPONSE[..8]) == 0x167C
  {
    hide Crc, Absorb, Absorb4;
    StatusResponseRegisters();
    Start(STATUS_RESPONSE);
    Four(STATUS_RESPONSE, 0);
    Four(STATUS_RESPONSE, 4);
  }

  lemma StatusResponseCrc19()
    requires Crc(STATUS_RESPONSE[..8]) == 0x167C
    ensures Crc(STATUS_RESPONSE[..19]) == 0x1B74
  {
    hide Crc, Absorb, Absorb4;
    StatusResponseRegisters();
    Four(STATUS_RESPONSE, 8);
    Four(STATUS_RESPONSE, 12);
    One(STATUS_RESPONSE, 16);
    One(STATUS_RESPONSE, 17);
    One(STATUS_RESPONSE, 18);
  }

  lemma StatusResponseEnds()
    ensures STATUS_RESPONSE[19] == Lo(0x1B74) && STATUS_RESPONSE[20] == Hi(0x1B74)
  {}

  lemma StatusResponsePasses()
    ensures CrcOk(STATUS_RESPONSE)
  {
    hide CrcOk, Lo, Hi, Crc;
    StatusResponseCrc8();
    StatusResponseCrc19();
    StatusResponseEnds();
    IsAppended(STATUS_RESPONSE, 19, 0x1B74);
  }
}
