/**
 The frame builders shared by the bench tools: requests, responses and the status broadcast of the
 door bus (functions 0x10 and 0x17 of the MODBUS Application Protocol V1.1b3, sections 6.12 and 6.17).
 */
module Protocol {
  import opened Crc16

  const SLAVE_ID: byte := 0x02
  const SIGNATURE: seq<byte> := [0x00, 0x00, 0x02, 0x05, 0x04, 0x30, 0x10, 0xFF, 0xA8, 0x45]
  const FC_WRITE_MULTIPLE_REGISTERS: byte := 0x10
  const FC_READ_WRITE_MULTIPLE_REGISTERS: byte := 0x17

  /** The longest frame either end of the bench accepts. */
  const MAX_FRAME: nat := 32

  /** The builders' `n & 0xFF`. */
  function ToByte(n: int): byte { (n % 256) as byte }

  function RequestHead(slaveId: byte, readQuantity: byte, writeQuantity: byte, byteCount: byte): seq<byte> {
    [slaveId, FC_READ_WRITE_MULTIPLE_REGISTERS, 0x9C, 0xB9, 0x00, readQuantity,
     0x9C, 0x41, 0x00, writeQuantity, byteCount]
  }

  function BusScanRequest(slaveId: byte, scanState: int, scanValue: int): seq<byte> {
    AppendCrc(RequestHead(slaveId, 5, 3, 6) + [0x00, 0x02, 0x00, 0x00, ToByte(scanState), ToByte(scanValue)])
  }

  function StatusPoll(counter: int, slaveId: byte): seq<byte> {
    AppendCrc(RequestHead(slaveId, 8, 2, 4) + [ToByte(counter), 0x03, 0x00, 0x00])
  }

  function LightCommand(counter: int, enabled: bool, slaveId: byte): seq<byte> {
    AppendCrc(RequestHead(slaveId, 2, 2, 4) + [ToByte(counter), 0x04, 0x17, if enabled then 0x00 else 0x01])
  }

  function ScanResponse(slaveId: byte, signature: seq<byte>): seq<byte>
    requires |signature| < 256
  {
    AppendCrc([slaveId, FC_READ_WRITE_MULTIPLE_REGISTERS, |signature| as byte] + signature)
  }

  function CommandResponse(slaveId: byte, counter: int, command: int): seq<byte> {
    AppendCrc([slaveId, FC_READ_WRITE_MULTIPLE_REGISTERS, 0x04, ToByte(counter), 0x00, ToByte(command), 0xFD])
  }

  datatype BroadcastState = BroadcastState(target: int, current: int, state: int, light: int)

  function BroadcastHead(): seq<byte> {
    [0x00, FC_WRITE_MULTIPLE_REGISTERS, 0x9D, 0x31, 0x00, 0x09, 0x12]
  }

  /** Eighteen register bytes, zero except where a field sits. */
  function BroadcastData(s: BroadcastState): seq<byte> {
    [0x16, 0x00, ToByte(s.target), ToByte(s.current), ToByte(s.state), 0x60, 0, 0, 0, 0, 0, 0, 0,
     ToByte(s.light), 0, 0x01, 0, 0]
  }

  function BroadcastStatus(s: BroadcastState): seq<byte> {
    AppendCrc(BroadcastHead() + BroadcastData(s))
  }
}
