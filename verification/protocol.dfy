/** The wire vocabulary shared by the host and the programmer firmware:
    command opcodes, result codes, device identifiers, device capacities and
    the result records of the transfer operations (pgm.h, pgm_get_dev_size). */
module Protocol {

  /** An octet on the serial link. */
  type Byte = b: int | 0 <= b < 0x100

  /** The 16- and 32-bit unsigned fields of the result records. */
  type U16 = x: int | 0 <= x < 0x1_0000
  type U32 = x: int | 0 <= x < 0x1_0000_0000

  datatype Option<T> = None | Some(value: T)

  /** The ten command opcodes of the protocol. */
  datatype Opcode =
    | StartWrite | WriteChunk | StartRead | ReadChunk | StartBlankCheck
    | BlankCheck | DevReset | Measure12V | Test | TestRead

  /** The opcode byte put on the wire. */
  function OpcodeByte(op: Opcode): (b: Byte)
    ensures 0x10 <= b <= 0x19
  {
    match op
    case StartWrite => 0x10
    case WriteChunk => 0x11
    case StartRead => 0x12
    case ReadChunk => 0x13
    case StartBlankCheck => 0x14
    case BlankCheck => 0x15
    case DevReset => 0x16
    case Measure12V => 0x17
    case Test => 0x18
    case TestRead => 0x19
  }

  /** The opcode a byte stands for, if any. */
  function OpcodeOf(b: Byte): (r: Option<Opcode>)
    ensures r.Some? <==> 0x10 <= b <= 0x19
    ensures r.Some? ==> OpcodeByte(r.value) == b
  {
    if b == 0x10 then Some(StartWrite)
    else if b == 0x11 then Some(WriteChunk)
    else if b == 0x12 then Some(StartRead)
    else if b == 0x13 then Some(ReadChunk)
    else if b == 0x14 then Some(StartBlankCheck)
    else if b == 0x15 then Some(BlankCheck)
    else if b == 0x16 then Some(DevReset)
    else if b == 0x17 then Some(Measure12V)
    else if b == 0x18 then Some(Test)
    else if b == 0x19 then Some(TestRead)
    else None
  }

  /** Distinct opcodes have distinct bytes, and the ten bytes are exactly
      0x10..0x19, one per opcode in declaration order. */
  lemma OpcodeBytesDistinct(a: Opcode, b: Opcode)
    ensures OpcodeByte(a) == OpcodeByte(b) <==> a == b
    ensures OpcodeOf(OpcodeByte(a)) == Some(a)
  {
  }

  // Result codes the firmware sends as the second byte of every acknowledgement.
  const Ok: Byte := 0x00
  const ProceedDualSocket: Byte := 0x01
  const Complete: Byte := 0x02
  const InvalidCommand: Byte := 0x03
  const NotSupported: Byte := 0x04
  const NoHardware: Byte := 0x05
  const IncorrectHardware: Byte := 0x06
  const IncorrectSwitchPosition: Byte := 0x07
  const NotBlank: Byte := 0x09
  const MaxRetriesExceeded: Byte := 0x0A

  // Host-local codes, never received from the firmware.
  const TimeoutValue: int := -1
  const BadAckValue: int := -2

  /** The result codes the firmware defines (0x08 is unassigned). */
  const WireCodes: set<Byte> := {Ok, ProceedDualSocket, Complete, InvalidCommand, NotSupported,
                                NoHardware, IncorrectHardware, IncorrectSwitchPosition,
                                NotBlank, MaxRetriesExceeded}

  /** The codes an acknowledgement may carry for the command to count as
      having succeeded. */
  predicate IsAccepted(code: Byte)
  {
    code == Ok || code == ProceedDualSocket || code == Complete || code == NotBlank
  }

  /** The outcome of the last exchange: a host-side failure or the code the
      firmware returned (the C program keeps this in a global integer). */
  datatype Status = Timeout | BadAck | Code(code: Byte)

  /** The integer the C program stores for a status. */
  function StatusValue(s: Status): (v: int)
    ensures s.Code? <==> 0 <= v
    ensures s == Timeout <==> v == TimeoutValue
    ensures s == BadAck <==> v == BadAckValue
  {
    match s
    case Timeout => TimeoutValue
    case BadAck => BadAckValue
    case Code(c) => c
  }

  /** Distinct statuses are stored as distinct integers: no received byte can
      be mistaken for a host-local failure. */
  lemma StatusValueInjective(s: Status, t: Status)
    ensures StatusValue(s) == StatusValue(t) ==> s == t
  {
  }

  /** The wire codes 0x00..0x07, 0x09 and 0x0A; the accepted ones are a subset
      and 0x08 is not accepted. */
  lemma WireCodeFacts(code: Byte)
    ensures code in WireCodes <==> code <= 0x0A && code != 0x08
    ensures IsAccepted(code) ==> code in WireCodes
    ensures IsAccepted(code) <==> code in {0x00, 0x01, 0x02, 0x09}
  {
  }

  /** Device families the programmer supports. */
  datatype Device = C1702A | C2704 | C2708 | MCM6876X

  /** The enumeration value, sent as the device byte of a payload. */
  function DeviceCode(d: Device): (v: Byte)
    ensures v <= 3
  {
    match d
    case C1702A => 0
    case C2704 => 1
    case C2708 => 2
    case MCM6876X => 3
  }

  /** The value the C program uses when no device was chosen. */
  const NotSetValue: int := -1

  /** The device an enumeration value denotes; None for NotSet and any
      value outside the enumeration. */
  function DeviceOf(v: int): (r: Option<Device>)
    ensures r.Some? <==> 0 <= v <= 3
    ensures r.Some? ==> DeviceCode(r.value) == v
  {
    if v == 0 then Some(C1702A)
    else if v == 1 then Some(C2704)
    else if v == 2 then Some(C2708)
    else if v == 3 then Some(MCM6876X)
    else None
  }

  lemma DeviceCodeRoundTrip(d: Device)
    ensures DeviceOf(DeviceCode(d)) == Some(d)
    ensures DeviceOf(NotSetValue) == None
  {
  }

  /** Device capacity in bytes as the C lookup returns it, -1 for a value that
      names no device. */
  function GetDevSize(v: int): (size: int)
    ensures size == -1 <==> DeviceOf(v).None?
    ensures size != -1 ==> size in {0x100, 0x200, 0x400, 0x2000}
  {
    if v == 0 then 0x100
    else if v == 1 then 0x200
    else if v == 2 then 0x400
    else if v == 3 then 0x2000
    else -1
  }

  /** Capacity of a device, in bytes. */
  function Capacity(d: Device): (size: nat)
    ensures 0 < size <= 0x2000
    ensures size == GetDevSize(DeviceCode(d))
  {
    GetDevSize(DeviceCode(d))
  }

  /** Every capacity is a whole number of 8-byte chunks and fits a 16-bit
      offset, and capacity grows with the enumeration value. */
  lemma CapacityFacts(d: Device, e: Device)
    ensures Capacity(d) % 8 == 0 && Capacity(d) <= 0x1_0000
    ensures DeviceCode(d) < DeviceCode(e) ==> Capacity(d) < Capacity(e)
  {
  }

  /** Outcome of a blank check: the first non-blank location when not blank. */
  datatype BlankCheckResult = Blank | NotBlankAt(offset: U16, data: Byte)

  /** The write trailer: the most writes any one byte needed and the total
      number of writes across the device (meaningful in hit-until-set mode). */
  datatype WriteResult = WriteResult(maxWritesPerByte: Byte, totalWrites: U32)

  /** Outcome of a verify: the first mismatching location when not matching. */
  datatype VerifyResult = Matches | Mismatch(offset: nat, fileByte: Byte, deviceByte: Byte)

  /** The value of an operation, or the status that made it fail. */
  datatype Result<T> = Success(value: T) | Failure(status: Status)
}
