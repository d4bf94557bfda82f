/**
 * Unified Diagnostic Services (ISO 14229-1) requests and responses.
 *
 * Every request builder is `buildCommand(sid, parameters)`: the service
 * identifier followed by the parameter bytes, rendered as upper-case hex.
 * `parseResponse` reads a reply: 0x7F starts a negative response carrying the
 * rejected service and a negative response code (NRC), anything else is a
 * positive response whose first byte is the service identifier plus 0x40.
 */
module Uds {
  import opened Wrappers
  import opened Bits
  import opened Hex

  // Service identifiers used by the builders (ISO 14229-1, table 23)
  const DiagnosticSessionControlSid := 0x10
  const EcuResetSid := 0x11
  const SecurityAccessSid := 0x27
  const TesterPresentSid := 0x3E
  const ControlDtcSettingSid := 0x85
  const ReadDataByIdentifierSid := 0x22
  const ReadMemoryByAddressSid := 0x23
  const WriteDataByIdentifierSid := 0x2E
  const WriteMemoryByAddressSid := 0x3D
  const ClearDtcSid := 0x14
  const ReadDtcSid := 0x19
  const InputOutputControlSid := 0x2F
  const RoutineControlSid := 0x31
  const RequestDownloadSid := 0x34
  const RequestUploadSid := 0x35
  const TransferDataSid := 0x36
  const RequestTransferExitSid := 0x37

  /** The first byte of a negative response. */
  const NegativeResponseSid := 0x7F
  /** A positive response's first byte is the request's service identifier plus this. */
  const PositiveResponseOffset := 0x40

  const DefaultSession := 0x01

  /** The session and security level the rest of the application records on the `UDS` object. */
  class UdsSession {
    var currentSession: int
    var securityLevel: int

    constructor()
      ensures currentSession == DefaultSession && securityLevel == 0
    {
      currentSession := DefaultSession;
      securityLevel := 0;
    }
  }

  /** `buildCommand(serviceId, parameters)`: the service identifier, then the parameters. */
  function BuildCommand(serviceId: int, parameters: seq<int>): (s: string)
    requires IsByte(serviceId) && IsBytes(parameters)
    ensures |s| == 2 + 2 * |parameters| && IsUpperHex(s) && IsHex(s)
    ensures HexToBytes(s) == [serviceId] + parameters
  {
    HexRoundTrip([serviceId] + parameters);
    BytesToHex([serviceId] + parameters)
  }

  // Arguments that the builders accept either as hex text or as a number

  /** A data, routine or other identifier: hex text, or a number sent as two big-endian bytes. */
  datatype Identifier = HexIdentifier(text: string) | NumericIdentifier(value: int)

  predicate ValidIdentifier(id: Identifier)
  {
    id.HexIdentifier? ==> IsHex(id.text)
  }

  /** `typeof id === 'string' ? hexToBytes(id) : [(id >> 8) & 0xFF, id & 0xFF]`. */
  function IdentifierBytes(id: Identifier): (bs: seq<int>)
    requires ValidIdentifier(id)
    ensures IsBytes(bs)
    ensures id.NumericIdentifier? ==> |bs| == 2 && BigEndianValue(bs) == id.value % 0x1_0000
  {
    match id
    case HexIdentifier(text) => HexToBytes(text)
    case NumericIdentifier(value) =>
      BigEndianRecombines(value, 2);
      BigEndian(value, 2)
  }

  /** A data argument: hex text, or the bytes themselves. */
  datatype Data = HexData(text: string) | ByteData(bytes: seq<int>)

  predicate ValidData(d: Data)
  {
    match d
    case HexData(text) => IsHex(text)
    case ByteData(bytes) => IsBytes(bytes)
  }

  function DataBytes(d: Data): (bs: seq<int>)
    requires ValidData(d)
    ensures IsBytes(bs)
  {
    match d
    case HexData(text) => HexToBytes(text)
    case ByteData(bytes) => bytes
  }

  /**
   * A data argument that is hex text or a single number: a number `n` is sent
   * as the one-element array `[n]`.
   */
  datatype HexOrByte = HexText(text: string) | OneByte(value: int)

  predicate ValidHexOrByte(d: HexOrByte)
  {
    match d
    case HexText(text) => IsHex(text)
    case OneByte(value) => IsByte(value)
  }

  function HexOrByteBytes(d: HexOrByte): (bs: seq<int>)
    requires ValidHexOrByte(d)
    ensures IsBytes(bs)
  {
    match d
    case HexText(text) => HexToBytes(text)
    case OneByte(value) => [value]
  }

  // Request builders

  function DiagnosticSessionControl(sessionType: int): string
    requires IsByte(sessionType)
  {
    BuildCommand(DiagnosticSessionControlSid, [sessionType])
  }

  function EcuReset(resetType: int): string
    requires IsByte(resetType)
  {
    BuildCommand(EcuResetSid, [resetType])
  }

  /** Seed requests use the odd sub-function `2 * level - 1`. */
  function SecurityAccessRequestSeed(level: int): string
    requires 1 <= level <= 128
  {
    BuildCommand(SecurityAccessSid, [level * 2 - 1])
  }

  /** Key sends use the even sub-function `2 * level`, then the key bytes. */
  function SecurityAccessSendKey(level: int, key: string): string
    requires 0 <= level <= 127 && IsHex(key)
  {
    BuildCommand(SecurityAccessSid, [level * 2] + HexToBytes(key))
  }

  /** Sub-function 0x80 asks the server to suppress its positive response. */
  function TesterPresent(suppressResponse: bool): string
  {
    BuildCommand(TesterPresentSid, [if suppressResponse then 0x80 else 0x00])
  }

  function ReadDataByIdentifier(dataIdentifier: Identifier): string
    requires ValidIdentifier(dataIdentifier)
  {
    BuildCommand(ReadDataByIdentifierSid, IdentifierBytes(dataIdentifier))
  }

  /** A numeric `data` argument is sent as the single byte it is. */
  function WriteDataByIdentifier(dataIdentifier: Identifier, data: HexOrByte): string
    requires ValidIdentifier(dataIdentifier) && ValidHexOrByte(data)
  {
    BuildCommand(WriteDataByIdentifierSid, IdentifierBytes(dataIdentifier) + HexOrByteBytes(data))
  }

  /**
   * The addressAndLengthFormatIdentifier `(high << 4) | low`: the number of
   * address bytes in the high nibble and the number of size (or data) bytes in
   * the low one. A `low` of 16 or more is not masked, so its high bits are
   * ORed into the address nibble.
   */
  function FormatByte(high: int, low: int): (b: int)
    requires 0 <= high < 16 && 0 <= low < 256
    ensures IsByte(b)
  {
    assert Pow2(4) == 16;
    Fits(high * 16, 8);
    OrBound(high * 16, low, 8);
    assert Pow2(8) == 256;
    Or(high * 16, low)
  }

  /** `readMemoryByAddress(address, size, addressLength, sizeLength)`; the defaults are 3 and 2. */
  function ReadMemoryByAddress(address: int, size: int, addressLength: int, sizeLength: int): string
    requires 0 <= addressLength < 16 && 0 <= sizeLength < 256
  {
    BuildCommand(ReadMemoryByAddressSid,
      [FormatByte(addressLength, sizeLength)] + BigEndian(address, addressLength) + BigEndian(size, sizeLength))
  }

  /**
   * `writeMemoryByAddress(address, data, addressLength)`: the format byte ORs
   * the number of data bytes into the address length's nibble, and no
   * memorySize field follows the address.
   */
  function WriteMemoryByAddress(address: int, data: Data, addressLength: int): string
    requires 0 <= addressLength < 16 && ValidData(data) && |DataBytes(data)| < 256
  {
    var dataBytes := DataBytes(data);
    BuildCommand(WriteMemoryByAddressSid,
      [FormatByte(addressLength, |dataBytes|)] + BigEndian(address, addressLength) + dataBytes)
  }

  /**
   * writeMemoryByAddress as ISO 14229-1 lays out the request: the low
   * nibble of the format byte gives the width of a memorySize field, which
   * follows the address and holds the number of data bytes.
   */
  function WriteMemoryByAddressSized(address: int, data: Data, addressLength: int, sizeLength: int): string
    requires 0 <= addressLength < 16 && 0 <= sizeLength < 16 && ValidData(data)
  {
    var dataBytes := DataBytes(data);
    BuildCommand(WriteMemoryByAddressSid,
      [FormatByte(addressLength, sizeLength)] + BigEndian(address, addressLength)
      + BigEndian(|dataBytes|, sizeLength) + dataBytes)
  }

  /** The group of DTCs as three big-endian bytes; 0xFFFFFF means all groups. */
  function ClearDtc(groupOfDtc: int): string
  {
    BuildCommand(ClearDtcSid, BigEndian(groupOfDtc, 3))
  }

  const AllDtcGroups := 0xFFFFFF

  function ReadDtc(reportType: int, statusMask: int): string
    requires IsByte(reportType) && IsByte(statusMask)
  {
    BuildCommand(ReadDtcSid, [reportType, statusMask])
  }

  function InputOutputControl(identifier: string, controlParameter: string, controlOption: int): string
    requires IsHex(identifier) && IsHex(controlParameter) && IsByte(controlOption)
  {
    BuildCommand(InputOutputControlSid, HexToBytes(identifier) + HexToBytes(controlParameter) + [controlOption])
  }

  function RoutineControl(routineControlType: int, routineIdentifier: Identifier, routineOption: seq<int>): string
    requires IsByte(routineControlType) && ValidIdentifier(routineIdentifier) && IsBytes(routineOption)
  {
    BuildCommand(RoutineControlSid, [routineControlType] + IdentifierBytes(routineIdentifier) + routineOption)
  }

  /** Four address bytes and four size bytes, announced by the format byte 0x44. */
  const FourAndFour := 0x44

  function RequestDownload(memoryAddress: int, memorySize: int, dataFormat: int): string
    requires IsByte(dataFormat)
  {
    BuildCommand(RequestDownloadSid,
      [dataFormat, FourAndFour] + BigEndian(memoryAddress, 4) + BigEndian(memorySize, 4))
  }

  function RequestUpload(memoryAddress: int, memorySize: int, dataFormat: int): string
    requires IsByte(dataFormat)
  {
    BuildCommand(RequestUploadSid,
      [dataFormat, FourAndFour] + BigEndian(memoryAddress, 4) + BigEndian(memorySize, 4))
  }

  function TransferData(blockSequenceCounter: int, data: Data): string
    requires IsByte(blockSequenceCounter) && ValidData(data)
  {
    BuildCommand(TransferDataSid, [blockSequenceCounter] + DataBytes(data))
  }

  function RequestTransferExit(): string
  {
    BuildCommand(RequestTransferExitSid, [])
  }

  function ControlDtcSetting(settingType: int): string
    requires IsByte(settingType)
  {
    BuildCommand(ControlDtcSettingSid, [settingType])
  }

  // Responses

  /** What `parseResponse` returns. */
  datatype Response =
    | ErrorResponse(error: string)
    | NegativeResponse(service: int, nrc: int, nrcDescription: string)
    | PositiveResponse(service: int, data: string)

  /**
   * `getNRCDescription(nrc)`: the text of the twelve codes the table lists,
   * otherwise "Unknown NRC: 0x" and the code in unpadded lower-case hex.
   */
  function NrcDescription(nrc: int): string
  {
    if nrc == 0x10 then "General Reject"
    else if nrc == 0x11 then "Service Not Supported"
    else if nrc == 0x12 then "Sub-Function Not Supported"
    else if nrc == 0x13 then "Incorrect Message Length"
    else if nrc == 0x21 then "Busy - Repeat Request"
    else if nrc == 0x22 then "Conditions Not Correct"
    else if nrc == 0x31 then "Request Out Of Range"
    else if nrc == 0x33 then "Security Access Denied"
    else if nrc == 0x35 then "Invalid Key"
    else if nrc == 0x36 then "Exceed Number Of Attempts"
    else if nrc == 0x37 then "Required Time Delay Not Expired"
    else if nrc == 0x78 then "Response Pending"
    else UnknownNrcPrefix + NumberToHexString(nrc)
  }

  const UnknownNrcPrefix := "Unknown NRC: 0x"

  /** The codes that have a description of their own. */
  const DescribedNrcs: set<int> := {0x10, 0x11, 0x12, 0x13, 0x21, 0x22, 0x31, 0x33, 0x35, 0x36, 0x37, 0x78}

  /**
   * `parseResponse(response)`.  A negative response shorter than three bytes
   * makes the source call `toString` on `undefined` and throw; that is the
   * `Failure` here.
   */
  function ParseResponse(response: string): Result<Response, string>
    requires IsHex(response)
  {
    var bytes := HexToBytes(response);
    if |bytes| == 0 then Success(ErrorResponse("Empty response"))
    else if bytes[0] == NegativeResponseSid then
      if |bytes| < 3 then Failure("TypeError: Cannot read properties of undefined (reading 'toString')")
      else Success(NegativeResponse(bytes[1], bytes[2], NrcDescription(bytes[2])))
    else Success(PositiveResponse(bytes[0] - PositiveResponseOffset, BytesToHex(bytes[1..])))
  }

  // Properties of the requests

  /** The format byte holds the two lengths in its nibbles; the default read format is 0x32. */
  lemma FormatByteNibbles(high: int, low: int)
    requires 0 <= high < 16 && 0 <= low < 16
    ensures FormatByte(high, low) == high * 16 + low
    ensures FormatByte(high, low) / 16 == high && FormatByte(high, low) % 16 == low
  {
    assert FormatByte(high, low) == high * 16 + low by {
      assert Pow2(4) == 16;
      Fits(0, 4);
      LowHighDivMod(high * 16, 4);
      DivModUnique(high * 16, 16, high, 0);
      OrDisjoint(high * 16, low, 4);
    }
    DivModUnique(high * 16 + low, 16, high, low);
  }

  /** The requests whose parameters are plain bytes: the service identifier, then those bytes. */
  lemma ByteParameterRequests(parameter: int, statusMask: int)
    requires IsByte(parameter) && IsByte(statusMask)
    ensures HexToBytes(DiagnosticSessionControl(parameter)) == [0x10, parameter]
    ensures HexToBytes(EcuReset(parameter)) == [0x11, parameter]
    ensures HexToBytes(ControlDtcSetting(parameter)) == [0x85, parameter]
    ensures HexToBytes(ReadDtc(parameter, statusMask)) == [0x19, parameter, statusMask]
    ensures |DiagnosticSessionControl(parameter)| == |EcuReset(parameter)| == |ControlDtcSetting(parameter)| == 4
  {
  }

  /**
   * Security access pairs an odd seed request with the even key send that
   * follows it (section 9.4 of ISO 14229-1:2013): the key's sub-function is
   * the seed's plus one, and both give back the level.
   */
  lemma SecurityAccessSubFunctions(level: int, key: string)
    requires 1 <= level <= 127 && IsHex(key)
    ensures var seed := HexToBytes(SecurityAccessRequestSeed(level));
            |seed| == 2 && seed[0] == SecurityAccessSid && seed[1] % 2 == 1 && (seed[1] + 1) / 2 == level
    ensures var send := HexToBytes(SecurityAccessSendKey(level, key));
            send[0] == SecurityAccessSid && send[1] % 2 == 0 && send[1] / 2 == level
            && send[1] == HexToBytes(SecurityAccessRequestSeed(level))[1] + 1
            && send[2..] == HexToBytes(key)
  {
  }

  /** `testerPresent` asks for silence exactly when the sub-function's top bit is set. */
  lemma TesterPresentSuppression(suppressResponse: bool)
    ensures |HexToBytes(TesterPresent(suppressResponse))| == 2
    ensures HexToBytes(TesterPresent(suppressResponse))[1] >= 0x80 <==> suppressResponse
  {
  }

  /** A numeric data identifier is sent as two big-endian bytes; data to write follows it. */
  lemma DataIdentifierRequests(dataIdentifier: Identifier, data: HexOrByte)
    requires ValidIdentifier(dataIdentifier) && ValidHexOrByte(data)
    ensures var read := HexToBytes(ReadDataByIdentifier(dataIdentifier));
            read[0] == ReadDataByIdentifierSid && read[1..] == IdentifierBytes(dataIdentifier)
    ensures var write := HexToBytes(WriteDataByIdentifier(dataIdentifier, data));
            var n := |IdentifierBytes(dataIdentifier)|;
            write[0] == WriteDataByIdentifierSid && write[1..n + 1] == IdentifierBytes(dataIdentifier)
            && write[n + 1..] == HexOrByteBytes(data)
    ensures data.OneByte? ==>
              var write := HexToBytes(WriteDataByIdentifier(dataIdentifier, data));
              write[|write| - 1] == data.value && |write| == 2 + |IdentifierBytes(dataIdentifier)|
    ensures dataIdentifier.NumericIdentifier? ==>
              var read := HexToBytes(ReadDataByIdentifier(dataIdentifier));
              |read| == 3 && BigEndianValue(read[1..]) == dataIdentifier.value % 0x1_0000
  {
    var write := HexToBytes(WriteDataByIdentifier(dataIdentifier, data));
    assert write == [WriteDataByIdentifierSid] + IdentifierBytes(dataIdentifier) + HexOrByteBytes(data);
  }

  /**
   * `readMemoryByAddress`: the format byte, `addressLength` address bytes and
   * `sizeLength` size bytes; up to four bytes each, they recombine to the
   * address and the size modulo the range they can hold.
   */
  lemma ReadMemoryLayout(address: int, size: int, addressLength: int, sizeLength: int)
    requires 0 <= addressLength <= 4 && 0 <= sizeLength <= 4
    ensures var b := HexToBytes(ReadMemoryByAddress(address, size, addressLength, sizeLength));
            |b| == 2 + addressLength + sizeLength && b[0] == ReadMemoryByAddressSid
            && b[1] / 16 == addressLength && b[1] % 16 == sizeLength
            && BigEndianValue(b[2..2 + addressLength]) == address % Pow256(addressLength)
            && BigEndianValue(b[2 + addressLength..]) == size % Pow256(sizeLength)
  {
    var addressBytes, sizeBytes := BigEndian(address, addressLength), BigEndian(size, sizeLength);
    var b := HexToBytes(ReadMemoryByAddress(address, size, addressLength, sizeLength));
    assert b == [ReadMemoryByAddressSid, FormatByte(addressLength, sizeLength)] + addressBytes + sizeBytes;
    assert b[2..2 + addressLength] == addressBytes && b[2 + addressLength..] == sizeBytes;
    FormatByteNibbles(addressLength, sizeLength);
    BigEndianRecombines(address, addressLength);
    BigEndianRecombines(size, sizeLength);
  }

  /** With the default lengths the format byte is 0x32. */
  lemma ReadMemoryDefaultFormat(address: int, size: int)
    ensures HexToBytes(ReadMemoryByAddress(address, size, 3, 2))[1] == 0x32
  {
    FormatByteNibbles(3, 2);
  }

  /**
   * A low part of 16 or more is not masked: the format byte keeps its low
   * nibble, and its high bits are ORed into the high nibble.
   */
  lemma FormatByteOverlap(high: int, low: int)
    requires 0 <= high < 16 && 0 <= low < 256
    ensures FormatByte(high, low) % 16 == low % 16
    ensures FormatByte(high, low) / 16 == Or(high, low / 16)
  {
    assert Pow2(4) == 16;
    OrBits(high * 16, low, 4);
    LowHighDivMod(high * 16, 4);
    LowHighDivMod(low, 4);
    LowHighDivMod(Or(high * 16, low), 4);
    DivModUnique(high * 16, 16, high, 0);
    OrZero(low % 16);
  }

  /**
   * `writeMemoryByAddress`: the format byte ORs the data length into the
   * address nibble, and the data follows the address. Below 16 data bytes the
   * two nibbles are the address length and the data length.
   */
  lemma WriteMemoryLayout(address: int, data: Data, addressLength: int)
    requires 0 <= addressLength <= 4 && ValidData(data) && |DataBytes(data)| < 256
    ensures var b := HexToBytes(WriteMemoryByAddress(address, data, addressLength));
            |b| == 2 + addressLength + |DataBytes(data)| && b[0] == WriteMemoryByAddressSid
            && b[1] == Or(addressLength * 16, |DataBytes(data)|)
            && b[1] % 16 == |DataBytes(data)| % 16 && b[1] / 16 == Or(addressLength, |DataBytes(data)| / 16)
            && BigEndianValue(b[2..2 + addressLength]) == address % Pow256(addressLength)
            && b[2 + addressLength..] == DataBytes(data)
    ensures |DataBytes(data)| < 16 ==>
              var b := HexToBytes(WriteMemoryByAddress(address, data, addressLength));
              b[1] / 16 == addressLength && b[1] % 16 == |DataBytes(data)|
  {
    var addressBytes, dataBytes := BigEndian(address, addressLength), DataBytes(data);
    var b := HexToBytes(WriteMemoryByAddress(address, data, addressLength));
    assert b == [WriteMemoryByAddressSid, FormatByte(addressLength, |dataBytes|)] + addressBytes + dataBytes;
    assert b[2..2 + addressLength] == addressBytes && b[2 + addressLength..] == dataBytes;
    var f := FormatByte(addressLength, |dataBytes|);
    assert b[1] == f;
    FormatByteOverlap(addressLength, |dataBytes|);
    assert f % 16 == |dataBytes| % 16 && f / 16 == Or(addressLength, |dataBytes| / 16);
    if |dataBytes| < 16 {
      FormatByteNibbles(addressLength, |dataBytes|);
      assert f / 16 == addressLength && f % 16 == |dataBytes|;
    }
    BigEndianRecombines(address, addressLength);
  }

  /**
   * As written, a 16-byte write at the default address length sends format
   * byte 0x30, the same byte as a write of no data, and a 17-byte write sends
   * 0x31, the byte of a one-byte write.
   */
  lemma WriteMemoryLengthOverflow(address: int, data: Data)
    requires ValidData(data) && 16 <= |DataBytes(data)| <= 17
    ensures var b := HexToBytes(WriteMemoryByAddress(address, data, 3));
            b[1] == 0x30 + (|DataBytes(data)| - 16)
            && b[1] == HexToBytes(WriteMemoryByAddress(address, ByteData(DataBytes(data)[16..]), 3))[1]
  {
    var n := |DataBytes(data)|;
    WriteMemoryLayout(address, data, 3);
    WriteMemoryLayout(address, ByteData(DataBytes(data)[16..]), 3);
    assert Or(3, 1) == 3;
    DivModUnique(n, 16, 1, n - 16);
    FormatByteNibbles(3, n - 16);
  }

  /** The fields of the corrected request, in order. */
  lemma SizedRequestFields(address: int, data: Data, addressLength: int, sizeLength: int)
    requires 0 <= addressLength <= 4 && 0 <= sizeLength <= 4 && ValidData(data)
    ensures var b := HexToBytes(WriteMemoryByAddressSized(address, data, addressLength, sizeLength));
            |b| == 2 + addressLength + sizeLength + |DataBytes(data)| && b[0] == WriteMemoryByAddressSid
            && b[1] == FormatByte(addressLength, sizeLength)
            && b[2..2 + addressLength] == BigEndian(address, addressLength)
            && b[2 + addressLength..2 + addressLength + sizeLength] == BigEndian(|DataBytes(data)|, sizeLength)
            && b[2 + addressLength + sizeLength..] == DataBytes(data)
  {
    var dataBytes := DataBytes(data);
    var addressBytes, sizeBytes := BigEndian(address, addressLength), BigEndian(|dataBytes|, sizeLength);
    var b := HexToBytes(WriteMemoryByAddressSized(address, data, addressLength, sizeLength));
    assert |addressBytes| == addressLength && |sizeBytes| == sizeLength;
    CommandFields(b, WriteMemoryByAddressSid, FormatByte(addressLength, sizeLength), addressBytes, sizeBytes, dataBytes);
  }

  /** A command with a format byte and three fields is cut back into them at their lengths. */
  lemma CommandFields<T>(s: seq<T>, sid: T, format: T, a: seq<T>, b: seq<T>, c: seq<T>)
    requires s == [sid] + ([format] + a + b + c)
    ensures |s| == 2 + |a| + |b| + |c| && s[0] == sid && s[1] == format
    ensures s[2..2 + |a|] == a && s[2 + |a|..2 + |a| + |b|] == b && s[2 + |a| + |b|..] == c
  {
    assert s == [sid, format] + a + b + c;
  }

  /**
   * The request as ISO 14229-1 lays it out: the format byte's nibbles are the
   * two field widths, and the memorySize field reads back to the number of
   * data bytes whenever it is wide enough to hold it.
   */
  lemma WriteMemorySizedLayout(address: int, data: Data, addressLength: int, sizeLength: int)
    requires 0 <= addressLength <= 4 && 0 <= sizeLength <= 4 && ValidData(data)
    requires |DataBytes(data)| < Pow256(sizeLength)
    ensures var b := HexToBytes(WriteMemoryByAddressSized(address, data, addressLength, sizeLength));
            |b| == 2 + addressLength + sizeLength + |DataBytes(data)| && b[0] == WriteMemoryByAddressSid
            && b[1] / 16 == addressLength && b[1] % 16 == sizeLength
            && BigEndianValue(b[2..2 + addressLength]) == address % Pow256(addressLength)
            && BigEndianValue(b[2 + addressLength..2 + addressLength + sizeLength]) == |DataBytes(data)|
            && b[2 + addressLength + sizeLength..] == DataBytes(data)
  {
    var dataBytes := DataBytes(data);
    SizedRequestFields(address, data, addressLength, sizeLength);
    FormatByteNibbles(addressLength, sizeLength);
    BigEndianRecombines(address, addressLength);
    BigEndianRecombines(|dataBytes|, sizeLength);
    DivModUnique(|dataBytes|, Pow256(sizeLength), 0, |dataBytes|);
  }

  /** `clearDTC`: three bytes of DTC group, all of them 0xFF for the default group. */
  lemma ClearDtcLayout(groupOfDtc: int)
    ensures var b := HexToBytes(ClearDtc(groupOfDtc));
            |b| == 4 && b[0] == ClearDtcSid && BigEndianValue(b[1..]) == groupOfDtc % 0x1000000
  {
    var b := HexToBytes(ClearDtc(groupOfDtc));
    assert b[1..] == BigEndian(groupOfDtc, 3);
    BigEndianRecombines(groupOfDtc, 3);
  }

  /** The default group clears every code. */
  lemma ClearAllDtcs()
    ensures ClearDtc(AllDtcGroups) == "14FFFFFF"
  {
    assert BigEndian(AllDtcGroups, 3) == [0xFF, 0xFF, 0xFF];
    assert BytesToHex([0xFF, 0xFF, 0xFF]) == "FFFFFF" by {
      assert BytesToHex([0xFF]) == "FF";
      assert BytesToHex([0xFF, 0xFF]) == "FF" + "FF" == "FFFF";
      assert BytesToHex([0xFF, 0xFF, 0xFF]) == "FF" + "FFFF" == "FFFFFF";
    }
    assert [ClearDtcSid] + [0xFF, 0xFF, 0xFF] == [ClearDtcSid, 0xFF, 0xFF, 0xFF];
    assert BytesToHex([ClearDtcSid, 0xFF, 0xFF, 0xFF]) == "14" + "FFFFFF" == "14FFFFFF";
  }

  /** The routine control request, field by field. */
  lemma RoutineControlLayout(routineControlType: int, routineIdentifier: Identifier, routineOption: seq<int>)
    requires IsByte(routineControlType) && ValidIdentifier(routineIdentifier) && IsBytes(routineOption)
    ensures var b := HexToBytes(RoutineControl(routineControlType, routineIdentifier, routineOption));
            var n := |IdentifierBytes(routineIdentifier)|;
            b[0] == RoutineControlSid && b[1] == routineControlType
            && b[2..n + 2] == IdentifierBytes(routineIdentifier) && b[n + 2..] == routineOption
  {
    var r := HexToBytes(RoutineControl(routineControlType, routineIdentifier, routineOption));
    assert r == [RoutineControlSid, routineControlType] + IdentifierBytes(routineIdentifier) + routineOption;
  }

  /** The input/output control request, field by field. */
  lemma InputOutputControlLayout(identifier: string, controlParameter: string, controlOption: int)
    requires IsHex(identifier) && IsHex(controlParameter) && IsByte(controlOption)
    ensures var b := HexToBytes(InputOutputControl(identifier, controlParameter, controlOption));
            var n := |identifier| / 2;
            b[0] == InputOutputControlSid && b[1..n + 1] == HexToBytes(identifier)
            && b[n + 1..|b| - 1] == HexToBytes(controlParameter) && b[|b| - 1] == controlOption
  {
    var io := HexToBytes(InputOutputControl(identifier, controlParameter, controlOption));
    assert io == [InputOutputControlSid] + HexToBytes(identifier) + HexToBytes(controlParameter) + [controlOption];
  }

  /**
   * `requestDownload` and `requestUpload` always send eleven bytes: service,
   * data format, 0x44, four address bytes and four size bytes.
   */
  lemma TransferRequestLayout(memoryAddress: int, memorySize: int, dataFormat: int)
    requires IsByte(dataFormat)
    ensures var b := HexToBytes(RequestDownload(memoryAddress, memorySize, dataFormat));
            |b| == 11 && b[0] == RequestDownloadSid && b[1] == dataFormat && b[2] == FourAndFour
            && BigEndianValue(b[3..7]) == memoryAddress % Pow256(4)
            && BigEndianValue(b[7..]) == memorySize % Pow256(4)
    ensures var b := HexToBytes(RequestUpload(memoryAddress, memorySize, dataFormat));
            |b| == 11 && b[0] == RequestUploadSid
            && b[1..] == HexToBytes(RequestDownload(memoryAddress, memorySize, dataFormat))[1..]
  {
    var addressBytes, sizeBytes := BigEndian(memoryAddress, 4), BigEndian(memorySize, 4);
    var b := HexToBytes(RequestDownload(memoryAddress, memorySize, dataFormat));
    assert b == [RequestDownloadSid, dataFormat, FourAndFour] + addressBytes + sizeBytes;
    assert b[3..7] == addressBytes && b[7..] == sizeBytes;
    BigEndianRecombines(memoryAddress, 4);
    BigEndianRecombines(memorySize, 4);
  }

  /** `requestTransferExit` is the bare service identifier. */
  lemma TransferExitAndData(blockSequenceCounter: int, data: Data)
    requires IsByte(blockSequenceCounter) && ValidData(data)
    ensures RequestTransferExit() == "37"
    ensures HexToBytes(TransferData(blockSequenceCounter, data)) == [TransferDataSid, blockSequenceCounter] + DataBytes(data)
  {
    assert BytesToHex([RequestTransferExitSid]) == "37" + BytesToHex([]);
  }

  // Properties of the responses

  /**
   * The four outcomes of `parseResponse`: an error object exactly for an empty
   * reply, a throw exactly for a truncated negative reply, a negative response
   * exactly for a reply starting with 0x7F, a positive one otherwise.
   */
  lemma ParseResponseOutcomes(response: string)
    requires IsHex(response)
    ensures var b, r := HexToBytes(response), ParseResponse(response);
            (r == Success(ErrorResponse("Empty response")) <==> b == [])
            && (r.Failure? <==> b != [] && b[0] == NegativeResponseSid && |b| < 3)
            && (r.Success? && r.value.NegativeResponse? <==> b != [] && b[0] == NegativeResponseSid && |b| >= 3)
            && (r.Success? && r.value.PositiveResponse? <==> b != [] && b[0] != NegativeResponseSid)
  {
  }

  /** A positive reply to a service carries the service identifier back, and its data in canonical hex. */
  lemma PositiveResponseRoundTrip(service: int, data: seq<int>)
    requires IsByte(service + PositiveResponseOffset) && service + PositiveResponseOffset != NegativeResponseSid
    requires IsBytes(data)
    ensures ParseResponse(BuildCommand(service + PositiveResponseOffset, data))
         == Success(PositiveResponse(service, BytesToHex(data)))
  {
    assert ([service + PositiveResponseOffset] + data)[1..] == data;
  }

  /** A negative reply names the rejected service and the response code. */
  lemma NegativeResponseRoundTrip(service: int, nrc: int, rest: seq<int>)
    requires IsByte(service) && IsByte(nrc) && IsBytes(rest)
    ensures ParseResponse(BuildCommand(NegativeResponseSid, [service, nrc] + rest))
         == Success(NegativeResponse(service, nrc, NrcDescription(nrc)))
  {
  }

  /** A positive reply to a read of data identifier 0xF190 (the VIN). */
  lemma PositiveResponseExample()
    ensures ParseResponse("6203F190") == Success(PositiveResponse(0x22, "03F190"))
  {
    var data := [0x03, 0xF1, 0x90];
    assert BytesToHex(data) == "03F190" by {
      assert BytesToHex([0x90]) == "90";
      assert BytesToHex([0xF1, 0x90]) == "F1" + "90" == "F190";
      assert BytesToHex(data) == "03" + "F190" == "03F190";
    }
    assert BytesToHex([0x62] + data) == "62" + "03F190" == "6203F190";
    PositiveResponseRoundTrip(0x22, data);
  }

  /** A security access request rejected with "invalid key". */
  lemma NegativeResponseExample()
    ensures ParseResponse("7F2735") == Success(NegativeResponse(0x27, 0x35, "Invalid Key"))
  {
    assert BytesToHex([0x7F] + ([0x27, 0x35] + [])) == "7F2735" by {
      assert BytesToHex([0x35]) == "35";
      assert BytesToHex([0x27, 0x35]) == "27" + "35" == "2735";
      assert [0x7F] + ([0x27, 0x35] + []) == [0x7F, 0x27, 0x35];
      assert BytesToHex([0x7F, 0x27, 0x35]) == "7F" + "2735" == "7F2735";
    }
    NegativeResponseRoundTrip(0x27, 0x35, []);
  }

  /** A negative reply without its response code throws. */
  lemma TruncatedNegativeResponse()
    ensures ParseResponse("7F27").Failure?
  {
    assert BytesToHex([0x7F, 0x27]) == "7F27" by {
      assert BytesToHex([0x27]) == "27";
      assert BytesToHex([0x7F, 0x27]) == "7F" + "27" == "7F27";
    }
    HexRoundTrip([0x7F, 0x27]);
  }

  /** Exactly the twelve listed codes have a text of their own; every other code gets the generic text. */
  lemma NrcDescribedCodes(nrc: int)
    ensures nrc !in DescribedNrcs <==> NrcDescription(nrc) == UnknownNrcPrefix + NumberToHexString(nrc)
  {
    assert (UnknownNrcPrefix + NumberToHexString(nrc))[0] == 'U';
  }

  /**
   * The generic text ends in the code as unpadded lower-case hex digits,
   * which read back as the code.
   */
  lemma UnknownNrcText(nrc: int)
    requires 0 <= nrc && nrc !in DescribedNrcs
    ensures var d := NrcDescription(nrc);
            |d| > |UnknownNrcPrefix| && d[..|UnknownNrcPrefix|] == UnknownNrcPrefix
            && var digits := d[|UnknownNrcPrefix|..];
            (forall i :: 0 <= i < |digits| ==> '0' <= digits[i] <= '9' || 'a' <= digits[i] <= 'f')
            && (nrc > 0 ==> digits[0] != '0')
            && DigitsValue(digits) == nrc
  {
    var d := NrcDescription(nrc);
    assert d[|UnknownNrcPrefix|..] == LowerHexDigits(nrc);
    LowerHexRoundTrip(nrc);
  }

  /** Codes the `nrc` table declares but the description table lacks fall back to the generic text. */
  lemma DeclaredCodesWithoutText()
    ensures NrcDescription(0x14) == "Unknown NRC: 0x14"
    ensures NrcDescription(0x7E) == "Unknown NRC: 0x7e"
    ensures NrcDescription(0x7F) == "Unknown NRC: 0x7f"
  {
  }
}
