/**
 * The VW/Audi KWP2000-style request builders.  Every request is the service
 * byte followed by its parameters, rendered as `Uds.BuildCommand` renders it;
 * a channel, block or component number goes out as two big-endian bytes,
 * `[(n >> 8) & 0xFF, n & 0xFF]`, which is `numberToBytes(n, 2)`.
 */
module VwProtocol {
  import opened Hex
  import Uds

  const ReadEcuIdentificationSid := 0x1A
  const ReadDataByLocalIdSid := 0x21
  const ReadCodingSid := 0x19
  const WriteDataByCommonIdSid := 0x2E
  const StartRoutineByLocalIdSid := 0x31
  const SecurityAccessSid := 0x27

  const DefaultWorkshopCode := 0x0000
  const DefaultTestType := 0x01
  /** Identification type 0x9A asks for all identification data. */
  const DefaultIdentType := 0x9A

  /** Two big-endian bytes recombine to the number modulo `2^16`. */
  lemma WordRecombines(n: int)
    ensures |BigEndian(n, 2)| == 2 && BigEndianValue(BigEndian(n, 2)) == n % 0x1_0000
  {
    BigEndianRecombines(n, 2);
  }

  function ReadAdaptation(channelNumber: int): string
  {
    Uds.BuildCommand(ReadDataByLocalIdSid, BigEndian(channelNumber, 2))
  }

  function WriteAdaptation(channelNumber: int, value: int, workshopCode: int): string
  {
    Uds.BuildCommand(WriteDataByCommonIdSid,
                     BigEndian(channelNumber, 2) + BigEndian(value, 2) + BigEndian(workshopCode, 2))
  }

  function ReadCoding(): string
  {
    Uds.BuildCommand(ReadCodingSid, [0x00])
  }

  /** The coding as hex text or as bytes, then the workshop code. */
  function WriteCoding(codingData: Uds.Data, workshopCode: int): string
    requires Uds.ValidData(codingData)
  {
    Uds.BuildCommand(WriteDataByCommonIdSid, Uds.DataBytes(codingData) + BigEndian(workshopCode, 2))
  }

  /** Start routine 0x00 on the channel. */
  function ResetAdaptation(channelNumber: int): string
  {
    Uds.BuildCommand(StartRoutineByLocalIdSid, [0x00] + BigEndian(channelNumber, 2))
  }

  function ReadMeasuringBlock(blockNumber: int): string
  {
    Uds.BuildCommand(ReadDataByLocalIdSid, BigEndian(blockNumber, 2))
  }

  function ComponentTest(componentId: int, testType: int): string
    requires IsByte(testType)
  {
    Uds.BuildCommand(StartRoutineByLocalIdSid, [testType] + BigEndian(componentId, 2))
  }

  function ReadEcuIdentification(identType: int): string
    requires IsByte(identType)
  {
    Uds.BuildCommand(ReadEcuIdentificationSid, [identType])
  }

  /** Security access with the access level and a two-byte PIN. */
  function Login(accessLevel: int, pin: int): string
    requires IsByte(accessLevel)
  {
    Uds.BuildCommand(SecurityAccessSid, [accessLevel] + BigEndian(pin, 2))
  }

  /**
   * Reading an adaptation channel sends service 0x21 and the channel number,
   * which the receiver reads back modulo `2^16`; reading a measuring block
   * sends exactly the same bytes.
   */
  lemma AdaptationReadLayout(channelNumber: int)
    ensures var b := HexToBytes(ReadAdaptation(channelNumber));
            |b| == 3 && b[0] == ReadDataByLocalIdSid && BigEndianValue(b[1..]) == channelNumber % 0x1_0000
    ensures ReadMeasuringBlock(channelNumber) == ReadAdaptation(channelNumber)
  {
    WordRecombines(channelNumber);
  }

  /** `writeAdaptation` is always seven bytes: service, channel, value and workshop code, two bytes each. */
  lemma WriteAdaptationLayout(channelNumber: int, value: int, workshopCode: int)
    ensures var b := HexToBytes(WriteAdaptation(channelNumber, value, workshopCode));
            |b| == 7 && b[0] == WriteDataByCommonIdSid
            && BigEndianValue(b[1..3]) == channelNumber % 0x1_0000
            && BigEndianValue(b[3..5]) == value % 0x1_0000
            && BigEndianValue(b[5..]) == workshopCode % 0x1_0000
  {
    var channel, val, code := BigEndian(channelNumber, 2), BigEndian(value, 2), BigEndian(workshopCode, 2);
    var b := HexToBytes(WriteAdaptation(channelNumber, value, workshopCode));
    assert b == [WriteDataByCommonIdSid] + channel + val + code;
    assert b[1..3] == channel && b[3..5] == val && b[5..] == code;
    WordRecombines(channelNumber);
    WordRecombines(value);
    WordRecombines(workshopCode);
  }

  /** `writeCoding`: service 0x2E, the coding bytes unchanged, then the two-byte workshop code. */
  lemma WriteCodingLayout(codingData: Uds.Data, workshopCode: int)
    requires Uds.ValidData(codingData)
    ensures var b := HexToBytes(WriteCoding(codingData, workshopCode));
            var n := |Uds.DataBytes(codingData)|;
            |b| == n + 3 && b[0] == WriteDataByCommonIdSid && b[1..n + 1] == Uds.DataBytes(codingData)
            && BigEndianValue(b[n + 1..]) == workshopCode % 0x1_0000
  {
    var coding, code := Uds.DataBytes(codingData), BigEndian(workshopCode, 2);
    var b := HexToBytes(WriteCoding(codingData, workshopCode));
    assert b == [WriteDataByCommonIdSid] + coding + code;
    assert b[|coding| + 1..] == code;
    WordRecombines(workshopCode);
  }

  /** `readCoding` takes no argument and is always the same request. */
  lemma ReadCodingRequest()
    ensures ReadCoding() == "1900"
  {
    assert BytesToHex([0x00]) == "00";
    assert [ReadCodingSid] + [0x00] == [0x19, 0x00];
    assert BytesToHex([0x19, 0x00]) == "19" + "00" == "1900";
  }

  /**
   * `componentTest` is routine `testType` on the component, and
   * `resetAdaptation` is the same request with routine 0x00.
   */
  lemma RoutineRequests(componentId: int, testType: int)
    requires IsByte(testType)
    ensures var b := HexToBytes(ComponentTest(componentId, testType));
            |b| == 4 && b[0] == StartRoutineByLocalIdSid && b[1] == testType
            && BigEndianValue(b[2..]) == componentId % 0x1_0000
    ensures ResetAdaptation(componentId) == ComponentTest(componentId, 0x00)
  {
    var b := HexToBytes(ComponentTest(componentId, testType));
    assert b == [StartRoutineByLocalIdSid, testType] + BigEndian(componentId, 2);
    assert b[2..] == BigEndian(componentId, 2);
    WordRecombines(componentId);
  }

  /** `login`: the access level, then the PIN as two big-endian bytes. */
  lemma LoginLayout(accessLevel: int, pin: int)
    requires IsByte(accessLevel)
    ensures var b := HexToBytes(Login(accessLevel, pin));
            |b| == 4 && b[0] == SecurityAccessSid && b[1] == accessLevel
            && BigEndianValue(b[2..]) == pin % 0x1_0000
  {
    var b := HexToBytes(Login(accessLevel, pin));
    assert b == [SecurityAccessSid, accessLevel] + BigEndian(pin, 2);
    assert b[2..] == BigEndian(pin, 2);
    WordRecombines(pin);
  }

  /** `readECUIdentification`: the identification service and the requested identification type. */
  lemma IdentificationRequest(identType: int)
    requires IsByte(identType)
    ensures HexToBytes(ReadEcuIdentification(identType)) == [ReadEcuIdentificationSid, identType]
    ensures ReadEcuIdentification(DefaultIdentType) == "1A9A"
  {
    assert [ReadEcuIdentificationSid] + [DefaultIdentType] == [0x1A, 0x9A];
    assert BytesToHex([0x1A, 0x9A]) == "1A" + "9A";
  }
}

/**
 * The Nissan Consult request builders and response check.  Consult is
 * proprietary; the command bytes are the ones the source lists.
 */
module NissanProtocol {
  import opened Wrappers
  import opened Hex
  import Uds

  const EcuIdentificationCommand := 0xD0
  const ReadDataStreamCommand := 0x5A
  const SelfDiagnosticResultsCommand := 0xD3
  const ClearSelfDiagnosticResultsCommand := 0xC3
  const SwitchDiagnosticModeCommand := 0xD6
  const ActiveTestCommand := 0xE1
  const ReadRomCommand := 0xE2
  const WriteRamCommand := 0xE3
  const ReadWorkSupportCommand := 0xE5

  /** The values of `dataStreamParams`, engine speed 0x00 to battery voltage 0x0C, in declaration order. */
  const DataStreamParams: seq<int> := [0x00, 0x01, 0x02, 0x03, 0x04, 0x05, 0x06, 0x07, 0x08, 0x09, 0x0A, 0x0B, 0x0C]

  /** How many parameters an empty request asks for: `slice(0, 16)`. */
  const DefaultStreamLimit := 16

  /** `state` 0x01 activates an actuator. */
  const DefaultTestState := 0x01

  const EcuErrorByte := 0xFF

  function ReadEcuIdentification(): string
  {
    Uds.BuildCommand(EcuIdentificationCommand, [])
  }

  /** The first sixteen standard parameters when none are given. */
  function StreamParameters(parameters: seq<int>): (ps: seq<int>)
    ensures IsBytes(parameters) ==> IsBytes(ps)
  {
    if |parameters| == 0 then
      DataStreamParams[..if |DataStreamParams| < DefaultStreamLimit then |DataStreamParams| else DefaultStreamLimit]
    else parameters
  }

  function ReadDataStream(parameters: seq<int>): string
    requires IsBytes(parameters)
  {
    Uds.BuildCommand(ReadDataStreamCommand, StreamParameters(parameters))
  }

  function ReadSelfDiagnostic(): string
  {
    Uds.BuildCommand(SelfDiagnosticResultsCommand, [])
  }

  function ClearSelfDiagnostic(): string
  {
    Uds.BuildCommand(ClearSelfDiagnosticResultsCommand, [])
  }

  /** Mode 0x01 is standard, 0x02 enhanced. */
  function SwitchDiagnosticMode(mode: int): string
    requires IsByte(mode)
  {
    Uds.BuildCommand(SwitchDiagnosticModeCommand, [mode])
  }

  function ActiveTest(testId: int, state: int): string
    requires IsByte(testId) && IsByte(state)
  {
    Uds.BuildCommand(ActiveTestCommand, [testId, state])
  }

  function ReadWorkSupport(address: int, length: int): string
    requires IsByte(length)
  {
    Uds.BuildCommand(ReadWorkSupportCommand, BigEndian(address, 2) + [length])
  }

  /** What `writeRAM` accepts is hex text or a single number, as for `writeDataByIdentifier`. */
  function WriteRam(address: int, data: Uds.HexOrByte): string
    requires Uds.ValidHexOrByte(data)
  {
    Uds.BuildCommand(WriteRamCommand, BigEndian(address, 2) + Uds.HexOrByteBytes(data))
  }

  function ReadRom(address: int, length: int): string
    requires IsByte(length)
  {
    Uds.BuildCommand(ReadRomCommand, BigEndian(address, 2) + [length])
  }

  /** `parseResponse`: the bytes themselves, unless empty or flagged by the ECU. */
  function ParseResponse(response: string): Result<seq<int>, string>
    requires IsHex(response)
  {
    var bytes := HexToBytes(response);
    if |bytes| == 0 then Failure("Empty response")
    else if bytes[0] == EcuErrorByte then Failure("ECU returned error")
    else Success(bytes)
  }

  /** The commands without parameters are a single byte each. */
  lemma SingleByteCommands()
    ensures HexToBytes(ReadEcuIdentification()) == [EcuIdentificationCommand]
    ensures HexToBytes(ReadSelfDiagnostic()) == [SelfDiagnosticResultsCommand]
    ensures HexToBytes(ClearSelfDiagnostic()) == [ClearSelfDiagnosticResultsCommand]
    ensures ReadEcuIdentification() == "D0"
  {
    assert [EcuIdentificationCommand] + [] == [0xD0];
    assert BytesToHex([0xD0]) == "D0";
  }

  /**
   * An empty stream request asks for all thirteen standard parameters: the
   * slice to sixteen keeps every one of them.
   */
  lemma DefaultDataStream()
    ensures HexToBytes(ReadDataStream([])) == [ReadDataStreamCommand] + DataStreamParams
    ensures |HexToBytes(ReadDataStream([]))| == 14
  {
    assert StreamParameters([]) == DataStreamParams;
  }

  /** Switching mode and running an active test send their byte arguments after the command. */
  lemma ByteArgumentCommands(mode: int, testId: int, state: int)
    requires IsByte(mode) && IsByte(testId) && IsByte(state)
    ensures HexToBytes(SwitchDiagnosticMode(mode)) == [SwitchDiagnosticModeCommand, mode]
    ensures HexToBytes(ActiveTest(testId, state)) == [ActiveTestCommand, testId, state]
  {
  }

  /** Explicit parameters are sent as given, after the stream command. */
  lemma ExplicitDataStream(parameters: seq<int>)
    requires IsBytes(parameters) && parameters != []
    ensures HexToBytes(ReadDataStream(parameters)) == [ReadDataStreamCommand] + parameters
  {
  }

  /**
   * The memory requests put the address in two big-endian bytes; reading ROM
   * and reading work support differ only in the command byte.
   */
  lemma AddressRequestLayout(address: int, length: int)
    requires IsByte(length)
    ensures var b := HexToBytes(ReadRom(address, length));
            |b| == 4 && b[0] == ReadRomCommand && BigEndianValue(b[1..3]) == address % 0x1_0000 && b[3] == length
    ensures var w := HexToBytes(ReadWorkSupport(address, length));
            w[0] == ReadWorkSupportCommand && w[1..] == HexToBytes(ReadRom(address, length))[1..]
  {
    var addr := BigEndian(address, 2);
    var b := HexToBytes(ReadRom(address, length));
    assert b == [ReadRomCommand] + addr + [length];
    assert b[1..3] == addr;
    BigEndianRecombines(address, 2);
  }

  /** `writeRAM` with a number writes that one byte after the address. */
  lemma WriteRamLayout(address: int, data: Uds.HexOrByte)
    requires Uds.ValidHexOrByte(data)
    ensures var b := HexToBytes(WriteRam(address, data));
            |b| == 3 + |Uds.HexOrByteBytes(data)| && b[0] == WriteRamCommand
            && BigEndianValue(b[1..3]) == address % 0x1_0000 && b[3..] == Uds.HexOrByteBytes(data)
    ensures data.OneByte? ==> HexToBytes(WriteRam(address, data))[3..] == [data.value]
  {
    var addr := BigEndian(address, 2);
    var b := HexToBytes(WriteRam(address, data));
    assert b == [WriteRamCommand] + addr + Uds.HexOrByteBytes(data);
    assert b[1..3] == addr && b[3..] == Uds.HexOrByteBytes(data);
    BigEndianRecombines(address, 2);
  }

  /** The three outcomes of `parseResponse`, each with its exact condition. */
  lemma ParseResponseOutcomes(response: string)
    requires IsHex(response)
    ensures ParseResponse(response) == Failure("Empty response") <==> response == []
    ensures ParseResponse(response) == Failure("ECU returned error") <==>
              |response| >= 2 && DigitValue(response[0]) == 0xF && DigitValue(response[1]) == 0xF
    ensures ParseResponse(response).Success? && IsUpperHex(response) ==>
              BytesToHex(ParseResponse(response).value) == response
  {
    if response != [] {
      HexToBytesAt(response, 0);
    }
    if IsUpperHex(response) {
      HexCanonical(response);
    }
  }

  /** A reply the ECU did not flag comes back byte for byte. */
  lemma ParseResponseRoundTrip(bytes: seq<int>)
    requires IsBytes(bytes) && bytes != [] && bytes[0] != EcuErrorByte
    ensures IsHex(BytesToHex(bytes)) && ParseResponse(BytesToHex(bytes)) == Success(bytes)
  {
    HexRoundTrip(bytes);
  }
}

/** `ManufacturerProtocols.getProtocol`: which builder set a manufacturer's name selects. */
module ManufacturerProtocols {
  import opened Wrappers
  import opened Text

  /** The two builder sets the selector holds. */
  datatype Protocol = VwProtocol | NissanProtocol

  /** Names whose appearance selects the VW set. */
  const VwFamily: seq<string> := ["vw", "audi", "volkswagen"]

  /** Names whose appearance selects the Nissan set, when no VW name appears. */
  const NissanFamily: seq<string> := ["nissan", "infiniti"]

  /** Substring tests on the lower-cased name, VW first. */
  function GetProtocol(manufacturer: string): Option<Protocol>
  {
    var mfg := Lower(manufacturer);
    if Contains(mfg, "vw") || Contains(mfg, "audi") || Contains(mfg, "volkswagen") then Some(VwProtocol)
    else if Contains(mfg, "nissan") || Contains(mfg, "infiniti") then Some(NissanProtocol)
    else None
  }

  /** Some name of `family` occurs somewhere in `s`. */
  ghost predicate MentionsAny(s: string, family: seq<string>)
  {
    exists k, i :: 0 <= k < |family| && OccursAt(s, family[k], i)
  }

  /**
   * The selector in positional terms: VW exactly when a VW name occurs in
   * the lower-cased name; Nissan exactly when a Nissan name occurs and no VW
   * name does; nothing otherwise.  A name mentioning both families is VW.
   */
  lemma GetProtocolOccurrences(manufacturer: string)
    ensures var mfg := Lower(manufacturer);
            (GetProtocol(manufacturer) == Some(VwProtocol) <==> MentionsAny(mfg, VwFamily))
            && (GetProtocol(manufacturer) == Some(NissanProtocol) <==>
                  !MentionsAny(mfg, VwFamily) && MentionsAny(mfg, NissanFamily))
            && (GetProtocol(manufacturer) == None <==>
                  !MentionsAny(mfg, VwFamily) && !MentionsAny(mfg, NissanFamily))
  {
    var mfg := Lower(manufacturer);
    VwMentions(mfg);
    NissanMentions(mfg);
  }

  lemma VwMentions(s: string)
    ensures MentionsAny(s, VwFamily) <==> Contains(s, "vw") || Contains(s, "audi") || Contains(s, "volkswagen")
  {
    FamilyMentions(s, VwFamily);
    if Contains(s, "vw") || Contains(s, "audi") || Contains(s, "volkswagen") {
      assert Contains(s, VwFamily[0]) || Contains(s, VwFamily[1]) || Contains(s, VwFamily[2]);
    }
  }

  lemma NissanMentions(s: string)
    ensures MentionsAny(s, NissanFamily) <==> Contains(s, "nissan") || Contains(s, "infiniti")
  {
    FamilyMentions(s, NissanFamily);
    if Contains(s, "nissan") || Contains(s, "infiniti") {
      assert Contains(s, NissanFamily[0]) || Contains(s, NissanFamily[1]);
    }
  }

  /** `MentionsAny` is a disjunction of `Contains` over the family, in order. */
  lemma FamilyMentions(s: string, family: seq<string>)
    requires family == VwFamily || family == NissanFamily
    ensures MentionsAny(s, family) <==> exists k :: 0 <= k < |family| && Contains(s, family[k])
  {
    forall k | 0 <= k < |family| {
      ContainsAt(s, family[k]);
    }
    if MentionsAny(s, family) {
      var k, i :| 0 <= k < |family| && OccursAt(s, family[k], i);
      assert Contains(s, family[k]);
    }
    if exists k :: 0 <= k < |family| && Contains(s, family[k]) {
      var k :| 0 <= k < |family| && Contains(s, family[k]);
      var i :| OccursAt(s, family[k], i);
      assert MentionsAny(s, family);
    }
  }

  /** A model name that merely mentions the make still selects it, unlike the exact match of the key dispatch. */
  lemma ModelNameSelectsVw()
    ensures GetProtocol("VW Tiguan") == Some(VwProtocol)
  {
    assert Lower("VW Tiguan")[..2] == "vw";
  }
}
