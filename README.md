# Vehicle diagnostics core, modelled in Dafny

This project models the protocol core of a desktop vehicle-diagnostics tool.
That tool talks to car control units (ECUs) through an OBD adapter:

- **ISO-TP transport** (`isotp.js`, ISO 15765-2). It cuts a payload into
  eight-byte CAN frames and reassembles them. It also builds and reads
  flow-control frames and turns STmin into a separation time.
- **UDS request builder** (`uds.js`, ISO 14229). It builds the hex command
  string of each diagnostic service and classifies replies as positive or
  negative. It also describes negative response codes (NRCs).
- **Security access** (`security.js`). It holds three seed-to-key algorithms
  (VW, Nissan, generic) and the failed-attempt lockout state machine.
- **Manufacturer protocols** (`manufacturerProtocols.js`). It builds VW KWP2000
  commands and Nissan Consult commands, and picks a protocol from a
  manufacturer name.
- **Parameter database** (`parameterDatabase.js`). This is a catalogue of
  readable and writable ECU parameters, kept per manufacturer and per module.
  It supports lookup with a fallback to the standard OBD-II table, validation
  of a value to be written, search, a safety filter, and adding a parameter.
- **Reply parsers of the main process** (`main.js`). These are `hexToASCII`,
  `parseSpeed`, `parseCoolant`, `parseDTC` and `parseDTCCode`, together with
  the `/[0-9A-F]{2}/g` tokenisation they share.

Files and modules:

- `wrappers.dfy` (`Wrappers`): `Option` and `Result`.
- `bits.dfy` (`Bits`): JavaScript `|`, `^`, `<<` and `>>` written arithmetically on naturals.
- `hex.dfy` (`Hex`): the hex and byte codec that every class repeats, `numberToBytes`, and `parseInt(text, 16)`.
- `text.dfy` (`Text`): ASCII `toLowerCase` and `includes`.
- `isotp.dfy` (`IsoTp`).
- `uds.dfy` (`Uds`).
- `security.dfy` (`Security`).
- `manufacturer_protocols.dfy` (`VwProtocol`, `NissanProtocol`, `ManufacturerProtocols`).
- `parameter_database.dfy` (`Parameters`).
- `response_parsers.dfy` (`Responses`).

How each source form is modelled:

- Pure request builders become functions, with lemmas about the bytes they put on the wire.
- Loops in the source become methods whose `while` or `for` loops are proved against a specification function:
  - ISO-TP encode and decode
  - the three key calculations
  - hex decoding
  - `numberToBytes`
  - `hexToASCII`
  - `parseDTC`
  - the database's search and safety filter
- The two objects whose fields change become classes:
  - the security-access state
  - the parameter catalogue

JavaScript objects used as dictionaries are modelled as association lists. A
lookup takes the first match, and an update replaces a key in place or appends
it, so insertion order is kept.

## Model

| member | source | states |
|---|---|---|
| Hex.HexRoundTrip | isotp.js:167-181 | decoding the hex rendering of any byte sequence gives the bytes back |
| Hex.HexCanonical | isotp.js:167-181 | rendering the bytes of an upper-case hex string gives the same string back |
| Hex.ParseHex | isotp.js:167-174 | the pairwise `parseInt(…, 16)` loop computes exactly `HexToBytes` |
| Hex.BytesToHexAppend | uds.js:425-427 | rendering bytes to hex distributes over concatenation |
| Hex.NumberToBytes | uds.js:402-408 | the loop yields `length` bytes, most significant first, each `(num >> 8i) & 0xFF` |
| Hex.BigEndianRecombines | uds.js:402-408 | up to four bytes from `numberToBytes` recombine to the number modulo 256^length |
| Hex.LowerHexRoundTrip | uds.js:389 | the digits of `toString(16)` read back to the number |
| Hex.ParseIntHexRoundTrip | parameterDatabase.js:331 | `parseInt(n.toString(16), 16)` is n for every integer, with or without a `0x` prefix on n ≥ 0 |
| Hex.AllHexRun | parameterDatabase.js:331 | `parseInt` reads an all-hex-digit text to its end |
| Text.Lower | parameterDatabase.js:289 | `toLowerCase` keeps the length and lowercases exactly the letters A-Z |
| Text.ContainsAt | manufacturerProtocols.js:16 | `includes` holds exactly when the substring occurs at some position |
| IsoTp.Encode | isotp.js:29-88 | the frame loop produces exactly the single frame, or the first frame and its consecutive frames |
| IsoTp.FrameCount | isotp.js:34-84 | one frame up to 7 bytes, otherwise 1 + ⌈(n-6)/7⌉ frames |
| IsoTp.SingleFrameShape | isotp.js:34-44 | a short payload becomes one single frame with PCI byte = length, the data and zero padding |
| IsoTp.FirstFrameShape | isotp.js:48-61 | the first frame carries 0x1 and the 12-bit length in its first two bytes, then six data bytes |
| IsoTp.SequenceNumbers | isotp.js:63-84 | consecutive frame k carries sequence number k mod 16 and the next seven bytes of payload, zero padded |
| IsoTp.EveryFrameEightBytes | isotp.js:35-80 | every frame's data is 16 upper-case hex digits (eight bytes) |
| IsoTp.Decode | isotp.js:93-126 | the decoding method computes `DecodeFrames` |
| IsoTp.DecodeMultiFrame | isotp.js:107-123 | the first-frame branch returns the collected bytes cut to the declared length, as `DecodeFrames` does |
| IsoTp.CollectPayloads | isotp.js:109-120 | the loop yields the first frame's bytes after the length, then the payload of every later type-2 frame in input order |
| IsoTp.EncodeDecode | isotp.js:29-126 | decoding what encode produced gives the payload cut to its length modulo 4096 |
| IsoTp.RoundTrip | isotp.js:29-126 | for payloads up to `maxDataLength` bytes, decode(encode(p)) is p |
| IsoTp.OversizedPayloadLost | isotp.js:21-53 | encode ignores `maxDataLength`: a 4096-byte payload decodes to the empty string |
| IsoTp.EncodeCheckedRoundTrip | isotp.js:21-88 | the corrected encoder fails exactly above `maxDataLength` and otherwise round-trips |
| IsoTp.DecodeNone | isotp.js:93-126 | decode gives null exactly for no frames or a first frame of type other than 0 or 1 |
| IsoTp.DecodeSkipsOtherFrames | isotp.js:113-120 | inserting a non-consecutive frame after the first changes nothing |
| IsoTp.DecodeIgnoresSequenceNumbers | isotp.js:113-120 | reassembly never checks sequence numbers: frames differing only there decode alike |
| IsoTp.ReassembledWithinDeclaredLength | isotp.js:102-122 | the result is never longer than the length the first frame declares |
| IsoTp.FlowControlRoundTrip | isotp.js:131-150 | parsing a generated flow-control frame gives the low nibble of status, block size and STmin |
| IsoTp.DefaultFlowControl | isotp.js:131-137 | the default flow-control frame is "300000" |
| IsoTp.CalculateSeparationTime | isotp.js:155-162 | 0-0x7F are milliseconds, 0xF1-0xF9 are hundreds of microseconds, anything else is 0 |
| IsoTp.SeparationTimeRange | isotp.js:155-162 | the separation time is at most 127 ms and is sub-millisecond exactly on 0xF1-0xF9 |
| Uds.UdsSession.constructor | uds.js:7-102 | a session starts in the default session at security level 0 |
| Uds.BuildCommand | uds.js:395-397 | the command is the service byte followed by the parameters, in upper-case hex |
| Uds.IdentifierBytes | uds.js:158-167 | a numeric identifier becomes two big-endian bytes; a hex identifier is decoded as given |
| Uds.ByteParameterRequests | uds.js:107-122 | session control and ECU reset, and likewise readDTC (lines 238-243) and controlDTCSetting (lines 330-335), send the service byte then their byte arguments |
| Uds.SecurityAccessSubFunctions | uds.js:127-143 | requestSeed uses the odd sub-function 2·level-1 and sendKey the even one that follows, with the key appended |
| Uds.TesterPresentSuppression | uds.js:148-153 | the tester-present sub-function has its top bit set exactly when the reply is suppressed |
| Uds.DataIdentifierRequests | uds.js:158-185 | read and write by identifier send the service, the identifier bytes and (for write) the data: the bytes of hex text, or a number as its one byte |
| Uds.FormatByteNibbles | uds.js:190-219 | the address-and-length format byte packs two lengths below 16 into its high and low nibble |
| Uds.FormatByteOverlap | uds.js:207-219 | a data length of 16 or more is not masked: the low nibble keeps its low four bits and the rest are ORed into the address nibble |
| Uds.ReadMemoryLayout | uds.js:190-202 | readMemoryByAddress sends the format byte, the address bytes and the size bytes, which recombine to address and size |
| Uds.ReadMemoryDefaultFormat | uds.js:190-202 | with the default lengths the format byte is 0x32 |
| Uds.WriteMemoryLayout | uds.js:207-219 | writeMemoryByAddress sends the format byte, `addressLength << 4` ORed with the data length, for any length up to 255, the address and then the data; below 16 data bytes the nibbles are the two lengths |
| Uds.WriteMemoryLengthOverflow | uds.js:207-219 | a 16-byte write sends format byte 0x30 and a 17-byte write 0x31, the bytes of a write of 0 and of 1 data bytes |
| Uds.WriteMemorySizedLayout | uds.js:207-219 | the corrected request has the field widths as the two nibbles, and its memorySize field reads back to the number of data bytes |
| Uds.ClearDtcLayout | uds.js:224-233 | clearDTC sends the group as three big-endian bytes, recombining to the group modulo 2^24 |
| Uds.ClearAllDtcs | uds.js:224-233 | clearing all groups sends "14FFFFFF" |
| Uds.InputOutputControlLayout | uds.js:248-256 | input-output control sends the identifier bytes, the control-parameter bytes and finally the option byte |
| Uds.RoutineControlLayout | uds.js:261-270 | routine control sends the type, the identifier bytes and the option bytes |
| Uds.TransferRequestLayout | uds.js:275-306 | request download and upload send the format, 0x44 and four address and four size bytes |
| Uds.TransferExitAndData | uds.js:311-325 | transferData sends the counter then the data; transfer exit is "37" |
| Uds.ParseResponseOutcomes | uds.js:340-368 | an empty reply, a short negative reply, a negative reply and a positive reply are told apart exactly |
| Uds.PositiveResponseRoundTrip | uds.js:340-368 | a positive reply yields the request's service id (reply id − 0x40) and the data in hex |
| Uds.NegativeResponseRoundTrip | uds.js:340-368 | a negative reply yields the rejected service, the code and its description |
| Uds.PositiveResponseExample | uds.js:340-368 | "6203F190" is a positive reply to service 0x22 with data "03F190" |
| Uds.NegativeResponseExample | uds.js:340-390 | "7F2735" is a negative reply to 0x27 with "Invalid Key" |
| Uds.TruncatedNegativeResponse | uds.js:340-368 | "7F27" is malformed |
| Uds.NrcDescribedCodes | uds.js:373-390 | a code outside the twelve described ones gets the "Unknown NRC: 0x" text, and only those |
| Uds.UnknownNrcText | uds.js:373-390 | the unknown-code text ends in the code's lower-case hex digits |
| Uds.DeclaredCodesWithoutText | uds.js:373-390 | codes the constructor (lines 7-102) declares but the table does not describe (0x14, 0x7E, 0x7F) read as unknown |
| Security.SecurityAccess.constructor | security.js:7-14 | the state starts unlocked, at level 0, with no seed and no attempts |
| Security.SecurityAccess.CalculateVwSeedKey | security.js:20-38 | the VW loop computes the XOR/rotate accumulator and the two key bytes |
| Security.SecurityAccess.CalculateNissanSeedKey | security.js:43-62 | the Nissan loop computes the 16-bit shift-and-add accumulator and the two key bytes |
| Security.SecurityAccess.CalculateGenericSeedKey | security.js:97-109 | the generic loop computes the 32-bit XOR accumulator and its two low bytes |
| Security.SecurityAccess.CalculateKey | security.js:67-92 | locked out gives the lockout error; otherwise the seed is stored and the manufacturer's algorithm runs |
| Security.SecurityAccess.RecordAttempt | security.js:114-130 | success raises the level and clears attempts; the third failure locks out and schedules the expiry |
| Security.SecurityAccess.LockoutExpired | security.js:124-127 | the timer callback unlocks and clears the attempt count |
| Security.SecurityAccess.Reset | security.js:135-140 | reset clears level, seed, attempts and lockout, and leaves scheduled expiries pending |
| Security.ThreeStrikes | security.js:67-130 | after three failures keys are refused, and after the expiry the VW key is computed again |
| Security.RotateLeftBits | security.js:30-31 | the VW rotation is an 8-bit rotate left by one, and rotating back gives the byte |
| Security.VwKeySmallLevel | security.js:20-38 | for levels below 256 the VW key is [accumulator XOR level, 0] and ends in "00" |
| Security.NissanAccumulatorStep | security.js:48-52 | each seed byte updates the Nissan accumulator by one 16-bit shift-and-add step |
| Security.NissanLowByteIgnoresLevel | security.js:55-60 | the low Nissan key byte is the accumulator's low byte whatever the level |
| Security.NissanHighByte | security.js:55-60 | the high Nissan key byte is the accumulator's high byte XOR the level |
| Security.GenericKeySwapsFirstTwo | security.js:97-109 | for seeds of 2-4 bytes the generic key is the first two seed bytes swapped |
| Security.GenericLowTwoBytes | security.js:97-109 | the generic accumulator's low 16 bits are seed[0] + 256·seed[1] |
| Security.AlgorithmIgnoresCase | security.js:74 | algorithm selection ignores letter case |
| Security.VwNamesSelectVw | security.js:74-80 | "vw", "VW" and "Audi" select the VW algorithm |
| Security.VehicleNameIsGeneric | security.js:74-90 | a full vehicle name such as "VW Tiguan" falls to the generic algorithm |
| Security.NissanNamesSelectNissan | security.js:81-85 | the Nissan brands select the Nissan algorithm |
| Security.GenericIgnoresLevel | security.js:86-109 | the generic algorithm's key does not depend on the level |
| VwProtocol.WordRecombines | manufacturerProtocols.js:89-99 | a 16-bit field is sent as two big-endian bytes of the value modulo 2^16 |
| VwProtocol.AdaptationReadLayout | manufacturerProtocols.js:79-84 | adaptation read is three bytes: service 0x21, then the channel as two big-endian bytes; a measuring-block read (lines 137-142) is the same request |
| VwProtocol.WriteAdaptationLayout | manufacturerProtocols.js:89-99 | adaptation write is 0x2E, channel, 16-bit value and 16-bit workshop code |
| VwProtocol.ReadCodingRequest | manufacturerProtocols.js:104-106 | reading the coding sends "1900" |
| VwProtocol.WriteCodingLayout | manufacturerProtocols.js:111-121 | coding write is 0x2E, the coding bytes, then the workshop code as two big-endian bytes |
| VwProtocol.RoutineRequests | manufacturerProtocols.js:126-153 | component test is 0x31, the test type, then the component id as two big-endian bytes; adaptation reset is test type 0x00 |
| VwProtocol.LoginLayout | manufacturerProtocols.js:167-173 | login is 0x27, the access level and the 16-bit PIN |
| VwProtocol.IdentificationRequest | manufacturerProtocols.js:158-162 | identification is 0x1A and the type byte; the default asks for all identification, "1A9A" |
| NissanProtocol.SingleByteCommands | manufacturerProtocols.js:257-284 | identification, self-diagnosis read and clear are the single bytes D0, D3, C3 |
| NissanProtocol.DefaultDataStream | manufacturerProtocols.js:226-270 | an empty list asks for the 13 declared stream parameters |
| NissanProtocol.ExplicitDataStream | manufacturerProtocols.js:264-270 | a given list is sent after 0x5A unchanged |
| NissanProtocol.AddressRequestLayout | manufacturerProtocols.js:305-335 | ROM read and work-support read send the command, a 16-bit address and the length |
| NissanProtocol.ByteArgumentCommands | manufacturerProtocols.js:289-300 | mode switch is D6 and the mode; active test is E1, the test id and the state |
| NissanProtocol.WriteRamLayout | manufacturerProtocols.js:316-324 | RAM write is 0xE3, the 16-bit address and the data bytes |
| NissanProtocol.ParseResponseOutcomes | manufacturerProtocols.js:340-356 | an empty reply and a reply starting 0xFF are errors; otherwise the bytes are returned |
| NissanProtocol.ParseResponseRoundTrip | manufacturerProtocols.js:340-356 | a reply not starting with 0xFF parses back to its bytes |
| ManufacturerProtocols.GetProtocolOccurrences | manufacturerProtocols.js:14-22 | VW is chosen when the lowered name contains vw, audi or volkswagen; otherwise Nissan for nissan or infiniti; otherwise none |
| ManufacturerProtocols.VwMentions | manufacturerProtocols.js:16 | the VW family test is the disjunction of the three substrings |
| ManufacturerProtocols.NissanMentions | manufacturerProtocols.js:18 | the Nissan family test is the disjunction of the two substrings |
| ManufacturerProtocols.ModelNameSelectsVw | manufacturerProtocols.js:14-22 | "VW Tiguan" selects the VW protocol |
| Parameters.FindPut | parameterDatabase.js:419-431 | after an update the key maps to the new value and every other key is unchanged |
| Parameters.PutKeys | parameterDatabase.js:419-431 | an update keeps the key order and appends only a new key |
| Parameters.PutPut | parameterDatabase.js:419-431 | a second update of the same key overrides the first |
| Parameters.BuiltInManufacturers | parameterDatabase.js:7-283 | the built-in catalogue holds vw, nissan and standard, and nothing else |
| Parameters.NoFallbackToStandard | parameterDatabase.js:288-314 | when the manufacturer has the module, lookup uses only that module's table |
| Parameters.FallbackToStandard | parameterDatabase.js:288-314 | otherwise lookup uses the standard table and the module listing is empty |
| Parameters.BuiltInLookups | parameterDatabase.js:288-301 | Ford's engine 0x010C is the standard Engine RPM entry; VW's engine has no 0x010C |
| Parameters.AcceptedExactly | parameterDatabase.js:319-359 | a value is accepted exactly when the parameter exists, is writable, parses, is in bounds and is listed, with the parameter's warning |
| Parameters.RejectedInOrder | parameterDatabase.js:319-359 | each rejection reason holds exactly when all earlier checks passed and its own check fails |
| Parameters.LabelledIsListed | parameterDatabase.js:346-352 | an allowed value is one of the labelled keys |
| Parameters.NonHexTextRejected | parameterDatabase.js:331-334 | a text value with no hex digits is an invalid number |
| Parameters.BuiltInValidation | parameterDatabase.js:319-359 | on the built-in data, VW engine 0x2001 accepts 2, rejects 5 as out of 0-3, and Ford 0x010C is read-only |
| Parameters.CrashFreeExactly | parameterDatabase.js:374-381 | the search does not throw exactly when no visited entry lacks a description while its name misses the term |
| Parameters.HitsExactly | parameterDatabase.js:374-381 | a search hit is an entry whose name or description contains the term |
| Parameters.WithSafetyExactly | parameterDatabase.js:398-410 | the safety filter keeps exactly the entries with that safety level |
| Parameters.EntriesExactly | parameterDatabase.js:373-383 | the visited entries are exactly the (module, id, parameter) triples of the catalogue |
| Parameters.EntriesAppend | parameterDatabase.js:373-383 | entries are visited module by module in insertion order |
| Parameters.EntryPosition | parameterDatabase.js:373-383 | parameter j of module i is visited at position (entries before module i) + j |
| Parameters.SearchExactly | parameterDatabase.js:364-388 | a successful search returns exactly the hits among the manufacturer's entries |
| Parameters.SearchThrows | parameterDatabase.js:364-388 | the search throws exactly when some entry lacks a description while its name misses the term |
| Parameters.SafetyExactly | parameterDatabase.js:393-414 | an unknown manufacturer gives no results; otherwise exactly the entries at that safety level |
| Parameters.WithParameterEntries | parameterDatabase.js:419-431 | adding sets that one entry and leaves every other entry unchanged |
| Parameters.AddingShadowsStandard | parameterDatabase.js:419-431 | adding a parameter to a module the manufacturer lacks makes `getParameter` (lines 288-301) stop falling back, hiding the standard table's other entries for that module |
| Parameters.SearchModule | parameterDatabase.js:374-381 | the inner loop returns the module's hits, or throws if an entry lacks a description |
| Parameters.SafetyModule | parameterDatabase.js:398-410 | the inner loop keeps exactly the module's entries at the requested safety level, in order |
| Parameters.ParameterDatabase.constructor | parameterDatabase.js:7-283 | the database starts with the built-in catalogue |
| Parameters.ParameterDatabase.AddParameter | parameterDatabase.js:419-431 | the catalogue becomes `WithParameter` of the old one, and the new parameter is found at once |
| Parameters.ParameterDatabase.SearchParameters | parameterDatabase.js:364-388 | the nested loops compute exactly `SearchResult` |
| Parameters.ParameterDatabase.GetParametersBySafety | parameterDatabase.js:393-414 | the nested loops compute exactly `SafetyResult` |
| Responses.Tokens | main.js:801 | the `[0-9A-F]{2}` scan yields at most one token per two characters |
| Responses.TokensOfHex | main.js:801 | scanning a byte sequence's hex rendering yields exactly its byte pairs |
| Responses.SkipSeparator | main.js:801 | a character that is not an upper-case hex digit is skipped |
| Responses.TokenExamples | main.js:801 | a trailing odd digit is dropped, and lower-case digits are not matched |
| Responses.SpacedReply | main.js:801 | "41 0D 32" scans as three tokens |
| Responses.HexToAscii | main.js:733-742 | the loop computes `AsciiText`: the printable characters of the two-digit chunks |
| Responses.AsciiText | main.js:733-742 | the text keeps only printable characters and is at most half the hex length, rounded down, since an odd last chunk adds nothing |
| Responses.OneCharNotPrintable | main.js:735-740 | a one-character chunk `hex.substr(i, 2)` parses to NaN or to at most 15, so it never yields a character |
| Responses.AsciiOfBytes | main.js:733-742 | on a byte sequence's hex, the result is its printable bytes in order |
| Responses.AsciiRoundTrip | main.js:733-742 | printable text encoded as hex bytes decodes back to itself |
| Responses.ParseSpeed | main.js:800-806 | the speed is one byte, and 0 when fewer than three tokens were found |
| Responses.ParseCoolant | main.js:808-814 | the temperature lies in -40..215, and is 0 when fewer than three tokens were found |
| Responses.ReplyValues | main.js:800-814 | on a reply's bytes, speed is the third byte and coolant is the third byte minus 40 |
| Responses.SpeedExample | main.js:800-806 | "41 0D 32" reads as speed 0x32 |
| Responses.DtcCodeAsWrittenLosesCode | main.js:859-866 | as written, the code is always "P0undefined" then the second and third hex digits |
| Responses.DtcCodeAsWrittenExample | main.js:859-866 | bytes 01 33 give "P0undefined13" where the corrected code is "P0133" |
| Responses.DtcRoundTrip | main.js:859-866 | the corrected code decodes back to its two bytes |
| Responses.DtcCanonical | main.js:859-866 | every decodable code is the code of the bytes it decodes to |
| Responses.ParseDtc | main.js:840-857 | the loop computes `DtcCodes` of the tokens: the announced pairs that are present, each composed with the corrected SAE code `DtcCode` rather than the as-written `parseDTCCode` (see Findings) |
| Responses.DtcCodesCount | main.js:844-853 | fewer than three tokens give no codes; otherwise at most the declared count, and only complete pairs |
| Responses.DtcCodesDecode | main.js:847-852 | code i decodes to tokens 1+2i and 2+2i |
| Responses.DtcCodesOfBytes | main.js:840-857 | on a reply's bytes, code i is the code of bytes 1+2i and 2+2i, for min(count, pairs) codes |

## Left out

- I/O and inter-process messaging are not modelled: the serial adapter, the Electron IPC handlers in `main.js`, and the timers' real clock.
- Backups, the renderer and the preload bridge are not modelled: `backupRestore.js`, `App.tsx`, `app.js` and `preload.js` are not part of this model.
- The main-process parsers with fractional results (`parseRPM`, throttle, engine load, fuel level) are not modelled, because they divide into floating-point values.
- Hex inputs to the class helpers are assumed to be even-length runs of hex digits. The source strips whitespace (in the ISO-TP, UDS and protocol helpers), and an odd or non-hex digit there yields NaN. Both are outside the model.
- Numeric arguments that the source packs into one byte are required to be bytes. The source would emit a longer hex pair for a value above 255.
- `parseInt(text, 16)` is modelled on its sign, its `0x` prefix and the longest run of hex digits. Leading whitespace is not modelled.
- `toLowerCase` is modelled for ASCII letters only.
- The security lockout timer is modelled as a pending-expiry counter and an explicit `LockoutExpired` step. Real time and the 10-second delay are not modelled.
- JavaScript objects with integer-like keys reorder those keys. Catalogue keys here are strings like "0x010C", which keep insertion order. Prototype keys such as "constructor" are not modelled.
- Parameters.ValidateValue: models the error kinds, not the message texts, as a `ValidationError` datatype.
- A custom parameter added at run time always has a name in the model, and a missing `requiresSecurity` reads as false.
- Parameters.GetParameter: returns None when the catalogue has no "standard" table, where the source would throw. The database's `Valid` invariant keeps that table present.
- Parameters.Hit: the search evaluates the description only when the name misses. The model decides the crash the same way, so results agree.
- Uds.WriteMemoryByAddress: writes of 256 or more data bytes are not modelled. There `(addressLength << 4) | dataBytes.length` is no longer a byte, and the command would carry three hex digits for it.
- Uds.ReadMemoryByAddress: an `addressLength` of 16 or more is not modelled, for the same reason. Size lengths up to 255 are modelled.
- Responses.ParseDtc: models `parseDTC` with the corrected `parseDTCCode`. The source as written returns, for each announced pair, "P0undefined" followed by hex digits 2-3 of the pair (`Responses.DtcCodeAsWrittenLosesCode`), so "01 01 33" gives `["P0undefined13"]`, where the model gives `["P0133"]`.
- NissanProtocol.DefaultDataStream: the source takes `slice(0, 16)` of the 13 declared stream parameters. So the default request names 13 parameters, not 16.

## Findings

| source | as written | input that shows it | evidently intended | confidence | as-written member | corrected member |
|---|---|---|---|---|---|---|
| main.js:859-866 | `parseDTCCode` indexes characters of the four-digit hex string as if they were bytes. So the first letter and digit are always "P0", the third is `undefined`, and the tail is hex digits 2-3 | tokens "01" "33" | "P0133" per SAE J2012: two bits of system letter, then the digits of the two bytes | high, not executed | Responses.DtcCodeAsWrittenExample | Responses.DtcRoundTrip |
| isotp.js:21-53 | `encode` never checks `maxDataLength`, and the first frame keeps only 12 bits of the length | a 4096-byte payload | reject payloads above 4095 bytes | high, not executed | IsoTp.OversizedPayloadLost | IsoTp.EncodeCheckedRoundTrip |
| uds.js:207-219 | `writeMemoryByAddress` ORs the unmasked data length into the format byte and sends no memorySize field | 16 data bytes at the default address length: format byte 0x30, which announces no data | a memorySize field whose width is the low nibble, as ISO 14229-1 lays out the request | medium, not executed | Uds.WriteMemoryLengthOverflow | Uds.WriteMemorySizedLayout |
